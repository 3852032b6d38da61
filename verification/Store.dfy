/** The policy store object. */
module Store {
  import opened Wire
  import opened PolicyStore

  datatype EditError = LockedByOther(holder: string) | NotFound

  // --------------------------------------------------------- sorting a map

  function InsertBySequence(r: seq<Policy>, p: Policy): (r': seq<Policy>)
    ensures |r'| == |r| + 1
  {
    if r == [] then [p]
    else if p.sequence < r[0].sequence then [p] + r
    else [r[0]] + InsertBySequence(r[1..], p)
  }

  lemma {:induction false} InsertMembers(r: seq<Policy>, p: Policy)
    ensures forall q :: q in InsertBySequence(r, p) <==> q in r || q == p
  {
    if r != [] && p.sequence >= r[0].sequence {
      InsertMembers(r[1..], p);
      assert r == [r[0]] + r[1..];
    }
  }

  lemma {:induction false} InsertOrdered(r: seq<Policy>, p: Policy)
    requires Sorted(r) && DistinctIds(r) && forall q :: q in r ==> q.id != p.id
    ensures Sorted(InsertBySequence(r, p)) && DistinctIds(InsertBySequence(r, p))
  {
    if r != [] && p.sequence >= r[0].sequence {
      InsertOrdered(r[1..], p);
      var rest := InsertBySequence(r[1..], p);
      InsertMembers(r[1..], p);
      forall j | 0 <= j < |rest| ensures r[0].sequence <= rest[j].sequence && r[0].id != rest[j].id {
        assert rest[j] in rest;
        if rest[j] in r[1..] {
          var i :| 0 <= i < |r[1..]| && r[1..][i] == rest[j];
          assert r[i + 1] == rest[j];
        }
      }
    }
  }

  lemma InsertListing(r: seq<Policy>, m: map<string, Policy>, p: Policy)
    requires IsListing(r, m) && Keyed(m) && p.id !in m
    ensures IsListing(InsertBySequence(r, p), m[p.id := p])
  {
    InsertMembers(r, p);
    InsertOrdered(r, p);
  }

  /** The policies sorted by sequence, taken from the map in no particular order. */
  method SortedPolicies(policies: map<string, Policy>) returns (r: seq<Policy>)
    requires Keyed(policies)
    ensures IsListing(r, policies)
  {
    r := [];
    var todo := policies.Keys;
    ghost var done: map<string, Policy> := map[];
    while todo != {}
      invariant todo <= policies.Keys
      invariant done == map id | id in policies && id !in todo :: policies[id]
      invariant IsListing(r, done)
      decreases todo
    {
      var id :| id in todo;
      InsertListing(r, done, policies[id]);
      r := InsertBySequence(r, policies[id]);
      done := done[id := policies[id]];
      todo := todo - {id};
    }
    assert done == policies;
  }

  /** The policy map of a snapshot, built entry by entry. */
  method RestoreMap(snapshot: seq<Policy>) returns (m: map<string, Policy>)
    ensures m == SnapshotMap(snapshot)
  {
    m := map[];
    for i := 0 to |snapshot|
      invariant m == SnapshotMap(snapshot[..i])
    {
      assert snapshot[..i + 1][..i] == snapshot[..i];
      m := m[snapshot[i].id := snapshot[i]];
    }
    assert snapshot[..|snapshot|] == snapshot;
  }

  method MaxSequence(policies: map<string, Policy>) returns (max: int)
    ensures IsMaxSequence(policies, max)
  {
    max := 0;
    var todo := policies.Keys;
    while todo != {}
      invariant todo <= policies.Keys
      invariant 0 <= max
      invariant forall id :: id in policies && id !in todo ==> policies[id].sequence <= max
      invariant max == 0 || exists id :: id in policies && policies[id].sequence == max
      decreases todo
    {
      var id :| id in todo;
      if policies[id].sequence > max {
        max := policies[id].sequence;
      }
      todo := todo - {id};
    }
  }

  /** The two passes over the snapshots: what was added, then what was removed or modified. */
  method DiffMaps(from: map<string, Policy>, to: map<string, Policy>) returns (changes: map<string, Change>)
    ensures changes == DiffOf(from, to)
  {
    changes := map[];
    var todo := to.Keys;
    while todo != {}
      invariant todo <= to.Keys
      invariant changes == map id | id in to && id !in todo && id !in from :: Added
      decreases todo
    {
      var id :| id in todo;
      if id !in from {
        changes := changes[id := Added];
      }
      todo := todo - {id};
    }
    todo := from.Keys;
    ghost var added := changes;
    while todo != {}
      invariant todo <= from.Keys
      invariant forall id :: id in changes <==>
                  id in added || (id in from && id !in todo && !(id in to && from[id] == to[id]))
      invariant forall id :: id in changes ==>
                  changes[id] == if id in added then Added else if id in to then Modified else Removed
      decreases todo
    {
      var id :| id in todo;
      if id !in to {
        changes := changes[id := Removed];
      } else if from[id] != to[id] {
        changes := changes[id := Modified];
      }
      todo := todo - {id};
    }
  }

  method SearchVersion(versions: seq<Version>, n: nat) returns (r: Option<Version>)
    ensures r == FindVersion(versions, n)
  {
    for i := 0 to |versions|
      invariant FindVersion(versions, n) == FindVersion(versions[i..], n)
    {
      assert versions[i..][1..] == versions[i + 1..];
      if versions[i].version == n {
        return Some(versions[i]);
      }
    }
    r := None;
  }

  // ------------------------------------------------------------- the object

  class PolicyStoreObject {
    var policies: map<string, Policy>
    var versions: seq<Version>
    var version: nat
    var lock: Option<ConfigLock>

    function View(): State
      reads this
    {
      State(policies, versions, version, lock)
    }

    ghost predicate Valid()
      reads this
    {
      HistoryInv(View())
    }

    constructor ()
      ensures Valid() && View() == EMPTY
    {
      policies, versions, version, lock := map[], [], 0, None;
    }

    method List() returns (r: seq<Policy>)
      requires Valid()
      ensures IsListing(r, policies)
    {
      r := SortedPolicies(policies);
    }

    method CheckLock(author: string, now: int) returns (holder: Option<string>)
      ensures holder.Some? <==> Refused(View(), author, now)
      ensures holder.Some? ==> lock.Some? && holder.value == lock.value.lockedBy
    {
      if lock.None? || now > lock.value.expiresAt {
        return None;
      }
      if lock.value.lockedBy != author {
        return Some(lock.value.lockedBy);
      }
      return None;
    }

    /** Records the policy set as a new version and drops the oldest beyond ten. */
    method Commit(author: string, change: ChangeType, id: string) returns (v: nat)
      requires Keyed(policies)
      modifies this`version, this`versions
      ensures Commits(old(View()), View(), policies, author, change, id)
      ensures v == version
    {
      version := version + 1;
      var snap := SortedPolicies(policies);
      if |versions| >= MAX_VERSIONS {
        versions := versions[1..];
      }
      versions := versions + [Version(version, snap, author, change, id)];
      v := version;
    }

    method CreatePolicy(p: Policy, author: string, now: int) returns (r: Result<nat, EditError>)
      requires Valid()
      modifies this
      ensures Next(old(View()), Create(p), author, now, View()) && Valid()
      ensures r.Err? <==> Refused(old(View()), author, now)
      ensures r.Err? ==> View() == old(View())
      ensures r.Ok? ==> r.value == version == old(version) + 1
      ensures r.Ok? ==>
                && policies.Keys == old(policies).Keys + {p.id}
                && (forall x :: x in old(policies) && x != p.id ==> policies[x] == old(policies)[x])
                && policies[p.id] == p.(sequence := policies[p.id].sequence)
                && (p.sequence > 0 ==> policies[p.id] == p)
    {
      hide IsListing, HistoryInv;
      ghost var s := View();
      HistoryKeyed(s);
      var holder := CheckLock(author, now);
      if holder.Some? {
        return Err(LockedByOther(holder.value));
      }
      var q := p;
      if q.sequence <= 0 {
        var max := MaxSequence(policies);
        q := q.(sequence := max + 10);
      }
      assert Sequenced(s.policies, p, q);
      policies := policies[q.id := q];
      var v := Commit(author, Created, q.id);
      assert Commits(s, View(), s.policies[q.id := q], author, Created, q.id);
      NextKeepsHistory(s, Create(p), author, now, View());
      r := Ok(v);
    }

    method UpdatePolicy(p: Policy, author: string, now: int) returns (r: Result<nat, EditError>)
      requires Valid()
      modifies this
      ensures Next(old(View()), Update(p), author, now, View()) && Valid()
      ensures r.Err? <==> Refused(old(View()), author, now) || p.id !in old(policies)
      ensures r.Err? ==> View() == old(View())
      ensures r.Ok? ==> r.value == version == old(version) + 1
      ensures r.Ok? ==> policies == old(policies)[p.id := p]
    {
      hide IsListing, HistoryInv;
      ghost var s := View();
      HistoryKeyed(s);
      var holder := CheckLock(author, now);
      if holder.Some? {
        return Err(LockedByOther(holder.value));
      }
      if p.id !in policies {
        return Err(NotFound);
      }
      policies := policies[p.id := p];
      var v := Commit(author, Updated, p.id);
      assert Commits(s, View(), s.policies[p.id := p], author, Updated, p.id);
      NextKeepsHistory(s, Update(p), author, now, View());
      r := Ok(v);
    }

    method DeletePolicy(id: string, author: string, now: int) returns (r: Result<nat, EditError>)
      requires Valid()
      modifies this
      ensures Next(old(View()), Delete(id), author, now, View()) && Valid()
      ensures r.Err? <==> Refused(old(View()), author, now) || id !in old(policies)
      ensures r.Err? ==> View() == old(View())
      ensures r.Ok? ==> r.value == version == old(version) + 1
      ensures r.Ok? ==>
                && policies.Keys == old(policies).Keys - {id}
                && (forall x :: x in policies ==> policies[x] == old(policies)[x])
    {
      hide IsListing, HistoryInv;
      ghost var s := View();
      HistoryKeyed(s);
      var holder := CheckLock(author, now);
      if holder.Some? {
        return Err(LockedByOther(holder.value));
      }
      if id !in policies {
        return Err(NotFound);
      }
      policies := policies - {id};
      var v := Commit(author, Deleted, id);
      assert Commits(s, View(), s.policies - {id}, author, Deleted, id);
      NextKeepsHistory(s, Delete(id), author, now, View());
      r := Ok(v);
    }

    method RevertTo(target: nat, author: string, now: int) returns (r: Result<nat, EditError>)
      requires Valid()
      modifies this
      ensures Next(old(View()), Revert(target), author, now, View()) && Valid()
      ensures r.Err? <==> FindVersion(old(versions), target).None?
      ensures r.Err? ==> View() == old(View())
      ensures r.Ok? ==> r.value == version == old(version) + 1
      ensures r.Ok? ==> policies == SnapshotMap(FindVersion(old(versions), target).value.policies)
    {
      hide IsListing, HistoryInv;
      ghost var s := View();
      HistoryKeyed(s);
      var found := SearchVersion(versions, target);
      if found.None? {
        return Err(NotFound);
      }
      policies := RestoreMap(found.value.policies);
      var v := Commit(author, Reverted, "");
      assert Commits(s, View(), SnapshotMap(found.value.policies), author, Reverted, "");
      NextKeepsHistory(s, Revert(target), author, now, View());
      r := Ok(v);
    }

    method Diff(from: nat, to: nat) returns (changes: Option<map<string, Change>>)
      ensures changes == DiffVersions(versions, from, to)
    {
      var f := SearchVersion(versions, from);
      var t := SearchVersion(versions, to);
      if f.None? || t.None? {
        return None;
      }
      var fromMap := RestoreMap(f.value.policies);
      var toMap := RestoreMap(t.value.policies);
      var d := DiffMaps(fromMap, toMap);
      changes := Some(d);
    }

    method AcquireLock(author: string, now: int) returns (ok: bool)
      requires Valid()
      modifies this`lock
      ensures Next(old(View()), Lock, author, now, View()) && Valid()
      ensures ok <==> old(lock).None? || old(lock).value.lockedBy == author || now >= old(lock).value.expiresAt
      ensures lock == if ok then Some(ConfigLock(author, now, now + 1800)) else old(lock)
    {
      if lock.Some? && now < lock.value.expiresAt && lock.value.lockedBy != author {
        return false;
      }
      lock := Some(ConfigLock(author, now, now + LOCK_DURATION));
      return true;
    }

    method ReleaseLock(author: string, force: bool, now: int) returns (ok: bool)
      requires Valid()
      modifies this`lock
      ensures Next(old(View()), Unlock(force), author, now, View()) && Valid()
      ensures ok <==> old(lock).None? || force || old(lock).value.lockedBy == author
      ensures lock == if ok then None else old(lock)
    {
      if lock.None? {
        return true;
      }
      if !force && lock.value.lockedBy != author {
        return false;
      }
      lock := None;
      return true;
    }

    method CurrentLock(author: string, now: int) returns (r: Option<ConfigLock>)
      requires Valid()
      modifies this`lock
      ensures Next(old(View()), GetLock, author, now, View()) && Valid()
      ensures r == lock
      ensures lock == if old(lock).Some? && now > old(lock).value.expiresAt then None else old(lock)
    {
      if lock.Some? && now > lock.value.expiresAt {
        lock := None;
      }
      return lock;
    }
  }
}
