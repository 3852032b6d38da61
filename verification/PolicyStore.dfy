/** The versioned policy store: policies by identifier, ten retained versions, an expiring edit lock. */
module PolicyStore {
  import opened Wire

  const MAX_VERSIONS := 10
  const LOCK_DURATION := 1800

  /** A policy; `details` stands for the fields neither the store nor the assistant looks at. */
  datatype Policy = Policy(
    id: string,
    name: string,
    sequence: int,
    enabled: bool,
    sourceUsers: seq<string>,
    sourceGroups: seq<string>,
    dest: Option<seq<string>>,
    action: string,
    details: string)

  datatype ChangeType = Created | Updated | Deleted | Reverted

  /** A point-in-time snapshot of all policies and the change that made it. */
  datatype Version = Version(
    version: nat, policies: seq<Policy>, author: string, change: ChangeType, policyId: string)

  datatype ConfigLock = ConfigLock(lockedBy: string, lockedAt: int, expiresAt: int)

  datatype State = State(
    policies: map<string, Policy>, versions: seq<Version>, version: nat, lock: Option<ConfigLock>)

  const EMPTY := State(map[], [], 0, None)

  // --------------------------------------------------------------- listings

  predicate Keyed(m: map<string, Policy>) { forall id :: id in m ==> m[id].id == id }

  ghost predicate Sorted(r: seq<Policy>) { forall i, j :: 0 <= i < j < |r| ==> r[i].sequence <= r[j].sequence }

  ghost predicate DistinctIds(r: seq<Policy>) { forall i, j :: 0 <= i < j < |r| ==> r[i].id != r[j].id }

  /** r is the policy set m sorted by sequence; policies of equal sequence may come in any order. */
  ghost predicate IsListing(r: seq<Policy>, m: map<string, Policy>) {
    && Sorted(r)
    && DistinctIds(r)
    && (forall p :: p in r ==> p.id in m && m[p.id] == p)
    && (forall id :: id in m ==> m[id] in r)
  }

  ghost predicate DistinctSequences(m: map<string, Policy>) {
    forall x, y :: x in m && y in m && x != y ==> m[x].sequence != m[y].sequence
  }

  lemma ListingTail(r: seq<Policy>, m: map<string, Policy>)
    requires Keyed(m) && IsListing(r, m) && r != []
    ensures IsListing(r[1..], m - {r[0].id})
  {
    var m' := m - {r[0].id};
    forall p | p in r[1..] ensures p.id in m' && m'[p.id] == p {
      var i :| 0 <= i < |r[1..]| && r[1..][i] == p;
      assert p == r[i + 1];
    }
    forall id | id in m' ensures m'[id] in r[1..] {
      var i :| 0 <= i < |r| && r[i] == m[id];
      assert r[1..][i - 1] == m[id];
    }
  }

  lemma ListingHead(r: seq<Policy>, m: map<string, Policy>, id: string)
    requires IsListing(r, m) && id in m
    ensures r != [] && r[0].sequence <= m[id].sequence
  {
    var i :| 0 <= i < |r| && r[i] == m[id];
  }

  /** With distinct sequences there is only one listing. */
  lemma {:induction false} ListingUnique(r1: seq<Policy>, r2: seq<Policy>, m: map<string, Policy>)
    requires Keyed(m) && DistinctSequences(m) && IsListing(r1, m) && IsListing(r2, m)
    ensures r1 == r2
  {
    if r1 == [] {
      if r2 != [] {
        assert r2[0] in r2;
        ListingHead(r1, m, r2[0].id);
      }
    } else {
      assert r1[0] in r1;
      ListingHead(r2, m, r1[0].id);
      assert r2[0] in r2;
      ListingHead(r1, m, r2[0].id);
      assert r1[0] == r2[0];
      ListingTail(r1, m);
      ListingTail(r2, m);
      ListingUnique(r1[1..], r2[1..], m - {r1[0].id});
      assert r1 == [r1[0]] + r1[1..] && r2 == [r2[0]] + r2[1..];
    }
  }

  /** The map a snapshot stands for. */
  function SnapshotMap(r: seq<Policy>): (m: map<string, Policy>)
    ensures Keyed(m)
  {
    if r == [] then map[] else var k := |r| - 1; SnapshotMap(r[..k])[r[k].id := r[k]]
  }

  lemma {:induction false} SnapshotEntries(r: seq<Policy>)
    requires DistinctIds(r)
    ensures forall p :: p in r ==> p.id in SnapshotMap(r) && SnapshotMap(r)[p.id] == p
    ensures forall id :: id in SnapshotMap(r) ==> SnapshotMap(r)[id] in r
  {
    if r == [] {
    } else {
      var k := |r| - 1;
      SnapshotEntries(r[..k]);
      assert r == r[..k] + [r[k]];
    }
  }

  lemma SnapshotOfListing(r: seq<Policy>, m: map<string, Policy>)
    requires Keyed(m) && IsListing(r, m)
    ensures SnapshotMap(r) == m
  {
    SnapshotEntries(r);
    forall id | id in m ensures id in SnapshotMap(r) && SnapshotMap(r)[id] == m[id] {
      assert m[id] in r;
    }
    forall id | id in SnapshotMap(r) ensures id in m {
      assert SnapshotMap(r)[id] in r;
    }
  }

  // -------------------------------------------------------------- transitions

  datatype Op =
    | Create(p: Policy)
    | Update(p: Policy)
    | Delete(id: string)
    | Revert(target: nat)
    | Lock
    | Unlock(force: bool)
    | GetLock

  /** Another author holds the lock and it has not expired. */
  predicate Refused(s: State, author: string, now: int) {
    s.lock.Some? && now <= s.lock.value.expiresAt && s.lock.value.lockedBy != author
  }

  ghost predicate IsMaxSequence(m: map<string, Policy>, x: int) {
    && 0 <= x
    && (forall id :: id in m ==> m[id].sequence <= x)
    && (x == 0 || exists id :: id in m && m[id].sequence == x)
  }

  /** The policy as Create stores it: at the end when it came without a sequence. */
  ghost predicate Sequenced(m: map<string, Policy>, p: Policy, q: Policy) {
    if p.sequence <= 0 then exists x :: IsMaxSequence(m, x) && q == p.(sequence := x + 10) else q == p
  }

  function Retained(vs: seq<Version>): seq<Version> { if |vs| >= MAX_VERSIONS then vs[1..] else vs }

  /** s' is s with the policy set replaced and a version recorded for it. */
  ghost predicate Commits(s: State, s': State, policies: map<string, Policy>, author: string, change: ChangeType,
                          id: string) {
    && s'.policies == policies
    && s'.version == s.version + 1
    && s'.lock == s.lock
    && exists snap :: IsListing(snap, policies) &&
                      s'.versions == Retained(s.versions) + [Version(s.version + 1, snap, author, change, id)]
  }

  function FindVersion(vs: seq<Version>, n: nat): (r: Option<Version>)
    ensures r.Some? ==> r.value in vs && r.value.version == n
    ensures r.None? ==> forall v :: v in vs ==> v.version != n
  {
    if vs == [] then None else if vs[0].version == n then Some(vs[0]) else FindVersion(vs[1..], n)
  }

  ghost predicate Next(s: State, op: Op, author: string, now: int, s': State) {
    match op
    case Create(p) =>
      if Refused(s, author, now) then s' == s
      else exists q :: Sequenced(s.policies, p, q) && Commits(s, s', s.policies[q.id := q], author, Created, q.id)
    case Update(p) =>
      if Refused(s, author, now) || p.id !in s.policies then s' == s
      else Commits(s, s', s.policies[p.id := p], author, Updated, p.id)
    case Delete(id) =>
      if Refused(s, author, now) || id !in s.policies then s' == s
      else Commits(s, s', s.policies - {id}, author, Deleted, id)
    case Revert(n) =>
      var target := FindVersion(s.versions, n);
      if target.None? then s' == s
      else Commits(s, s', SnapshotMap(target.value.policies), author, Reverted, "")
    case Lock =>
      if s.lock.Some? && now < s.lock.value.expiresAt && s.lock.value.lockedBy != author then s' == s
      else s' == s.(lock := Some(ConfigLock(author, now, now + LOCK_DURATION)))
    case Unlock(force) =>
      if s.lock.Some? && (force || s.lock.value.lockedBy == author) then s' == s.(lock := None) else s' == s
    case GetLock =>
      if s.lock.Some? && now > s.lock.value.expiresAt then s' == s.(lock := None) else s' == s
  }

  // --------------------------------------------------------- history invariant

  /** The history holds the last min(version, 10) versions, numbered without a gap; the newest is the current set. */
  ghost predicate HistoryInv(s: State) {
    && Keyed(s.policies)
    && |s.versions| == (if s.version < MAX_VERSIONS then s.version else MAX_VERSIONS)
    && (forall i :: 0 <= i < |s.versions| ==> s.versions[i].version == s.version - |s.versions| + 1 + i)
    && (forall i :: 0 <= i < |s.versions| ==> Sorted(s.versions[i].policies) && DistinctIds(s.versions[i].policies))
    && (if s.version == 0 then s.policies == map[] else IsListing(s.versions[|s.versions| - 1].policies, s.policies))
  }

  lemma CommitKeepsHistory(s: State, s': State, policies: map<string, Policy>, author: string, change: ChangeType,
                           id: string)
    requires HistoryInv(s) && Keyed(policies) && Commits(s, s', policies, author, change, id)
    ensures HistoryInv(s')
  {
  }

  lemma NextKeepsHistory(s: State, op: Op, author: string, now: int, s': State)
    requires HistoryInv(s) && Next(s, op, author, now, s')
    ensures HistoryInv(s')
    ensures s'.version == s.version || s'.version == s.version + 1
    ensures s'.version == s.version ==> s'.policies == s.policies && s'.versions == s.versions
  {
    hide IsListing, HistoryInv, Sequenced;
    assert Keyed(s.policies) by { HistoryKeyed(s); }
    match op {
      case Create(p) =>
        if !Refused(s, author, now) {
          var q :| Sequenced(s.policies, p, q) && Commits(s, s', s.policies[q.id := q], author, Created, q.id);
          CommitKeepsHistory(s, s', s.policies[q.id := q], author, Created, q.id);
        }
      case Update(p) =>
        if s' != s { CommitKeepsHistory(s, s', s.policies[p.id := p], author, Updated, p.id); }
      case Delete(id) =>
        if s' != s { CommitKeepsHistory(s, s', s.policies - {id}, author, Deleted, id); }
      case Revert(n) =>
        var target := FindVersion(s.versions, n);
        if target.Some? {
          CommitKeepsHistory(s, s', SnapshotMap(target.value.policies), author, Reverted, "");
        }
      case _ =>
        LockKeepsHistory(s, s'.lock);
        assert s' == s.(lock := s'.lock);
    }
  }

  lemma LockKeepsHistory(s: State, lock: Option<ConfigLock>)
    requires HistoryInv(s)
    ensures HistoryInv(s.(lock := lock))
  {
  }

  lemma HistoryKeyed(s: State)
    requires HistoryInv(s)
    ensures Keyed(s.policies)
  {
  }

  datatype Call = Call(op: Op, author: string, now: int)

  /** A run: the states before and after each call. */
  ghost predicate IsRun(ss: seq<State>, calls: seq<Call>) {
    && |ss| == |calls| + 1
    && forall i :: 0 <= i < |calls| ==> Next(ss[i], calls[i].op, calls[i].author, calls[i].now, ss[i + 1])
  }

  lemma {:induction false} RunKeepsHistory(ss: seq<State>, calls: seq<Call>, i: nat)
    requires IsRun(ss, calls) && ss[0] == EMPTY && i < |ss|
    ensures HistoryInv(ss[i])
    ensures |ss[i].versions| == if ss[i].version < 10 then ss[i].version else 10
  {
    if i == 0 {
    } else {
      RunKeepsHistory(ss, calls, i - 1);
      NextKeepsHistory(ss[i - 1], calls[i - 1].op, calls[i - 1].author, calls[i - 1].now, ss[i]);
    }
  }

  lemma NewestIsNew(s: State, op: Op, author: string, now: int, s': State, v: Version)
    requires HistoryInv(s) && Next(s, op, author, now, s') && v in s'.versions
    ensures v in s.versions || v.version == s.version + 1
  {
    var i :| 0 <= i < |s'.versions| && s'.versions[i] == v;
    var kept := Retained(s.versions);
    if s'.version != s.version && i < |kept| {
      assert s'.versions[i] == kept[i];
      assert kept[i] in s.versions;
    }
  }

  /** A retained version is never altered: the same number always names the same record. */
  lemma {:induction false} VersionsNeverChange(ss: seq<State>, calls: seq<Call>, i: nat, j: nat, v: Version, w: Version)
    requires IsRun(ss, calls) && ss[0] == EMPTY && i <= j < |ss|
    requires v in ss[i].versions && w in ss[j].versions && v.version == w.version
    ensures v == w
    decreases j - i
  {
    hide Next, HistoryInv;
    RunKeepsHistory(ss, calls, i);
    VersionBound(ss[i], v);
    if i == j {
      NumberedAlike(ss[i], v, w);
    } else {
      RunKeepsHistory(ss, calls, j - 1);
      NewestIsNew(ss[j - 1], calls[j - 1].op, calls[j - 1].author, calls[j - 1].now, ss[j], w);
      VersionsOnlyGrow(ss, calls, i, j - 1);
      if w in ss[j - 1].versions {
        VersionsNeverChange(ss, calls, i, j - 1, v, w);
      }
    }
  }

  lemma NumberedAlike(s: State, v: Version, w: Version)
    requires HistoryInv(s) && v in s.versions && w in s.versions && v.version == w.version
    ensures v == w
  {
  }

  lemma {:induction false} VersionsOnlyGrow(ss: seq<State>, calls: seq<Call>, i: nat, j: nat)
    requires IsRun(ss, calls) && ss[0] == EMPTY && i <= j < |ss|
    ensures ss[i].version <= ss[j].version <= ss[i].version + (j - i)
    decreases j - i
  {
    hide Next, HistoryInv;
    if i < j {
      VersionsOnlyGrow(ss, calls, i, j - 1);
      RunKeepsHistory(ss, calls, j - 1);
      NextKeepsHistory(ss[j - 1], calls[j - 1].op, calls[j - 1].author, calls[j - 1].now, ss[j]);
    }
  }

  // ---------------------------------------------------------- revert and diff

  datatype Change = Added | Removed | Modified

  function DiffOf(from: map<string, Policy>, to: map<string, Policy>): map<string, Change> {
    map id | id in from.Keys + to.Keys && !(id in from && id in to && from[id] == to[id]) ::
      if id !in from then Added else if id !in to then Removed else Modified
  }

  /** Adding, overwriting and removing just the reported policies. */
  function Patch(from: map<string, Policy>, changes: map<string, Change>, to: map<string, Policy>): map<string, Policy>
    requires forall id :: id in changes && !changes[id].Removed? ==> id in to
  {
    map id | id in from.Keys + changes.Keys && !(id in changes && changes[id].Removed?) ::
      if id in changes then to[id] else from[id]
  }

  /** A diff is complete and reports nothing superfluous. */
  lemma DiffComplete(from: map<string, Policy>, to: map<string, Policy>)
    ensures Patch(from, DiffOf(from, to), to) == to
    ensures DiffOf(from, to) == map[] <==> from == to
    ensures forall changes: map<string, Change> ::
              (forall id :: id in changes && !changes[id].Removed? ==> id in to) && Patch(from, changes, to) == to
              ==> DiffOf(from, to).Keys <= changes.Keys
  {
    var d := DiffOf(from, to);
    if d == map[] {
      forall id | id in from ensures id in to && to[id] == from[id] { assert id !in d; }
      forall id | id in to ensures id in from { assert id !in d; }
    }
    forall changes: map<string, Change>, id |
      (forall id :: id in changes && !changes[id].Removed? ==> id in to) && Patch(from, changes, to) == to && id in d
      ensures id in changes
    {
    }
  }

  /** What each reported change means, and that a diff the other way reports the opposite changes. */
  lemma DiffKinds(from: map<string, Policy>, to: map<string, Policy>, id: string)
    ensures var d := DiffOf(from, to);
            && (id in d && d[id] == Added <==> id in to && id !in from)
            && (id in d && d[id] == Removed <==> id in from && id !in to)
            && (id in d && d[id] == Modified <==> id in from && id in to && from[id] != to[id])
    ensures DiffOf(to, from).Keys == DiffOf(from, to).Keys
    ensures id in DiffOf(from, to) ==>
              DiffOf(to, from)[id] ==
              match DiffOf(from, to)[id] { case Added => Removed case Removed => Added case Modified => Modified }
  {
  }

  lemma {:induction false} FindVersionAt(vs: seq<Version>, i: nat)
    requires i < |vs| && forall j, k :: 0 <= j < k < |vs| ==> vs[j].version != vs[k].version
    ensures FindVersion(vs, vs[i].version) == Some(vs[i])
  {
    if i == 0 {
    } else {
      FindVersionAt(vs[1..], i - 1);
    }
  }

  /** What Diff reports for two retained versions; None when one of them is not retained. */
  function DiffVersions(vs: seq<Version>, from: nat, to: nat): Option<map<string, Change>> {
    var f, t := FindVersion(vs, from), FindVersion(vs, to);
    if f.None? || t.None? then None
    else Some(DiffOf(SnapshotMap(f.value.policies), SnapshotMap(t.value.policies)))
  }

  /** What a diff of two versions reports of a policy, from the first to the second; nothing if either is gone. */
  lemma DiffReport(vs: seq<Version>, from: nat, to: nat, id: string)
    ensures DiffVersions(vs, from, to).None? <==> FindVersion(vs, from).None? || FindVersion(vs, to).None?
    ensures DiffVersions(vs, from, to).Some? ==>
              var d := DiffVersions(vs, from, to).value;
              var old' := SnapshotMap(FindVersion(vs, from).value.policies);
              var new' := SnapshotMap(FindVersion(vs, to).value.policies);
              && (id in d && d[id] == Added <==> id !in old' && id in new')
              && (id in d && d[id] == Removed <==> id in old' && id !in new')
              && (id in d && d[id] == Modified <==> id in old' && id in new' && old'[id] != new'[id])
  {
    hide SnapshotMap, FindVersion;
  }

  lemma HistoryNumbers(s: State)
    requires HistoryInv(s)
    ensures forall j, k :: 0 <= j < k < |s.versions| ==> s.versions[j].version != s.versions[k].version
  {
  }

  /** The newest version stands for the current policies. */
  lemma NewestSnapshot(s: State)
    requires HistoryInv(s) && s.version > 0
    ensures FindVersion(s.versions, s.version).Some?
    ensures SnapshotMap(FindVersion(s.versions, s.version).value.policies) == s.policies
  {
    var last := |s.versions| - 1;
    FindVersionAt(s.versions, last);
    SnapshotOfListing(s.versions[last].policies, s.policies);
  }

  /** A version retained across a call is found unaltered after it. */
  lemma StillFound(s: State, c: Call, s': State, n: nat)
    requires HistoryInv(s) && Next(s, c.op, c.author, c.now, s')
    requires FindVersion(s.versions, n).Some? && FindVersion(s'.versions, n).Some?
    ensures FindVersion(s'.versions, n) == FindVersion(s.versions, n)
  {
    hide Next, HistoryInv;
    var again := FindVersion(s'.versions, n).value;
    NewestIsNew(s, c.op, c.author, c.now, s', again);
    HistoryNumbers(s);
    VersionBound(s, FindVersion(s.versions, n).value);
    var j :| 0 <= j < |s.versions| && s.versions[j] == again;
    FindVersionAt(s.versions, j);
  }

  lemma VersionBound(s: State, v: Version)
    requires HistoryInv(s) && v in s.versions
    ensures v.version <= s.version
  {
  }

  /** A revert restores the target's policy set, whoever holds the lock, and a diff against it shows nothing. */
  lemma RevertRestores(s: State, n: nat, author: string, now: int, s': State)
    requires HistoryInv(s) && Next(s, Revert(n), author, now, s')
    ensures FindVersion(s.versions, n).None? ==> s' == s
    ensures FindVersion(s.versions, n).Some? ==>
              && s'.policies == SnapshotMap(FindVersion(s.versions, n).value.policies)
              && s'.version == s.version + 1
              && (FindVersion(s'.versions, n).Some? ==> DiffVersions(s'.versions, n, s'.version) == Some(map[]))
  {
    hide IsListing, DiffOf, HistoryInv;
    if FindVersion(s.versions, n).Some? {
      NextKeepsHistory(s, Revert(n), author, now, s');
      NewestSnapshot(s');
      if FindVersion(s'.versions, n).Some? {
        StillFound(s, Call(Revert(n), author, now), s', n);
        DiffComplete(s'.policies, s'.policies);
      }
    }
  }

  // ------------------------------------------------------------ lock exclusion

  predicate Edits(op: Op) { op.Create? || op.Update? || op.Delete? }

  /** A call that would release A's lock. */
  predicate Releases(c: Call, holder: string) { c.op.Unlock? && (c.op.force || c.author == holder) }

  ghost predicate Held(s: State, holder: string, until: int) {
    s.lock.Some? && s.lock.value.lockedBy == holder && until <= s.lock.value.expiresAt
  }

  lemma HeldStep(s: State, c: Call, holder: string, taken: int, s': State)
    requires Held(s, holder, taken + LOCK_DURATION) && Next(s, c.op, c.author, c.now, s')
    requires taken <= c.now < taken + LOCK_DURATION && !Releases(c, holder)
    ensures Held(s', holder, taken + LOCK_DURATION)
    ensures Edits(c.op) && c.author != holder ==> s' == s
  {
  }

  /**
   * From the moment an author takes the lock until it expires, and as long as it is not released,
   * every edit by another author is refused and changes nothing; so every version that an edit
   * commits in that time is the holder's.
   */
  lemma {:induction false} LockExcludes(ss: seq<State>, calls: seq<Call>, i: nat, j: nat)
    requires IsRun(ss, calls) && i < j < |calls|
    requires forall x, y :: 0 <= x < y < |calls| ==> calls[x].now <= calls[y].now
    requires calls[i].op == Lock && ss[i + 1].lock ==
             Some(ConfigLock(calls[i].author, calls[i].now, calls[i].now + LOCK_DURATION))
    requires calls[j].now < calls[i].now + LOCK_DURATION
    requires forall k :: i < k <= j ==> !Releases(calls[k], calls[i].author)
    ensures Held(ss[j + 1], calls[i].author, calls[i].now + LOCK_DURATION)
    ensures Edits(calls[j].op) && calls[j].author != calls[i].author ==> ss[j + 1] == ss[j]
    ensures Edits(calls[j].op) && ss[j + 1].version != ss[j].version ==>
              calls[j].author == calls[i].author
                && ss[j + 1].versions[|ss[j + 1].versions| - 1].author == calls[i].author
    decreases j
  {
    hide Next;
    if j > i + 1 {
      LockExcludes(ss, calls, i, j - 1);
    }
    HeldStep(ss[j], calls[j], calls[i].author, calls[i].now, ss[j + 1]);
    if ss[j + 1].version != ss[j].version && Edits(calls[j].op) {
      CommittedAuthor(ss[j], calls[j], ss[j + 1]);
    }
  }

  lemma CommittedAuthor(s: State, c: Call, s': State)
    requires Next(s, c.op, c.author, c.now, s') && Edits(c.op) && s'.version != s.version
    ensures s'.versions != [] && s'.versions[|s'.versions| - 1].author == c.author
  {
  }
}
