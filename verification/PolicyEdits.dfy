/** What each edit of the store does to the policies, to the decisions, to the record, and under a lock. */
module PolicyEdits {
  import opened Wire
  import opened PolicyStore
  import opened Grant
  import opened GrantDecisions
  import opened Assistant

  /** The edit finds what it names. */
  predicate Applicable(s: State, op: Op) {
    (op.Update? ==> op.p.id in s.policies) && (op.Delete? ==> op.id in s.policies)
  }

  /** The policy an edit is about. */
  function EditedId(op: Op): string
    requires Edits(op)
  {
    match op
    case Create(p) => p.id
    case Update(p) => p.id
    case Delete(id) => id
  }

  /**
   * An edit commits exactly one version if and only if no other author's lock stands in its way and it
   * finds what it names; it touches no other policy. A refused one changes nothing at all.
   */
  lemma EditTakesEffect(s: State, op: Op, author: string, now: int, s': State)
    requires Keyed(s.policies) && Edits(op) && Next(s, op, author, now, s')
    ensures var locked := s.lock.Some? && s.lock.value.lockedBy != author && now <= s.lock.value.expiresAt;
            && (s'.version == s.version + 1 <==> !locked && Applicable(s, op))
            && (locked || !Applicable(s, op) ==> s' == s)
    ensures forall x :: x != EditedId(op) ==>
              (x in s'.policies <==> x in s.policies) && (x in s.policies ==> s'.policies[x] == s.policies[x])
    ensures s'.lock == s.lock
  {
  }

  /** A delete deletes, an update overwrites, a create stores the policy, behind all others if it has no sequence. */
  lemma EditedPolicy(s: State, op: Op, author: string, now: int, s': State)
    requires Keyed(s.policies) && Edits(op) && Next(s, op, author, now, s') && s'.version != s.version
    ensures op.Delete? ==> op.id !in s'.policies
    ensures op.Update? ==> op.p.id in s'.policies && s'.policies[op.p.id] == op.p
    ensures op.Create? && op.p.sequence > 0 ==> op.p.id in s'.policies && s'.policies[op.p.id] == op.p
    ensures op.Create? && op.p.sequence <= 0 ==>
              && op.p.id in s'.policies
              && var q := s'.policies[op.p.id];
                 && q == op.p.(sequence := q.sequence) && q.sequence >= 10
                 && (forall x :: x in s.policies ==> s.policies[x].sequence + 10 <= q.sequence)
                 && (q.sequence == 10 || exists x :: x in s.policies && s.policies[x].sequence + 10 == q.sequence)
  {
  }

  /** The version an edit records: its number, its author, what was done to which policy, and the new listing. */
  lemma EditRecorded(s: State, op: Op, author: string, now: int, s': State)
    requires Edits(op) && Next(s, op, author, now, s') && s'.version != s.version
    ensures s'.versions != []
    ensures var v := s'.versions[|s'.versions| - 1];
            && v.version == s.version + 1 && v.author == author && v.policyId == EditedId(op)
            && v.change == (match op { case Create(_) => Created case Update(_) => Updated case Delete(_) => Deleted })
            && IsListing(v.policies, s'.policies)
    ensures s'.versions[..|s'.versions| - 1] == if |s.versions| >= 10 then s.versions[1..] else s.versions
  {
    hide IsListing;
  }

  // ------------------------------------------------------------------- locks

  /** The lock is taken if and only if nobody else holds it or it has run out; it then stands for thirty minutes. */
  lemma LockTakenIff(s: State, author: string, now: int, s': State)
    requires Next(s, Lock, author, now, s')
    ensures s'.lock == Some(ConfigLock(author, now, now + 1800)) <==>
            s.lock.None? || s.lock.value.lockedBy == author || now >= s.lock.value.expiresAt
    ensures s'.lock == s.lock || s'.lock == Some(ConfigLock(author, now, now + 1800))
    ensures s' == s.(lock := s'.lock)
  {
  }

  /** A release is for the holder or by force; looking at a lock clears it once it has run out. */
  lemma LockReleasedIff(s: State, op: Op, author: string, now: int, s': State)
    requires (op.Unlock? || op.GetLock?) && Next(s, op, author, now, s')
    ensures s' == s.(lock := s'.lock) && (s'.lock.None? || s'.lock == s.lock)
    ensures op.Unlock? ==> (s'.lock.None? <==> s.lock.None? || op.force || s.lock.value.lockedBy == author)
    ensures op.GetLock? ==> (s'.lock.None? <==> s.lock.None? || now > s.lock.value.expiresAt)
  {
  }

  /** A lock that has run out holds up nobody: every edit that finds what it names is committed. */
  lemma LapsedLock(s: State, op: Op, author: string, now: int, s': State)
    requires Keyed(s.policies) && Edits(op) && Applicable(s, op) && Next(s, op, author, now, s')
    requires s.lock.None? || now > s.lock.value.expiresAt
    ensures s'.version == s.version + 1
    ensures s'.versions != [] && s'.versions[|s'.versions| - 1].author == author
  {
    EditTakesEffect(s, op, author, now, s');
    EditRecorded(s, op, author, now, s');
  }

  // ------------------------------------------------------- deletes and decisions

  lemma {:induction false} ListingWithout(ps: seq<Policy>, m: map<string, Policy>, id: string)
    requires Keyed(m) && DistinctSequences(m) && IsListing(ps, m)
    ensures IsListing(Without(ps, id), m - {id}) && DistinctSequences(m - {id})
  {
    hide Without, Strict;
    ListingStrict(ps, m);
    WithoutStrict(ps, id);
    WithoutMembers(ps, id);
    StrictListing(Without(ps, id), m - {id});
  }

  /**
   * After a delete no listing holds the policy, the others stand in their order, every query it did
   * not match keeps its decision, and one it decided falls to the next match.
   */
  lemma DeleteTakesEffect(s: State, id: string, author: string, now: int, s': State, ps: seq<Policy>, ps': seq<Policy>)
    requires WellSequenced(s.policies) && IsListing(ps, s.policies) && IsListing(ps', s'.policies)
    requires Next(s, Delete(id), author, now, s') && s'.version != s.version
    ensures ps' == Without(ps, id) && forall p :: p in ps' ==> p.id != id
    ensures forall q: Query :: !Matches(s.policies[id], q) ==> Decide(ps', q) == Decide(ps, q)
    ensures forall q: Query, i: nat :: i < |ps| && ps[i].id == id && Decide(ps[..i], q).None? ==>
              Decide(ps', q) == Decide(ps[i + 1..], q)
  {
    hide IsListing, DistinctSequences, Without, Decide, Matches;
    DeleteRemoves(s, id, author, now, s');
    ListingWithout(ps, s.policies, id);
    ListingUnique(ps', Without(ps, id), s'.policies);
    WithoutMembers(ps, id);
    ListedOnce(ps, s.policies, id);
    forall q: Query | !Matches(s.policies[id], q) ensures Decide(ps', q) == Decide(ps, q) {
      DecideWithout(ps, id, q);
    }
    forall q: Query, i: nat | i < |ps| && ps[i].id == id && Decide(ps[..i], q).None?
      ensures Decide(ps', q) == Decide(ps[i + 1..], q)
    {
      WithoutOne(ps, i, id, s.policies);
      DecideConcat(ps[..i], ps[i + 1..], q);
    }
  }

  lemma DeleteRemoves(s: State, id: string, author: string, now: int, s': State)
    requires Keyed(s.policies) && Next(s, Delete(id), author, now, s') && s'.version != s.version
    ensures s'.policies == s.policies - {id} && id in s.policies
  {
  }

  lemma ListedOnce(ps: seq<Policy>, m: map<string, Policy>, id: string)
    requires IsListing(ps, m) && id in m
    ensures forall p :: p in ps && p.id == id ==> p == m[id]
  {
  }

  lemma WithoutOne(ps: seq<Policy>, i: nat, id: string, m: map<string, Policy>)
    requires IsListing(ps, m) && i < |ps| && ps[i].id == id
    ensures Without(ps, id) == ps[..i] + ps[i + 1..]
  {
    OthersDiffer(ps, i, m);
    hide IsListing, Without;
    WithoutParts(ps, i, id);
    WithoutAbsent(ps[..i], id);
    WithoutAbsent(ps[i + 1..], id);
  }

  lemma WithoutParts(ps: seq<Policy>, i: nat, id: string)
    requires i < |ps| && ps[i].id == id
    ensures Without(ps, id) == Without(ps[..i], id) + Without(ps[i + 1..], id)
  {
    WithoutCut(ps[i..], id);
    hide Without;
    assert ps == ps[..i] + ps[i..];
    WithoutConcat(ps[..i], ps[i..], id);
    assert ps[i..][1..] == ps[i + 1..];
  }

  lemma WithoutCut(ps: seq<Policy>, id: string)
    requires ps != [] && ps[0].id == id
    ensures Without(ps, id) == Without(ps[1..], id)
  {
  }

  lemma OthersDiffer(ps: seq<Policy>, i: nat, m: map<string, Policy>)
    requires IsListing(ps, m) && i < |ps|
    ensures forall p :: p in ps[..i] || p in ps[i + 1..] ==> p.id != ps[i].id
  {
    assert DistinctIds(ps);
    hide IsListing;
  }

  lemma {:induction false} WithoutConcat(xs: seq<Policy>, ys: seq<Policy>, id: string)
    ensures Without(xs + ys, id) == Without(xs, id) + Without(ys, id)
  {
    if xs == [] {
      assert xs + ys == ys;
    } else {
      assert (xs + ys)[1..] == xs[1..] + ys;
      WithoutConcat(xs[1..], ys, id);
    }
  }

  // ----------------------------------------- edits of the store keep sequences

  /** The edits of the sequence invariant are those the store carries out. */
  lemma StoreEdit(s: State, op: Op, author: string, now: int, s': State)
    requires Keyed(s.policies) && Next(s, op, author, now, s') && s'.version != s.version
    ensures op.Delete? ==> EditStep(s.policies, Remove(op.id), s'.policies)
    ensures op.Create? && op.p.sequence <= 0 ==> EditStep(s.policies, AutoCreate(op.p), s'.policies)
  {
    if op.Create? && op.p.sequence <= 0 {
      var q :| Sequenced(s.policies, op.p, q) && Commits(s, s', s.policies[q.id := q], author, Created, q.id);
      assert Sequenced(s.policies, op.p, q) && s'.policies == s.policies[q.id := q];
    }
  }

  /** Calls that leave the choice of sequences to the store. */
  predicate AutoSequenced(op: Op) { !op.Update? && !op.Revert? && (op.Create? ==> op.p.sequence <= 0) }

  /** In every run of such calls on an empty store all sequences are positive and pairwise distinct. */
  lemma {:induction false} StoreKeepsSequences(ss: seq<State>, calls: seq<Call>, i: nat)
    requires IsRun(ss, calls) && ss[0] == EMPTY && i < |ss|
    requires forall k :: 0 <= k < |calls| ==> AutoSequenced(calls[k].op)
    ensures WellSequenced(ss[i].policies)
  {
    hide Next, EditStep, HistoryInv, DistinctSequences;
    if i == 0 {
      NothingStored();
    } else {
      var c := calls[i - 1];
      StoreKeepsSequences(ss, calls, i - 1);
      RunKeepsHistory(ss, calls, i - 1);
      NextKeepsHistory(ss[i - 1], c.op, c.author, c.now, ss[i]);
      if ss[i].version != ss[i - 1].version {
        StoreEdit(ss[i - 1], c.op, c.author, c.now, ss[i]);
        ChangesAreEdits(ss[i - 1], c.op, c.author, c.now, ss[i]);
        if c.op.Delete? {
          EditKeepsSequences(ss[i - 1].policies, Remove(c.op.id), ss[i].policies);
        } else {
          EditKeepsSequences(ss[i - 1].policies, AutoCreate(c.op.p), ss[i].policies);
        }
      }
    }
  }

  lemma NothingStored()
    ensures WellSequenced(EMPTY.policies)
  {
  }

  lemma ChangesAreEdits(s: State, op: Op, author: string, now: int, s': State)
    requires Next(s, op, author, now, s') && s'.version != s.version && AutoSequenced(op)
    ensures op.Delete? || op.Create?
  {
  }
}
