/** First-match evaluation of policies and the placement of a granted allow rule. */
module Grant {
  import opened Wire
  import opened Text
  import opened PolicyStore

  // ------------------------------------------------------------- evaluation

  /** Who asks for what: group identifiers, folded user names, and the address objects covering the destination. */
  datatype Query = Query(groups: set<string>, users: set<string>, addrs: set<string>)

  /** The first group of the policy that is one of the query's; "" when there is none. */
  function FirstGroupMatch(policyGroups: seq<string>, groups: set<string>): string {
    if policyGroups == [] then ""
    else if policyGroups[0] in groups then policyGroups[0]
    else FirstGroupMatch(policyGroups[1..], groups)
  }

  predicate UserMatch(policyUsers: seq<string>, users: set<string>) {
    exists i :: 0 <= i < |policyUsers| && Fold(policyUsers[i]) in users
  }

  predicate DestMatch(dest: Option<seq<string>>, addrs: set<string>) {
    dest.Some? && exists i :: 0 <= i < |dest.value| && dest.value[i] in addrs
  }

  predicate Matches(p: Policy, q: Query) {
    && p.enabled
    && (FirstGroupMatch(p.sourceGroups, q.groups) != "" || UserMatch(p.sourceUsers, q.users))
    && DestMatch(p.dest, q.addrs)
  }

  /** Index of the first policy that matches, or the length of the list. */
  function FirstMatch(ps: seq<Policy>, q: Query): (i: nat)
    ensures i <= |ps|
    ensures forall k :: 0 <= k < i ==> !Matches(ps[k], q)
    ensures i < |ps| ==> Matches(ps[i], q)
  {
    if ps == [] then 0 else if Matches(ps[0], q) then 0 else 1 + FirstMatch(ps[1..], q)
  }

  /** First match wins. */
  function Decide(ps: seq<Policy>, q: Query): Option<Policy> {
    var i := FirstMatch(ps, q);
    if i == |ps| then None else Some(ps[i])
  }

  // -------------------------------------------------------------- placement

  datatype Placement = Placement(sequence: int, shifts: seq<Policy>, blocking: Option<Policy>)

  function Shifted(ps: seq<Policy>): (r: seq<Policy>)
    ensures |r| == |ps|
    ensures forall i :: 0 <= i < |r| ==> r[i] == ps[i].(sequence := ps[i].sequence + 10)
  {
    seq(|ps|, i requires 0 <= i < |ps| => ps[i].(sequence := ps[i].sequence + 10))
  }

  function PreviousSequence(ps: seq<Policy>, i: nat): int
    requires i <= |ps|
  {
    if i == 0 then 0 else ps[i - 1].sequence
  }

  /** The slot directly above policy i is taken. */
  predicate Dense(ps: seq<Policy>, i: nat)
    requires i <= |ps|
  {
    i < |ps| && ps[i].sequence - PreviousSequence(ps, i) < 2
  }

  /** The sequence of a new policy above policy i: past the end, the policy's own, or the middle of the gap. */
  function SlotAt(ps: seq<Policy>, i: nat): int
    requires i <= |ps|
  {
    var prev := PreviousSequence(ps, i);
    if i == |ps| then prev + 10
    else if Dense(ps, i) then ps[i].sequence
    else prev + (ps[i].sequence - prev) / 2
  }

  function ShiftsAt(ps: seq<Policy>, i: nat): seq<Policy>
    requires i <= |ps|
  {
    if Dense(ps, i) then Shifted(ps[i..]) else []
  }

  /** The slot above the first match, the policies to shift for it, and the deny it overrides. */
  function Place(ps: seq<Policy>, q: Query): Placement {
    var i := FirstMatch(ps, q);
    Placement(SlotAt(ps, i), ShiftsAt(ps, i), if i < |ps| && ps[i].action == "deny" then Some(ps[i]) else None)
  }

  /** The policy map after the shifted copies were stored one by one. */
  function ApplyShifts(m: map<string, Policy>, shifts: seq<Policy>): map<string, Policy> {
    if shifts == [] then m
    else var k := |shifts| - 1; ApplyShifts(m, shifts[..k])[shifts[k].id := shifts[k]]
  }

  /** The policy map after a grant above policy i. */
  function GrantedAt(m: map<string, Policy>, ps: seq<Policy>, i: nat, rule: Policy): map<string, Policy>
    requires i <= |ps|
  {
    ApplyShifts(m, ShiftsAt(ps, i))[rule.id := rule.(sequence := SlotAt(ps, i))]
  }

  function Granted(m: map<string, Policy>, ps: seq<Policy>, q: Query, rule: Policy): map<string, Policy> {
    GrantedAt(m, ps, FirstMatch(ps, q), rule)
  }

  /** A list without the policies of one identifier. */
  function Without(ps: seq<Policy>, id: string): (r: seq<Policy>) {
    if ps == [] then [] else (if ps[0].id == id then [] else [ps[0]]) + Without(ps[1..], id)
  }

  /** The policies from i on as a grant above i leaves them. */
  function TailAt(ps: seq<Policy>, i: nat): (r: seq<Policy>)
    requires i <= |ps|
    ensures |r| == |ps| - i
    ensures forall k :: 0 <= k < |r| ==>
              r[k] == if Dense(ps, i) then ps[i + k].(sequence := ps[i + k].sequence + 10) else ps[i + k]
  {
    if Dense(ps, i) then Shifted(ps[i..]) else ps[i..]
  }

  function InsertedAt(ps: seq<Policy>, i: nat, rule: Policy): seq<Policy>
    requires i <= |ps|
  {
    Without(ps[..i], rule.id) + [rule.(sequence := SlotAt(ps, i))] + Without(TailAt(ps, i), rule.id)
  }

  /** The list with the rule inserted just above its first match; an older rule of the same identifier goes. */
  function Inserted(ps: seq<Policy>, q: Query, rule: Policy): seq<Policy> {
    InsertedAt(ps, FirstMatch(ps, q), rule)
  }

  // ------------------------------------------------------------ strict order

  ghost predicate Strict(ps: seq<Policy>) { forall i, j :: 0 <= i < j < |ps| ==> ps[i].sequence < ps[j].sequence }

  ghost predicate Positive(m: map<string, Policy>) { forall id :: id in m ==> m[id].sequence > 0 }

  ghost predicate Below(ps: seq<Policy>, x: int) { forall p :: p in ps ==> p.sequence < x }

  ghost predicate Above(ps: seq<Policy>, x: int) { forall p :: p in ps ==> p.sequence > x }

  lemma StrictJoin(xs: seq<Policy>, p: Policy, ys: seq<Policy>)
    requires Strict(xs) && Strict(ys) && Below(xs, p.sequence) && Above(ys, p.sequence)
    ensures Strict(xs + [p] + ys)
  {
    var all := xs + [p] + ys;
    forall i, j | 0 <= i < j < |all| ensures all[i].sequence < all[j].sequence {
      if i < |xs| { assert all[i] == xs[i] && xs[i] in xs; }
      if j > |xs| { assert all[j] == ys[j - |xs| - 1] && ys[j - |xs| - 1] in ys; }
      if j < |xs| { assert all[j] == xs[j]; }
      if i > |xs| { assert all[i] == ys[i - |xs| - 1]; }
    }
  }

  lemma {:induction false} WithoutMembers(ps: seq<Policy>, id: string)
    ensures forall p :: p in Without(ps, id) <==> p in ps && p.id != id
  {
    if ps == [] {
    } else {
      WithoutMembers(ps[1..], id);
      assert ps == [ps[0]] + ps[1..];
    }
  }

  lemma {:induction false} WithoutStrict(ps: seq<Policy>, id: string)
    requires Strict(ps)
    ensures Strict(Without(ps, id))
  {
    if ps == [] {
    } else {
      WithoutStrict(ps[1..], id);
      WithoutMembers(ps[1..], id);
      var rest := Without(ps[1..], id);
      forall j | 0 <= j < |rest| ensures ps[0].sequence < rest[j].sequence {
        assert rest[j] in ps[1..];
        var i :| 0 <= i < |ps[1..]| && ps[1..][i] == rest[j];
        assert ps[i + 1] == rest[j];
      }
    }
  }

  lemma {:induction false} WithoutAbsent(ps: seq<Policy>, id: string)
    requires forall p :: p in ps ==> p.id != id
    ensures Without(ps, id) == ps
  {
    if ps == [] {
    } else {
      WithoutAbsent(ps[1..], id);
      assert ps == [ps[0]] + ps[1..];
    }
  }

  lemma ListingStrict(ps: seq<Policy>, m: map<string, Policy>)
    requires IsListing(ps, m) && DistinctSequences(m)
    ensures Strict(ps)
  {
    forall i, j | 0 <= i < j < |ps| ensures ps[i].sequence < ps[j].sequence {
      assert ps[i] in ps && ps[j] in ps;
      assert ps[i].id != ps[j].id;
    }
  }

  /** A strictly ordered list of exactly the policies of a map is its listing, and the sequences are distinct. */
  lemma StrictListing(ps: seq<Policy>, m: map<string, Policy>)
    requires Strict(ps) && Keyed(m)
    requires forall p :: p in ps ==> p.id in m && m[p.id] == p
    requires forall id :: id in m ==> m[id] in ps
    ensures IsListing(ps, m) && DistinctSequences(m)
  {
    forall i, j | 0 <= i < j < |ps| ensures ps[i].id != ps[j].id {
      assert ps[i] in ps && ps[j] in ps;
    }
    forall x, y | x in m && y in m && x != y ensures m[x].sequence != m[y].sequence {
      var i :| 0 <= i < |ps| && ps[i] == m[x];
      var j :| 0 <= j < |ps| && ps[j] == m[y];
      assert i != j;
    }
  }

  // -------------------------------------------------- a grant is an insertion

  lemma {:induction false} ShiftsApplied(m: map<string, Policy>, shifts: seq<Policy>)
    requires DistinctIds(shifts) && Keyed(m) && forall k :: 0 <= k < |shifts| ==> shifts[k].id in m
    ensures var r := ApplyShifts(m, shifts);
            && Keyed(r) && r.Keys == m.Keys
            && (forall k :: 0 <= k < |shifts| ==> r[shifts[k].id] == shifts[k])
            && (forall id :: id in m && (forall k :: 0 <= k < |shifts| ==> shifts[k].id != id) ==> r[id] == m[id])
  {
    if shifts == [] {
    } else {
      var k := |shifts| - 1;
      var before := ApplyShifts(m, shifts[..k]);
      ShiftsApplied(m, shifts[..k]);
      assert forall j :: 0 <= j < k ==> shifts[..k][j] == shifts[j];
      assert forall j :: 0 <= j < k ==> before[shifts[j].id] == shifts[j];
    }
  }

  /** Storing new copies of the tail of a listing leaves its head and the copies in the map. */
  lemma TailStored(m: map<string, Policy>, xs: seq<Policy>, ys: seq<Policy>, zs: seq<Policy>)
    requires Keyed(m) && IsListing(xs + ys, m)
    requires |zs| == |ys| && forall k :: 0 <= k < |ys| ==> zs[k].id == ys[k].id
    ensures var r := ApplyShifts(m, zs);
            && Keyed(r) && r.Keys == m.Keys
            && (forall p :: p in xs ==> p.id in r && r[p.id] == p)
            && (forall p :: p in zs ==> p.id in r && r[p.id] == p)
            && (forall id :: id in r ==> r[id] in xs || r[id] in zs)
  {
    hide ApplyShifts;
    var all := xs + ys;
    assert forall k :: 0 <= k < |all| ==> all[k] in all;
    assert forall k :: 0 <= k < |ys| ==> ys[k] == all[|xs| + k];
    ShiftsApplied(m, zs);
    var r := ApplyShifts(m, zs);
    forall p | p in xs ensures p.id in r && r[p.id] == p {
      var j :| 0 <= j < |xs| && xs[j] == p;
      assert all[j] == p;
      assert forall k :: 0 <= k < |zs| ==> zs[k].id == all[|xs| + k].id != p.id;
    }
    forall id | id in r ensures r[id] in xs || r[id] in zs {
      var k :| 0 <= k < |all| && all[k] == m[id];
      if k < |xs| {
        assert m[id] in xs;
      } else {
        assert zs[k - |xs|].id == id;
      }
    }
  }

  /** After the shifts the map holds the head of the list and its moved tail. */
  lemma MovedEntries(m: map<string, Policy>, ps: seq<Policy>, i: nat)
    requires Keyed(m) && IsListing(ps, m) && i <= |ps|
    ensures var r := ApplyShifts(m, ShiftsAt(ps, i));
            && Keyed(r) && r.Keys == m.Keys
            && (forall p :: p in ps[..i] ==> p.id in r && r[p.id] == p)
            && (forall p :: p in TailAt(ps, i) ==> p.id in r && r[p.id] == p)
            && (forall id :: id in r ==> r[id] in ps[..i] || r[id] in TailAt(ps, i))
  {
    hide IsListing, Dense;
    assert ps == ps[..i] + ps[i..];
    if Dense(ps, i) {
      hide ApplyShifts;
      TailStored(m, ps[..i], ps[i..], Shifted(ps[i..]));
    } else {
      ListingParts(m, ps[..i], ps[i..]);
    }
  }

  lemma ListingParts(m: map<string, Policy>, xs: seq<Policy>, ys: seq<Policy>)
    requires IsListing(xs + ys, m)
    ensures forall p :: p in xs || p in ys ==> p.id in m && m[p.id] == p
    ensures forall id :: id in m ==> m[id] in xs || m[id] in ys
  {
    assert forall p :: p in xs + ys <==> p in xs || p in ys;
  }

  /** Where the new sequence falls between the two parts of the list. */
  lemma SlotBetween(ps: seq<Policy>, i: nat)
    requires Strict(ps) && i <= |ps| && forall k :: 0 <= k < |ps| ==> ps[k].sequence > 0
    ensures SlotAt(ps, i) > 0
    ensures forall k :: 0 <= k < i ==> ps[k].sequence < SlotAt(ps, i)
    ensures forall k :: 0 <= k < |ps| - i ==> TailAt(ps, i)[k].sequence > SlotAt(ps, i)
    ensures Strict(TailAt(ps, i))
  {
    forall k | 0 <= k < i ensures ps[k].sequence <= PreviousSequence(ps, i) {
    }
    forall k | i <= k < |ps| ensures ps[k].sequence >= ps[i].sequence {
    }
  }

  /**
   * Where the new sequence is put: ten past the last policy, ten in an empty list, halfway into the
   * gap above a match, or in the place of the match, which then moves down by ten with its tail.
   */
  lemma SlotExact(ps: seq<Policy>, q: Query)
    requires Strict(ps) && forall k :: 0 <= k < |ps| ==> ps[k].sequence > 0
    ensures var i, slot := FirstMatch(ps, q), Place(ps, q).sequence;
            var above := if i == 0 then 0 else ps[i - 1].sequence;
            && (i == |ps| ==> slot == above + 10 && Place(ps, q).shifts == [])
            && (i < |ps| && ps[i].sequence - above >= 2 ==>
                  0 <= (ps[i].sequence - slot) - (slot - above) <= 1 && Place(ps, q).shifts == [])
            && (i < |ps| && ps[i].sequence - above < 2 ==>
                  && slot == ps[i].sequence && |Place(ps, q).shifts| == |ps| - i
                  && forall k :: 0 <= k < |ps| - i ==>
                       Place(ps, q).shifts[k] == ps[i + k].(sequence := ps[i + k].sequence + 10))
  {
    hide FirstMatch;
  }

  lemma InsertedStrict(ps: seq<Policy>, i: nat, rule: Policy)
    requires Strict(ps) && i <= |ps| && forall k :: 0 <= k < |ps| ==> ps[k].sequence > 0
    ensures Strict(InsertedAt(ps, i, rule))
    ensures forall p :: p in InsertedAt(ps, i, rule) ==> p.sequence > 0
  {
    hide SlotAt, Dense, Without;
    var tail := TailAt(ps, i);
    SlotBetween(ps, i);
    WithoutMembers(ps[..i], rule.id);
    WithoutMembers(tail, rule.id);
    WithoutStrict(ps[..i], rule.id);
    WithoutStrict(tail, rule.id);
    StrictJoin(Without(ps[..i], rule.id), rule.(sequence := SlotAt(ps, i)), Without(tail, rule.id));
  }

  lemma InsertedEntries(m: map<string, Policy>, ps: seq<Policy>, i: nat, rule: Policy)
    requires Keyed(m) && IsListing(ps, m) && i <= |ps|
    ensures var r, all := GrantedAt(m, ps, i, rule), InsertedAt(ps, i, rule);
            && Keyed(r)
            && (forall p :: p in all ==> p.id in r && r[p.id] == p)
            && (forall id :: id in r ==> r[id] in all)
  {
    hide IsListing, ApplyShifts, SlotAt, Without, TailAt;
    MovedEntries(m, ps, i);
    WithoutMembers(ps[..i], rule.id);
    WithoutMembers(TailAt(ps, i), rule.id);
  }

  /** The listing after a grant above any policy i, or past the end. */
  lemma InsertedListing(m: map<string, Policy>, ps: seq<Policy>, i: nat, rule: Policy)
    requires Keyed(m) && Positive(m) && DistinctSequences(m) && IsListing(ps, m) && i <= |ps|
    ensures var r := GrantedAt(m, ps, i, rule);
            Keyed(r) && Positive(r) && DistinctSequences(r) && IsListing(InsertedAt(ps, i, rule), r)
  {
    hide IsListing, DistinctSequences, GrantedAt, InsertedAt, Strict;
    ListingStrict(ps, m);
    ListingPositive(ps, m);
    InsertedStrict(ps, i, rule);
    InsertedEntries(m, ps, i, rule);
    StrictListing(InsertedAt(ps, i, rule), GrantedAt(m, ps, i, rule));
  }

  lemma ListingPositive(ps: seq<Policy>, m: map<string, Policy>)
    requires IsListing(ps, m) && Positive(m)
    ensures forall k :: 0 <= k < |ps| ==> ps[k].sequence > 0
  {
    forall k | 0 <= k < |ps| ensures ps[k].sequence > 0 {
      assert ps[k] in ps;
    }
  }

  /**
   * A grant is exactly an insertion. Over positive, pairwise distinct sequences the listing after
   * all shifts and the create is the old list with the new rule just above its first match, or at
   * the end; other policies change at most in sequence, and sequences stay positive and distinct.
   */
  lemma GrantIsInsertion(m: map<string, Policy>, ps: seq<Policy>, q: Query, rule: Policy, ps': seq<Policy>)
    requires Keyed(m) && Positive(m) && DistinctSequences(m) && IsListing(ps, m)
    requires IsListing(ps', Granted(m, ps, q, rule))
    ensures ps' == Inserted(ps, q, rule)
    ensures Positive(Granted(m, ps, q, rule)) && DistinctSequences(Granted(m, ps, q, rule))
  {
    hide IsListing, DistinctSequences, Positive, GrantedAt, InsertedAt;
    var i := FirstMatch(ps, q);
    InsertedListing(m, ps, i, rule);
    ListingUnique(ps', InsertedAt(ps, i, rule), GrantedAt(m, ps, i, rule));
  }
}
