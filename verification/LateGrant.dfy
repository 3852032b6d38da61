/**
 * A grant whose shift loop meets another author's lock that expires on the way: exactly when the
 * result is still the insertion, and an input at which it is not.
 */
module LateGrant {
  import opened Wire
  import opened Text
  import opened PolicyStore
  import opened Grant
  import opened GrantDecisions
  import opened Assistant

  lemma {:induction false} NotShifted(m: map<string, Policy>, shifts: seq<Policy>, id: string)
    requires id in m && forall k :: 0 <= k < |shifts| ==> shifts[k].id != id
    ensures id in ApplyShifts(m, shifts) && ApplyShifts(m, shifts)[id] == m[id]
  {
    if shifts == [] {
    } else {
      NotShifted(m, shifts[..|shifts| - 1], id);
    }
  }

  lemma FirstMatchStays(m: map<string, Policy>, ps: seq<Policy>, i: nat, refused: nat)
    requires IsListing(ps, m) && i <= |ps| && 0 < refused <= |ShiftsAt(ps, i)|
    ensures i < |ps| && SlotAt(ps, i) == ps[i].sequence
    ensures ps[i].id in m && ApplyShifts(m, ShiftsAt(ps, i)[refused..]).Keys >= {ps[i].id}
    ensures ApplyShifts(m, ShiftsAt(ps, i)[refused..])[ps[i].id] == ps[i]
  {
    var rest := ShiftsAt(ps, i)[refused..];
    assert ps[i] in ps;
    forall k | 0 <= k < |rest|
      ensures rest[k].id != ps[i].id
    {
      assert rest[k].id == ps[i..][refused + k].id == ps[i + refused + k].id;
    }
    NotShifted(m, rest, ps[i].id);
  }

  /** No update of the shift loop is refused if and only if there is none or the first is not. */
  lemma RefusedNoneIff(s: State, author: string, clock: nat -> int, n: nat)
    requires IsClock(clock)
    ensures RefusedCalls(s, author, clock, n) == 0 <==> n == 0 || !Refused(s, author, clock(0))
  {
    hide IsClock;
  }

  /** The old rule is itself the first match. */
  ghost predicate ReplacesFirstMatch(ps: seq<Policy>, q: Query, rule: Policy) {
    FirstMatch(ps, q) < |ps| && ps[FirstMatch(ps, q)].id == rule.id
  }

  // ---------------------------------------------- the rule replaces its match

  /** The list with the rule in the place of policy i, and only the policies from j on shifted. */
  function LateList(ps: seq<Policy>, i: nat, j: nat, rule: Policy): (r: seq<Policy>)
    requires i < j <= |ps|
    ensures |r| == |ps|
  {
    ps[..j][i := rule.(sequence := ps[i].sequence)] + Shifted(ps[j..])
  }

  lemma LateListAt(ps: seq<Policy>, i: nat, j: nat, rule: Policy)
    requires i < j <= |ps|
    ensures forall k :: 0 <= k < |ps| ==>
              LateList(ps, i, j, rule)[k] ==
              if k == i then rule.(sequence := ps[i].sequence)
              else if k < j then ps[k]
              else ps[k].(sequence := ps[k].sequence + 10)
  {
  }

  lemma LateListStrict(ps: seq<Policy>, i: nat, j: nat, rule: Policy)
    requires i < j <= |ps| && Strict(ps)
    ensures Strict(LateList(ps, i, j, rule))
  {
    LateListAt(ps, i, j, rule);
    hide LateList;
    var all := LateList(ps, i, j, rule);
    assert forall k :: 0 <= k < |ps| ==> all[k].sequence == ps[k].sequence + if k < j then 0 else 10;
  }

  lemma LateShifts(ps: seq<Policy>, i: nat, n: nat)
    requires i <= |ps| && Dense(ps, i) && n <= |ShiftsAt(ps, i)|
    ensures i + n <= |ps| && ShiftsAt(ps, i)[n..] == Shifted(ps[i + n..])
  {
    assert ps[i..][n..] == ps[i + n..];
    assert forall k :: 0 <= k < |ps| - i - n ==> Shifted(ps[i..])[n..][k] == Shifted(ps[i + n..])[k];
  }

  /** The map holds exactly the policies of the two lists. */
  ghost predicate Holds(r: map<string, Policy>, xs: seq<Policy>, zs: seq<Policy>) {
    && Keyed(r)
    && (forall p :: p in xs ==> p.id in r && r[p.id] == p)
    && (forall p :: p in zs ==> p.id in r && r[p.id] == p)
    && (forall id :: id in r ==> r[id] in xs || r[id] in zs)
  }

  /** The stored policies when the policies from j on were shifted. */
  lemma LateEntries(m: map<string, Policy>, ps: seq<Policy>, j: nat)
    requires Keyed(m) && IsListing(ps, m) && j <= |ps|
    ensures Holds(ApplyShifts(m, Shifted(ps[j..])), ps[..j], Shifted(ps[j..]))
  {
    hide IsListing, ApplyShifts;
    assert ps[..j] + ps[j..] == ps;
    TailStored(m, ps[..j], ps[j..], Shifted(ps[j..]));
  }

  lemma ReplacedEntry(r: map<string, Policy>, ps: seq<Policy>, i: nat, j: nat, rule: Policy, k: nat)
    requires i < j <= |ps| && k < |ps| && ps[i].id == rule.id && DistinctIds(ps)
    requires Holds(r, ps[..j], Shifted(ps[j..]))
    ensures var r', p := r[rule.id := rule.(sequence := ps[i].sequence)], LateList(ps, i, j, rule)[k];
            p.id in r' && r'[p.id] == p
  {
    LateListAt(ps, i, j, rule);
    hide LateList;
    if k < j {
      assert ps[..j][k] == ps[k] && ps[k] in ps[..j];
    } else {
      var zs := Shifted(ps[j..]);
      assert zs[k - j] == ps[k].(sequence := ps[k].sequence + 10) && zs[k - j] in zs;
    }
  }

  lemma EntryReplaced(r: map<string, Policy>, ps: seq<Policy>, i: nat, j: nat, rule: Policy, id: string)
    requires i < j <= |ps| && ps[i].id == rule.id && id in r && id != rule.id
    requires Holds(r, ps[..j], Shifted(ps[j..]))
    ensures r[id] in LateList(ps, i, j, rule)
  {
    LateListAt(ps, i, j, rule);
    hide LateList;
    var xs, zs, all := ps[..j], Shifted(ps[j..]), LateList(ps, i, j, rule);
    if r[id] in xs {
      var k :| 0 <= k < j && xs[k] == r[id];
      assert k != i && all[k] == r[id];
    } else {
      var k :| 0 <= k < |zs| && zs[k] == r[id];
      assert all[j + k] == r[id];
    }
  }

  /** When the rule replaces its own match, a late grant lists as the old list with the rule in its place. */
  lemma ReplacedListing(m: map<string, Policy>, ps: seq<Policy>, i: nat, j: nat, rule: Policy)
    requires WellSequenced(m) && IsListing(ps, m) && i < j <= |ps| && ps[i].id == rule.id
    ensures var r := ApplyShifts(m, Shifted(ps[j..]))[rule.id := rule.(sequence := ps[i].sequence)];
            WellSequenced(r) && IsListing(LateList(ps, i, j, rule), r)
  {
    assert DistinctIds(ps);
    hide IsListing, ApplyShifts, DistinctSequences, Strict, Holds, DistinctIds;
    var all := LateList(ps, i, j, rule);
    var r := ApplyShifts(m, Shifted(ps[j..]))[rule.id := rule.(sequence := ps[i].sequence)];
    ListingStrict(ps, m);
    ListingPositive(ps, m);
    LateEntries(m, ps, j);
    LateListStrict(ps, i, j, rule);
    LateListAt(ps, i, j, rule);
    hide LateList;
    forall k | 0 <= k < |all| ensures all[k].id in r && r[all[k].id] == all[k] {
      ReplacedEntry(ApplyShifts(m, Shifted(ps[j..])), ps, i, j, rule, k);
    }
    forall id | id in r ensures r[id] in all && r[id].id == id {
      if id == rule.id {
        assert all[i] == r[id];
      } else {
        EntryReplaced(ApplyShifts(m, Shifted(ps[j..])), ps, i, j, rule, id);
        HoldsKeyed(ApplyShifts(m, Shifted(ps[j..])), ps[..j], Shifted(ps[j..]));
      }
    }
    StrictListing(all, r);
  }

  lemma HoldsKeyed(r: map<string, Policy>, xs: seq<Policy>, zs: seq<Policy>)
    requires Holds(r, xs, zs)
    ensures Keyed(r)
  {
  }

  // ------------------------------------------------------------- the condition

  lemma LateGranted(m: map<string, Policy>, ps: seq<Policy>, q: Query, rule: Policy, refused: nat)
    requires 0 < refused <= |Place(ps, q).shifts|
    ensures var i := FirstMatch(ps, q);
            && i < i + refused <= |ps|
            && GrantedLate(m, ps, q, rule, refused)
               == ApplyShifts(m, Shifted(ps[i + refused..]))[rule.id := rule.(sequence := ps[i].sequence)]
  {
    hide ApplyShifts;
    LateShifts(ps, FirstMatch(ps, q), refused);
  }

  /**
   * Exactly when a grant that gets through leaves the sequences positive and distinct: no update of
   * its shift loop was refused, or the first match is the rule's own old version. Otherwise the first
   * match keeps its place beside the rule, under one sequence.
   */
  lemma LateGrantIff(m: map<string, Policy>, ps: seq<Policy>, q: Query, rule: Policy, refused: nat)
    requires WellSequenced(m) && IsListing(ps, m) && refused <= |Place(ps, q).shifts|
    ensures WellSequenced(GrantedLate(m, ps, q, rule, refused))
            <==> refused == 0 || ReplacesFirstMatch(ps, q, rule)
    ensures refused == 0 ==> GrantedLate(m, ps, q, rule, refused) == Granted(m, ps, q, rule)
  {
    hide WellSequenced, IsListing, ApplyShifts, GrantedLate, Granted, LateList, Place;
    var i := FirstMatch(ps, q);
    if refused == 0 {
      NotLate(m, ps, q, rule);
      GrantKeepsSequences(m, ps, q, rule);
    } else {
      LateGranted(m, ps, q, rule, refused);
      if ReplacesFirstMatch(ps, q, rule) {
        ReplacedListing(m, ps, i, i + refused, rule);
      } else {
        Clash(m, ps, q, rule, refused);
      }
    }
  }

  lemma NotLate(m: map<string, Policy>, ps: seq<Policy>, q: Query, rule: Policy)
    ensures GrantedLate(m, ps, q, rule, 0) == Granted(m, ps, q, rule)
  {
    hide ApplyShifts;
    assert Place(ps, q).shifts[0..] == Place(ps, q).shifts;
  }

  lemma Clash(m: map<string, Policy>, ps: seq<Policy>, q: Query, rule: Policy, refused: nat)
    requires IsListing(ps, m) && 0 < refused <= |Place(ps, q).shifts| && !ReplacesFirstMatch(ps, q, rule)
    ensures !WellSequenced(GrantedLate(m, ps, q, rule, refused))
  {
    hide IsListing, ApplyShifts;
    var i, late := FirstMatch(ps, q), GrantedLate(m, ps, q, rule, refused);
    FirstMatchStays(m, ps, i, refused);
    assert ps[i].id in late && rule.id in late && late[ps[i].id].sequence == late[rule.id].sequence;
  }

  /** The same in terms known before the first call: the shifts, the lock, and the clock. */
  lemma LateGrantWhen(s: State, ps: seq<Policy>, q: Query, rule: Policy, author: string, clock: nat -> int)
    requires WellSequenced(s.policies) && IsListing(ps, s.policies) && IsClock(clock)
    ensures var shifts := Place(ps, q).shifts;
            WellSequenced(GrantedLate(s.policies, ps, q, rule, RefusedCalls(s, author, clock, |shifts|)))
            <==> shifts == [] || !Refused(s, author, clock(0)) || ReplacesFirstMatch(ps, q, rule)
  {
    hide WellSequenced, IsListing, IsClock, GrantedLate, Place;
    var n := |Place(ps, q).shifts|;
    RefusedNoneIff(s, author, clock, n);
    LateGrantIff(s.policies, ps, q, rule, RefusedCalls(s, author, clock, n));
  }

  // ------------------------------------------------ the order of the listings

  /** The same policies in the same order, sequences aside. */
  ghost predicate SameOrder(xs: seq<Policy>, ys: seq<Policy>) {
    |xs| == |ys| && forall k :: 0 <= k < |xs| ==> xs[k].(sequence := 0) == ys[k].(sequence := 0)
  }

  /** A rule that replaces its own match is inserted in its place. */
  lemma InsertedInPlace(ps: seq<Policy>, i: nat, rule: Policy)
    requires i < |ps| && ps[i].id == rule.id && DistinctIds(ps)
    ensures InsertedAt(ps, i, rule) == ps[..i] + [rule.(sequence := SlotAt(ps, i))] + TailAt(ps, i)[1..]
  {
    hide SlotAt, Without, Dense, DistinctIds;
    var front, tail := ps[..i], TailAt(ps, i);
    assert forall k :: 0 <= k < |tail| ==> tail[k].id == ps[i + k].id;
    WithoutHead(tail, rule.id) by { DistinctAround(ps, i); }
    WithoutAbsent(front, rule.id) by { DistinctAround(ps, i); }
  }

  lemma DistinctAround(ps: seq<Policy>, i: nat)
    requires i < |ps| && DistinctIds(ps)
    ensures forall k :: 0 <= k < |ps| && k != i ==> ps[k].id != ps[i].id
    ensures forall p :: p in ps[..i] ==> p.id != ps[i].id
  {
  }

  lemma WithoutHead(ps: seq<Policy>, id: string)
    requires ps != [] && ps[0].id == id && forall k :: 1 <= k < |ps| ==> ps[k].id != id
    ensures Without(ps, id) == ps[1..]
  {
    hide Without;
    var rest := ps[1..];
    assert forall p :: p in rest ==> p.id != id by {
      assert forall k :: 0 <= k < |rest| ==> rest[k] == ps[k + 1];
    }
    WithoutAbsent(rest, id);
    WithoutCons(ps, id);
  }

  lemma WithoutCons(ps: seq<Policy>, id: string)
    requires ps != []
    ensures Without(ps, id) == if ps[0].id == id then Without(ps[1..], id) else [ps[0]] + Without(ps[1..], id)
  {
  }

  lemma ReplacedOrder(ps: seq<Policy>, i: nat, j: nat, rule: Policy)
    requires i < j <= |ps| && ps[i].id == rule.id && DistinctIds(ps)
    ensures SameOrder(LateList(ps, i, j, rule), InsertedAt(ps, i, rule))
  {
    hide LateList, InsertedAt, DistinctIds, SlotAt, TailAt, Dense;
    InsertedInPlace(ps, i, rule);
    LateListAt(ps, i, j, rule);
    var tail, all := TailAt(ps, i)[1..], InsertedAt(ps, i, rule);
    assert forall k :: 0 <= k < |tail| ==> tail[k] == TailAt(ps, i)[k + 1];
    assert forall k :: i < k < |ps| ==> all[k] == tail[k - i - 1];
    assert forall k :: 0 <= k < i ==> all[k] == ps[k];
  }

  // ----------------------------------- the first match listed above the rule

  lemma ClashListing(front: seq<Policy>, rule: Policy, back: seq<Policy>, r: map<string, Policy>)
    requires Strict(front) && Strict(back)
    requires forall p :: p in front ==> p.sequence <= rule.sequence && p.id != rule.id && p.id in r && r[p.id] == p
    requires forall p :: p in back ==> p.sequence > rule.sequence && p.id != rule.id && p.id in r && r[p.id] == p
    requires rule.id in r && r[rule.id] == rule
    requires forall id :: id in r && id != rule.id ==> r[id] in front || r[id] in back
    ensures IsListing(front + [rule] + back, r)
  {
    var all, n := front + [rule] + back, |front|;
    assert all[n] == rule;
    assert forall k :: 0 <= k < n ==> all[k] == front[k] && all[k] in front;
    assert forall k :: n < k < |all| ==> all[k] == back[k - n - 1] && all[k] in back;
    forall a, b | 0 <= a < b < |all| ensures all[a].sequence <= all[b].sequence && all[a].id != all[b].id {
      if b < n || a > n {
        assert all[a].sequence < all[b].sequence;
      }
    }
    forall id | id in r ensures r[id] in all {
      if id == rule.id {
        assert all[n] in all;
      }
    }
  }

  /** The stored policies below the first match, the later of them shifted. */
  function Lower(ps: seq<Policy>, i: nat, j: nat): (r: seq<Policy>)
    requires i < j <= |ps|
    ensures |r| == |ps| - i - 1
    ensures forall k :: 0 <= k < |r| ==> r[k].sequence == ps[i + 1 + k].sequence + if i + 1 + k < j then 0 else 10
  {
    ps[i + 1..j] + Shifted(ps[j..])
  }

  lemma FrontStrict(ps: seq<Policy>, i: nat)
    requires i < |ps| && Strict(ps)
    ensures Strict(ps[..i + 1]) && forall p :: p in ps[..i + 1] ==> p.sequence <= ps[i].sequence
  {
    forall p | p in ps[..i + 1] ensures p.sequence <= ps[i].sequence {
      var k :| 0 <= k <= i && ps[k] == p;
    }
  }

  lemma BackStrict(ps: seq<Policy>, i: nat, j: nat)
    requires i < j <= |ps| && Strict(ps)
    ensures Strict(Lower(ps, i, j)) && forall p :: p in Lower(ps, i, j) ==> p.sequence > ps[i].sequence
  {
    hide Lower;
    var back := Lower(ps, i, j);
    forall p | p in back ensures p.sequence > ps[i].sequence {
      var k :| 0 <= k < |back| && back[k] == p;
      assert ps[i].sequence < ps[i + 1 + k].sequence;
    }
  }

  /** The listing in which the first match stands above the rule. */
  function ClashList(ps: seq<Policy>, i: nat, j: nat, rule: Policy): seq<Policy>
    requires i < j <= |ps|
  {
    Without(ps[..i + 1], rule.id) + [rule.(sequence := ps[i].sequence)]
    + Without(Lower(ps, i, j), rule.id)
  }

  lemma FirstMatchAbove(m: map<string, Policy>, ps: seq<Policy>, i: nat, j: nat, rule: Policy)
    requires WellSequenced(m) && IsListing(ps, m) && i < j <= |ps|
    ensures IsListing(ClashList(ps, i, j, rule),
                      ApplyShifts(m, Shifted(ps[j..]))[rule.id := rule.(sequence := ps[i].sequence)])
  {
    hide IsListing, ApplyShifts, DistinctSequences, Strict, Without, Holds, Lower;
    var front, back := ps[..i + 1], Lower(ps, i, j);
    var rule', r := rule.(sequence := ps[i].sequence), ApplyShifts(m, Shifted(ps[j..]));
    ListingStrict(ps, m);
    LateEntries(m, ps, j);
    PartsHold(r, ps, i, j);
    FrontStrict(ps, i);
    BackStrict(ps, i, j);
    WithoutMembers(front, rule.id);
    WithoutMembers(back, rule.id);
    WithoutStrict(front, rule.id);
    WithoutStrict(back, rule.id);
    ClashListing(Without(front, rule.id), rule', Without(back, rule.id), r[rule.id := rule']);
  }

  lemma PartsHold(r: map<string, Policy>, ps: seq<Policy>, i: nat, j: nat)
    requires i < j <= |ps| && Holds(r, ps[..j], Shifted(ps[j..]))
    ensures var front, back := ps[..i + 1], Lower(ps, i, j);
            && Keyed(r)
            && (forall p :: p in front || p in back ==> p.id in r && r[p.id] == p)
            && (forall id :: id in r ==> r[id] in front || r[id] in back)
  {
    assert ps[..j] == ps[..i + 1] + ps[i + 1..j];
  }

  lemma ClashOrder(ps: seq<Policy>, i: nat, j: nat, rule: Policy)
    requires i < j <= |ps| && ps[i].id != rule.id
    ensures !SameOrder(ClashList(ps, i, j, rule), InsertedAt(ps, i, rule))
  {
    hide SlotAt;
    var front := Without(ps[..i], rule.id);
    WithoutSnoc(ps[..i], ps[i], rule.id);
    hide Without;
    assert ps[..i + 1] == ps[..i] + [ps[i]];
    assert ClashList(ps, i, j, rule)[|front|] == ps[i];
    assert InsertedAt(ps, i, rule)[|front|].id == rule.id;
  }

  lemma {:induction false} WithoutSnoc(ps: seq<Policy>, p: Policy, id: string)
    ensures Without(ps + [p], id) == Without(ps, id) + if p.id == id then [] else [p]
  {
    if ps == [] {
      assert ps + [p] == [p];
    } else {
      assert (ps + [p])[1..] == ps[1..] + [p];
      WithoutSnoc(ps[1..], p, id);
    }
  }

  /**
   * Exactly when a grant that gets through is the insertion, whatever order the store lists policies
   * of equal sequence in: no update of its shift loop was refused, or the first match is the rule's
   * own old version. Otherwise the store may list the first match above the rule.
   */
  lemma LateGrantOrderIff(m: map<string, Policy>, ps: seq<Policy>, q: Query, rule: Policy, refused: nat)
    requires WellSequenced(m) && IsListing(ps, m) && refused <= |Place(ps, q).shifts|
    ensures (forall ps' ::
               IsListing(ps', GrantedLate(m, ps, q, rule, refused)) ==> SameOrder(ps', Inserted(ps, q, rule)))
            <==> refused == 0 || ReplacesFirstMatch(ps, q, rule)
  {
    hide *;
    if refused == 0 {
      OnTime(m, ps, q, rule);
    } else if ReplacesFirstMatch(ps, q, rule) {
      LateButInOrder(m, ps, q, rule, refused);
    } else {
      var ps' := LateOutOfOrder(m, ps, q, rule, refused);
    }
  }

  lemma OnTime(m: map<string, Policy>, ps: seq<Policy>, q: Query, rule: Policy)
    requires WellSequenced(m) && IsListing(ps, m)
    ensures forall ps' :: IsListing(ps', GrantedLate(m, ps, q, rule, 0)) ==> SameOrder(ps', Inserted(ps, q, rule))
  {
    hide IsListing, ApplyShifts, GrantedLate, Granted, Place, Inserted, SameOrder, DistinctSequences;
    NotLate(m, ps, q, rule);
    forall ps' | IsListing(ps', GrantedLate(m, ps, q, rule, 0)) ensures SameOrder(ps', Inserted(ps, q, rule)) {
      GrantIsInsertion(m, ps, q, rule, ps');
      SameIsSameOrder(ps');
    }
  }

  lemma LateButInOrder(m: map<string, Policy>, ps: seq<Policy>, q: Query, rule: Policy, refused: nat)
    requires WellSequenced(m) && IsListing(ps, m) && 0 < refused <= |Place(ps, q).shifts|
    requires ReplacesFirstMatch(ps, q, rule)
    ensures forall ps' :: IsListing(ps', GrantedLate(m, ps, q, rule, refused)) ==> SameOrder(ps', Inserted(ps, q, rule))
  {
    hide IsListing, ApplyShifts, GrantedLate, LateList, Place, InsertedAt, SameOrder, WellSequenced, FirstMatch,
         Matches;
    var i := FirstMatch(ps, q);
    LateGranted(m, ps, q, rule, refused);
    var late := GrantedLate(m, ps, q, rule, refused);
    var all := ReplacedInOrder(m, ps, i, i + refused, rule, late);
    OnlyListing(all, late);
  }

  lemma ReplacedInOrder(m: map<string, Policy>, ps: seq<Policy>, i: nat, j: nat, rule: Policy,
                        late: map<string, Policy>)
    returns (all: seq<Policy>)
    requires WellSequenced(m) && IsListing(ps, m) && i < j <= |ps| && ps[i].id == rule.id
    requires late == ApplyShifts(m, Shifted(ps[j..]))[rule.id := rule.(sequence := ps[i].sequence)]
    ensures WellSequenced(late) && IsListing(all, late) && SameOrder(all, InsertedAt(ps, i, rule))
  {
    hide IsListing, ApplyShifts, LateList, InsertedAt, SameOrder, WellSequenced, Shifted;
    ListingDistinct(ps, m);
    ReplacedListing(m, ps, i, j, rule);
    ReplacedOrder(ps, i, j, rule);
    all := LateList(ps, i, j, rule);
  }

  lemma ListingDistinct(ps: seq<Policy>, m: map<string, Policy>)
    requires IsListing(ps, m)
    ensures DistinctIds(ps)
  {
  }

  lemma OnlyListing(ps: seq<Policy>, m: map<string, Policy>)
    requires WellSequenced(m) && IsListing(ps, m)
    ensures forall ps' :: IsListing(ps', m) ==> ps' == ps
  {
    hide IsListing, DistinctSequences;
    forall ps' | IsListing(ps', m) ensures ps' == ps {
      ListingUnique(ps', ps, m);
    }
  }

  lemma LateOutOfOrder(m: map<string, Policy>, ps: seq<Policy>, q: Query, rule: Policy, refused: nat)
    returns (ps': seq<Policy>)
    requires WellSequenced(m) && IsListing(ps, m) && 0 < refused <= |Place(ps, q).shifts|
    requires !ReplacesFirstMatch(ps, q, rule)
    ensures IsListing(ps', GrantedLate(m, ps, q, rule, refused)) && !SameOrder(ps', Inserted(ps, q, rule))
  {
    hide IsListing, ApplyShifts, GrantedLate, ClashList, Place, InsertedAt, SameOrder, WellSequenced;
    var i := FirstMatch(ps, q);
    LateGranted(m, ps, q, rule, refused);
    FirstMatchAbove(m, ps, i, i + refused, rule);
    ClashOrder(ps, i, i + refused, rule);
    ps' := ClashList(ps, i, i + refused, rule);
  }

  lemma SameIsSameOrder(ps: seq<Policy>)
    ensures SameOrder(ps, ps)
  {
  }

  // ------------------------------------------------------------------ an input

  const DENY := Policy("d", "Deny", 1, true, [], ["g1"], Some(["a"]), "deny", "")

  /** A policy set with one dense deny, while another author holds the lock until 5. */
  const BUSY := State(map["d" := DENY], [], 0, Some(ConfigLock("bob", 0, 5)))

  const REQUEST := GrantRequest(User("ann", "", ""), ["g1"], GroupScope, {"a"}, "a", "n", "Allow")

  /**
   * A grant whose only update comes at 5, when the lock still stands, and whose create comes at 6: the
   * update is refused, the create is not, and the store may list the deny above the allow, so that the
   * deny still decides.
   */
  lemma LateGrantInput(clock: nat -> int)
    requires IsClock(clock) && clock(0) == 5 && clock(1) == 6
    ensures var ps, q, rule := [DENY], ScopeQuery(REQUEST), Rule(REQUEST);
            && WellSequenced(BUSY.policies) && IsListing(ps, BUSY.policies)
            && |Place(ps, q).shifts| == 1
            && RefusedCalls(BUSY, "ann", clock, 1) == 1 && !Refused(BUSY, "ann", clock(1))
            && exists ps' :: IsListing(ps', GrantedLate(BUSY.policies, ps, q, rule, 1)) && Decide(ps', q) == Some(DENY)
  {
    hide IsClock, IsListing, WellSequenced, GrantedLate, Place, FirstMatch, ClashList, Decide, RefusedCalls;
    var ps, q, rule := [DENY], ScopeQuery(REQUEST), Rule(REQUEST);
    DenyIsFirst();
    LateGranted(BUSY.policies, ps, q, rule, 1);
    FirstMatchAbove(BUSY.policies, ps, 0, 1, rule);
    DenyDecides();
    OneRefused(clock);
  }

  lemma DenyIsFirst()
    ensures var ps, q := [DENY], ScopeQuery(REQUEST);
            && WellSequenced(BUSY.policies) && IsListing(ps, BUSY.policies)
            && FirstMatch(ps, q) == 0 && |Place(ps, q).shifts| == 1
  {
    var ps, q := [DENY], ScopeQuery(REQUEST);
    assert DENY.sourceGroups[0] in q.groups && DENY.dest.value[0] in q.addrs && Matches(DENY, q);
    assert FirstMatch(ps, q) == 0 && Dense(ps, 0);
    assert DENY in ps;
  }

  lemma DenyDecides()
    ensures Decide(ClashList([DENY], 0, 1, Rule(REQUEST)), ScopeQuery(REQUEST)) == Some(DENY)
  {
    var ps, q := [DENY], ScopeQuery(REQUEST);
    var ps' := ClashList(ps, 0, 1, Rule(REQUEST));
    assert ps[..1] == [DENY] && [DENY][1..] == [];
    assert Without([DENY], "n") == [DENY] + Without([DENY][1..], "n");
    assert ps'[0] == DENY;
    assert DENY.sourceGroups[0] in q.groups && DENY.dest.value[0] in q.addrs && Matches(DENY, q);
  }

  lemma OneRefused(clock: nat -> int)
    requires IsClock(clock) && clock(0) == 5 && clock(1) == 6
    ensures RefusedCalls(BUSY, "ann", clock, 1) == 1 && !Refused(BUSY, "ann", clock(1))
  {
    assert Refused(BUSY, "ann", clock(0));
  }
}
