/** The assistant: explaining decisions, placing rules, and applying grants to the policy store. */
module Assistant {
  import opened Wire
  import opened Text
  import opened PolicyStore
  import opened Store
  import opened Grant
  import opened GrantDecisions

  // --------------------------------------------------------- search loops

  method MatchGroup(policyGroups: seq<string>, groups: set<string>) returns (gid: string)
    ensures gid == FirstGroupMatch(policyGroups, groups)
  {
    for k := 0 to |policyGroups|
      invariant FirstGroupMatch(policyGroups, groups) == FirstGroupMatch(policyGroups[k..], groups)
    {
      assert policyGroups[k..][1..] == policyGroups[k + 1..];
      if policyGroups[k] in groups {
        return policyGroups[k];
      }
    }
    gid := "";
  }

  method MatchUser(policyUsers: seq<string>, users: set<string>) returns (found: bool)
    ensures found == UserMatch(policyUsers, users)
  {
    for k := 0 to |policyUsers|
      invariant forall i :: 0 <= i < k ==> Fold(policyUsers[i]) !in users
    {
      if Fold(policyUsers[k]) in users {
        return true;
      }
    }
    found := false;
  }

  method MatchDest(dest: Option<seq<string>>, addrs: set<string>) returns (found: bool)
    ensures found == DestMatch(dest, addrs)
  {
    if dest.None? {
      return false;
    }
    for k := 0 to |dest.value|
      invariant forall i :: 0 <= i < k ==> dest.value[i] !in addrs
    {
      if dest.value[k] in addrs {
        return true;
      }
    }
    found := false;
  }

  method MatchPolicy(p: Policy, q: Query) returns (found: bool)
    ensures found == Matches(p, q)
  {
    var gid := MatchGroup(p.sourceGroups, q.groups);
    var user := MatchUser(p.sourceUsers, q.users);
    var dest := MatchDest(p.dest, q.addrs);
    found := p.enabled && (gid != "" || user) && dest;
  }

  lemma {:induction false} FirstMatchAt(ps: seq<Policy>, q: Query, i: nat)
    requires i <= |ps| && (forall k :: 0 <= k < i ==> !Matches(ps[k], q)) && (i < |ps| ==> Matches(ps[i], q))
    ensures FirstMatch(ps, q) == i
  {
  }

  /** The evaluation loop of an access explanation: the first policy that matches decides. */
  method Explain(ps: seq<Policy>, q: Query) returns (r: Option<Policy>)
    ensures r == Decide(ps, q)
  {
    for i := 0 to |ps|
      invariant forall k :: 0 <= k < i ==> !Matches(ps[k], q)
    {
      var found := MatchPolicy(ps[i], q);
      if found {
        FirstMatchAt(ps, q, i);
        return Some(ps[i]);
      }
    }
    FirstMatchAt(ps, q, |ps|);
    r := None;
  }

  method ShiftTail(ps: seq<Policy>, i: nat) returns (shifts: seq<Policy>)
    requires i <= |ps|
    ensures shifts == Shifted(ps[i..])
  {
    shifts := [];
    for j := i to |ps|
      invariant |shifts| == j - i
      invariant forall k :: 0 <= k < j - i ==> shifts[k] == ps[i..][k].(sequence := ps[i..][k].sequence + 10)
    {
      var sp := ps[j];
      sp := sp.(sequence := sp.sequence + 10);
      shifts := shifts + [sp];
    }
  }

  method PlaceAboveFirstMatch(ps: seq<Policy>, q: Query) returns (pl: Placement)
    ensures pl == Place(ps, q)
  {
    var prev := 0;
    for i := 0 to |ps|
      invariant prev == PreviousSequence(ps, i)
      invariant forall k :: 0 <= k < i ==> !Matches(ps[k], q)
    {
      var p := ps[i];
      var found := MatchPolicy(p, q);
      if found {
        FirstMatchAt(ps, q, i);
        var blocking := if p.action == "deny" then Some(p) else None;
        if p.sequence - prev >= 2 {
          return Placement(prev + (p.sequence - prev) / 2, [], blocking);
        }
        var shifts := ShiftTail(ps, i);
        return Placement(p.sequence, shifts, blocking);
      }
      prev := p.sequence;
    }
    FirstMatchAt(ps, q, |ps|);
    if |ps| > 0 {
      return Placement(ps[|ps| - 1].sequence + 10, [], None);
    }
    return Placement(10, [], None);
  }

  // ------------------------------------------------------------ the grant

  datatype GrantOutcome =
    | NoGroups
    | Preview(sequence: int, blocking: Option<Policy>)
    | Applied(sequence: int, blocking: Option<Policy>)
    | Locked

  /** The clock of the calls one grant makes, which never runs backwards. */
  ghost predicate IsClock(clock: nat -> int) { forall i, j :: 0 <= i <= j ==> clock(i) <= clock(j) }

  /** How many of the first n calls the lock refuses: those before it expires. */
  ghost function RefusedCalls(s: State, author: string, clock: nat -> int, n: nat): (r: nat)
    requires IsClock(clock)
    ensures r <= n
    ensures forall k :: 0 <= k < n ==> (Refused(s, author, clock(k)) <==> k < r)
  {
    if n == 0 then 0
    else if Refused(s, author, clock(n - 1)) then n
    else RefusedCalls(s, author, clock, n - 1)
  }

  /** Stores the shifted copies one by one; whether an update was refused is not looked at. */
  method StoreShifts(store: PolicyStoreObject, shifts: seq<Policy>, author: string, clock: nat -> int)
    requires store.Valid() && IsClock(clock)
    requires forall k :: 0 <= k < |shifts| ==> shifts[k].id in store.policies
    modifies store
    ensures store.Valid() && store.lock == old(store.lock)
    ensures var r := RefusedCalls(old(store.View()), author, clock, |shifts|);
            && (r == |shifts| ==> store.View() == old(store.View()))
            && store.policies == ApplyShifts(old(store.policies), shifts[r..])
            && store.version == old(store.version) + |shifts| - r
  {
    hide HistoryInv, IsListing, IsClock, ApplyShifts, Commits;
    ghost var was, r := store.policies, 0;
    NoShifts(was, shifts, 0);
    for k := 0 to |shifts|
      invariant store.Valid() && store.lock == old(store.lock)
      invariant store.policies.Keys == was.Keys
      invariant r == RefusedCalls(old(store.View()), author, clock, k)
      invariant r == k ==> store.View() == old(store.View())
      invariant store.policies == ApplyShifts(was, shifts[r..k])
      invariant store.version == old(store.version) + k - r
    {
      if Refused(store.View(), author, clock(k)) {
        RefusedFromTheStart(old(store.View()), author, clock, k);
        r := k + 1;
        NoShifts(was, shifts, k);
        NoShifts(was, shifts, k + 1);
      } else {
        ShiftsSnoc(was, shifts, r, k);
      }
      StoreShift(store, shifts[k], author, clock(k));
    }
    assert shifts[r..|shifts|] == shifts[r..];
  }

  lemma NoShifts(m: map<string, Policy>, shifts: seq<Policy>, k: nat)
    requires k <= |shifts|
    ensures ApplyShifts(m, shifts[k..k]) == m
  {
  }

  lemma ShiftsSnoc(m: map<string, Policy>, shifts: seq<Policy>, r: nat, k: nat)
    requires r <= k < |shifts|
    ensures ApplyShifts(m, shifts[r..k + 1]) == ApplyShifts(m, shifts[r..k])[shifts[k].id := shifts[k]]
  {
    assert shifts[r..k + 1][..k - r] == shifts[r..k];
  }

  /** One update of the shift loop. */
  method StoreShift(store: PolicyStoreObject, p: Policy, author: string, now: int)
    requires store.Valid() && p.id in store.policies
    modifies store
    ensures store.Valid() && store.lock == old(store.lock)
    ensures Refused(old(store.View()), author, now) ==> store.View() == old(store.View())
    ensures !Refused(old(store.View()), author, now) ==>
              store.policies == old(store.policies)[p.id := p] && store.version == old(store.version) + 1
  {
    hide HistoryInv, IsListing;
    var _ := store.UpdatePolicy(p, author, now);
  }

  /**
   * Previews or applies a grant. When another author holds the lock to the end nothing changes.
   * Otherwise the rule is created, and of the shifted policies those whose update came after the lock
   * expired are stored; with no lock in the way from the start that is an insertion above the first
   * match, in one version per shifted policy and one for the rule.
   */
  method GrantAccess(store: PolicyStoreObject, g: GrantRequest, confirm: bool, author: string, clock: nat -> int)
    returns (r: GrantOutcome, ghost ps: seq<Policy>, ghost refused: nat)
    requires store.Valid() && IsClock(clock)
    modifies store
    ensures store.Valid() && store.lock == old(store.lock)
    ensures IsListing(ps, old(store.policies))
    ensures r.NoGroups? <==> g.scope.GroupScope? && g.groups == []
    ensures var shifts := Place(ps, ScopeQuery(g)).shifts;
            && refused == RefusedCalls(old(store.View()), author, clock, |shifts|)
            && (r.Locked? <==> !r.NoGroups? && confirm && Refused(old(store.View()), author, clock(|shifts|)))
            && (r.Applied? ==> store.version == old(store.version) + |shifts| - refused + 1)
    ensures r.Preview? || r.Applied? ==>
              r.sequence == Place(ps, ScopeQuery(g)).sequence && r.blocking == Place(ps, ScopeQuery(g)).blocking
    ensures r.Preview? ==> !confirm
    ensures !r.Applied? ==> store.View() == old(store.View())
    ensures r.Applied? && r.sequence > 0 ==>
              store.policies == GrantedLate(old(store.policies), ps, ScopeQuery(g), Rule(g), refused)
    ensures r.Applied? ==> g.id in store.policies && Allows(store.policies[g.id], g)
    ensures r.Applied? && r.sequence > 0 ==> store.policies[g.id].sequence == r.sequence
  {
    hide IsListing, HistoryInv, FirstMatch, IsClock, GrantedLate;
    var q := ScopeQuery(g);
    var list := store.List();
    ps := list;
    refused := RefusedCalls(store.View(), author, clock, |Place(ps, q).shifts|);
    if g.scope.GroupScope? && g.groups == [] {
      r := NoGroups;
      return;
    }
    var pl := PlaceAboveFirstMatch(list, q);
    if !confirm {
      r := Preview(pl.sequence, pl.blocking);
      return;
    }
    r := ApplyGrant(store, list, q, pl, Rule(g), author, clock);
  }

  method ApplyGrant(store: PolicyStoreObject, list: seq<Policy>, q: Query, pl: Placement, rule: Policy, author: string,
                    clock: nat -> int)
    returns (r: GrantOutcome)
    requires store.Valid() && IsListing(list, store.policies) && pl == Place(list, q) && IsClock(clock)
    modifies store
    ensures store.Valid() && store.lock == old(store.lock)
    ensures r == if Refused(old(store.View()), author, clock(|pl.shifts|)) then Locked
            else Applied(pl.sequence, pl.blocking)
    ensures r.Locked? ==> store.View() == old(store.View())
    ensures var refused := RefusedCalls(old(store.View()), author, clock, |pl.shifts|);
            r.Applied? ==>
              && store.version == old(store.version) + |pl.shifts| - refused + 1
              && (pl.sequence > 0 ==> store.policies == GrantedLate(old(store.policies), list, q, rule, refused))
              && rule.id in store.policies
              && store.policies[rule.id] == rule.(sequence := store.policies[rule.id].sequence)
              && (pl.sequence > 0 ==> store.policies[rule.id].sequence == pl.sequence)
  {
    ShiftsListed(list, store.policies, q);
    ghost var n := |pl.shifts|;
    if Refused(store.View(), author, clock(n)) {
      RefusedFromTheStart(store.View(), author, clock, n);
    }
    hide IsListing, HistoryInv, FirstMatch, IsClock;
    StoreShifts(store, pl.shifts, author, clock);
    var created := store.CreatePolicy(rule.(sequence := pl.sequence), author, clock(|pl.shifts|));
    if created.Err? {
      return Locked;
    }
    r := Applied(pl.sequence, pl.blocking);
  }

  /** A lock that refuses the last call has refused all. */
  lemma RefusedFromTheStart(s: State, author: string, clock: nat -> int, n: nat)
    requires IsClock(clock) && Refused(s, author, clock(n))
    ensures RefusedCalls(s, author, clock, n) == n
  {
    if n > 0 {
      assert clock(n - 1) <= clock(n);
    }
  }

  /** The policies after a grant whose first updates were refused. */
  function GrantedLate(m: map<string, Policy>, ps: seq<Policy>, q: Query, rule: Policy, refused: nat)
    : map<string, Policy>
    requires refused <= |Place(ps, q).shifts|
  {
    ApplyShifts(m, Place(ps, q).shifts[refused..])[rule.id := rule.(sequence := Place(ps, q).sequence)]
  }

  lemma ShiftsListed(ps: seq<Policy>, m: map<string, Policy>, q: Query)
    requires IsListing(ps, m)
    ensures forall k :: 0 <= k < |Place(ps, q).shifts| ==> Place(ps, q).shifts[k].id in m
  {
    var i := FirstMatch(ps, q);
    assert forall k :: 0 <= k < |ps| - i ==> ps[i..][k] in ps;
  }

  // ----------------------------------------------- sequences over every run

  datatype Edit = GrantEdit(g: GrantRequest) | AutoCreate(p: Policy) | Remove(id: string)

  /** A grant, a create without a sequence, or a delete, as the store carries them out. */
  ghost predicate EditStep(m: map<string, Policy>, e: Edit, m': map<string, Policy>) {
    match e
    case GrantEdit(g) => exists ps :: IsListing(ps, m) && m' == Granted(m, ps, ScopeQuery(g), Rule(g))
    case AutoCreate(p) => p.sequence <= 0 && exists q :: Sequenced(m, p, q) && m' == m[q.id := q]
    case Remove(id) => m' == m - {id}
  }

  ghost predicate WellSequenced(m: map<string, Policy>) { Keyed(m) && Positive(m) && DistinctSequences(m) }

  lemma EditKeepsSequences(m: map<string, Policy>, e: Edit, m': map<string, Policy>)
    requires WellSequenced(m) && EditStep(m, e, m')
    ensures WellSequenced(m')
  {
    hide Granted, IsListing, Sequenced, WellSequenced;
    match e {
      case GrantEdit(g) =>
        var ps :| IsListing(ps, m) && m' == Granted(m, ps, ScopeQuery(g), Rule(g));
        GrantKeepsSequences(m, ps, ScopeQuery(g), Rule(g));
      case AutoCreate(p) =>
        CreateKeepsSequences(m, p, m');
      case Remove(id) =>
        RemoveKeepsSequences(m, id);
    }
  }

  lemma CreateKeepsSequences(m: map<string, Policy>, p: Policy, m': map<string, Policy>)
    requires WellSequenced(m) && p.sequence <= 0 && exists q :: Sequenced(m, p, q) && m' == m[q.id := q]
    ensures WellSequenced(m')
  {
  }

  lemma RemoveKeepsSequences(m: map<string, Policy>, id: string)
    requires WellSequenced(m)
    ensures WellSequenced(m - {id})
  {
  }

  lemma GrantKeepsSequences(m: map<string, Policy>, ps: seq<Policy>, q: Query, rule: Policy)
    requires WellSequenced(m) && IsListing(ps, m)
    ensures WellSequenced(Granted(m, ps, q, rule)) && Place(ps, q).sequence > 0
  {
    hide IsListing, DistinctSequences, GrantedAt;
    InsertedListing(m, ps, FirstMatch(ps, q), rule);
    ListingStrict(ps, m);
    ListingPositive(ps, m);
    SlotBetween(ps, FirstMatch(ps, q));
  }

  /** Grants, auto-sequenced creates and deletes keep all sequences positive and pairwise distinct. */
  lemma {:induction false} RunKeepsSequences(ms: seq<map<string, Policy>>, es: seq<Edit>, i: nat)
    requires |ms| == |es| + 1 && i < |ms| && WellSequenced(ms[0])
    requires forall k :: 0 <= k < |es| ==> EditStep(ms[k], es[k], ms[k + 1])
    ensures WellSequenced(ms[i])
  {
    if i == 0 {
    } else {
      RunKeepsSequences(ms, es, i - 1);
      EditKeepsSequences(ms[i - 1], es[i - 1], ms[i]);
    }
  }

  /**
   * The whole grant, from the store to the decisions: the listing afterwards is the insertion, every
   * query inside the granted scope that the rule matches now resolves to it, and every query that
   * neither the rule nor the policy it replaces matches keeps its decision.
   */
  lemma GrantTakesEffect(m: map<string, Policy>, ps: seq<Policy>, g: GrantRequest, ps': seq<Policy>)
    requires WellSequenced(m) && IsListing(ps, m) && IsListing(ps', Granted(m, ps, ScopeQuery(g), Rule(g)))
    requires AddressIsNew(ps, g)
    ensures ps' == Inserted(ps, ScopeQuery(g), Rule(g))
    ensures forall other: Query ::
              InScope(g, other) && Matches(Rule(g), other)
              ==> Decide(ps', other).Some? && Allows(Decide(ps', other).value, g)
    ensures forall other: Query ::
              !Matches(Rule(g), other) && (forall p :: p in ps && p.id == g.id ==> !Matches(p, other))
              ==> SameRule(Decide(ps, other), Decide(ps', other))
  {
    hide IsListing, Granted, Inserted, Decide, Matches, Place, Fold, InScope, Allows;
    GrantIsInsertion(m, ps, ScopeQuery(g), Rule(g), ps');
    forall other: Query | InScope(g, other) && Matches(Rule(g), other)
      ensures Decide(ps', other).Some? && Allows(Decide(ps', other).value, g)
    {
      GrantWinsInScope(ps, g, other);
    }
    forall other: Query |
      !Matches(Rule(g), other) && (forall p :: p in ps && p.id == g.id ==> !Matches(p, other))
      ensures SameRule(Decide(ps, other), Decide(ps', other))
    {
      OthersKeepDecision(ps, ScopeQuery(g), Rule(g), other);
    }
  }
}
