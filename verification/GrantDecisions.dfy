/** What a grant does to first-match decisions. */
module GrantDecisions {
  import opened Wire
  import opened Text
  import opened PolicyStore
  import opened Grant

  datatype Scope = UserScope | GroupScope

  datatype User = User(samAccountName: string, upn: string, displayName: string)

  /**
   * A single-host grant: whom and how it was asked for, the address objects that already cover the
   * host, and the address object ensured for it.
   */
  datatype GrantRequest = GrantRequest(
    user: User, groups: seq<string>, scope: Scope, addrs: set<string>, addr: string, id: string, name: string)

  /** The folded, non-empty handles of a user. */
  function Identifiers(u: User): set<string> {
    {Fold(u.samAccountName), Fold(u.upn), Fold(u.displayName)} - {""}
  }

  function GroupSet(groups: seq<string>): set<string> { set g | g in groups }

  /** Placement only looks at the granted scope. */
  function ScopeQuery(g: GrantRequest): Query {
    if g.scope.UserScope? then Query({}, Identifiers(g.user), g.addrs) else Query(GroupSet(g.groups), {}, g.addrs)
  }

  /** What the access explanation asks about: the user's groups and handles together. */
  function FullQuery(g: GrantRequest): Query {
    Query(GroupSet(g.groups), Identifiers(g.user), g.addrs)
  }

  function WithAddress(q: Query, addr: string): Query { q.(addrs := q.addrs + {addr}) }

  function Rule(g: GrantRequest): Policy {
    Policy(g.id, g.name, 0, true,
           if g.scope.UserScope? then [g.user.samAccountName] else [],
           if g.scope.UserScope? then [] else g.groups,
           Some([g.addr]), "allow", "")
  }

  // -------------------------------------------------- decisions over lists

  lemma {:induction false} FirstMatchConcat(xs: seq<Policy>, ys: seq<Policy>, q: Query)
    ensures FirstMatch(xs + ys, q) ==
            if FirstMatch(xs, q) < |xs| then FirstMatch(xs, q) else |xs| + FirstMatch(ys, q)
  {
    hide Matches;
    if xs == [] {
      assert xs + ys == ys;
    } else {
      FirstMatchConcat(xs[1..], ys, q);
      assert (xs + ys)[1..] == xs[1..] + ys;
    }
  }

  lemma DecideConcat(xs: seq<Policy>, ys: seq<Policy>, q: Query)
    ensures Decide(xs + ys, q) == if Decide(xs, q).Some? then Decide(xs, q) else Decide(ys, q)
  {
    hide FirstMatch, Matches;
    FirstMatchConcat(xs, ys, q);
  }

  lemma DecideSingle(p: Policy, q: Query)
    ensures Decide([p], q) == if Matches(p, q) then Some(p) else None
  {
    hide Matches;
  }

  lemma {:induction false} DecideWithout(ps: seq<Policy>, id: string, q: Query)
    requires forall p :: p in ps && p.id == id ==> !Matches(p, q)
    ensures Decide(Without(ps, id), q) == Decide(ps, q)
  {
    hide Matches, Decide;
    if ps == [] {
    } else {
      var head := if ps[0].id == id then [] else [ps[0]];
      DecideWithout(ps[1..], id, q);
      assert ps == [ps[0]] + ps[1..];
      DecideConcat([ps[0]], ps[1..], q);
      DecideConcat(head, Without(ps[1..], id), q);
      DecideSingle(ps[0], q);
      DecideEmpty(q);
    }
  }

  lemma DecideEmpty(q: Query)
    ensures Decide([], q).None?
  {
  }

  /** The same policy, possibly at another sequence. */
  predicate SameRule(x: Option<Policy>, y: Option<Policy>) {
    match (x, y)
    case (None, None) => true
    case (Some(p), Some(p')) => p' == p.(sequence := p'.sequence)
    case _ => false
  }

  lemma {:induction false} DecideMoved(ps: seq<Policy>, ps': seq<Policy>, q: Query)
    requires |ps| == |ps'| && forall k :: 0 <= k < |ps| ==> ps'[k] == ps[k].(sequence := ps'[k].sequence)
    ensures SameRule(Decide(ps, q), Decide(ps', q))
  {
    if ps == [] {
    } else {
      DecideMoved(ps[1..], ps'[1..], q);
    }
  }

  lemma DecideInserted(ps: seq<Policy>, q: Query, rule: Policy, other: Query)
    ensures var i, rule' := FirstMatch(ps, q), rule.(sequence := Place(ps, q).sequence);
            var front, back := Decide(Without(ps[..i], rule.id), other), Decide(Without(TailAt(ps, i), rule.id), other);
            Decide(Inserted(ps, q, rule), other) ==
            if front.Some? then front else if Matches(rule', other) then Some(rule') else back
  {
    hide Decide, Matches, FirstMatch, Without, TailAt;
    var i, rule' := FirstMatch(ps, q), rule.(sequence := Place(ps, q).sequence);
    DecideConcat(Without(ps[..i], rule.id) + [rule'], Without(TailAt(ps, i), rule.id), other);
    DecideConcat(Without(ps[..i], rule.id), [rule'], other);
    DecideSingle(rule', other);
  }

  // ----------------------------------------------------------- main results

  lemma MatchesAtAnySequence(p: Policy, x: int, q: Query)
    ensures Matches(p.(sequence := x), q) == Matches(p, q)
  {
  }

  /** The moved tail decides like the tail, once a policy that does not match is dropped from it. */
  lemma DecideTail(ps: seq<Policy>, i: nat, id: string, q: Query)
    requires i <= |ps| && forall p :: p in ps && p.id == id ==> !Matches(p, q)
    ensures SameRule(Decide(ps[i..], q), Decide(Without(TailAt(ps, i), id), q))
  {
    hide Decide, Matches, Without, Dense;
    var tail, moved := ps[i..], TailAt(ps, i);
    forall p | p in moved && p.id == id ensures !Matches(p, q) {
      var k :| 0 <= k < |moved| && moved[k] == p;
      assert ps[i + k] in ps;
      MatchesAtAnySequence(ps[i + k], p.sequence, q);
    }
    DecideWithout(moved, id, q);
    DecideMoved(tail, moved, q);
  }

  /** Every query the new rule does not match, nor the rule it replaces, keeps its decision. */
  lemma OthersKeepDecision(ps: seq<Policy>, q: Query, rule: Policy, other: Query)
    requires !Matches(rule, other) && forall p :: p in ps && p.id == rule.id ==> !Matches(p, other)
    ensures SameRule(Decide(ps, other), Decide(Inserted(ps, q, rule), other))
  {
    hide Decide, FirstMatch, Without, Matches, Inserted, TailAt;
    var i := FirstMatch(ps, q);
    DecideInserted(ps, q, rule, other);
    MatchesAtAnySequence(rule, Place(ps, q).sequence, other);
    DecideWithout(ps[..i], rule.id, other);
    DecideTail(ps, i, rule.id, other);
    assert ps == ps[..i] + ps[i..];
    DecideConcat(ps[..i], ps[i..], other);
  }

  /**
   * Exactly when a query that the new rule matches resolves to it: no policy above the insertion
   * point, other than one it replaces, matches that query.
   */
  lemma GrantWinsIff(ps: seq<Policy>, q: Query, rule: Policy, full: Query)
    requires Matches(rule, full)
    ensures Decide(Inserted(ps, q, rule), full) == Some(rule.(sequence := Place(ps, q).sequence)) <==>
            forall k :: 0 <= k < FirstMatch(ps, q) && ps[k].id != rule.id ==> !Matches(ps[k], full)
  {
    hide FirstMatch, Without;
    var i := FirstMatch(ps, q);
    var front := Without(ps[..i], rule.id);
    DecideInserted(ps, q, rule, full);
    WithoutMembers(ps[..i], rule.id);
    DecideNone(front, full);
    forall k | 0 <= k < i ensures ps[k] in ps[..i] {
      assert ps[..i][k] == ps[k];
    }
  }

  lemma DecideNone(ps: seq<Policy>, q: Query)
    ensures Decide(ps, q).None? <==> forall p :: p in ps ==> !Matches(p, q)
    ensures Decide(ps, q).Some? ==> Decide(ps, q).value in ps
  {
    hide Matches;
  }

  /** When the rule matches its own scope at all. */
  lemma OwnScopeIff(g: GrantRequest)
    ensures Matches(Rule(g), WithAddress(ScopeQuery(g), g.addr)) <==>
            if g.scope.UserScope? then Fold(g.user.samAccountName) != "" else g.groups != [] && g.groups[0] != ""
  {
    hide Fold;
    var r, q := Rule(g), WithAddress(ScopeQuery(g), g.addr);
    assert r.dest.value[0] in q.addrs;
    if g.scope.UserScope? {
      assert r.sourceUsers[0] == g.user.samAccountName;
    } else if g.groups != [] {
      assert g.groups[0] in GroupSet(g.groups);
    }
  }

  /** No policy refers to the new address object unless it already covered the host. */
  ghost predicate AddressIsNew(ps: seq<Policy>, g: GrantRequest) {
    forall p :: p in ps && p.id != g.id && p.dest.Some? && g.addr in p.dest.value ==> g.addr in g.addrs
  }

  /**
   * A query inside the granted scope: its groups, handles and addresses are among the granted ones. An
   * empty group identifier, which firstGroupMatch cannot tell from no match, only in the whole scope.
   */
  predicate InScope(g: GrantRequest, other: Query) {
    var q := WithAddress(ScopeQuery(g), g.addr);
    && other.groups <= q.groups && other.users <= q.users && other.addrs <= q.addrs
    && ("" in q.groups ==> other.groups == q.groups)
  }

  /** Without empty identifiers a policy is matched by group exactly when it names one of the groups. */
  lemma {:induction false} FirstGroupMatchIff(policyGroups: seq<string>, groups: set<string>)
    requires "" !in groups
    ensures FirstGroupMatch(policyGroups, groups) != ""
            <==> exists i :: 0 <= i < |policyGroups| && policyGroups[i] in groups
  {
    if policyGroups == [] {
    } else {
      var rest := policyGroups[1..];
      FirstGroupMatchIff(rest, groups);
      if i :| 0 <= i < |rest| && rest[i] in groups {
        assert policyGroups[i + 1] in groups;
      }
      if i :| 0 <= i < |policyGroups| && policyGroups[i] in groups {
        assert i == 0 || rest[i - 1] in groups;
      }
    }
  }

  /** A policy that matches a query inside a scope matches the whole scope. */
  lemma MatchesWider(p: Policy, other: Query, q: Query)
    requires other.groups <= q.groups && other.users <= q.users && other.addrs <= q.addrs
    requires "" in q.groups ==> other.groups == q.groups
    requires Matches(p, other)
    ensures Matches(p, q)
  {
    hide Fold, FirstGroupMatch;
    if "" !in q.groups {
      FirstGroupMatchIff(p.sourceGroups, other.groups);
      FirstGroupMatchIff(p.sourceGroups, q.groups);
    }
  }

  /** An enabled allow of the granted host, under the granted name, for the granted user or groups. */
  predicate Allows(p: Policy, g: GrantRequest) {
    && p.id == g.id && p.name == g.name && p.enabled && p.action == "allow" && p.dest == Some([g.addr])
    && (if g.scope.UserScope? then p.sourceUsers == [g.user.samAccountName] && p.sourceGroups == []
        else p.sourceUsers == [] && p.sourceGroups == g.groups)
  }

  /** After the grant an allow decides every query inside the granted scope that it matches. */
  lemma GrantWinsInScope(ps: seq<Policy>, g: GrantRequest, other: Query)
    requires AddressIsNew(ps, g) && InScope(g, other) && Matches(Rule(g), other)
    ensures var d := Decide(Inserted(ps, ScopeQuery(g), Rule(g)), other);
            d.Some? && Allows(d.value, g) && d.value.sequence == Place(ps, ScopeQuery(g)).sequence
  {
    hide Fold, Decide, Place, Inserted, Matches;
    var q := ScopeQuery(g);
    GrantWinsIff(ps, q, Rule(g), other);
    forall k | 0 <= k < FirstMatch(ps, q) && ps[k].id != g.id ensures !Matches(ps[k], other) {
      assert ps[k] in ps && !Matches(ps[k], q);
      NewAddressAddsNothing(ps[k], q, g.addr);
      if Matches(ps[k], other) {
        MatchesWider(ps[k], other, WithAddress(q, g.addr));
      }
    }
  }

  /** A member of a single granted group, or the granted user, asking for the host: always inside the scope. */
  lemma MemberIsInScope(g: GrantRequest, group: string)
    requires "" !in GroupSet(g.groups)
    ensures g.scope.UserScope? && Fold(g.user.samAccountName) != "" ==>
              var q := Query({}, {Fold(g.user.samAccountName)}, {g.addr}); InScope(g, q) && Matches(Rule(g), q)
    ensures g.scope.GroupScope? && group in g.groups ==>
              var q := Query({group}, {}, {g.addr}); InScope(g, q) && Matches(Rule(g), q)
  {
    hide Fold;
    assert Rule(g).dest.value[0] == g.addr;
    if g.scope.UserScope? {
      assert Rule(g).sourceUsers[0] == g.user.samAccountName;
    } else if group in g.groups {
      var i :| 0 <= i < |g.groups| && g.groups[i] == group;
      FirstGroupMatchIff(g.groups, {group});
    }
  }

  lemma NewAddressAddsNothing(p: Policy, q: Query, addr: string)
    requires p.dest.Some? && addr in p.dest.value ==> addr in q.addrs
    ensures Matches(p, WithAddress(q, addr)) == Matches(p, q)
  {
    hide Fold;
    if DestMatch(p.dest, q.addrs + {addr}) {
      var j :| 0 <= j < |p.dest.value| && p.dest.value[j] in q.addrs + {addr};
      assert p.dest.value[j] in q.addrs;
    }
    if DestMatch(p.dest, q.addrs) {
      var j :| 0 <= j < |p.dest.value| && p.dest.value[j] in q.addrs;
      assert p.dest.value[j] in q.addrs + {addr};
    }
  }

  lemma FoldNotEmpty(name: string)
    requires name != "" && !IsSpace(name[0])
    ensures Fold(name) != ""
  {
    assert TrimLeft(name) == name;
    assert TrimRight(name) != "";
  }

  /** A deny on the user directly still decides after a grant to the user's group. */
  lemma GroupGrantCanLose()
    ensures var deny := Policy("d", "Deny", 100, true, ["ann"], [], Some(["a"]), "deny", "");
            var g := GrantRequest(User("ann", "", ""), ["g1"], GroupScope, {"a"}, "a", "n", "Allow");
            Decide(Inserted([deny], ScopeQuery(g), Rule(g)), FullQuery(g)) == Some(deny)
  {
    var deny := Policy("d", "Deny", 100, true, ["ann"], [], Some(["a"]), "deny", "");
    var g := GrantRequest(User("ann", "", ""), ["g1"], GroupScope, {"a"}, "a", "n", "Allow");
    hide Fold, Place, Inserted, FirstMatch, Decide, Without;
    var q, full := ScopeQuery(g), FullQuery(g);
    FoldNotEmpty("ann");
    assert FirstGroupMatch(deny.sourceGroups, q.groups) == "" && !Matches(deny, q);
    assert deny.sourceUsers[0] == "ann" && deny.dest.value[0] == "a" && Matches(deny, full);
    DecideSingle(deny, q);
    var i := FirstMatch([deny], q);
    assert i == 1;
    assert [deny][..i] == [deny];
    WithoutAbsent([deny], "n");
    DecideInserted([deny], q, Rule(g), full);
    DecideSingle(deny, full);
  }

  // --------------------------------------------------- what a match amounts to

  /** A policy matches if and only if it is enabled, names one of the groups or handles, and one of the addresses. */
  lemma MatchesIff(p: Policy, q: Query)
    requires "" !in q.groups
    ensures Matches(p, q) <==>
            && p.enabled
            && (|| (exists i :: 0 <= i < |p.sourceGroups| && p.sourceGroups[i] in q.groups)
                || (exists i :: 0 <= i < |p.sourceUsers| && Fold(p.sourceUsers[i]) in q.users))
            && p.dest.Some? && exists i :: 0 <= i < |p.dest.value| && p.dest.value[i] in q.addrs
  {
    hide Fold, FirstGroupMatch;
    FirstGroupMatchIff(p.sourceGroups, q.groups);
  }

  /** A list without its disabled policies. */
  function EnabledOnly(ps: seq<Policy>): seq<Policy> {
    if ps == [] then [] else (if ps[0].enabled then [ps[0]] else []) + EnabledOnly(ps[1..])
  }

  /** Disabled policies never matter to a decision. */
  lemma {:induction false} DisabledNeverDecide(ps: seq<Policy>, q: Query)
    ensures Decide(ps, q) == Decide(EnabledOnly(ps), q)
    ensures Decide(ps, q).Some? ==> Decide(ps, q).value in ps && Decide(ps, q).value.enabled
  {
    hide FirstGroupMatch, Fold, Decide;
    if ps == [] {
      DecideEmpty(q);
    } else {
      DisabledNeverDecide(ps[1..], q);
      DecideConcat([ps[0]], ps[1..], q);
      assert ps == [ps[0]] + ps[1..];
      DecideSingle(ps[0], q);
      DecideEmpty(q);
      DecideConcat(if ps[0].enabled then [ps[0]] else [], EnabledOnly(ps[1..]), q);
    }
  }

  /** The deny a grant reports as overridden is exactly the one that decided its scope. */
  lemma BlockingIff(ps: seq<Policy>, q: Query, d: Policy)
    ensures Place(ps, q).blocking == Some(d) <==> Decide(ps, q) == Some(d) && d.action == "deny"
  {
    hide Matches;
  }

  /** Every handle of the user, in any case and with outer white space, is one the access explanation asks about. */
  lemma HandlesAsked(g: GrantRequest, name: string)
    ensures Fold(name) in FullQuery(g).users <==>
            Fold(name) != "" && Fold(name) in {Fold(g.user.samAccountName), Fold(g.user.upn), Fold(g.user.displayName)}
    ensures forall x :: x in FullQuery(g).groups <==> x in g.groups
    ensures FullQuery(g).addrs == g.addrs
    ensures g.scope.UserScope? ==> ScopeQuery(g) == FullQuery(g).(groups := {})
    ensures g.scope.GroupScope? ==> ScopeQuery(g) == FullQuery(g).(users := {})
  {
    hide Fold;
  }
}
