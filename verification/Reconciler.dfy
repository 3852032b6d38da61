/**
 * The reconciler as it runs: methods that search, update and delete rows of the tables, step by step,
 * against the specification of a reconciliation.
 */
module Reconciler {
  import opened Wire
  import opened Text
  import opened Provisioning
  import opened Convergence

  method IntersectsGroups(sids: seq<string>, enabled: Groups) returns (r: bool)
    ensures r <==> exists i :: 0 <= i < |sids| && sids[i] in enabled
  {
    for i := 0 to |sids|
      invariant forall k :: 0 <= k < i ==> sids[k] !in enabled
    {
      if sids[i] in enabled {
        return true;
      }
    }
    return false;
  }

  method ContainsStr(ss: seq<string>, want: string) returns (r: bool)
    ensures r <==> want in ss
  {
    for i := 0 to |ss|
      invariant want !in ss[..i]
    {
      if ss[i] == want {
        return true;
      }
    }
    return false;
  }

  /** The first value that is not blank, as it is written; empty when all are blank. */
  method FirstNonBlank(vals: seq<string>) returns (r: string)
    ensures r == FirstNonEmpty(vals)
    ensures (forall i :: 0 <= i < |vals| ==> Trim(vals[i]) == "") ==> r == ""
    ensures (exists i :: 0 <= i < |vals| && Trim(vals[i]) != "") ==>
              exists i :: 0 <= i < |vals| && r == vals[i] && Trim(r) != ""
                          && forall k :: 0 <= k < i ==> Trim(vals[k]) == ""
  {
    hide Trim;
    for i := 0 to |vals|
      invariant forall k :: 0 <= k < i ==> Trim(vals[k]) == ""
      invariant FirstNonEmpty(vals) == FirstNonEmpty(vals[i..])
    {
      if Trim(vals[i]) != "" {
        return vals[i];
      }
      assert vals[i..][1..] == vals[i + 1..];
    }
    return "";
  }

  /** Among the first n rows, the last one for the SID holds the id. */
  ghost predicate LastFor(rows: seq<(string, string)>, n: nat, sid: string, gid: string)
    requires n <= |rows|
  {
    exists k :: 0 <= k < n && rows[k] == (sid, gid) && forall l :: k < l < n ==> rows[l].0 != sid
  }

  lemma LastForNext(rows: seq<(string, string)>, n: nat, sid: string, gid: string)
    requires n < |rows|
    ensures LastFor(rows, n, sid, gid) && rows[n].0 != sid ==> LastFor(rows, n + 1, sid, gid)
    ensures LastFor(rows, n + 1, rows[n].0, rows[n].1)
  {
  }

  /** Imported groups by SID. Ids are primary keys, so no two SIDs share one. */
  method LoadGroups(rows: seq<(string, string)>) returns (enabled: Groups)
    requires forall i, j :: 0 <= i < j < |rows| ==> rows[i].1 != rows[j].1
    ensures Injective(enabled)
    ensures forall i :: 0 <= i < |rows| ==> rows[i].0 in enabled
    ensures forall s :: s in enabled ==> LastFor(rows, |rows|, s, enabled[s])
  {
    hide LastFor;
    enabled := map[];
    for i := 0 to |rows|
      invariant forall k :: 0 <= k < i ==> rows[k].0 in enabled
      invariant forall s :: s in enabled ==> LastFor(rows, i, s, enabled[s])
    {
      forall s | s in enabled
        ensures LastFor(rows, i, s, enabled[s]) && rows[i].0 != s ==> LastFor(rows, i + 1, s, enabled[s])
      {
        LastForNext(rows, i, s, enabled[s]);
      }
      LastForNext(rows, i, rows[i].0, rows[i].1);
      enabled := enabled[rows[i].0 := rows[i].1];
    }
    LoadedInjective(rows, enabled);
  }

  lemma LoadedInjective(rows: seq<(string, string)>, enabled: Groups)
    requires forall i, j :: 0 <= i < j < |rows| ==> rows[i].1 != rows[j].1
    requires forall s :: s in enabled ==> LastFor(rows, |rows|, s, enabled[s])
    ensures Injective(enabled)
  {
  }

  class ProvisioningStore {
    var users: Users
    var members: Members

    /** Onboards one snapshot user: the id and whether its status changed, or nothing when skipped. */
    method UpsertClientUser(ctx: Context, u: SnapUser, newId: string) returns (r: Option<(string, bool)>)
      requires ValidUsers(users)
      modifies this`users
      ensures var spec := UpsertOf(old(users), ctx, u, newId);
              && users == Stored(old(users), spec)
              && r == if spec.Done? then Some((spec.id, spec.changed)) else None
      ensures r.Some? ==> Wrote(old(users), users, ctx, u, r.value.0)
      ensures r.None? ==> users == old(users)
    {
      hide PickEmail, FirstNonEmpty, ValidUsers, EmailTaken, SubjectTaken;
      UpsertEffect(users, ctx, u, newId);
      var name := FirstNonBlank([u.display, u.sam, u.upn, u.sid]);
      var addr := PickEmail(u, ctx.domain);
      if addr == "" || u.sid in ctx.failing {
        return None;
      }
      if id :| id in users && Mine(users, ctx.org, u.sid, id) {
        FoundIs(users, ctx.org, u.sid, id);
        if EmailTaken(users, addr, Some(id)) {
          return None;
        }
        var changed := users[id].status != Active;
        users := users[id := users[id].(name := name, email := addr, status := Active)];
        return Some((id, changed));
      }
      if newId in users || EmailTaken(users, addr, None) || SubjectTaken(users, u.sid) {
        return None;
      }
      users := users[newId := Row(ctx.org, addr, name, AD_CONNECTOR, u.sid, u.sid, Active)];
      return Some((newId, true));
    }

    /** Suspends every active directory user of the organisation that no longer belongs. */
    method OffboardMissing(org: string, inOrg: set<string>) returns (n: nat)
      modifies this
      ensures var gone := Leavers(old(users), org, inOrg);
              && users == Offboard(old(users), gone)
              && members == (set m | m in old(members) && m.0 !in gone)
              && n == |gone|
    {
      var toSuspend: set<string>, rows := {}, users.Keys;
      while rows != {}
        invariant rows <= users.Keys && users == old(users) && members == old(members)
        invariant toSuspend == set x | x in users && x !in rows && Leaves(users[x], org, inOrg)
      {
        var x :| x in rows;
        if Leaves(users[x], org, inOrg) {
          toSuspend := toSuspend + {x};
        }
        rows := rows - {x};
      }
      n := |toSuspend|;
      var left := toSuspend;
      assert left == Leavers(old(users), org, inOrg);
      while left != {}
        invariant left <= toSuspend <= old(users).Keys
        invariant users == Offboard(old(users), toSuspend - left)
        invariant members == set m | m in old(members) && m.0 !in toSuspend - left
      {
        var x :| x in left;
        ghost var was, seen := users, toSuspend - left;
        SuspendOne(old(users), seen, x);
        users := users[x := users[x].(status := Suspended)];
        members := set m | m in members && m.0 != x;
        left := left - {x};
        assert toSuspend - left == seen + {x};
      }
      assert toSuspend - left == toSuspend;
    }

    /** Replaces one group's members by the given users. */
    method ReplaceMembers(gid: string, ids: seq<string>)
      modifies this`members
      ensures forall m :: m in members <==> if m.1 == gid then m.0 in ids else m in old(members)
    {
      members := set m | m in members && m.1 != gid;
      for i := 0 to |ids|
        invariant forall m :: m in members <==> if m.1 == gid then m.0 in ids[..i] else m in old(members)
      {
        members := members + {(ids[i], gid)};
        assert ids[..i + 1] == ids[..i] + [ids[i]];
      }
      assert ids[..|ids|] == ids;
    }

    /** Replaces the members of every imported group, in any order. */
    method SetMemberships(groups: Groups, us: seq<SnapUser>, done: Ids)
      requires Injective(groups)
      modifies this`members
      ensures members == MembersAfter(old(members), {}, groups, us, done)
    {
      hide Listed, Injective;
      var left := groups.Keys;
      while left != {}
        invariant left <= groups.Keys
        invariant forall m :: m in members <==> MemberMidway(old(members), groups, groups.Keys - left, us, done, m)
      {
        var g :| g in left;
        var ids := MembersOf(us, done, g);
        ghost var was := members;
        ReplaceMembers(groups[g], ids);
        forall m
          ensures m in members <==> MemberMidway(old(members), groups, groups.Keys - (left - {g}), us, done, m)
        {
          MidwayStep(old(members), groups, groups.Keys - left, us, done, g, m);
          assert groups.Keys - (left - {g}) == groups.Keys - left + {g};
        }
        left := left - {g};
      }
      assert groups.Keys - left == groups.Keys;
      MidwayDone(old(members), groups, us, done);
    }

    method Reconcile(ctx: Context, groups: Groups, us: seq<SnapUser>, newIds: seq<string>) returns (report: Report)
      requires ValidUsers(users) && DistinctSids(us) && Injective(groups) && |newIds| == |us|
      modifies this
      ensures ValidUsers(users)
      ensures (Db(users, members), report) == Reconciled(old(Db(users, members)), ctx, groups, us, newIds)
      ensures ActiveSids(users, ctx.org) <= InOrg(us, groups)
    {
      hide OnboardAll, UpsertOf, ValidUsers, RowsKept, DoneKept, InOrg, Wrote, Stored, Leavers, Offboard, MembersAfter,
           ActiveSids, Injective;
      var done: Ids, inOrg: set<string>, onboarded := map[], {}, 0;
      ghost var db := Db(users, members);
      BeforeTheLoop(users, ctx, groups, us, newIds);
      for i := 0 to |us|
        invariant ValidUsers(users) && members == old(members)
        invariant Progress(users, done, onboarded) == OnboardAll(db.users, ctx, groups, us[..i], newIds[..i])
        invariant inOrg == InOrg(us[..i], groups)
      {
        var u := us[i];
        NextOnboarding(db.users, ctx, groups, us, newIds, i);
        InOrgSnoc(us[..i], u, groups);
        assert us[..i + 1] == us[..i] + [u];
        var member := IntersectsGroups(u.groupSids, groups);
        if u.enabled && member {
          inOrg := inOrg + {u.sid};
          UpsertValid(users, ctx, u, newIds[i]);
          var r := UpsertClientUser(ctx, u, newIds[i]);
          if r.Some? {
            done := done[u.sid := r.value.0];
            if r.value.1 {
              onboarded := onboarded + 1;
            }
          }
        }
      }
      assert us[..|us|] == us && newIds[..|us|] == newIds;
      ghost var p, gone := OnboardAll(db.users, ctx, groups, us, newIds), Leavers(users, ctx.org, inOrg);
      var offboarded := OffboardMissing(ctx.org, inOrg);
      SetMemberships(groups, us, done);
      MembersInTwoSteps(db.members, gone, groups, us, done);
      OthersKept(db, ctx, groups, us, newIds, "");
      ConvergesIff(db, ctx, groups, us, newIds);
      return Report(onboarded, offboarded, |done|);
    }
  }

  // ----------------------------------------------------------- proof steps

  lemma FoundIs(users: Users, org: string, sid: string, id: string)
    requires ValidUsers(users) && Mine(users, org, sid, id)
    ensures FindMine(users, org, sid) == Some(id)
  {
    MineUnique(users, org, sid, FindMine(users, org, sid).value, id);
  }

  lemma SuspendOne(users: Users, seen: set<string>, x: string)
    requires x in users && x !in seen
    ensures var midway := Offboard(users, seen);
            midway[x := midway[x].(status := Suspended)] == Offboard(users, seen + {x})
  {
  }

  /** A snapshot's onboarded users of one group, in snapshot order. */
  method MembersOf(us: seq<SnapUser>, done: Ids, gsid: string) returns (ids: seq<string>)
    ensures forall id :: id in ids <==> Listed(us, done, id, gsid)
  {
    ids := [];
    for i := 0 to |us|
      invariant forall id :: id in ids <==> Listed(us[..i], done, id, gsid)
    {
      ListedSnoc(us, done, gsid, i);
      if us[i].sid in done {
        var listed := ContainsStr(us[i].groupSids, gsid);
        if listed {
          ids := ids + [done[us[i].sid]];
        }
      }
    }
    assert us[..|us|] == us;
  }

  lemma ListedSnoc(us: seq<SnapUser>, done: Ids, gsid: string, i: nat)
    requires i < |us|
    ensures forall id ::
              Listed(us[..i + 1], done, id, gsid) <==>
              (|| Listed(us[..i], done, id, gsid)
               || (us[i].sid in done && done[us[i].sid] == id && gsid in us[i].groupSids))
  {
    var a, b := us[..i], us[..i + 1];
    assert b[i] == us[i] && forall k :: 0 <= k < i ==> a[k] == b[k];
    forall id | Listed(a, done, id, gsid)
      ensures Listed(b, done, id, gsid)
    {
      var k :| 0 <= k < |a| && a[k].sid in done && done[a[k].sid] == id && gsid in a[k].groupSids;
      assert b[k] == a[k];
    }
  }

  /** Membership when only some of the imported groups have been replaced. */
  ghost predicate MemberMidway(members: Members, groups: Groups, replaced: set<string>, us: seq<SnapUser>,
                               done: Ids, m: (string, string)) {
    if exists g :: g in replaced && g in groups && groups[g] == m.1
    then exists g :: g in replaced && g in groups && groups[g] == m.1 && Listed(us, done, m.0, g)
    else m in members
  }

  lemma MidwayStep(members: Members, groups: Groups, replaced: set<string>, us: seq<SnapUser>,
                   done: Ids, g: string, m: (string, string))
    requires Injective(groups) && g in groups && g !in replaced && replaced <= groups.Keys
    ensures MemberMidway(members, groups, replaced + {g}, us, done, m)
            <==> if m.1 == groups[g] then Listed(us, done, m.0, g)
              else MemberMidway(members, groups, replaced, us, done, m)
  {
    hide Listed;
    if m.1 == groups[g] {
      assert g in replaced + {g};
    }
  }

  lemma MidwayDone(members: Members, groups: Groups, us: seq<SnapUser>, done: Ids)
    ensures forall m ::
              MemberMidway(members, groups, groups.Keys, us, done, m)
              <==> m in MembersAfter(members, {}, groups, us, done)
  {
    forall m: (string, string)
      ensures MemberMidway(members, groups, groups.Keys, us, done, m)
              <==> m in MembersAfter(members, {}, groups, us, done)
    {
      WantedIff(groups, us, done, m);
    }
  }

  lemma WantedIff(groups: Groups, us: seq<SnapUser>, done: Ids, m: (string, string))
    ensures m in Wanted(groups, us, done) <==> exists g :: g in groups && groups[g] == m.1 && Listed(us, done, m.0, g)
  {
    if g :| g in groups && groups[g] == m.1 && Listed(us, done, m.0, g) {
      var i :| 0 <= i < |us| && us[i].sid in done && done[us[i].sid] == m.0 && g in us[i].groupSids;
      assert m.0 in done.Values;
    }
  }

  lemma MembersInTwoSteps(members: Members, gone: set<string>, groups: Groups, us: seq<SnapUser>, done: Ids)
    ensures MembersAfter(set m | m in members && m.0 !in gone, {}, groups, us, done)
            == MembersAfter(members, gone, groups, us, done)
  {
    hide Wanted;
  }

  lemma BeforeTheLoop(users: Users, ctx: Context, groups: Groups, us: seq<SnapUser>, newIds: seq<string>)
    requires |us| == |newIds|
    ensures OnboardAll(users, ctx, groups, us[..0], newIds[..0]) == Progress(users, map[], 0)
    ensures InOrg(us[..0], groups) == {}
  {
  }

  lemma NextOnboarding(users: Users, ctx: Context, groups: Groups, us: seq<SnapUser>, newIds: seq<string>, i: nat)
    requires i < |us| == |newIds|
    ensures OnboardAll(users, ctx, groups, us[..i + 1], newIds[..i + 1])
            == OnboardOne(OnboardAll(users, ctx, groups, us[..i], newIds[..i]), ctx, groups, us[i], newIds[i])
  {
    hide OnboardOne;
    assert us[..i + 1][..i] == us[..i] && newIds[..i + 1][..i] == newIds[..i];
  }

  lemma UpsertValid(users: Users, ctx: Context, u: SnapUser, newId: string)
    requires ValidUsers(users)
    ensures ValidUsers(Stored(users, UpsertOf(users, ctx, u, newId)))
  {
    hide UpsertOf;
    UpsertEffect(users, ctx, u, newId);
  }
}
