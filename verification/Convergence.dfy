/**
 * What a reconciliation leaves behind: who is active, who is untouched, who is in which group, and
 * what the counters mean.
 */
module Convergence {
  import opened Admission
  import opened Provisioning

  /** The SIDs of the active directory users of an organisation. */
  function ActiveSids(users: Users, org: string): set<string> {
    set x | x in users && FromDirectory(users[x], org) && users[x].status == Active :: users[x].externalId
  }

  function ActiveRows(users: Users, org: string): set<string> {
    set x | x in users && FromDirectory(users[x], org) && users[x].status == Active
  }

  // ------------------------------------------------------ who ends up active

  /** A recorded user has a row that stays active. */
  lemma DoneActive(p: Progress, ctx: Context, groups: Groups, us: seq<SnapUser>, sid: string)
    requires DoneKept(p, ctx, groups, us) && sid in p.done
    ensures p.done[sid] in p.users && FromDirectory(p.users[p.done[sid]], ctx.org)
    ensures p.users[p.done[sid]].status == Active && p.users[p.done[sid]].externalId == sid
  {
    hide Belongs, Accepted, PickEmail, NameOf;
    assert SnapshotRow(us, groups, sid);
  }

  /** After offboarding the active SIDs are those that were active and belong. */
  lemma OffboardActive(users: Users, org: string, inOrg: set<string>)
    ensures ActiveSids(Offboard(users, Leavers(users, org, inOrg)), org) == ActiveSids(users, org) * inOrg
  {
    var after := Offboard(users, Leavers(users, org, inOrg));
    forall sid | sid in ActiveSids(users, org) * inOrg
      ensures sid in ActiveSids(after, org)
    {
      var x :| x in users && FromDirectory(users[x], org) && users[x].status == Active && users[x].externalId == sid;
      assert x in after && after[x] == users[x];
    }
  }

  lemma OnboardActive(before: Users, p: Progress, ctx: Context, groups: Groups, us: seq<SnapUser>)
    requires RowsKept(before, p, ctx.org) && DoneKept(p, ctx, groups, us)
    ensures ActiveSids(p.users, ctx.org) == p.done.Keys + ActiveSids(before, ctx.org)
  {
    hide ValidUsers, DoneKept;
    forall sid | sid in p.done
      ensures sid in ActiveSids(p.users, ctx.org)
    {
      DoneActive(p, ctx, groups, us, sid);
    }
    forall sid | sid in ActiveSids(before, ctx.org)
      ensures sid in p.done.Keys + ActiveSids(p.users, ctx.org)
    {
      var x :| x in before && FromDirectory(before[x], ctx.org) && before[x].status == Active
        && before[x].externalId == sid;
      assert x in p.users && p.users[x].externalId == sid;
    }
  }

  /**
   * Exactly these directory users are active afterwards: the ones nothing stood in the way of, and
   * the ones that were active before and still belong.
   */
  lemma Converges(db: Db, ctx: Context, groups: Groups, us: seq<SnapUser>, newIds: seq<string>)
    requires ValidUsers(db.users) && DistinctSids(us) && |newIds| == |us|
    ensures var (after, _) := Reconciled(db, ctx, groups, us, newIds);
            var admitted := Admitted(db.users, ctx, groups, us, newIds);
            && admitted <= InOrg(us, groups)
            && ActiveSids(after.users, ctx.org) == admitted + ActiveSids(db.users, ctx.org) * InOrg(us, groups)
  {
    hide OnboardAll, Admitted, InOrg, ValidUsers, DoneKept, RowsKept, IdsKept, ActiveSids, Offboard, Leavers;
    var p, inOrg := OnboardAll(db.users, ctx, groups, us, newIds), InOrg(us, groups);
    OnboardAllKeeps(db.users, ctx, groups, us, newIds);
    OnboardedIff(db.users, ctx, groups, us, newIds);
    DoneInOrg(p, ctx, groups, us);
    OnboardActive(db.users, p, ctx, groups, us);
    OffboardActive(p.users, ctx.org, inOrg);
  }

  /**
   * Active directory users are always enabled snapshot users of an imported group. They are all of
   * them if and only if every such user was active already or had nothing in its way before the run;
   * so in particular when nothing stood in the way of anybody.
   */
  lemma ConvergesIff(db: Db, ctx: Context, groups: Groups, us: seq<SnapUser>, newIds: seq<string>)
    requires ValidUsers(db.users) && DistinctSids(us) && |newIds| == |us|
    ensures var (after, _) := Reconciled(db, ctx, groups, us, newIds);
            && ActiveSids(after.users, ctx.org) <= InOrg(us, groups)
            && (ActiveSids(after.users, ctx.org) == InOrg(us, groups)
                <==> InOrg(us, groups) <= Admitted(db.users, ctx, groups, us, newIds) + ActiveSids(db.users, ctx.org))
            && (AllClear(db.users, ctx, groups, us, newIds) ==> ActiveSids(after.users, ctx.org) == InOrg(us, groups))
  {
    hide OnboardAll, Admitted, AllClear, InOrg, ValidUsers, Reconciled, ActiveSids;
    Converges(db, ctx, groups, us, newIds);
    AllAdmittedIff(db.users, ctx, groups, us, newIds);
  }

  // ---------------------------------------------------- who is left in peace

  /** Users of other sources or organisations keep their rows, and none of theirs appears. */
  lemma OthersKept(db: Db, ctx: Context, groups: Groups, us: seq<SnapUser>, newIds: seq<string>, x: string)
    requires ValidUsers(db.users) && DistinctSids(us) && |newIds| == |us|
    ensures var (after, _) := Reconciled(db, ctx, groups, us, newIds);
            && ValidUsers(after.users)
            && (x in db.users ==> x in after.users)
            && (x in db.users && !FromDirectory(db.users[x], ctx.org) ==> after.users[x] == db.users[x])
            && (x in after.users && !FromDirectory(after.users[x], ctx.org) ==>
                  x in db.users && after.users[x] == db.users[x])
  {
    hide OnboardAll, InOrg, DoneKept, ValidUsers;
    OnboardAllKeeps(db.users, ctx, groups, us, newIds);
    OffboardValid(OnboardAll(db.users, ctx, groups, us, newIds).users, ctx.org, InOrg(us, groups));
  }

  lemma OffboardValid(users: Users, org: string, inOrg: set<string>)
    requires ValidUsers(users)
    ensures ValidUsers(Offboard(users, Leavers(users, org, inOrg)))
  {
  }

  // ------------------------------------------------------- group membership

  /**
   * An imported group has exactly the onboarded users the snapshot lists in it; any other group
   * keeps its members except those suspended by this run.
   */
  lemma GroupMembersExact(db: Db, ctx: Context, groups: Groups, us: seq<SnapUser>, newIds: seq<string>, uid: string,
                          gid: string)
    requires ValidUsers(db.users) && DistinctSids(us) && |newIds| == |us| && Injective(groups)
    ensures var (after, _) := Reconciled(db, ctx, groups, us, newIds);
            var p := OnboardAll(db.users, ctx, groups, us, newIds);
            && (forall g :: g in groups && groups[g] == gid ==>
                  ((uid, gid) in after.members <==> Listed(us, p.done, uid, g)))
            && (gid !in groups.Values ==>
                  ((uid, gid) in after.members
                   <==> (uid, gid) in db.members && uid !in Leavers(p.users, ctx.org, InOrg(us, groups))))
  {
    hide OnboardAll, InOrg, ValidUsers, Leavers;
    var p := OnboardAll(db.users, ctx, groups, us, newIds);
    forall g | g in groups && groups[g] == gid && Listed(us, p.done, uid, g)
      ensures (uid, gid) in Wanted(groups, us, p.done)
    {
      assert uid in p.done.Values;
    }
  }

  /** Whoever is in an imported group afterwards is an active directory user of the organisation. */
  lemma ImportedMembersActive(db: Db, ctx: Context, groups: Groups, us: seq<SnapUser>, newIds: seq<string>,
                              uid: string, gsid: string)
    requires ValidUsers(db.users) && DistinctSids(us) && |newIds| == |us| && Injective(groups) && gsid in groups
    requires (uid, groups[gsid]) in Reconciled(db, ctx, groups, us, newIds).0.members
    ensures uid in ActiveRows(Reconciled(db, ctx, groups, us, newIds).0.users, ctx.org)
  {
    hide OnboardAll, InOrg, ValidUsers, DoneKept, RowsKept, MembersAfter;
    var p := OnboardAll(db.users, ctx, groups, us, newIds);
    OnboardAllKeeps(db.users, ctx, groups, us, newIds);
    GroupMembersExact(db, ctx, groups, us, newIds, uid, groups[gsid]);
    var i :| 0 <= i < |us| && us[i].sid in p.done && p.done[us[i].sid] == uid && gsid in us[i].groupSids;
    DoneActive(p, ctx, groups, us, us[i].sid);
    DoneInOrg(p, ctx, groups, us);
  }

  /**
   * A user of another source or organisation keeps its membership of a group if and only if the
   * group is not imported, and gains none.
   */
  lemma ForeignMembers(db: Db, ctx: Context, groups: Groups, us: seq<SnapUser>, newIds: seq<string>, x: string,
                       gid: string)
    requires ValidUsers(db.users) && DistinctSids(us) && |newIds| == |us| && Injective(groups)
    requires x in db.users && !FromDirectory(db.users[x], ctx.org)
    ensures (x, gid) in Reconciled(db, ctx, groups, us, newIds).0.members
            <==> (x, gid) in db.members && gid !in groups.Values
  {
    hide OnboardAll, InOrg, ValidUsers, Injective, MembersAfter, Offboard, Listed;
    OthersKept(db, ctx, groups, us, newIds, x);
    GroupMembersExact(db, ctx, groups, us, newIds, x, gid);
    if gid in groups.Values {
      var g :| g in groups && groups[g] == gid;
      if (x, gid) in Reconciled(db, ctx, groups, us, newIds).0.members {
        ImportedMembersActive(db, ctx, groups, us, newIds, x, g);
      }
    } else {
      OnboardAllKeeps(db.users, ctx, groups, us, newIds);
    }
  }

  /** A user entered by hand leaves the group it was put in as soon as the group is imported. */
  lemma ManualMemberLeaves(ctx: Context)
    ensures var row := Row(ctx.org, "ann@example.org", "Ann", "manual", "ann", "", Active);
            var db := Db(map["u1" := row], {("u1", "g1")});
            var after := Reconciled(db, ctx, map["S-1" := "g1"], [], []).0;
            after.users == db.users && after.members == {}
  {
    var row := Row(ctx.org, "ann@example.org", "Ann", "manual", "ann", "", Active);
    var db := Db(map["u1" := row], {("u1", "g1")});
    var groups := map["S-1" := "g1"];
    var after := Reconciled(db, ctx, groups, [], []).0;
    assert !FromDirectory(row, ctx.org);
    assert after.users == db.users;
    assert groups["S-1"] in groups.Values;
  }

  // ------------------------------------------------------------ the counters

  lemma {:induction false} OnboardedBalance(users: Users, ctx: Context, groups: Groups, us: seq<SnapUser>,
                                            newIds: seq<string>)
    requires ValidUsers(users) && DistinctSids(us) && |newIds| == |us|
    ensures var p := OnboardAll(users, ctx, groups, us, newIds);
            |ActiveRows(p.users, ctx.org)| == |ActiveRows(users, ctx.org)| + p.onboarded
  {
    hide UpsertOf, Belongs, ValidUsers, RowsKept, DoneKept, ActiveRows;
    if us == [] {
    } else {
      var k := |us| - 1;
      OnboardedBalance(users, ctx, groups, us[..k], newIds[..k]);
      OnboardAllKeeps(users, ctx, groups, us[..k], newIds[..k]);
      var p := OnboardAll(users, ctx, groups, us[..k], newIds[..k]);
      StillValid(users, p, ctx.org);
      UpsertBalance(p.users, ctx, us[k], newIds[k]);
    }
  }

  lemma StillValid(before: Users, p: Progress, org: string)
    requires RowsKept(before, p, org)
    ensures ValidUsers(p.users)
  {
  }

  lemma UpsertBalance(users: Users, ctx: Context, u: SnapUser, newId: string)
    requires ValidUsers(users)
    ensures var r := UpsertOf(users, ctx, u, newId);
            |ActiveRows(Stored(users, r), ctx.org)|
            == |ActiveRows(users, ctx.org)| + if r.Done? && r.changed then 1 else 0
  {
    hide UpsertOf, FromDirectory, ActiveRows, ValidUsers;
    var r := UpsertOf(users, ctx, u, newId);
    if r.Done? {
      ChangedRow(users, ctx, u, newId);
      ActivatedRow(users, ctx.org, r.id, r.row);
      InactiveRow(users, ctx.org, r.id);
      OneMore(ActiveRows(users, ctx.org), r.id);
    }
  }

  /** An onboarding leaves an active directory row, and reports a change unless the row was one already. */
  lemma ChangedRow(users: Users, ctx: Context, u: SnapUser, newId: string)
    requires UpsertOf(users, ctx, u, newId).Done?
    ensures var r := UpsertOf(users, ctx, u, newId);
            && FromDirectory(r.row, ctx.org) && r.row.status == Active
            && (r.changed <==> !(r.id in users && FromDirectory(users[r.id], ctx.org) && users[r.id].status == Active))
  {
    hide PickEmail, NameOf, EmailTaken, SubjectTaken, Accepted;
  }

  lemma OneMore<T>(s: set<T>, x: T)
    ensures |s + {x}| == |s| + if x in s then 0 else 1
  {
    if x in s {
      assert s + {x} == s;
    }
  }

  lemma ActivatedRow(users: Users, org: string, id: string, row: Row)
    requires FromDirectory(row, org) && row.status == Active
    ensures ActiveRows(users[id := row], org) == ActiveRows(users, org) + {id}
  {
  }

  lemma InactiveRow(users: Users, org: string, id: string)
    ensures id in ActiveRows(users, org) <==> id in users && FromDirectory(users[id], org) && users[id].status == Active
  {
  }

  /** The number of active directory users moves by exactly what the two counters report. */
  lemma CountersBalance(db: Db, ctx: Context, groups: Groups, us: seq<SnapUser>, newIds: seq<string>)
    requires ValidUsers(db.users) && DistinctSids(us) && |newIds| == |us|
    ensures var (after, report) := Reconciled(db, ctx, groups, us, newIds);
            |ActiveRows(after.users, ctx.org)| == |ActiveRows(db.users, ctx.org)| + report.onboarded - report.offboarded
  {
    hide OnboardAll, InOrg, ValidUsers;
    OnboardedBalance(db.users, ctx, groups, us, newIds);
    var users := OnboardAll(db.users, ctx, groups, us, newIds).users;
    var gone := Leavers(users, ctx.org, InOrg(us, groups));
    assert ActiveRows(Offboard(users, gone), ctx.org) == ActiveRows(users, ctx.org) - gone;
    assert gone <= ActiveRows(users, ctx.org);
  }
}
