/**
 * Reconciling again over the same snapshot: exactly when a second run changes nothing, that repeated
 * runs never lose a user, and that they come to rest.
 */
module Settling {
  import opened Admission
  import opened Convergence
  import opened Provisioning

  /** Onboarding an onboarded user writes back the row it has. */
  lemma UpsertIdle(users: Users, ctx: Context, u: SnapUser, id: string, newId: string)
    requires ValidUsers(users) && Onboarded(users, ctx, u, id)
    ensures UpsertOf(users, ctx, u, newId) == Done(id, users[id], false)
  {
    hide PickEmail, NameOf;
    var mine := FindMine(users, ctx.org, u.sid);
    assert Mine(users, ctx.org, u.sid, id);
    MineUnique(users, ctx.org, u.sid, mine.value, id);
  }

  /** On its own, and with the table as it stands, the user would be skipped. */
  ghost predicate Blocked(users: Users, ctx: Context, u: SnapUser, newId: string) {
    !Clear(users, ctx, [], [], {}, u, newId)
  }

  lemma BlockedIff(users: Users, ctx: Context, u: SnapUser, newId: string)
    requires ValidUsers(users)
    ensures UpsertOf(users, ctx, u, newId).Skipped? <==> Blocked(users, ctx, u, newId)
  {
    hide UpsertOf, Clear;
    NothingYet(users, ctx, map[]);
    NoIdsYet(users, ctx.org);
    var p := Progress(users, map[], 0);
    assert p.done.Keys == {};
    TurnIff(users, p, ctx, map[], [], [], u, newId);
  }

  /** The recorded users belong and are onboarded under the ids on record. */
  ghost predicate Standing(users: Users, done: Ids, ctx: Context, groups: Groups, us: seq<SnapUser>) {
    forall i :: 0 <= i < |us| && us[i].sid in done ==>
      Belongs(us[i], groups) && Onboarded(users, ctx, us[i], done[us[i].sid])
  }

  /** Of the snapshot users, those on record. */
  ghost function Recorded(done: Ids, us: seq<SnapUser>): set<string> { set u | u in us && u.sid in done :: u.sid }

  lemma RecordedSnoc(done: Ids, us: seq<SnapUser>, u: SnapUser)
    ensures Recorded(done, us + [u]) == Recorded(done, us) + if u.sid in done then {u.sid} else {}
  {
    assert u in us + [u];
    forall v | v in us
      ensures v in us + [u]
    {
    }
  }

  /** Every user that belongs and is not on record is blocked in the table as it stands. */
  ghost predicate RestBlocked(users: Users, done: Ids, ctx: Context, groups: Groups, us: seq<SnapUser>,
                              newIds: seq<string>)
    requires |newIds| == |us|
  {
    forall k :: 0 <= k < |us| && Belongs(us[k], groups) && us[k].sid !in done ==> Blocked(users, ctx, us[k], newIds[k])
  }

  /** An onboarded user whose turn has not come is still onboarded. */
  lemma StillOnboarded(users: Users, p: Progress, ctx: Context, u: SnapUser, id: string)
    requires RowsKept(users, p, ctx.org) && Onboarded(users, ctx, u, id) && u.sid !in p.done
    ensures Onboarded(p.users, ctx, u, id)
  {
    hide ValidUsers, PickEmail, NameOf, Accepted, RowsKept;
    UntouchedRow(users, p, ctx.org, id);
  }

  /**
   * The users of `known` are onboarded again under their ids, and the table is written exactly when
   * not all the rest is blocked.
   */
  ghost predicate Again(users: Users, p: Progress, done: Ids, known: set<string>, blocked: bool) {
    && known <= p.done.Keys
    && (forall sid :: sid in p.done && sid in done ==> p.done[sid] == done[sid])
    && (p.done.Keys <= done.Keys <==> blocked)
    && (blocked ==> p.users == users && p.onboarded == 0)
  }

  /** Onboarding once more from a table in which the recorded users stand. */
  lemma {:induction false} OnboardAgain(users: Users, done: Ids, ctx: Context, groups: Groups, us: seq<SnapUser>,
                                        newIds: seq<string>)
    requires ValidUsers(users) && DistinctSids(us) && |newIds| == |us| && Standing(users, done, ctx, groups, us)
    ensures Again(users, OnboardAll(users, ctx, groups, us, newIds), done, Recorded(done, us),
                  RestBlocked(users, done, ctx, groups, us, newIds))
  {
    hide UpsertOf, Belongs, ValidUsers, Onboarded, RowsKept, DoneKept, OnboardOne, Again, RestBlocked, Recorded;
    if us == [] {
      AgainNobody(users, done, ctx, groups);
    } else {
      var k := |us| - 1;
      var front, ids := us[..k], newIds[..k];
      assert forall i :: 0 <= i < k ==> front[i] == us[i];
      OnboardAgain(users, done, ctx, groups, front, ids);
      OnboardAllKeeps(users, ctx, groups, front, ids);
      var p := OnboardAll(users, ctx, groups, front, ids);
      NotYetDone(p, ctx, groups, front, us[k]);
      AgainStep(users, p, done, ctx, groups, Recorded(done, front), RestBlocked(users, done, ctx, groups, front, ids),
                us[k], newIds[k]);
      RecordedSnoc(done, front, us[k]);
      assert us == front + [us[k]];
      RestSnoc(users, done, ctx, groups, us, newIds);
    }
  }

  lemma AgainNobody(users: Users, done: Ids, ctx: Context, groups: Groups)
    ensures Again(users, Progress(users, map[], 0), done, Recorded(done, []),
                  RestBlocked(users, done, ctx, groups, [], []))
  {
    assert Recorded(done, []) == {};
  }

  lemma AgainStep(users: Users, p: Progress, done: Ids, ctx: Context, groups: Groups, known: set<string>, blocked: bool,
                  u: SnapUser, newId: string)
    requires ValidUsers(users) && RowsKept(users, p, ctx.org) && u.sid !in p.done
    requires u.sid in done ==> Belongs(u, groups) && Onboarded(users, ctx, u, done[u.sid])
    requires Again(users, p, done, known, blocked)
    ensures Again(users, OnboardOne(p, ctx, groups, u, newId), done, known + (if u.sid in done then {u.sid} else {}),
                  blocked && (Belongs(u, groups) && u.sid !in done ==> Blocked(users, ctx, u, newId)))
  {
    hide UpsertOf, Belongs, ValidUsers, Onboarded, Blocked, RowsKept;
    StillValid(users, p, ctx.org);
    if u.sid in done {
      StillOnboarded(users, p, ctx, u, done[u.sid]);
      OnboardedPresent(p.users, ctx, u, done[u.sid]);
      UpsertIdle(p.users, ctx, u, done[u.sid], newId);
    } else {
      BlockedIff(users, ctx, u, newId);
    }
  }

  lemma OnboardedPresent(users: Users, ctx: Context, u: SnapUser, id: string)
    requires Onboarded(users, ctx, u, id)
    ensures id in users && users[id := users[id]] == users
  {
  }

  lemma RestSnoc(users: Users, done: Ids, ctx: Context, groups: Groups, us: seq<SnapUser>, newIds: seq<string>)
    requires us != [] && |newIds| == |us|
    ensures var k := |us| - 1;
            RestBlocked(users, done, ctx, groups, us, newIds) <==>
            && RestBlocked(users, done, ctx, groups, us[..k], newIds[..k])
            && (Belongs(us[k], groups) && us[k].sid !in done ==> Blocked(users, ctx, us[k], newIds[k]))
  {
    hide Belongs, Blocked;
    var k := |us| - 1;
    assert forall i :: 0 <= i < k ==> us[..k][i] == us[i] && newIds[..k][i] == newIds[i];
  }

  // ------------------------------------------------------------ a second run

  /** Whoever a run onboarded stands in the table it leaves. */
  lemma RunStands(db: Db, ctx: Context, groups: Groups, us: seq<SnapUser>, newIds: seq<string>)
    requires ValidUsers(db.users) && DistinctSids(us) && |newIds| == |us|
    ensures var p := OnboardAll(db.users, ctx, groups, us, newIds);
            && Standing(Reconciled(db, ctx, groups, us, newIds).0.users, p.done, ctx, groups, us)
            && p.done.Keys == Recorded(p.done, us)
  {
    hide OnboardAll, Belongs, ValidUsers, RowsKept, DoneKept, InOrg, Onboarded, Leavers, Offboard, Recorded;
    var p := OnboardAll(db.users, ctx, groups, us, newIds);
    OnboardAllKeeps(db.users, ctx, groups, us, newIds);
    DoneInOrg(p, ctx, groups, us);
    forall i | 0 <= i < |us| && us[i].sid in p.done
      ensures Belongs(us[i], groups)
      ensures Onboarded(Reconciled(db, ctx, groups, us, newIds).0.users, ctx, us[i], p.done[us[i].sid])
    {
      RecordedBelongs(p, ctx, groups, us, i);
      RecordedStays(p, ctx, groups, us, i);
    }
    AllRecorded(p, ctx, groups, us);
  }

  lemma RecordedStays(p: Progress, ctx: Context, groups: Groups, us: seq<SnapUser>, i: nat)
    requires DoneKept(p, ctx, groups, us) && i < |us| && us[i].sid in p.done && p.done.Keys <= InOrg(us, groups)
    ensures Onboarded(Offboard(p.users, Leavers(p.users, ctx.org, InOrg(us, groups))), ctx, us[i], p.done[us[i].sid])
  {
    hide Belongs, InOrg, Accepted, PickEmail, NameOf;
  }

  lemma AllRecorded(p: Progress, ctx: Context, groups: Groups, us: seq<SnapUser>)
    requires DoneKept(p, ctx, groups, us)
    ensures p.done.Keys == Recorded(p.done, us)
  {
    hide Belongs, Onboarded;
    forall sid | sid in p.done
      ensures sid in Recorded(p.done, us)
    {
      var i :| 0 <= i < |us| && us[i].sid == sid && Belongs(us[i], groups);
      assert us[i] in us;
    }
  }

  lemma RecordedBelongs(p: Progress, ctx: Context, groups: Groups, us: seq<SnapUser>, i: nat)
    requires DoneKept(p, ctx, groups, us) && DistinctSids(us) && i < |us| && us[i].sid in p.done
    ensures Belongs(us[i], groups)
  {
    hide Belongs, Onboarded;
    assert SnapshotRow(us, groups, us[i].sid);
    var j :| 0 <= j < |us| && us[j].sid == us[i].sid && Belongs(us[j], groups);
    assert i == j;
  }

  /**
   * The recorded users of the first run are recorded again; those of a second run that records no
   * others are all of them.
   */
  lemma SecondRun(db: Db, ctx: Context, groups: Groups, us: seq<SnapUser>, newIds: seq<string>, newIds': seq<string>)
    requires ValidUsers(db.users) && DistinctSids(us) && |newIds| == |us| == |newIds'|
    ensures var (once, report) := Reconciled(db, ctx, groups, us, newIds);
            var p := OnboardAll(db.users, ctx, groups, us, newIds);
            var p' := OnboardAll(once.users, ctx, groups, us, newIds');
            && p.done.Keys <= p'.done.Keys
            && (p'.done.Keys == p.done.Keys <==> RestBlocked(once.users, p.done, ctx, groups, us, newIds'))
            && (Reconciled(once, ctx, groups, us, newIds') == (once, Report(0, 0, report.active))
                <==> p'.done.Keys == p.done.Keys)
  {
    hide OnboardAll, InOrg, ValidUsers, Standing, RestBlocked, MembersAfter, ActiveSids, Recorded;
    var p := OnboardAll(db.users, ctx, groups, us, newIds);
    var once := Reconciled(db, ctx, groups, us, newIds).0;
    RunStands(db, ctx, groups, us, newIds);
    OthersKept(db, ctx, groups, us, newIds, "");
    OnboardAgain(once.users, p.done, ctx, groups, us, newIds');
    var p' := OnboardAll(once.users, ctx, groups, us, newIds');
    if p'.done.Keys <= p.done.Keys {
      assert p'.done == p.done;
      NobodyLeaves(p.users, ctx.org, InOrg(us, groups));
      assert Offboard(once.users, {}) == once.users;
      MembersSettled(db.members, Leavers(p.users, ctx.org, InOrg(us, groups)), groups, us, p.done);
    } else {
      MoreRecorded(p.done.Keys, p'.done.Keys);
    }
  }

  lemma MoreRecorded<T>(a: set<T>, b: set<T>)
    requires a < b
    ensures |a| < |b|
  {
    assert |b - a| > 0 && |b| == |b - a| + |b * a|;
    assert b * a == a;
  }

  /**
   * A second run over the same snapshot changes no row, no membership, and reports no change, if and
   * only if every user the first run did not admit is blocked in the table it left.
   */
  lemma SecondRunIdleIff(db: Db, ctx: Context, groups: Groups, us: seq<SnapUser>, newIds: seq<string>,
                         newIds': seq<string>)
    requires ValidUsers(db.users) && DistinctSids(us) && |newIds| == |us| == |newIds'|
    ensures var (once, report) := Reconciled(db, ctx, groups, us, newIds);
            var admitted := Admitted(db.users, ctx, groups, us, newIds);
            Reconciled(once, ctx, groups, us, newIds') == (once, Report(0, 0, report.active)) <==>
            forall k :: 0 <= k < |us| && Belongs(us[k], groups) && us[k].sid !in admitted ==>
              Blocked(once.users, ctx, us[k], newIds'[k])
  {
    hide OnboardAll, Admitted, Belongs, ValidUsers, Blocked, IdsKept, Reconciled;
    SecondRun(db, ctx, groups, us, newIds, newIds');
    OnboardedIff(db.users, ctx, groups, us, newIds);
  }

  /** With nothing in the way of anybody before the first run, the second changes nothing, whatever ids it draws. */
  lemma SecondRunIdle(db: Db, ctx: Context, groups: Groups, us: seq<SnapUser>, newIds: seq<string>,
                      newIds': seq<string>)
    requires ValidUsers(db.users) && DistinctSids(us) && |newIds| == |us| == |newIds'|
    requires AllClear(db.users, ctx, groups, us, newIds)
    ensures var (once, report) := Reconciled(db, ctx, groups, us, newIds);
            Reconciled(once, ctx, groups, us, newIds') == (once, Report(0, 0, report.active))
  {
    hide Admitted, AllClear, Belongs, ValidUsers, Blocked, Reconciled;
    SecondRunIdleIff(db, ctx, groups, us, newIds, newIds');
    AllAdmittedIff(db.users, ctx, groups, us, newIds);
    forall k | 0 <= k < |us| && Belongs(us[k], groups)
      ensures us[k].sid in InOrg(us, groups)
    {
      assert us[k] in us;
    }
  }

  lemma NobodyLeaves(users: Users, org: string, inOrg: set<string>)
    ensures Leavers(Offboard(users, Leavers(users, org, inOrg)), org, inOrg) == {}
  {
  }

  lemma MembersSettled(members: Members, gone: set<string>, groups: Groups, us: seq<SnapUser>, done: Ids)
    ensures var after := MembersAfter(members, gone, groups, us, done);
            MembersAfter(after, {}, groups, us, done) == after
  {
    hide Listed;
    forall m | m in Wanted(groups, us, done)
      ensures m.1 in groups.Values
    {
    }
  }

  /** Skips or not, a second run over the same snapshot suspends nobody. */
  lemma SecondRunSuspendsNobody(db: Db, ctx: Context, ctx': Context, groups: Groups, us: seq<SnapUser>,
                                newIds: seq<string>, newIds': seq<string>)
    requires ValidUsers(db.users) && DistinctSids(us) && |newIds| == |us| == |newIds'| && ctx'.org == ctx.org
    ensures Reconciled(Reconciled(db, ctx, groups, us, newIds).0, ctx', groups, us, newIds').1.offboarded == 0
  {
    hide OnboardAll, InOrg, ValidUsers, RowsKept, DoneKept, Offboard;
    var once, inOrg := Reconciled(db, ctx, groups, us, newIds).0, InOrg(us, groups);
    OthersKept(db, ctx, groups, us, newIds, "");
    ConvergesIff(db, ctx, groups, us, newIds);
    var p' := OnboardAll(once.users, ctx', groups, us, newIds');
    OnboardAllKeeps(once.users, ctx', groups, us, newIds');
    DoneInOrg(p', ctx', groups, us);
    OnboardActive(once.users, p', ctx', groups, us);
    NoLeavers(p'.users, ctx.org, inOrg);
  }

  lemma NoLeavers(users: Users, org: string, inOrg: set<string>)
    requires ActiveSids(users, org) <= inOrg
    ensures Leavers(users, org, inOrg) == {}
  {
    forall x | x in users && FromDirectory(users[x], org) && users[x].status == Active
      ensures users[x].externalId in inOrg
    {
      assert users[x].externalId in ActiveSids(users, org);
    }
  }

  // ----------------------------------------------------------- repeated runs

  /** The tables after a run for each of the given lists of new ids. */
  ghost function AfterRuns(db: Db, ctx: Context, groups: Groups, us: seq<SnapUser>, ids: seq<seq<string>>): Db
    requires forall i :: 0 <= i < |ids| ==> |ids[i]| == |us|
  {
    if ids == [] then db
    else
      var n := |ids| - 1;
      Reconciled(AfterRuns(db, ctx, groups, us, ids[..n]), ctx, groups, us, ids[n]).0
  }

  /** Whom run i records. */
  ghost function RecordedIn(db: Db, ctx: Context, groups: Groups, us: seq<SnapUser>, ids: seq<seq<string>>,
                            i: nat): set<string>
    requires i < |ids| && forall j :: 0 <= j < |ids| ==> |ids[j]| == |us|
  {
    OnboardAll(AfterRuns(db, ctx, groups, us, ids[..i]).users, ctx, groups, us, ids[i]).done.Keys
  }

  ghost predicate IdleRun(db: Db, ctx: Context, groups: Groups, us: seq<SnapUser>, ids: seq<seq<string>>, i: nat)
    requires i < |ids| && forall j :: 0 <= j < |ids| ==> |ids[j]| == |us|
  {
    AfterRuns(db, ctx, groups, us, ids[..i + 1]) == AfterRuns(db, ctx, groups, us, ids[..i])
  }

  lemma {:induction false} RunsValid(db: Db, ctx: Context, groups: Groups, us: seq<SnapUser>, ids: seq<seq<string>>)
    requires ValidUsers(db.users) && DistinctSids(us) && forall i :: 0 <= i < |ids| ==> |ids[i]| == |us|
    ensures ValidUsers(AfterRuns(db, ctx, groups, us, ids).users)
  {
    hide ValidUsers, Reconciled;
    if ids == [] {
    } else {
      var n := |ids| - 1;
      RunsValid(db, ctx, groups, us, ids[..n]);
      OthersKept(AfterRuns(db, ctx, groups, us, ids[..n]), ctx, groups, us, ids[n], "");
    }
  }

  /** A later run records everybody the run before it did, and more unless it changes nothing. */
  lemma NextRun(db: Db, ctx: Context, groups: Groups, us: seq<SnapUser>, ids: seq<seq<string>>, i: nat)
    requires ValidUsers(db.users) && DistinctSids(us) && i + 1 < |ids|
    requires forall j :: 0 <= j < |ids| ==> |ids[j]| == |us|
    ensures RecordedIn(db, ctx, groups, us, ids, i) <= RecordedIn(db, ctx, groups, us, ids, i + 1)
    ensures IdleRun(db, ctx, groups, us, ids, i + 1)
            || RecordedIn(db, ctx, groups, us, ids, i) < RecordedIn(db, ctx, groups, us, ids, i + 1)
  {
    hide ValidUsers, Reconciled, OnboardAll, AfterRuns;
    var before := AfterRuns(db, ctx, groups, us, ids[..i]);
    RunsValid(db, ctx, groups, us, ids[..i]);
    RunsSnoc(db, ctx, groups, us, ids, i);
    RunsSnoc(db, ctx, groups, us, ids, i + 1);
    SecondRun(before, ctx, groups, us, ids[i], ids[i + 1]);
  }

  lemma RunsSnoc(db: Db, ctx: Context, groups: Groups, us: seq<SnapUser>, ids: seq<seq<string>>, i: nat)
    requires i < |ids| && forall j :: 0 <= j < |ids| ==> |ids[j]| == |us|
    ensures AfterRuns(db, ctx, groups, us, ids[..i + 1])
            == Reconciled(AfterRuns(db, ctx, groups, us, ids[..i]), ctx, groups, us, ids[i]).0
  {
    assert ids[..i + 1][..i] == ids[..i];
  }

  lemma {:induction false} GrowsOrIdle(db: Db, ctx: Context, groups: Groups, us: seq<SnapUser>,
                                       ids: seq<seq<string>>, n: nat)
    requires ValidUsers(db.users) && DistinctSids(us) && n < |ids| && forall j :: 0 <= j < |ids| ==> |ids[j]| == |us|
    ensures (exists i :: 1 <= i <= n && IdleRun(db, ctx, groups, us, ids, i))
            || |RecordedIn(db, ctx, groups, us, ids, n)| >= n
  {
    hide ValidUsers, IdleRun, RecordedIn;
    if n == 0 {
    } else {
      GrowsOrIdle(db, ctx, groups, us, ids, n - 1);
      NextRun(db, ctx, groups, us, ids, n - 1);
      if RecordedIn(db, ctx, groups, us, ids, n - 1) < RecordedIn(db, ctx, groups, us, ids, n) {
        MoreRecorded(RecordedIn(db, ctx, groups, us, ids, n - 1), RecordedIn(db, ctx, groups, us, ids, n));
      }
    }
  }

  /**
   * Repeated runs over the same snapshot come to rest: whatever was skipped and whatever ids are
   * drawn, after the first run at most one run per snapshot user that belongs changes anything
   * before some run changes nothing.
   */
  lemma RunsSettle(db: Db, ctx: Context, groups: Groups, us: seq<SnapUser>, ids: seq<seq<string>>)
    requires ValidUsers(db.users) && DistinctSids(us) && forall j :: 0 <= j < |ids| ==> |ids[j]| == |us|
    requires |ids| == |InOrg(us, groups)| + 2
    ensures exists i :: 1 <= i < |ids| && IdleRun(db, ctx, groups, us, ids, i)
  {
    hide ValidUsers, IdleRun, InOrg, AfterRuns, DoneKept, RowsKept, OnboardAll;
    var n := |ids| - 1;
    GrowsOrIdle(db, ctx, groups, us, ids, n);
    RunsValid(db, ctx, groups, us, ids[..n]);
    var before := AfterRuns(db, ctx, groups, us, ids[..n]);
    OnboardAllKeeps(before.users, ctx, groups, us, ids[n]);
    DoneInOrg(OnboardAll(before.users, ctx, groups, us, ids[n]), ctx, groups, us);
    AtMost(RecordedIn(db, ctx, groups, us, ids, n), InOrg(us, groups));
  }

  lemma AtMost<T>(a: set<T>, b: set<T>)
    requires a <= b
    ensures |a| <= |b|
  {
    if a != b {
      MoreRecorded(a, b);
    }
  }

  /**
   * Order matters: a user whose address is held by the row of a later user is not clear. The first
   * run skips it although the row moves away, and the second run onboards it. With the two users in
   * the other order everybody is clear.
   */
  lemma SkippedIsOnboardedLater(ctx: Context, groups: Groups, u: SnapUser, v: SnapUser, row: Row, newIds: seq<string>)
    requires Belongs(u, groups) && Belongs(v, groups) && u.sid != v.sid
    requires Accepted(ctx, u) && Accepted(ctx, v) && PickEmail(u, ctx.domain) != PickEmail(v, ctx.domain)
    requires row == Row(ctx.org, PickEmail(u, ctx.domain), NameOf(v), AD_CONNECTOR, v.sid, v.sid, Active)
    requires |newIds| == 2 && newIds[0] != "r"
    ensures var db := Db(map["r" := row], {});
            var (once, first) := Reconciled(db, ctx, groups, [u, v], newIds);
            && !AllClear(db.users, ctx, groups, [u, v], newIds)
            && AllClear(db.users, ctx, groups, [v, u], [newIds[1], newIds[0]])
            && first.onboarded == 0 && Reconciled(once, ctx, groups, [u, v], newIds).1.onboarded == 1
  {
    hide Belongs, Accepted, PickEmail, NameOf, MembersAfter, OnboardAll, InOrg, AllClear;
    LaterHolder(ctx, groups, u, v, row, newIds);
    var moved := map["r" := row.(email := PickEmail(v, ctx.domain))];
    TwoPasses(ctx, groups, u, v, row, newIds);
    InOrgSnoc([u], v, groups);
    assert [u] + [v] == [u, v];
    assert Offboard(moved, Leavers(moved, ctx.org, InOrg([u, v], groups))) == moved;
  }

  lemma LaterHolder(ctx: Context, groups: Groups, u: SnapUser, v: SnapUser, row: Row, newIds: seq<string>)
    requires Belongs(u, groups) && Belongs(v, groups) && u.sid != v.sid
    requires Accepted(ctx, u) && Accepted(ctx, v) && PickEmail(u, ctx.domain) != PickEmail(v, ctx.domain)
    requires row == Row(ctx.org, PickEmail(u, ctx.domain), NameOf(v), AD_CONNECTOR, v.sid, v.sid, Active)
    requires |newIds| == 2 && newIds[0] != "r"
    ensures !AllClear(map["r" := row], ctx, groups, [u, v], newIds)
    ensures AllClear(map["r" := row], ctx, groups, [v, u], [newIds[1], newIds[0]])
  {
    hide Belongs, Accepted, PickEmail, NameOf;
    var users := map["r" := row];
    assert [u, v][..0] == [] && newIds[..0] == [] && [u, v][0] == u;
    assert InOrg([], groups) == {};
    assert "r" in users && users["r"].email == PickEmail(u, ctx.domain) && !Mine(users, ctx.org, u.sid, "r");
    assert !Clear(users, ctx, [u, v][..0], newIds[..0], {}, u, newIds[0]);
    var us, ids := [v, u], [newIds[1], newIds[0]];
    assert us[..0] == [] && us[..1] == [v] && ids[..0] == [] && ids[..1] == [ids[0]];
    assert v in [v] && v.sid in InOrg([v], groups);
    assert Mine(users, ctx.org, v.sid, "r");
    assert Clear(users, ctx, us[..0], ids[..0], {}, v, ids[0]);
    assert Clear(users, ctx, us[..1], ids[..1], InOrg(us[..1], groups), u, ids[1]);
  }

  lemma TwoPasses(ctx: Context, groups: Groups, u: SnapUser, v: SnapUser, row: Row, newIds: seq<string>)
    requires Belongs(u, groups) && Belongs(v, groups) && u.sid != v.sid
    requires Accepted(ctx, u) && Accepted(ctx, v) && PickEmail(u, ctx.domain) != PickEmail(v, ctx.domain)
    requires row == Row(ctx.org, PickEmail(u, ctx.domain), NameOf(v), AD_CONNECTOR, v.sid, v.sid, Active)
    requires |newIds| == 2 && newIds[0] != "r"
    ensures var before := map["r" := row];
            var moved := map["r" := row.(email := PickEmail(v, ctx.domain))];
            && OnboardAll(before, ctx, groups, [u, v], newIds) == Progress(moved, map[v.sid := "r"], 0)
            && OnboardAll(moved, ctx, groups, [u, v], newIds).onboarded == 1
  {
    hide Belongs, Accepted, PickEmail, NameOf, OnboardAll, UpsertOf;
    var before := map["r" := row];
    var moved := map["r" := row.(email := PickEmail(v, ctx.domain))];
    FirstSkips(ctx, u, v, row, newIds[0]);
    TwoOnboardings(before, ctx, groups, u, v, newIds);
    TwoOnboardings(moved, ctx, groups, u, v, newIds);
    assert before["r" := moved["r"]] == moved;
  }

  lemma OneOnboarding(users: Users, ctx: Context, groups: Groups, u: SnapUser, newId: string)
    ensures OnboardAll(users, ctx, groups, [u], [newId]) == OnboardOne(Progress(users, map[], 0), ctx, groups, u, newId)
  {
    hide OnboardOne;
    assert [u][..0] == [] && [newId][..0] == [];
    assert OnboardAll(users, ctx, groups, [u][..0], [newId][..0]) == Progress(users, map[], 0);
  }

  lemma TwoOnboardings(users: Users, ctx: Context, groups: Groups, u: SnapUser, v: SnapUser, newIds: seq<string>)
    requires |newIds| == 2
    ensures OnboardAll(users, ctx, groups, [u, v], newIds)
            == OnboardOne(OnboardOne(Progress(users, map[], 0), ctx, groups, u, newIds[0]), ctx, groups, v, newIds[1])
  {
    hide OnboardOne;
    OneOnboarding(users, ctx, groups, u, newIds[0]);
    assert [u, v][..1] == [u] && newIds[..1] == [newIds[0]];
    assert OnboardAll(users, ctx, groups, [u, v], newIds)
        == OnboardOne(OnboardAll(users, ctx, groups, [u, v][..1], newIds[..1]), ctx, groups, [u, v][1], newIds[1]);
  }

  lemma FirstSkips(ctx: Context, u: SnapUser, v: SnapUser, row: Row, newId: string)
    requires u.sid != v.sid && newId != "r"
    requires Accepted(ctx, u) && Accepted(ctx, v) && PickEmail(u, ctx.domain) != PickEmail(v, ctx.domain)
    requires row == Row(ctx.org, PickEmail(u, ctx.domain), NameOf(v), AD_CONNECTOR, v.sid, v.sid, Active)
    ensures var before := map["r" := row];
            var moved := map["r" := row.(email := PickEmail(v, ctx.domain))];
            && UpsertOf(before, ctx, u, newId).Skipped?
            && (forall id :: UpsertOf(before, ctx, v, id) == Done("r", moved["r"], false))
            && UpsertOf(moved, ctx, u, newId).Done? && UpsertOf(moved, ctx, u, newId).changed
            && UpsertOf(moved, ctx, u, newId).id == newId
            && (forall id :: !UpsertOf(Stored(moved, UpsertOf(moved, ctx, u, newId)), ctx, v, id).Done?
                             || !UpsertOf(Stored(moved, UpsertOf(moved, ctx, u, newId)), ctx, v, id).changed)
  {
    hide Accepted, PickEmail, NameOf;
    var before := map["r" := row];
    assert Mine(before, ctx.org, v.sid, "r");
  }
}
