/**
 * Who gets onboarded, told from the tables and the snapshot before a run: which users nothing stands
 * in the way of, given which earlier users of the same run make room or take an address.
 */
module Admission {
  import opened Wire
  import opened Provisioning

  ghost predicate HasRow(users: Users, org: string, sid: string) { exists x :: Mine(users, org, sid, x) }

  /** Only rows that an earlier user moves away hold the address, and no earlier user takes it. */
  ghost predicate AddressClear(users: Users, ctx: Context, earlier: seq<SnapUser>, moved: set<string>, u: SnapUser) {
    var addr := PickEmail(u, ctx.domain);
    && (forall x :: x in users && users[x].email == addr && !Mine(users, ctx.org, u.sid, x) ==>
          FromDirectory(users[x], ctx.org) && users[x].externalId in moved)
    && (forall j :: 0 <= j < |earlier| && earlier[j].sid in moved ==> PickEmail(earlier[j], ctx.domain) != addr)
  }

  /** No other organisation has a directory row for the SID. */
  ghost predicate SubjectClear(users: Users, org: string, sid: string) {
    forall x :: x in users && users[x].provider == AD_CONNECTOR && users[x].subject == sid ==> Mine(users, org, sid, x)
  }

  /** The id for a new row is neither in the table nor given to an earlier new row. */
  ghost predicate IdClear(users: Users, org: string, earlier: seq<SnapUser>, ids: seq<string>, moved: set<string>,
                          newId: string)
    requires |ids| == |earlier|
  {
    && newId !in users
    && (forall j :: 0 <= j < |earlier| && earlier[j].sid in moved && !HasRow(users, org, earlier[j].sid) ==>
          ids[j] != newId)
  }

  /** Nothing stands in the way of u after the earlier users, of whom those in `moved` were onboarded. */
  ghost predicate Clear(users: Users, ctx: Context, earlier: seq<SnapUser>, ids: seq<string>, moved: set<string>,
                        u: SnapUser, newId: string)
    requires |ids| == |earlier|
  {
    && Accepted(ctx, u)
    && AddressClear(users, ctx, earlier, moved, u)
    && SubjectClear(users, ctx.org, u.sid)
    && (HasRow(users, ctx.org, u.sid) || IdClear(users, ctx.org, earlier, ids, moved, newId))
  }

  /** The users that get onboarded, told in snapshot order from the table before the run. */
  ghost function Admitted(users: Users, ctx: Context, groups: Groups, us: seq<SnapUser>,
                          newIds: seq<string>): set<string>
    requires |newIds| == |us|
  {
    if us == [] then {}
    else
      var k := |us| - 1;
      var moved := Admitted(users, ctx, groups, us[..k], newIds[..k]);
      moved + if Belongs(us[k], groups) && Clear(users, ctx, us[..k], newIds[..k], moved, us[k], newIds[k])
              then {us[k].sid} else {}
  }

  /** Nothing stands in the way of any user, as all earlier ones make room. */
  ghost predicate AllClear(users: Users, ctx: Context, groups: Groups, us: seq<SnapUser>, newIds: seq<string>)
    requires |newIds| == |us|
  {
    forall k :: 0 <= k < |us| && Belongs(us[k], groups) ==>
      Clear(users, ctx, us[..k], newIds[..k], InOrg(us[..k], groups), us[k], newIds[k])
  }

  // ------------------------------------------------- the table midway in a run

  /** New rows are those of recorded users that had none, under the ids meant for them. */
  ghost predicate IdsKept(before: Users, p: Progress, org: string, us: seq<SnapUser>, newIds: seq<string>)
    requires |newIds| == |us|
  {
    && (forall x :: x in p.users && x !in before ==> NewRow(before, p.done, org, us, newIds, x))
    && (forall j :: 0 <= j < |us| && us[j].sid in p.done && !HasRow(before, org, us[j].sid) ==> newIds[j] in p.users)
  }

  ghost predicate NewRow(before: Users, done: Ids, org: string, us: seq<SnapUser>, newIds: seq<string>, x: string)
    requires |newIds| == |us|
  {
    exists j :: 0 <= j < |us| && us[j].sid in done && !HasRow(before, org, us[j].sid) && newIds[j] == x
  }

  /** Rows of a user that was not onboarded are those from before the run. */
  lemma SameRows(before: Users, p: Progress, org: string, sid: string)
    requires RowsKept(before, p, org) && sid !in p.done
    ensures forall x :: Mine(p.users, org, sid, x) <==> Mine(before, org, sid, x)
    ensures FindMine(p.users, org, sid).Some? <==> HasRow(before, org, sid)
  {
    hide ValidUsers;
    if FindMine(p.users, org, sid).Some? {
      assert Mine(before, org, sid, FindMine(p.users, org, sid).value);
    }
  }

  /** A row that is not a recorded user's is as it was before the run. */
  lemma UntouchedRow(before: Users, p: Progress, org: string, x: string)
    requires RowsKept(before, p, org) && x in before
    requires !(FromDirectory(before[x], org) && before[x].externalId in p.done)
    ensures x in p.users && p.users[x] == before[x]
  {
    hide ValidUsers;
  }

  lemma RecordedRow(p: Progress, ctx: Context, groups: Groups, us: seq<SnapUser>, x: string)
    requires ValidUsers(p.users) && DoneKept(p, ctx, groups, us)
    requires x in p.users && FromDirectory(p.users[x], ctx.org) && p.users[x].externalId in p.done
    ensures exists j :: 0 <= j < |us|
                        && us[j].sid == p.users[x].externalId && p.users[x].email == PickEmail(us[j], ctx.domain)
  {
    hide Belongs, Accepted, PickEmail, NameOf, ValidUsers;
    var sid := p.users[x].externalId;
    assert SnapshotRow(us, groups, sid);
    var j :| 0 <= j < |us| && us[j].sid == sid && Belongs(us[j], groups);
    MineUnique(p.users, ctx.org, sid, x, p.done[sid]);
  }

  lemma AddressIff(before: Users, p: Progress, ctx: Context, groups: Groups, us: seq<SnapUser>, u: SnapUser)
    requires RowsKept(before, p, ctx.org) && DoneKept(p, ctx, groups, us) && ValidUsers(p.users) && u.sid !in p.done
    ensures EmailTaken(p.users, PickEmail(u, ctx.domain), FindMine(p.users, ctx.org, u.sid))
            <==> !AddressClear(before, ctx, us, p.done.Keys, u)
  {
    hide ValidUsers, PickEmail, NameOf, Accepted, RowsKept, DoneKept, EmailTaken, AddressClear;
    if EmailTaken(p.users, PickEmail(u, ctx.domain), FindMine(p.users, ctx.org, u.sid)) {
      TakenIsNotClear(before, p, ctx, groups, us, u);
    } else {
      FreeIsClear(before, p, ctx, groups, us, u);
    }
  }

  lemma TakenIsNotClear(before: Users, p: Progress, ctx: Context, groups: Groups, us: seq<SnapUser>, u: SnapUser)
    requires RowsKept(before, p, ctx.org) && DoneKept(p, ctx, groups, us) && ValidUsers(p.users) && u.sid !in p.done
    requires EmailTaken(p.users, PickEmail(u, ctx.domain), FindMine(p.users, ctx.org, u.sid))
    ensures !AddressClear(before, ctx, us, p.done.Keys, u)
  {
    hide ValidUsers, PickEmail, NameOf, Accepted, DoneKept;
    var addr, mine := PickEmail(u, ctx.domain), FindMine(p.users, ctx.org, u.sid);
    var x :| x in p.users && Some(x) != mine && p.users[x].email == addr;
    SameRows(before, p, ctx.org, u.sid);
    if FromDirectory(p.users[x], ctx.org) && p.users[x].externalId in p.done {
      RecordedRow(p, ctx, groups, us, x);
    } else {
      assert x in before && p.users[x] == before[x];
      if Mine(p.users, ctx.org, u.sid, x) {
        MineUnique(p.users, ctx.org, u.sid, x, mine.value);
      }
    }
  }

  lemma FreeIsClear(before: Users, p: Progress, ctx: Context, groups: Groups, us: seq<SnapUser>, u: SnapUser)
    requires RowsKept(before, p, ctx.org) && DoneKept(p, ctx, groups, us) && ValidUsers(p.users) && u.sid !in p.done
    requires !EmailTaken(p.users, PickEmail(u, ctx.domain), FindMine(p.users, ctx.org, u.sid))
    ensures AddressClear(before, ctx, us, p.done.Keys, u)
  {
    hide ValidUsers, PickEmail, NameOf, Accepted, RowsKept;
    var addr := PickEmail(u, ctx.domain);
    SameRows(before, p, ctx.org, u.sid);
    forall x | x in before && before[x].email == addr && !Mine(before, ctx.org, u.sid, x)
      ensures FromDirectory(before[x], ctx.org) && before[x].externalId in p.done
    {
      if !(FromDirectory(before[x], ctx.org) && before[x].externalId in p.done) {
        UntouchedRow(before, p, ctx.org, x);
      }
    }
    forall j | 0 <= j < |us| && us[j].sid in p.done
      ensures PickEmail(us[j], ctx.domain) != addr
    {
      assert Onboarded(p.users, ctx, us[j], p.done[us[j].sid]);
    }
  }

  lemma SubjectIff(before: Users, p: Progress, org: string, sid: string)
    requires RowsKept(before, p, org) && ValidUsers(before) && sid !in p.done
    ensures HasRow(before, org, sid) ==> SubjectClear(before, org, sid)
    ensures !HasRow(before, org, sid) ==> (SubjectTaken(p.users, sid) <==> !SubjectClear(before, org, sid))
  {
    SameRows(before, p, org, sid);
    if !HasRow(before, org, sid) {
      forall x | x in p.users && p.users[x].provider == AD_CONNECTOR && p.users[x].subject == sid
        ensures x in before && before[x] == p.users[x] && !Mine(before, org, sid, x)
      {
        assert !Mine(p.users, org, sid, x);
      }
      forall x | x in before && before[x].provider == AD_CONNECTOR && before[x].subject == sid
        ensures x in p.users && before[x] == p.users[x]
      {
        assert !Mine(before, org, sid, x);
      }
    }
  }

  lemma IdIff(before: Users, p: Progress, org: string, us: seq<SnapUser>, newIds: seq<string>, newId: string)
    requires |newIds| == |us| && IdsKept(before, p, org, us, newIds) && before.Keys <= p.users.Keys
    ensures newId in p.users <==> !IdClear(before, org, us, newIds, p.done.Keys, newId)
  {
    hide HasRow;
  }

  /** A user's turn succeeds exactly when nothing stood in the way before the run. */
  lemma TurnIff(before: Users, p: Progress, ctx: Context, groups: Groups, us: seq<SnapUser>, newIds: seq<string>,
                u: SnapUser, newId: string)
    requires ValidUsers(before) && |newIds| == |us| && u.sid !in p.done
    requires RowsKept(before, p, ctx.org) && DoneKept(p, ctx, groups, us) && IdsKept(before, p, ctx.org, us, newIds)
    ensures UpsertOf(p.users, ctx, u, newId).Done? <==> Clear(before, ctx, us, newIds, p.done.Keys, u, newId)
    ensures var r := UpsertOf(p.users, ctx, u, newId);
            r.Done? && !HasRow(before, ctx.org, u.sid) ==> r.id == newId
    ensures var r := UpsertOf(p.users, ctx, u, newId);
            r.Done? && HasRow(before, ctx.org, u.sid) ==> r.id in before
  {
    hide ValidUsers, PickEmail, NameOf, Accepted, DoneKept, EmailTaken, SubjectTaken, AddressClear, SubjectClear,
         IdClear, IdsKept;
    SameRows(before, p, ctx.org, u.sid);
    AddressIff(before, p, ctx, groups, us, u);
    SubjectIff(before, p, ctx.org, u.sid);
    IdIff(before, p, ctx.org, us, newIds, newId);
  }

  // ------------------------------------------------------------ the whole run

  lemma IdsStep(before: Users, p: Progress, p': Progress, org: string, us: seq<SnapUser>, newIds: seq<string>,
                u: SnapUser, newId: string, id: string)
    requires |newIds| == |us| && IdsKept(before, p, org, us, newIds)
    requires p'.done == p.done[u.sid := id] && p'.users.Keys == p.users.Keys + {id} && before.Keys <= p.users.Keys
    requires forall j :: 0 <= j < |us| ==> us[j].sid != u.sid
    requires if HasRow(before, org, u.sid) then id in before else id == newId
    ensures IdsKept(before, p', org, us + [u], newIds + [newId])
  {
    hide HasRow;
    var all, ids := us + [u], newIds + [newId];
    assert all[|us|] == u && ids[|us|] == newId;
    forall x | x in p'.users && x !in before
      ensures NewRow(before, p'.done, org, all, ids, x)
    {
      if x in p.users {
        var j :| 0 <= j < |us| && us[j].sid in p.done && !HasRow(before, org, us[j].sid) && newIds[j] == x;
        assert all[j] == us[j] && ids[j] == x;
      }
    }
    forall j | 0 <= j < |all| && all[j].sid in p'.done && !HasRow(before, org, all[j].sid)
      ensures ids[j] in p'.users
    {
      if j < |us| {
        assert all[j] == us[j];
      }
    }
  }

  lemma IdsSame(before: Users, p: Progress, org: string, us: seq<SnapUser>, newIds: seq<string>, u: SnapUser,
                newId: string)
    requires |newIds| == |us| && IdsKept(before, p, org, us, newIds) && u.sid !in p.done
    ensures IdsKept(before, p, org, us + [u], newIds + [newId])
  {
    hide HasRow;
    var all, ids := us + [u], newIds + [newId];
    forall x | x in p.users && x !in before
      ensures NewRow(before, p.done, org, all, ids, x)
    {
      var j :| 0 <= j < |us| && us[j].sid in p.done && !HasRow(before, org, us[j].sid) && newIds[j] == x;
      assert all[j] == us[j] && ids[j] == x;
    }
  }

  lemma NotYetDone(p: Progress, ctx: Context, groups: Groups, us: seq<SnapUser>, u: SnapUser)
    requires DoneKept(p, ctx, groups, us) && forall j :: 0 <= j < |us| ==> us[j].sid != u.sid
    ensures u.sid !in p.done
  {
    hide Belongs, Onboarded;
    assert !SnapshotRow(us, groups, u.sid);
  }

  /** Exactly the users told from the table before the run are onboarded. */
  lemma {:induction false} OnboardedIff(users: Users, ctx: Context, groups: Groups, us: seq<SnapUser>,
                                        newIds: seq<string>)
    requires ValidUsers(users) && DistinctSids(us) && |newIds| == |us|
    ensures var p := OnboardAll(users, ctx, groups, us, newIds);
            p.done.Keys == Admitted(users, ctx, groups, us, newIds) && IdsKept(users, p, ctx.org, us, newIds)
  {
    hide UpsertOf, Belongs, ValidUsers, Clear, DoneKept, RowsKept, IdsKept, OnboardOne;
    if us == [] {
      NoIdsYet(users, ctx.org);
    } else {
      var k := |us| - 1;
      var front, ids := us[..k], newIds[..k];
      OnboardedIff(users, ctx, groups, front, ids);
      OnboardAllKeeps(users, ctx, groups, front, ids);
      OnboardedStep(users, OnboardAll(users, ctx, groups, front, ids), ctx, groups, front, ids, us[k], newIds[k]);
      assert us == front + [us[k]] && newIds == ids + [newIds[k]];
    }
  }

  lemma OnboardedStep(before: Users, p: Progress, ctx: Context, groups: Groups, us: seq<SnapUser>, newIds: seq<string>,
                      u: SnapUser, newId: string)
    requires ValidUsers(before) && DistinctSids(us + [u]) && |newIds| == |us|
    requires RowsKept(before, p, ctx.org) && DoneKept(p, ctx, groups, us) && IdsKept(before, p, ctx.org, us, newIds)
    ensures var p' := OnboardOne(p, ctx, groups, u, newId);
            && p'.done.Keys ==
               p.done.Keys + (if Belongs(u, groups) && Clear(before, ctx, us, newIds, p.done.Keys, u, newId)
                              then {u.sid} else {})
            && IdsKept(before, p', ctx.org, us + [u], newIds + [newId])
  {
    hide UpsertOf, Belongs, ValidUsers, Clear, DoneKept, IdsKept, HasRow, Wrote;
    var all, r := us + [u], UpsertOf(p.users, ctx, u, newId);
    assert all[|us|] == u && forall j :: 0 <= j < |us| ==> all[j] == us[j];
    NotYetDone(p, ctx, groups, us, u);
    TurnIff(before, p, ctx, groups, us, newIds, u, newId);
    if Belongs(u, groups) && r.Done? {
      UpsertEffect(p.users, ctx, u, newId);
      WroteKeys(p.users, Stored(p.users, r), ctx, u, r.id);
      IdsStep(before, p, OnboardOne(p, ctx, groups, u, newId), ctx.org, us, newIds, u, newId, r.id);
    } else {
      IdsSame(before, p, ctx.org, us, newIds, u, newId);
    }
  }

  lemma NoIdsYet(users: Users, org: string)
    ensures IdsKept(users, Progress(users, map[], 0), org, [], [])
  {
  }

  lemma WroteKeys(users: Users, users': Users, ctx: Context, u: SnapUser, id: string)
    requires Wrote(users, users', ctx, u, id)
    ensures users'.Keys == users.Keys + {id}
  {
  }

  lemma {:induction false} AllAdmittedIff(users: Users, ctx: Context, groups: Groups, us: seq<SnapUser>,
                                          newIds: seq<string>)
    requires DistinctSids(us) && |newIds| == |us|
    ensures var admitted := Admitted(users, ctx, groups, us, newIds);
            && admitted <= InOrg(us, groups)
            && (admitted == InOrg(us, groups) <==> AllClear(users, ctx, groups, us, newIds))
  {
    hide Belongs, Clear, InOrg;
    if us == [] {
      NoneInOrg(groups);
    } else {
      var k := |us| - 1;
      var front, ids := us[..k], newIds[..k];
      AllAdmittedIff(users, ctx, groups, front, ids);
      InOrgSnoc(front, us[k], groups);
      assert us == front + [us[k]];
      NotInOrg(front, us[k].sid, groups);
      AllClearSnoc(users, ctx, groups, us, newIds);
    }
  }

  lemma NoneInOrg(groups: Groups)
    ensures InOrg([], groups) == {}
  {
  }

  lemma NotInOrg(us: seq<SnapUser>, sid: string, groups: Groups)
    requires forall j :: 0 <= j < |us| ==> us[j].sid != sid
    ensures sid !in InOrg(us, groups)
  {
    hide Belongs;
  }

  lemma AllClearSnoc(users: Users, ctx: Context, groups: Groups, us: seq<SnapUser>, newIds: seq<string>)
    requires us != [] && |newIds| == |us|
    ensures var k := |us| - 1;
            AllClear(users, ctx, groups, us, newIds) <==>
            && AllClear(users, ctx, groups, us[..k], newIds[..k])
            && (Belongs(us[k], groups) ==>
                  Clear(users, ctx, us[..k], newIds[..k], InOrg(us[..k], groups), us[k], newIds[k]))
  {
    hide Belongs, Clear, InOrg;
    var k := |us| - 1;
    var front, ids := us[..k], newIds[..k];
    assert forall i :: 0 <= i < k ==> front[i] == us[i] && ids[i] == newIds[i];
    assert forall i :: 0 <= i < k ==> front[..i] == us[..i] && ids[..i] == newIds[..i];
  }

  /** A run skips nobody if and only if, before it, nothing stands in the way of any user that belongs. */
  lemma NoSkipsIff(users: Users, ctx: Context, groups: Groups, us: seq<SnapUser>, newIds: seq<string>)
    requires ValidUsers(users) && DistinctSids(us) && |newIds| == |us|
    ensures NoSkips(OnboardAll(users, ctx, groups, us, newIds), us, groups)
            <==> AllClear(users, ctx, groups, us, newIds)
  {
    hide ValidUsers, OnboardAll, Admitted, AllClear, InOrg;
    OnboardedIff(users, ctx, groups, us, newIds);
    AllAdmittedIff(users, ctx, groups, us, newIds);
  }
}
