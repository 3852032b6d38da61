/**
 * The tables after a reconciliation, row by row and in the terms of the directory: which address and
 * name a user gets, who is enabled and a member, who is suspended, and what the report counts.
 */
module Rows {
  import opened Text
  import opened Provisioning
  import opened Admission
  import opened Convergence

  // ------------------------------------------------------ address and name

  /** addr is the source, up to letter case and outer white space. */
  ghost predicate AddressOf(addr: string, source: string) {
    NoUpper(addr) && exists core :: IsCore(source, core) && SameUpToCase(addr, core)
  }

  /** The mail attribute if it is a mail address, else the principal name if it is one, else account and domain. */
  ghost predicate EmailFrom(u: SnapUser, domain: string, addr: string) {
    if '@' in u.email then AddressOf(addr, u.email)
    else if '@' in u.upn then AddressOf(addr, u.upn)
    else if u.sam != "" && domain != "" then NoUpper(addr) && SameUpToCase(addr, u.sam + "@" + domain)
    else AddressOf(addr, u.upn)
  }

  lemma ContainsIff(s: string, c: char)
    ensures Contains(s, c) <==> c in s
  {
  }

  lemma FoldIsAddress(source: string)
    ensures AddressOf(ToLower(Trim(source)), source)
  {
    hide Trim, ToLower, IsCore;
    TrimIsCore(source);
    ToLowerMeans(Trim(source));
  }

  lemma PickedFrom(u: SnapUser, domain: string)
    ensures EmailFrom(u, domain, PickEmail(u, domain))
  {
    hide Trim, ToLower, AddressOf, NoUpper, SameUpToCase;
    ContainsIff(u.email, '@');
    ContainsIff(u.upn, '@');
    FoldIsAddress(u.email);
    FoldIsAddress(u.upn);
    ToLowerMeans(u.sam + "@" + domain);
  }

  /** A user is without an address exactly when no source has one: no '@', no account with a domain, a blank name. */
  lemma AcceptedIff(ctx: Context, u: SnapUser)
    ensures Accepted(ctx, u) <==>
            && u.sid !in ctx.failing
            && ('@' in u.email || '@' in u.upn || (u.sam != "" && ctx.domain != "") || !AllSpace(u.upn))
  {
    hide Trim, ToLower;
    ContainsIff(u.email, '@');
    ContainsIff(u.upn, '@');
    TrimIsCore(u.email);
    TrimIsCore(u.upn);
    if '@' in u.email {
      NotBlank(u.email);
    }
    if '@' in u.upn {
      NotBlank(u.upn);
    }
    assert |ToLower(u.sam + "@" + ctx.domain)| > 0;
  }

  lemma NotBlank(s: string)
    requires '@' in s
    ensures !AllSpace(s)
  {
  }

  /** The display name, else the account name, else the principal name, else the SID: the first that is not blank. */
  predicate NameFrom(u: SnapUser, name: string) {
    if !AllSpace(u.display) then name == u.display
    else if !AllSpace(u.sam) then name == u.sam
    else if !AllSpace(u.upn) then name == u.upn
    else if !AllSpace(u.sid) then name == u.sid
    else name == ""
  }

  lemma NamedFrom(u: SnapUser)
    ensures NameFrom(u, NameOf(u))
  {
    hide Trim, AllSpace;
    TrimIsCore(u.display);
    TrimIsCore(u.sam);
    TrimIsCore(u.upn);
    TrimIsCore(u.sid);
    var vals := [u.display, u.sam, u.upn, u.sid];
    FirstStep(vals);
    assert vals[1..] == [u.sam, u.upn, u.sid];
    FirstStep(vals[1..]);
    assert vals[1..][1..] == [u.upn, u.sid];
    FirstStep(vals[1..][1..]);
    assert vals[1..][1..][1..] == [u.sid];
    FirstStep(vals[1..][1..][1..]);
  }

  lemma FirstStep(vals: seq<string>)
    requires vals != []
    ensures FirstNonEmpty(vals) == if Trim(vals[0]) != "" then vals[0] else FirstNonEmpty(vals[1..])
    ensures FirstNonEmpty([]) == ""
  {
  }

  // ------------------------------------------------------------ who belongs

  /** The snapshot has the user as enabled and in an imported group. */
  ghost predicate EnabledMember(us: seq<SnapUser>, groups: Groups, sid: string) {
    exists k, j :: 0 <= k < |us| && us[k].sid == sid && us[k].enabled
                   && 0 <= j < |us[k].groupSids| && us[k].groupSids[j] in groups
  }

  lemma InOrgIff(us: seq<SnapUser>, groups: Groups, sid: string)
    ensures sid in InOrg(us, groups) <==> EnabledMember(us, groups, sid)
  {
    if sid in InOrg(us, groups) {
      var u :| u in us && Belongs(u, groups) && u.sid == sid;
      var k :| 0 <= k < |us| && us[k] == u;
      var j :| 0 <= j < |u.groupSids| && u.groupSids[j] in groups;
      assert us[k].groupSids[j] in groups;
    }
    if EnabledMember(us, groups, sid) {
      var k, j :| 0 <= k < |us| && us[k].sid == sid && us[k].enabled
                  && 0 <= j < |us[k].groupSids| && us[k].groupSids[j] in groups;
      assert us[k] in us && Belongs(us[k], groups);
    }
  }

  /** Nobody is an active directory user afterwards who is not enabled and in an imported group. */
  lemma OnlyEnabledMembersActive(db: Db, ctx: Context, groups: Groups, us: seq<SnapUser>, newIds: seq<string>,
                                 x: string)
    requires ValidUsers(db.users) && DistinctSids(us) && |newIds| == |us|
    requires x in ActiveRows(Reconciled(db, ctx, groups, us, newIds).0.users, ctx.org)
    ensures EnabledMember(us, groups, Reconciled(db, ctx, groups, us, newIds).0.users[x].externalId)
  {
    hide Reconciled, ValidUsers, InOrg, Admitted, AllClear, EnabledMember;
    var after := Reconciled(db, ctx, groups, us, newIds).0.users;
    ConvergesIff(db, ctx, groups, us, newIds);
    assert after[x].externalId in ActiveSids(after, ctx.org);
    InOrgIff(us, groups, after[x].externalId);
  }

  // ------------------------------------------------------------ every row

  /** The row of a user the run onboarded. */
  ghost predicate FreshRow(r: Row, ctx: Context, u: SnapUser) {
    && r.org == ctx.org && r.provider == "ad-connector" && r.subject == u.sid && r.externalId == u.sid
    && r.status == Active && r.email != "" && EmailFrom(u, ctx.domain, r.email) && NameFrom(u, r.name)
  }

  lemma OnboardedIsFresh(users: Users, ctx: Context, u: SnapUser, id: string)
    requires ValidUsers(users) && Onboarded(users, ctx, u, id)
    ensures FreshRow(users[id], ctx, u)
  {
    hide PickEmail, NameOf, EmailFrom, NameFrom;
    PickedFrom(u, ctx.domain);
    NamedFrom(u);
  }

  /** Every admitted user has exactly one row, with the address and the name the directory gives it. */
  lemma AdmittedRow(db: Db, ctx: Context, groups: Groups, us: seq<SnapUser>, newIds: seq<string>, k: nat)
    requires ValidUsers(db.users) && DistinctSids(us) && |newIds| == |us| && k < |us|
    requires us[k].sid in Admitted(db.users, ctx, groups, us, newIds)
    ensures var after := Reconciled(db, ctx, groups, us, newIds).0.users;
            && (exists x :: Mine(after, ctx.org, us[k].sid, x))
            && (forall x :: Mine(after, ctx.org, us[k].sid, x) ==> FreshRow(after[x], ctx, us[k]))
            && (forall x, y :: Mine(after, ctx.org, us[k].sid, x) && Mine(after, ctx.org, us[k].sid, y) ==> x == y)
  {
    hide OnboardAll, Admitted, InOrg, ValidUsers, RowsKept, DoneKept, IdsKept, FreshRow, Onboarded, Leavers, Mine;
    var p := OnboardAll(db.users, ctx, groups, us, newIds);
    OnboardAllKeeps(db.users, ctx, groups, us, newIds);
    OnboardedIff(db.users, ctx, groups, us, newIds);
    OthersKept(db, ctx, groups, us, newIds, "");
    DoneInOrg(p, ctx, groups, us);
    var after, id := Reconciled(db, ctx, groups, us, newIds).0.users, p.done[us[k].sid];
    KeptOnboarded(p, ctx, groups, us, k);
    OnboardedIsFresh(after, ctx, us[k], id);
    OnboardedIsMine(after, ctx, us[k], id);
    forall x, y | Mine(after, ctx.org, us[k].sid, x) && Mine(after, ctx.org, us[k].sid, y) ensures x == y {
      MineUnique(after, ctx.org, us[k].sid, x, y);
    }
  }

  lemma OnboardedIsMine(users: Users, ctx: Context, u: SnapUser, id: string)
    requires Onboarded(users, ctx, u, id)
    ensures Mine(users, ctx.org, u.sid, id)
  {
  }

  lemma KeptOnboarded(p: Progress, ctx: Context, groups: Groups, us: seq<SnapUser>, k: nat)
    requires DoneKept(p, ctx, groups, us) && p.done.Keys <= InOrg(us, groups) && k < |us| && us[k].sid in p.done
    ensures Onboarded(Offboard(p.users, Leavers(p.users, ctx.org, InOrg(us, groups))), ctx, us[k], p.done[us[k].sid])
  {
    hide Belongs, InOrg, Accepted, PickEmail, NameOf;
  }

  /**
   * Every row that is not an admitted user's: there before, and as before, except that an active
   * directory user who is no longer enabled in an imported group is suspended.
   */
  lemma OtherRow(db: Db, ctx: Context, groups: Groups, us: seq<SnapUser>, newIds: seq<string>, x: string)
    requires ValidUsers(db.users) && DistinctSids(us) && |newIds| == |us|
    requires var after := Reconciled(db, ctx, groups, us, newIds).0.users;
             && x in after
             && !(&& FromDirectory(after[x], ctx.org)
                  && after[x].externalId in Admitted(db.users, ctx, groups, us, newIds))
    ensures x in db.users
    ensures var r := db.users[x];
            Reconciled(db, ctx, groups, us, newIds).0.users[x] ==
            if r.org == ctx.org && r.provider == "ad-connector" && r.status == Active
               && !EnabledMember(us, groups, r.externalId)
            then r.(status := Suspended) else r
  {
    hide OnboardAll, Admitted, InOrg, ValidUsers, DoneKept, IdsKept, EnabledMember;
    OnboardAllKeeps(db.users, ctx, groups, us, newIds);
    OnboardedIff(db.users, ctx, groups, us, newIds);
    var p := OnboardAll(db.users, ctx, groups, us, newIds);
    assert x in p.users;
    assert x in db.users && p.users[x] == db.users[x];
    InOrgIff(us, groups, db.users[x].externalId);
  }

  /** Which rows there are: those from before, and one for each admitted user that had none. */
  lemma RowsThere(db: Db, ctx: Context, groups: Groups, us: seq<SnapUser>, newIds: seq<string>, x: string)
    requires ValidUsers(db.users) && DistinctSids(us) && |newIds| == |us|
    ensures x in Reconciled(db, ctx, groups, us, newIds).0.users <==>
            || x in db.users
            || exists k :: 0 <= k < |us| && us[k].sid in Admitted(db.users, ctx, groups, us, newIds)
                           && !HasRow(db.users, ctx.org, us[k].sid) && newIds[k] == x
  {
    hide OnboardAll, Admitted, InOrg, ValidUsers, DoneKept, HasRow;
    OnboardAllKeeps(db.users, ctx, groups, us, newIds);
    OnboardedIff(db.users, ctx, groups, us, newIds);
  }

  // -------------------------------------------------------------- memberships

  /** Active in the directory of the organisation before the run, and no longer enabled in an imported group. */
  ghost predicate LeftBefore(db: Db, ctx: Context, groups: Groups, us: seq<SnapUser>, x: string) {
    && x in db.users
    && db.users[x].org == ctx.org && db.users[x].provider == "ad-connector" && db.users[x].status == Active
    && !EnabledMember(us, groups, db.users[x].externalId)
  }

  lemma LeaversIff(db: Db, ctx: Context, groups: Groups, us: seq<SnapUser>, newIds: seq<string>, x: string)
    requires ValidUsers(db.users) && DistinctSids(us) && |newIds| == |us|
    ensures var p := OnboardAll(db.users, ctx, groups, us, newIds);
            x in Leavers(p.users, ctx.org, InOrg(us, groups)) <==> LeftBefore(db, ctx, groups, us, x)
  {
    hide OnboardAll, InOrg, ValidUsers, DoneKept, EnabledMember;
    OnboardAllKeeps(db.users, ctx, groups, us, newIds);
    var p := OnboardAll(db.users, ctx, groups, us, newIds);
    DoneInOrg(p, ctx, groups, us);
    if x in p.users {
      InOrgIff(us, groups, p.users[x].externalId);
    }
    if x in db.users {
      InOrgIff(us, groups, db.users[x].externalId);
    }
  }

  /**
   * A user is in an imported group afterwards if and only if it is the row of an admitted user whom
   * the snapshot lists under the SID of the group; in any other group if and only if it was before and
   * was not suspended by this run.
   */
  lemma MembershipIff(db: Db, ctx: Context, groups: Groups, us: seq<SnapUser>, newIds: seq<string>, uid: string,
                      gid: string)
    requires ValidUsers(db.users) && DistinctSids(us) && |newIds| == |us| && Injective(groups)
    ensures var after := Reconciled(db, ctx, groups, us, newIds).0;
            && (forall g :: g in groups && groups[g] == gid ==>
                  ((uid, gid) in after.members <==>
                   exists k :: 0 <= k < |us| && us[k].sid in Admitted(db.users, ctx, groups, us, newIds)
                               && g in us[k].groupSids && Mine(after.users, ctx.org, us[k].sid, uid)))
            && (gid !in groups.Values ==>
                  ((uid, gid) in after.members <==> (uid, gid) in db.members && !LeftBefore(db, ctx, groups, us, uid)))
  {
    hide Reconciled, Admitted, InOrg, ValidUsers, Injective, LeftBefore, Leavers, IdsKept, Mine;
    GroupMembersExact(db, ctx, groups, us, newIds, uid, gid);
    LeaversIff(db, ctx, groups, us, newIds, uid);
    OnboardedIff(db.users, ctx, groups, us, newIds);
    forall k | 0 <= k < |us| && us[k].sid in Admitted(db.users, ctx, groups, us, newIds)
      ensures OnboardAll(db.users, ctx, groups, us, newIds).done[us[k].sid] == uid
              <==> Mine(Reconciled(db, ctx, groups, us, newIds).0.users, ctx.org, us[k].sid, uid)
    {
      IdIsRow(db, ctx, groups, us, newIds, k, uid);
    }
  }

  lemma IdIsRow(db: Db, ctx: Context, groups: Groups, us: seq<SnapUser>, newIds: seq<string>, k: nat, uid: string)
    requires ValidUsers(db.users) && DistinctSids(us) && |newIds| == |us| && k < |us|
    requires us[k].sid in OnboardAll(db.users, ctx, groups, us, newIds).done
    ensures OnboardAll(db.users, ctx, groups, us, newIds).done[us[k].sid] == uid
            <==> Mine(Reconciled(db, ctx, groups, us, newIds).0.users, ctx.org, us[k].sid, uid)
  {
    hide OnboardAll, InOrg, ValidUsers, RowsKept, DoneKept, Onboarded, Leavers, Mine, Offboard;
    var p := OnboardAll(db.users, ctx, groups, us, newIds);
    OnboardAllKeeps(db.users, ctx, groups, us, newIds);
    OthersKept(db, ctx, groups, us, newIds, "");
    DoneInOrg(p, ctx, groups, us);
    var after, id := Reconciled(db, ctx, groups, us, newIds).0.users, p.done[us[k].sid];
    KeptOnboarded(p, ctx, groups, us, k);
    OnboardedIsMine(after, ctx, us[k], id);
    if Mine(after, ctx.org, us[k].sid, uid) {
      MineUnique(after, ctx.org, us[k].sid, id, uid);
    }
  }

  // --------------------------------------------------------------- the report

  function SidsOf(users: Users, xs: set<string>): set<string>
    requires xs <= users.Keys
  {
    set x | x in xs :: users[x].externalId
  }

  /** Directory rows of one organisation have different SIDs. */
  lemma {:induction false} SidsCount(users: Users, org: string, xs: set<string>)
    requires ValidUsers(users) && xs <= users.Keys && forall x :: x in xs ==> FromDirectory(users[x], org)
    ensures |SidsOf(users, xs)| == |xs|
    decreases |xs|
  {
    if xs == {} {
      assert SidsOf(users, xs) == {};
    } else {
      var x :| x in xs;
      var rest := xs - {x};
      SidsCount(users, org, rest);
      assert users[x].externalId !in SidsOf(users, rest);
      assert SidsOf(users, xs) == SidsOf(users, rest) + {users[x].externalId};
    }
  }

  lemma ActiveCount(users: Users, org: string)
    requires ValidUsers(users)
    ensures |ActiveRows(users, org)| == |ActiveSids(users, org)|
  {
    SidsCount(users, org, ActiveRows(users, org));
    assert SidsOf(users, ActiveRows(users, org)) == ActiveSids(users, org);
  }

  /**
   * What the report counts: as offboarded the users active before that are no longer enabled members,
   * as active everybody the run onboarded, and as onboarded those of them that were not active before.
   */
  lemma ReportExact(db: Db, ctx: Context, groups: Groups, us: seq<SnapUser>, newIds: seq<string>)
    requires ValidUsers(db.users) && DistinctSids(us) && |newIds| == |us|
    ensures var report := Reconciled(db, ctx, groups, us, newIds).1;
            var admitted, before := Admitted(db.users, ctx, groups, us, newIds), ActiveSids(db.users, ctx.org);
            && report.active == |admitted|
            && report.offboarded == |before - InOrg(us, groups)|
            && report.onboarded == |admitted - before|
  {
    hide Admitted, InOrg, ValidUsers, IdsKept, ActiveSids, ActiveRows, OnboardAll, Offboard, MembersAfter;
    var (after, report) := Reconciled(db, ctx, groups, us, newIds);
    var p := OnboardAll(db.users, ctx, groups, us, newIds);
    var admitted, inOrg := Admitted(db.users, ctx, groups, us, newIds), InOrg(us, groups);
    var before := ActiveSids(db.users, ctx.org);
    OnboardedIff(db.users, ctx, groups, us, newIds);
    SameSize(p.done, admitted);
    Converges(db, ctx, groups, us, newIds);
    CountersBalance(db, ctx, groups, us, newIds);
    OthersKept(db, ctx, groups, us, newIds, "");
    ActiveCount(db.users, ctx.org);
    ActiveCount(after.users, ctx.org);
    LeaversCount(db, ctx, groups, us, newIds);
    Arithmetic(admitted, before, inOrg);
  }

  lemma SameSize(done: Ids, keys: set<string>)
    requires done.Keys == keys
    ensures |done| == |keys|
  {
    assert |done| == |done.Keys|;
  }

  lemma Arithmetic(admitted: set<string>, before: set<string>, inOrg: set<string>)
    requires admitted <= inOrg
    ensures |admitted + before * inOrg| == |admitted - before| + |before| - |before - inOrg|
  {
    assert admitted + before * inOrg == (admitted - before) + before * inOrg;
    assert (admitted - before) * (before * inOrg) == {};
    assert before == before * inOrg + (before - inOrg);
    assert (before * inOrg) * (before - inOrg) == {};
  }

  lemma LeaversCount(db: Db, ctx: Context, groups: Groups, us: seq<SnapUser>, newIds: seq<string>)
    requires ValidUsers(db.users) && DistinctSids(us) && |newIds| == |us|
    ensures var p := OnboardAll(db.users, ctx, groups, us, newIds);
            |Leavers(p.users, ctx.org, InOrg(us, groups))| == |ActiveSids(db.users, ctx.org) - InOrg(us, groups)|
  {
    hide OnboardAll, InOrg, ValidUsers, EnabledMember;
    var p, inOrg := OnboardAll(db.users, ctx, groups, us, newIds), InOrg(us, groups);
    var gone := Leavers(p.users, ctx.org, inOrg);
    forall x ensures x in gone <==> x in db.users && Leaves(db.users[x], ctx.org, inOrg) {
      LeaversIff(db, ctx, groups, us, newIds, x);
      if x in db.users {
        InOrgIff(us, groups, db.users[x].externalId);
      }
    }
    SidsCount(db.users, ctx.org, gone);
    assert SidsOf(db.users, gone) == ActiveSids(db.users, ctx.org) - inOrg;
  }
}
