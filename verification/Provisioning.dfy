/**
 * Reconciling client users and group memberships with a directory snapshot. The tables are maps and
 * sets; unique violations and failing statements are the only ways an onboarding is skipped.
 */
module Provisioning {
  import opened Wire
  import opened Text

  /** The provider that marks users created from the directory. */
  const AD_CONNECTOR := "ad-connector"

  datatype Status = Active | Suspended | Disabled

  datatype Row = Row(org: string, email: string, name: string, provider: string, subject: string, externalId: string,
                     status: Status)

  type Users = map<string, Row>

  /** Imported groups: the id by SID. */
  type Groups = map<string, string>

  /** Client user ids by SID. */
  type Ids = map<string, string>

  type Members = set<(string, string)>

  datatype Db = Db(users: Users, members: Members)

  datatype SnapUser = SnapUser(
    sid: string, upn: string, sam: string, display: string, email: string, enabled: bool, groupSids: seq<string>)

  /** What a run is given: the organisation, its mail domain, and the users whose statements fail. */
  datatype Context = Context(org: string, domain: string, failing: set<string>)

  // ---------------------------------------------------------------- helpers

  predicate Contains(s: string, c: char) { exists i :: 0 <= i < |s| && s[i] == c }

  function PickEmail(u: SnapUser, domain: string): string {
    if Contains(u.email, '@') then ToLower(Trim(u.email))
    else if Contains(u.upn, '@') then ToLower(Trim(u.upn))
    else if u.sam != "" && domain != "" then ToLower(u.sam + "@" + domain)
    else ToLower(Trim(u.upn))
  }

  lemma ContainsConcat(a: string, b: string, c: char)
    ensures Contains(a + b, c) <==> Contains(a, c) || Contains(b, c)
  {
    if i :| 0 <= i < |a| && a[i] == c {
      assert (a + b)[i] == c;
    }
    if i :| 0 <= i < |b| && b[i] == c {
      assert (a + b)[|a| + i] == c;
    }
  }

  lemma TrimKeepsAt(s: string)
    ensures Contains(Trim(s), '@') <==> Contains(s, '@')
  {
    hide TrimLeft, TrimRight;
    var left := TrimLeft(s);
    var skip := |s| - |left|;
    assert s == s[..skip] + left;
    ContainsConcat(s[..skip], left, '@');
    var both := TrimRight(left);
    assert left == both + left[|both|..];
    ContainsConcat(both, left[|both|..], '@');
  }

  lemma LowerKeepsAt(s: string)
    ensures Contains(ToLower(s), '@') <==> Contains(s, '@')
  {
    if i :| 0 <= i < |s| && s[i] == '@' {
      assert ToLower(s)[i] == '@';
    }
    if i :| 0 <= i < |ToLower(s)| && ToLower(s)[i] == '@' {
      assert s[i] == '@';
    }
  }

  /** An address is in lower case, and is a mail address exactly when one of its three sources yields one. */
  lemma PickedAddress(u: SnapUser, domain: string)
    ensures var addr := PickEmail(u, domain);
            && (forall i :: 0 <= i < |addr| ==> !('A' <= addr[i] <= 'Z'))
            && (Contains(addr, '@')
                <==> Contains(u.email, '@') || Contains(u.upn, '@') || (u.sam != "" && domain != ""))
  {
    hide Trim;
    TrimKeepsAt(u.email);
    TrimKeepsAt(u.upn);
    LowerKeepsAt(Trim(u.email));
    LowerKeepsAt(Trim(u.upn));
    LowerKeepsAt(u.sam + "@" + domain);
    assert (u.sam + "@" + domain)[|u.sam|] == '@';
  }

  function FirstNonEmpty(vals: seq<string>): string {
    if vals == [] then "" else if Trim(vals[0]) != "" then vals[0] else FirstNonEmpty(vals[1..])
  }

  function NameOf(u: SnapUser): string { FirstNonEmpty([u.display, u.sam, u.upn, u.sid]) }

  predicate Intersects(sids: seq<string>, groups: Groups) {
    exists i :: 0 <= i < |sids| && sids[i] in groups
  }

  /** Enabled in the directory and a member of an imported group. */
  predicate Belongs(u: SnapUser, groups: Groups) { u.enabled && Intersects(u.groupSids, groups) }

  function InOrg(us: seq<SnapUser>, groups: Groups): set<string> {
    set u | u in us && Belongs(u, groups) :: u.sid
  }

  lemma InOrgSnoc(us: seq<SnapUser>, u: SnapUser, groups: Groups)
    ensures InOrg(us + [u], groups) == InOrg(us, groups) + if Belongs(u, groups) then {u.sid} else {}
  {
    hide Belongs;
    if Belongs(u, groups) {
      assert u in us + [u];
    }
    forall v | v in us
      ensures v in us + [u]
    {
    }
    forall sid | sid in InOrg(us, groups)
      ensures sid in InOrg(us + [u], groups)
    {
      var v :| v in us && Belongs(v, groups) && v.sid == sid;
      assert v in us + [u];
    }
  }

  ghost predicate DistinctSids(us: seq<SnapUser>) { forall i, j :: 0 <= i < j < |us| ==> us[i].sid != us[j].sid }

  ghost predicate Injective(groups: Groups) {
    forall x, y :: x in groups && y in groups && x != y ==> groups[x] != groups[y]
  }

  // ------------------------------------------------------------ the tables

  /** A row that came from the directory of this organisation. */
  predicate FromDirectory(r: Row, org: string) { r.org == org && r.provider == AD_CONNECTOR }

  predicate Mine(users: Users, org: string, sid: string, id: string) {
    id in users && FromDirectory(users[id], org) && users[id].externalId == sid
  }

  /** The unique indexes on email and on provider and subject; directory rows carry the SID as both keys. */
  ghost predicate ValidUsers(users: Users) {
    && (forall x, y :: x in users && y in users && x != y ==> users[x].email != users[y].email)
    && (forall x, y :: x in users && y in users && x != y
                       && users[x].provider == AD_CONNECTOR && users[y].provider == AD_CONNECTOR
                       ==> users[x].subject != users[y].subject)
    && (forall x :: x in users && users[x].provider == AD_CONNECTOR ==> users[x].subject == users[x].externalId)
  }

  predicate EmailTaken(users: Users, email: string, owner: Option<string>) {
    exists x :: x in users && Some(x) != owner && users[x].email == email
  }

  predicate SubjectTaken(users: Users, sid: string) {
    exists x :: x in users && users[x].provider == AD_CONNECTOR && users[x].subject == sid
  }

  // --------------------------------------------------------- one onboarding

  ghost function FindMine(users: Users, org: string, sid: string): (r: Option<string>)
    ensures r.Some? ==> Mine(users, org, sid, r.value)
    ensures r.None? ==> forall id :: !Mine(users, org, sid, id)
  {
    if exists id :: Mine(users, org, sid, id) then var id :| Mine(users, org, sid, id); Some(id) else None
  }

  datatype Upsert = Skipped | Done(id: string, row: Row, changed: bool)

  /** What ensures an active user for a snapshot entry: an update, an insert under a new id, or a skip. */
  ghost function UpsertOf(users: Users, ctx: Context, u: SnapUser, newId: string): Upsert {
    var addr, mine := PickEmail(u, ctx.domain), FindMine(users, ctx.org, u.sid);
    if !Accepted(ctx, u) || EmailTaken(users, addr, mine) then Skipped
    else if mine.Some? then
      var row := users[mine.value];
      Done(mine.value, row.(name := NameOf(u), email := addr, status := Active), row.status != Active)
    else if newId in users || SubjectTaken(users, u.sid) then Skipped
    else Done(newId, Row(ctx.org, addr, NameOf(u), AD_CONNECTOR, u.sid, u.sid, Active), true)
  }

  function Stored(users: Users, r: Upsert): Users {
    match r
    case Skipped => users
    case Done(id, row, _) => users[id := row]
  }

  /** The user has an address and none of its statements fails. */
  predicate Accepted(ctx: Context, u: SnapUser) { PickEmail(u, ctx.domain) != "" && u.sid !in ctx.failing }

  /** The row an onboarded user has. */
  ghost predicate Onboarded(users: Users, ctx: Context, u: SnapUser, id: string) {
    && Accepted(ctx, u)
    && Mine(users, ctx.org, u.sid, id)
    && users[id].status == Active && users[id].email == PickEmail(u, ctx.domain) && users[id].name == NameOf(u)
  }

  lemma MineUnique(users: Users, org: string, sid: string, x: string, y: string)
    requires ValidUsers(users) && Mine(users, org, sid, x) && Mine(users, org, sid, y)
    ensures x == y
  {
  }

  /** One row of the user's own SID is written and left onboarded; nothing else changes. */
  ghost predicate Wrote(users: Users, users': Users, ctx: Context, u: SnapUser, id: string) {
    && ValidUsers(users')
    && users'.Keys == users.Keys + {id}
    && Onboarded(users', ctx, u, id)
    && (id in users ==> Mine(users, ctx.org, u.sid, id))
    && (forall x :: x in users && x != id ==> users'[x] == users[x])
  }

  lemma ValidUpdate(users: Users, id: string, row: Row)
    requires ValidUsers(users)
    requires id in users && row.provider == users[id].provider && row.subject == users[id].subject
             && row.externalId == users[id].externalId
    requires !EmailTaken(users, row.email, Some(id))
    ensures ValidUsers(users[id := row])
  {
  }

  lemma ValidInsert(users: Users, id: string, row: Row)
    requires ValidUsers(users)
    requires id !in users && row.subject == row.externalId
    requires !EmailTaken(users, row.email, None) && !SubjectTaken(users, row.subject)
    ensures ValidUsers(users[id := row])
  {
  }

  lemma UpsertEffect(users: Users, ctx: Context, u: SnapUser, newId: string)
    requires ValidUsers(users)
    ensures var r := UpsertOf(users, ctx, u, newId);
            r.Done? ==> Wrote(users, Stored(users, r), ctx, u, r.id)
  {
    hide PickEmail, NameOf, ValidUsers, EmailTaken, SubjectTaken;
    var r, mine := UpsertOf(users, ctx, u, newId), FindMine(users, ctx.org, u.sid);
    if r.Done? {
      if mine.Some? {
        ValidUpdate(users, r.id, r.row);
      } else {
        ValidInsert(users, r.id, r.row);
      }
    }
  }

  // ------------------------------------------------------------- onboarding

  /** Where the onboarding loop is: the table, who was onboarded under which id, and how many changed. */
  datatype Progress = Progress(users: Users, done: Ids, onboarded: nat)

  ghost function OnboardOne(s: Progress, ctx: Context, groups: Groups, u: SnapUser, newId: string): Progress {
    if !Belongs(u, groups) then s
    else
      var r := UpsertOf(s.users, ctx, u, newId);
      if r.Skipped? then s
      else Progress(Stored(s.users, r), s.done[u.sid := r.id], s.onboarded + if r.changed then 1 else 0)
  }

  ghost function OnboardAll(users: Users, ctx: Context, groups: Groups, us: seq<SnapUser>,
                            newIds: seq<string>): Progress
    requires |newIds| == |us|
  {
    if us == [] then Progress(users, map[], 0)
    else
      var k := |us| - 1;
      OnboardOne(OnboardAll(users, ctx, groups, us[..k], newIds[..k]), ctx, groups, us[k], newIds[k])
  }

  /** Every onboarding of the run succeeded. */
  ghost predicate NoSkips(p: Progress, us: seq<SnapUser>, groups: Groups) { p.done.Keys == InOrg(us, groups) }

  ghost predicate SnapshotRow(us: seq<SnapUser>, groups: Groups, sid: string) {
    exists i :: 0 <= i < |us| && us[i].sid == sid && Belongs(us[i], groups)
  }

  /** What has become of the table after any number of snapshot users. */
  ghost predicate RowsKept(before: Users, p: Progress, org: string) {
    && ValidUsers(p.users)
    && before.Keys <= p.users.Keys
    // rows of other sources and organisations are as they were, and none was added
    && (forall x :: x in p.users && !FromDirectory(p.users[x], org) ==> x in before && p.users[x] == before[x])
    && (forall x :: x in before && !FromDirectory(before[x], org) ==> p.users[x] == before[x])
    // a directory row is new or changed only for a user recorded as onboarded, and keeps its SID
    && (forall x :: x in p.users && FromDirectory(p.users[x], org) ==>
          (x in before && p.users[x] == before[x]) || p.users[x].externalId in p.done)
    && (forall x :: x in before && FromDirectory(before[x], org) ==>
          FromDirectory(p.users[x], org) && p.users[x].externalId == before[x].externalId)
  }

  /** Exactly the recorded users are onboarded under the recorded ids. */
  ghost predicate DoneKept(p: Progress, ctx: Context, groups: Groups, us: seq<SnapUser>) {
    && (forall sid :: sid in p.done ==> SnapshotRow(us, groups, sid))
    && (forall i :: 0 <= i < |us| && us[i].sid in p.done ==> Onboarded(p.users, ctx, us[i], p.done[us[i].sid]))
  }

  lemma SnapshotRowGrows(us: seq<SnapUser>, u: SnapUser, groups: Groups)
    ensures forall sid :: SnapshotRow(us, groups, sid) ==> SnapshotRow(us + [u], groups, sid)
    ensures Belongs(u, groups) ==> SnapshotRow(us + [u], groups, u.sid)
  {
    hide Belongs;
    assert (us + [u])[|us|] == u;
    forall sid | SnapshotRow(us, groups, sid)
      ensures SnapshotRow(us + [u], groups, sid)
    {
      var i :| 0 <= i < |us| && us[i].sid == sid && Belongs(us[i], groups);
      assert (us + [u])[i] == us[i];
    }
  }

  lemma RowsStep(before: Users, p: Progress, users': Users, ctx: Context, u: SnapUser, id: string, n: nat)
    requires RowsKept(before, p, ctx.org) && Wrote(p.users, users', ctx, u, id)
    ensures RowsKept(before, Progress(users', p.done[u.sid := id], n), ctx.org)
  {
    hide Accepted, PickEmail, NameOf, ValidUsers;
  }

  lemma DoneStep(p: Progress, users': Users, ctx: Context, groups: Groups, us: seq<SnapUser>, u: SnapUser,
                 id: string, n: nat)
    requires DoneKept(p, ctx, groups, us) && DistinctSids(us + [u]) && Belongs(u, groups)
             && Wrote(p.users, users', ctx, u, id)
    ensures DoneKept(Progress(users', p.done[u.sid := id], n), ctx, groups, us + [u])
  {
    hide Belongs, PickEmail, NameOf, SnapshotRow, ValidUsers;
    SnapshotRowGrows(us, u, groups);
    var all, done' := us + [u], p.done[u.sid := id];
    forall i | 0 <= i < |all| && all[i].sid in done'
      ensures Onboarded(users', ctx, all[i], done'[all[i].sid])
    {
      if i < |us| {
        assert all[i] == us[i] && all[|us|] == u;
      }
    }
  }

  lemma DoneSame(p: Progress, ctx: Context, groups: Groups, us: seq<SnapUser>, u: SnapUser)
    requires DoneKept(p, ctx, groups, us) && DistinctSids(us + [u])
    ensures DoneKept(p, ctx, groups, us + [u])
  {
    hide Belongs, PickEmail, NameOf, Onboarded;
    SnapshotRowGrows(us, u, groups);
    var all := us + [u];
    assert all[|us|] == u;
    forall i | 0 <= i < |all| && all[i].sid in p.done
      ensures Onboarded(p.users, ctx, all[i], p.done[all[i].sid])
    {
      var j :| 0 <= j < |us| && us[j].sid == all[i].sid && Belongs(us[j], groups);
      assert all[j] == us[j];
    }
  }

  lemma {:induction false} OnboardAllKeeps(users: Users, ctx: Context, groups: Groups, us: seq<SnapUser>,
                                           newIds: seq<string>)
    requires ValidUsers(users) && DistinctSids(us) && |newIds| == |us|
    ensures var p := OnboardAll(users, ctx, groups, us, newIds);
            RowsKept(users, p, ctx.org) && DoneKept(p, ctx, groups, us)
  {
    hide UpsertOf, Belongs, ValidUsers, PickEmail, NameOf, RowsKept, DoneKept;
    if us == [] {
      NothingYet(users, ctx, groups);
    } else {
      var k := |us| - 1;
      OnboardAllKeeps(users, ctx, groups, us[..k], newIds[..k]);
      OnboardOneKeeps(users, OnboardAll(users, ctx, groups, us[..k], newIds[..k]), ctx, groups, us[..k], us[k],
        newIds[k]);
      assert us == us[..k] + [us[k]];
    }
  }

  lemma NothingYet(users: Users, ctx: Context, groups: Groups)
    requires ValidUsers(users)
    ensures var p := Progress(users, map[], 0);
            RowsKept(users, p, ctx.org) && DoneKept(p, ctx, groups, [])
  {
  }

  lemma OnboardOneKeeps(before: Users, p: Progress, ctx: Context, groups: Groups, us: seq<SnapUser>, u: SnapUser,
                        newId: string)
    requires RowsKept(before, p, ctx.org) && DoneKept(p, ctx, groups, us) && DistinctSids(us + [u])
    ensures var p' := OnboardOne(p, ctx, groups, u, newId);
            RowsKept(before, p', ctx.org) && DoneKept(p', ctx, groups, us + [u])
  {
    hide UpsertOf, Belongs, ValidUsers, PickEmail, NameOf, Wrote, DoneKept, SnapshotRow;
    var r := UpsertOf(p.users, ctx, u, newId);
    if Belongs(u, groups) && r.Done? {
      UpsertEffect(p.users, ctx, u, newId);
      var n := p.onboarded + if r.changed then 1 else 0;
      RowsStep(before, p, Stored(p.users, r), ctx, u, r.id, n);
      DoneStep(p, Stored(p.users, r), ctx, groups, us, u, r.id, n);
    } else {
      DoneSame(p, ctx, groups, us, u);
    }
  }

  lemma DoneInOrg(p: Progress, ctx: Context, groups: Groups, us: seq<SnapUser>)
    requires DoneKept(p, ctx, groups, us)
    ensures p.done.Keys <= InOrg(us, groups)
  {
    hide Belongs, Onboarded;
    forall sid | sid in p.done
      ensures sid in InOrg(us, groups)
    {
      var i :| 0 <= i < |us| && us[i].sid == sid && Belongs(us[i], groups);
      assert us[i] in us;
    }
  }

  // ------------------------------------------- offboarding and memberships

  /** A directory user that is active without belonging any more. */
  predicate Leaves(r: Row, org: string, inOrg: set<string>) {
    FromDirectory(r, org) && r.status == Active && r.externalId !in inOrg
  }

  function Leavers(users: Users, org: string, inOrg: set<string>): set<string> {
    set x | x in users && Leaves(users[x], org, inOrg)
  }

  function Offboard(users: Users, gone: set<string>): Users {
    map x | x in users :: if x in gone then users[x].(status := Suspended) else users[x]
  }

  /** The snapshot lists an onboarded user with this id in this group. */
  predicate Listed(us: seq<SnapUser>, done: Ids, uid: string, gsid: string) {
    exists i :: 0 <= i < |us| && us[i].sid in done && done[us[i].sid] == uid && gsid in us[i].groupSids
  }

  /** The pairs of ids that the snapshot asks for. */
  function Wanted(groups: Groups, us: seq<SnapUser>, done: Ids): Members {
    set u, g | u in done.Values && g in groups && Listed(us, done, u, g) :: (u, groups[g])
  }

  /** Memberships once the leavers lost theirs and every imported group was replaced. */
  function MembersAfter(members: Members, gone: set<string>, groups: Groups, us: seq<SnapUser>,
                        done: Ids): Members {
    (set m | m in members && m.0 !in gone && m.1 !in groups.Values) + Wanted(groups, us, done)
  }

  datatype Report = Report(onboarded: nat, offboarded: nat, active: nat)

  ghost function Reconciled(db: Db, ctx: Context, groups: Groups, us: seq<SnapUser>, newIds: seq<string>): (Db, Report)
    requires |newIds| == |us|
  {
    var p := OnboardAll(db.users, ctx, groups, us, newIds);
    var gone := Leavers(p.users, ctx.org, InOrg(us, groups));
    (Db(Offboard(p.users, gone), MembersAfter(db.members, gone, groups, us, p.done)),
     Report(p.onboarded, |gone|, |p.done|))
  }
}
