/**
 * The group endpoints (backend/routes/group_routes.py): creating and deleting
 * research groups, managing their members, sharing a file with a whole group
 * through one KEM ciphertext per member, and the listings that hand each
 * caller only what concerns them.
 *
 * Every handler runs its checks in the order the source runs them; the
 * status it answers with is given by a decision function over the tables,
 * and the handler's contract states the new tables outright.
 */
module GroupRoutes {
  import opened Wrappers
  import opened Http
  import opened Text
  import opened Query
  import opened Models
  import opened Store

  const MaxGroupNameLength := 200

  // ---------------------------------------------------------------- who may do what

  predicate HasMembership(ms: seq<GroupMembership>, gid: int, uid: int)
  {
    MembershipOf(ms, gid, uid).Some?
  }

  /** The check before viewing a group or sharing with it: a membership row of any role, or ownership. */
  predicate IsMemberOrOwner(ms: seq<GroupMembership>, g: Group, uid: int)
  {
    HasMembership(ms, g.id, uid) || g.ownerId == uid
  }

  /** The check before changing someone else's membership: an 'admin' row, or ownership. */
  predicate IsAdminOrOwner(ms: seq<GroupMembership>, g: Group, uid: int)
  {
    HoldsAdminRow(ms, g.id, uid) || g.ownerId == uid
  }

  /** 404 for an unknown group, then 403 for a caller who is neither member nor owner. */
  function ViewStatus(groups: seq<Group>, ms: seq<GroupMembership>, uid: int, gid: int): (s: Status)
    ensures s == Ok || s == NotFound || s == Forbidden
    ensures s == NotFound <==> GroupById(groups, gid).None?
    ensures s == Ok <==> GroupById(groups, gid).Some? && IsMemberOrOwner(ms, groups[GroupById(groups, gid).value], uid)
  {
    match GroupById(groups, gid)
    case None => NotFound
    case Some(i) => if IsMemberOrOwner(ms, groups[i], uid) then Ok else Forbidden
  }

  // ---------------------------------------------------------------- roles shown to the caller

  datatype GroupSummary = GroupSummary(group: Group, isOwner: bool, myRole: Role)

  /**
   * The role `list_groups` reports: the stored membership role when there is
   * one, even for the owner; otherwise 'admin' for the owner, 'member' for
   * anyone else.
   */
  function ListedRole(ms: seq<GroupMembership>, g: Group, uid: int): Role
  {
    match MembershipOf(ms, g.id, uid)
    case Some(i) => ms[i].role
    case None => if g.ownerId == uid then Admin else Member
  }

  /** The role `get_group` reports: the stored one, else 'admin' (only the owner gets this far without a row). */
  function ViewerRole(ms: seq<GroupMembership>, gid: int, uid: int): Role
  {
    match MembershipOf(ms, gid, uid)
    case Some(i) => ms[i].role
    case None => Admin
  }

  function Summary(ms: seq<GroupMembership>, g: Group, uid: int): GroupSummary
  {
    GroupSummary(g, g.ownerId == uid, ListedRole(ms, g, uid))
  }

  /**
   * Anyone `get_group` lets in sees the same role there as in `list_groups`,
   * and while every owner keeps an 'admin' row, an owner is always shown as
   * 'admin' although the stored role takes precedence.
   */
  lemma RolesAgree(groups: seq<Group>, ms: seq<GroupMembership>, g: Group, uid: int)
    requires IsMemberOrOwner(ms, g, uid)
    ensures ViewerRole(ms, g.id, uid) == ListedRole(ms, g, uid)
    ensures UniqueMemberships(ms) && OwnersAreAdminMembers(groups, ms) && g in groups && g.ownerId == uid ==>
      ListedRole(ms, g, uid) == Admin && Summary(ms, g, uid) == GroupSummary(g, true, Admin)
  {
    if UniqueMemberships(ms) && OwnersAreAdminMembers(groups, ms) && g in groups && g.ownerId == uid {
      AdminRowFound(ms, g.id, g.ownerId);
    }
  }

  // ---------------------------------------------------------------- list_groups

  function OwnedGroups(groups: seq<Group>, uid: int): (r: seq<Group>)
    ensures forall g :: g in r <==> g in groups && g.ownerId == uid
  {
    Where(groups, (g: Group) => g.ownerId == uid)
  }

  /** Ids of the groups the caller has a membership row in but does not own (`member_group_ids`). */
  function JoinedGroupIds(groups: seq<Group>, ms: seq<GroupMembership>, uid: int): (ids: set<int>)
    ensures forall gid :: gid in ids <==>
      (exists m :: m in ms && m.userId == uid && m.groupId == gid)
      && !(exists o :: o in groups && o.ownerId == uid && o.id == gid)
  {
    var ownedIds := set g | g in OwnedGroups(groups, uid) :: g.id;
    set m | m in ms && m.userId == uid && m.groupId !in ownedIds :: m.groupId
  }

  function JoinedGroups(groups: seq<Group>, ms: seq<GroupMembership>, uid: int): (r: seq<Group>)
    ensures forall g :: g in r <==> g in groups && g.id in JoinedGroupIds(groups, ms, uid)
  {
    var ids := JoinedGroupIds(groups, ms, uid);
    if ids == {} then [] else Where(groups, (g: Group) => g.id in ids)
  }

  /** `owned + member_groups`, the list the handler walks. */
  function ListedGroups(groups: seq<Group>, ms: seq<GroupMembership>, uid: int): seq<Group>
  {
    OwnedGroups(groups, uid) + JoinedGroups(groups, ms, uid)
  }

  /**
   * With distinct group ids, `list_groups` shows exactly the groups the caller
   * owns or holds a membership row in, each once.
   */
  lemma ListedGroupsSpec(groups: seq<Group>, ms: seq<GroupMembership>, uid: int)
    requires Ascending(groups, GroupKey)
    ensures forall g :: g in ListedGroups(groups, ms, uid) <==>
      g in groups && (g.ownerId == uid || HasMembership(ms, g.id, uid))
    ensures forall g :: g in OwnedGroups(groups, uid) ==> g !in JoinedGroups(groups, ms, uid)
  {
    var owned, joined := OwnedGroups(groups, uid), JoinedGroups(groups, ms, uid);
    forall g | g in groups && g.ownerId != uid && HasMembership(ms, g.id, uid)
      ensures g in joined
    {
      var k := MembershipOf(ms, g.id, uid).value;
      assert ms[k] in ms && ms[k].userId == uid && ms[k].groupId == g.id;
      forall o | o in groups && o.id == g.id ensures o == g {
        var a :| 0 <= a < |groups| && groups[a] == o;
        var b :| 0 <= b < |groups| && groups[b] == g;
        KeyedUnique(groups, GroupKey, a, b);
      }
    }
    forall g | g in joined && g.ownerId != uid ensures HasMembership(ms, g.id, uid) {
      var m :| m in ms && m.userId == uid && m.groupId == g.id;
      var j :| 0 <= j < |ms| && ms[j] == m;
      assert MembershipOf(ms, g.id, uid).Some?;
    }
  }

  /** `list_groups`: one summary per listed group, in the order the handler builds them. */
  method ListGroups(db: Ledger, caller: int) returns (result: seq<GroupSummary>)
    ensures |result| == |ListedGroups(db.groups, db.memberships, caller)|
    ensures forall j :: 0 <= j < |result| ==>
      result[j] == Summary(db.memberships, ListedGroups(db.groups, db.memberships, caller)[j], caller)
  {
    var all := OwnedGroups(db.groups, caller) + JoinedGroups(db.groups, db.memberships, caller);
    result := [];
    var i := 0;
    while i < |all|
      invariant 0 <= i <= |all|
      invariant |result| == i
      invariant forall j :: 0 <= j < i ==> result[j] == Summary(db.memberships, all[j], caller)
    {
      var g := all[i];
      var myRole := match MembershipOf(db.memberships, g.id, caller)
        case Some(k) => db.memberships[k].role
        case None => if g.ownerId == caller then Admin else Member;
      result := result + [GroupSummary(g, g.ownerId == caller, myRole)];
      i := i + 1;
    }
  }

  // ---------------------------------------------------------------- create_group

  /** 400 for a name that is empty after trimming or longer than 200 characters. */
  function CreateGroupStatus(name: string): (s: Status)
    ensures s == Created || s == BadRequest
    ensures s == Created <==> Trim(name) != [] && |Trim(name)| <= MaxGroupNameLength
  {
    var n := Trim(name);
    if n == [] then BadRequest
    else if |n| > MaxGroupNameLength then BadRequest
    else Created
  }

  /** Adding a group together with its owner's 'admin' row keeps every group-table invariant. */
  lemma CreateGroupKeepsInvariants(t: GroupTables, ng: int, nm: int, na: int, g: Group, m: GroupMembership)
    requires GroupTablesValid(t, ng, nm, na)
    requires g.id == ng && m == GroupMembership(nm, ng, g.ownerId, Admin)
    ensures GroupTablesValid(GroupTables(t.groups + [g], t.memberships + [m], t.access), ng + 1, nm + 1, na)
  {
    var r := GroupTables(t.groups + [g], t.memberships + [m], t.access);
    AppendKeyed(t.groups, g, GroupKey, ng);
    AppendKeyed(t.memberships, m, MembershipKey, nm);
    // no earlier row refers to the new id: every referenced group is older
    forall x | x in t.memberships ensures x.groupId < ng {
      var o :| o in t.groups && o.id == x.groupId;
      var i :| 0 <= i < |t.groups| && t.groups[i] == o;
      assert KeyAt(t.groups, GroupKey, i) < ng;
    }
    forall i, j | 0 <= i < j < |r.memberships|
      ensures r.memberships[i].groupId != r.memberships[j].groupId || r.memberships[i].userId != r.memberships[j].userId
    {
      if j == |t.memberships| {
        assert r.memberships[i] == t.memberships[i];
        assert t.memberships[i] in t.memberships;
      }
    }
    forall x | x in r.memberships ensures HasGroup(r.groups, x.groupId) {
      if x == m {
        assert g in r.groups;
      } else {
        var o :| o in t.groups && o.id == x.groupId;
        assert o in r.groups;
      }
    }
    forall a | a in r.access ensures HasGroup(r.groups, a.groupId) {
      var o :| o in t.groups && o.id == a.groupId;
      assert o in r.groups;
    }
    forall o | o in r.groups ensures HasAdminRow(r.memberships, o.id, o.ownerId) {
      if o == g {
        assert m in r.memberships;
      } else {
        assert o in t.groups;
        var w :| w in t.memberships && w.groupId == o.id && w.userId == o.ownerId && w.role == Admin;
        assert w in r.memberships;
      }
    }
  }

  /**
   * `create_group`: on a valid name, exactly one group owned by the caller and
   * one 'admin' membership row for the caller; on an invalid one, nothing.
   */
  method CreateGroup(db: Ledger, caller: int, name: string, description: string)
    returns (status: Status, created: Option<GroupSummary>)
    modifies db`groups, db`memberships, db`nextGroupId, db`nextMembershipId
    ensures status == CreateGroupStatus(name)
    ensures status == BadRequest ==>
      && db.groups == old(db.groups) && db.memberships == old(db.memberships)
      && db.nextGroupId == old(db.nextGroupId) && db.nextMembershipId == old(db.nextMembershipId)
      && created == None
    ensures status == Created ==>
      var g := Group(old(db.nextGroupId), Trim(name), Trim(description), caller);
      && db.groups == old(db.groups) + [g]
      && db.memberships == old(db.memberships) + [GroupMembership(old(db.nextMembershipId), g.id, caller, Admin)]
      && db.nextGroupId == old(db.nextGroupId) + 1 && db.nextMembershipId == old(db.nextMembershipId) + 1
      && created == Some(GroupSummary(g, true, Admin))
  {
    status := CreateGroupStatus(name);
    if status == BadRequest {
      created := None;
      return;
    }
    var g := Group(db.nextGroupId, Trim(name), Trim(description), caller);
    var m := GroupMembership(db.nextMembershipId, g.id, caller, Admin);
    db.groups := db.groups + [g];
    db.nextGroupId := db.nextGroupId + 1;
    db.memberships := db.memberships + [m];
    db.nextMembershipId := db.nextMembershipId + 1;
    created := Some(GroupSummary(g, true, Admin));
  }

  // ---------------------------------------------------------------- get_group

  /** The file fields a grant listing adds when the file record still exists. */
  datatype FileInfo = FileInfo(iv: string, contentType: string, originalSize: int)

  /**
   * One entry of a group grant listing: the grant as stored (its whole
   * ciphertext payload included), the caller's own ciphertext, and the file
   * fields the viewer needs.
   */
  datatype SharedFileEntry = SharedFileEntry(grant: GroupFileAccess, myKemCiphertext: Option<string>, file: Option<FileInfo>)

  /**
   * `json.loads(...).get(str(user_id))`: the caller's ciphertext when the
   * stored payload is an object with an entry for the caller; nothing when the
   * entry is absent or the payload is not an object.
   */
  function CiphertextFor(k: KemPayload, uid: int): (r: Option<string>)
    ensures r.Some? <==> k.Object? && uid in k.entries
    ensures r.Some? ==> r.value == k.entries[uid]
  {
    match k
    case Object(e) => if uid in e then Some(e[uid]) else None
    case NotAnObject(_) => None
  }

  function FileInfoOf(files: seq<FileMetadata>, fid: int): (r: Option<FileInfo>)
    ensures r.None? <==> forall f :: f in files ==> f.id != fid
    ensures r.Some? ==> exists f :: f in files && f.id == fid && r.value == FileInfo(f.iv, f.contentType, f.originalSize)
  {
    match FileById(files, fid)
    case None => None
    case Some(i) => Some(FileInfo(files[i].iv, files[i].contentType, files[i].originalSize))
  }

  function EntryFor(a: GroupFileAccess, files: seq<FileMetadata>, uid: int): SharedFileEntry
  {
    SharedFileEntry(a, CiphertextFor(a.kemCiphertexts, uid), FileInfoOf(files, a.fileId))
  }

  /**
   * The loop both grant listings run: one entry per grant, in order, each
   * carrying the caller's own ciphertext.
   */
  method SharedFileEntries(grants: seq<GroupFileAccess>, files: seq<FileMetadata>, uid: int)
    returns (entries: seq<SharedFileEntry>)
    ensures |entries| == |grants|
    ensures forall j :: 0 <= j < |grants| ==> entries[j] == EntryFor(grants[j], files, uid)
  {
    entries := [];
    var i := 0;
    while i < |grants|
      invariant 0 <= i <= |grants|
      invariant |entries| == i
      invariant forall j :: 0 <= j < i ==> entries[j] == EntryFor(grants[j], files, uid)
    {
      var a := grants[i];
      var mine := match a.kemCiphertexts
        case Object(cts) => if uid in cts then Some(cts[uid]) else None
        case NotAnObject(_) => None;
      var info := match FileById(files, a.fileId)
        case None => None
        case Some(k) => Some(FileInfo(files[k].iv, files[k].contentType, files[k].originalSize));
      entries := entries + [SharedFileEntry(a, mine, info)];
      i := i + 1;
    }
  }

  /** The membership rows of a group (`group.members`), in storage order. */
  function MemberRows(ms: seq<GroupMembership>, gid: int): (r: seq<GroupMembership>)
    ensures forall m :: m in r <==> m in ms && m.groupId == gid
  {
    Where(ms, (m: GroupMembership) => m.groupId == gid)
  }

  /** The grants of a group (`GroupFileAccess.query.filter_by(group_id=...)`), in storage order. */
  function GrantsOf(access: seq<GroupFileAccess>, gid: int): (r: seq<GroupFileAccess>)
    ensures forall a :: a in r <==> a in access && a.groupId == gid
  {
    Where(access, (a: GroupFileAccess) => a.groupId == gid)
  }

  /** `[m.to_dict() for m in group.members]`: every member of the group and no one else. */
  function MemberDicts(ms: seq<GroupMembership>, users: seq<User>, gid: int): (r: seq<MemberDict>)
    ensures |r| == |MemberRows(ms, gid)|
    ensures forall d :: d in r ==> d.groupId == gid
    ensures forall m :: m in ms && m.groupId == gid ==>
      exists d :: d in r && d.id == m.id && d.userId == m.userId && d.role == m.role
  {
    var rows := MemberRows(ms, gid);
    var r := seq(|rows|, j requires 0 <= j < |rows| => MembershipToDict(rows[j], users));
    assert forall j :: 0 <= j < |rows| ==> r[j].groupId == rows[j].groupId && rows[j] in rows;
    assert forall m :: m in rows ==> exists j :: 0 <= j < |rows| && rows[j] == m;
    r
  }

  datatype GroupDetail = GroupDetail(summary: GroupSummary, members: seq<MemberDict>, sharedFiles: seq<SharedFileEntry>)

  /** `get_group`: members and grants of a group, for its members and its owner only. */
  method GetGroup(db: Ledger, caller: int, gid: int) returns (status: Status, detail: Option<GroupDetail>)
    ensures status == ViewStatus(db.groups, db.memberships, caller, gid)
    ensures detail.Some? <==> status == Ok
    ensures detail.Some? ==>
      var g := db.groups[GroupById(db.groups, gid).value];
      var grants := GrantsOf(db.groupAccess, gid);
      && detail.value.summary == GroupSummary(g, g.ownerId == caller, ViewerRole(db.memberships, gid, caller))
      && detail.value.members == MemberDicts(db.memberships, db.users, gid)
      && |detail.value.sharedFiles| == |grants|
      && forall j :: 0 <= j < |grants| ==> detail.value.sharedFiles[j] == EntryFor(grants[j], db.files, caller)
  {
    status := ViewStatus(db.groups, db.memberships, caller, gid);
    if status != Ok {
      detail := None;
      return;
    }
    var g := db.groups[GroupById(db.groups, gid).value];
    var summary := GroupSummary(g, g.ownerId == caller, ViewerRole(db.memberships, gid, caller));
    var entries := SharedFileEntries(GrantsOf(db.groupAccess, gid), db.files, caller);
    detail := Some(GroupDetail(summary, MemberDicts(db.memberships, db.users, gid), entries));
  }

  // ---------------------------------------------------------------- add_member

  /** `data.get('role', 'member')` checked against ('admin', 'member'). */
  function ParseRole(raw: Option<string>): (r: Option<Role>)
    ensures raw.None? ==> r == Some(DefaultMemberRole)
    ensures raw.Some? ==> (r.Some? <==> raw.value == "admin" || raw.value == "member")
    ensures raw.Some? && r.Some? ==> RoleName(r.value) == raw.value
  {
    match raw
    case None => Some(DefaultMemberRole)
    case Some(s) => if s == "admin" then Some(Admin) else if s == "member" then Some(Member) else None
  }

  /** The checks `add_member` passes before it looks up the handle: group, permission, handle, role. */
  predicate MayAdd(groups: seq<Group>, ms: seq<GroupMembership>, caller: int, gid: int, handle: string, role: Option<string>)
  {
    && GroupById(groups, gid).Some?
    && IsAdminOrOwner(ms, groups[GroupById(groups, gid).value], caller)
    && Trim(handle) != [] && ParseRole(role).Some?
  }

  /**
   * The status `add_member` answers with: 404 unknown group, 403 unless admin
   * or owner, 400 empty handle, 400 bad role, 404 unknown handle, 409 already
   * a member, else 201.
   */
  function AddMemberStatus(groups: seq<Group>, ms: seq<GroupMembership>, users: seq<User>,
                           caller: int, gid: int, handle: string, role: Option<string>): (s: Status)
    ensures s == NotFound || s == Forbidden || s == BadRequest || s == Conflict || s == Created
    ensures s == Forbidden <==>
      GroupById(groups, gid).Some? && !IsAdminOrOwner(ms, groups[GroupById(groups, gid).value], caller)
    ensures s == BadRequest <==>
      && GroupById(groups, gid).Some? && IsAdminOrOwner(ms, groups[GroupById(groups, gid).value], caller)
      && (Trim(handle) == [] || ParseRole(role).None?)
    ensures s == NotFound <==>
      GroupById(groups, gid).None? || (MayAdd(groups, ms, caller, gid, handle, role) && UserByHandle(users, Trim(handle)).None?)
    ensures s == Conflict <==>
      && MayAdd(groups, ms, caller, gid, handle, role) && UserByHandle(users, Trim(handle)).Some?
      && HasMembership(ms, gid, users[UserByHandle(users, Trim(handle)).value].id)
    ensures s == Created <==>
      && MayAdd(groups, ms, caller, gid, handle, role) && UserByHandle(users, Trim(handle)).Some?
      && !HasMembership(ms, gid, users[UserByHandle(users, Trim(handle)).value].id)
  {
    match GroupById(groups, gid)
    case None => NotFound
    case Some(gi) =>
      if !IsAdminOrOwner(ms, groups[gi], caller) then Forbidden
      else if Trim(handle) == [] then BadRequest
      else if ParseRole(role).None? then BadRequest
      else match UserByHandle(users, Trim(handle))
        case None => NotFound
        case Some(ui) => if HasMembership(ms, gid, users[ui].id) then Conflict else Created
  }

  /** Adding a membership row for a pair without one, to an existing group, keeps every group-table invariant. */
  lemma AddMembershipKeepsInvariants(t: GroupTables, ng: int, nm: int, na: int, m: GroupMembership)
    requires GroupTablesValid(t, ng, nm, na)
    requires m.id == nm && HasGroup(t.groups, m.groupId) && !HasMembership(t.memberships, m.groupId, m.userId)
    ensures GroupTablesValid(GroupTables(t.groups, t.memberships + [m], t.access), ng, nm + 1, na)
  {
    var r := GroupTables(t.groups, t.memberships + [m], t.access);
    AppendKeyed(t.memberships, m, MembershipKey, nm);
    forall i, j | 0 <= i < j < |r.memberships|
      ensures r.memberships[i].groupId != r.memberships[j].groupId || r.memberships[i].userId != r.memberships[j].userId
    {
      if j == |t.memberships| {
        assert r.memberships[i] == t.memberships[i];
      }
    }
    forall o | o in r.groups ensures HasAdminRow(r.memberships, o.id, o.ownerId) {
      var w :| w in t.memberships && w.groupId == o.id && w.userId == o.ownerId && w.role == Admin;
      assert w in r.memberships;
    }
  }

  /** The row a successful `add_member` inserts keeps every group-table invariant. */
  lemma AddMemberKeepsInvariants(t: GroupTables, ng: int, nm: int, na: int, users: seq<User>,
                                 caller: int, gid: int, handle: string, role: Option<string>)
    requires GroupTablesValid(t, ng, nm, na)
    requires AddMemberStatus(t.groups, t.memberships, users, caller, gid, handle, role) == Created
    ensures var u := users[UserByHandle(users, Trim(handle)).value];
      GroupTablesValid(GroupTables(t.groups, t.memberships + [GroupMembership(nm, gid, u.id, ParseRole(role).value)], t.access),
                       ng, nm + 1, na)
  {
    var u := users[UserByHandle(users, Trim(handle)).value];
    var gi := GroupById(t.groups, gid).value;
    assert t.groups[gi] in t.groups;
    AddMembershipKeepsInvariants(t, ng, nm, na, GroupMembership(nm, gid, u.id, ParseRole(role).value));
  }

  /**
   * `add_member`: one new row with the requested role (default 'member') on
   * success; nothing on any of the six refusals.
   */
  method AddMember(db: Ledger, caller: int, gid: int, handle: string, role: Option<string>)
    returns (status: Status, added: Option<MemberDict>)
    modifies db`memberships, db`nextMembershipId
    ensures status == AddMemberStatus(db.groups, old(db.memberships), db.users, caller, gid, handle, role)
    ensures status != Created ==>
      db.memberships == old(db.memberships) && db.nextMembershipId == old(db.nextMembershipId) && added == None
    ensures status == Created ==>
      var u := db.users[UserByHandle(db.users, Trim(handle)).value];
      var m := GroupMembership(old(db.nextMembershipId), gid, u.id, ParseRole(role).value);
      && db.memberships == old(db.memberships) + [m]
      && db.nextMembershipId == old(db.nextMembershipId) + 1
      && added == Some(MembershipToDict(m, db.users))
  {
    status := AddMemberStatus(db.groups, db.memberships, db.users, caller, gid, handle, role);
    if status != Created {
      added := None;
      return;
    }
    var u := db.users[UserByHandle(db.users, Trim(handle)).value];
    var m := GroupMembership(db.nextMembershipId, gid, u.id, ParseRole(role).value);
    db.memberships := db.memberships + [m];
    db.nextMembershipId := db.nextMembershipId + 1;
    added := Some(MembershipToDict(m, db.users));
  }

  // ---------------------------------------------------------------- remove_member

  /**
   * The status `remove_member` answers with: 404 unknown group, 400 for the
   * owner whoever asks, 403 when removing someone else without being admin or
   * owner, 404 when the target holds no row, else 200.
   */
  function RemoveMemberStatus(groups: seq<Group>, ms: seq<GroupMembership>, caller: int, gid: int, target: int): (s: Status)
    ensures s == NotFound || s == BadRequest || s == Forbidden || s == Ok
    ensures s == BadRequest <==>
      GroupById(groups, gid).Some? && target == groups[GroupById(groups, gid).value].ownerId
    ensures s == Forbidden <==>
      && GroupById(groups, gid).Some? && target != groups[GroupById(groups, gid).value].ownerId
      && target != caller && !IsAdminOrOwner(ms, groups[GroupById(groups, gid).value], caller)
    ensures s == Ok <==>
      && GroupById(groups, gid).Some? && target != groups[GroupById(groups, gid).value].ownerId
      && (target == caller || IsAdminOrOwner(ms, groups[GroupById(groups, gid).value], caller))
      && HasMembership(ms, gid, target)
    ensures s == NotFound <==>
      || GroupById(groups, gid).None?
      || (&& GroupById(groups, gid).Some? && target != groups[GroupById(groups, gid).value].ownerId
          && (target == caller || IsAdminOrOwner(ms, groups[GroupById(groups, gid).value], caller))
          && !HasMembership(ms, gid, target))
  {
    match GroupById(groups, gid)
    case None => NotFound
    case Some(gi) =>
      if target == groups[gi].ownerId then BadRequest
      else if target != caller && !IsAdminOrOwner(ms, groups[gi], caller) then Forbidden
      else if !HasMembership(ms, gid, target) then NotFound
      else Ok
  }

  /** Deleting a membership row that is no group's owner row keeps every group-table invariant. */
  lemma RemoveMembershipKeepsInvariants(t: GroupTables, ng: int, nm: int, na: int, i: nat)
    requires GroupTablesValid(t, ng, nm, na) && i < |t.memberships|
    requires forall g :: g in t.groups ==> !(g.id == t.memberships[i].groupId && g.ownerId == t.memberships[i].userId)
    ensures GroupTablesValid(GroupTables(t.groups, t.memberships[..i] + t.memberships[i + 1..], t.access), ng, nm, na)
  {
    var ms := t.memberships;
    var rest := ms[..i] + ms[i + 1..];
    RemoveKeyed(ms, i, MembershipKey, nm);
    RemoveAtContents(ms, i, MembershipKey);
    assert forall j :: 0 <= j < |rest| ==> rest[j] == (if j < i then ms[j] else ms[j + 1]);
    forall a, b | 0 <= a < b < |rest|
      ensures rest[a].groupId != rest[b].groupId || rest[a].userId != rest[b].userId
    {
      var a', b' := if a < i then a else a + 1, if b < i then b else b + 1;
      assert rest[a] == ms[a'] && rest[b] == ms[b'];
    }
    forall o | o in t.groups ensures HasAdminRow(rest, o.id, o.ownerId) {
      var w :| w in ms && w.groupId == o.id && w.userId == o.ownerId && w.role == Admin;
      assert w in rest;
    }
  }

  /**
   * The row a successful `remove_member` deletes is never an owner's row (the
   * owner is refused first), so every group-table invariant survives.
   */
  lemma RemoveMemberKeepsInvariants(t: GroupTables, ng: int, nm: int, na: int, caller: int, gid: int, target: int)
    requires GroupTablesValid(t, ng, nm, na)
    requires RemoveMemberStatus(t.groups, t.memberships, caller, gid, target) == Ok
    ensures var i := MembershipOf(t.memberships, gid, target).value;
      GroupTablesValid(GroupTables(t.groups, t.memberships[..i] + t.memberships[i + 1..], t.access), ng, nm, na)
  {
    var gi := GroupById(t.groups, gid).value;
    var i := MembershipOf(t.memberships, gid, target).value;
    forall g | g in t.groups
      ensures !(g.id == t.memberships[i].groupId && g.ownerId == t.memberships[i].userId)
    {
      if g.id == gid {
        var j :| 0 <= j < |t.groups| && t.groups[j] == g;
        KeyedUnique(t.groups, GroupKey, j, gi);
      }
    }
    RemoveMembershipKeepsInvariants(t, ng, nm, na, i);
  }

  /** `remove_member`: on success exactly the target's row is gone; otherwise nothing changes. */
  method RemoveMember(db: Ledger, caller: int, gid: int, target: int) returns (status: Status)
    modifies db`memberships
    ensures status == RemoveMemberStatus(db.groups, old(db.memberships), caller, gid, target)
    ensures status != Ok ==> db.memberships == old(db.memberships)
    ensures status == Ok ==>
      var i := MembershipOf(old(db.memberships), gid, target).value;
      db.memberships == old(db.memberships)[..i] + old(db.memberships)[i + 1..]
  {
    status := RemoveMemberStatus(db.groups, db.memberships, caller, gid, target);
    if status != Ok {
      return;
    }
    var i := MembershipOf(db.memberships, gid, target).value;
    db.memberships := db.memberships[..i] + db.memberships[i + 1..];
  }

  // ---------------------------------------------------------------- share_file_with_group

  /** Python truthiness of the decoded `kemCiphertexts` value. */
  predicate Truthy(k: KemPayload)
  {
    match k
    case Object(e) => e != map[]
    case NotAnObject(t) => t
  }

  /** `not file_id or not kem_cts` is false: both are present and truthy. */
  predicate GroupShareFieldsPresent(fileId: Option<int>, kem: KemPayload)
  {
    fileId.Some? && fileId.value != 0 && Truthy(kem)
  }

  /** The file exists and the caller owns it. */
  predicate CallerOwnsFile(files: seq<FileMetadata>, fid: int, caller: int)
  {
    FileById(files, fid).Some? && files[FileById(files, fid).value].ownerId == caller
  }

  /**
   * The status `share_file_with_group` answers with: the viewing checks, then
   * 400 for a missing file id or an empty payload, then the same 404 for an
   * unknown file and for someone else's file, then 200 when the (file, group)
   * grant exists (it is replaced) and 201 when it does not (it is added).
   */
  function ShareWithGroupStatus(groups: seq<Group>, ms: seq<GroupMembership>, files: seq<FileMetadata>,
                                access: seq<GroupFileAccess>, caller: int, gid: int,
                                fileId: Option<int>, kem: KemPayload): (s: Status)
    ensures s == Ok || s == Created || s == BadRequest || s == NotFound || s == Forbidden
    ensures ViewStatus(groups, ms, caller, gid) != Ok ==> s == ViewStatus(groups, ms, caller, gid)
    ensures s == BadRequest <==> ViewStatus(groups, ms, caller, gid) == Ok && !GroupShareFieldsPresent(fileId, kem)
    ensures s == NotFound <==>
      || ViewStatus(groups, ms, caller, gid) == NotFound
      || (&& ViewStatus(groups, ms, caller, gid) == Ok && GroupShareFieldsPresent(fileId, kem)
          && !CallerOwnsFile(files, fileId.value, caller))
    ensures s == Ok <==>
      && ViewStatus(groups, ms, caller, gid) == Ok && GroupShareFieldsPresent(fileId, kem)
      && CallerOwnsFile(files, fileId.value, caller) && AccessOf(access, fileId.value, gid).Some?
    ensures s == Created <==>
      && ViewStatus(groups, ms, caller, gid) == Ok && GroupShareFieldsPresent(fileId, kem)
      && CallerOwnsFile(files, fileId.value, caller) && AccessOf(access, fileId.value, gid).None?
  {
    var v := ViewStatus(groups, ms, caller, gid);
    if v != Ok then v
    else if fileId.None? || fileId.value == 0 || !Truthy(kem) then BadRequest
    else match FileById(files, fileId.value)
      case None => NotFound
      case Some(fi) =>
        if files[fi].ownerId != caller then NotFound
        else if AccessOf(access, fileId.value, gid).Some? then Ok
        else Created
  }

  /** Adding a grant for a (file, group) pair without one, to an existing group, keeps every group-table invariant. */
  lemma AddGrantKeepsInvariants(t: GroupTables, ng: int, nm: int, na: int, files: seq<FileMetadata>, a: GroupFileAccess)
    requires GroupTablesValid(t, ng, nm, na) && SharersOwnFiles(files, t.access)
    requires a.id == na && HasGroup(t.groups, a.groupId) && AccessOf(t.access, a.fileId, a.groupId).None?
    requires OwnsFile(files, a.fileId, a.sharedBy)
    ensures GroupTablesValid(GroupTables(t.groups, t.memberships, t.access + [a]), ng, nm, na + 1)
    ensures SharersOwnFiles(files, t.access + [a])
  {
    var r := t.access + [a];
    AppendKeyed(t.access, a, AccessKey, na);
    forall i, j | 0 <= i < j < |r|
      ensures r[i].fileId != r[j].fileId || r[i].groupId != r[j].groupId
    {
      if j == |t.access| {
        assert r[i] == t.access[i];
      }
    }
  }

  /** Replacing the payload of a grant keeps every group-table invariant. */
  lemma ReplacePayloadKeepsInvariants(t: GroupTables, ng: int, nm: int, na: int, files: seq<FileMetadata>, i: nat, kem: KemPayload)
    requires GroupTablesValid(t, ng, nm, na) && SharersOwnFiles(files, t.access) && i < |t.access|
    ensures GroupTablesValid(GroupTables(t.groups, t.memberships, t.access[i := t.access[i].(kemCiphertexts := kem)]), ng, nm, na)
    ensures SharersOwnFiles(files, t.access[i := t.access[i].(kemCiphertexts := kem)])
  {
    var r := t.access[i := t.access[i].(kemCiphertexts := kem)];
    forall j | 0 <= j < |r| ensures KeyAt(r, AccessKey, j) == KeyAt(t.access, AccessKey, j) {
    }
    forall a | a in r ensures HasGroup(t.groups, a.groupId) && OwnsFile(files, a.fileId, a.sharedBy) {
      var j :| 0 <= j < |r| && r[j] == a;
      assert t.access[j] in t.access;
    }
  }

  /**
   * The replace branch of `share_file_with_group`: the existing grant gets the
   * new payload and every invariant, grants made by file owners included, is kept.
   */
  lemma ShareFileWithGroupKeepsInvariants(t: GroupTables, ng: int, nm: int, na: int, files: seq<FileMetadata>,
                                          caller: int, gid: int, fileId: Option<int>, kem: KemPayload)
    requires GroupTablesValid(t, ng, nm, na) && SharersOwnFiles(files, t.access)
    requires ShareWithGroupStatus(t.groups, t.memberships, files, t.access, caller, gid, fileId, kem) == Ok
    ensures var i := AccessOf(t.access, fileId.value, gid).value;
      var r := t.access[i := t.access[i].(kemCiphertexts := kem)];
      GroupTablesValid(GroupTables(t.groups, t.memberships, r), ng, nm, na) && SharersOwnFiles(files, r)
  {
    var i := AccessOf(t.access, fileId.value, gid).value;
    ReplacePayloadKeepsInvariants(t, ng, nm, na, files, i, kem);
  }

  /** The insert branch of `share_file_with_group`: one grant, one history row, every invariant kept. */
  lemma ShareFileWithGroupInsertKeepsInvariants(t: GroupTables, ng: int, nm: int, na: int, files: seq<FileMetadata>,
                                                history: seq<FileHistory>, nh: int,
                                                caller: int, gid: int, fileId: Option<int>, kem: KemPayload)
    requires GroupTablesValid(t, ng, nm, na) && SharersOwnFiles(files, t.access) && Keyed(history, HistoryKey, nh)
    requires ShareWithGroupStatus(t.groups, t.memberships, files, t.access, caller, gid, fileId, kem) == Created
    ensures var a := GroupFileAccess(na, fileId.value, gid, caller, kem);
      var f := files[FileById(files, fileId.value).value];
      var h := FileHistory(nh, caller, f.fileName, f.originalSize, f.encryptedSize, "group-share", "share");
      && GroupTablesValid(GroupTables(t.groups, t.memberships, t.access + [a]), ng, nm, na + 1)
      && SharersOwnFiles(files, t.access + [a])
      && Keyed(history + [h], HistoryKey, nh + 1)
  {
    var a := GroupFileAccess(na, fileId.value, gid, caller, kem);
    var f := files[FileById(files, fileId.value).value];
    assert f in files;
    var gi := GroupById(t.groups, gid).value;
    assert t.groups[gi] in t.groups;
    AddGrantKeepsInvariants(t, ng, nm, na, files, a);
    AppendKeyed(history, FileHistory(nh, caller, f.fileName, f.originalSize, f.encryptedSize, "group-share", "share"),
                HistoryKey, nh);
  }

  /**
   * `share_file_with_group`: a first share adds one grant and one
   * 'group-share' history line; a repeat replaces the payload of the
   * existing grant in place and adds neither; a refusal changes nothing.
   */
  method ShareFileWithGroup(db: Ledger, caller: int, gid: int, fileId: Option<int>, kem: KemPayload)
    returns (status: Status, grant: Option<GroupFileAccess>)
    modifies db`groupAccess, db`nextAccessId, db`history, db`nextHistoryId
    ensures status == ShareWithGroupStatus(db.groups, db.memberships, db.files, old(db.groupAccess), caller, gid, fileId, kem)
    ensures status != Ok && status != Created ==>
      && db.groupAccess == old(db.groupAccess) && db.nextAccessId == old(db.nextAccessId)
      && db.history == old(db.history) && db.nextHistoryId == old(db.nextHistoryId)
      && grant == None
    ensures status == Ok ==>
      var i := AccessOf(old(db.groupAccess), fileId.value, gid).value;
      && db.groupAccess == old(db.groupAccess)[i := old(db.groupAccess)[i].(kemCiphertexts := kem)]
      && db.nextAccessId == old(db.nextAccessId)
      && db.history == old(db.history) && db.nextHistoryId == old(db.nextHistoryId)
      && grant == Some(db.groupAccess[i])
    ensures status == Created ==>
      var f := db.files[FileById(db.files, fileId.value).value];
      var a := GroupFileAccess(old(db.nextAccessId), fileId.value, gid, caller, kem);
      && db.groupAccess == old(db.groupAccess) + [a]
      && db.nextAccessId == old(db.nextAccessId) + 1
      && db.history == old(db.history)
           + [FileHistory(old(db.nextHistoryId), caller, f.fileName, f.originalSize, f.encryptedSize, "group-share", "share")]
      && db.nextHistoryId == old(db.nextHistoryId) + 1
      && grant == Some(a)
  {
    status := ShareWithGroupStatus(db.groups, db.memberships, db.files, db.groupAccess, caller, gid, fileId, kem);
    if status != Ok && status != Created {
      grant := None;
      return;
    }
    var fid := fileId.value;
    var f := db.files[FileById(db.files, fid).value];
    if status == Ok {
      var i := AccessOf(db.groupAccess, fid, gid).value;
      db.groupAccess := db.groupAccess[i := db.groupAccess[i].(kemCiphertexts := kem)];
      grant := Some(db.groupAccess[i]);
    } else {
      var a := GroupFileAccess(db.nextAccessId, fid, gid, caller, kem);
      var h := FileHistory(db.nextHistoryId, caller, f.fileName, f.originalSize, f.encryptedSize, "group-share", "share");
      db.groupAccess := db.groupAccess + [a];
      db.nextAccessId := db.nextAccessId + 1;
      db.history := db.history + [h];
      db.nextHistoryId := db.nextHistoryId + 1;
      grant := Some(a);
    }
  }

  // ---------------------------------------------------------------- list_group_shared_files

  /** The group ids of the caller's membership rows (`group_ids`). */
  function CallerGroupIds(ms: seq<GroupMembership>, uid: int): (ids: set<int>)
    ensures forall gid :: gid in ids <==> HasMembership(ms, gid, uid)
  {
    var ids := set m | m in ms && m.userId == uid :: m.groupId;
    forall gid | HasMembership(ms, gid, uid) ensures gid in ids {
      var k := MembershipOf(ms, gid, uid).value;
      assert ms[k] in ms;
    }
    forall gid | gid in ids ensures HasMembership(ms, gid, uid) {
      var m :| m in ms && m.userId == uid && m.groupId == gid;
      var k :| 0 <= k < |ms| && ms[k] == m;
    }
    ids
  }

  /**
   * The grants `list_group_shared_files` walks: those of the groups where the
   * caller holds a membership row. Ownership alone does not count.
   */
  function VisibleGrants(ms: seq<GroupMembership>, access: seq<GroupFileAccess>, uid: int): (r: seq<GroupFileAccess>)
    ensures forall a :: a in r <==> a in access && HasMembership(ms, a.groupId, uid)
  {
    var ids := CallerGroupIds(ms, uid);
    if ids == {} then [] else Where(access, (a: GroupFileAccess) => a.groupId in ids)
  }

  /** `list_group_shared_files`: one entry per visible grant, each with the caller's own ciphertext. */
  method ListGroupSharedFiles(db: Ledger, caller: int) returns (entries: seq<SharedFileEntry>)
    ensures |entries| == |VisibleGrants(db.memberships, db.groupAccess, caller)|
    ensures forall j :: 0 <= j < |entries| ==>
      entries[j] == EntryFor(VisibleGrants(db.memberships, db.groupAccess, caller)[j], db.files, caller)
  {
    entries := SharedFileEntries(VisibleGrants(db.memberships, db.groupAccess, caller), db.files, caller);
  }

  /**
   * While every owner keeps an 'admin' row, an owner sees every grant of the
   * groups it owns; a caller without a row in a group sees none of its grants.
   */
  lemma GrantVisibility(t: GroupTables, ng: int, nm: int, na: int, a: GroupFileAccess, uid: int)
    requires GroupTablesValid(t, ng, nm, na) && a in t.access
    ensures (exists g :: g in t.groups && g.id == a.groupId && g.ownerId == uid) ==> a in VisibleGrants(t.memberships, t.access, uid)
    ensures !HasMembership(t.memberships, a.groupId, uid) ==> a !in VisibleGrants(t.memberships, t.access, uid)
  {
    if g :| g in t.groups && g.id == a.groupId && g.ownerId == uid {
      AdminRowFound(t.memberships, g.id, g.ownerId);
    }
  }

  // ---------------------------------------------------------------- get_group_pubkeys

  datatype PubkeyEntry = PubkeyEntry(userId: int, researcherId: string, kyberPublicKey: string)

  /** A member's entry: present when the member's user exists and its stored key is non-empty. */
  function KeyEntry(m: GroupMembership, users: seq<User>): (r: Option<PubkeyEntry>)
    ensures r.Some? <==>
      && UserById(users, m.userId).Some?
      && users[UserById(users, m.userId).value].kyberPublicKey.Some?
      && users[UserById(users, m.userId).value].kyberPublicKey.value != ""
    ensures r.Some? ==>
      && r.value.userId == m.userId
      && r.value.kyberPublicKey == users[UserById(users, m.userId).value].kyberPublicKey.value
  {
    match UserById(users, m.userId)
    case None => None
    case Some(i) =>
      match users[i].kyberPublicKey
      case None => None
      case Some(k) => if k == "" then None else Some(PubkeyEntry(m.userId, users[i].researcherId, k))
  }

  /** The entries of `members` that have a key, in order. */
  function KeyEntries(members: seq<GroupMembership>, users: seq<User>): (r: seq<PubkeyEntry>)
    ensures |r| <= |members|
    ensures forall e :: e in r <==> exists j :: 0 <= j < |members| && KeyEntry(members[j], users) == Some(e)
    decreases |members|
  {
    if members == [] then []
    else
      var init := members[..|members| - 1];
      var last := members[|members| - 1];
      var r := KeyEntries(init, users) + match KeyEntry(last, users) case Some(e) => [e] case None => [];
      assert forall j :: 0 <= j < |init| ==> members[j] == init[j];
      r
  }

  /** `get_group_pubkeys`: for members and the owner, the keys of the members that have one. */
  method GetGroupPubkeys(db: Ledger, caller: int, gid: int) returns (status: Status, keys: seq<PubkeyEntry>)
    ensures status == ViewStatus(db.groups, db.memberships, caller, gid)
    ensures status != Ok ==> keys == []
    ensures status == Ok ==> keys == KeyEntries(MemberRows(db.memberships, gid), db.users)
  {
    keys := [];
    status := ViewStatus(db.groups, db.memberships, caller, gid);
    if status != Ok {
      return;
    }
    var members := MemberRows(db.memberships, gid);
    var i := 0;
    while i < |members|
      invariant 0 <= i <= |members|
      invariant keys == KeyEntries(members[..i], db.users)
    {
      var m := members[i];
      assert members[..i + 1][..i] == members[..i];
      match UserById(db.users, m.userId) {
        case Some(k) =>
          var u := db.users[k];
          if u.kyberPublicKey.Some? && u.kyberPublicKey.value != "" {
            keys := keys + [PubkeyEntry(m.userId, u.researcherId, u.kyberPublicKey.value)];
          }
        case None =>
      }
      i := i + 1;
    }
    assert members[..i] == members;
  }

  /** Every published key belongs to a member of the group and is that user's stored, non-empty key. */
  lemma PubkeysComeFromMembers(ms: seq<GroupMembership>, users: seq<User>, gid: int, e: PubkeyEntry)
    requires e in KeyEntries(MemberRows(ms, gid), users)
    ensures exists m :: m in ms && m.groupId == gid && m.userId == e.userId
    ensures e.kyberPublicKey != ""
    ensures exists u :: u in users && u.id == e.userId && u.kyberPublicKey == Some(e.kyberPublicKey)
  {
    var rows := MemberRows(ms, gid);
    var j :| 0 <= j < |rows| && KeyEntry(rows[j], users) == Some(e);
    assert rows[j] in rows;
    var i := UserById(users, rows[j].userId).value;
    assert users[i] in users;
  }

  // ---------------------------------------------------------------- delete_group

  /** 404 for an unknown group, 403 for anyone but its owner (an 'admin' row does not suffice). */
  function DeleteGroupStatus(groups: seq<Group>, caller: int, gid: int): (s: Status)
    ensures s == NotFound <==> GroupById(groups, gid).None?
    ensures s == Ok <==> GroupById(groups, gid).Some? && groups[GroupById(groups, gid).value].ownerId == caller
    ensures s == NotFound || s == Ok || s == Forbidden
  {
    match GroupById(groups, gid)
    case None => NotFound
    case Some(i) => if groups[i].ownerId != caller then Forbidden else Ok
  }

  /** Deleting a group with its cascades keeps every group-table invariant and every grant made by a file's owner. */
  lemma DeleteGroupKeepsInvariants(t: GroupTables, ng: int, nm: int, na: int, files: seq<FileMetadata>, gid: int)
    requires GroupTablesValid(t, ng, nm, na) && SharersOwnFiles(files, t.access)
    ensures GroupTablesValid(DeleteGroupCascade(t, gid), ng, nm, na)
    ensures SharersOwnFiles(files, DeleteGroupCascade(t, gid).access)
  {
    DeleteGroupCascadeKeepsInvariants(t, gid, ng, nm, na);
    var r := DeleteGroupCascade(t, gid);
    forall a | a in r.access ensures OwnsFile(files, a.fileId, a.sharedBy) {
      assert a in t.access;
    }
  }

  /** `delete_group`: for the owner, the group goes and takes its memberships and grants along. */
  method DeleteGroup(db: Ledger, caller: int, gid: int) returns (status: Status)
    modifies db`groups, db`memberships, db`groupAccess
    ensures status == DeleteGroupStatus(old(db.groups), caller, gid)
    ensures status != Ok ==>
      db.groups == old(db.groups) && db.memberships == old(db.memberships) && db.groupAccess == old(db.groupAccess)
    ensures status == Ok ==>
      GroupTables(db.groups, db.memberships, db.groupAccess)
        == DeleteGroupCascade(GroupTables(old(db.groups), old(db.memberships), old(db.groupAccess)), gid)
  {
    status := DeleteGroupStatus(db.groups, caller, gid);
    if status != Ok {
      return;
    }
    var r := DeleteGroupCascade(GroupTables(db.groups, db.memberships, db.groupAccess), gid);
    db.groups, db.memberships, db.groupAccess := r.groups, r.memberships, r.access;
  }
}
