/**
 * The tables of the sharing ledger (backend/models.py): one datatype per row
 * kind, the column defaults, the `to_dict` projections that carry logic, the
 * uniqueness and reference constraints, and the delete cascades.
 */
module Models {
  import opened Wrappers
  import opened Query

  type Bytes = seq<bv8>

  // ---------------------------------------------------------------- rows

  /** A researcher account; the public key is an opaque string or NULL. */
  datatype User = User(
    id: int,
    researcherId: string,
    passwordHash: string,
    kyberPublicKey: Option<string>,
    role: string)

  const DefaultUserRole := "Researcher"

  /** Catalog entry of an uploaded encrypted blob. */
  datatype FileMetadata = FileMetadata(
    id: int,
    ownerId: int,
    fileName: string,
    originalSize: int,
    encryptedSize: int,
    storagePath: string,
    contentType: string,
    sha256Hash: string,
    iv: string)

  const DefaultContentType := "application/octet-stream"

  /** A direct grant: one sender, one recipient, one KEM ciphertext. */
  datatype SharedAccess = SharedAccess(
    id: int,
    fileId: int,
    senderId: int,
    recipientId: int,
    kemCiphertext: string,
    shareCode: string,
    permission: string)

  const DefaultPermission := "download"

  /** One audit-log line of a user. */
  datatype FileHistory = FileHistory(
    id: int,
    userId: int,
    name: string,
    originalSize: int,
    encryptedSize: int,
    fileType: string,
    operation: string)

  const DefaultOperation := "encrypt"
  const DefaultFileType := "unknown"

  datatype Group = Group(id: int, name: string, description: string, ownerId: int)

  /** The roles a membership row can hold; every writer validates them. */
  datatype Role = Admin | Member

  function RoleName(r: Role): string
  {
    match r
    case Admin => "admin"
    case Member => "member"
  }

  const DefaultMemberRole := Member

  datatype GroupMembership = GroupMembership(id: int, groupId: int, userId: int, role: Role)

  /**
   * The JSON value stored in `kem_ciphertexts`: normally an object from user
   * id to ciphertext, but the server stores whatever the client sent, so it
   * may be another JSON value (truthy or not).
   */
  datatype KemPayload = Object(entries: map<int, string>) | NotAnObject(truthy: bool)

  /** A group grant: one file, one group, a fan-out of ciphertexts. */
  datatype GroupFileAccess = GroupFileAccess(
    id: int,
    fileId: int,
    groupId: int,
    sharedBy: int,
    kemCiphertexts: KemPayload)

  /** The eight preference columns; each is nullable. */
  datatype Prefs = Prefs(
    algorithm: Option<string>,
    keySize: Option<string>,
    autoDelete: Option<bool>,
    animations: Option<bool>,
    highContrast: Option<bool>,
    sessionTimeout: Option<string>,
    twoFactor: Option<bool>,
    auditLogging: Option<bool>)

  datatype UserSettings = UserSettings(id: int, userId: int, prefs: Prefs)

  // ---------------------------------------------------------------- primary keys

  function UserKey(u: User): int { u.id }
  function FileKey(f: FileMetadata): int { f.id }
  function ShareKey(s: SharedAccess): int { s.id }
  function HistoryKey(h: FileHistory): int { h.id }
  function GroupKey(g: Group): int { g.id }
  function MembershipKey(m: GroupMembership): int { m.id }
  function AccessKey(a: GroupFileAccess): int { a.id }
  function SettingsKey(s: UserSettings): int { s.id }

  // ---------------------------------------------------------------- lookups (`filter_by(...).first()`)

  function UserById(users: seq<User>, id: int): Option<nat>
  {
    FirstIndex(users, (u: User) => u.id == id)
  }

  function UserByHandle(users: seq<User>, handle: string): Option<nat>
  {
    FirstIndex(users, (u: User) => u.researcherId == handle)
  }

  function FileById(files: seq<FileMetadata>, id: int): Option<nat>
  {
    FirstIndex(files, (f: FileMetadata) => f.id == id)
  }

  function ShareById(shares: seq<SharedAccess>, id: int): Option<nat>
  {
    FirstIndex(shares, (s: SharedAccess) => s.id == id)
  }

  function ShareByCode(shares: seq<SharedAccess>, code: string): Option<nat>
  {
    FirstIndex(shares, (s: SharedAccess) => s.shareCode == code)
  }

  function GroupById(groups: seq<Group>, id: int): Option<nat>
  {
    FirstIndex(groups, (g: Group) => g.id == id)
  }

  function MembershipOf(ms: seq<GroupMembership>, groupId: int, userId: int): Option<nat>
  {
    FirstIndex(ms, (m: GroupMembership) => m.groupId == groupId && m.userId == userId)
  }

  function AccessOf(access: seq<GroupFileAccess>, fileId: int, groupId: int): Option<nat>
  {
    FirstIndex(access, (a: GroupFileAccess) => a.fileId == fileId && a.groupId == groupId)
  }

  function SettingsOf(settings: seq<UserSettings>, userId: int): Option<nat>
  {
    FirstIndex(settings, (s: UserSettings) => s.userId == userId)
  }

  // ---------------------------------------------------------------- to_dict projections

  /** `User.to_dict()`, without the creation time. */
  datatype UserDict = UserDict(id: int, researcherId: string, role: string, hasKyberKey: bool)

  function UserToDict(u: User): UserDict
  {
    UserDict(u.id, u.researcherId, u.role, u.kyberPublicKey.Some?)
  }

  /** `FileMetadata.to_dict()`, without the creation time: the storage path and the iv stay on the server. */
  datatype FileDict = FileDict(
    id: int,
    ownerId: int,
    fileName: string,
    originalSize: int,
    encryptedSize: int,
    contentType: string,
    sha256Hash: string)

  function FileToDict(f: FileMetadata): FileDict
  {
    FileDict(f.id, f.ownerId, f.fileName, f.originalSize, f.encryptedSize, f.contentType, f.sha256Hash)
  }

  /** `GroupMembership.to_dict()`: the member's handle and key flag come from the users table. */
  datatype MemberDict = MemberDict(
    id: int,
    groupId: int,
    userId: int,
    researcherId: Option<string>,
    hasKyberKey: bool,
    role: Role)

  function MembershipToDict(m: GroupMembership, users: seq<User>): MemberDict
  {
    match UserById(users, m.userId)
    case None => MemberDict(m.id, m.groupId, m.userId, None, false, m.role)
    case Some(i) =>
      MemberDict(m.id, m.groupId, m.userId, Some(users[i].researcherId),
                 users[i].kyberPublicKey.Some?, m.role)
  }

  /**
   * Both projections report a key exactly when the stored key is not NULL;
   * an empty key still counts as present.
   */
  lemma KyberFlagIsKeyPresence(users: seq<User>, u: User, m: GroupMembership)
    requires Ascending(users, UserKey)
    requires u in users && m.userId == u.id
    ensures UserToDict(u).hasKyberKey <==> u.kyberPublicKey != None
    ensures MembershipToDict(m, users).hasKyberKey <==> u.kyberPublicKey != None
    ensures MembershipToDict(m, users).researcherId == Some(u.researcherId)
  {
    var j :| 0 <= j < |users| && users[j] == u;
    var i := UserById(users, m.userId).value;
    if i != j {
      KeyedUnique(users, UserKey, i, j);
    }
  }

  // ---------------------------------------------------------------- constraints

  /** `researcher_id` is declared unique. */
  ghost predicate UniqueHandles(users: seq<User>)
  {
    forall i, j :: 0 <= i < j < |users| ==> users[i].researcherId != users[j].researcherId
  }

  /** `share_code` is declared unique. */
  ghost predicate UniqueShareCodes(shares: seq<SharedAccess>)
  {
    forall i, j :: 0 <= i < j < |shares| ==> shares[i].shareCode != shares[j].shareCode
  }

  /** `uq_group_user`: at most one membership per (group, user). */
  ghost predicate UniqueMemberships(ms: seq<GroupMembership>)
  {
    forall i, j :: 0 <= i < j < |ms| ==>
      ms[i].groupId != ms[j].groupId || ms[i].userId != ms[j].userId
  }

  /** `uq_file_group`: at most one group grant per (file, group). */
  ghost predicate UniqueGroupAccess(access: seq<GroupFileAccess>)
  {
    forall i, j :: 0 <= i < j < |access| ==>
      access[i].fileId != access[j].fileId || access[i].groupId != access[j].groupId
  }

  /** `user_id` of the settings table is declared unique. */
  ghost predicate OneSettingsRowPerUser(settings: seq<UserSettings>)
  {
    forall i, j :: 0 <= i < j < |settings| ==> settings[i].userId != settings[j].userId
  }

  ghost predicate HasGroup(groups: seq<Group>, groupId: int)
  {
    exists g :: g in groups && g.id == groupId
  }

  /** Foreign keys from memberships and group grants to their group. */
  ghost predicate GroupRowsReferenceGroups(groups: seq<Group>, ms: seq<GroupMembership>, access: seq<GroupFileAccess>)
  {
    && (forall m :: m in ms ==> HasGroup(groups, m.groupId))
    && (forall a :: a in access ==> HasGroup(groups, a.groupId))
  }

  /** User `uid` holds a membership row of group `gid` whose role is 'admin'. */
  predicate HoldsAdminRow(ms: seq<GroupMembership>, gid: int, uid: int)
  {
    match MembershipOf(ms, gid, uid)
    case Some(i) => ms[i].role == Admin
    case None => false
  }

  /** Some membership row gives user `uid` the role 'admin' in group `gid`. */
  ghost predicate HasAdminRow(ms: seq<GroupMembership>, gid: int, uid: int)
  {
    exists m :: m in ms && m.groupId == gid && m.userId == uid && m.role == Admin
  }

  /** Every group's owner holds an 'admin' membership row of that group. */
  ghost predicate OwnersAreAdminMembers(groups: seq<Group>, ms: seq<GroupMembership>)
  {
    forall g :: g in groups ==> HasAdminRow(ms, g.id, g.ownerId)
  }

  ghost predicate OwnsFile(files: seq<FileMetadata>, fileId: int, userId: int)
  {
    exists f :: f in files && f.id == fileId && f.ownerId == userId
  }

  /** Every direct grant was made by the owner of an existing file. */
  ghost predicate SendersOwnFiles(files: seq<FileMetadata>, shares: seq<SharedAccess>)
  {
    forall s :: s in shares ==> OwnsFile(files, s.fileId, s.senderId)
  }

  /** Every group grant was made by the owner of an existing file. */
  ghost predicate SharersOwnFiles(files: seq<FileMetadata>, access: seq<GroupFileAccess>)
  {
    forall a :: a in access ==> OwnsFile(files, a.fileId, a.sharedBy)
  }

  // ---------------------------------------------------------------- cascades

  /** The three tables a group deletion touches. */
  datatype GroupTables = GroupTables(
    groups: seq<Group>,
    memberships: seq<GroupMembership>,
    access: seq<GroupFileAccess>)

  /**
   * Deleting group `gid`: `Group.members` and `Group.file_access` are
   * `delete-orphan` cascades, so its memberships and grants go with it.
   */
  function DeleteGroupCascade(t: GroupTables, gid: int): (r: GroupTables)
    ensures forall g :: g in r.groups <==> g in t.groups && g.id != gid
    ensures forall m :: m in r.memberships <==> m in t.memberships && m.groupId != gid
    ensures forall a :: a in r.access <==> a in t.access && a.groupId != gid
  {
    GroupTables(
      Where(t.groups, (g: Group) => g.id != gid),
      Where(t.memberships, (m: GroupMembership) => m.groupId != gid),
      Where(t.access, (a: GroupFileAccess) => a.groupId != gid))
  }

  /** Invariants of the group tables that a cascade must keep. */
  ghost predicate GroupTablesValid(t: GroupTables, nextGroup: int, nextMembership: int, nextAccess: int)
  {
    && Keyed(t.groups, GroupKey, nextGroup)
    && Keyed(t.memberships, MembershipKey, nextMembership)
    && Keyed(t.access, AccessKey, nextAccess)
    && UniqueMemberships(t.memberships)
    && UniqueGroupAccess(t.access)
    && GroupRowsReferenceGroups(t.groups, t.memberships, t.access)
    && OwnersAreAdminMembers(t.groups, t.memberships)
  }

  lemma WhereUniqueMemberships(ms: seq<GroupMembership>, p: GroupMembership -> bool)
    requires UniqueMemberships(ms) && Ascending(ms, MembershipKey)
    ensures UniqueMemberships(Where(ms, p))
  {
    var w := Where(ms, p);
    WhereAscending(ms, p, MembershipKey);
    forall i, j | 0 <= i < j < |w| ensures w[i].groupId != w[j].groupId || w[i].userId != w[j].userId {
      assert w[i] in ms && w[j] in ms;
      var a :| 0 <= a < |ms| && ms[a] == w[i];
      var b :| 0 <= b < |ms| && ms[b] == w[j];
      assert KeyAt(w, MembershipKey, i) < KeyAt(w, MembershipKey, j);
    }
  }

  lemma WhereUniqueGroupAccess(access: seq<GroupFileAccess>, p: GroupFileAccess -> bool)
    requires UniqueGroupAccess(access) && Ascending(access, AccessKey)
    ensures UniqueGroupAccess(Where(access, p))
  {
    var w := Where(access, p);
    WhereAscending(access, p, AccessKey);
    forall i, j | 0 <= i < j < |w| ensures w[i].fileId != w[j].fileId || w[i].groupId != w[j].groupId {
      assert w[i] in access && w[j] in access;
      var a :| 0 <= a < |access| && access[a] == w[i];
      var b :| 0 <= b < |access| && access[b] == w[j];
      assert KeyAt(w, AccessKey, i) < KeyAt(w, AccessKey, j);
    }
  }

  /** In a table without duplicate (group, user) pairs, the row found for a pair is the only one. */
  lemma MembershipOfUnique(ms: seq<GroupMembership>, m: GroupMembership)
    requires UniqueMemberships(ms) && m in ms
    ensures MembershipOf(ms, m.groupId, m.userId) == Some(IndexOf(ms, m))
  {
    var k := IndexOf(ms, m);
    var r := MembershipOf(ms, m.groupId, m.userId);
    assert r.Some?;
  }

  /** Appending a row leaves the lookup of every pair already present where it was. */
  lemma MembershipOfAppend(ms: seq<GroupMembership>, m: GroupMembership, gid: int, uid: int)
    ensures MembershipOf(ms + [m], gid, uid)
         == if MembershipOf(ms, gid, uid).Some? then MembershipOf(ms, gid, uid)
            else if m.groupId == gid && m.userId == uid then Some(|ms|)
            else None
  {
    var s := ms + [m];
    var r, r0 := MembershipOf(s, gid, uid), MembershipOf(ms, gid, uid);
    assert forall j :: 0 <= j < |ms| ==> s[j] == ms[j];
    if r0.Some? {
      assert s[r0.value] == ms[r0.value];
    } else if m.groupId == gid && m.userId == uid {
      assert s[|ms|] == m;
    }
  }

  lemma AccessOfAppend(access: seq<GroupFileAccess>, a: GroupFileAccess, fid: int, gid: int)
    ensures AccessOf(access + [a], fid, gid)
         == if AccessOf(access, fid, gid).Some? then AccessOf(access, fid, gid)
            else if a.fileId == fid && a.groupId == gid then Some(|access|)
            else None
  {
    var s := access + [a];
    var r, r0 := AccessOf(s, fid, gid), AccessOf(access, fid, gid);
    assert forall j :: 0 <= j < |access| ==> s[j] == access[j];
    if r0.Some? {
      assert s[r0.value] == access[r0.value];
    } else if a.fileId == fid && a.groupId == gid {
      assert s[|access|] == a;
    }
  }

  /** Without duplicate pairs, the row `filter_by(group_id, user_id).first()` finds is the 'admin' row. */
  lemma AdminRowFound(ms: seq<GroupMembership>, gid: int, uid: int)
    requires UniqueMemberships(ms) && HasAdminRow(ms, gid, uid)
    ensures HoldsAdminRow(ms, gid, uid)
  {
    var m :| m in ms && m.groupId == gid && m.userId == uid && m.role == Admin;
    MembershipOfUnique(ms, m);
  }

  function IndexOf<T(==)>(s: seq<T>, x: T): (k: nat)
    requires x in s
    ensures k < |s| && s[k] == x
  {
    if s[0] == x then 0 else 1 + IndexOf(s[1..], x)
  }

  /** Deleting a group leaves no orphan rows and keeps every constraint of the group tables. */
  lemma DeleteGroupCascadeKeepsInvariants(t: GroupTables, gid: int, ng: int, nm: int, na: int)
    requires GroupTablesValid(t, ng, nm, na)
    ensures GroupTablesValid(DeleteGroupCascade(t, gid), ng, nm, na)
    ensures var r := DeleteGroupCascade(t, gid);
      forall m :: m in r.memberships ==> m.groupId != gid
  {
    var r := DeleteGroupCascade(t, gid);
    WhereKeyed(t.groups, (g: Group) => g.id != gid, GroupKey, ng);
    WhereKeyed(t.memberships, (m: GroupMembership) => m.groupId != gid, MembershipKey, nm);
    WhereKeyed(t.access, (a: GroupFileAccess) => a.groupId != gid, AccessKey, na);
    WhereUniqueMemberships(t.memberships, (m: GroupMembership) => m.groupId != gid);
    WhereUniqueGroupAccess(t.access, (a: GroupFileAccess) => a.groupId != gid);
    forall m | m in r.memberships ensures HasGroup(r.groups, m.groupId) {
      var g :| g in t.groups && g.id == m.groupId;
      assert g in r.groups;
    }
    forall a | a in r.access ensures HasGroup(r.groups, a.groupId) {
      var g :| g in t.groups && g.id == a.groupId;
      assert g in r.groups;
    }
    forall g | g in r.groups ensures HasAdminRow(r.memberships, g.id, g.ownerId) {
      var m :| m in t.memberships && m.groupId == g.id && m.userId == g.ownerId && m.role == Admin;
      assert m in r.memberships;
    }
  }

  /** Deleting a file record: `FileMetadata.shares` is a `delete-orphan` cascade. */
  function DeleteFileCascade(files: seq<FileMetadata>, shares: seq<SharedAccess>, fid: int)
    : (r: (seq<FileMetadata>, seq<SharedAccess>))
    ensures forall f :: f in r.0 <==> f in files && f.id != fid
    ensures forall s :: s in r.1 <==> s in shares && s.fileId != fid
  {
    (Where(files, (f: FileMetadata) => f.id != fid), Where(shares, (s: SharedAccess) => s.fileId != fid))
  }

  /** After the cascade every remaining direct grant still points at an existing file of its sender. */
  lemma DeleteFileCascadeLeavesNoOrphans(files: seq<FileMetadata>, shares: seq<SharedAccess>, fid: int)
    requires SendersOwnFiles(files, shares)
    ensures var r := DeleteFileCascade(files, shares, fid);
      SendersOwnFiles(r.0, r.1) && forall s :: s in r.1 ==> s.fileId != fid
  {
    var r := DeleteFileCascade(files, shares, fid);
    forall s | s in r.1 ensures OwnsFile(r.0, s.fileId, s.senderId) {
      var f :| f in files && f.id == s.fileId && f.ownerId == s.senderId;
      assert f in r.0;
    }
  }

  /**
   * `FileMetadata` has no cascade to `GroupFileAccess`, so the file cascade
   * leaves group grants alone; it keeps them valid only when none names the file.
   */
  lemma DeleteFileCascadeKeepsUnrelatedGrants(files: seq<FileMetadata>, shares: seq<SharedAccess>,
                                              access: seq<GroupFileAccess>, fid: int)
    requires SharersOwnFiles(files, access)
    ensures (forall a :: a in access ==> a.fileId != fid) ==> SharersOwnFiles(DeleteFileCascade(files, shares, fid).0, access)
    ensures (exists a :: a in access && a.fileId == fid) ==> !SharersOwnFiles(DeleteFileCascade(files, shares, fid).0, access)
  {
    var r := DeleteFileCascade(files, shares, fid).0;
    forall a | a in access && a.fileId != fid ensures OwnsFile(r, a.fileId, a.sharedBy) {
      var f :| f in files && f.id == a.fileId && f.ownerId == a.sharedBy;
      assert f in r;
    }
  }
}
