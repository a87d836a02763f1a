/**
 * The persistent state the route handlers share: the database tables behind
 * `db.session` (class Ledger) and the blob storage directory (class Disk).
 */
module Store {
  import opened Wrappers
  import opened Query
  import opened Models

  /**
   * The database: one sequence of rows per table, in insertion order, and
   * per table the id the autoincrement key hands out next.
   */
  class Ledger {
    var users: seq<User>
    var files: seq<FileMetadata>
    var shares: seq<SharedAccess>
    var history: seq<FileHistory>
    var groups: seq<Group>
    var memberships: seq<GroupMembership>
    var groupAccess: seq<GroupFileAccess>
    var settings: seq<UserSettings>

    var nextUserId: int
    var nextFileId: int
    var nextShareId: int
    var nextHistoryId: int
    var nextGroupId: int
    var nextMembershipId: int
    var nextAccessId: int
    var nextSettingsId: int

    /** Researcher handles are unique. */
    ghost predicate UsersValid()
      reads this`users, this`nextUserId
    {
      Keyed(users, UserKey, nextUserId) && UniqueHandles(users)
    }

    ghost predicate FilesValid()
      reads this`files, this`nextFileId
    {
      Keyed(files, FileKey, nextFileId)
    }

    /** Share codes are unique and every direct grant was made by the owner of an existing file. */
    ghost predicate SharesValid()
      reads this`shares, this`nextShareId, this`files
    {
      Keyed(shares, ShareKey, nextShareId) && UniqueShareCodes(shares) && SendersOwnFiles(files, shares)
    }

    ghost predicate HistoryValid()
      reads this`history, this`nextHistoryId
    {
      Keyed(history, HistoryKey, nextHistoryId)
    }

    /** One settings row per user. */
    ghost predicate SettingsValid()
      reads this`settings, this`nextSettingsId
    {
      Keyed(settings, SettingsKey, nextSettingsId) && OneSettingsRowPerUser(settings)
    }

    /** The group tables keep their constraints and every group grant was made by the file's owner. */
    ghost predicate GroupsValid()
      reads this`groups, this`memberships, this`groupAccess, this`files
      reads this`nextGroupId, this`nextMembershipId, this`nextAccessId
    {
      && GroupTablesValid(GroupTables(groups, memberships, groupAccess), nextGroupId, nextMembershipId, nextAccessId)
      && SharersOwnFiles(files, groupAccess)
    }

    /** Every table is an autoincrement table and every declared constraint holds. */
    ghost predicate Valid()
      reads this
    {
      UsersValid() && FilesValid() && SharesValid() && HistoryValid() && SettingsValid() && GroupsValid()
    }

    /** A fresh database: `db.create_all()` on an empty file. */
    constructor ()
      ensures Valid()
      ensures users == [] && files == [] && shares == [] && history == []
      ensures groups == [] && memberships == [] && groupAccess == [] && settings == []
    {
      users, files, shares, history := [], [], [], [];
      groups, memberships, groupAccess, settings := [], [], [], [];
      nextUserId, nextFileId, nextShareId, nextHistoryId := 1, 1, 1, 1;
      nextGroupId, nextMembershipId, nextAccessId, nextSettingsId := 1, 1, 1, 1;
    }
  }

  /** The storage directory: relative path to the bytes written there. */
  class Disk {
    var blobs: map<string, Bytes>

    constructor ()
      ensures blobs == map[]
    {
      blobs := map[];
    }
  }
}
