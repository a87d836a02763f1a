# Secure research file sharing: a Dafny model of the backend routes

The backend is a Flask application. Researchers register with a handle and a
password. They store files that their browser has already encrypted with
AES-GCM. They hand out the AES key wrapped for a recipient's Kyber-512 public
key, either to one user (a direct share with a short share code) or to a group
(one ciphertext per member). This project models, in Dafny:

- the SQLAlchemy tables of `backend/models.py` (users, file metadata, direct
  shares, history, groups, memberships, group grants, user settings) together
  with the constraints the schema declares and the cascades it configures;
- every route handler of `backend/routes/auth_routes.py`,
  `backend/routes/files_routes.py`, `backend/routes/group_routes.py` and
  `backend/routes/settings_routes.py`: status codes, error paths, the rows they
  add, change or delete, and the JSON they return.

## Layout

| file | module | contents |
|---|---|---|
| `wrappers.dfy` | `Wrappers` | `Option`, the shape of a nullable column or a missing JSON key |
| `http.dfy` | `Http` | the status codes the handlers answer with |
| `text.dfy` | `Text` | Python's `str.strip()`, SQLite's ASCII `lower()`, and `LIKE` with `%` and `_` |
| `query.dfy` | `Query` | ORM query semantics: `.first()`, `.filter()`, `order_by(... desc())`, `.limit()`, autoincrement keys |
| `models.dfy` | `Models` | row datatypes, column defaults, `to_dict` projections, schema constraints, cascades |
| `store.dfy` | `Store` | class `Ledger` (the tables behind `db.session` and the id counters) and class `Disk` (the upload directory) |
| `auth_routes.dfy` | `AuthRoutes` | register, login, logout with the revoked-token set, Kyber key update, user search, public-key lookup |
| `files_routes.dfy` | `FileRoutes` | upload, download, direct shares, listings, revocation, history |
| `group_routes.dfy` | `GroupRoutes` | the group handlers |
| `settings_routes.dfy` | `SettingsRoutes` | reading and updating preferences |

## How the model is built

- Each table is a sequence of rows in insertion order. Each table has a counter
  that hands out the next id and never hands out an id twice (SQLite, the
  default database, can reuse one; see "Left out"). `Keyed(table, key, next)` says the
  ids ascend and stay below the counter, so "newest first" (`created_at desc`)
  is "descending id". This assumes timestamps strictly increase with insertion.
- A handler that changes the database is a method on the `Ledger`. Its
  `modifies` clause names only the tables the handler touches. Its
  postcondition gives the exact new contents of each table, in terms of the
  old contents and of a status function. The status function is a pure
  function with the handler's branches in source order.
- The schema invariants are value-level predicates in `Models`: unique handles,
  unique share codes, one membership per (group, user), one grant per
  (file, group), and one settings row per user. Two more rules appear nowhere
  in the schema, but every handler keeps them: every group owner holds an
  admin membership row, and every direct share or group grant was made by the
  owner of the file. Each handler has a `...KeepsInvariants` lemma. The lemma
  proves that the handler's exact state change preserves every invariant on
  the tables it touches. The handler methods do not restate the conjunction
  of all invariants: proving it on the heap for every handler at once costs
  more than the proofs are worth, and the lemmas over the same values state
  the same thing.
- Read-only handlers without loops are functions over the tables. The four
  group handlers that build their reply in a `for` loop (`list_groups`,
  `get_group`, `list_group_shared_files`, `get_group_pubkeys`) are read-only
  methods with loops. Each is proved against a specification function.
- Inputs the handlers take from outside become parameters:
  - the caller's id (from the JWT);
  - fresh uuids;
  - the SHA-256 digest function;
  - the bcrypt password check;
  - the password hash;
  - the upload bytes.
- Where the documented behaviour and the code differ, the model follows the code:
  - a download is allowed only to the owner or to a direct-share recipient. Group members are not allowed, although group grants exist (`backend/routes/files_routes.py:109-114`);
  - the group shared-files listing goes through membership rows only. An owner sees their groups' grants because of their admin row (`backend/routes/group_routes.py:313-321`);
  - `myRole` takes the stored membership role first. It falls back to `admin` or `member` only when there is no row (`backend/routes/group_routes.py:43`, `114`).
- Some members only serve other proofs and model nothing of their own, so they have no row in the table below: `Text.StartsWithCons`, `Models.MembershipOfAppend`, `Models.AccessOfAppend`, `Models.IndexOf`, and the members of `Query`, the ORM query semantics the handler contracts are stated with.
- A JSON body is a record of `Option`s. `None` is a missing key. For settings,
  a present key is `Some(v)`, and `v` itself may be `None` for a JSON null.

## Model

| member | source | states |
|---|---|---|
| `Text.Trim` | backend/routes/auth_routes.py:39-40 | `.strip()` leaves no leading or trailing whitespace and is empty exactly when the input is all whitespace |
| `Text.Lower` | backend/routes/auth_routes.py:151-152 | SQLite `lower()` keeps the length and folds each character by ASCII case |
| `Text.PercentMatchesAll` | backend/routes/auth_routes.py:152 | the pattern `%` matches every handle |
| `Text.LikePrefix` | backend/routes/auth_routes.py:152 | without wildcards in `q`, `LIKE 'q%'` holds exactly when the text starts with `q`, ignoring ASCII case |
| `Text.LikeLeadingPercent` | backend/routes/auth_routes.py:152 | a leading `%` matches exactly when the rest of the pattern matches some suffix of the text |
| `Text.SearchPatternIsSubstring` | backend/routes/auth_routes.py:152 | without wildcards in `q`, `ILIKE '%q%'` is case-insensitive substring search |
| `Text.UnderscoreMatchesAnyCharacter` | backend/routes/auth_routes.py:152 | a leading `_` in a pattern consumes exactly one character of the text, whatever it is, and never matches the empty text |
| `Text.UnderscoreIsAWildcard` | backend/routes/auth_routes.py:152 | a `_` typed into the search box matches any character: `a_c` finds `ABC` although `ABC` does not contain `a_c` |
| `Models.KyberFlagIsKeyPresence` | backend/models.py:34-41 | `hasKyberKey` in `User.to_dict` and `GroupMembership.to_dict` is true exactly when a key is stored; the membership dict shows the member's handle |
| `Models.DeleteGroupCascade` | backend/models.py:143-146 | deleting a group removes exactly that group, its memberships and its grants, and keeps every other row |
| `Models.DeleteGroupCascadeKeepsInvariants` | backend/models.py:143-146 | the group cascade keeps every group-table invariant and leaves no membership of the deleted group |
| `Models.DeleteFileCascade` | backend/models.py:59-60 | deleting a file removes exactly that file and its direct shares |
| `Models.DeleteFileCascadeLeavesNoOrphans` | backend/models.py:59-60 | after the file cascade, every remaining share still points at a file its sender owns |
| `Models.DeleteFileCascadeKeepsUnrelatedGrants` | backend/models.py:186-195 | the file cascade does not reach group grants: they stay valid exactly when none names the deleted file |
| `Models.MembershipOfUnique` | backend/models.py:171 | under the (group, user) unique constraint, the lookup finds the one membership row of that pair |
| `Models.AdminRowFound` | backend/models.py:166-171 | with unique memberships, an admin row for (group, user) is the row the lookup returns |
| `AuthRoutes.Blocklist.IsTokenRevoked` | backend/routes/auth_routes.py:17-21 | a token is refused exactly when its `jti` is in the revoked set |
| `AuthRoutes.Blocklist.Logout` | backend/routes/auth_routes.py:95-101 | logout answers 200 and adds the current `jti` to the revoked set; a later check refuses it |
| `AuthRoutes.Revoke` | backend/routes/auth_routes.py:100 | adding a `jti` keeps every earlier revoked token and adds nothing else |
| `AuthRoutes.LogoutIdempotent` | backend/routes/auth_routes.py:95-101 | logging out twice revokes what logging out once did, and never un-revokes another token |
| `AuthRoutes.RegisterStatus` | backend/routes/auth_routes.py:38-50 | 400 exactly for an empty trimmed handle or a trimmed password shorter than 6; 409 exactly for a valid request whose handle is taken; otherwise 201 |
| `AuthRoutes.Register` | backend/routes/auth_routes.py:32-67 | on 201 exactly one user is appended with the next id, the trimmed handle, the hash, the optional key and role `Researcher`, and the reply is its `to_dict`; on an error nothing changes |
| `AuthRoutes.RegisterKeepsInvariants` | backend/models.py:21-22 | registration keeps user ids ascending and handles unique |
| `AuthRoutes.Login` | backend/routes/auth_routes.py:70-92 | 400 exactly for an empty trimmed field; 200 exactly for a stored user with that handle whose hash accepts the password, replying with that user's `to_dict`; otherwise 401 |
| `AuthRoutes.LoginRefusalsAgree` | backend/routes/auth_routes.py:83-85 | an unknown handle and a wrong password give the same 401 reply, so the reply does not reveal which handles exist |
| `AuthRoutes.RegisteredUserCanLogIn` | backend/routes/auth_routes.py:49-60 | after a successful registration, logging in with the same credentials succeeds and returns the new user |
| `AuthRoutes.UpdateKyberKeyStatus` | backend/routes/auth_routes.py:122-130 | 404 exactly when the caller's row is gone; 400 exactly for a missing or empty key; otherwise 200 |
| `AuthRoutes.UpdateKyberKey` | backend/routes/auth_routes.py:115-135 | on 200 only the caller's key column changes, and the reply is the updated `to_dict` |
| `AuthRoutes.UpdateKyberKeyIsPublished` | backend/routes/auth_routes.py:132 | after an update, the public-key lookup for the caller's handle serves the new key, and the users table keeps its invariants |
| `AuthRoutes.SearchCandidates` | backend/routes/auth_routes.py:151-154 | the users the query selects are exactly those whose handle matches `%q%` and who are not the caller |
| `AuthRoutes.SearchUsers` | backend/routes/auth_routes.py:138-160 | an empty trimmed query answers `[]`; otherwise the first 20 candidates in order, each as (id, handle, key present) |
| `AuthRoutes.SearchIsSubstringMatch` | backend/routes/auth_routes.py:146-154 | for a query without wildcards, every hit contains the query ignoring ASCII case and is not the caller; when at most 20 users match, every such user is listed |
| `AuthRoutes.GetPubkey` | backend/routes/auth_routes.py:163-179 | 200 exactly when a user has that handle and a non-empty key, replying with that key; otherwise 404 |
| `FileRoutes.StoragePathInjective` | backend/routes/files_routes.py:47-51 | distinct uuids get distinct storage paths `xx/uuid.enc` |
| `FileRoutes.UploadedRow` | backend/routes/files_routes.py:40-76 | the metadata row carries the next id, the caller as owner, the sent `fileName` (else the upload's own non-empty file name, else `unnamed`), the sent `originalSize` (else 0), `iv` (else empty) and `contentType` (else `application/octet-stream`), the stored byte count as encrypted size, the uuid's storage path, and the client's non-empty hash or else the server digest |
| `FileRoutes.UploadFile` | backend/routes/files_routes.py:22-91 | without a file part: 400 and nothing changes; otherwise 201, the blob is written under the row's path, exactly one file row and one `encrypt` history row are appended, and the reply is the new row's `to_dict` (no storage path, no iv) |
| `FileRoutes.UploadKeepsInvariants` | backend/routes/files_routes.py:67-88 | an upload keeps file and history ids ascending and keeps every share and grant pointing at a file its sharer owns |
| `FileRoutes.HasShareFor` | backend/routes/files_routes.py:109-114 | the recipient check holds exactly when a direct share of this file names the caller as recipient |
| `FileRoutes.DownloadFile` | backend/routes/files_routes.py:96-125 | 404 for an unknown file; 403 exactly when the caller is neither owner nor direct recipient; 200 exactly when allowed and the blob exists, returning the blob as `<name>.enc` |
| `FileRoutes.ShareCodeFormat` | backend/routes/files_routes.py:160 | a share code is 8 upper-case hexadecimal characters |
| `FileRoutes.ShareFileStatus` | backend/routes/files_routes.py:130-184 | 400 exactly for a missing field; 404 exactly, once the fields are present, for a missing file, a file of someone else or an unknown recipient; 201 exactly when the caller owns the file, the recipient exists and the code is unused; otherwise 500 |
| `FileRoutes.ShareFile` | backend/routes/files_routes.py:160-184 | on 201 exactly one share and one `share` history row are appended; otherwise nothing changes |
| `FileRoutes.ShareFileKeepsInvariants` | backend/models.py:83 | a new share keeps share ids ascending, share codes unique and every sender the file's owner |
| `FileRoutes.RepeatedShareIsAccepted` | backend/routes/files_routes.py:159-170 | sharing the same file with the same recipient again is accepted under a fresh code; no uniqueness on (file, recipient) stops it |
| `FileRoutes.ListShared` | backend/routes/files_routes.py:189-196 | exactly the caller's sent shares, newest first |
| `FileRoutes.ListReceived` | backend/routes/files_routes.py:201-208 | exactly the caller's received shares, newest first |
| `FileRoutes.ListMyFiles` | backend/routes/files_routes.py:304-311 | exactly the caller's files, newest first |
| `FileRoutes.GetShareByCode` | backend/routes/files_routes.py:213-234 | 404 exactly for an unknown code; 403 exactly when the caller is neither sender nor recipient; 200 returns that share with the file's iv and sizes |
| `FileRoutes.ShareCodeIdentifiesGrant` | backend/routes/files_routes.py:213-234 | with unique codes, the sender or recipient looking up a share's code gets that very share |
| `FileRoutes.RevokeStatus` | backend/routes/files_routes.py:239-248 | 200 exactly when the share exists and the caller sent it; otherwise 404 |
| `FileRoutes.RevokeShare` | backend/routes/files_routes.py:239-248 | on 200 exactly that share row is deleted; otherwise nothing changes |
| `FileRoutes.RevokeKeepsInvariants` | backend/routes/files_routes.py:246-247 | deleting a share keeps ids ascending, codes unique and senders owners |
| `FileRoutes.RevokeIsFinal` | backend/routes/files_routes.py:239-248 | after a revoke the share is gone and every other share stays; revoking it again answers 404 |
| `FileRoutes.GetHistory` | backend/routes/files_routes.py:253-260 | exactly the caller's newest 100 entries (all of them when there are at most 100), all the caller's own, newest first, a prefix of the caller's newest-first entries |
| `FileRoutes.NewHistory` | backend/routes/files_routes.py:263-278 | the new entry carries the next id, the caller, and each sent field (`name`, both sizes, `type`, `operation`) as sent, else the defaults `Unnamed`, 0, 0, `unknown` and `encrypt` |
| `FileRoutes.AddHistory` | backend/routes/files_routes.py:263-278 | answers 201 and appends exactly that entry |
| `FileRoutes.AddHistoryKeepsInvariants` | backend/routes/files_routes.py:263-278 | the appended entry keeps history ids ascending and heads the caller's newest-first history |
| `FileRoutes.OwnHistoryItem` | backend/routes/files_routes.py:285-286 | finds a history row exactly when one has that id and belongs to the caller |
| `FileRoutes.DeleteHistoryItem` | backend/routes/files_routes.py:281-290 | 404 and no change unless the item is the caller's; otherwise 200 and exactly that row is deleted |
| `FileRoutes.DeleteHistoryItemKeepsOthers` | backend/routes/files_routes.py:281-290 | the delete removes only that id and keeps ids ascending |
| `FileRoutes.ClearedHistory` | backend/routes/files_routes.py:296-297 | the bulk delete keeps exactly the other users' entries |
| `FileRoutes.ClearHistory` | backend/routes/files_routes.py:293-299 | answers 200 and the table becomes the cleared history |
| `FileRoutes.ClearHistoryKeepsInvariants` | backend/routes/files_routes.py:293-299 | clearing keeps ids ascending, and the caller's history listing is then empty |
| `GroupRoutes.ViewStatus` | backend/routes/group_routes.py:101-110 | 404 exactly for an unknown group; 200 exactly when the caller is a member or the owner; otherwise 403 |
| `GroupRoutes.RolesAgree` | backend/routes/group_routes.py:40-43 | the role in the listing and the role in the detail view agree; with the owner-is-admin invariant, the owner is always listed as admin |
| `GroupRoutes.OwnedGroups` | backend/routes/group_routes.py:26 | exactly the groups the caller owns |
| `GroupRoutes.JoinedGroupIds` | backend/routes/group_routes.py:30-31 | exactly the groups the caller has a membership in and does not own |
| `GroupRoutes.JoinedGroups` | backend/routes/group_routes.py:32 | exactly the group rows whose id is joined |
| `GroupRoutes.ListedGroupsSpec` | backend/routes/group_routes.py:19-46 | the listing holds exactly the groups the caller owns or belongs to, and never lists an owned group twice |
| `GroupRoutes.ListGroups` | backend/routes/group_routes.py:19-46 | the loop builds one summary per listed group, in order |
| `GroupRoutes.CreateGroupStatus` | backend/routes/group_routes.py:62-69 | 201 exactly when the trimmed name is non-empty and at most 200 characters long; otherwise 400 |
| `GroupRoutes.CreateGroupKeepsInvariants` | backend/routes/group_routes.py:71-86 | the new group with its owner's admin membership keeps every group-table invariant, including the owner-is-admin rule |
| `GroupRoutes.CreateGroup` | backend/routes/group_routes.py:51-91 | on 201 exactly one group and one admin membership for the caller are appended; on 400 nothing changes |
| `GroupRoutes.CiphertextFor` | backend/routes/group_routes.py:123-127 | a member's ciphertext is found exactly when the stored JSON object has that member's key |
| `GroupRoutes.FileInfoOf` | backend/routes/group_routes.py:129-132 | the file block is present exactly when the file row still exists, and holds that row's iv, content type and size |
| `GroupRoutes.SharedFileEntries` | backend/routes/group_routes.py:118-134 | the loop builds one entry per grant, in order |
| `GroupRoutes.MemberRows` | backend/routes/group_routes.py:115 | exactly the membership rows of the group |
| `GroupRoutes.GrantsOf` | backend/routes/group_routes.py:118 | exactly the grants of the group |
| `GroupRoutes.MemberDicts` | backend/routes/group_routes.py:115 | one dict per membership row of the group, each with that row's id, user and role |
| `GroupRoutes.GetGroup` | backend/routes/group_routes.py:96-136 | the status is the view status; on 200 the reply holds the group summary with the caller's role, every member, and one entry per grant |
| `GroupRoutes.ParseRole` | backend/routes/group_routes.py:164-170 | no role means `member`; otherwise only `admin` and `member` are accepted, as sent |
| `GroupRoutes.AddMemberStatus` | backend/routes/group_routes.py:141-191 | the status is one of 404, 403, 400, 409, 201; 403 exactly for an existing group and a caller neither admin nor owner; 400 exactly when such a caller sends an empty handle or a bad role; 404 exactly for a missing group or, past those checks, an unknown handle; 409 exactly when the user is already a member; 201 exactly otherwise |
| `GroupRoutes.AddMembershipKeepsInvariants` | backend/models.py:171 | a membership for an existing group and a new (group, user) pair keeps every group-table invariant |
| `GroupRoutes.AddMemberKeepsInvariants` | backend/routes/group_routes.py:183-189 | the row `add_member` appends keeps every group-table invariant |
| `GroupRoutes.AddMember` | backend/routes/group_routes.py:141-191 | on 201 exactly one membership with the parsed role is appended and returned as a dict; otherwise nothing changes |
| `GroupRoutes.RemoveMemberStatus` | backend/routes/group_routes.py:196-228 | the status is one of 404, 400, 403, 200; removing the owner is exactly the 400 case; 403 exactly for an existing group where a caller neither admin, owner nor the member themselves removes someone else; 200 exactly when the membership exists and the holder, an admin or the owner removes it; 404 otherwise |
| `GroupRoutes.RemoveMembershipKeepsInvariants` | backend/routes/group_routes.py:220-227 | deleting a membership that is not the owner's keeps every group-table invariant |
| `GroupRoutes.RemoveMemberKeepsInvariants` | backend/routes/group_routes.py:196-228 | the row `remove_member` deletes keeps every group-table invariant |
| `GroupRoutes.RemoveMember` | backend/routes/group_routes.py:196-228 | on 200 exactly that membership row is deleted; otherwise nothing changes |
| `GroupRoutes.ShareWithGroupStatus` | backend/routes/group_routes.py:233-298 | the status is one of 404, 403, 400, 200, 201; a refusal of the view check is passed through; 400 exactly for a viewer without a file id or ciphertexts; 404 exactly for a viewer sharing a file they do not own; 200 exactly when a grant for the pair exists and 201 exactly when none does |
| `GroupRoutes.AddGrantKeepsInvariants` | backend/models.py:198 | a grant by the file's owner, for a new (file, group) pair, keeps every invariant |
| `GroupRoutes.ReplacePayloadKeepsInvariants` | backend/routes/group_routes.py:269-276 | replacing a grant's ciphertexts keeps every invariant |
| `GroupRoutes.ShareFileWithGroupKeepsInvariants` | backend/routes/group_routes.py:269-276 | the replace branch keeps every invariant |
| `GroupRoutes.ShareFileWithGroupInsertKeepsInvariants` | backend/routes/group_routes.py:278-296 | the insert branch keeps every invariant, and the history row keeps history ids ascending |
| `GroupRoutes.ShareFileWithGroup` | backend/routes/group_routes.py:233-298 | 200 replaces only the payload of the existing grant; 201 appends one grant and one `group-share` history row; otherwise nothing changes |
| `GroupRoutes.CallerGroupIds` | backend/routes/group_routes.py:313-314 | exactly the ids of the groups the caller has a membership row in |
| `GroupRoutes.VisibleGrants` | backend/routes/group_routes.py:319-321 | exactly the grants of groups the caller has a membership row in |
| `GroupRoutes.ListGroupSharedFiles` | backend/routes/group_routes.py:303-339 | the loop builds one entry per visible grant, in order |
| `GroupRoutes.GrantVisibility` | backend/routes/group_routes.py:303-339 | owners see their groups' grants through their admin row; a user without a membership row never sees a group's grants |
| `GroupRoutes.KeyEntry` | backend/routes/group_routes.py:365-370 | a member yields an entry exactly when their user row has a non-empty key, and the entry carries that key |
| `GroupRoutes.KeyEntries` | backend/routes/group_routes.py:362-371 | exactly the entries of the members with a key, at most one per member |
| `GroupRoutes.GetGroupPubkeys` | backend/routes/group_routes.py:344-372 | the status is the view status; on 200 the reply is the key entries of the group's members |
| `GroupRoutes.PubkeysComeFromMembers` | backend/routes/group_routes.py:344-372 | every published key is non-empty and is the stored key of a member of that group |
| `GroupRoutes.DeleteGroupStatus` | backend/routes/group_routes.py:377-390 | the status is one of 404, 200, 403; 404 exactly for an unknown group; 200 exactly when the caller owns it; otherwise 403 |
| `GroupRoutes.DeleteGroupKeepsInvariants` | backend/routes/group_routes.py:388-389 | the delete cascade keeps every group-table invariant, including that every grant comes from a file owner |
| `GroupRoutes.DeleteGroup` | backend/routes/group_routes.py:377-390 | on 200 the three group tables become the cascade of the group; otherwise nothing changes |
| `SettingsRoutes.OrText` | backend/routes/settings_routes.py:53-54 | `stored or default` on a text column: a non-empty stored value is kept, otherwise the default |
| `SettingsRoutes.OrFlag` | backend/routes/settings_routes.py:55-60 | a stored flag is kept, even `False`; null falls back to the default |
| `SettingsRoutes.Merge` | backend/routes/settings_routes.py:53-60 | per column: a sent value is stored, a sent null is stored as null, an absent key keeps a non-empty (text) or non-null (flag) stored value and otherwise takes the `DEFAULTS` value; a body without nulls leaves no column null; an empty body settles every column and leaves a settled row unchanged |
| `SettingsRoutes.MergeIdempotent` | backend/routes/settings_routes.py:53-60 | sending the same body twice stores the same values as sending it once |
| `SettingsRoutes.GetSettings` | backend/routes/settings_routes.py:23-39 | without a row the reply is `DEFAULTS`; with the one row per user it is that row |
| `SettingsRoutes.UpdateSettings` | backend/routes/settings_routes.py:42-63 | the caller's row is merged in place, or appended with the merged values and every remaining null replaced by the column default; the next id moves only when a row is added; the reply is the row as committed |
| `SettingsRoutes.UpdateKeepsInvariants` | backend/models.py:217 | an update never adds a second settings row for a user and keeps ids ascending |
| `SettingsRoutes.Inserted` | backend/models.py:218-225 | column by column, a row INSERTed with null attributes keeps every set column and gets the column's default for every null one; no column stays null |
| `SettingsRoutes.GetAfterUpdate` | backend/routes/settings_routes.py:42-63 | a GET after a PUT answers what the PUT answered, for a new row and for an existing one |
| `SettingsRoutes.UpdateLeavesOthers` | backend/routes/settings_routes.py:47-51 | a PUT changes nothing any other user reads |
| `SettingsRoutes.PutThenGet` | backend/routes/settings_routes.py:42-63 | column by column, a later GET returns a sent value as sent; a sent null as null on an existing row and as the column default on a first PUT; an absent key as the stored value or the default; an empty first PUT stores exactly `DEFAULTS` |
| `SettingsRoutes.RepeatedNullPutDiffers` | backend/routes/settings_routes.py:47-62 | a first PUT `{"algorithm": null}` reads back as `AES-256-GCM`, the same PUT repeated reads back as null |
| `SettingsRoutes.UpdateIdempotent` | backend/routes/settings_routes.py:42-63 | once the caller has a row, or when the body holds no null, repeating a PUT changes nothing a GET can see |

## Left out

- Password hashing (bcrypt) and JWT issuing and checking are outside the model. The password hash and the hash check are parameters. The caller's id is a parameter. Token expiry is not modelled.
- Fresh uuids, the SHA-256 digest, and the upload's bytes and file name are parameters. The file system is a map from storage path to bytes. Directory creation and I/O failures are not modelled.
- Timestamps (`created_at`, `joined_at`, `timestamp`) are not modelled. Newest-first ordering is modelled as descending id, which matches only if timestamps increase with insertion.
- Display fields that `to_dict` joins from other tables are left out: `fileName`, `senderName`, `recipientName`, `groupName`, `ownerName` and `memberCount`. The modelled projections keep ids, handles, roles and the key-present flag.
- JSON bodies whose values have the wrong type are not modelled: every body here is a record of optional values of the column's type. In the source the outcome depends on the value. `int()` truncates a float such as `12.7` and parses a numeric string such as `"12"` in `add_history` (`backend/routes/files_routes.py:271-272`); a number sent for a `String` column is stored as text; a top-level array or a value `int()` or `.strip()` cannot take answers 500. JSON nulls in the `add_history` body are not representable either: `{"name": null}` breaks the `NOT NULL` `name` column (`backend/models.py:112`) and answers 500, while `{"type": null}` or `{"operation": null}` is left out of the INSERT, so the column default is stored, as for an absent key.
- Ids are never reused: each table's counter only grows, as a database sequence would. On SQLite, the default database (`backend/config.py:14-17`), the primary keys are plain rowids without `AUTOINCREMENT`, so a new row gets the largest id present plus one and reuses the id of a deleted newest row (after `revoke_share`, `delete_history_item`, `clear_history`, `remove_member` or `delete_group`). With SQLite a stale share id can then name a newer share, and a second revoke of that id removes it. The model does not capture this. Row order, the ascending-id invariants and every status function are unaffected, because a reused id still exceeds every id present.
- `GroupRoutes.AddMemberStatus`: a JSON `null` role is not representable; the model reads the role as absent (`member`), while the source answers 400 because `None` is not a valid role (`backend/routes/group_routes.py:164-169`).
- `Models.DeleteFileCascade` removes the file and its direct shares only, as the schema configures. The source's `DELETE` of a file that still has a group grant fails on the grant's `NOT NULL` file id; the model does not model that failure, and `Models.DeleteFileCascadeKeepsUnrelatedGrants` shows such a grant would be left dangling.
- `FileRoutes.ListMyFiles` returns the rows it selects; the source maps `to_dict` over them, which is `Models.FileToDict` on each row.
- The `session_check` handler (`backend/routes/auth_routes.py:104-112`) is not modelled.
- Concurrency is not modelled. Each request runs alone and commits atomically.
- `GroupRoutes.CreateGroup`, `GroupRoutes.AddMember`, `GroupRoutes.RemoveMember`, `GroupRoutes.ShareFileWithGroup`, `GroupRoutes.DeleteGroup`, `FileRoutes.UploadFile`, `FileRoutes.ShareFile`, `FileRoutes.RevokeShare`, `FileRoutes.DeleteHistoryItem`, `FileRoutes.ClearHistory`, `FileRoutes.AddHistory`, `AuthRoutes.Register`, `AuthRoutes.UpdateKyberKey` and `SettingsRoutes.UpdateSettings` do not state `Ledger.Valid()` before and after. Each states the exact new table contents. The matching `...KeepsInvariants` lemma proves that the invariants hold after exactly that change.
- The row order of the search query is taken to be storage order, because the query has no `order_by`.
- The reply of `share_file_with_group` is the whole grant row, including every member's ciphertext (`backend/models.py:208`). The model returns that row as it is and proves nothing about who may read the ciphertexts.
- Column widths such as `String(120)` are not checked. SQLite does not enforce them.
