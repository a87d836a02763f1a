/**
 * The account endpoints (backend/routes/auth_routes.py): registration,
 * login, the logout blocklist, the Kyber public key of a user, and the
 * researcher search.
 *
 * Password hashing is not modelled: registration receives the hash bcrypt
 * produced, and login receives bcrypt's check as an opaque predicate. Tokens
 * are not modelled either; the caller's id is a parameter.
 */
module AuthRoutes {
  import opened Wrappers
  import opened Http
  import opened Text
  import opened Query
  import opened Models
  import opened Store

  const MinPasswordLength := 6
  const SearchLimit := 20

  // ---------------------------------------------------------------- revoked tokens

  /** The process-wide set of token ids that logged out. */
  class Blocklist {
    var revoked: set<string>

    constructor ()
      ensures revoked == {}
    {
      revoked := {};
    }

    /** The blocklist callback: a token is refused exactly when its id logged out. */
    function IsTokenRevoked(jti: string): (r: bool)
      reads this
      ensures r <==> jti in revoked
    {
      jti in revoked
    }

    /** `logout`: the token's id joins the set; logging out twice leaves the set as the first time. */
    method Logout(jti: string) returns (status: Status)
      modifies this
      ensures status == Ok
      ensures revoked == Revoke(old(revoked), jti)
      ensures IsTokenRevoked(jti)
    {
      revoked := revoked + {jti};
      status := Ok;
    }
  }

  /** The blocklist after one more logout. */
  function Revoke(revoked: set<string>, jti: string): (r: set<string>)
    ensures jti in r && revoked <= r
    ensures forall t :: t in r && t != jti ==> t in revoked
  {
    revoked + {jti}
  }

  /** A second logout with the same token changes nothing, and logouts never un-revoke a token. */
  lemma LogoutIdempotent(revoked: set<string>, jti: string, other: string)
    ensures Revoke(Revoke(revoked, jti), jti) == Revoke(revoked, jti)
    ensures other in revoked ==> other in Revoke(revoked, jti)
  {
    var once := Revoke(revoked, jti);
    var twice := Revoke(once, jti);
    assert forall t :: t in twice ==> t in once;
  }

  // ---------------------------------------------------------------- register

  /** `(data.get(key) or '').strip()`. */
  function Field(v: Option<string>): string
  {
    Trim(v.GetOr(""))
  }

  /** The JSON body of `register` and `login`; `None` marks an absent or null key. */
  datatype Credentials = Credentials(researcherId: Option<string>, password: Option<string>)

  /**
   * The status `register` answers with: 400 for an empty trimmed handle or
   * password, 400 for a trimmed password under six characters, 409 for a
   * taken handle, else 201.
   */
  function RegisterStatus(users: seq<User>, req: Credentials): (s: Status)
    ensures s == BadRequest <==> Field(req.researcherId) == [] || |Field(req.password)| < MinPasswordLength
    ensures s == Conflict <==>
      Field(req.researcherId) != [] && |Field(req.password)| >= MinPasswordLength
      && exists u :: u in users && u.researcherId == Field(req.researcherId)
    ensures s == Created || s == BadRequest || s == Conflict
  {
    var rid, pw := Field(req.researcherId), Field(req.password);
    if rid == [] || pw == [] then BadRequest
    else if |pw| < MinPasswordLength then BadRequest
    else match UserByHandle(users, rid)
      case Some(i) =>
        assert users[i] in users;
        Conflict
      case None => Created
  }

  /** The row `register` inserts; the public key is stored exactly as sent, the role takes its default. */
  function NewUser(id: int, req: Credentials, passwordHash: string, kyberPublicKey: Option<string>): User
  {
    User(id, Field(req.researcherId), passwordHash, kyberPublicKey, DefaultUserRole)
  }

  /**
   * `register`: on 201 exactly one user is appended with the trimmed handle,
   * the hash of the trimmed password and the optional key; otherwise the
   * users table is unchanged.
   */
  method Register(db: Ledger, req: Credentials, passwordHash: string, kyberPublicKey: Option<string>)
    returns (status: Status, user: Option<UserDict>)
    modifies db`users, db`nextUserId
    ensures status == RegisterStatus(old(db.users), req)
    ensures status != Created ==> db.users == old(db.users) && db.nextUserId == old(db.nextUserId) && user == None
    ensures status == Created ==>
      var u := NewUser(old(db.nextUserId), req, passwordHash, kyberPublicKey);
      && db.users == old(db.users) + [u] && db.nextUserId == old(db.nextUserId) + 1
      && user == Some(UserToDict(u))
  {
    status := RegisterStatus(db.users, req);
    if status != Created {
      return status, None;
    }
    var u := NewUser(db.nextUserId, req, passwordHash, kyberPublicKey);
    db.users := db.users + [u];
    db.nextUserId := db.nextUserId + 1;
    user := Some(UserToDict(u));
  }

  /** Registration keeps the users table an autoincrement table with unique handles. */
  lemma RegisterKeepsInvariants(users: seq<User>, nu: int, req: Credentials, passwordHash: string, kyberPublicKey: Option<string>)
    requires Keyed(users, UserKey, nu) && UniqueHandles(users)
    requires RegisterStatus(users, req) == Created
    ensures var r := users + [NewUser(nu, req, passwordHash, kyberPublicKey)];
      Keyed(r, UserKey, nu + 1) && UniqueHandles(r)
  {
    var u := NewUser(nu, req, passwordHash, kyberPublicKey);
    var r := users + [u];
    AppendKeyed(users, u, UserKey, nu);
    forall i, j | 0 <= i < j < |r| ensures r[i].researcherId != r[j].researcherId {
      if j == |users| {
        assert r[i] == users[i] && users[i] in users;
      }
    }
  }

  // ---------------------------------------------------------------- login

  /**
   * `login`: 400 for an empty trimmed handle or password; the same 401 for an
   * unknown handle and for a password the stored hash rejects; else 200 with
   * the user. `checkPassword(password, hash)` stands for bcrypt's check.
   */
  function Login(users: seq<User>, req: Credentials, checkPassword: (string, string) -> bool)
    : (r: (Status, Option<UserDict>))
    ensures r.0 == Ok <==> r.1.Some?
    ensures r.0 == BadRequest <==> Field(req.researcherId) == [] || Field(req.password) == []
    ensures r.0 == Ok ==>
      exists u :: u in users && u.researcherId == Field(req.researcherId)
        && checkPassword(Field(req.password), u.passwordHash) && r.1.value == UserToDict(u)
    ensures Field(req.researcherId) != [] && Field(req.password) != [] && UserByHandle(users, Field(req.researcherId)).Some?
      && checkPassword(Field(req.password), users[UserByHandle(users, Field(req.researcherId)).value].passwordHash)
      ==> r == (Ok, Some(UserToDict(users[UserByHandle(users, Field(req.researcherId)).value])))
    ensures r.0 == Ok || r.0 == BadRequest || r.0 == Unauthorized
  {
    var rid, pw := Field(req.researcherId), Field(req.password);
    if rid == [] || pw == [] then (BadRequest, None)
    else match UserByHandle(users, rid)
      case None => (Unauthorized, None)
      case Some(i) =>
        if !checkPassword(pw, users[i].passwordHash) then (Unauthorized, None)
        else
          assert users[i] in users;
          (Ok, Some(UserToDict(users[i])))
  }

  /** An unknown handle and a wrong password get the same answer, so login does not reveal which handles exist. */
  lemma LoginRefusalsAgree(users: seq<User>, unknown: Credentials, wrong: Credentials, checkPassword: (string, string) -> bool)
    requires Field(unknown.password) != [] && Field(unknown.researcherId) != []
    requires forall u :: u in users ==> u.researcherId != Field(unknown.researcherId)
    requires Field(wrong.password) != [] && Field(wrong.researcherId) != [] && UserByHandle(users, Field(wrong.researcherId)).Some?
    requires !checkPassword(Field(wrong.password), users[UserByHandle(users, Field(wrong.researcherId)).value].passwordHash)
    ensures Login(users, unknown, checkPassword) == Login(users, wrong, checkPassword) == (Unauthorized, None)
  {
  }

  /**
   * With unique handles, whoever just registered can log in with the same
   * handle and password, as long as bcrypt's check accepts the hash it made.
   */
  lemma RegisteredUserCanLogIn(users: seq<User>, nu: int, req: Credentials, passwordHash: string,
                               kyberPublicKey: Option<string>, checkPassword: (string, string) -> bool)
    requires RegisterStatus(users, req) == Created
    requires checkPassword(Field(req.password), passwordHash)
    ensures var u := NewUser(nu, req, passwordHash, kyberPublicKey);
      Login(users + [u], req, checkPassword) == (Ok, Some(UserToDict(u)))
  {
    var u := NewUser(nu, req, passwordHash, kyberPublicKey);
    var r := users + [u];
    var k := UserByHandle(r, Field(req.researcherId));
    assert r[|users|] == u;
  }

  // ---------------------------------------------------------------- update_kyber_key

  /** 404 when the caller's account is gone, 400 for an absent or empty key, else 200. */
  function UpdateKyberKeyStatus(users: seq<User>, caller: int, pk: Option<string>): (s: Status)
    ensures s == NotFound <==> UserById(users, caller).None?
    ensures s == BadRequest <==> UserById(users, caller).Some? && (pk.None? || pk.value == "")
    ensures s == Ok || s == NotFound || s == BadRequest
  {
    if UserById(users, caller).None? then NotFound
    else if pk.None? || pk.value == "" then BadRequest
    else Ok
  }

  /** `update_kyber_key`: on 200 the caller's stored key is replaced, whatever it was; nothing else changes. */
  method UpdateKyberKey(db: Ledger, caller: int, pk: Option<string>) returns (status: Status, user: Option<UserDict>)
    modifies db`users
    ensures status == UpdateKyberKeyStatus(old(db.users), caller, pk)
    ensures status != Ok ==> db.users == old(db.users) && user == None
    ensures status == Ok ==>
      var i := UserById(old(db.users), caller).value;
      && db.users == old(db.users)[i := old(db.users)[i].(kyberPublicKey := pk)]
      && user == Some(UserToDict(db.users[i]))
  {
    status := UpdateKyberKeyStatus(db.users, caller, pk);
    if status != Ok {
      return status, None;
    }
    var i := UserById(db.users, caller).value;
    db.users := db.users[i := db.users[i].(kyberPublicKey := pk)];
    user := Some(UserToDict(db.users[i]));
  }

  /**
   * Replacing a key keeps the users table's invariants, and afterwards
   * `get_pubkey` for the caller's handle serves exactly the new key.
   */
  lemma UpdateKyberKeyIsPublished(users: seq<User>, nu: int, caller: int, pk: Option<string>)
    requires Keyed(users, UserKey, nu) && UniqueHandles(users)
    requires UpdateKyberKeyStatus(users, caller, pk) == Ok
    ensures var i := UserById(users, caller).value;
      var r := users[i := users[i].(kyberPublicKey := pk)];
      && Keyed(r, UserKey, nu) && UniqueHandles(r)
      && GetPubkey(r, users[i].researcherId) == (Ok, Some(PubkeyReply(users[i].researcherId, pk.value)))
  {
    var i := UserById(users, caller).value;
    var r := users[i := users[i].(kyberPublicKey := pk)];
    forall j | 0 <= j < |r| ensures KeyAt(r, UserKey, j) == KeyAt(users, UserKey, j) {
    }
    assert r[i].researcherId == users[i].researcherId;
    var k := UserByHandle(r, users[i].researcherId).value;
  }

  // ---------------------------------------------------------------- search_users

  /** One search result: id, handle and whether a key is stored. */
  datatype SearchHit = SearchHit(id: int, researcherId: string, hasKyberKey: bool)

  function HitOf(u: User): SearchHit
  {
    SearchHit(u.id, u.researcherId, u.kyberPublicKey.Some?)
  }

  /** `researcher_id ILIKE '%q%' AND id != caller`. */
  predicate Matches(u: User, q: string, caller: int)
  {
    Like("%" + q + "%", u.researcherId) && u.id != caller
  }

  /** The users the query selects, in storage order, before the limit. */
  function SearchCandidates(users: seq<User>, q: string, caller: int): (r: seq<User>)
    ensures forall u :: u in r <==> u in users && Matches(u, q, caller)
  {
    Where(users, (u: User) => Matches(u, q, caller))
  }

  /**
   * `search_users`: nothing for an empty trimmed query; otherwise the first
   * 20 matching users other than the caller.
   */
  function SearchUsers(users: seq<User>, rawQ: Option<string>, caller: int): (r: seq<SearchHit>)
    ensures Field(rawQ) == [] ==> r == []
    ensures |r| <= SearchLimit
    ensures Field(rawQ) != [] ==>
      var c := SearchCandidates(users, Field(rawQ), caller);
      |r| == (if |c| < SearchLimit then |c| else SearchLimit)
      && forall k :: 0 <= k < |r| ==> r[k] == HitOf(c[k])
    ensures forall h :: h in r ==> exists u :: u in users && Matches(u, Field(rawQ), caller) && h == HitOf(u)
  {
    var q := Field(rawQ);
    if q == [] then []
    else
      var found := Take(SearchCandidates(users, q, caller), SearchLimit);
      var r := seq(|found|, k requires 0 <= k < |found| => HitOf(found[k]));
      assert forall h :: h in r ==> exists k :: 0 <= k < |found| && h == HitOf(found[k]);
      assert forall k :: 0 <= k < |found| ==> found[k] in SearchCandidates(users, q, caller);
      r
  }

  /**
   * For a query without `%` or `_`, every hit's handle contains the trimmed
   * query up to ASCII case and is never the caller; and when at most 20 users
   * match, every user whose handle contains it is listed.
   */
  lemma SearchIsSubstringMatch(users: seq<User>, rawQ: Option<string>, caller: int)
    requires Field(rawQ) != [] && NoWildcards(Field(rawQ))
    ensures forall h :: h in SearchUsers(users, rawQ, caller) ==>
      h.id != caller && ContainsIgnoringCase(h.researcherId, Field(rawQ))
    ensures |SearchCandidates(users, Field(rawQ), caller)| <= SearchLimit ==>
      forall u :: u in users && u.id != caller && ContainsIgnoringCase(u.researcherId, Field(rawQ)) ==>
        HitOf(u) in SearchUsers(users, rawQ, caller)
  {
    var q := Field(rawQ);
    var r := SearchUsers(users, rawQ, caller);
    forall h | h in r ensures h.id != caller && ContainsIgnoringCase(h.researcherId, q) {
      var u :| u in users && Matches(u, q, caller) && h == HitOf(u);
      SearchPatternIsSubstring(q, u.researcherId);
    }
    var c := SearchCandidates(users, q, caller);
    if |c| <= SearchLimit {
      forall u | u in users && u.id != caller && ContainsIgnoringCase(u.researcherId, q)
        ensures HitOf(u) in r
      {
        SearchPatternIsSubstring(q, u.researcherId);
        assert u in c;
        var k :| 0 <= k < |c| && c[k] == u;
        assert r[k] == HitOf(u);
      }
    }
  }

  // ---------------------------------------------------------------- get_pubkey

  datatype PubkeyReply = PubkeyReply(researcherId: string, kyberPublicKey: string)

  /** `get_pubkey`: 404 for an unknown handle and 404 for a missing or empty key; else the stored key. */
  function GetPubkey(users: seq<User>, handle: string): (r: (Status, Option<PubkeyReply>))
    ensures r.0 == Ok || r.0 == NotFound
    ensures r.0 == Ok <==> r.1.Some?
    ensures r.0 == Ok <==>
      UserByHandle(users, handle).Some? && users[UserByHandle(users, handle).value].kyberPublicKey.GetOr("") != ""
    ensures r.0 == Ok ==>
      var u := users[UserByHandle(users, handle).value];
      u.researcherId == handle && r.1.value == PubkeyReply(handle, u.kyberPublicKey.value)
  {
    match UserByHandle(users, handle)
    case None => (NotFound, None)
    case Some(i) =>
      match users[i].kyberPublicKey
      case None => (NotFound, None)
      case Some(k) => if k == "" then (NotFound, None) else (Ok, Some(PubkeyReply(users[i].researcherId, k)))
  }
}
