/**
 * `routes/settings_routes.py`: a user's interface and security preferences,
 * one `user_settings` row per user, read with defaults and updated by a
 * partial PUT that creates the row on first use.
 */
module SettingsRoutes {
  import opened Wrappers
  import opened Query
  import opened Models
  import opened Store

  /** The route module's `DEFAULTS` table. */
  const Defaults := Prefs(Some("AES-256-GCM"), Some("512"), Some(false), Some(true),
                          Some(false), Some("30"), Some(false), Some(true))

  /**
   * A row built by `UserSettings(user_id=...)` before it is flushed: column
   * defaults only apply at insert time, so every column still reads as null.
   */
  const Unset := Prefs(None, None, None, None, None, None, None, None)

  /** The column defaults of `UserSettings`, which fill any column an INSERT leaves null. */
  const ColumnDefaults := Prefs(Some("AES-256-GCM"), Some("512"), Some(false), Some(true),
                                Some(false), Some("30"), Some(false), Some(true))

  /**
   * A PUT body, key by key: `None` when the key is absent, `Some(v)` when it is
   * present, where `v` is `None` for a JSON null.
   */
  datatype PrefsPatch = PrefsPatch(
    algorithm: Option<Option<string>>,
    keySize: Option<Option<string>>,
    autoDelete: Option<Option<bool>>,
    animations: Option<Option<bool>>,
    highContrast: Option<Option<bool>>,
    sessionTimeout: Option<Option<string>>,
    twoFactor: Option<Option<bool>>,
    auditLogging: Option<Option<bool>>)

  /** An empty (or missing, or unparsable) body. */
  const NoChange := PrefsPatch(None, None, None, None, None, None, None, None)

  /** Every flag is set and every text column holds a non-empty string. */
  predicate Settled(s: Prefs)
  {
    && s.algorithm.Some? && s.algorithm.value != []
    && s.keySize.Some? && s.keySize.value != []
    && s.autoDelete.Some? && s.animations.Some? && s.highContrast.Some?
    && s.sessionTimeout.Some? && s.sessionTimeout.value != []
    && s.twoFactor.Some? && s.auditLogging.Some?
  }

  /** No column is null. */
  predicate AllSet(s: Prefs)
  {
    && s.algorithm.Some? && s.keySize.Some? && s.autoDelete.Some? && s.animations.Some?
    && s.highContrast.Some? && s.sessionTimeout.Some? && s.twoFactor.Some? && s.auditLogging.Some?
  }

  /** No key of the body is a JSON null. */
  predicate NoNulls(p: PrefsPatch)
  {
    && (p.algorithm.Some? ==> p.algorithm.value.Some?)
    && (p.keySize.Some? ==> p.keySize.value.Some?)
    && (p.autoDelete.Some? ==> p.autoDelete.value.Some?)
    && (p.animations.Some? ==> p.animations.value.Some?)
    && (p.highContrast.Some? ==> p.highContrast.value.Some?)
    && (p.sessionTimeout.Some? ==> p.sessionTimeout.value.Some?)
    && (p.twoFactor.Some? ==> p.twoFactor.value.Some?)
    && (p.auditLogging.Some? ==> p.auditLogging.value.Some?)
  }

  /**
   * One text column after a PUT, stated key by key: a sent value is stored;
   * a null is stored as null on an existing row but falls back to the
   * column default on a new one; an absent key keeps a non-empty stored
   * value and otherwise takes the default.
   */
  predicate TextColumnAfter(given: Option<Option<string>>, before: Option<string>, isNew: bool,
                            default: string, after: Option<string>)
  {
    match given
    case Some(Some(v)) => after == Some(v)
    case Some(None) => after == (if isNew then Some(default) else None)
    case None => after == (if before.Some? && before.value != [] then before else Some(default))
  }

  /** The same for a flag column, where only null (not `false`) falls back. */
  predicate FlagColumnAfter(given: Option<Option<bool>>, before: Option<bool>, isNew: bool,
                            default: bool, after: Option<bool>)
  {
    match given
    case Some(Some(v)) => after == Some(v)
    case Some(None) => after == (if isNew then Some(default) else None)
    case None => after == (if before.Some? then before else Some(default))
  }

  /** Python's `stored or default` on a text column: null and `''` are both falsy. */
  function OrText(stored: Option<string>, default: string): (r: Option<string>)
    requires default != []
    ensures r.Some? && r.value != []
    ensures stored.Some? && stored.value != [] ==> r == stored
  {
    if stored.Some? && stored.value != [] then stored else Some(default)
  }

  /** `stored if stored is not None else default` on a flag column. */
  function OrFlag(stored: Option<bool>, default: bool): (r: Option<bool>)
    ensures r.Some?
    ensures stored.Some? ==> r == stored
  {
    if stored.Some? then stored else Some(default)
  }

  /** `data.get(key, fallback)`. */
  function Given<T>(v: Option<Option<T>>, fallback: Option<T>): Option<T>
  {
    if v.Some? then v.value else fallback
  }

  /**
   * The eight assignments of `update_settings`: a present key is stored as
   * sent; an absent one keeps the stored value, or the default when that
   * value is falsy (text) or null (flag).
   */
  function Merge(stored: Prefs, p: PrefsPatch): (r: Prefs)
    ensures && TextColumnAfter(p.algorithm, stored.algorithm, false, "AES-256-GCM", r.algorithm)
            && TextColumnAfter(p.keySize, stored.keySize, false, "512", r.keySize)
            && FlagColumnAfter(p.autoDelete, stored.autoDelete, false, false, r.autoDelete)
            && FlagColumnAfter(p.animations, stored.animations, false, true, r.animations)
            && FlagColumnAfter(p.highContrast, stored.highContrast, false, false, r.highContrast)
            && TextColumnAfter(p.sessionTimeout, stored.sessionTimeout, false, "30", r.sessionTimeout)
            && FlagColumnAfter(p.twoFactor, stored.twoFactor, false, false, r.twoFactor)
            && FlagColumnAfter(p.auditLogging, stored.auditLogging, false, true, r.auditLogging)
    ensures NoNulls(p) ==> AllSet(r)
    ensures p == NoChange ==> Settled(r)
    ensures p == NoChange && Settled(stored) ==> r == stored
  {
    Prefs(
      Given(p.algorithm, OrText(stored.algorithm, Defaults.algorithm.value)),
      Given(p.keySize, OrText(stored.keySize, Defaults.keySize.value)),
      Given(p.autoDelete, OrFlag(stored.autoDelete, Defaults.autoDelete.value)),
      Given(p.animations, OrFlag(stored.animations, Defaults.animations.value)),
      Given(p.highContrast, OrFlag(stored.highContrast, Defaults.highContrast.value)),
      Given(p.sessionTimeout, OrText(stored.sessionTimeout, Defaults.sessionTimeout.value)),
      Given(p.twoFactor, OrFlag(stored.twoFactor, Defaults.twoFactor.value)),
      Given(p.auditLogging, OrFlag(stored.auditLogging, Defaults.auditLogging.value)))
  }

  /** Sending the same body twice stores what sending it once stored. */
  lemma MergeIdempotent(stored: Prefs, p: PrefsPatch)
    ensures Merge(Merge(stored, p), p) == Merge(stored, p)
  {
  }

  /** `v`, or `d` where `v` is null. */
  function Fill<T>(v: Option<T>, d: Option<T>): Option<T>
  {
    if v.Some? then v else d
  }

  /**
   * The row a commit INSERTs: SQLAlchemy leaves a null attribute out of the
   * statement, so the column default is stored in its place.
   */
  function Inserted(s: Prefs): (r: Prefs)
    ensures AllSet(r)
    ensures AllSet(s) ==> r == s
    ensures s.algorithm.Some? ==> r.algorithm == s.algorithm
    ensures s.algorithm.None? ==> r.algorithm == Some("AES-256-GCM")
    ensures s.keySize.Some? ==> r.keySize == s.keySize
    ensures s.keySize.None? ==> r.keySize == Some("512")
    ensures s.autoDelete.Some? ==> r.autoDelete == s.autoDelete
    ensures s.autoDelete.None? ==> r.autoDelete == Some(false)
    ensures s.animations.Some? ==> r.animations == s.animations
    ensures s.animations.None? ==> r.animations == Some(true)
    ensures s.highContrast.Some? ==> r.highContrast == s.highContrast
    ensures s.highContrast.None? ==> r.highContrast == Some(false)
    ensures s.sessionTimeout.Some? ==> r.sessionTimeout == s.sessionTimeout
    ensures s.sessionTimeout.None? ==> r.sessionTimeout == Some("30")
    ensures s.twoFactor.Some? ==> r.twoFactor == s.twoFactor
    ensures s.twoFactor.None? ==> r.twoFactor == Some(false)
    ensures s.auditLogging.Some? ==> r.auditLogging == s.auditLogging
    ensures s.auditLogging.None? ==> r.auditLogging == Some(true)
  {
    Prefs(
      Fill(s.algorithm, ColumnDefaults.algorithm),
      Fill(s.keySize, ColumnDefaults.keySize),
      Fill(s.autoDelete, ColumnDefaults.autoDelete),
      Fill(s.animations, ColumnDefaults.animations),
      Fill(s.highContrast, ColumnDefaults.highContrast),
      Fill(s.sessionTimeout, ColumnDefaults.sessionTimeout),
      Fill(s.twoFactor, ColumnDefaults.twoFactor),
      Fill(s.auditLogging, ColumnDefaults.auditLogging))
  }

  // ---------------------------------------------------------------- get_settings

  /** `get_settings`: the caller's row, or `DEFAULTS` when the caller has none. */
  function GetSettings(settings: seq<UserSettings>, caller: int): (r: Prefs)
    ensures (forall s :: s in settings ==> s.userId != caller) ==> r == Defaults
    ensures OneSettingsRowPerUser(settings) ==>
      forall s :: s in settings && s.userId == caller ==> r == s.prefs
  {
    match SettingsOf(settings, caller)
    case None => Defaults
    case Some(i) =>
      assert OneSettingsRowPerUser(settings) ==>
        forall s :: s in settings && s.userId == caller ==> s == settings[i];
      settings[i].prefs
  }

  // ---------------------------------------------------------------- update_settings

  /** The values `update_settings` merges into: the caller's row, or a fresh all-null one. */
  function Stored(settings: seq<UserSettings>, caller: int): Prefs
  {
    match SettingsOf(settings, caller)
    case None => Unset
    case Some(i) => settings[i].prefs
  }

  /**
   * The caller's preferences as committed: merged into the existing row
   * (an UPDATE, which writes nulls), or into a fresh row whose nulls the
   * INSERT replaces by column defaults.
   */
  function Answer(settings: seq<UserSettings>, caller: int, p: PrefsPatch): Prefs
  {
    match SettingsOf(settings, caller)
    case None => Inserted(Merge(Unset, p))
    case Some(i) => Merge(settings[i].prefs, p)
  }

  /** The settings table after `update_settings`: the caller's row replaced, or appended if missing. */
  function Updated(settings: seq<UserSettings>, nextId: int, caller: int, p: PrefsPatch): seq<UserSettings>
  {
    match SettingsOf(settings, caller)
    case None => settings + [UserSettings(nextId, caller, Answer(settings, caller, p))]
    case Some(i) => settings[i := settings[i].(prefs := Answer(settings, caller, p))]
  }

  /**
   * `update_settings`: finds or adds the caller's row, assigns the eight
   * columns and answers with the row as committed (the session reloads it
   * after the commit).
   */
  method UpdateSettings(db: Ledger, caller: int, p: PrefsPatch) returns (reply: Prefs)
    modifies db`settings, db`nextSettingsId
    ensures db.settings == Updated(old(db.settings), old(db.nextSettingsId), caller, p)
    ensures db.nextSettingsId == old(db.nextSettingsId) + (if SettingsOf(old(db.settings), caller).None? then 1 else 0)
    ensures reply == Answer(old(db.settings), caller, p)
  {
    var k := SettingsOf(db.settings, caller);
    var i: nat;
    if k.None? {
      db.settings := db.settings + [UserSettings(db.nextSettingsId, caller, Unset)];
      db.nextSettingsId := db.nextSettingsId + 1;
      i := |db.settings| - 1;
    } else {
      i := k.value;
    }
    reply := Merge(db.settings[i].prefs, p);
    if k.None? {
      // the commit INSERTs the new row
      reply := Inserted(reply);
    }
    db.settings := db.settings[i := db.settings[i].(prefs := reply)];
  }

  /** An update never adds a second row for a user and keeps the ids ascending. */
  lemma UpdateKeepsInvariants(settings: seq<UserSettings>, nextId: int, caller: int, p: PrefsPatch)
    requires Keyed(settings, SettingsKey, nextId) && OneSettingsRowPerUser(settings)
    ensures var next := nextId + (if SettingsOf(settings, caller).None? then 1 else 0);
      var r := Updated(settings, nextId, caller, p);
      Keyed(r, SettingsKey, next) && OneSettingsRowPerUser(r)
  {
    var r := Updated(settings, nextId, caller, p);
    match SettingsOf(settings, caller)
    case None =>
      AppendKeyed(settings, UserSettings(nextId, caller, Answer(settings, caller, p)), SettingsKey, nextId);
    case Some(i) =>
      forall j | 0 <= j < |r| ensures KeyAt(r, SettingsKey, j) == KeyAt(settings, SettingsKey, j) && r[j].userId == settings[j].userId {
      }
  }

  /** A GET after a PUT answers what the PUT answered. */
  lemma GetAfterUpdate(settings: seq<UserSettings>, nextId: int, caller: int, p: PrefsPatch)
    ensures GetSettings(Updated(settings, nextId, caller, p), caller) == Answer(settings, caller, p)
  {
    var r := Updated(settings, nextId, caller, p);
    match SettingsOf(settings, caller)
    case None =>
      assert r[|settings|].userId == caller;
      assert forall j :: 0 <= j < |settings| ==> r[j] == settings[j];
    case Some(i) =>
      assert r[i].userId == caller;
      assert forall j :: 0 <= j < |settings| ==> r[j].userId == settings[j].userId;
  }

  /** A PUT changes only the caller's settings: every other user reads what they read before. */
  lemma UpdateLeavesOthers(settings: seq<UserSettings>, nextId: int, caller: int, p: PrefsPatch, other: int)
    requires other != caller
    ensures GetSettings(Updated(settings, nextId, caller, p), other) == GetSettings(settings, other)
  {
    var r := Updated(settings, nextId, caller, p);
    assert forall j :: 0 <= j < |settings| ==> r[j].userId == settings[j].userId;
    assert forall j :: 0 <= j < |settings| && settings[j].userId != caller ==> r[j] == settings[j];
    assert forall j :: |settings| <= j < |r| ==> r[j].userId == caller;
  }

  /**
   * What a later GET returns, column by column: a sent value as sent; a
   * null as null, except on the first PUT, where the column default was
   * inserted; an absent key the stored value or the default. An empty
   * first PUT stores exactly `DEFAULTS`.
   */
  lemma PutThenGet(settings: seq<UserSettings>, nextId: int, caller: int, p: PrefsPatch)
    ensures var g := GetSettings(Updated(settings, nextId, caller, p), caller);
      var b := Stored(settings, caller);
      var isNew := SettingsOf(settings, caller).None?;
      && TextColumnAfter(p.algorithm, b.algorithm, isNew, "AES-256-GCM", g.algorithm)
      && TextColumnAfter(p.keySize, b.keySize, isNew, "512", g.keySize)
      && FlagColumnAfter(p.autoDelete, b.autoDelete, isNew, false, g.autoDelete)
      && FlagColumnAfter(p.animations, b.animations, isNew, true, g.animations)
      && FlagColumnAfter(p.highContrast, b.highContrast, isNew, false, g.highContrast)
      && TextColumnAfter(p.sessionTimeout, b.sessionTimeout, isNew, "30", g.sessionTimeout)
      && FlagColumnAfter(p.twoFactor, b.twoFactor, isNew, false, g.twoFactor)
      && FlagColumnAfter(p.auditLogging, b.auditLogging, isNew, true, g.auditLogging)
    ensures SettingsOf(settings, caller).None? && p == NoChange ==>
      GetSettings(Updated(settings, nextId, caller, p), caller) == Defaults
  {
    GetAfterUpdate(settings, nextId, caller, p);
  }

  /**
   * Repeating a PUT changes nothing a GET can see, once the row exists or
   * when the body holds no null.
   */
  lemma UpdateIdempotent(settings: seq<UserSettings>, nextId: int, caller: int, p: PrefsPatch)
    ensures SettingsOf(settings, caller).Some? || NoNulls(p) ==>
      var once := Updated(settings, nextId, caller, p);
      GetSettings(Updated(once, nextId + 1, caller, p), caller) == GetSettings(once, caller)
  {
    var once := Updated(settings, nextId, caller, p);
    GetAfterUpdate(settings, nextId, caller, p);
    GetAfterUpdate(once, nextId + 1, caller, p);
    match SettingsOf(settings, caller)
    case None => assert once[|settings|].userId == caller;
    case Some(i) => assert once[i].userId == caller;
    MergeIdempotent(Stored(settings, caller), p);
  }

  /**
   * A null sent in the first PUT is not what a repeat of it stores: the
   * INSERT takes the column default, the later UPDATE writes the null.
   */
  lemma RepeatedNullPutDiffers(settings: seq<UserSettings>, nextId: int, caller: int)
    requires SettingsOf(settings, caller).None?
    ensures var p := NoChange.(algorithm := Some(None));
      var once := Updated(settings, nextId, caller, p);
      && GetSettings(once, caller).algorithm == Some("AES-256-GCM")
      && GetSettings(Updated(once, nextId + 1, caller, p), caller).algorithm == None
  {
    var p := NoChange.(algorithm := Some(None));
    var once := Updated(settings, nextId, caller, p);
    GetAfterUpdate(settings, nextId, caller, p);
    GetAfterUpdate(once, nextId + 1, caller, p);
    assert once[|settings|].userId == caller;
  }
}
