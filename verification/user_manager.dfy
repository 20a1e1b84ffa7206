/**
 * classes/user_manager.php: one web-service record creates, updates, suspends
 * or deletes one user. The Moodle services the manager calls (email
 * validation, the email allow list, the list of auth plugins, user creation,
 * deletion, profile validation and the final save) are supplied through
 * `Env`; the database is the `Directory` value, and every outcome is a new
 * directory or a rejection that carries the directory left behind.
 */
module UserManager {
  import opened Wrappers
  import opened Text
  import opened OrderedMap
  import opened ProfileFields
  import opened UserDirectory
  import opened UserExtractor

  /** `VALID_USER_STATUSES`. */
  const ValidUserStatuses: seq<string> := ["active", "suspended", "deleted"]

  /**
   * The plugin settings the manager reads: whether it is configured, the data
   * mapping from Moodle field to web-service field, the Moodle field users are
   * matched by, the mandatory Moodle fields, and the default auth plugin.
   */
  datatype Config = Config(ready: bool, mapping: Entries, userMatchField: string,
                           mandatoryFields: seq<string>, defaultAuth: string)

  /** `!empty($mapping[$k])`: the key is present and its value is not PHP-empty. */
  predicate Mapped(mapping: Entries, k: string)
    requires DistinctKeys(mapping)
  {
    Get(mapping, k).Some? && !Empty(Get(mapping, k).value)
  }

  /** `$mapping[$k]` used as an array key: an absent key reads as null, and a null key is "". */
  function KeyOf(mapping: Entries, k: string): (r: string)
    requires DistinctKeys(mapping)
    ensures HasKey(mapping, k) ==> Get(mapping, k) == Some(r)
    ensures !HasKey(mapping, k) ==> r == ""
  {
    match Get(mapping, k)
    case None => ""
    case Some(w) => w
  }

  /** A manager: its settings and the web-service field names it resolved from the mapping. */
  datatype Manager = Manager(config: Config, matchingField: string, usernameField: string,
                             emailField: string, statusField: string,
                             authField: Option<string>, passwordField: Option<string>)

  /**
   * The constructor: None stands for upsert_not_configured_exception, raised
   * unless the settings are ready and the match field, username, email and
   * status are all mapped. Auth and password fields are kept only when mapped.
   */
  function NewManager(c: Config): (r: Option<Manager>)
    requires DistinctKeys(c.mapping)
    ensures r.Some? <==> c.ready && Mapped(c.mapping, c.userMatchField) && Mapped(c.mapping, "username")
                         && Mapped(c.mapping, "email") && Mapped(c.mapping, "status")
    ensures r.Some? ==> && r.value.config == c
                        && Get(c.mapping, c.userMatchField) == Some(r.value.matchingField)
                        && Get(c.mapping, "username") == Some(r.value.usernameField)
                        && Get(c.mapping, "email") == Some(r.value.emailField)
                        && Get(c.mapping, "status") == Some(r.value.statusField)
                        && (r.value.authField.Some? <==> Mapped(c.mapping, "auth"))
                        && (r.value.authField.Some? ==> Get(c.mapping, "auth") == r.value.authField)
                        && (r.value.passwordField.Some? <==> Mapped(c.mapping, "password"))
                        && (r.value.passwordField.Some? ==> Get(c.mapping, "password") == r.value.passwordField)
  {
    if !c.ready then None
    else if !Mapped(c.mapping, c.userMatchField) then None
    else if !Mapped(c.mapping, "username") then None
    else if !Mapped(c.mapping, "email") then None
    else if !Mapped(c.mapping, "status") then None
    else
      Some(Manager(c, Get(c.mapping, c.userMatchField).value, Get(c.mapping, "username").value,
                   Get(c.mapping, "email").value, Get(c.mapping, "status").value,
                   if Mapped(c.mapping, "auth") then Get(c.mapping, "auth") else None,
                   if Mapped(c.mapping, "password") then Get(c.mapping, "password") else None))
  }

  /** A manager as the constructor builds it, whose upsert may rely on the four fields being mandatory. */
  predicate Constructed(m: Manager)
  {
    && DistinctKeys(m.config.mapping)
    && NewManager(m.config) == Some(m)
    && "username" in m.config.mandatoryFields && "email" in m.config.mandatoryFields
    && "status" in m.config.mandatoryFields && m.config.userMatchField in m.config.mandatoryFields
  }

  /** `$this->passwordfield` used as a key into the record: "" when no password field is mapped. */
  function PasswordKey(m: Manager): string
  {
    match m.passwordField
    case None => ""
    case Some(w) => w
  }

  /** Why an upsert was refused: one case per error string of the plugin. */
  datatype Failure =
    | MissingField(field: string)
    | InvalidStatus(status: string)
    | MoreThanOneUser
    | Deleting(reason: string)
    | InvalidEmail(email: string)
    | NotAllowedEmail(email: string, reason: string)
    | EmailTaken(email: string)
    | UsernameTaken(username: string)
    | InvalidAuth(auth: string)
    | Creating(reason: string)
    | UpdatingFields(reason: string)

  /** A refused upsert: the failure and the database as it was left. */
  datatype Rejection = Rejection(failure: Failure, dir: Directory)

  /** A user property held in memory; `Deferred` is the `true` that get_complete_user_data leaves in place of a description. */
  datatype Attr = Value(text: string) | Deferred

  /** The in-memory user object: its id and its named properties. */
  datatype Account = Account(id: nat, attrs: map<string, Attr>)

  /** A property written to a string column: PHP writes `true` as "1". */
  function AttrText(a: Attr): string
  {
    match a
    case Value(s) => s
    case Deferred => "1"
  }

  /**
   * The Moodle services and site settings the manager depends on.
   * `emailNotAllowed` yields the reason an address is refused, if any;
   * `createError`, `deleteError` and `saveError` yield the message of the
   * exception the service throws, if it throws; `deleteRefused` holds for the
   * users Moodle's delete_user declines to delete, returning false without
   * throwing (the guest account, a site administrator with manual
   * authentication); `profileErrors` is the field -> message array of
   * profile_validation.
   */
  datatype Env = Env(localHost: nat, allowAccountsSameEmail: bool,
                     validEmail: string -> bool,
                     emailNotAllowed: string -> Option<string>,
                     authExists: string -> bool,
                     createError: (string, string) -> Option<string>,
                     deleteRefused: User -> bool,
                     deleteError: User -> Option<string>,
                     profileErrors: Account -> Entries,
                     saveError: Account -> Option<string>)

  /** `!empty($data[$k])`. */
  predicate Supplied(data: Entries, k: string)
    requires DistinctKeys(data)
  {
    Get(data, k).Some? && !Empty(Get(data, k).value)
  }

  /** `$data[$k]` for a key known to be present. */
  function DataOf(data: Entries, k: string): (r: string)
    requires DistinctKeys(data) && HasKey(data, k)
    ensures Get(data, k) == Some(r)
  {
    Get(data, k).value
  }

  /**
   * The mandatory-field loop: the first mandatory Moodle field whose mapped
   * web-service field is missing or empty in the record is reported, by its
   * web-service name.
   */
  function CheckMandatory(mapping: Entries, data: Entries, fields: seq<string>): (r: Option<Failure>)
    requires DistinctKeys(mapping) && DistinctKeys(data)
    ensures r.None? <==> forall i :: 0 <= i < |fields| ==> Supplied(data, KeyOf(mapping, fields[i]))
    ensures r.Some? ==> exists i :: && 0 <= i < |fields| && !Supplied(data, KeyOf(mapping, fields[i]))
                                   && r.value == MissingField(KeyOf(mapping, fields[i]))
                                   && forall j :: 0 <= j < i ==> Supplied(data, KeyOf(mapping, fields[j]))
  {
    if |fields| == 0 then None
    else if !Supplied(data, KeyOf(mapping, fields[0])) then Some(MissingField(KeyOf(mapping, fields[0])))
    else
      var rest := CheckMandatory(mapping, data, fields[1..]);
      assert forall i :: 1 <= i < |fields| ==> fields[i] == fields[1..][i - 1];
      assert rest.Some? ==> exists i :: && 0 <= i < |fields| && !Supplied(data, KeyOf(mapping, fields[i]))
                                      && rest.value == MissingField(KeyOf(mapping, fields[i]))
                                      && forall j :: 0 <= j < i ==> Supplied(data, KeyOf(mapping, fields[j])) by {
        if rest.Some? {
          var i :| && 0 <= i < |fields| - 1 && !Supplied(data, KeyOf(mapping, fields[1..][i]))
                   && rest.value == MissingField(KeyOf(mapping, fields[1..][i]))
                   && forall j :: 0 <= j < i ==> Supplied(data, KeyOf(mapping, fields[1..][j]));
          assert forall j :: 0 <= j < i + 1 ==> Supplied(data, KeyOf(mapping, fields[j])) by {
            forall j | 0 <= j < i + 1 ensures Supplied(data, KeyOf(mapping, fields[j])) {
              if j > 0 { assert fields[j] == fields[1..][j - 1]; }
            }
          }
        }
      }
      rest
  }

  /** Once the mandatory check passes, the status, match, username and email fields are all in the record and non-empty. */
  lemma MandatorySupplied(m: Manager, data: Entries)
    requires Constructed(m) && DistinctKeys(data)
    requires CheckMandatory(m.config.mapping, data, m.config.mandatoryFields).None?
    ensures Supplied(data, m.statusField) && Supplied(data, m.matchingField)
    ensures Supplied(data, m.usernameField) && Supplied(data, m.emailField)
  {
    var c := m.config;
    var fs := c.mandatoryFields;
    forall f | f in fs ensures Supplied(data, KeyOf(c.mapping, f)) {
      var i :| 0 <= i < |fs| && fs[i] == f;
    }
    assert KeyOf(c.mapping, "status") == m.statusField;
    assert KeyOf(c.mapping, "username") == m.usernameField;
    assert KeyOf(c.mapping, "email") == m.emailField;
    assert KeyOf(c.mapping, c.userMatchField) == m.matchingField;
  }

  /** `validate_status`: the status must be one of the three valid ones. */
  function ValidateStatus(status: string): (r: Option<Failure>)
    ensures r.None? <==> status == "active" || status == "suspended" || status == "deleted"
    ensures r.Some? ==> r.value == InvalidStatus(status)
  {
    if status in ValidUserStatuses then None else Some(InvalidStatus(status))
  }

  /** `if ($error = email_is_not_allowed($email))`: a refusal counts only when its message is truthy. */
  predicate NotAllowed(env: Env, email: string)
  {
    env.emailNotAllowed(email).Some? && !Empty(env.emailNotAllowed(email).value)
  }

  /**
   * Lines 162-181 in order: `validate_email` (syntax, then allow list), the
   * email-taken check unless the site allows shared addresses, the
   * username-taken check, and the auth plugin check. `exclude` is the id of the
   * matched user, who does not count against its own values.
   */
  function Checks(env: Env, d: Directory, email: string, username: string, auth: string, exclude: Option<int>): (r: Option<Failure>)
    ensures r.None? <==> && env.validEmail(email) && !NotAllowed(env, email)
                         && (env.allowAccountsSameEmail || !IsEmailTaken(d, env.localHost, email, exclude))
                         && !IsUsernameTaken(d, env.localHost, username, exclude)
                         && env.authExists(auth)
    ensures (r.Some? && r.value.InvalidEmail?) <==> !env.validEmail(email)
    ensures (r.Some? && r.value.NotAllowedEmail?) <==> env.validEmail(email) && NotAllowed(env, email)
    ensures (r.Some? && r.value.EmailTaken?) <==>
              && env.validEmail(email) && !NotAllowed(env, email)
              && !env.allowAccountsSameEmail && IsEmailTaken(d, env.localHost, email, exclude)
    ensures (r.Some? && r.value.UsernameTaken?) <==>
              && env.validEmail(email) && !NotAllowed(env, email)
              && (env.allowAccountsSameEmail || !IsEmailTaken(d, env.localHost, email, exclude))
              && IsUsernameTaken(d, env.localHost, username, exclude)
    ensures r.Some? ==> r.value.InvalidEmail? || r.value.NotAllowedEmail? || r.value.EmailTaken?
                        || r.value.UsernameTaken? || r.value.InvalidAuth?
  {
    if !env.validEmail(email) then Some(InvalidEmail(email))
    else if NotAllowed(env, email) then Some(NotAllowedEmail(email, env.emailNotAllowed(email).value))
    else if !env.allowAccountsSameEmail && IsEmailTaken(d, env.localHost, email, exclude) then Some(EmailTaken(email))
    else if IsUsernameTaken(d, env.localHost, username, exclude) then Some(UsernameTaken(username))
    else if !env.authExists(auth) then Some(InvalidAuth(auth))
    else None
  }

  /** The auth plugin to validate: the record's, when an auth field is mapped and supplied, else the default. */
  function ChooseAuth(m: Manager, data: Entries): (r: string)
    requires DistinctKeys(data)
    ensures m.authField.Some? && Supplied(data, m.authField.value) ==> Get(data, m.authField.value) == Some(r)
    ensures !(m.authField.Some? && Supplied(data, m.authField.value)) ==> r == m.config.defaultAuth
  {
    if m.authField.Some? && Supplied(data, m.authField.value) then DataOf(data, m.authField.value)
    else m.config.defaultAuth
  }

  /**
   * get_complete_user_data: every column of the row as a property, except
   * that a non-empty description is replaced by the `true` sentinel.
   */
  function Load(u: User): (a: Account)
    ensures a.id == u.id && a.attrs.Keys == u.columns.Keys
    ensures forall k :: k in u.columns && k != "description" ==> a.attrs[k] == Value(u.columns[k])
    ensures "description" in u.columns ==>
              a.attrs["description"] == if Empty(u.columns["description"]) then Value(u.columns["description"]) else Deferred
  {
    Account(u.id, map k | k in u.columns ::
                    if k == "description" && !Empty(u.columns[k]) then Deferred else Value(u.columns[k]))
  }

  /** create_user_record(username, '', auth): a fresh live local row with every other column empty. */
  function NewUser(d: Directory, host: nat, username: string, auth: string): (u: User)
    requires KnownColumns(d.schema)
    ensures RowShaped(d, u) && !HasId(d, u.id)
    ensures u.mnetHostId == host && !u.deleted && u.profile == map[]
    ensures u.columns["username"] == username && u.columns["auth"] == auth && u.columns["password"] == ""
  {
    var id := NextId(d.users);
    User(id, host, false,
         map k | k in d.schema :: if k == "username" then username else if k == "auth" then auth else "",
         map[])
  }

  /** What the record supplies for Moodle field `k` through the mapping, if anything. */
  function Incoming(mapping: Entries, data: Entries, k: string): Option<string>
    requires DistinctKeys(mapping) && DistinctKeys(data)
  {
    match Get(mapping, k)
    case None => None
    case Some(w) => Get(data, w)
  }

  /** The mapping loop of update_user_profile: for each mapped field the record sets, the property is assigned. */
  function AssignMapped(attrs: map<string, Attr>, mapping: Entries, data: Entries): (r: map<string, Attr>)
    requires DistinctKeys(data)
    ensures attrs.Keys <= r.Keys
    ensures forall k :: k in r && !HasKey(mapping, k) ==> k in attrs && r[k] == attrs[k]
    decreases |mapping|
  {
    if |mapping| == 0 then attrs
    else
      var moodleField := mapping[0].0;
      var wsField := mapping[0].1;
      var next := if HasKey(data, wsField) then attrs[moodleField := Value(DataOf(data, wsField))] else attrs;
      assert forall k :: HasKey(mapping[1..], k) ==> HasKey(mapping, k) by {
        forall k | HasKey(mapping[1..], k) ensures HasKey(mapping, k) {
          var i :| 0 <= i < |mapping| - 1 && mapping[1..][i].0 == k;
          assert mapping[i + 1].0 == k;
        }
      }
      AssignMapped(next, mapping[1..], data)
  }

  /**
   * The loop agrees with `Incoming`: a property ends up holding the record's
   * value exactly when the record supplies its mapped field, and is otherwise
   * left as it was.
   */
  lemma {:induction false} AssignMappedAgrees(attrs: map<string, Attr>, mapping: Entries, data: Entries, k: string)
    requires DistinctKeys(mapping) && DistinctKeys(data)
    ensures var r := AssignMapped(attrs, mapping, data);
            && (k in r <==> k in attrs || Incoming(mapping, data, k).Some?)
            && (Incoming(mapping, data, k).Some? ==> r[k] == Value(Incoming(mapping, data, k).value))
            && (Incoming(mapping, data, k).None? && k in attrs ==> r[k] == attrs[k])
    decreases |mapping|
  {
    if |mapping| > 0 {
      var moodleField := mapping[0].0;
      var wsField := mapping[0].1;
      var next := if HasKey(data, wsField) then attrs[moodleField := Value(DataOf(data, wsField))] else attrs;
      var rest := mapping[1..];
      assert DistinctKeys(rest) && mapping == [mapping[0]] + rest by {
        assert forall i :: 0 <= i < |rest| ==> rest[i] == mapping[i + 1];
      }
      AssignMappedAgrees(next, rest, data, k);
      assert Get(mapping, k) == if moodleField == k then Some(wsField) else Get(rest, k);
      if moodleField == k {
        assert !HasKey(rest, k) by {
          forall i | 0 <= i < |rest| ensures rest[i].0 != k {
            assert rest[i] == mapping[i + 1];
          }
        }
      }
    }
  }

  /** The value lines 200-203 give `suspended`: 1 for the `suspended` status, 0 otherwise. */
  function SuspendedFlag(status: string): string
  {
    if status == "suspended" then "1" else "0"
  }

  /**
   * Lines 200-203 and 264-275: the suspended flag, then the mapped fields of the
   * record, then the description sentinel dropped if it is still in place.
   */
  function PrepareAccount(mapping: Entries, data: Entries, acc: Account, status: string): (r: Account)
    requires DistinctKeys(data)
    ensures r.id == acc.id
    ensures !HasKey(mapping, "suspended") ==> "suspended" in r.attrs && r.attrs["suspended"] == Value(SuspendedFlag(status))
    ensures "description" in r.attrs ==> r.attrs["description"] != Deferred
    ensures forall k :: k in r.attrs && k != "suspended" && !HasKey(mapping, k) ==> k in acc.attrs && r.attrs[k] == acc.attrs[k]
    ensures forall k :: k in acc.attrs && k != "description" ==> k in r.attrs
  {
    var flagged := acc.attrs["suspended" := Value(SuspendedFlag(status))];
    var mappedAttrs := AssignMapped(flagged, mapping, data);
    var attrs := if "description" in mappedAttrs && mappedAttrs["description"] == Deferred then mappedAttrs - {"description"} else mappedAttrs;
    Account(acc.id, attrs)
  }

  /** The defined profile fields the account carries a `profile_field_<shortname>` property for. */
  function SavedShortnames(cs: seq<CustomField>, a: Account): set<string>
  {
    set f | f in cs && PrefixCustomProfileField(f.shortname) in a.attrs :: f.shortname
  }

  /** Column `k` is written by user_update_user: the account holds it, and the password only when asked to. */
  predicate Written(a: Account, k: string, updatePassword: bool)
  {
    k in a.attrs && (k != "password" || updatePassword)
  }

  /**
   * The row after profile_save_data and user_update_user: every column the
   * account holds is written (the password only with `updatePassword`), every
   * defined profile field the account holds is saved, and the rest of the row stays.
   */
  function SavedRow(cs: seq<CustomField>, u: User, a: Account, updatePassword: bool): (v: User)
    ensures v.id == u.id && v.mnetHostId == u.mnetHostId && v.deleted == u.deleted
    ensures v.columns.Keys == u.columns.Keys
  {
    var saved := SavedShortnames(cs, a);
    var columns := map k | k in u.columns :: if Written(a, k, updatePassword) then AttrText(a.attrs[k]) else u.columns[k];
    var profile := map s | s in u.profile.Keys + saved ::
                     if s in saved then AttrText(a.attrs[PrefixCustomProfileField(s)]) else u.profile[s];
    u.(columns := columns, profile := profile)
  }

  /** The save writes the saved row over the row with its id and leaves every other row alone. */
  function Save(d: Directory, u: User, a: Account, updatePassword: bool): (r: Directory)
    requires Valid(d) && RowShaped(d, u)
    ensures Valid(r) && r.customFields == d.customFields && |r.users| == |d.users|
    ensures forall j :: 0 <= j < |d.users| ==>
              r.users[j] == if d.users[j].id == u.id then SavedRow(d.customFields, u, a, updatePassword) else d.users[j]
  {
    Replace(d, SavedRow(d.customFields, u, a, updatePassword))
  }

  /** The profile update and save of lines 205-209, 264-289 on user `u` loaded as `acc`. */
  function Finish(m: Manager, env: Env, d: Directory, data: Entries, status: string,
                  u: User, acc: Account, updatePassword: bool): (r: Result<Directory, Rejection>)
    requires Valid(d) && RowShaped(d, u) && DistinctKeys(data)
    ensures r.Ok? ==> Valid(r.value)
    ensures r.Err? ==> r.error.dir == d && r.error.failure.UpdatingFields?
  {
    var a := PrepareAccount(m.config.mapping, data, acc, status);
    var errors := env.profileErrors(a);
    if |errors| > 0 then Err(Rejection(UpdatingFields(FormatErrors(errors)), d))
    else
      match env.saveError(a)
      case Some(msg) => Err(Rejection(UpdatingFields(msg), d))
      case None => Ok(Save(d, u, a, updatePassword))
  }

  /** The custom-field error message: each "field: message" joined by ", ". */
  function FormatErrors(errors: Entries): string
    requires |errors| > 0
  {
    Join(seq(|errors|, i requires 0 <= i < |errors| => errors[i].0 + ": " + errors[i].1), ", ")
  }

  /**
   * The `deleted` branch: delete the matched user if there is one. A refusal
   * of delete_user is not an error: its false result is ignored and the
   * directory stays as it is.
   */
  function DeleteBranch(env: Env, d: Directory, lookup: Lookup): (r: Result<Directory, Rejection>)
    requires Valid(d) && !lookup.MoreThanOne?
    ensures r.Ok? ==> Valid(r.value)
    ensures r.Err? ==> r.error.dir == d && r.error.failure.Deleting? && lookup.Found?
    ensures lookup.NotFound? ==> r == Ok(d)
    ensures lookup.Found? && env.deleteRefused(lookup.user) ==> r == Ok(d)
    ensures lookup.Found? && !env.deleteRefused(lookup.user) ==>
              r == match env.deleteError(lookup.user)
                   case Some(msg) => Err(Rejection(Deleting(msg), d))
                   case None => Ok(MarkDeleted(d, lookup.user.id))
  {
    match lookup
    case NotFound => Ok(d)
    case Found(u) =>
      if env.deleteRefused(u) then Ok(d)
      else
        match env.deleteError(u)
        case Some(msg) => Err(Rejection(Deleting(msg), d))
        case None => Ok(MarkDeleted(d, u.id))
  }

  /** The id to exclude from the taken checks: the matched user's, or none. */
  function ExcludeOf(lookup: Lookup): Option<int>
  {
    if lookup.Found? then Some(lookup.user.id) else None
  }

  /**
   * The user the live branch goes on to update: the matched user as loaded, or
   * the row create_user_record inserts, loaded with the record's password when
   * a password field is mapped and set; `base` is the database holding that
   * row, and `updatePassword` says whether user_update_user may write the password.
   */
  datatype Target = Target(base: Directory, row: User, acc: Account, updatePassword: bool)

  /** Lines 152-160 and 183-198: the target for the matched user, or for the user created for the record. */

  function TargetOf(m: Manager, env: Env, d: Directory, data: Entries, username: string, auth: string, lookup: Lookup): (t: Target)
    requires Valid(d) && DistinctKeys(data) && !lookup.MoreThanOne?
    requires lookup.Found? ==> exists i :: 0 <= i < |d.users| && d.users[i] == lookup.user
    ensures Valid(t.base) && RowShaped(t.base, t.row)
    ensures lookup.Found? ==>
              t.base == d && t.row == lookup.user && t.acc == Load(lookup.user)
              && (t.updatePassword <==> HasKey(data, PasswordKey(m)))
    ensures lookup.NotFound? ==>
              t.row == NewUser(d, env.localHost, username, auth) && t.base == Insert(d, t.row)
              && !HasId(d, t.row.id)
              && (t.updatePassword <==> m.passwordField.Some? && HasKey(data, m.passwordField.value))
              && (t.updatePassword ==> t.acc.attrs == Load(t.row).attrs["password" := Value(DataOf(data, m.passwordField.value))])
              && (!t.updatePassword ==> t.acc == Load(t.row))
  {
    match lookup
    case Found(u) =>
      assert RowShaped(d, u);
      Target(d, u, Load(u), HasKey(data, PasswordKey(m)))
    case NotFound =>
      var u := NewUser(d, env.localHost, username, auth);
      var acc := Load(u);
      if m.passwordField.Some? && HasKey(data, m.passwordField.value) then
        Target(Insert(d, u), u, acc.(attrs := acc.attrs["password" := Value(DataOf(data, m.passwordField.value))]), true)
      else
        Target(Insert(d, u), u, acc, false)
  }

  /** The branch for `active` and `suspended`: checks, then update of the matched user or creation of a new one. */
  function LiveBranch(m: Manager, env: Env, d: Directory, data: Entries, status: string, lookup: Lookup): (r: Result<Directory, Rejection>)
    requires Valid(d) && DistinctKeys(data) && !lookup.MoreThanOne?
    requires lookup.Found? ==> exists i :: 0 <= i < |d.users| && d.users[i] == lookup.user
    requires HasKey(data, m.emailField) && HasKey(data, m.usernameField)
    ensures r.Ok? ==> Valid(r.value)
    ensures r.Err? ==> Valid(r.error.dir)
  {
    var email := DataOf(data, m.emailField);
    var username := DataOf(data, m.usernameField);
    var auth := ChooseAuth(m, data);
    match Checks(env, d, email, username, auth, ExcludeOf(lookup))
    case Some(f) => Err(Rejection(f, d))
    case None =>
      if lookup.NotFound? && env.createError(username, auth).Some? then
        Err(Rejection(Creating(env.createError(username, auth).value), d))
      else
        var t := TargetOf(m, env, d, data, username, auth, lookup);
        Finish(m, env, t.base, data, status, t.row, t.acc, t.updatePassword)
  }

  /** The query `get_user` is asked: the match field and the record's value for it. */
  function MatchQuery(m: Manager, env: Env, data: Entries): Query
    requires DistinctKeys(data) && HasKey(data, m.matchingField)
  {
    Query(env.localHost, m.config.userMatchField, DataOf(data, m.matchingField))
  }

  /**
   * `upsert_user`: mandatory fields, status, the lookup (whose ambiguity is an
   * error whatever the status), then the deleted branch or the live branch.
   */
  function Upsert(m: Manager, env: Env, d: Directory, data: Entries): (r: Result<Directory, Rejection>)
    requires Constructed(m) && Valid(d) && DistinctKeys(data)
    ensures r.Ok? ==> Valid(r.value)
    ensures r.Err? ==> Valid(r.error.dir)
  {
    match CheckMandatory(m.config.mapping, data, m.config.mandatoryFields)
    case Some(f) => Err(Rejection(f, d))
    case None =>
      MandatorySupplied(m, data);
      var status := DataOf(data, m.statusField);
      match ValidateStatus(status)
      case Some(f) => Err(Rejection(f, d))
      case None =>
        var lookup := GetUser(d, MatchQuery(m, env, data));
        if lookup.MoreThanOne? then Err(Rejection(MoreThanOneUser, d))
        else if status == "deleted" then DeleteBranch(env, d, lookup)
        else LiveBranch(m, env, d, data, status, lookup)
  }
}
