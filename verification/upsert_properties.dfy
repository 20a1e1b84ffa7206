/**
 * What `upsert_user` promises about the database it leaves behind: which
 * row it touches, what each column of that row ends up holding, that a
 * refusal before the user is created changes nothing, that deleting is
 * idempotent, and that usernames (and, unless shared addresses are allowed,
 * email addresses) of live local users stay unique up to case.
 */
module UpsertProperties {
  import opened Wrappers
  import opened Text
  import opened OrderedMap
  import opened ProfileFields
  import opened UserDirectory
  import opened UserExtractor
  import opened UserManager

  /** `acc` is row `u` as get_complete_user_data loads it, except possibly for the password. */
  predicate LoadedFrom(acc: Account, u: User)
  {
    && acc.attrs.Keys == u.columns.Keys
    && (forall k :: k in u.columns && k != "password" && k != "description" ==> acc.attrs[k] == Value(u.columns[k]))
    && ("description" in u.columns ==>
          acc.attrs["description"] == Value(u.columns["description"]) || acc.attrs["description"] == Deferred)
  }

  /** Load gives a loaded account. */
  lemma LoadIsLoaded(u: User)
    ensures LoadedFrom(Load(u), u)
  {
  }

  /**
   * The properties after lines 200-203 and 264-275: a mapped field the record
   * sets holds the record's value; otherwise `suspended` holds the flag, the
   * description sentinel is gone, and every other property is as loaded.
   */
  lemma PreparedAttr(mapping: Entries, data: Entries, acc: Account, status: string, k: string)
    requires DistinctKeys(mapping) && DistinctKeys(data)
    ensures var a := PrepareAccount(mapping, data, acc, status);
            var incoming := Incoming(mapping, data, k);
            && a.id == acc.id
            && (incoming.Some? ==> k in a.attrs && a.attrs[k] == Value(incoming.value))
            && (incoming.None? && k == "suspended" ==> k in a.attrs && a.attrs[k] == Value(SuspendedFlag(status)))
            && (incoming.None? && k != "suspended" ==>
                  && (k in a.attrs <==> k in acc.attrs && !(k == "description" && acc.attrs[k] == Deferred))
                  && (k in a.attrs ==> a.attrs[k] == acc.attrs[k]))
  {
    var flagged := acc.attrs["suspended" := Value(SuspendedFlag(status))];
    AssignMappedAgrees(flagged, mapping, data, k);
    AssignMappedAgrees(flagged, mapping, data, "description");
  }

  /**
   * Each column of the saved row: a mapped column the record sets holds the
   * record's value (the password only when it may be written); an unmapped
   * `suspended` holds the status flag; any other unmapped column keeps its
   * stored value, the description included, and so does the password unless
   * it may be written.
   */
  lemma SavedColumn(cs: seq<CustomField>, mapping: Entries, data: Entries, u: User, acc: Account,
                    status: string, updatePassword: bool, k: string)
    requires DistinctKeys(mapping) && DistinctKeys(data)
    requires LoadedFrom(acc, u) && k in u.columns
    ensures var v := SavedRow(cs, u, PrepareAccount(mapping, data, acc, status), updatePassword).columns[k];
            var incoming := Incoming(mapping, data, k);
            && (incoming.Some? && (k != "password" || updatePassword) ==> v == incoming.value)
            && (incoming.None? && k == "suspended" ==> v == SuspendedFlag(status))
            && (incoming.None? && k != "suspended" && k != "password" ==> v == u.columns[k])
            && (k == "password" && !updatePassword ==> v == u.columns[k])
  {
    PreparedAttr(mapping, data, acc, status, k);
  }

  /**
   * profile_save_data: a defined profile field whose prefixed property the
   * record sets through the mapping is saved with that value; the data of a
   * field no mapped property sets stays as it was.
   */
  lemma SavedProfileField(cs: seq<CustomField>, mapping: Entries, data: Entries, u: User, acc: Account,
                          status: string, updatePassword: bool, s: string)
    requires DistinctKeys(mapping) && DistinctKeys(data)
    requires LoadedFrom(acc, u) && PrefixCustomProfileField(s) !in u.columns
    ensures var v := SavedRow(cs, u, PrepareAccount(mapping, data, acc, status), updatePassword);
            var incoming := Incoming(mapping, data, PrefixCustomProfileField(s));
            && (Defines(cs, s) && incoming.Some? ==> s in v.profile && v.profile[s] == incoming.value)
            && (incoming.None? && s in u.profile ==> s in v.profile && v.profile[s] == u.profile[s])
  {
    var k := PrefixCustomProfileField(s);
    var a := PrepareAccount(mapping, data, acc, status);
    PreparedAttr(mapping, data, acc, status, k);
    assert k != "suspended" by {
      PrefixedIsNotUserColumn(s);
    }
    if Defines(cs, s) && Incoming(mapping, data, k).Some? {
      var i :| 0 <= i < |cs| && cs[i].shortname == s;
      assert cs[i] in cs;
      assert s in SavedShortnames(cs, a);
    }
    if Incoming(mapping, data, k).None? && s in u.profile {
      assert s !in SavedShortnames(cs, a);
    }
  }

  /** The query of a record whose match field holds `value`. */
  function QueryFor(m: Manager, env: Env, value: string): Query
  {
    Query(env.localHost, m.config.userMatchField, value)
  }

  /** A record that gets past the mandatory check, the status check and the lookup of lines 135-145. */
  predicate Admitted(m: Manager, env: Env, d: Directory, data: Entries, status: string, value: string)
    requires Constructed(m) && DistinctKeys(data)
  {
    && CheckMandatory(m.config.mapping, data, m.config.mandatoryFields).None?
    && Get(data, m.statusField) == Some(status) && status in ValidUserStatuses
    && Get(data, m.matchingField) == Some(value)
    && !GetUser(d, QueryFor(m, env, value)).MoreThanOne?
  }

  /** A successful upsert passed the mandatory and status checks and found at most one user. */
  lemma SuccessIsAdmitted(m: Manager, env: Env, d: Directory, data: Entries)
    requires Constructed(m) && Valid(d) && DistinctKeys(data)
    requires Upsert(m, env, d, data).Ok?
    ensures CheckMandatory(m.config.mapping, data, m.config.mandatoryFields).None?
    ensures HasKey(data, m.statusField) && HasKey(data, m.matchingField)
    ensures Admitted(m, env, d, data, DataOf(data, m.statusField), DataOf(data, m.matchingField))
  {
    MandatorySupplied(m, data);
  }

  /** An admitted record with a live status is handled by the live branch. */
  lemma LiveUnfold(m: Manager, env: Env, d: Directory, data: Entries, status: string, value: string)
    requires Constructed(m) && Valid(d) && DistinctKeys(data)
    requires Admitted(m, env, d, data, status, value) && status != "deleted"
    ensures HasKey(data, m.emailField) && HasKey(data, m.usernameField)
    ensures var lookup := GetUser(d, QueryFor(m, env, value));
            && (lookup.Found? ==> exists i :: 0 <= i < |d.users| && d.users[i] == lookup.user)
            && Upsert(m, env, d, data) == LiveBranch(m, env, d, data, status, lookup)
  {
    MandatorySupplied(m, data);
  }

  /**
   * A successful live-branch upsert passed lines 162-181: the email is valid and
   * allowed, not taken by another live local user unless the site allows shared
   * addresses, the username is not taken by another live local user, and the
   * auth plugin exists. The matched user, if any, does not count against itself.
   */
  lemma SuccessPassedChecks(m: Manager, env: Env, d: Directory, data: Entries, status: string, value: string,
                            email: string, username: string)
    requires Constructed(m) && Valid(d) && DistinctKeys(data)
    requires Admitted(m, env, d, data, status, value) && status != "deleted"
    requires Get(data, m.emailField) == Some(email) && Get(data, m.usernameField) == Some(username)
    requires Upsert(m, env, d, data).Ok?
    ensures var exclude := ExcludeOf(GetUser(d, QueryFor(m, env, value)));
            && env.validEmail(email) && !NotAllowed(env, email)
            && (env.allowAccountsSameEmail || !IsEmailTaken(d, env.localHost, email, exclude))
            && !IsUsernameTaken(d, env.localHost, username, exclude)
            && env.authExists(ChooseAuth(m, data))
  {
    LiveUnfold(m, env, d, data, status, value);
    var lookup := GetUser(d, QueryFor(m, env, value));
    assert Checks(env, d, email, username, ChooseAuth(m, data), ExcludeOf(lookup)).None?;
  }

  /** The database a successful live-branch upsert leaves: the target saved over its base. */
  lemma LiveSuccessUnfold(m: Manager, env: Env, d: Directory, data: Entries, status: string, value: string,
                          username: string)
    requires Constructed(m) && Valid(d) && DistinctKeys(data)
    requires Admitted(m, env, d, data, status, value) && status != "deleted"
    requires Get(data, m.usernameField) == Some(username)
    requires Upsert(m, env, d, data).Ok?
    ensures var lookup := GetUser(d, QueryFor(m, env, value));
            var t := TargetOf(m, env, d, data, username, ChooseAuth(m, data), lookup);
            Upsert(m, env, d, data).value
              == Save(t.base, t.row, PrepareAccount(m.config.mapping, data, t.acc, status), t.updatePassword)
  {
    var lookup := GetUser(d, QueryFor(m, env, value));
    assert Upsert(m, env, d, data) == LiveBranch(m, env, d, data, status, lookup) && HasKey(data, m.emailField) by {
      LiveUnfold(m, env, d, data, status, value);
    }
    var email := DataOf(data, m.emailField);
    var auth := ChooseAuth(m, data);
    var t := TargetOf(m, env, d, data, username, auth, lookup);
    assert LiveBranch(m, env, d, data, status, lookup) == Finish(m, env, t.base, data, status, t.row, t.acc, t.updatePassword) by {
      assert Checks(env, d, email, username, auth, ExcludeOf(lookup)).None?;
    }
    var a := PrepareAccount(m.config.mapping, data, t.acc, status);
    assert |env.profileErrors(a)| == 0 && env.saveError(a).None?;
  }

  /**
   * Updating a matched user: the row that answers the query is rewritten in
   * place from the record, and no other row changes.
   */
  lemma UpsertUpdatesMatchedUser(m: Manager, env: Env, d: Directory, data: Entries, status: string, value: string,
                                 i: nat)
    requires Constructed(m) && Valid(d) && DistinctKeys(data)
    requires Admitted(m, env, d, data, status, value) && status != "deleted"
    requires i < |d.users| && Matches(d, QueryFor(m, env, value), d.users[i])
    requires Upsert(m, env, d, data).Ok?
    ensures var r := Upsert(m, env, d, data).value;
            && |r.users| == |d.users|
            && (forall j :: 0 <= j < |d.users| && j != i ==> r.users[j] == d.users[j])
            && r.users[i] == SavedRow(d.customFields, d.users[i],
                                      PrepareAccount(m.config.mapping, data, Load(d.users[i]), status),
                                      HasKey(data, PasswordKey(m)))
  {
    assert HasKey(data, m.usernameField) by {
      MandatorySupplied(m, data);
    }
    var username := DataOf(data, m.usernameField);
    var u := d.users[i];
    var a := PrepareAccount(m.config.mapping, data, Load(u), status);
    var r := Upsert(m, env, d, data).value;
    assert r == Save(d, u, a, HasKey(data, PasswordKey(m))) by {
      assert GetUser(d, QueryFor(m, env, value)) == Found(u) by {
        FoundIsTheMatch(d, QueryFor(m, env, value), i);
      }
      LiveSuccessUnfold(m, env, d, data, status, value, username);
    }
    SaveOverRow(d, i, a, HasKey(data, PasswordKey(m)), r);
  }

  /** The row create_user_record inserts for a record, and what the save starts from. */
  lemma CreatedTarget(m: Manager, env: Env, d: Directory, data: Entries, username: string, auth: string)
    requires Constructed(m) && Valid(d) && DistinctKeys(data)
    ensures var t := TargetOf(m, env, d, data, username, auth, NotFound);
            && t.row == NewUser(d, env.localHost, username, auth)
            && t.base == Insert(d, t.row)
            && LoadedFrom(t.acc, t.row)
            && (t.updatePassword <==> m.passwordField.Some? && HasKey(data, m.passwordField.value))
  {
  }

  /**
   * Creating a user when none answers the query: exactly one row is appended,
   * a live local one with a fresh id, and the existing rows stay as they were.
   */
  lemma UpsertCreatesUser(m: Manager, env: Env, d: Directory, data: Entries, status: string, value: string,
                          username: string)
    requires Constructed(m) && Valid(d) && DistinctKeys(data)
    requires Admitted(m, env, d, data, status, value) && status != "deleted"
    requires Get(data, m.usernameField) == Some(username)
    requires forall i :: 0 <= i < |d.users| ==> !Matches(d, QueryFor(m, env, value), d.users[i])
    requires Upsert(m, env, d, data).Ok?
    ensures var r := Upsert(m, env, d, data).value;
            var t := TargetOf(m, env, d, data, username, ChooseAuth(m, data), NotFound);
            && |r.users| == |d.users| + 1
            && (forall j :: 0 <= j < |d.users| ==> r.users[j] == d.users[j])
            && r.users[|d.users|] == SavedRow(d.customFields, t.row,
                                              PrepareAccount(m.config.mapping, data, t.acc, status), t.updatePassword)
            && r.users[|d.users|].id == NextId(d.users)
            && IsLive(r.users[|d.users|], env.localHost)
  {
    var t := TargetOf(m, env, d, data, username, ChooseAuth(m, data), NotFound);
    var a := PrepareAccount(m.config.mapping, data, t.acc, status);
    var r := Upsert(m, env, d, data).value;
    assert r == Save(t.base, t.row, a, t.updatePassword) by {
      assert GetUser(d, QueryFor(m, env, value)) == NotFound;
      LiveSuccessUnfold(m, env, d, data, status, value, username);
    }
    assert t.row == NewUser(d, env.localHost, username, ChooseAuth(m, data)) && t.base == Insert(d, t.row) by {
      CreatedTarget(m, env, d, data, username, ChooseAuth(m, data));
    }
    SaveOverNewRow(d, t.row, a, t.updatePassword, r);
  }

  /** Saving over row `i` rewrites that row alone. */
  lemma SaveOverRow(d: Directory, i: nat, a: Account, updatePassword: bool, r: Directory)
    requires Valid(d) && i < |d.users|
    requires r == Save(d, d.users[i], a, updatePassword)
    ensures |r.users| == |d.users|
    ensures forall j :: 0 <= j < |d.users| && j != i ==> r.users[j] == d.users[j]
    ensures r.users[i] == SavedRow(d.customFields, d.users[i], a, updatePassword)
  {
    assert forall j :: 0 <= j < |d.users| && j != i ==> d.users[j].id != d.users[i].id;
  }

  /** Saving over a row just inserted with a fresh id rewrites that row alone. */
  lemma SaveOverNewRow(d: Directory, u: User, a: Account, updatePassword: bool, r: Directory)
    requires Valid(d) && RowShaped(d, u) && !HasId(d, u.id)
    requires r == Save(Insert(d, u), u, a, updatePassword)
    ensures |r.users| == |d.users| + 1
    ensures forall j :: 0 <= j < |d.users| ==> r.users[j] == d.users[j]
    ensures r.users[|d.users|] == SavedRow(d.customFields, u, a, updatePassword)
  {
    var d1 := Insert(d, u);
    assert forall j :: 0 <= j < |d.users| ==> d1.users[j] == d.users[j] && d.users[j].id != u.id;
    assert d1.users[|d.users|] == u;
  }

  /**
   * The columns of an updated user: a column whose mapped field the record
   * sets takes the record's value (the password only when the record carries
   * the password field); `suspended`, unless mapped, follows the status; every
   * other column, the description among them, keeps its stored value.
   */
  lemma UpdatedUserColumn(m: Manager, env: Env, d: Directory, data: Entries, status: string, value: string,
                          i: nat, k: string)
    requires Constructed(m) && Valid(d) && DistinctKeys(data)
    requires Admitted(m, env, d, data, status, value) && status != "deleted"
    requires i < |d.users| && Matches(d, QueryFor(m, env, value), d.users[i])
    requires Upsert(m, env, d, data).Ok? && k in d.schema
    ensures var r := Upsert(m, env, d, data).value;
            && i < |r.users| && k in r.users[i].columns
            && var v := r.users[i].columns[k];
               var incoming := Incoming(m.config.mapping, data, k);
               var updatePassword := HasKey(data, PasswordKey(m));
               && (incoming.Some? && (k != "password" || updatePassword) ==> v == incoming.value)
               && (incoming.None? && k == "suspended" ==> v == SuspendedFlag(status))
               && (incoming.None? && k != "suspended" && k != "password" ==> v == d.users[i].columns[k])
               && (k == "password" && !updatePassword ==> v == d.users[i].columns[k])
  {
    var u := d.users[i];
    UpsertUpdatesMatchedUser(m, env, d, data, status, value, i);
    assert RowShaped(d, u);
    LoadIsLoaded(u);
    SavedColumn(d.customFields, m.config.mapping, data, u, Load(u), status, HasKey(data, PasswordKey(m)), k);
  }

  /**
   * The columns of a created user: a column whose mapped field the record sets
   * takes the record's value (the password only when a password field is
   * mapped and present); `suspended`, unless mapped, follows the status; the
   * username and auth columns otherwise hold what the user was created with,
   * and every other column is empty.
   */
  lemma CreatedUserColumn(m: Manager, env: Env, d: Directory, data: Entries, status: string, value: string,
                          username: string, k: string)
    requires Constructed(m) && Valid(d) && DistinctKeys(data)
    requires Admitted(m, env, d, data, status, value) && status != "deleted"
    requires Get(data, m.usernameField) == Some(username)
    requires forall i :: 0 <= i < |d.users| ==> !Matches(d, QueryFor(m, env, value), d.users[i])
    requires Upsert(m, env, d, data).Ok? && k in d.schema
    ensures var r := Upsert(m, env, d, data).value;
            && |d.users| < |r.users| && k in r.users[|d.users|].columns
            && var v := r.users[|d.users|].columns[k];
               var incoming := Incoming(m.config.mapping, data, k);
               var passwordGiven := m.passwordField.Some? && HasKey(data, m.passwordField.value);
               && (incoming.Some? && (k != "password" || passwordGiven) ==> v == incoming.value)
               && (incoming.None? && k == "suspended" ==> v == SuspendedFlag(status))
               && (incoming.None? && k == "username" ==> v == username)
               && (incoming.None? && k == "auth" ==> v == ChooseAuth(m, data))
               && (incoming.None? && k !in {"suspended", "password", "username", "auth"} ==> v == "")
               && (k == "password" && !passwordGiven ==> v == "")
  {
    var t := TargetOf(m, env, d, data, username, ChooseAuth(m, data), NotFound);
    UpsertCreatesUser(m, env, d, data, status, value, username);
    CreatedTarget(m, env, d, data, username, ChooseAuth(m, data));
    SavedColumn(d.customFields, m.config.mapping, data, t.row, t.acc, status, t.updatePassword, k);
  }

  /** No two live local users hold the same value of `column`, compared without regard to case. */
  predicate UniqueLive(d: Directory, host: nat, column: string)
  {
    forall i, j :: 0 <= i < |d.users| && 0 <= j < |d.users| && i != j
                   && IsLive(d.users[i], host) && IsLive(d.users[j], host)
                   && column in d.users[i].columns && column in d.users[j].columns
                   ==> !EqualIgnoringCase(d.users[i].columns[column], d.users[j].columns[column])
  }

  /**
   * Writing a value into one row (in place, or as a new last row) keeps the
   * column unique when no other live row held that value.
   */
  lemma FreshValueKeepsUnique(d: Directory, r: Directory, host: nat, column: string, value: string, p: nat)
    requires UniqueLive(d, host, column)
    requires p <= |d.users| && |r.users| == if p < |d.users| then |d.users| else |d.users| + 1
    requires forall j :: 0 <= j < |d.users| && j != p ==> r.users[j] == d.users[j]
    requires column in r.users[p].columns && r.users[p].columns[column] == value
    requires forall j :: 0 <= j < |d.users| && j != p && IsLive(d.users[j], host) && column in d.users[j].columns
                         ==> !EqualIgnoringCase(d.users[j].columns[column], value)
    ensures UniqueLive(r, host, column)
  {
    forall i, j | 0 <= i < |r.users| && 0 <= j < |r.users| && i != j
                  && IsLive(r.users[i], host) && IsLive(r.users[j], host)
                  && column in r.users[i].columns && column in r.users[j].columns
      ensures !EqualIgnoringCase(r.users[i].columns[column], r.users[j].columns[column])
    {
      if i == p {
        assert r.users[j] == d.users[j];
        assert !EqualIgnoringCase(d.users[j].columns[column], value);
      } else if j == p {
        assert r.users[i] == d.users[i];
      } else {
        assert r.users[i] == d.users[i] && r.users[j] == d.users[j];
      }
    }
  }

  /** Marking a row deleted keeps every column unique among live rows. */
  lemma MarkDeletedKeepsUnique(d: Directory, id: nat, host: nat, column: string)
    requires Valid(d) && UniqueLive(d, host, column)
    ensures UniqueLive(MarkDeleted(d, id), host, column)
  {
    var r := MarkDeleted(d, id);
    forall i, j | 0 <= i < |r.users| && 0 <= j < |r.users| && i != j
                  && IsLive(r.users[i], host) && IsLive(r.users[j], host)
                  && column in r.users[i].columns && column in r.users[j].columns
      ensures !EqualIgnoringCase(r.users[i].columns[column], r.users[j].columns[column])
    {
      assert r.users[i] == d.users[i] && r.users[j] == d.users[j];
    }
  }
}
