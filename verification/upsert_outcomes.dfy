/**
 * The outcomes of `upsert_user` as a whole: the order in which a record is
 * refused, what a refusal leaves behind, deletion, and the uniqueness of
 * usernames and email addresses among live local users.
 */
module UpsertOutcomes {
  import opened Wrappers
  import opened Text
  import opened OrderedMap
  import opened UserDirectory
  import opened UserExtractor
  import opened UserManager
  import opened UpsertProperties

  /** The mandatory check reports the first mandatory field that the record lacks. */
  lemma FirstMissingReported(mapping: Entries, data: Entries, fields: seq<string>, i: nat)
    requires DistinctKeys(mapping) && DistinctKeys(data)
    requires i < |fields| && !Supplied(data, KeyOf(mapping, fields[i]))
    requires forall j :: 0 <= j < i ==> Supplied(data, KeyOf(mapping, fields[j]))
    ensures CheckMandatory(mapping, data, fields) == Some(MissingField(KeyOf(mapping, fields[i])))
  {
    var r := CheckMandatory(mapping, data, fields);
    var k :| && 0 <= k < |fields| && !Supplied(data, KeyOf(mapping, fields[k]))
             && r.value == MissingField(KeyOf(mapping, fields[k]))
             && forall j :: 0 <= j < k ==> Supplied(data, KeyOf(mapping, fields[j]));
    assert k == i;
  }

  /** The first mandatory field missing from the record is reported, and nothing is written. */
  lemma MissingFieldRejected(m: Manager, env: Env, d: Directory, data: Entries, i: nat)
    requires Constructed(m) && Valid(d) && DistinctKeys(data)
    requires i < |m.config.mandatoryFields|
    requires !Supplied(data, KeyOf(m.config.mapping, m.config.mandatoryFields[i]))
    requires forall j :: 0 <= j < i ==> Supplied(data, KeyOf(m.config.mapping, m.config.mandatoryFields[j]))
    ensures Upsert(m, env, d, data) == Err(Rejection(MissingField(KeyOf(m.config.mapping, m.config.mandatoryFields[i])), d))
  {
    FirstMissingReported(m.config.mapping, data, m.config.mandatoryFields, i);
  }

  /** With every mandatory field present, a status outside the three valid ones is refused, and nothing is written. */
  lemma InvalidStatusRejected(m: Manager, env: Env, d: Directory, data: Entries, status: string)
    requires Constructed(m) && Valid(d) && DistinctKeys(data)
    requires CheckMandatory(m.config.mapping, data, m.config.mandatoryFields).None?
    requires Get(data, m.statusField) == Some(status) && status !in ValidUserStatuses
    ensures Upsert(m, env, d, data) == Err(Rejection(InvalidStatus(status), d))
  {
  }

  /**
   * Two live local users answering the match query make the record fail,
   * whatever its status, deletion included, and nothing is written.
   */
  lemma AmbiguousMatchRejected(m: Manager, env: Env, d: Directory, data: Entries, status: string, value: string,
                               i: nat, j: nat)
    requires Constructed(m) && Valid(d) && DistinctKeys(data)
    requires CheckMandatory(m.config.mapping, data, m.config.mandatoryFields).None?
    requires Get(data, m.statusField) == Some(status) && status in ValidUserStatuses
    requires Get(data, m.matchingField) == Some(value)
    requires i < j < |d.users| && Matches(d, QueryFor(m, env, value), d.users[i]) && Matches(d, QueryFor(m, env, value), d.users[j])
    ensures Upsert(m, env, d, data) == Err(Rejection(MoreThanOneUser, d))
  {
    assert GetUser(d, QueryFor(m, env, value)).MoreThanOne?;
  }

  /**
   * On the live branch the first failing check of lines 162-181 (email syntax,
   * email policy, email taken, username taken, auth plugin) is the error, and
   * nothing is written.
   */
  lemma FailedCheckRejected(m: Manager, env: Env, d: Directory, data: Entries, status: string, value: string,
                            email: string, username: string)
    requires Constructed(m) && Valid(d) && DistinctKeys(data)
    requires Admitted(m, env, d, data, status, value) && status != "deleted"
    requires Get(data, m.emailField) == Some(email) && Get(data, m.usernameField) == Some(username)
    requires Checks(env, d, email, username, ChooseAuth(m, data), ExcludeOf(GetUser(d, QueryFor(m, env, value)))).Some?
    ensures Upsert(m, env, d, data)
            == Err(Rejection(Checks(env, d, email, username, ChooseAuth(m, data),
                                    ExcludeOf(GetUser(d, QueryFor(m, env, value)))).value, d))
  {
    LiveUnfold(m, env, d, data, status, value);
  }

  /**
   * While usernames and emails are unique among live local users, the matched
   * user's own username and email, in any case, are free for it: an existing
   * user can be sent again with its own values.
   */
  lemma OwnValuesAreFree(d: Directory, host: nat, i: nat, email: string, username: string)
    requires Valid(d) && i < |d.users| && d.users[i].id != 0 && IsLive(d.users[i], host)
    requires UniqueLive(d, host, "email") && UniqueLive(d, host, "username")
    requires EqualIgnoringCase(d.users[i].columns["email"], email)
    requires EqualIgnoringCase(d.users[i].columns["username"], username)
    ensures !IsEmailTaken(d, host, email, Some(d.users[i].id))
    ensures !IsUsernameTaken(d, host, username, Some(d.users[i].id))
  {
    forall j, column, x | 0 <= j < |d.users| && column in {"email", "username"}
                          && x == (if column == "email" then email else username)
      ensures !Holds(d.users[j], host, column, x, Some(d.users[i].id))
    {
      if j != i && Holds(d.users[j], host, column, x, None) {
        CaseEquivalence(d.users[j].columns[column], x, d.users[i].columns[column]);
        CaseEquivalence(d.users[i].columns[column], x, d.users[i].columns[column]);
      }
    }
  }

  /** An admitted record with the `deleted` status is handled by the delete branch. */
  lemma DeleteUnfold(m: Manager, env: Env, d: Directory, data: Entries, value: string)
    requires Constructed(m) && Valid(d) && DistinctKeys(data)
    requires Admitted(m, env, d, data, "deleted", value)
    ensures Upsert(m, env, d, data) == DeleteBranch(env, d, GetUser(d, QueryFor(m, env, value)))
  {
    MandatorySupplied(m, data);
  }

  /**
   * A `deleted` record marks the one user it matches as deleted, unless
   * delete_user refuses that user (then nothing changes and the record still
   * succeeds) or throws.
   */
  lemma DeleteMarksMatchedUser(m: Manager, env: Env, d: Directory, data: Entries, value: string, i: nat)
    requires Constructed(m) && Valid(d) && DistinctKeys(data)
    requires Admitted(m, env, d, data, "deleted", value)
    requires i < |d.users| && Matches(d, QueryFor(m, env, value), d.users[i])
    ensures env.deleteRefused(d.users[i]) ==> Upsert(m, env, d, data) == Ok(d)
    ensures !env.deleteRefused(d.users[i]) && env.deleteError(d.users[i]).None? ==>
              Upsert(m, env, d, data) == Ok(MarkDeleted(d, d.users[i].id))
    ensures !env.deleteRefused(d.users[i]) && env.deleteError(d.users[i]).Some? ==>
              Upsert(m, env, d, data) == Err(Rejection(Deleting(env.deleteError(d.users[i]).value), d))
  {
    DeleteUnfold(m, env, d, data, value);
    FoundIsTheMatch(d, QueryFor(m, env, value), i);
  }

  /** A `deleted` record that matches nobody succeeds and changes nothing. */
  lemma DeleteWithoutMatchIsNoOp(m: Manager, env: Env, d: Directory, data: Entries, value: string)
    requires Constructed(m) && Valid(d) && DistinctKeys(data)
    requires Admitted(m, env, d, data, "deleted", value)
    requires forall i :: 0 <= i < |d.users| ==> !Matches(d, QueryFor(m, env, value), d.users[i])
    ensures Upsert(m, env, d, data) == Ok(d)
  {
    DeleteUnfold(m, env, d, data, value);
  }

  /** After the matched user is marked deleted, nobody answers the query any more. */
  lemma DeletedMatchIsGone(d: Directory, q: Query, i: nat)
    requires Valid(d) && i < |d.users| && Matches(d, q, d.users[i])
    requires forall j :: 0 <= j < |d.users| && j != i ==> !Matches(d, q, d.users[j])
    ensures var r := MarkDeleted(d, d.users[i].id);
            forall j :: 0 <= j < |r.users| ==> !Matches(r, q, r.users[j])
  {
    var r := MarkDeleted(d, d.users[i].id);
    forall j | 0 <= j < |r.users| ensures !Matches(r, q, r.users[j]) {
      if j != i {
        assert d.users[j].id != d.users[i].id;
        assert r.users[j] == d.users[j];
      }
    }
  }

  /**
   * After a `deleted` record succeeds, nobody answers its match query any
   * more, unless delete_user refused the matched user, who then stays as is.
   */
  lemma DeleteLeavesNoMatch(m: Manager, env: Env, d: Directory, data: Entries, value: string)
    requires Constructed(m) && Valid(d) && DistinctKeys(data)
    requires Admitted(m, env, d, data, "deleted", value)
    requires Upsert(m, env, d, data).Ok?
    ensures Valid(Upsert(m, env, d, data).value)
    ensures var lookup := GetUser(d, QueryFor(m, env, value));
            lookup.Found? && env.deleteRefused(lookup.user) ==> Upsert(m, env, d, data).value == d
    ensures var lookup := GetUser(d, QueryFor(m, env, value));
            !(lookup.Found? && env.deleteRefused(lookup.user)) ==>
              GetUser(Upsert(m, env, d, data).value, QueryFor(m, env, value)).NotFound?
  {
    var q := QueryFor(m, env, value);
    DeleteUnfold(m, env, d, data, value);
    var lookup := GetUser(d, q);
    if lookup.Found? && !env.deleteRefused(lookup.user) {
      var i :| 0 <= i < |d.users| && d.users[i] == lookup.user && Matches(d, q, lookup.user)
               && forall j :: 0 <= j < |d.users| && j != i ==> !Matches(d, q, d.users[j]);
      DeletedMatchIsGone(d, q, i);
    }
  }

  /** Sending the same `deleted` record twice leaves the database as sending it once. */
  lemma DeleteIsIdempotent(m: Manager, env: Env, d: Directory, data: Entries, value: string)
    requires Constructed(m) && Valid(d) && DistinctKeys(data)
    requires Admitted(m, env, d, data, "deleted", value)
    requires Upsert(m, env, d, data).Ok?
    ensures Upsert(m, env, Upsert(m, env, d, data).value, data) == Upsert(m, env, d, data)
  {
    var once := Upsert(m, env, d, data).value;
    DeleteLeavesNoMatch(m, env, d, data, value);
    var lookup := GetUser(d, QueryFor(m, env, value));
    if !(lookup.Found? && env.deleteRefused(lookup.user)) {
      DeleteUnfold(m, env, once, data, value);
    }
  }

  /**
   * A refusal before the user is created leaves the database as it was; a
   * refusal while updating the fields of a user just created leaves that
   * user behind, live, with a fresh id.
   */
  lemma RejectionLeavesDirectory(m: Manager, env: Env, d: Directory, data: Entries)
    requires Constructed(m) && Valid(d) && DistinctKeys(data)
    requires Upsert(m, env, d, data).Err?
    ensures var rej := Upsert(m, env, d, data).error;
            && (!rej.failure.UpdatingFields? ==> rej.dir == d)
            && (rej.dir != d ==> && |rej.dir.users| == |d.users| + 1 && rej.dir.users[..|d.users|] == d.users
                                 && IsLive(rej.dir.users[|d.users|], env.localHost)
                                 && rej.dir.users[|d.users|].id == NextId(d.users))
  {
    if CheckMandatory(m.config.mapping, data, m.config.mandatoryFields).None? {
      MandatorySupplied(m, data);
      var status := DataOf(data, m.statusField);
      var value := DataOf(data, m.matchingField);
      var lookup := GetUser(d, QueryFor(m, env, value));
      if status in ValidUserStatuses && !lookup.MoreThanOne? && status != "deleted" {
        LiveUnfold(m, env, d, data, status, value);
        var email := DataOf(data, m.emailField);
        var username := DataOf(data, m.usernameField);
        var auth := ChooseAuth(m, data);
        if Checks(env, d, email, username, auth, ExcludeOf(lookup)).None?
           && !(lookup.NotFound? && env.createError(username, auth).Some?) {
          var t := TargetOf(m, env, d, data, username, auth, lookup);
          assert Upsert(m, env, d, data) == Finish(m, env, t.base, data, status, t.row, t.acc, t.updatePassword);
          if lookup.NotFound? {
            CreatedTarget(m, env, d, data, username, auth);
            assert t.base.users == d.users + [t.row];
          }
        }
      }
    }
  }

  /**
   * Rewriting row `i` with a value that no other live local user holds, up to
   * case, keeps the column unique among live local users.
   */
  lemma RowUpdateKeepsUnique(d: Directory, r: Directory, host: nat, column: string, x: string, i: nat)
    requires Valid(d) && UniqueLive(d, host, column) && i < |d.users|
    requires |r.users| == |d.users| && forall j :: 0 <= j < |d.users| && j != i ==> r.users[j] == d.users[j]
    requires column in r.users[i].columns && r.users[i].columns[column] == x
    requires !Empty(column) && !IsUserFieldTaken(d, host, column, x, Some(d.users[i].id))
    ensures UniqueLive(r, host, column)
  {
    assert forall j :: 0 <= j < |d.users| && j != i ==> d.users[j].id != d.users[i].id;
    assert forall j :: 0 <= j < |d.users| ==> !Holds(d.users[j], host, column, x, Some(d.users[i].id));
    FreshValueKeepsUnique(d, r, host, column, x, i);
  }

  /** Appending a row with a value that no live local user holds, up to case, keeps the column unique. */
  lemma RowInsertKeepsUnique(d: Directory, r: Directory, host: nat, column: string, x: string)
    requires UniqueLive(d, host, column)
    requires |r.users| == |d.users| + 1 && forall j :: 0 <= j < |d.users| ==> r.users[j] == d.users[j]
    requires column in r.users[|d.users|].columns && r.users[|d.users|].columns[column] == x
    requires !Empty(column) && !IsUserFieldTaken(d, host, column, x, None)
    ensures UniqueLive(r, host, column)
  {
    assert forall j :: 0 <= j < |d.users| ==> !Holds(d.users[j], host, column, x, None);
    FreshValueKeepsUnique(d, r, host, column, x, |d.users|);
  }

  /** A column written from its mapped record field, checked to be free, stays unique when the matched user is updated. */
  lemma LiveUpdateKeepsUnique(m: Manager, env: Env, d: Directory, data: Entries, status: string, value: string,
                              column: string, wsField: string, x: string, i: nat)
    requires Constructed(m) && Valid(d) && DistinctKeys(data)
    requires Admitted(m, env, d, data, status, value) && status != "deleted"
    requires Upsert(m, env, d, data).Ok?
    requires i < |d.users| && Matches(d, QueryFor(m, env, value), d.users[i])
    requires Get(m.config.mapping, column) == Some(wsField) && Get(data, wsField) == Some(x)
    requires column in d.schema && column != "password" && !Empty(column)
    requires !IsUserFieldTaken(d, env.localHost, column, x, Some(d.users[i].id))
    requires UniqueLive(d, env.localHost, column)
    ensures UniqueLive(Upsert(m, env, d, data).value, env.localHost, column)
  {
    var r := Upsert(m, env, d, data).value;
    assert |r.users| == |d.users| && (forall j :: 0 <= j < |d.users| && j != i ==> r.users[j] == d.users[j])
           && column in r.users[i].columns && r.users[i].columns[column] == x by {
      assert Incoming(m.config.mapping, data, column) == Some(x);
      UpsertUpdatesMatchedUser(m, env, d, data, status, value, i);
      UpdatedUserColumn(m, env, d, data, status, value, i, column);
    }
    RowUpdateKeepsUnique(d, r, env.localHost, column, x, i);
  }

  /** A column written from its mapped record field, checked to be free, stays unique when a user is created. */
  lemma LiveCreateKeepsUnique(m: Manager, env: Env, d: Directory, data: Entries, status: string, value: string,
                              column: string, wsField: string, x: string, username: string)
    requires Constructed(m) && Valid(d) && DistinctKeys(data)
    requires Admitted(m, env, d, data, status, value) && status != "deleted"
    requires Get(data, m.usernameField) == Some(username)
    requires Upsert(m, env, d, data).Ok?
    requires forall i :: 0 <= i < |d.users| ==> !Matches(d, QueryFor(m, env, value), d.users[i])
    requires Get(m.config.mapping, column) == Some(wsField) && Get(data, wsField) == Some(x)
    requires column in d.schema && column != "password" && !Empty(column)
    requires !IsUserFieldTaken(d, env.localHost, column, x, None)
    requires UniqueLive(d, env.localHost, column)
    ensures UniqueLive(Upsert(m, env, d, data).value, env.localHost, column)
  {
    var r := Upsert(m, env, d, data).value;
    assert |r.users| == |d.users| + 1 && (forall j :: 0 <= j < |d.users| ==> r.users[j] == d.users[j])
           && column in r.users[|d.users|].columns && r.users[|d.users|].columns[column] == x by {
      assert Incoming(m.config.mapping, data, column) == Some(x);
      UpsertCreatesUser(m, env, d, data, status, value, username);
      CreatedUserColumn(m, env, d, data, status, value, username, column);
    }
    RowInsertKeepsUnique(d, r, env.localHost, column, x);
  }

  /** A `deleted` record keeps every column unique among live local users. */
  lemma DeleteKeepsUnique(m: Manager, env: Env, d: Directory, data: Entries, value: string, column: string)
    requires Constructed(m) && Valid(d) && DistinctKeys(data)
    requires Admitted(m, env, d, data, "deleted", value)
    requires Upsert(m, env, d, data).Ok?
    requires UniqueLive(d, env.localHost, column)
    ensures UniqueLive(Upsert(m, env, d, data).value, env.localHost, column)
  {
    DeleteUnfold(m, env, d, data, value);
    var lookup := GetUser(d, QueryFor(m, env, value));
    if lookup.Found? {
      MarkDeletedKeepsUnique(d, lookup.user.id, env.localHost, column);
    }
  }

  /** The live branch of the uniqueness argument: the record's value was checked to be free, then written. */
  lemma LiveKeepsUnique(m: Manager, env: Env, d: Directory, data: Entries, status: string, value: string,
                        column: string, wsField: string)
    requires Constructed(m) && Valid(d) && DistinctKeys(data)
    requires (column == "username" && wsField == m.usernameField)
             || (column == "email" && wsField == m.emailField && !env.allowAccountsSameEmail)
    requires Admitted(m, env, d, data, status, value) && status != "deleted"
    requires UniqueLive(d, env.localHost, column)
    requires Upsert(m, env, d, data).Ok?
    ensures UniqueLive(Upsert(m, env, d, data).value, env.localHost, column)
  {
    MandatorySupplied(m, data);
    var username := DataOf(data, m.usernameField);
    var x := DataOf(data, wsField);
    var lookup := GetUser(d, QueryFor(m, env, value));
    assert !IsUserFieldTaken(d, env.localHost, column, x, ExcludeOf(lookup)) by {
      SuccessPassedChecks(m, env, d, data, status, value, DataOf(data, m.emailField), username);
    }
    assert Get(m.config.mapping, column) == Some(wsField) && column in d.schema;
    if lookup.Found? {
      var i :| 0 <= i < |d.users| && d.users[i] == lookup.user && Matches(d, QueryFor(m, env, value), lookup.user);
      LiveUpdateKeepsUnique(m, env, d, data, status, value, column, wsField, x, i);
    } else {
      LiveCreateKeepsUnique(m, env, d, data, status, value, column, wsField, x, username);
    }
  }

  /**
   * The uniqueness argument for a checked column (the username, or the email
   * when shared addresses are not allowed), written from its mapped field.
   */
  lemma UpsertKeepsUnique(m: Manager, env: Env, d: Directory, data: Entries, column: string, wsField: string)
    requires Constructed(m) && Valid(d) && DistinctKeys(data)
    requires (column == "username" && wsField == m.usernameField)
             || (column == "email" && wsField == m.emailField && !env.allowAccountsSameEmail)
    requires UniqueLive(d, env.localHost, column)
    requires Upsert(m, env, d, data).Ok?
    ensures UniqueLive(Upsert(m, env, d, data).value, env.localHost, column)
  {
    assert HasKey(data, m.statusField) && HasKey(data, m.matchingField)
           && Admitted(m, env, d, data, DataOf(data, m.statusField), DataOf(data, m.matchingField)) by {
      SuccessIsAdmitted(m, env, d, data);
      MandatorySupplied(m, data);
    }
    var status := DataOf(data, m.statusField);
    var value := DataOf(data, m.matchingField);
    if status == "deleted" {
      DeleteKeepsUnique(m, env, d, data, value, column);
    } else {
      LiveKeepsUnique(m, env, d, data, status, value, column, wsField);
    }
  }

  /** Usernames of live local users stay unique up to case across any successful upsert. */
  lemma UpsertKeepsUsernamesUnique(m: Manager, env: Env, d: Directory, data: Entries)
    requires Constructed(m) && Valid(d) && DistinctKeys(data)
    requires UniqueLive(d, env.localHost, "username")
    requires Upsert(m, env, d, data).Ok?
    ensures UniqueLive(Upsert(m, env, d, data).value, env.localHost, "username")
  {
    UpsertKeepsUnique(m, env, d, data, "username", m.usernameField);
  }

  /** Unless the site allows accounts to share an email address, emails of live local users stay unique up to case. */
  lemma UpsertKeepsEmailsUnique(m: Manager, env: Env, d: Directory, data: Entries)
    requires Constructed(m) && Valid(d) && DistinctKeys(data)
    requires !env.allowAccountsSameEmail
    requires UniqueLive(d, env.localHost, "email")
    requires Upsert(m, env, d, data).Ok?
    ensures UniqueLive(Upsert(m, env, d, data).value, env.localHost, "email")
  {
    UpsertKeepsUnique(m, env, d, data, "email", m.emailField);
  }
}
