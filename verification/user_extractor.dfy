/**
 * classes/user_extractor.php: finding the one user a record refers to, and
 * asking whether an email address or username is already held by someone else.
 * Both look only at live users of the local host: not deleted, and with the
 * site's own mnethostid.
 */
module UserExtractor {
  import opened Wrappers
  import opened Text
  import opened ProfileFields
  import opened UserDirectory

  /** A user the plugin may see: belongs to the local host and is not deleted. */
  predicate IsLive(u: User, host: nat)
  {
    u.mnetHostId == host && !u.deleted
  }

  /** A custom profile field with this shortname is defined. */
  predicate Defines(cs: seq<CustomField>, shortname: string)
  {
    exists i :: 0 <= i < |cs| && cs[i].shortname == shortname
  }

  /** What `get_user` searches for: a field name (a user column or a prefixed profile field) and its exact value. */
  datatype Query = Query(host: nat, fieldname: string, value: string)

  /**
   * User `u` answers query `q`. A prefixed field name looks in the profile data of
   * the defined field with that shortname; any other name looks in the user column
   * of that name. The value must be equal, and the user live.
   */
  predicate Matches(d: Directory, q: Query, u: User)
  {
    IsLive(u, q.host)
    && if IsCustomProfileField(q.fieldname) then
         var shortname := GetFieldShortName(q.fieldname);
         Defines(d.customFields, shortname) && shortname in u.profile && u.profile[shortname] == q.value
       else
         q.fieldname in u.columns && u.columns[q.fieldname] == q.value
  }

  /** Positions, in increasing order, of the first `n` rows that answer `q`. */
  function MatchIndices(d: Directory, q: Query, n: nat): (r: seq<nat>)
    requires n <= |d.users|
    ensures forall k :: 0 <= k < |r| ==> r[k] < n && Matches(d, q, d.users[r[k]])
    ensures forall i :: 0 <= i < n && Matches(d, q, d.users[i]) ==> i in r
    ensures forall k, l :: 0 <= k < l < |r| ==> r[k] < r[l]
  {
    if n == 0 then []
    else
      var prev := MatchIndices(d, q, n - 1);
      if Matches(d, q, d.users[n - 1]) then
        var r := prev + [n - 1];
        assert forall k :: 0 <= k < |prev| ==> r[k] == prev[k] && r[k] < n - 1;
        assert r[|prev|] == n - 1;
        r
      else prev
  }

  /** The outcome of `get_user`: no user, the one user, or the error raised for several. */
  datatype Lookup = NotFound | Found(user: User) | MoreThanOne

  /**
   * `get_user`: NotFound when no row answers the query, MoreThanOne
   * (more_than_one_user_found_exception) when two do, and otherwise the single
   * row that does.
   */
  function GetUser(d: Directory, q: Query): (r: Lookup)
    ensures r.NotFound? <==> forall i :: 0 <= i < |d.users| ==> !Matches(d, q, d.users[i])
    ensures r.MoreThanOne? <==> exists i, j :: 0 <= i < j < |d.users| && Matches(d, q, d.users[i]) && Matches(d, q, d.users[j])
    ensures r.Found? ==> exists i :: 0 <= i < |d.users| && d.users[i] == r.user && Matches(d, q, r.user)
                                     && forall j :: 0 <= j < |d.users| && j != i ==> !Matches(d, q, d.users[j])
  {
    var ms := MatchIndices(d, q, |d.users|);
    if |ms| == 0 then NotFound
    else if |ms| == 1 then
      assert forall j :: 0 <= j < |d.users| && j != ms[0] ==> !Matches(d, q, d.users[j]) by {
        assert ms == [ms[0]];
      }
      Found(d.users[ms[0]])
    else
      assert Matches(d, q, d.users[ms[0]]) && Matches(d, q, d.users[ms[1]]) && ms[0] < ms[1];
      MoreThanOne
  }

  /** The user `get_user` returns is the row at any position that answers the query. */
  lemma FoundIsTheMatch(d: Directory, q: Query, i: nat)
    requires i < |d.users| && Matches(d, q, d.users[i])
    requires GetUser(d, q).Found?
    ensures GetUser(d, q).user == d.users[i]
  {
  }

  /** A profile-field query for a shortname no field defines finds nobody, whatever the data. */
  lemma UndefinedFieldFindsNobody(d: Directory, q: Query)
    requires IsCustomProfileField(q.fieldname) && !Defines(d.customFields, GetFieldShortName(q.fieldname))
    ensures GetUser(d, q).NotFound?
  {
  }

  /** `if ($excludeuserid)`: an id of 0 (or none) excludes nobody. */
  predicate Excluded(u: User, exclude: Option<int>)
  {
    exclude.Some? && exclude.value != 0 && u.id == exclude.value
  }

  /** User `u` holds `value` in `column`, up to case, is live, and is not the excluded user. */
  predicate Holds(u: User, host: nat, column: string, value: string, exclude: Option<int>)
  {
    IsLive(u, host) && column in u.columns && EqualIgnoringCase(u.columns[column], value) && !Excluded(u, exclude)
  }

  /** Whether some user of `users` holds the value. */
  function AnyHolds(users: seq<User>, host: nat, column: string, value: string, exclude: Option<int>): (r: bool)
    ensures r <==> exists i :: 0 <= i < |users| && Holds(users[i], host, column, value, exclude)
  {
    if |users| == 0 then false
    else if Holds(users[0], host, column, value, exclude) then true
    else
      var rest := AnyHolds(users[1..], host, column, value, exclude);
      assert rest <==> exists i :: 1 <= i < |users| && Holds(users[i], host, column, value, exclude) by {
        assert forall i :: 1 <= i < |users| ==> users[i] == users[1..][i - 1];
      }
      rest
  }

  /**
   * `is_user_field_taken`: an empty column name is never taken; otherwise the
   * value is taken when a live local user other than the excluded one holds it,
   * compared without regard to case.
   */
  function IsUserFieldTaken(d: Directory, host: nat, column: string, value: string, exclude: Option<int>): (r: bool)
    ensures r <==> !Empty(column) && exists i :: 0 <= i < |d.users| && Holds(d.users[i], host, column, value, exclude)
  {
    if Empty(column) then false else AnyHolds(d.users, host, column, value, exclude)
  }

  /** `is_email_taken`. */
  function IsEmailTaken(d: Directory, host: nat, email: string, exclude: Option<int>): (r: bool)
    ensures r <==> exists i :: 0 <= i < |d.users| && Holds(d.users[i], host, "email", email, exclude)
  {
    IsUserFieldTaken(d, host, "email", email, exclude)
  }

  /** `is_username_taken`. */
  function IsUsernameTaken(d: Directory, host: nat, username: string, exclude: Option<int>): (r: bool)
    ensures r <==> exists i :: 0 <= i < |d.users| && Holds(d.users[i], host, "username", username, exclude)
  {
    IsUserFieldTaken(d, host, "username", username, exclude)
  }

  /** Two values that differ only in case are taken alike. */
  lemma TakenIgnoresCase(d: Directory, host: nat, column: string, a: string, b: string, exclude: Option<int>)
    requires EqualIgnoringCase(a, b)
    ensures IsUserFieldTaken(d, host, column, a, exclude) == IsUserFieldTaken(d, host, column, b, exclude)
  {
    forall i | 0 <= i < |d.users| && column in d.users[i].columns
      ensures EqualIgnoringCase(d.users[i].columns[column], a) <==> EqualIgnoringCase(d.users[i].columns[column], b)
    {
      var v := d.users[i].columns[column];
      assert forall k :: 0 <= k < |a| ==> FoldChar(a[k]) == FoldChar(b[k]);
    }
  }

  /** Excluding id 0 is the same as excluding nobody. */
  lemma ExcludeZeroIsNoExclusion(d: Directory, host: nat, column: string, value: string)
    ensures IsUserFieldTaken(d, host, column, value, Some(0)) == IsUserFieldTaken(d, host, column, value, None)
  {
    assert forall u: User :: Excluded(u, Some(0)) == Excluded(u, None);
  }

  /** The excluded user never counts against itself: a value only it holds is free. */
  lemma OwnValueIsNotTaken(d: Directory, host: nat, column: string, value: string, i: nat)
    requires i < |d.users| && d.users[i].id != 0
    requires forall j :: 0 <= j < |d.users| && j != i ==> !Holds(d.users[j], host, column, value, None)
    requires DistinctIds(d.users)
    ensures !IsUserFieldTaken(d, host, column, value, Some(d.users[i].id))
  {
    forall j | 0 <= j < |d.users|
      ensures !Holds(d.users[j], host, column, value, Some(d.users[i].id))
    {
      if j != i {
        assert !Holds(d.users[j], host, column, value, None);
      }
    }
  }
}
