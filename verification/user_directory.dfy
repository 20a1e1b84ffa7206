/**
 * The slice of the Moodle database the plugin reads and writes: the user
 * table (one row per account, with the structural columns id, mnethostid and
 * deleted kept apart from the ordinary ones), each user's custom profile data
 * keyed by field shortname, and the custom profile field definitions.
 */
module UserDirectory {
  import opened ProfileFields

  /** One row of the user table together with that user's custom profile data. */
  datatype User = User(id: nat, mnetHostId: nat, deleted: bool,
                       columns: map<string, string>, profile: map<string, string>)

  /**
   * The database: the user table's ordinary column names, its rows, and the
   * custom profile field definitions.
   */
  datatype Directory = Directory(schema: set<string>, users: seq<User>, customFields: seq<CustomField>)

  /** The columns the plugin reads or writes by name are part of the user table. */
  predicate KnownColumns(schema: set<string>)
  {
    "username" in schema && "email" in schema && "auth" in schema
    && "password" in schema && "suspended" in schema && "description" in schema
  }

  /** A well-formed user row: exactly the table's columns. */
  predicate RowShaped(d: Directory, u: User)
  {
    u.columns.Keys == d.schema
  }

  predicate DistinctIds(users: seq<User>)
  {
    forall i, j :: 0 <= i < j < |users| ==> users[i].id != users[j].id
  }

  /** The database invariant: known columns, shaped rows, unique ids, unique profile field shortnames. */
  predicate Valid(d: Directory)
  {
    && KnownColumns(d.schema)
    && (forall i :: 0 <= i < |d.users| ==> RowShaped(d, d.users[i]))
    && DistinctIds(d.users)
    && UniqueShortnames(d.customFields)
  }

  predicate HasId(d: Directory, id: nat)
  {
    exists i :: 0 <= i < |d.users| && d.users[i].id == id
  }

  /** The id the database hands out to the next inserted row: above every id in use. */
  function NextId(users: seq<User>): (r: nat)
    ensures forall i :: 0 <= i < |users| ==> users[i].id < r
  {
    if |users| == 0 then 1
    else
      var rest := NextId(users[1..]);
      assert forall i :: 1 <= i < |users| ==> users[i] == users[1..][i - 1];
      if users[0].id < rest then rest else users[0].id + 1
  }

  /** Inserting a row with a fresh id. */
  function Insert(d: Directory, u: User): (r: Directory)
    requires Valid(d) && RowShaped(d, u) && !HasId(d, u.id)
    ensures Valid(r)
    ensures r.users == d.users + [u] && r.schema == d.schema && r.customFields == d.customFields
  {
    var r := d.(users := d.users + [u]);
    assert DistinctIds(r.users) by {
      forall i, j | 0 <= i < j < |r.users| ensures r.users[i].id != r.users[j].id {
        assert r.users[i] == d.users[i];
        if j < |d.users| { assert r.users[j] == d.users[j]; }
      }
    }
    assert forall i :: 0 <= i < |r.users| ==> RowShaped(r, r.users[i]) by {
      forall i | 0 <= i < |r.users| ensures RowShaped(r, r.users[i]) {
        if i < |d.users| { assert r.users[i] == d.users[i]; }
      }
    }
    r
  }

  /** Writing row `u` back over the row with the same id; every other row stays as it was. */
  function Replace(d: Directory, u: User): (r: Directory)
    requires Valid(d) && RowShaped(d, u)
    ensures Valid(r)
    ensures r.schema == d.schema && r.customFields == d.customFields && |r.users| == |d.users|
    ensures forall i :: 0 <= i < |d.users| ==> r.users[i] == (if d.users[i].id == u.id then u else d.users[i])
  {
    var users := seq(|d.users|, i requires 0 <= i < |d.users| => if d.users[i].id == u.id then u else d.users[i]);
    var r := d.(users := users);
    assert forall i :: 0 <= i < |users| ==> users[i].id == d.users[i].id;
    r
  }

  /** The row with id `id` marked deleted; no row is removed and nothing else changes. */
  function MarkDeleted(d: Directory, id: nat): (r: Directory)
    requires Valid(d)
    ensures Valid(r)
    ensures r.schema == d.schema && r.customFields == d.customFields && |r.users| == |d.users|
    ensures forall i :: 0 <= i < |d.users| ==>
              r.users[i] == (if d.users[i].id == id then d.users[i].(deleted := true) else d.users[i])
  {
    var users := seq(|d.users|, i requires 0 <= i < |d.users| =>
                       if d.users[i].id == id then d.users[i].(deleted := true) else d.users[i]);
    var r := d.(users := users);
    assert forall i :: 0 <= i < |users| ==> users[i].id == d.users[i].id && users[i].columns == d.users[i].columns;
    r
  }

  /** Marking a row deleted a second time changes nothing. */
  lemma MarkDeletedIdempotent(d: Directory, id: nat)
    requires Valid(d)
    ensures MarkDeleted(MarkDeleted(d, id), id) == MarkDeleted(d, id)
  {
    var once := MarkDeleted(d, id);
    var twice := MarkDeleted(once, id);
    assert forall i :: 0 <= i < |d.users| ==> twice.users[i] == once.users[i];
  }
}
