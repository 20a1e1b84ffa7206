/**
 * Naming of user profile (custom) fields and the list of fields a user can be
 * matched by, as in classes/profile_fields.php. A custom field is addressed in
 * the plugin's configuration as `profile_field_<shortname>`.
 */
module ProfileFields {
  import opened Wrappers
  import opened OrderedMap

  /** The {user} table columns a user can be matched by, in this order. */
  const MatchFieldsFromUserTable: seq<string> := ["username", "idnumber", "email"]

  /** The profile field data types that can serve as a match field. */
  const SupportedTypesOfProfileFields: seq<string> := ["text"]

  /** The prefix that marks a configuration field name as a profile field. */
  const ProfileFieldPrefix: string := "profile_field_"

  /** A profile field definition (a row of {user_info_field}). */
  datatype CustomField = CustomField(shortname: string, name: string, dataType: string, forceUnique: int)

  /** `prefix_custom_profile_field`. */
  function PrefixCustomProfileField(shortname: string): string
  {
    ProfileFieldPrefix + shortname
  }

  /** `is_custom_profile_field`: `strpos` finds the prefix at position 0, i.e. the name starts with it. */
  predicate IsCustomProfileField(fieldname: string)
  {
    ProfileFieldPrefix <= fieldname
  }

  /** `get_field_short_name`: strips the prefix once when it is there, otherwise returns the name unchanged. */
  function GetFieldShortName(fieldname: string): (r: string)
    ensures IsCustomProfileField(fieldname) ==> ProfileFieldPrefix + r == fieldname
    ensures !IsCustomProfileField(fieldname) ==> r == fieldname
  {
    if IsCustomProfileField(fieldname) then fieldname[|ProfileFieldPrefix|..] else fieldname
  }

  /** A name is a profile field name exactly when it is some shortname with the prefix in front. */
  lemma CustomIffPrefixed(fieldname: string)
    ensures IsCustomProfileField(fieldname) <==> exists s :: fieldname == PrefixCustomProfileField(s)
  {
    if IsCustomProfileField(fieldname) {
      assert fieldname == PrefixCustomProfileField(fieldname[|ProfileFieldPrefix|..]);
    }
  }

  /** Prefixing always yields a profile field name, and stripping it gives the shortname back. */
  lemma ShortNameRoundTrip(shortname: string)
    ensures IsCustomProfileField(PrefixCustomProfileField(shortname))
    ensures GetFieldShortName(PrefixCustomProfileField(shortname)) == shortname
  {
    assert ProfileFieldPrefix <= ProfileFieldPrefix + shortname;
  }

  /** For a profile field name, re-prefixing its shortname gives the name back. */
  lemma PrefixRoundTrip(fieldname: string)
    requires IsCustomProfileField(fieldname)
    ensures PrefixCustomProfileField(GetFieldShortName(fieldname)) == fieldname
  {
  }

  /** The cases pinned down for these helpers, including the prefix on its own and a doubled prefix. */
  lemma NamingExamples()
    ensures IsCustomProfileField("profile_field_test")
    ensures IsCustomProfileField("profile_field_")
    ensures IsCustomProfileField("profile_field_profile_field_")
    ensures !IsCustomProfileField("profiletest")
    ensures !IsCustomProfileField("profile")
    ensures !IsCustomProfileField("Test")
    ensures GetFieldShortName("profile_field_profile_field_test") == "profile_field_test"
    ensures GetFieldShortName("profile_field_test") == "test"
    ensures GetFieldShortName("test") == "test"
    ensures GetFieldShortName("profile_field_") == ""
  {
    assert "profiletest"[7] != ProfileFieldPrefix[7];
    assert "Test"[0] != ProfileFieldPrefix[0];
    assert "test"[0] != ProfileFieldPrefix[0];
    assert "profile_field_profile_field_test" == ProfileFieldPrefix + "profile_field_test";
    assert "profile_field_test" == ProfileFieldPrefix + "test";
  }

  /** The filter of `get_supported_match_fields`: a text field whose values are forced unique. */
  predicate Qualifies(f: CustomField)
  {
    f.dataType in SupportedTypesOfProfileFields && f.forceUnique == 1
  }

  /** Profile field shortnames are unique, as the {user_info_field} table keeps them. */
  predicate UniqueShortnames(cs: seq<CustomField>)
  {
    forall i, j :: 0 <= i < j < |cs| ==> cs[i].shortname != cs[j].shortname
  }

  /** How many fields of `cs` qualify. */
  function NumQualifying(cs: seq<CustomField>): nat
  {
    if |cs| == 0 then 0 else (if Qualifies(cs[0]) then 1 else 0) + NumQualifying(cs[1..])
  }

  /** The `array_column` entry of a field: shortname -> name. */
  function Column(f: CustomField): (string, string)
  {
    (f.shortname, f.name)
  }

  /** Entry `e` is the column of some qualifying field of `cs`. */
  predicate FromQualifying(cs: seq<CustomField>, e: (string, string))
  {
    exists i :: 0 <= i < |cs| && Qualifies(cs[i]) && e == Column(cs[i])
  }

  /**
   * `array_column(array_filter(...), 'name', 'shortname')`: the qualifying fields,
   * shortname -> name, in input order (see QualifyingColumnAt and
   * QualifyingColumnFrom).
   */
  function QualifyingColumns(cs: seq<CustomField>): (r: Entries)
    ensures |r| == NumQualifying(cs)
  {
    if |cs| == 0 then []
    else (if Qualifies(cs[0]) then [Column(cs[0])] else []) + QualifyingColumns(cs[1..])
  }

  /**
   * Every qualifying field is in the columns, at the position given by the
   * number of qualifying fields before it; so the columns keep input order.
   */
  lemma {:induction false} QualifyingColumnAt(cs: seq<CustomField>, i: nat)
    requires i < |cs| && Qualifies(cs[i])
    ensures NumQualifying(cs[..i]) < |QualifyingColumns(cs)|
    ensures QualifyingColumns(cs)[NumQualifying(cs[..i])] == Column(cs[i])
  {
    if i > 0 {
      QualifyingColumnAt(cs[1..], i - 1);
      assert cs[..i][1..] == cs[1..][..i - 1];
      assert cs[1..][i - 1] == cs[i];
    }
  }

  /** Every column comes from a qualifying field. */
  lemma {:induction false} QualifyingColumnFrom(cs: seq<CustomField>, p: nat)
    requires p < |QualifyingColumns(cs)|
    ensures FromQualifying(cs, QualifyingColumns(cs)[p])
  {
    var h := if Qualifies(cs[0]) then 1 else 0;
    if p >= h {
      QualifyingColumnFrom(cs[1..], p - h);
      var i :| 0 <= i < |cs[1..]| && Qualifies(cs[1..][i]) && QualifyingColumns(cs[1..])[p - h] == Column(cs[1..][i]);
      assert cs[i + 1] == cs[1..][i];
    }
  }

  /** Every entry with its key prefixed. */
  function Prefixed(es: Entries): (r: Entries)
    ensures |r| == |es|
    ensures forall i :: 0 <= i < |es| ==> r[i] == (PrefixCustomProfileField(es[i].0), es[i].1)
  {
    if |es| == 0 then [] else [(PrefixCustomProfileField(es[0].0), es[0].1)] + Prefixed(es[1..])
  }

  /** The fixed user-table entries, labelled by the site's language strings. */
  function FixedMatchFields(labelOf: string -> string): Entries
  {
    [("username", labelOf("username")), ("idnumber", labelOf("idnumber")), ("email", labelOf("email"))]
  }

  /** A prefixed name is never one of the user-table match fields. */
  lemma PrefixedIsNotUserColumn(s: string)
    ensures PrefixCustomProfileField(s) !in MatchFieldsFromUserTable
  {
    assert PrefixCustomProfileField(s)[0] == 'p';
  }

  /** Prefixing is injective. */
  lemma PrefixInjective(a: string, b: string)
    ensures PrefixCustomProfileField(a) == PrefixCustomProfileField(b) ==> a == b
  {
    assert PrefixCustomProfileField(a)[|ProfileFieldPrefix|..] == a;
    assert PrefixCustomProfileField(b)[|ProfileFieldPrefix|..] == b;
  }

  /** With unique shortnames, the qualifying columns have distinct keys. */
  lemma {:induction false} QualifyingDistinct(cs: seq<CustomField>)
    requires UniqueShortnames(cs)
    ensures DistinctKeys(QualifyingColumns(cs))
  {
    if |cs| > 0 {
      var rest := cs[1..];
      assert UniqueShortnames(rest) by {
        forall i, j | 0 <= i < j < |rest| ensures rest[i].shortname != rest[j].shortname {
          assert rest[i] == cs[i + 1] && rest[j] == cs[j + 1];
        }
      }
      QualifyingDistinct(rest);
      var tail := QualifyingColumns(rest);
      if Qualifies(cs[0]) {
        var r := [Column(cs[0])] + tail;
        forall q | 0 <= q < |tail| ensures tail[q].0 != cs[0].shortname {
          QualifyingColumnFrom(rest, q);
          var i :| 0 <= i < |rest| && Qualifies(rest[i]) && tail[q] == Column(rest[i]);
          assert rest[i] == cs[i + 1];
        }
        assert DistinctKeys(r) by {
          forall p, q | 0 <= p < q < |r| ensures r[p].0 != r[q].0 {
            assert r[q] == tail[q - 1];
            if p > 0 { assert r[p] == tail[p - 1]; }
          }
        }
      }
    }
  }

  /** The three user-table fields have distinct keys. */
  lemma FixedDistinct(labelOf: string -> string)
    ensures DistinctKeys(FixedMatchFields(labelOf))
    ensures forall i :: 0 <= i < 3 ==> FixedMatchFields(labelOf)[i].0 == MatchFieldsFromUserTable[i]
  {
    var f := FixedMatchFields(labelOf);
    assert f[0].0[0] == 'u' && f[1].0[0] == 'i' && f[2].0[0] == 'e';
  }

  /** Prefixing every key of an array with distinct keys keeps them distinct and clear of the user-table fields. */
  lemma PrefixedDistinct(labelOf: string -> string, es: Entries)
    requires DistinctKeys(es)
    ensures DistinctKeys(FixedMatchFields(labelOf) + Prefixed(es))
  {
    var fixed := FixedMatchFields(labelOf);
    var pes := Prefixed(es);
    var r := fixed + pes;
    FixedDistinct(labelOf);
    forall p, q | 0 <= p < q < |r| ensures r[p].0 != r[q].0 {
      if q >= 3 {
        assert r[q] == pes[q - 3];
        PrefixedIsNotUserColumn(es[q - 3].0);
        if p >= 3 {
          assert r[p] == pes[p - 3];
          PrefixInjective(es[p - 3].0, es[q - 3].0);
        } else {
          assert r[p].0 == MatchFieldsFromUserTable[p];
        }
      } else {
        assert r[p] == fixed[p] && r[q] == fixed[q];
      }
    }
  }

  /**
   * `get_supported_match_fields` as evidently intended: the three user-table
   * fields, then every qualifying profile field under its prefixed shortname,
   * labelled by its name (see IntendedPosition and IntendedOnlyQualifying).
   */
  function SupportedMatchFields(labelOf: string -> string, cs: seq<CustomField>): (r: Entries)
    requires UniqueShortnames(cs)
    ensures |r| == 3 + NumQualifying(cs)
    ensures DistinctKeys(r)
    ensures forall i :: 0 <= i < 3 ==> r[i] == (MatchFieldsFromUserTable[i], labelOf(MatchFieldsFromUserTable[i]))
  {
    assert DistinctKeys(FixedMatchFields(labelOf) + Prefixed(QualifyingColumns(cs))) by {
      QualifyingDistinct(cs);
      PrefixedDistinct(labelOf, QualifyingColumns(cs));
    }
    FixedMatchFields(labelOf) + Prefixed(QualifyingColumns(cs))
  }

  /**
   * Every qualifying field is offered, under its prefixed shortname and
   * labelled by its name, after the fixed fields and at its rank among the
   * qualifying fields; so profile fields keep their input order.
   */
  lemma IntendedPosition(labelOf: string -> string, cs: seq<CustomField>, i: nat)
    requires UniqueShortnames(cs)
    requires i < |cs| && Qualifies(cs[i])
    ensures var r := SupportedMatchFields(labelOf, cs);
            3 + NumQualifying(cs[..i]) < |r|
            && r[3 + NumQualifying(cs[..i])] == (PrefixCustomProfileField(cs[i].shortname), cs[i].name)
  {
    QualifyingColumnAt(cs, i);
    var k := NumQualifying(cs[..i]);
    var r := SupportedMatchFields(labelOf, cs);
    assert r == FixedMatchFields(labelOf) + Prefixed(QualifyingColumns(cs));
    assert r[3 + k] == Prefixed(QualifyingColumns(cs))[k];
  }

  /** Nothing but the fixed fields and qualifying profile fields is offered. */
  lemma IntendedOnlyQualifying(labelOf: string -> string, cs: seq<CustomField>, p: nat)
    requires UniqueShortnames(cs)
    requires 3 <= p < |SupportedMatchFields(labelOf, cs)|
    ensures exists i :: 0 <= i < |cs| && Qualifies(cs[i])
              && SupportedMatchFields(labelOf, cs)[p] == (PrefixCustomProfileField(cs[i].shortname), cs[i].name)
  {
    var r := SupportedMatchFields(labelOf, cs);
    assert r == FixedMatchFields(labelOf) + Prefixed(QualifyingColumns(cs));
    QualifyingColumnFrom(cs, p - 3);
    assert r[p] == Prefixed(QualifyingColumns(cs))[p - 3];
  }

  // ----- the key-renaming loop as written -----

  /**
   * The renaming loop of `get_supported_match_fields` as written: `foreach`
   * walks a snapshot of the array (`snapshot`) while the body assigns the
   * prefixed key and unsets the original one in the live array (`current`).
   */
  function RenameKeysAsWritten(snapshot: Entries, current: Entries): (r: Entries)
    requires DistinctKeys(current)
    ensures DistinctKeys(r)
    decreases |snapshot|
  {
    if |snapshot| == 0 then current
    else RenameKeysAsWritten(snapshot[1..], RenamePass(current, snapshot[0].0, snapshot[0].1))
  }

  /** The renaming loop leaves only keys of the live array and prefixed keys of the snapshot. */
  lemma {:induction false} RenameKeysAsWrittenKeys(snapshot: Entries, current: Entries, n: string)
    requires DistinctKeys(current)
    ensures HasKey(RenameKeysAsWritten(snapshot, current), n) ==>
              HasKey(current, n) || exists i :: 0 <= i < |snapshot| && n == PrefixCustomProfileField(snapshot[i].0)
    decreases |snapshot|
  {
    if |snapshot| > 0 {
      var rest := snapshot[1..];
      var next := RenamePass(current, snapshot[0].0, snapshot[0].1);
      var r := RenameKeysAsWritten(rest, next);
      assert r == RenameKeysAsWritten(snapshot, current);
      RenamePassGet(current, snapshot[0].0, snapshot[0].1, n);
      RenameKeysAsWrittenKeys(rest, next, n);
      if HasKey(r, n) && !HasKey(next, n) {
        var i :| 0 <= i < |rest| && n == PrefixCustomProfileField(rest[i].0);
        assert rest[i] == snapshot[i + 1];
      }
    }
  }

  /** After the renaming loop the last original key is gone and its prefixed key holds its value. */
  lemma {:induction false} RenameKeysAsWrittenLast(snapshot: Entries, current: Entries)
    requires DistinctKeys(current)
    requires |snapshot| > 0
    ensures !HasKey(RenameKeysAsWritten(snapshot, current), snapshot[|snapshot| - 1].0)
    ensures Get(RenameKeysAsWritten(snapshot, current), PrefixCustomProfileField(snapshot[|snapshot| - 1].0))
              == Some(snapshot[|snapshot| - 1].1)
    decreases |snapshot|
  {
    var rest := snapshot[1..];
    var next := RenamePass(current, snapshot[0].0, snapshot[0].1);
    assert RenameKeysAsWritten(rest, next) == RenameKeysAsWritten(snapshot, current);
    if |rest| == 0 {
      RenamePassGet(current, snapshot[0].0, snapshot[0].1, "");
    } else {
      assert rest[|rest| - 1] == snapshot[|snapshot| - 1];
      RenameKeysAsWrittenLast(rest, next);
    }
  }

  /** The loop body: `$options[prefix . $key] = $value; unset($options[$key]);` (see RenamePassGet). */
  function RenamePass(current: Entries, key: string, value: string): (r: Entries)
    requires DistinctKeys(current)
    ensures DistinctKeys(r)
  {
    Remove(Put(current, PrefixCustomProfileField(key), value), key)
  }

  /**
   * One pass of the loop body: the original key goes, the prefixed key holds
   * the value, and any other key is present and valued exactly as before.
   */
  lemma RenamePassGet(current: Entries, key: string, value: string, n: string)
    requires DistinctKeys(current)
    ensures !HasKey(RenamePass(current, key, value), key)
    ensures Get(RenamePass(current, key, value), PrefixCustomProfileField(key)) == Some(value)
    ensures HasKey(RenamePass(current, key, value), n) <==> n != key && (HasKey(current, n) || n == PrefixCustomProfileField(key))
    ensures n != key && n != PrefixCustomProfileField(key) ==> Get(RenamePass(current, key, value), n) == Get(current, n)
  {
    var pk := PrefixCustomProfileField(key);
    var put := Put(current, pk, value);
    assert |pk| > |key|;
    PutGet(current, pk, value);
    RemoveGet(put, key, pk);
    PutKeys(current, pk, value, n);
    RemoveGet(put, key, n);
    if n != key && n != pk {
      PutGetOther(current, pk, value, n);
    }
  }

  /** `get_supported_match_fields` exactly as written. */
  function SupportedMatchFieldsAsWritten(labelOf: string -> string, cs: seq<CustomField>): (r: Entries)
    requires UniqueShortnames(cs)
    ensures DistinctKeys(r)
    ensures |r| >= 3 && forall i :: 0 <= i < 3 ==> r[i].0 == MatchFieldsFromUserTable[i]
  {
    var fixed := FixedMatchFields(labelOf);
    FixedDistinct(labelOf);
    if |cs| == 0 then fixed
    else
      var options := QualifyingColumns(cs);
      QualifyingDistinct(cs);
      var renamed := RenameKeysAsWritten(options, options);
      FixedDistinct(labelOf);
      MergeKeepsFront(fixed, renamed);
      Merge(fixed, renamed)
  }

  /** Merging into an array with distinct keys keeps its keys distinct and its existing entries' keys in place. */
  lemma {:induction false} MergeKeepsFront(a: Entries, b: Entries)
    requires DistinctKeys(a)
    ensures DistinctKeys(Merge(a, b))
    ensures |Merge(a, b)| >= |a|
    ensures forall i :: 0 <= i < |a| ==> Merge(a, b)[i].0 == a[i].0
    decreases |b|
  {
    if |b| > 0 {
      MergeKeepsFront(Put(a, b[0].0, b[0].1), b[1..]);
    }
  }

  /**
   * One pass of the loop body when the prefixed key is new: it lands at the
   * end and the original entry leaves the front.
   */
  lemma RenameStep(current: Entries, v: string)
    requires DistinctKeys(current) && |current| > 0
    requires !HasKey(current, PrefixCustomProfileField(current[0].0))
    ensures RenamePass(current, current[0].0, v) == current[1..] + [(PrefixCustomProfileField(current[0].0), v)]
  {
    var key := current[0].0;
    var put := Put(current, PrefixCustomProfileField(key), v);
    assert put == current + [(PrefixCustomProfileField(key), v)];
    assert put[0].0 == key;
    assert put[1..] == current[1..] + [(PrefixCustomProfileField(key), v)];
  }

  /** No key of `current` is the prefixed form of a key of `snapshot`. */
  predicate NoCollision(snapshot: Entries, current: Entries)
  {
    forall i, j :: 0 <= i < |snapshot| && 0 <= j < |current| ==>
      current[j].0 != PrefixCustomProfileField(snapshot[i].0)
  }

  /** One pass of the loop when the prefixed key is new: the head of the snapshot moves, prefixed, to the end. */
  lemma RenameUnfold(snapshot: Entries, tail: Entries)
    requires |snapshot| > 0
    requires DistinctKeys(snapshot + tail)
    requires NoCollision(snapshot, snapshot + tail)
    ensures var next := snapshot[1..] + (tail + [(PrefixCustomProfileField(snapshot[0].0), snapshot[0].1)]);
            && DistinctKeys(next)
            && RenameKeysAsWritten(snapshot, snapshot + tail) == RenameKeysAsWritten(snapshot[1..], next)
  {
    var current := snapshot + tail;
    var x := (PrefixCustomProfileField(snapshot[0].0), snapshot[0].1);
    assert current[0] == snapshot[0] && !HasKey(current, x.0) by {
      assert current[0] == snapshot[0];
    }
    RenameStep(current, x.1);
    assert current[1..] + [x] == snapshot[1..] + (tail + [x]) by {
      assert current[1..] == snapshot[1..] + tail;
    }
  }

  /** The no-collision condition survives one pass of the loop body. */
  lemma NoCollisionAfterStep(snapshot: Entries, tail: Entries)
    requires |snapshot| > 0
    requires DistinctKeys(snapshot + tail)
    requires NoCollision(snapshot, snapshot + tail)
    ensures NoCollision(snapshot[1..], snapshot[1..] + (tail + [(PrefixCustomProfileField(snapshot[0].0), snapshot[0].1)]))
  {
    var current := snapshot + tail;
    var key := snapshot[0].0;
    var rest := snapshot[1..];
    var next := rest + (tail + [(PrefixCustomProfileField(key), snapshot[0].1)]);
    forall i, j | 0 <= i < |rest| && 0 <= j < |next|
      ensures next[j].0 != PrefixCustomProfileField(rest[i].0)
    {
      assert rest[i] == current[i + 1];
      if j < |next| - 1 {
        assert next[j] == current[j + 1];
      } else {
        assert current[0].0 != current[i + 1].0;
        PrefixInjective(key, rest[i].0);
      }
    }
  }

  /**
   * While no key of the live array is the prefixed form of a key still to be
   * renamed, each pass appends the prefixed entry and drops the original from
   * the front, so the loop ends with what followed the snapshot and then the
   * prefixed snapshot.
   */
  lemma {:induction false} RenameWithoutCollision(snapshot: Entries, tail: Entries)
    requires DistinctKeys(snapshot + tail)
    requires NoCollision(snapshot, snapshot + tail)
    ensures RenameKeysAsWritten(snapshot, snapshot + tail) == tail + Prefixed(snapshot)
    decreases |snapshot|
  {
    if |snapshot| == 0 {
      assert snapshot + tail == tail;
    } else {
      var x := (PrefixCustomProfileField(snapshot[0].0), snapshot[0].1);
      var rest := snapshot[1..];
      assert RenameKeysAsWritten(snapshot, snapshot + tail) == (tail + [x]) + Prefixed(rest) by {
        RenameUnfold(snapshot, tail);
        NoCollisionAfterStep(snapshot, tail);
        RenameWithoutCollision(rest, tail + [x]);
      }
      assert (tail + [x]) + Prefixed(rest) == tail + Prefixed(snapshot) by {
        assert Prefixed(snapshot) == [x] + Prefixed(rest);
      }
    }
  }

  /**
   * When no qualifying shortname is the prefixed form of another qualifying
   * shortname, the code as written agrees with the intended list.
   */
  lemma AsWrittenAgreesWithoutCollision(labelOf: string -> string, cs: seq<CustomField>)
    requires UniqueShortnames(cs)
    requires forall i, j :: 0 <= i < |cs| && 0 <= j < |cs| && Qualifies(cs[i]) && Qualifies(cs[j]) ==>
               cs[j].shortname != PrefixCustomProfileField(cs[i].shortname)
    ensures SupportedMatchFieldsAsWritten(labelOf, cs) == SupportedMatchFields(labelOf, cs)
  {
    var options := QualifyingColumns(cs);
    QualifyingDistinct(cs);
    if |cs| > 0 {
      assert NoCollision(options, options) by {
        forall i, j | 0 <= i < |options| && 0 <= j < |options|
          ensures options[j].0 != PrefixCustomProfileField(options[i].0)
        {
          QualifyingColumnFrom(cs, i);
          QualifyingColumnFrom(cs, j);
        }
      }
      assert options + [] == options;
      RenameWithoutCollision(options, []);
      var fixed := FixedMatchFields(labelOf);
      var renamed := RenameKeysAsWritten(options, options);
      assert renamed == Prefixed(options);
      PrefixedDistinct(labelOf, options);
      MergeDisjoint(fixed, renamed);
      assert SupportedMatchFieldsAsWritten(labelOf, cs) == Merge(fixed, renamed);
      assert SupportedMatchFields(labelOf, cs) == fixed + Prefixed(options);
    }
  }

  /** The two fields of the counterexample: `s` and the field whose shortname is `s` with the prefix in front. */
  function CollidingPair(s: string, a: string, b: string): seq<CustomField>
  {
    [CustomField(s, a, "text", 1), CustomField(PrefixCustomProfileField(s), b, "text", 1)]
  }

  /**
   * A unique text field with shortname `s` next to a unique text field whose
   * shortname is `profile_field_` + `s`: the loop as written first assigns the
   * key `profile_field_` + `s` over the second field's own entry, then renames
   * that entry away, so field `s` is missing from the list although it
   * qualifies. The intended list holds both.
   */
  lemma CollidingShortnamesDropField(labelOf: string -> string, s: string, a: string, b: string)
    ensures UniqueShortnames(CollidingPair(s, a, b))
    ensures SupportedMatchFieldsAsWritten(labelOf, CollidingPair(s, a, b))
              == FixedMatchFields(labelOf) + [(PrefixCustomProfileField(PrefixCustomProfileField(s)), b)]
    ensures SupportedMatchFields(labelOf, CollidingPair(s, a, b))
              == FixedMatchFields(labelOf) + [(PrefixCustomProfileField(s), a), (PrefixCustomProfileField(PrefixCustomProfileField(s)), b)]
  {
    CollidingColumns(s, a, b);
    CollidingAsWritten(labelOf, s, a, b);
    CollidingIntended(labelOf, s, a, b);
  }

  /** The concrete instance: fields `a` and `profile_field_a`. */
  lemma CollidingShortnamesExample(labelOf: string -> string)
    ensures SupportedMatchFieldsAsWritten(labelOf, [CustomField("a", "A", "text", 1), CustomField("profile_field_a", "PA", "text", 1)])
              == FixedMatchFields(labelOf) + [(PrefixCustomProfileField("profile_field_a"), "PA")]
  {
    assert PrefixCustomProfileField("a") == "profile_field_a";
    CollidingShortnamesDropField(labelOf, "a", "A", "PA");
  }

  /** The array_column step of the counterexample keeps both fields, in order. */
  lemma CollidingColumns(s: string, a: string, b: string)
    ensures UniqueShortnames(CollidingPair(s, a, b))
    ensures QualifyingColumns(CollidingPair(s, a, b)) == [(s, a), (PrefixCustomProfileField(s), b)]
  {
    var cs := CollidingPair(s, a, b);
    assert Qualifies(cs[0]) && Qualifies(cs[1]);
    assert cs[..1] == [cs[0]];
    assert cs[..1][..0] == [];
    assert |PrefixCustomProfileField(s)| != |s|;
  }

  /** First pass of the counterexample's loop: `profile_field_` + `s` is overwritten, then `s` is unset. */
  lemma CollidingFirstPass(s: string, a: string, b: string)
    ensures var options := [(s, a), (PrefixCustomProfileField(s), b)];
            DistinctKeys(options)
            && RenamePass(options, s, a) == [(PrefixCustomProfileField(s), a)]
  {
    var ps := PrefixCustomProfileField(s);
    var options := [(s, a), (ps, b)];
    assert |ps| != |s|;
    assert options[1].0 == ps;
    assert Put(options, ps, a) == [(s, a), (ps, a)];
  }

  /** Second pass: the surviving entry is renamed to the doubly prefixed key. */
  lemma CollidingSecondPass(s: string, a: string, b: string)
    ensures var ps := PrefixCustomProfileField(s);
            RenamePass([(ps, a)], ps, b) == [(PrefixCustomProfileField(ps), b)]
  {
    var ps := PrefixCustomProfileField(s);
    var pps := PrefixCustomProfileField(ps);
    assert |pps| != |ps|;
    assert !HasKey([(ps, a)], pps);
    assert Put([(ps, a)], pps, b) == [(ps, a), (pps, b)];
  }

  /** The renaming loop of the counterexample, pass by pass. */
  lemma CollidingRename(s: string, a: string, b: string)
    ensures var options := [(s, a), (PrefixCustomProfileField(s), b)];
            DistinctKeys(options)
            && RenameKeysAsWritten(options, options) == [(PrefixCustomProfileField(PrefixCustomProfileField(s)), b)]
  {
    var ps := PrefixCustomProfileField(s);
    var options := [(s, a), (ps, b)];
    CollidingFirstPass(s, a, b);
    CollidingSecondPass(s, a, b);
    var c1 := [(ps, a)];
    assert RenameKeysAsWritten(options, options) == RenameKeysAsWritten(options[1..], c1);
    assert options[1..][1..] == [];
    assert RenameKeysAsWritten(options[1..], c1) == RenameKeysAsWritten([], [(PrefixCustomProfileField(ps), b)]);
  }

  /** The intended list is the fixed fields followed by the prefixed qualifying columns. */
  lemma IntendedUnfold(labelOf: string -> string, cs: seq<CustomField>)
    requires UniqueShortnames(cs)
    ensures SupportedMatchFields(labelOf, cs) == FixedMatchFields(labelOf) + Prefixed(QualifyingColumns(cs))
  {
  }

  /** The list as written, for a non-empty field list, is the fixed fields merged with the renamed columns. */
  lemma AsWrittenUnfold(labelOf: string -> string, cs: seq<CustomField>)
    requires UniqueShortnames(cs) && |cs| > 0
    ensures DistinctKeys(QualifyingColumns(cs))
    ensures SupportedMatchFieldsAsWritten(labelOf, cs)
              == Merge(FixedMatchFields(labelOf), RenameKeysAsWritten(QualifyingColumns(cs), QualifyingColumns(cs)))
  {
    QualifyingDistinct(cs);
  }

  /** The list as written for the counterexample. */
  lemma CollidingAsWritten(labelOf: string -> string, s: string, a: string, b: string)
    ensures SupportedMatchFieldsAsWritten(labelOf, CollidingPair(s, a, b))
            == FixedMatchFields(labelOf) + [(PrefixCustomProfileField(PrefixCustomProfileField(s)), b)]
  {
    var ps := PrefixCustomProfileField(s);
    var options := [(s, a), (ps, b)];
    CollidingColumns(s, a, b);
    CollidingRename(s, a, b);
    var fixed := FixedMatchFields(labelOf);
    var c2: Entries := [(PrefixCustomProfileField(ps), b)];
    AsWrittenUnfold(labelOf, CollidingPair(s, a, b));
    assert DistinctKeys(fixed + c2) by {
      PrefixedIsNotUserColumn(ps);
      assert forall i :: 0 <= i < 3 ==> (fixed + c2)[i].0 == MatchFieldsFromUserTable[i];
    }
    MergeDisjoint(fixed, c2);
  }

  /** The intended list for the counterexample. */
  lemma CollidingIntended(labelOf: string -> string, s: string, a: string, b: string)
    requires UniqueShortnames(CollidingPair(s, a, b))
    ensures SupportedMatchFields(labelOf, CollidingPair(s, a, b))
            == FixedMatchFields(labelOf) + [(PrefixCustomProfileField(s), a), (PrefixCustomProfileField(PrefixCustomProfileField(s)), b)]
  {
    CollidingColumns(s, a, b);
    IntendedUnfold(labelOf, CollidingPair(s, a, b));
    var custom := Prefixed([(s, a), (PrefixCustomProfileField(s), b)]);
    assert custom == [(PrefixCustomProfileField(s), a), (PrefixCustomProfileField(PrefixCustomProfileField(s)), b)];
  }
}
