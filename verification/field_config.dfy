/**
 * The web-service field list of classes/config.php: administrator-written
 * text with one `name | description` pair per line, parsed into an ordered
 * name -> description array. Malformed lines are dropped silently.
 */
module FieldConfig {
  import opened Wrappers
  import opened Text
  import opened OrderedMap

  /** One web-service field, after trimming both halves of its line. */
  datatype Field = Field(name: string, description: string)

  /**
   * `is_valid_field`: a non-empty name in which `strpos` finds no space, and a
   * non-empty description, "non-empty" in the sense of PHP `empty()`.
   */
  function IsValidField(f: Field): (r: bool)
    ensures r ==> f.name != "" && f.name != "0" && f.description != "" && f.description != "0"
    ensures |f.name| > 0 && f.name[0] != ' ' ==> (r <==> !Empty(f.name) && ' ' !in f.name && !Empty(f.description))
    ensures |f.name| > 0 && f.name[0] == ' ' ==> (r <==> !Empty(f.description))
  {
    !Empty(f.name) && !StrposTruthy(f.name, ' ') && !Empty(f.description)
  }

  /** Field `f` as it is stored: name and description, and the name holds no space. */
  predicate Retained(f: Field)
  {
    IsValidField(f) && ' ' !in f.name
  }

  /**
   * One line of the text. It is kept only when exploding it on `|` gives exactly
   * two parts, i.e. it holds exactly one `|`; the field is then the trimmed part
   * before the bar and the trimmed part after it, provided those are valid.
   */
  function ParseLine(line: string): (r: Option<Field>)
    ensures r.Some? ==> Retained(r.value)
    ensures r.Some? ==> Count(line, '|') == 1
    ensures r.Some? ==> exists i :: 0 <= i < |line| && line[i] == '|' && '|' !in line[..i] && '|' !in line[i + 1..]
                                    && r.value == Field(Trim(line[..i]), Trim(line[i + 1..]))
  {
    var parts := Split(line, '|');
    if |parts| == 2 then
      var f := Field(Trim(parts[0]), Trim(parts[1]));
      if IsValidField(f) then
        BarSplit(line);
        assert ' ' !in f.name by {
          StrposFalsyMeansAbsent(f.name, ' ');
        }
        Some(f)
      else None
    else None
  }

  /** A line that explodes into two parts is the first part, the bar, and the second part. */
  lemma BarSplit(line: string)
    requires |Split(line, '|')| == 2
    ensures var parts := Split(line, '|');
            var i := |parts[0]|;
            && i < |line| && line[i] == '|' && '|' !in line[..i] && '|' !in line[i + 1..]
            && line[..i] == parts[0] && line[i + 1..] == parts[1]
  {
    var parts := Split(line, '|');
    assert Join(parts[1..], "|") == parts[1];
    assert line == parts[0] + "|" + parts[1];
  }

  /** The converse of ParseLine's contract: a line `a|b` with no other bar yields its trimmed halves when valid. */
  lemma ParseLineOfPair(a: string, b: string)
    requires '|' !in a && '|' !in b
    ensures var f := Field(Trim(a), Trim(b));
            ParseLine(a + "|" + b) == if IsValidField(f) then Some(f) else None
  {
    SplitJoin([a, b], '|');
    assert Join([a, b], "|") == a + "|" + b;
  }

  /** Each line of the text, parsed on its own. */
  function ParsedLines(lines: seq<string>): (es: seq<Option<Field>>)
    ensures |es| == |lines|
    ensures forall i :: 0 <= i < |lines| ==> es[i] == ParseLine(lines[i])
  {
    seq(|lines|, i requires 0 <= i < |lines| => ParseLine(lines[i]))
  }

  /** Parsed line `e` is kept and names the field `n`. */
  predicate Names(e: Option<Field>, n: string)
  {
    e.Some? && e.value.name == n
  }

  /**
   * The constructor's loop: every kept line is assigned into the array, so a
   * repeated name overwrites the earlier description in its earlier position.
   */
  function Assign(es: seq<Option<Field>>): (r: Entries)
    requires forall i :: 0 <= i < |es| && es[i].Some? ==> Retained(es[i].value)
    ensures DistinctKeys(r)
    ensures forall i :: 0 <= i < |r| ==> Retained(Field(r[i].0, r[i].1))
  {
    if |es| == 0 then []
    else
      var prev := Assign(es[..|es| - 1]);
      match es[|es| - 1]
      case None => prev
      case Some(f) => Put(prev, f.name, f.description)
  }

  /** The raw setting split into lines, after CRLF has been normalised to LF. */
  function Lines(text: string): seq<string>
  {
    Split(NormalizeNewlines(text), '\n')
  }

  /** The constructor of classes/config.php followed by `get_fields`. An absent or empty setting gives no fields. */
  function ParseFields(text: Option<string>): (r: Entries)
    ensures DistinctKeys(r)
    ensures forall i :: 0 <= i < |r| ==> Retained(Field(r[i].0, r[i].1))
    ensures text.None? || Empty(text.value) ==> r == []
  {
    if text.None? || Empty(text.value) then [] else Assign(ParsedLines(Lines(text.value)))
  }

  /** Entries whose every kept line is a retained field, as ParseLine guarantees. */
  predicate WellParsed(es: seq<Option<Field>>)
  {
    forall i :: 0 <= i < |es| && es[i].Some? ==> Retained(es[i].value)
  }

  /** A name is in the result exactly when some line is kept under that name. */
  lemma {:induction false} AssignKeys(es: seq<Option<Field>>, n: string)
    requires WellParsed(es)
    ensures HasKey(Assign(es), n) <==> exists i :: 0 <= i < |es| && Names(es[i], n)
  {
    if |es| > 0 {
      var init := es[..|es| - 1];
      assert WellParsed(init) && forall i :: 0 <= i < |init| ==> init[i] == es[i];
      AssignKeys(init, n);
      var last := es[|es| - 1];
      assert (exists i :: 0 <= i < |es| && Names(es[i], n))
             <==> Names(last, n) || exists i :: 0 <= i < |init| && Names(init[i], n);
      if last.Some? {
        PutKeys(Assign(init), last.value.name, last.value.description, n);
      }
    }
  }

  /** The stored description is that of the LAST line kept under the name. */
  lemma {:induction false} AssignLastWins(es: seq<Option<Field>>, i: nat)
    requires WellParsed(es)
    requires i < |es| && es[i].Some?
    requires forall j :: i < j < |es| ==> !Names(es[j], es[i].value.name)
    ensures Get(Assign(es), es[i].value.name) == Some(es[i].value.description)
  {
    var f := es[i].value;
    var init := es[..|es| - 1];
    var prev := Assign(init);
    if i == |es| - 1 {
      PutGet(prev, f.name, f.description);
    } else {
      assert WellParsed(init) && init[i] == es[i] && forall j :: i < j < |init| ==> init[j] == es[j];
      AssignLastWins(init, i);
      var last := es[|es| - 1];
      if last.Some? {
        assert !Names(last, f.name);
        PutGetOther(prev, last.value.name, last.value.description, f.name);
      }
    }
  }

  /**
   * Names appear in the order of their FIRST kept line: whenever a name stands
   * before another in the result, every line naming the later one is preceded
   * by a line naming the earlier one.
   */
  lemma {:induction false} AssignFirstOrder(es: seq<Option<Field>>, p: nat, q: nat, i: nat)
    requires WellParsed(es)
    requires p < q < |Assign(es)|
    requires i < |es| && Names(es[i], Assign(es)[q].0)
    ensures exists j :: 0 <= j < i && Names(es[j], Assign(es)[p].0)
  {
    var r := Assign(es);
    var init := es[..|es| - 1];
    var prev := Assign(init);
    var last := es[|es| - 1];
    assert WellParsed(init) && forall k :: 0 <= k < |init| ==> init[k] == es[k];
    if last.None? {
      assert r == prev;
      assert i < |init|;
      AssignFirstOrder(init, p, q, i);
      var j :| 0 <= j < i && Names(init[j], prev[p].0);
      assert Names(es[j], r[p].0);
    } else {
      var f := last.value;
      PutKeys(prev, f.name, f.description, prev[p].0);
      if q < |prev| {
        var i' := i;
        if i == |es| - 1 {
          assert HasKey(prev, prev[q].0);
          AssignKeys(init, prev[q].0);
          var k :| 0 <= k < |init| && Names(init[k], prev[q].0);
          i' := k;
        }
        AssignFirstOrder(init, p, q, i');
        var j :| 0 <= j < i' && Names(init[j], prev[p].0);
        assert Names(es[j], r[p].0);
      } else {
        AppendedKeyIsNew(prev, f.name, f.description, q);
        AssignKeys(init, f.name);
        assert i == |es| - 1;
        assert HasKey(prev, prev[p].0);
        AssignKeys(init, prev[p].0);
        var j0 :| 0 <= j0 < |init| && Names(init[j0], prev[p].0);
        assert Names(es[j0], r[p].0);
      }
    }
  }

  /**
   * Text written with CRLF line endings yields the same fields as the same
   * lines written with LF endings, and those are the fields of its lines.
   */
  lemma CrlfParsesLikeLf(lines: seq<string>)
    requires |lines| > 1
    requires forall i :: 0 <= i < |lines| ==> '\n' !in lines[i] && '\r' !in lines[i]
    ensures ParseFields(Some(Join(lines, "\r\n"))) == ParseFields(Some(Join(lines, "\n")))
    ensures ParseFields(Some(Join(lines, "\n"))) == Assign(ParsedLines(lines))
  {
    var crlf := Join(lines, "\r\n");
    var lf := Join(lines, "\n");
    NormalizeCrlfJoin(lines);
    JoinHasNoCr(lines);
    NoCrNormalizes(lf);
    SplitJoin(lines, '\n');
    assert lf == lines[0] + "\n" + Join(lines[1..], "\n");
    assert lf[|lines[0]|] == '\n';
    assert crlf == lines[0] + "\r\n" + Join(lines[1..], "\r\n");
    assert crlf[|lines[0]|] == '\r';
    assert !Empty(lf) && !Empty(crlf);
    assert Lines(crlf) == lines && Lines(lf) == lines;
  }

  /** LF-joined lines without CR hold no CR. */
  lemma {:induction false} JoinHasNoCr(lines: seq<string>)
    requires |lines| > 0
    requires forall i :: 0 <= i < |lines| ==> '\r' !in lines[i]
    ensures '\r' !in Join(lines, "\n")
  {
    if |lines| > 1 {
      JoinHasNoCr(lines[1..]);
    }
  }

  /** Text without CR is unchanged by the line-ending normalisation. */
  lemma {:induction false} NoCrNormalizes(s: string)
    requires '\r' !in s
    ensures NormalizeNewlines(s) == s
  {
    if |s| >= 2 {
      NoCrNormalizes(s[1..]);
      assert s == [s[0]] + s[1..];
    }
  }
}
