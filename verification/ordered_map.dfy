/**
 * PHP associative arrays with string keys: key/value pairs kept in insertion
 * order, every key at most once. Assigning to an existing key overwrites its
 * value in place; assigning to a new key appends it.
 */
module OrderedMap {
  import opened Wrappers

  /** An ordered array from string keys to string values. */
  type Entries = seq<(string, string)>

  predicate DistinctKeys(m: Entries)
  {
    forall i, j :: 0 <= i < j < |m| ==> m[i].0 != m[j].0
  }

  predicate HasKey(m: Entries, k: string)
  {
    exists i :: 0 <= i < |m| && m[i].0 == k
  }

  /** `$m[$k]`, or None when the key is absent. */
  function Get(m: Entries, k: string): (r: Option<string>)
    requires DistinctKeys(m)
    ensures r.None? <==> !HasKey(m, k)
    ensures forall i :: 0 <= i < |m| && m[i].0 == k ==> r == Some(m[i].1)
  {
    if |m| == 0 then None
    else if m[0].0 == k then Some(m[0].1)
    else Get(m[1..], k)
  }

  /** `$m[$k] = $v`. */
  function Put(m: Entries, k: string, v: string): (r: Entries)
    requires DistinctKeys(m)
    ensures DistinctKeys(r)
    ensures HasKey(m, k) ==>
              |r| == |m| && forall i :: 0 <= i < |m| ==> r[i] == (if m[i].0 == k then (k, v) else m[i])
    ensures !HasKey(m, k) ==> r == m + [(k, v)]
  {
    if |m| == 0 then [(k, v)]
    else if m[0].0 == k then [(k, v)] + m[1..]
    else
      var rest := Put(m[1..], k, v);
      assert HasKey(m[1..], k) ==> HasKey(m, k);
      assert HasKey(m, k) ==> HasKey(m[1..], k) by {
        if HasKey(m, k) {
          var i :| 0 <= i < |m| && m[i].0 == k;
          assert m[1..][i - 1].0 == k;
        }
      }
      [m[0]] + rest
  }

  /** `unset($m[$k])`: the entry for `k` goes, the others keep their keys and order. */
  function Remove(m: Entries, k: string): (r: Entries)
    requires DistinctKeys(m)
    ensures DistinctKeys(r)
    ensures !HasKey(r, k)
    ensures forall i :: 0 <= i < |r| ==> HasKey(m, r[i].0)
    ensures !HasKey(m, k) ==> r == m
    ensures |m| > 0 && m[0].0 == k ==> r == m[1..]
  {
    if |m| == 0 then m
    else if m[0].0 == k then
      assert DistinctKeys(m[1..]) && !HasKey(m[1..], k) && forall i :: 0 <= i < |m| - 1 ==> HasKey(m, m[1..][i].0) by {
        assert forall i :: 0 <= i < |m| - 1 ==> m[1..][i] == m[i + 1];
      }
      m[1..]
    else
      var tail := m[1..];
      assert DistinctKeys(tail) && m == [m[0]] + tail by {
        assert forall i :: 0 <= i < |tail| ==> tail[i] == m[i + 1];
      }
      var rest := Remove(tail, k);
      var r := [m[0]] + rest;
      RemoveCons(m, k, rest);
      r
  }

  /** Removing the key held at position `j` splices out exactly that entry: the rest keep their order. */
  lemma {:induction false} RemoveKeepsOrder(m: Entries, k: string, j: nat)
    requires DistinctKeys(m)
    requires j < |m| && m[j].0 == k
    ensures Remove(m, k) == m[..j] + m[j + 1..]
    decreases j
  {
    if j > 0 {
      var tail := m[1..];
      assert m[0].0 != k;
      assert DistinctKeys(tail) && tail[j - 1] == m[j] by {
        assert forall i :: 0 <= i < |tail| ==> tail[i] == m[i + 1];
      }
      RemoveKeepsOrder(tail, k, j - 1);
      assert Remove(m, k) == [m[0]] + Remove(tail, k);
      assert tail[..j - 1] == m[1..j] && tail[j..] == m[j + 1..];
      assert m[..j] == [m[0]] + m[1..j];
    }
  }

  /** After `unset($m[$k])` the key reads as absent and every other key reads as before. */
  lemma RemoveGet(m: Entries, k: string, n: string)
    requires DistinctKeys(m)
    ensures Get(Remove(m, k), k) == None
    ensures n != k ==> Get(Remove(m, k), n) == Get(m, n)
  {
    var r := Remove(m, k);
    if n != k && HasKey(m, n) {
      var i :| 0 <= i < |m| && m[i].0 == n;
      if HasKey(m, k) {
        var j :| 0 <= j < |m| && m[j].0 == k;
        RemoveKeepsOrder(m, k, j);
        if i < j {
          assert r[i] == m[i];
        } else {
          assert r[i - 1] == m[i];
        }
      }
    }
  }

  /** The facts Remove needs about putting the first entry back in front of the tail's result. */
  lemma RemoveCons(m: Entries, k: string, rest: Entries)
    requires DistinctKeys(m) && |m| > 0 && m[0].0 != k
    requires DistinctKeys(rest) && !HasKey(rest, k)
    requires forall i :: 0 <= i < |rest| ==> HasKey(m[1..], rest[i].0)
    requires !HasKey(m[1..], k) ==> rest == m[1..]
    ensures var r := [m[0]] + rest;
            && DistinctKeys(r) && !HasKey(r, k)
            && (forall i :: 0 <= i < |r| ==> HasKey(m, r[i].0))
            && (!HasKey(m, k) ==> r == m)
  {
    var tail := m[1..];
    var r := [m[0]] + rest;
    assert forall i :: 0 <= i < |rest| ==> HasKey(m, rest[i].0) && rest[i].0 != m[0].0 by {
      forall i | 0 <= i < |rest| ensures HasKey(m, rest[i].0) && rest[i].0 != m[0].0 {
        var j :| 0 <= j < |tail| && tail[j].0 == rest[i].0;
        assert m[j + 1].0 == rest[i].0;
      }
    }
    assert DistinctKeys(r) by {
      forall i, j | 0 <= i < j < |r| ensures r[i].0 != r[j].0 {
        assert r[j] == rest[j - 1];
        if i > 0 { assert r[i] == rest[i - 1]; }
      }
    }
    assert forall i :: 0 <= i < |r| ==> HasKey(m, r[i].0) by {
      forall i | 0 <= i < |r| ensures HasKey(m, r[i].0) {
        if i > 0 { assert r[i] == rest[i - 1]; }
      }
    }
    assert !HasKey(r, k) by {
      forall i | 0 <= i < |r| ensures r[i].0 != k {
        if i > 0 { assert r[i] == rest[i - 1]; }
      }
    }
    assert !HasKey(m, k) ==> r == m by {
      if !HasKey(m, k) {
        assert !HasKey(tail, k) by {
          forall j | 0 <= j < |tail| ensures tail[j].0 != k {
            assert tail[j] == m[j + 1];
          }
        }
        assert m == [m[0]] + tail;
      }
    }
  }

  /** After `$m[$k] = $v` the array holds `k` and whatever keys it held before, each in its old position. */
  lemma PutKeys(m: Entries, k: string, v: string, n: string)
    requires DistinctKeys(m)
    ensures HasKey(Put(m, k, v), n) <==> HasKey(m, n) || n == k
    ensures |Put(m, k, v)| >= |m|
    ensures forall i :: 0 <= i < |m| ==> Put(m, k, v)[i].0 == m[i].0
  {
    var r := Put(m, k, v);
    if HasKey(m, k) {
      assert HasKey(r, n) ==> HasKey(m, n) by {
        if HasKey(r, n) {
          var i :| 0 <= i < |r| && r[i].0 == n;
          assert m[i].0 == n || n == k;
        }
      }
      assert HasKey(m, n) ==> HasKey(r, n) by {
        if HasKey(m, n) {
          var i :| 0 <= i < |m| && m[i].0 == n;
          assert r[i].0 == n;
        }
      }
    } else {
      assert r[|m|].0 == k;
      assert HasKey(r, n) ==> HasKey(m, n) || n == k by {
        if HasKey(r, n) {
          var i :| 0 <= i < |r| && r[i].0 == n;
          if i < |m| { assert m[i].0 == n; }
        }
      }
      assert HasKey(m, n) ==> HasKey(r, n) by {
        if HasKey(m, n) {
          var i :| 0 <= i < |m| && m[i].0 == n;
          assert r[i].0 == n;
        }
      }
    }
  }

  /** An entry of `$m[$k] = $v` beyond the old length is the newly appended key. */
  lemma AppendedKeyIsNew(m: Entries, k: string, v: string, q: nat)
    requires DistinctKeys(m)
    requires |m| <= q < |Put(m, k, v)|
    ensures !HasKey(m, k) && q == |m| && Put(m, k, v)[q].0 == k
  {
  }

  /** Reading a key right after assigning it gives the assigned value. */
  lemma PutGet(m: Entries, k: string, v: string)
    requires DistinctKeys(m)
    ensures Get(Put(m, k, v), k) == Some(v)
  {
    var r := Put(m, k, v);
    if HasKey(m, k) {
      var i :| 0 <= i < |m| && m[i].0 == k;
      assert r[i] == (k, v);
    } else {
      assert r[|m|] == (k, v);
    }
  }

  /** Assigning one key leaves every other key's value as it was. */
  lemma PutGetOther(m: Entries, k: string, v: string, n: string)
    requires DistinctKeys(m)
    requires n != k
    ensures Get(Put(m, k, v), n) == Get(m, n)
  {
    var r := Put(m, k, v);
    PutKeys(m, k, v, n);
    if HasKey(m, n) {
      var i :| 0 <= i < |m| && m[i].0 == n;
      assert r[i] == m[i];
    }
  }

  /**
   * `array_merge($a, $b)` for string keys: the entries of `b` are assigned
   * into `a` one after the other.
   */
  function Merge(a: Entries, b: Entries): (r: Entries)
    requires DistinctKeys(a)
    ensures DistinctKeys(r)
    ensures forall n :: HasKey(r, n) <==> HasKey(a, n) || HasKey(b, n)
    decreases |b|
  {
    if |b| == 0 then a
    else
      var a' := Put(a, b[0].0, b[0].1);
      var r := Merge(a', b[1..]);
      assert forall n :: HasKey(r, n) <==> HasKey(a, n) || HasKey(b, n) by {
        forall n ensures HasKey(r, n) <==> HasKey(a, n) || HasKey(b, n) {
          PutKeys(a, b[0].0, b[0].1, n);
          assert HasKey(b, n) <==> n == b[0].0 || HasKey(b[1..], n) by {
            assert forall i :: 0 < i < |b| ==> b[i] == b[1..][i - 1];
            if HasKey(b[1..], n) {
              var i :| 0 <= i < |b| - 1 && b[1..][i].0 == n;
              assert b[i + 1].0 == n;
            }
          }
        }
      }
      r
  }

  /** A key that `b` does not mention keeps the value it had in `a`. */
  lemma {:induction false} MergeGetOther(a: Entries, b: Entries, n: string)
    requires DistinctKeys(a)
    requires !HasKey(b, n)
    ensures Get(Merge(a, b), n) == Get(a, n)
    decreases |b|
  {
    if |b| > 0 {
      assert b[0].0 != n;
      assert !HasKey(b[1..], n) by {
        assert forall i :: 0 <= i < |b| - 1 ==> b[1..][i] == b[i + 1];
      }
      PutGetOther(a, b[0].0, b[0].1, n);
      MergeGetOther(Put(a, b[0].0, b[0].1), b[1..], n);
    }
  }

  /** The last entry of `b` wins: its key reads as its value after the merge. */
  lemma {:induction false} MergeGetLast(a: Entries, b: Entries)
    requires DistinctKeys(a)
    requires |b| > 0
    ensures Get(Merge(a, b), b[|b| - 1].0) == Some(b[|b| - 1].1)
    decreases |b|
  {
    var a' := Put(a, b[0].0, b[0].1);
    assert Merge(a, b) == Merge(a', b[1..]);
    if |b| == 1 {
      assert Merge(a', b[1..]) == a';
      PutGet(a, b[0].0, b[0].1);
    } else {
      assert b[1..][|b| - 2] == b[|b| - 1];
      MergeGetLast(a', b[1..]);
    }
  }

  /** When no key of `b` is already in `a`, merging is concatenation. */
  lemma {:induction false} MergeDisjoint(a: Entries, b: Entries)
    requires DistinctKeys(a + b)
    ensures DistinctKeys(a)
    ensures Merge(a, b) == a + b
    decreases |b|
  {
    assert forall i, j :: 0 <= i < j < |a| ==> a[i] == (a + b)[i] && a[j] == (a + b)[j];
    if |b| > 0 {
      assert forall i :: 0 <= i < |a| ==> a[i].0 == (a + b)[i].0 != (a + b)[|a|].0 == b[0].0;
      var a' := a + [b[0]];
      assert a' + b[1..] == a + b;
      MergeDisjoint(a', b[1..]);
    }
  }
}
