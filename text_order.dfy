/** `ORDER BY <text column> DESC` as SQLite evaluates it: NULL is smaller than
    every text value, and two texts compare under the BINARY collation, that is
    code point by code point, a proper prefix before the longer text (the same
    order as comparing their UTF-8 bytes). Dates are plain text here, so the
    order is the string order and not the calendar order. */
module TextOrder {
  import opened Values

  /** `a <= b` under the BINARY collation. */
  predicate LexLe(a: string, b: string)
    decreases |a|
  {
    a == [] || (b != [] && (a[0] < b[0] || (a[0] == b[0] && LexLe(a[1..], b[1..]))))
  }

  /** `a <= b` for a nullable text column: NULL first, then BINARY order. */
  predicate TextLe(a: Option<string>, b: Option<string>) {
    match a
    case None => true
    case Some(x) => b.Some? && LexLe(x, b.value)
  }

  lemma {:induction false} LexLeTotal(a: string, b: string)
    ensures LexLe(a, b) || LexLe(b, a)
    decreases |a|
  {
    if a != [] && b != [] && a[0] == b[0] {
      LexLeTotal(a[1..], b[1..]);
    }
  }

  lemma {:induction false} LexLeReflexive(a: string)
    ensures LexLe(a, a)
    decreases |a|
  {
    if a != [] {
      LexLeReflexive(a[1..]);
    }
  }

  lemma {:induction false} LexLeTransitive(a: string, b: string, c: string)
    requires LexLe(a, b) && LexLe(b, c)
    ensures LexLe(a, c)
    decreases |a|
  {
    if a != [] && a[0] == b[0] && b[0] == c[0] {
      LexLeTransitive(a[1..], b[1..], c[1..]);
    }
  }

  lemma {:induction false} LexLeAntisymmetric(a: string, b: string)
    requires LexLe(a, b) && LexLe(b, a)
    ensures a == b
    decreases |a|
  {
    if a != [] {
      LexLeAntisymmetric(a[1..], b[1..]);
      assert a == [a[0]] + a[1..] && b == [b[0]] + b[1..];
    }
  }

  lemma TextLeTotal(a: Option<string>, b: Option<string>)
    ensures TextLe(a, b) || TextLe(b, a)
  {
    if a.Some? && b.Some? {
      LexLeTotal(a.value, b.value);
    }
  }

  lemma TextLeTransitive(a: Option<string>, b: Option<string>, c: Option<string>)
    requires TextLe(a, b) && TextLe(b, c)
    ensures TextLe(a, c)
  {
    if a.Some? {
      LexLeTransitive(a.value, b.value, c.value);
    }
  }

  /** Rows in descending order of their sort key. */
  ghost predicate SortedDesc<T>(rows: seq<T>, key: T -> Option<string>) {
    forall i, j :: 0 <= i < j < |rows| ==> TextLe(key(rows[j]), key(rows[i]))
  }

  /** Places `x` into descending rows, after every row whose key is at least
      as large as its own. */
  function InsertDesc<T>(x: T, rows: seq<T>, key: T -> Option<string>): (r: seq<T>)
    requires SortedDesc(rows, key)
    ensures multiset(r) == multiset(rows) + multiset{x}
    ensures SortedDesc(r, key)
    decreases |rows|
  {
    if rows == [] then
      [x]
    else if TextLe(key(rows[0]), key(x)) then
      assert SortedDesc([x] + rows, key) by {
        forall j | 0 <= j < |rows| ensures TextLe(key(rows[j]), key(x)) {
          if j > 0 {
            TextLeTransitive(key(rows[j]), key(rows[0]), key(x));
          }
        }
      }
      [x] + rows
    else
      var tail := InsertDesc(x, rows[1..], key);
      assert rows == [rows[0]] + rows[1..];
      assert SortedDesc([rows[0]] + tail, key) by {
        TextLeTotal(key(rows[0]), key(x));
        forall k | 0 <= k < |tail| ensures TextLe(key(tail[k]), key(rows[0])) {
          assert tail[k] in multiset(rows[1..]) + multiset{x};
          if tail[k] != x {
            assert tail[k] in rows[1..];
            var i :| 0 <= i < |rows[1..]| && rows[1..][i] == tail[k];
            assert rows[i + 1] == tail[k];
          }
        }
      }
      [rows[0]] + tail
  }

  /** The result set of `ORDER BY key DESC`: the same rows, largest key first.
      Rows with equal keys come in an order SQL leaves unspecified. */
  function SortDesc<T>(rows: seq<T>, key: T -> Option<string>): (r: seq<T>)
    ensures multiset(r) == multiset(rows)
    ensures SortedDesc(r, key)
    decreases |rows|
  {
    if rows == [] then
      []
    else
      assert rows == [rows[0]] + rows[1..];
      InsertDesc(rows[0], SortDesc(rows[1..], key), key)
  }

  /** In a descending listing a row whose key is strictly larger than another's
      comes first. */
  lemma LargerKeyListedFirst<T>(rows: seq<T>, key: T -> Option<string>, i: int, j: int)
    requires SortedDesc(rows, key)
    requires 0 <= i < |rows| && 0 <= j < |rows|
    requires !TextLe(key(rows[i]), key(rows[j]))
    ensures i < j
  {
    if i == j && key(rows[i]).Some? {
      LexLeReflexive(key(rows[i]).value);
    }
  }

  /** ISO dates sort correctly as text: "2024-05-01" is listed before "2024-01-10". */
  lemma {:induction false} IsoDatesListedNewestFirst<T>(rows: seq<T>, key: T -> Option<string>, i: int, j: int)
    requires SortedDesc(rows, key)
    requires 0 <= i < |rows| && 0 <= j < |rows|
    requires key(rows[i]) == Some("2024-05-01") && key(rows[j]) == Some("2024-01-10")
    ensures i < j
  {
    assert !LexLe("2024-05-01", "2024-01-10") by {
      assert !LexLe("4-05-01", "4-01-10") by {
        assert !LexLe("05-01", "01-10") by {
          assert !LexLe("5-01", "1-10");
        }
      }
    }
    LargerKeyListedFirst(rows, key, i, j);
  }

  /** Other date formats sort by text and not by calendar: "9/1/2024" is listed
      before "10/1/2024" although it is the earlier date. */
  lemma {:induction false} NonIsoDatesListedByText<T>(rows: seq<T>, key: T -> Option<string>, i: int, j: int)
    requires SortedDesc(rows, key)
    requires 0 <= i < |rows| && 0 <= j < |rows|
    requires key(rows[i]) == Some("9/1/2024") && key(rows[j]) == Some("10/1/2024")
    ensures i < j
  {
    assert !LexLe("9/1/2024", "10/1/2024");
    LargerKeyListedFirst(rows, key, i, j);
  }

  /** NULL is the smallest value, so a descending listing puts it after every
      row that has a text key. */
  lemma NullKeyListedLast<T>(rows: seq<T>, key: T -> Option<string>, i: int, j: int)
    requires SortedDesc(rows, key)
    requires 0 <= i < |rows| && 0 <= j < |rows|
    requires key(rows[i]).Some? && key(rows[j]).None?
    ensures i < j
  {
    LargerKeyListedFirst(rows, key, i, j);
  }
}
