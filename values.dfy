/** Values shared by both servers: SQL NULL, JavaScript truthiness of request
    fields, the `paid ? 1 : 0` flag, and the AUTOINCREMENT rule for row ids. */
module Values {

  /** A column or request field that may be NULL / undefined. */
  datatype Option<+T> = None | Some(value: T)

  /** `!s` for a text request field: undefined, null and "" are falsy. */
  predicate FalsyText(s: Option<string>) {
    s.None? || s.value == ""
  }

  /** `!n` for a numeric request field: undefined, null and 0 are falsy. */
  predicate FalsyId(n: Option<int>) {
    n.None? || n.value == 0
  }

  /** The stored value of `paid ? 1 : 0`. */
  function PaidFlag(paid: bool): (flag: int)
    ensures flag == 0 || flag == 1
    ensures flag == 1 <==> paid
  {
    if paid then 1 else 0
  }

  /** The ids of a table declared `INTEGER PRIMARY KEY AUTOINCREMENT`, listed
      in insertion order, with `last` the table's sqlite_sequence value (0 for a
      fresh table): every id
      is positive and at most `last`, and later rows have larger ids. */
  ghost predicate AutoIncrementIds<T>(rows: seq<T>, id: T -> int, last: int) {
    && 0 <= last
    && (forall i :: 0 <= i < |rows| ==> 1 <= id(rows[i]) <= last)
    && (forall i, j :: 0 <= i < j < |rows| ==> id(rows[i]) < id(rows[j]))
  }

  /** Inserting a row whose id is the next sequence value keeps the id rule,
      and the new id exceeds every id assigned before. */
  lemma AppendNextId<T>(rows: seq<T>, id: T -> int, last: int, row: T)
    requires AutoIncrementIds(rows, id, last)
    requires id(row) == last + 1
    ensures AutoIncrementIds(rows + [row], id, last + 1)
    ensures forall i :: 0 <= i < |rows| ==> id(rows[i]) < id(row)
  {
    var rows' := rows + [row];
    forall i | 0 <= i < |rows'|
      ensures 1 <= id(rows'[i]) <= last + 1
    {
      if i < |rows| {
        assert rows'[i] == rows[i];
      } else {
        assert rows'[i] == row;
      }
    }
    forall i, j | 0 <= i < j < |rows'|
      ensures id(rows'[i]) < id(rows'[j])
    {
      if j == |rows| {
        assert rows'[i] == rows[i];
      }
    }
  }

  /** Ids in an AUTOINCREMENT table are pairwise distinct. */
  lemma AutoIncrementIdsDistinct<T>(rows: seq<T>, id: T -> int, last: int, i: int, j: int)
    requires AutoIncrementIds(rows, id, last)
    requires 0 <= i < |rows| && 0 <= j < |rows| && i != j
    ensures id(rows[i]) != id(rows[j])
  {
    if i < j {
      assert id(rows[i]) < id(rows[j]);
    } else {
      assert id(rows[j]) < id(rows[i]);
    }
  }
}
