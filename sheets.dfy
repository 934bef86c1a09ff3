/**
 * A worksheet held in memory. Row 1 of the sheet is the header, so the
 * Python code's record `i` (0-based, from `get_all_records`) is sheet row
 * `i + 2`, and sheet row `n` is `s[n - 1]` here. The gspread calls the
 * database layer makes (`col_values`, `row_values`, `update`, `update_cell`,
 * `batch_update`, `append_row`, `delete_rows`) are the functions below.
 */
module Sheets {
  import opened Wrappers
  import opened Text
  import opened Ordering

  /** One row of cells, as text; a short row reads as blank past its end. */
  type Row = seq<string>
  /** All rows of a worksheet; `s[0]` is the header row (sheet row 1). */
  type Sheet = seq<Row>

  function CellAt(row: Row, k: nat): string {
    if k < |row| then row[k] else ""
  }

  /** Sheet row `n` (1-based; row 1 is the header). */
  function SheetRow(s: Sheet, n: nat): Row
    requires 1 <= n <= |s|
  {
    s[n - 1]
  }

  /** `ws.row_values(1)`. */
  function HeaderOf(s: Sheet): Row {
    if |s| == 0 then [] else s[0]
  }

  /** The data rows below the header (what `get_all_records` turns into dicts). */
  function Records(s: Sheet): seq<Row> {
    if |s| == 0 then [] else s[1..]
  }

  /** `headers.index(key)`: the first column holding `key`. */
  function IndexOf(h: Row, key: string): (k: nat)
    requires key in h
    ensures k < |h| && h[k] == key
    ensures forall j :: 0 <= j < k ==> h[j] != key
  {
    if h[0] == key then 0 else 1 + IndexOf(h[1..], key)
  }

  /** Two different keys of a header sit in different columns. */
  lemma IndexOfInjective(h: Row, a: string, b: string)
    requires a in h && b in h && a != b
    ensures IndexOf(h, a) != IndexOf(h, b)
  {
  }

  /** `record.get(key)`: `None` when the header has no such column. */
  function Field(h: Row, row: Row, key: string): Option<string> {
    if key in h then Some(CellAt(row, IndexOf(h, key))) else None
  }

  /** `record.get(key, default)`. */
  function FieldOr(h: Row, row: Row, key: string, default: string): string {
    Field(h, row, key).GetOr(default)
  }

  /** `ws.col_values(col)` with 1-based `col`; entry `n - 1` is the cell of row `n`. */
  function ColValues(s: Sheet, col: nat): (c: seq<string>)
    requires col >= 1
    ensures |c| == |s|
    ensures forall n :: 0 <= n < |s| ==> c[n] == CellAt(s[n], col - 1)
  {
    seq(|s|, n requires 0 <= n < |s| => CellAt(s[n], col - 1))
  }

  function Blanks(n: nat): (r: Row)
    ensures |r| == n && forall k :: 0 <= k < n ==> r[k] == ""
  {
    seq(n, _ => "")
  }

  /**
   * Writing `vals` into a row from 0-based column `col0` on (the one-row
   * `ws.update([vals], "<col><row>")`): those cells take the new values, the
   * row grows when needed, and every other cell keeps its text.
   */
  function WriteAt(row: Row, col0: nat, vals: Row): (r: Row)
    ensures |r| == if col0 + |vals| <= |row| then |row| else col0 + |vals|
    ensures forall k: nat :: CellAt(r, k) == if col0 <= k < col0 + |vals| then vals[k - col0] else CellAt(row, k)
  {
    (if col0 <= |row| then row[..col0] else row + Blanks(col0 - |row|))
      + vals
      + (if col0 + |vals| <= |row| then row[col0 + |vals|..] else [])
  }

  /** `ws.delete_rows(n)`: row `n` goes, the rows below move up by one. */
  function DeleteRow(s: Sheet, n: nat): (r: Sheet)
    requires 1 <= n <= |s|
    ensures |r| == |s| - 1
  {
    s[..n - 1] + s[n..]
  }

  /** One entry of a `batch_update` (or of a single `update`): `values` written from cell (`row`, `col`), both 1-based. */
  datatype RangeWrite = RangeWrite(row: nat, col: nat, values: Row)

  /** The write names an existing row (of `rowCount`) and a column. */
  predicate WriteInRange(rowCount: nat, w: RangeWrite) {
    1 <= w.row <= rowCount && w.col >= 1
  }

  /** `row` after write `w` puts its values from column `w.col` on. */
  function WrittenRow(row: Row, w: RangeWrite): Row
    requires w.col >= 1
  {
    WriteAt(row, w.col - 1, w.values)
  }

  function ApplyWrite(s: Sheet, w: RangeWrite): (r: Sheet)
    requires WriteInRange(|s|, w)
    ensures |r| == |s|
  {
    s[w.row - 1 := WrittenRow(s[w.row - 1], w)]
  }

  /** `ws.batch_update(writes)`: the writes applied in order. */
  function ApplyWrites(s: Sheet, writes: seq<RangeWrite>): (r: Sheet)
    requires forall k :: 0 <= k < |writes| ==> WriteInRange(|s|, writes[k])
    ensures |r| == |s|
    decreases |writes|
  {
    if writes == [] then s
    else ApplyWrites(ApplyWrite(s, writes[0]), writes[1..])
  }

  /** A batch update leaves alone every row none of its writes names. */
  lemma {:induction false} ApplyWritesOtherRows(s: Sheet, writes: seq<RangeWrite>, n: nat)
    requires forall k :: 0 <= k < |writes| ==> WriteInRange(|s|, writes[k])
    requires 1 <= n <= |s|
    requires forall k :: 0 <= k < |writes| ==> writes[k].row != n
    ensures ApplyWrites(s, writes)[n - 1] == s[n - 1]
    decreases |writes|
  {
    if writes != [] {
      ApplyWritesOtherRows(ApplyWrite(s, writes[0]), writes[1..], n);
    }
  }

  lemma ApplyWritesSnoc(s: Sheet, writes: seq<RangeWrite>, w: RangeWrite)
    requires forall k :: 0 <= k < |writes| ==> WriteInRange(|s|, writes[k])
    requires WriteInRange(|s|, w)
    ensures forall k :: 0 <= k < |writes + [w]| ==> WriteInRange(|s|, (writes + [w])[k])
    ensures ApplyWrites(s, writes + [w]) == ApplyWrite(ApplyWrites(s, writes), w)
    decreases |writes|
  {
    if writes == [] {
      assert [w][1..] == [];
    } else {
      assert (writes + [w])[1..] == writes[1..] + [w];
      ApplyWritesSnoc(ApplyWrite(s, writes[0]), writes[1..], w);
    }
  }

  /** Every write of the batch sets a single cell. */
  predicate SingleCells(writes: seq<RangeWrite>) {
    forall k :: 0 <= k < |writes| ==> |writes[k].values| == 1
  }

  /** The value the last write to cell (`n`, `col`) puts there, if any write does. */
  function LastWriteTo(writes: seq<RangeWrite>, n: nat, col: nat): Option<string>
    requires SingleCells(writes)
  {
    if writes == [] then None
    else
      var w := writes[|writes| - 1];
      if w.row == n && w.col == col then Some(w.values[0])
      else LastWriteTo(writes[..|writes| - 1], n, col)
  }

  /** One more single-cell write is the last write to its own cell and changes nothing for the others. */
  lemma LastWriteToSnoc(a: seq<RangeWrite>, w: RangeWrite, n: nat, col: nat)
    requires SingleCells(a) && |w.values| == 1
    ensures SingleCells(a + [w])
    ensures w.row == n && w.col == col ==> LastWriteTo(a + [w], n, col) == Some(w.values[0])
    ensures !(w.row == n && w.col == col) ==> LastWriteTo(a + [w], n, col) == LastWriteTo(a, n, col)
  {
    assert (a + [w])[..|a|] == a;
  }

  /** The last write of `a + b` to a cell is the last one in `b`, or else the last one in `a`. */
  lemma {:induction false} LastWriteToAppend(a: seq<RangeWrite>, b: seq<RangeWrite>, n: nat, col: nat)
    requires SingleCells(a) && SingleCells(b)
    ensures SingleCells(a + b)
    ensures LastWriteTo(a + b, n, col) == if LastWriteTo(b, n, col).Some? then LastWriteTo(b, n, col) else LastWriteTo(a, n, col)
    decreases |b|
  {
    if b == [] {
      assert a + b == a;
    } else {
      assert (a + b)[..|a + b| - 1] == a + b[..|b| - 1];
      LastWriteToAppend(a, b[..|b| - 1], n, col);
    }
  }

  /** After a batch of single-cell writes, each cell holds the last value written to it, or its old text. */
  lemma {:induction false} ApplyWritesCell(s: Sheet, writes: seq<RangeWrite>, n: nat, col: nat)
    requires forall k :: 0 <= k < |writes| ==> WriteInRange(|s|, writes[k])
    requires SingleCells(writes)
    requires 1 <= n <= |s| && col >= 1
    ensures CellAt(ApplyWrites(s, writes)[n - 1], col - 1) == LastWriteTo(writes, n, col).GetOr(CellAt(s[n - 1], col - 1))
    decreases |writes|
  {
    if writes != [] {
      var init, w := writes[..|writes| - 1], writes[|writes| - 1];
      assert writes == init + [w];
      ApplyWritesSnoc(s, init, w);
      ApplyWritesCell(s, init, n, col);
    }
  }

  /**
   * A batch of single-cell writes to row `n` leaves every other row as it
   * is; in row `n` each cell holds the last value written to it, or its old
   * text.
   */
  lemma ApplyWritesRow(s: Sheet, writes: seq<RangeWrite>, n: nat)
    requires forall k :: 0 <= k < |writes| ==> WriteInRange(|s|, writes[k]) && writes[k].row == n
    requires SingleCells(writes)
    requires 1 <= n <= |s|
    ensures forall m :: 1 <= m <= |s| && m != n ==> SheetRow(ApplyWrites(s, writes), m) == SheetRow(s, m)
    ensures forall k: nat :: CellAt(SheetRow(ApplyWrites(s, writes), n), k) == LastWriteTo(writes, n, k + 1).GetOr(CellAt(SheetRow(s, n), k))
  {
    forall m | 1 <= m <= |s| && m != n
      ensures SheetRow(ApplyWrites(s, writes), m) == SheetRow(s, m)
    {
      ApplyWritesOtherRows(s, writes, m);
    }
    forall k: nat
      ensures CellAt(SheetRow(ApplyWrites(s, writes), n), k) == LastWriteTo(writes, n, k + 1).GetOr(CellAt(SheetRow(s, n), k))
    {
      ApplyWritesCell(s, writes, n, k + 1);
    }
  }

  // ---- Searching records ----

  function FirstRecordFrom(s: Sheet, p: Row -> bool, n: nat): (r: Option<nat>)
    requires n >= 2
    ensures r.Some? ==> n <= r.value <= |s| && p(SheetRow(s, r.value))
    ensures r.Some? ==> forall m :: n <= m < r.value ==> !p(SheetRow(s, m))
    ensures r.None? ==> forall m :: n <= m <= |s| ==> !p(SheetRow(s, m))
    decreases |s| + 1 - n
  {
    if n > |s| then None
    else if p(s[n - 1]) then Some(n)
    else FirstRecordFrom(s, p, n + 1)
  }

  /**
   * The sheet row of the first record satisfying `p` (the Python loops
   * `for i, r in enumerate(records): if ...: ... i + 2`). The header row is
   * never a candidate, so a found row number is at least 2.
   */
  function FirstRecord(s: Sheet, p: Row -> bool): (r: Option<nat>)
    ensures r.Some? ==> 2 <= r.value <= |s| && p(SheetRow(s, r.value))
    ensures r.Some? ==> forall m :: 2 <= m < r.value ==> !p(SheetRow(s, m))
    ensures r.None? ==> forall m :: 2 <= m <= |s| ==> !p(SheetRow(s, m))
  {
    FirstRecordFrom(s, p, 2)
  }

  /** A record that satisfies `p`, with none before it, is the first one. */
  lemma FirstRecordIs(s: Sheet, p: Row -> bool, n: nat)
    requires 2 <= n <= |s| && p(SheetRow(s, n)) && forall m :: 2 <= m < n ==> !p(SheetRow(s, m))
    ensures FirstRecord(s, p) == Some(n)
  {
  }

  /**
   * Sheets whose records agree on `p`, up to the records of `s`, with no
   * later record of `t` satisfying it, have the same first record.
   */
  lemma FirstRecordCongruent(s: Sheet, t: Sheet, p: Row -> bool)
    requires |s| <= |t|
    requires forall m :: 2 <= m <= |s| ==> p(SheetRow(s, m)) == p(SheetRow(t, m))
    requires forall m :: |s| < m <= |t| && m >= 2 ==> !p(SheetRow(t, m))
    ensures FirstRecord(s, p) == FirstRecord(t, p)
  {
    if FirstRecord(s, p).Some? {
      FirstRecordIs(t, p, FirstRecord(s, p).value);
    }
  }

  /** The loop over `enumerate(records)` that stops at the first match. */
  method FindFirstRecord(s: Sheet, p: Row -> bool) returns (r: Option<nat>)
    ensures r == FirstRecord(s, p)
  {
    var records := Records(s);
    var i := 0;
    while i < |records|
      invariant 0 <= i <= |records|
      invariant |records| == if |s| == 0 then 0 else |s| - 1
      invariant forall m :: 2 <= m < i + 2 ==> !p(SheetRow(s, m))
    {
      assert records[i] == s[i + 1];
      if p(records[i]) {
        assert p(SheetRow(s, i + 2));
        return Some(i + 2);
      }
      i := i + 1;
    }
    return None;
  }

  function LastRecordUpTo(s: Sheet, p: Row -> bool, n: nat): (r: Option<nat>)
    requires n <= |s|
    ensures r.Some? ==> 2 <= r.value <= n && p(SheetRow(s, r.value))
    ensures r.Some? ==> forall m :: r.value < m <= n ==> !p(SheetRow(s, m))
    ensures r.None? ==> forall m :: 2 <= m <= n ==> !p(SheetRow(s, m))
  {
    if n < 2 then None
    else if p(s[n - 1]) then Some(n)
    else LastRecordUpTo(s, p, n - 1)
  }

  /** The sheet row of the last record satisfying `p`: the one a dict built over the records keeps. */
  function LastRecord(s: Sheet, p: Row -> bool): (r: Option<nat>)
    ensures r.Some? ==> 2 <= r.value <= |s| && p(SheetRow(s, r.value))
    ensures r.Some? ==> forall m :: r.value < m <= |s| ==> !p(SheetRow(s, m))
    ensures r.None? ==> forall m :: 2 <= m <= |s| ==> !p(SheetRow(s, m))
  {
    LastRecordUpTo(s, p, |s|)
  }

  /** When exactly one record matches, the first and the last match are that record. */
  lemma OnlyMatch(s: Sheet, p: Row -> bool, n: nat)
    requires 2 <= n <= |s| && p(SheetRow(s, n))
    requires forall m :: 2 <= m <= |s| && m != n ==> !p(SheetRow(s, m))
    ensures FirstRecord(s, p) == Some(n) && LastRecord(s, p) == Some(n)
  {
  }

  /** The test `str(r.get(key, "")) == value` on a record of a sheet with header `h`. */
  function FieldIs(h: Row, key: string, value: string): Row -> bool {
    row => FieldOr(h, row, key, "") == value
  }

  // ---- Removing rows ----

  /**
   * The loop that deletes the first record satisfying `p` and stops
   * (`ws.delete_rows(i + 2); break`): the rows above it stay, the rows
   * below move up by one, and nothing happens when no record matches.
   */
  function DeleteFirstMatch(s: Sheet, p: Row -> bool): (r: Sheet)
    ensures FirstRecord(s, p).None? ==> r == s
    ensures FirstRecord(s, p).Some? ==> var n := FirstRecord(s, p).value;
      |r| == |s| - 1 && r[..n - 1] == s[..n - 1] && r[n - 1..] == s[n..]
  {
    match FirstRecord(s, p)
    case None => s
    case Some(n) => DeleteRow(s, n)
  }

  /** The rows after `delete_rows(n)`: those above `n` keep their number, those below move up by one. */
  lemma DeleteRowRows(s: Sheet, n: nat)
    requires 1 <= n <= |s|
    ensures forall m :: 1 <= m < n ==> SheetRow(DeleteRow(s, n), m) == SheetRow(s, m)
    ensures forall m :: n <= m < |s| ==> SheetRow(DeleteRow(s, n), m) == SheetRow(s, m + 1)
  {
  }

  /**
   * On a sheet with at most one record per key, deleting the first record
   * with key `k` leaves none, keeps the header, and keeps the keys unique.
   */
  lemma DeleteFirstMatchUnique<K>(s: Sheet, key: Row -> K, k: K, p: Row -> bool)
    requires forall row :: p(row) <==> key(row) == k
    requires UniqueKeys(s, key)
    ensures var r := DeleteFirstMatch(s, p);
      (forall m :: 2 <= m <= |r| ==> !p(SheetRow(r, m))) && UniqueKeys(r, key) &&
      (|s| >= 1 ==> |r| >= 1 && r[0] == s[0]) &&
      forall row :: row in Records(r) ==> row in Records(s)
  {
    match FirstRecord(s, p)
    case None =>
    case Some(n) =>
      var r := DeleteRow(s, n);
      DeleteRowRows(s, n);
      forall m | 2 <= m <= |r|
        ensures !p(SheetRow(r, m))
      {
        if m >= n {
          assert key(SheetRow(s, m + 1)) != key(SheetRow(s, n));
        }
      }
      forall a, b | 2 <= a < b <= |r|
        ensures key(SheetRow(r, a)) != key(SheetRow(r, b))
      {
        var a', b' := if a < n then a else a + 1, if b < n then b else b + 1;
        assert SheetRow(r, a) == SheetRow(s, a') && SheetRow(r, b) == SheetRow(s, b');
      }
      forall row | row in Records(r)
        ensures row in Records(s)
      {
        var i :| 0 <= i < |Records(r)| && Records(r)[i] == row;
        assert row == SheetRow(r, i + 2);
        if i + 2 < n {
          assert row == Records(s)[i];
        } else {
          assert row == Records(s)[i + 1];
        }
      }
  }

  // ---- Converting records ----

  /** Every record converted by `parse`, in order, or `None` when one conversion fails (raises). */
  function ParseAll<T>(recs: seq<Row>, parse: Row -> Option<T>): Option<seq<T>>
    decreases |recs|
  {
    if recs == [] then Some([])
    else
      match (ParseAll(recs[..|recs| - 1], parse), parse(recs[|recs| - 1]))
      case (Some(xs), Some(x)) => Some(xs + [x])
      case _ => None
  }

  /** The conversion of all records succeeds exactly when each record's does, and keeps their order. */
  lemma {:induction false} ParseAllSpec<T>(recs: seq<Row>, parse: Row -> Option<T>)
    ensures ParseAll(recs, parse).Some? <==> forall i :: 0 <= i < |recs| ==> parse(recs[i]).Some?
    ensures ParseAll(recs, parse).Some? ==> (|ParseAll(recs, parse).value| == |recs| &&
      forall i :: 0 <= i < |recs| ==> parse(recs[i]) == Some(ParseAll(recs, parse).value[i]))
    decreases |recs|
  {
    if recs != [] {
      var init := recs[..|recs| - 1];
      ParseAllSpec(init, parse);
      assert forall i :: 0 <= i < |init| ==> init[i] == recs[i];
    }
  }

  /** One more record converted. */
  lemma ParseAllStep<T>(recs: seq<Row>, i: nat, xs: seq<T>, x: T, parse: Row -> Option<T>)
    requires i < |recs| && ParseAll(recs[..i], parse) == Some(xs) && parse(recs[i]) == Some(x)
    ensures ParseAll(recs[..i + 1], parse) == Some(xs + [x])
  {
    assert recs[..i + 1][..i] == recs[..i];
  }

  /**
   * The record loop of the readers: convert each record, leave out those
   * `skip` marks, and fail as soon as one conversion raises.
   */
  method ConvertRecords<T(==)>(recs: seq<Row>, parse: Row -> Option<T>, skip: T -> bool) returns (r: Option<seq<T>>)
    ensures r.None? <==> ParseAll(recs, parse).None?
    ensures r.Some? ==> r.value == RemoveWhere(ParseAll(recs, parse).value, skip)
  {
    var result: seq<T> := [];
    ghost var parsed: seq<T> := [];
    var i := 0;
    assert recs[..0] == [];
    while i < |recs|
      invariant 0 <= i <= |recs|
      invariant ParseAll(recs[..i], parse) == Some(parsed)
      invariant result == RemoveWhere(parsed, skip)
    {
      var x := parse(recs[i]);
      if x.None? {
        ParseAllSpec(recs, parse);
        return None;
      }
      ParseAllStep(recs, i, parsed, x.value, parse);
      RemoveWhereSnoc(parsed, x.value, skip);
      if !skip(x.value) {
        result := result + [x.value];
      }
      parsed := parsed + [x.value];
      i := i + 1;
    }
    assert recs[..|recs|] == recs;
    return Some(result);
  }

  /** The elements of `s` not satisfying `p`, in their order (`[x for x in s if not p(x)]`). */
  function RemoveWhere<T(==)>(s: seq<T>, p: T -> bool): (r: seq<T>)
    ensures |r| <= |s|
    ensures forall k :: 0 <= k < |r| ==> r[k] in s && !p(r[k])
    ensures forall k :: 0 <= k < |s| && !p(s[k]) ==> s[k] in r
    ensures (forall k :: 0 <= k < |s| ==> !p(s[k])) ==> r == s
  {
    if s == [] then []
    else
      assert s == [s[0]] + s[1..];
      (if p(s[0]) then [] else [s[0]]) + RemoveWhere(s[1..], p)
  }

  lemma {:induction false} RemoveWhereAppend<T>(a: seq<T>, b: seq<T>, p: T -> bool)
    ensures RemoveWhere(a + b, p) == RemoveWhere(a, p) + RemoveWhere(b, p)
  {
    if a == [] {
      assert a + b == b;
    } else {
      var head := if p(a[0]) then [] else [a[0]];
      assert (a + b)[0] == a[0];
      assert (a + b)[1..] == a[1..] + b;
      RemoveWhereAppend(a[1..], b, p);
      calc {
        RemoveWhere(a + b, p);
        head + RemoveWhere(a[1..] + b, p);
        head + (RemoveWhere(a[1..], p) + RemoveWhere(b, p));
        (head + RemoveWhere(a[1..], p)) + RemoveWhere(b, p);
      }
    }
  }

  /** Filtering one more element. */
  lemma RemoveWhereSnoc<T>(s: seq<T>, x: T, p: T -> bool)
    ensures RemoveWhere(s + [x], p) == RemoveWhere(s, p) + (if p(x) then [] else [x])
  {
    RemoveWhereAppend(s, [x], p);
    assert [x][1..] == [];
  }


  /** The header followed by the records not satisfying `p`. */
  function DeleteWhere(s: Sheet, p: Row -> bool): (r: Sheet)
    ensures |s| > 0 ==> |r| > 0 && r[0] == s[0]
    ensures forall k :: 1 <= k < |r| ==> !p(r[k]) && r[k] in Records(s)
    ensures forall k :: 1 <= k < |s| && !p(s[k]) ==> s[k] in Records(r)
  {
    if |s| == 0 then s else [s[0]] + RemoveWhere(s[1..], p)
  }

  /**
   * The elements of `s` whose positions (counted from `base`) are not in
   * `drop`: what is left of rows `base ..` after deleting rows `drop`.
   */
  function Keep<T>(s: seq<T>, drop: set<nat>, base: nat): seq<T>
    decreases |s|
  {
    if s == [] then []
    else (if base in drop then [] else [s[0]]) + Keep(s[1..], drop, base + 1)
  }

  lemma {:induction false} KeepAppend<T>(a: seq<T>, b: seq<T>, drop: set<nat>, base: nat)
    ensures Keep(a + b, drop, base) == Keep(a, drop, base) + Keep(b, drop, base + |a|)
    decreases |a|
  {
    if a == [] {
      assert a + b == b;
    } else {
      assert (a + b)[0] == a[0];
      assert (a + b)[1..] == a[1..] + b;
      KeepAppend(a[1..], b, drop, base + 1);
    }
  }

  lemma {:induction false} KeepNone<T>(a: seq<T>, drop: set<nat>, base: nat)
    requires forall j :: base <= j < base + |a| ==> j !in drop
    ensures Keep(a, drop, base) == a
    decreases |a|
  {
    if a != [] {
      KeepNone(a[1..], drop, base + 1);
    }
  }

  lemma {:induction false} KeepIgnoresBelow<T>(a: seq<T>, drop: set<nat>, x: nat, base: nat)
    requires x < base
    ensures Keep(a, drop + {x}, base) == Keep(a, drop, base)
    decreases |a|
  {
    if a != [] {
      KeepIgnoresBelow(a[1..], drop, x, base + 1);
    }
  }

  /**
   * Deleting row `p` after every larger row number in `drop` has gone is the
   * same as deleting `drop` and `p` together: the rows above `p` have not
   * moved, so `p` still names the intended row.
   */
  lemma DeleteRowAfterLarger(s: Sheet, drop: set<nat>, p: nat)
    requires 1 <= p <= |s|
    requires forall x :: x in drop ==> x > p
    ensures |Keep(s, drop, 1)| >= p
    ensures DeleteRow(Keep(s, drop, 1), p) == Keep(s, drop + {p}, 1)
  {
    var pre, k := s[..p - 1], Keep(s[p..], drop, p + 1);
    KeepAroundRow(s, drop, p);
    var t := Keep(s, drop, 1);
    assert t[..p - 1] == pre && t[p..] == k;
  }

  /** Around a row `p` below every dropped row, both `Keep`s are the rows above `p`, then (or not) row `p`, then the kept rows below. */
  lemma KeepAroundRow(s: Sheet, drop: set<nat>, p: nat)
    requires 1 <= p <= |s|
    requires forall x :: x in drop ==> x > p
    ensures Keep(s, drop, 1) == s[..p - 1] + [s[p - 1]] + Keep(s[p..], drop, p + 1)
    ensures Keep(s, drop + {p}, 1) == s[..p - 1] + Keep(s[p..], drop, p + 1)
  {
    KeepSplitAt(s, drop, p);
    KeepSplitAt(s, drop + {p}, p);
    var rest := s[p - 1..];
    assert rest[0] == s[p - 1] && rest[1..] == s[p..];
    KeepIgnoresBelow(s[p..], drop, p, p + 1);
    assert Keep(rest, drop, p) == [s[p - 1]] + Keep(s[p..], drop, p + 1);
    assert Keep(rest, drop + {p}, p) == Keep(s[p..], drop, p + 1);
  }

  /** `Keep` over a sheet whose first `p - 1` rows are not dropped: those rows, then `Keep` of the rest. */
  lemma KeepSplitAt(s: Sheet, drop: set<nat>, p: nat)
    requires 1 <= p <= |s|
    requires forall x :: x in drop ==> x >= p
    ensures Keep(s, drop, 1) == s[..p - 1] + Keep(s[p - 1..], drop, p)
  {
    assert s == s[..p - 1] + s[p - 1..];
    KeepAppend(s[..p - 1], s[p - 1..], drop, 1);
    KeepNone(s[..p - 1], drop, 1);
  }

  /** Every element `Keep` leaves is an element of the original sequence. */
  lemma {:induction false} KeepSubset<T>(s: seq<T>, drop: set<nat>, base: nat)
    ensures forall x :: x in Keep(s, drop, base) ==> x in s
    decreases |s|
  {
    if s != [] {
      KeepSubset(s[1..], drop, base + 1);
    }
  }

  /** A batch update of data rows whose every write leaves a row satisfying `p` keeps "every record satisfies `p`". */
  lemma ApplyWritesKeepsRecords(s: Sheet, writes: seq<RangeWrite>, p: Row -> bool)
    requires forall k :: 0 <= k < |writes| ==> WriteInRange(|s|, writes[k]) && writes[k].row >= 2
    requires forall k, row :: 0 <= k < |writes| ==> writes[k].col >= 1 && p(WrittenRow(row, writes[k]))
    requires forall row :: row in Records(s) ==> p(row)
    ensures HeaderOf(ApplyWrites(s, writes)) == HeaderOf(s)
    ensures forall row :: row in Records(ApplyWrites(s, writes)) ==> p(row)
  {
    var r := ApplyWrites(s, writes);
    ApplyWritesRowsSatisfy(s, writes, p);
    if |s| > 0 {
      ApplyWritesOtherRows(s, writes, 1);
    }
    forall row | row in Records(r)
      ensures p(row)
    {
      var i :| 0 <= i < |Records(r)| && Records(r)[i] == row;
      assert r[i + 1] == row;
      assert s[i + 1] in Records(s);
    }
  }

  /** Deleting data rows and appending rows that satisfy `p` keeps "every record satisfies `p`" and the header. */
  lemma KeepAppendKeepsRecords(s: Sheet, drop: set<nat>, appends: seq<Row>, p: Row -> bool)
    requires |s| >= 1 && 1 !in drop
    requires forall row :: row in Records(s) ==> p(row)
    requires forall row :: row in appends ==> p(row)
    ensures HeaderOf(Keep(s, drop, 1) + appends) == HeaderOf(s)
    ensures forall row :: row in Records(Keep(s, drop, 1) + appends) ==> p(row)
  {
    var kept := Keep(s[1..], drop, 2);
    assert Keep(s, drop, 1) == [s[0]] + kept;
    KeepSubset(s[1..], drop, 2);
    var r := Keep(s, drop, 1) + appends;
    assert r == [s[0]] + (kept + appends);
    assert Records(r) == kept + appends;
    forall row | row in Records(r)
      ensures p(row)
    {
      if row in kept {
        assert row in Records(s);
      }
    }
  }

  lemma {:induction false} ApplyWritesRowsSatisfy(s: Sheet, writes: seq<RangeWrite>, p: Row -> bool)
    requires forall k :: 0 <= k < |writes| ==> WriteInRange(|s|, writes[k])
    requires forall k, row :: 0 <= k < |writes| ==> writes[k].col >= 1 && p(WrittenRow(row, writes[k]))
    ensures forall n :: 0 <= n < |s| ==> ApplyWrites(s, writes)[n] == s[n] || p(ApplyWrites(s, writes)[n])
    decreases |writes|
  {
    if writes != [] {
      var s1 := ApplyWrite(s, writes[0]);
      assert forall k :: 0 <= k < |writes[1..]| ==> writes[1..][k] == writes[k + 1];
      ApplyWritesRowsSatisfy(s1, writes[1..], p);
      assert p(WrittenRow(s[writes[0].row - 1], writes[0]));
    }
  }

  function Elements(xs: seq<nat>): set<nat> {
    set x | x in xs
  }

  /**
   * The loop `for row in sorted(rows, reverse=True): ws.delete_rows(row)`,
   * given the row numbers already in strictly decreasing order: the result
   * is the sheet without exactly those rows.
   */
  method DeleteRowsDescending(s: Sheet, rows: seq<nat>) returns (t: Sheet)
    requires forall k :: 0 <= k < |rows| ==> 1 <= rows[k] <= |s|
    requires forall i, j :: 0 <= i < j < |rows| ==> rows[i] > rows[j]
    ensures t == Keep(s, Elements(rows), 1)
  {
    t := s;
    KeepNone(s, {}, 1);
    assert Elements(rows[..0]) == {};
    var k := 0;
    while k < |rows|
      invariant 0 <= k <= |rows|
      invariant t == Keep(s, Elements(rows[..k]), 1)
    {
      assert forall x :: x in Elements(rows[..k]) ==> x > rows[k];
      DeleteRowAfterLarger(s, Elements(rows[..k]), rows[k]);
      t := DeleteRow(t, rows[k]);
      assert Elements(rows[..k + 1]) == Elements(rows[..k]) + {rows[k]} by {
        assert rows[..k + 1] == rows[..k] + [rows[k]];
      }
      k := k + 1;
    }
    assert rows[..|rows|] == rows;
  }

  /** Deleting exactly the positions whose elements satisfy `p` is the filter `RemoveWhere`. */
  lemma {:induction false} KeepMatching<T>(s: seq<T>, drop: set<nat>, base: nat, p: T -> bool)
    requires forall j :: base <= j < base + |s| ==> (j in drop <==> p(s[j - base]))
    ensures Keep(s, drop, base) == RemoveWhere(s, p)
    decreases |s|
  {
    if s != [] {
      assert base in drop <==> p(s[0]);
      forall j | base + 1 <= j < base + 1 + |s[1..]|
        ensures j in drop <==> p(s[1..][j - (base + 1)])
      {
        assert s[1..][j - (base + 1)] == s[j - base];
      }
      KeepMatching(s[1..], drop, base + 1, p);
    }
  }

  /** The row numbers of all records satisfying `p`, collected in ascending order. */
  method MatchingRowNumbers(s: Sheet, p: Row -> bool) returns (rows: seq<nat>)
    ensures forall n :: n in rows <==> 2 <= n <= |s| && p(SheetRow(s, n))
    ensures forall i, j :: 0 <= i < j < |rows| ==> rows[i] < rows[j]
  {
    var records := Records(s);
    rows := [];
    var i := 0;
    while i < |records|
      invariant 0 <= i <= |records|
      invariant |records| == if |s| == 0 then 0 else |s| - 1
      invariant forall n :: n in rows <==> 2 <= n < i + 2 && p(SheetRow(s, n))
      invariant forall a, b :: 0 <= a < b < |rows| ==> rows[a] < rows[b]
      invariant forall a :: 0 <= a < |rows| ==> rows[a] < i + 2
    {
      assert records[i] == s[i + 1];
      if p(records[i]) {
        rows := rows + [i + 2];
      }
      i := i + 1;
    }
  }

  /**
   * A cascade delete: collect the rows of every record satisfying `p`, then
   * delete them from the bottom up. The header and every other record remain,
   * in their order.
   */
  method CascadeDelete(s: Sheet, p: Row -> bool) returns (t: Sheet)
    ensures t == DeleteWhere(s, p)
  {
    var found := MatchingRowNumbers(s, p);
    var order := SortDesc(found);
    DescendingMatches(s, p, found, order);
    t := DeleteRowsDescending(s, order);
    KeepIsDeleteWhere(s, p, Elements(order));
  }

  /** `sorted(rows, reverse=True)` of the matching row numbers: in range, strictly decreasing, the same set. */
  lemma DescendingMatches(s: Sheet, p: Row -> bool, found: seq<nat>, order: seq<nat>)
    requires forall n :: n in found <==> 2 <= n <= |s| && p(SheetRow(s, n))
    requires forall i, j :: 0 <= i < j < |found| ==> found[i] < found[j]
    requires order == SortDesc(found)
    ensures forall k :: 0 <= k < |order| ==> 1 <= order[k] <= |s|
    ensures forall i, j :: 0 <= i < j < |order| ==> order[i] > order[j]
    ensures forall n :: n in Elements(order) <==> 2 <= n <= |s| && p(SheetRow(s, n))
  {
    assert Distinct(found);
    SortDescDistinct(found);
    SameElements(found, order);
    forall k | 0 <= k < |order|
      ensures 1 <= order[k] <= |s|
    {
      assert order[k] in found;
    }
    forall n
      ensures n in Elements(order) <==> 2 <= n <= |s| && p(SheetRow(s, n))
    {
      assert n in Elements(order) <==> n in order;
    }
  }

  lemma SameElements(xs: seq<nat>, ys: seq<nat>)
    requires multiset(xs) == multiset(ys)
    ensures forall n :: n in xs <==> n in ys
  {
    forall n
      ensures n in xs <==> n in ys
    {
      assert n in xs <==> n in multiset(xs);
      assert n in ys <==> n in multiset(ys);
    }
  }

  /** Deleting exactly the rows of the records satisfying `p` leaves `DeleteWhere(s, p)`. */
  lemma KeepIsDeleteWhere(s: Sheet, p: Row -> bool, drop: set<nat>)
    requires forall n :: n in drop <==> 2 <= n <= |s| && p(SheetRow(s, n))
    ensures Keep(s, drop, 1) == DeleteWhere(s, p)
  {
    if |s| > 0 {
      assert s == [s[0]] + s[1..];
      KeepAppend([s[0]], s[1..], drop, 1);
      KeepNone([s[0]], drop, 1);
      forall j | 2 <= j < 2 + |s[1..]|
        ensures j in drop <==> p(s[1..][j - 2])
      {
        assert s[1..][j - 2] == SheetRow(s, j);
      }
      KeepMatching(s[1..], drop, 2, p);
    } else {
      KeepNone(s, drop, 1);
    }
  }

  // ---- Writing rows ----

  /** `[values.get(h, "") for h in headers]`: a new row laid out in the sheet's header order. */
  function RowFromValues(header: Row, values: map<string, string>): (r: Row)
    ensures |r| == |header|
    ensures forall key :: key in header ==> Field(header, r, key) == Some(if key in values then values[key] else "")
  {
    seq(|header|, k requires 0 <= k < |header| => if header[k] in values then values[header[k]] else "")
  }

  /** No two records share a key. */
  ghost predicate UniqueKeys<K>(s: Sheet, key: Row -> K) {
    forall a, b :: 2 <= a < b <= |s| ==> key(SheetRow(s, a)) != key(SheetRow(s, b))
  }

  /** The row an upsert writes: the first record satisfying `isKey`, else the row after the last. */
  function UpsertRow(s: Sheet, isKey: Row -> bool): (n: nat)
    requires |s| >= 1
    ensures 2 <= n <= |s| + 1
  {
    match FirstRecord(s, isKey)
    case Some(n) => n
    case None => |s| + 1
  }

  /**
   * Overwrite-or-append: the first record satisfying `isKey` becomes
   * `update(record)`; when there is none, `newRow` is appended. The header
   * and every record without the key stay where they were.
   */
  function Upsert(s: Sheet, isKey: Row -> bool, update: Row -> Row, newRow: Row): (r: Sheet)
    ensures FirstRecord(s, isKey).Some? ==>
      |r| == |s| && r[FirstRecord(s, isKey).value - 1] == update(s[FirstRecord(s, isKey).value - 1])
    ensures FirstRecord(s, isKey).None? ==> r == s + [newRow]
    ensures |s| <= |r| && forall m :: 0 <= m < |s| && (m == 0 || !isKey(s[m])) ==> r[m] == s[m]
  {
    match FirstRecord(s, isKey)
    case Some(n) => s[n - 1 := update(s[n - 1])]
    case None => s + [newRow]
  }

  /**
   * An upsert keeps "at most one record per key": the rewritten record keeps
   * its key and a new row is only added when no record had the key.
   */
  lemma UpsertKeepsKeysUnique<K>(s: Sheet, key: Row -> K, k: K, isKey: Row -> bool, update: Row -> Row, newRow: Row)
    requires |s| >= 1
    requires forall row :: isKey(row) <==> key(row) == k
    requires forall row :: isKey(row) ==> key(update(row)) == k
    requires key(newRow) == k
    requires UniqueKeys(s, key)
    ensures UniqueKeys(Upsert(s, isKey, update, newRow), key)
  {
    var r := Upsert(s, isKey, update, newRow);
    var n := UpsertRow(s, isKey);
    assert |r| >= n && key(SheetRow(r, n)) == k;
    forall a, b | 2 <= a < b <= |r|
      ensures key(SheetRow(r, a)) != key(SheetRow(r, b))
    {
      if a != n && b != n {
        assert SheetRow(r, a) == SheetRow(s, a) && SheetRow(r, b) == SheetRow(s, b);
      } else if a == n {
        assert SheetRow(r, b) == SheetRow(s, b);
        assert key(SheetRow(s, n)) == k;
      } else {
        assert SheetRow(r, a) == SheetRow(s, a);
        if FirstRecord(s, isKey).Some? {
          assert key(SheetRow(s, n)) == k;
        } else {
          assert !isKey(SheetRow(s, a));
        }
      }
    }
  }

  /** After an upsert the written row is the one record satisfying `isKey`. */
  lemma UpsertWritesOnlyMatch<K>(s: Sheet, key: Row -> K, k: K, isKey: Row -> bool, update: Row -> Row, newRow: Row)
    requires |s| >= 1
    requires forall row :: isKey(row) <==> key(row) == k
    requires forall row :: isKey(row) ==> key(update(row)) == k
    requires key(newRow) == k
    requires UniqueKeys(s, key)
    ensures var r := Upsert(s, isKey, update, newRow);
      var n := UpsertRow(s, isKey);
      n <= |r| && FirstRecord(r, isKey) == Some(n) && LastRecord(r, isKey) == Some(n) &&
      SheetRow(r, n) == (if FirstRecord(s, isKey).Some? then update(SheetRow(s, n)) else newRow)
  {
    var r := Upsert(s, isKey, update, newRow);
    var n := UpsertRow(s, isKey);
    UpsertKeepsKeysUnique(s, key, k, isKey, update, newRow);
    assert |r| >= n && isKey(SheetRow(r, n));
    forall m | 2 <= m <= |r| && m != n
      ensures !isKey(SheetRow(r, m))
    {
      assert key(SheetRow(r, m)) != key(SheetRow(r, n)) by {
        if m < n {} else {}
      }
    }
    OnlyMatch(r, isKey, n);
  }

  /**
   * `t` differs from `s` only in records satisfying `isKey`: the header and
   * every record of `s` without the key keep their place, and every record
   * of `t` without the key is the record of `s` at that place.
   */
  predicate OthersKept(s: Sheet, t: Sheet, isKey: Row -> bool) {
    1 <= |s| <= |t| && t[0] == s[0] &&
    (forall m :: 1 <= m < |s| && !isKey(s[m]) ==> t[m] == s[m]) &&
    (forall m :: 1 <= m < |t| && !isKey(t[m]) ==> m < |s| && t[m] == s[m])
  }

  /** An upsert whose written rows keep the key touches no record of another key. */
  lemma UpsertKeepsOthers(s: Sheet, isKey: Row -> bool, update: Row -> Row, newRow: Row)
    requires |s| >= 1
    requires forall row :: isKey(row) ==> isKey(update(row))
    requires isKey(newRow)
    ensures OthersKept(s, Upsert(s, isKey, update, newRow), isKey)
  {
    var r := Upsert(s, isKey, update, newRow);
    forall m | 1 <= m < |r| && !isKey(r[m])
      ensures m < |s| && r[m] == s[m]
    {
      match FirstRecord(s, isKey) {
        case Some(n) =>
          assert isKey(s[n - 1]);
          assert m != n - 1;
        case None =>
          assert m != |s|;
      }
    }
  }

  /** A map updated twice at one key holds the second value. */
  lemma UpdateTwice<K, V>(m: map<K, V>, k: K, a: V, b: V)
    ensures m[k := a][k := b] == m[k := b]
  {
  }
}
