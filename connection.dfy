/**
 * The shared utilities of the database layer (database/connection.py):
 * lenient JSON reading, the routing of sheet names to the two spreadsheets,
 * column letters, row lookup, id generation, header reconciliation, the
 * default-password fill of `init_db`, and the module-level worksheet caches,
 * held here by the `Database` class.
 */
module Connection {
  import opened Wrappers
  import opened Text
  import opened Ordering
  import opened Sheets

  // ---- JSON values ----

  /** A value as Python holds it after `json.loads` (numbers other than integers are not modelled). */
  datatype PyValue =
    | PyNone
    | PyBool(b: bool)
    | PyInt(i: int)
    | PyStr(s: string)
    | PyList(items: seq<PyValue>)
    | PyDict(entries: map<string, PyValue>)

  predicate IsContainer(v: PyValue) {
    v.PyList? || v.PyDict?
  }

  /** Python truthiness, which `x or default` tests. */
  predicate Truthy(v: PyValue) {
    match v
    case PyNone => false
    case PyBool(b) => b
    case PyInt(i) => i != 0
    case PyStr(s) => s != ""
    case PyList(items) => |items| > 0
    case PyDict(entries) => |entries| > 0
  }

  /** `x or default`. */
  function Or(x: PyValue, default: PyValue): (r: PyValue)
    ensures Truthy(x) ==> r == x
    ensures !Truthy(x) ==> r == default
  {
    if Truthy(x) then x else default
  }

  /**
   * `_safe_json_loads(val, default)`: a list or dict passes through, a
   * non-empty string is decoded, everything else (and text that does not
   * decode) yields the default, which is `[]` when it is `None`. `decode`
   * is `json.loads`, with `None` for a decoding error.
   */
  function SafeJsonLoads(val: PyValue, default: PyValue, decode: string -> Option<PyValue>): (r: PyValue)
    ensures IsContainer(val) ==> r == val
    ensures !IsContainer(val) && !(val.PyStr? && val.s != "") ==> r == (if default.PyNone? then PyList([]) else default)
    ensures val.PyStr? && val.s != "" && decode(val.s).None? ==> r == (if default.PyNone? then PyList([]) else default)
    ensures val.PyStr? && val.s != "" && decode(val.s).Some? ==> r == decode(val.s).value
  {
    var dflt := if default.PyNone? then PyList([]) else default;
    if IsContainer(val) then val
    else if val.PyStr? && val.s != "" then
      match decode(val.s)
      case Some(v) => v
      case None => dflt
    else dflt
  }

  /** Whatever the stored text, the result is the value passed in, a decoded value or the default. */
  lemma SafeJsonLoadsNeverFails(val: PyValue, decode: string -> Option<PyValue>)
    requires forall t :: decode(t).Some? ==> IsContainer(decode(t).value)
    ensures IsContainer(SafeJsonLoads(val, PyNone, decode))
  {
  }

  /** `r.get(key)`: the cell's text, or `None` when the sheet has no such column. */
  function CellValue(h: Row, row: Row, key: string): PyValue {
    match Field(h, row, key)
    case Some(t) => PyStr(t)
    case None => PyNone
  }

  // ---- Routing sheet names ----

  const PrefSheetPrefix: string := "希望_"
  const ScheduleSheetPrefix: string := "スケジュール_"
  const OperationalPrefixes: seq<string> := [PrefSheetPrefix, ScheduleSheetPrefix]

  /** `any(name.startswith(p) for p in prefixes)`. */
  predicate AnyStartsWith(name: string, prefixes: seq<string>) {
    if prefixes == [] then false
    else StartsWith(name, prefixes[0]) || AnyStartsWith(name, prefixes[1..])
  }

  /** `_is_operational_sheet`: monthly preference and schedule sheets live in the operational spreadsheet. */
  predicate IsOperationalSheet(name: string) {
    AnyStartsWith(name, OperationalPrefixes)
  }

  lemma IsOperationalSheetIff(name: string)
    ensures IsOperationalSheet(name) <==> StartsWith(name, PrefSheetPrefix) || StartsWith(name, ScheduleSheetPrefix)
  {
    var rest := OperationalPrefixes[1..];
    assert rest == [ScheduleSheetPrefix] && rest[1..] == [];
    assert AnyStartsWith(name, OperationalPrefixes) == (StartsWith(name, PrefSheetPrefix) || AnyStartsWith(name, rest));
    assert AnyStartsWith(name, rest) == (StartsWith(name, ScheduleSheetPrefix) || AnyStartsWith(name, rest[1..]));
  }

  lemma StartsWithFirst(s: string, p: string)
    requires |p| > 0
    ensures StartsWith(s, p) ==> s[0] == p[0]
  {
    if StartsWith(s, p) {
      assert s[..|p|][0] == s[0];
    }
  }

  /** A name whose first character starts neither prefix is a master sheet. */
  lemma MasterName(name: string)
    requires |name| > 0 && name[0] != PrefSheetPrefix[0] && name[0] != ScheduleSheetPrefix[0]
    ensures !IsOperationalSheet(name)
  {
    IsOperationalSheetIff(name);
    StartsWithFirst(name, PrefSheetPrefix);
    StartsWithFirst(name, ScheduleSheetPrefix);
  }

  datatype CacheKind = MasterCache | OperationalCache

  /** `_get_ws_cache` (and `_get_spreadsheet_for`): which of the two caches a sheet name belongs to. */
  function CacheFor(name: string): (k: CacheKind)
    ensures k == OperationalCache <==> StartsWith(name, PrefSheetPrefix) || StartsWith(name, ScheduleSheetPrefix)
    ensures k == MasterCache <==> !StartsWith(name, PrefSheetPrefix) && !StartsWith(name, ScheduleSheetPrefix)
  {
    IsOperationalSheetIff(name);
    if IsOperationalSheet(name) then OperationalCache else MasterCache
  }

  // ---- Columns and rows ----

  /**
   * The last column `_col_letter` names: past Z, `chr(64 + col)` is no
   * column letter and a range built from it is rejected by `batch_update`.
   */
  const LastLetterColumn: nat := 26

  /** `_col_letter`: column 1 is 'A', column 26 is 'Z'. */
  function ColLetter(col: nat): (c: char)
    requires 1 <= col <= LastLetterColumn
    ensures 'A' <= c <= 'Z'
    ensures c as int - 'A' as int == col - 1
  {
    (64 + col) as char
  }

  lemma ColLetterInjective(a: nat, b: nat)
    requires 1 <= a <= 26 && 1 <= b <= 26 && a != b
    ensures ColLetter(a) != ColLetter(b)
  {
  }

  /** The test `str(v) == str(value)` on the cells of the 0-based column `col0`. */
  function ColumnIs(col0: nat, value: string): Row -> bool {
    row => CellAt(row, col0) == value
  }

  /**
   * `_find_row_index(ws, col, value)`: the first row below the header whose
   * cell in column `col` reads `value`. The header row is never returned.
   */
  method FindRowIndex(s: Sheet, col: nat, value: string) returns (r: Option<nat>)
    requires col >= 1
    ensures r == FirstRecord(s, ColumnIs(col - 1, value))
  {
    var cells := ColValues(s, col);
    var i := 0;
    while i < |cells|
      invariant 0 <= i <= |cells| == |s|
      invariant forall m :: 2 <= m <= i && m <= |s| ==> CellAt(SheetRow(s, m), col - 1) != value
    {
      if i != 0 && cells[i] == value {
        assert ColumnIs(col - 1, value)(SheetRow(s, i + 1));
        return Some(i + 1);
      }
      i := i + 1;
    }
    return None;
  }

  // ---- Ids ----

  /** The running maximum after looking at one more cell. */
  function MaxStep(best: Option<nat>, cell: string): Option<nat> {
    if !IsDigits(cell) then best
    else match best
      case None => Some(DigitsValue(cell))
      case Some(x) => Some(if DigitsValue(cell) > x then DigitsValue(cell) else x)
  }

  /** The largest digit-only entry of `cells`, if any (non-digit cells are skipped). */
  function MaxDigitId(cells: seq<string>): (m: Option<nat>)
    ensures m.None? <==> forall k :: 0 <= k < |cells| ==> !IsDigits(cells[k])
    ensures m.Some? ==> exists k :: 0 <= k < |cells| && IsDigits(cells[k]) && DigitsValue(cells[k]) == m.value
    ensures m.Some? ==> forall k :: 0 <= k < |cells| && IsDigits(cells[k]) ==> DigitsValue(cells[k]) <= m.value
  {
    if cells == [] then None
    else MaxStep(MaxDigitId(cells[..|cells| - 1]), cells[|cells| - 1])
  }

  /** What `_next_id` computes from the id column (header first). */
  function NextIdOf(col: seq<string>): (id: nat)
    ensures id >= 1
    ensures forall k :: 1 <= k < |col| && IsDigits(col[k]) ==> DigitsValue(col[k]) < id
    ensures (forall k :: 1 <= k < |col| ==> !IsDigits(col[k])) ==> id == 1
    ensures (exists k :: 1 <= k < |col| && IsDigits(col[k])) ==>
      exists k :: 1 <= k < |col| && IsDigits(col[k]) && id == DigitsValue(col[k]) + 1
  {
    if |col| <= 1 then 1
    else
      var ids := col[1..];
      assert forall k :: 1 <= k < |col| ==> col[k] == ids[k - 1];
      match MaxDigitId(ids)
      case None => 1
      case Some(m) => m + 1
  }

  /** `_next_id(ws)`: one more than the largest digit-only id below the header, or 1. */
  method NextId(s: Sheet) returns (id: nat)
    ensures id == NextIdOf(ColValues(s, 1))
  {
    var col := ColValues(s, 1);
    if |col| <= 1 {
      return 1;
    }
    var best: Option<nat> := None;
    var i := 1;
    while i < |col|
      invariant 1 <= i <= |col|
      invariant best == MaxDigitId(col[1..i])
    {
      ghost var seen := col[1..i + 1];
      assert seen[..|seen| - 1] == col[1..i] && seen[|seen| - 1] == col[i];
      best := MaxStep(best, col[i]);
      i := i + 1;
    }
    assert col[1..|col|] == col[1..];
    id := match best case None => 1 case Some(m) => m + 1;
  }

  /** The id `_next_id` hands out differs from every digit-only id already below the header. */
  lemma NextIdIsFresh(s: Sheet)
    ensures forall n :: 2 <= n <= |s| && IsDigits(CellAt(SheetRow(s, n), 0)) ==>
      NatToString(NextIdOf(ColValues(s, 1))) != CellAt(SheetRow(s, n), 0)
  {
    var col := ColValues(s, 1);
    forall n | 2 <= n <= |s| && IsDigits(CellAt(SheetRow(s, n), 0))
      ensures NatToString(NextIdOf(col)) != CellAt(SheetRow(s, n), 0)
    {
      var cell := CellAt(SheetRow(s, n), 0);
      assert col[n - 1] == cell;
      NatToStringRoundTrip(NextIdOf(col));
      assert DigitsValue(cell) < NextIdOf(col) == DigitsValue(NatToString(NextIdOf(col)));
    }
  }

  // ---- Headers ----

  /** `[h for h in required if h not in existing]`. */
  function MissingHeaders(required: Row, existing: Row): (r: Row)
    ensures forall h :: h in r <==> h in required && h !in existing
    ensures |r| <= |required|
  {
    if required == [] then []
    else (if required[0] in existing then [] else [required[0]]) + MissingHeaders(required[1..], existing)
  }

  /**
   * The header row `init_db` (and the preference sheet's completion) leaves:
   * the required headers when the row is blank, otherwise the existing
   * headers followed by the missing required ones.
   */
  function ReconcileHeaders(existing: Row, required: Row): (r: Row)
    ensures existing == [] ==> r == required
    ensures existing != [] ==> |r| >= |existing| && r[..|existing|] == existing
    ensures existing != [] ==> forall h :: h in r[|existing|..] ==> h in required && h !in existing
    ensures forall h :: h in required ==> h in r
  {
    if existing == [] then required else existing + MissingHeaders(required, existing)
  }

  /** When no required header is missing, a non-blank header row is left as it is. */
  lemma ReconcileNothingMissing(existing: Row, required: Row)
    requires existing != []
    requires forall h :: h in required ==> h in existing
    ensures ReconcileHeaders(existing, required) == existing
  {
    var m := MissingHeaders(required, existing);
    if m != [] {
      assert m[0] in m;
    }
  }

  /** Reconciling twice is reconciling once: a second `init_db` finds nothing missing. */
  lemma ReconcileIdempotent(existing: Row, required: Row)
    requires existing != [] || required != []
    ensures ReconcileHeaders(ReconcileHeaders(existing, required), required) == ReconcileHeaders(existing, required)
  {
    ReconcileNothingMissing(ReconcileHeaders(existing, required), required);
  }

  /** `ws.update([h], "A1")`: the header row written from column A. */
  function WriteHeader(s: Sheet, h: Row): (r: Sheet)
    ensures |r| == if |s| == 0 then 1 else |s|
    ensures |s| > 0 ==> r[1..] == s[1..]
  {
    if |s| == 0 then [h] else s[0 := WriteAt(s[0], 0, h)]
  }

  lemma WriteSameHeader(s: Sheet)
    requires |s| > 0
    ensures WriteHeader(s, s[0]) == s
  {
    var w := WriteAt(s[0], 0, s[0]);
    assert |w| == |s[0]|;
    forall k | 0 <= k < |w|
      ensures w[k] == s[0][k]
    {
      assert CellAt(w, k) == CellAt(s[0], k);
    }
    assert w == s[0];
  }

  /**
   * One entry of the `SHEET_HEADERS` loop of `init_db`: a missing sheet is
   * created holding just the headers; an existing one has its header row
   * reconciled.
   */
  function InitTable(existing: Option<Sheet>, required: Row): (r: Sheet)
    ensures |r| >= 1
    ensures existing.Some? ==> |r| == |existing.value| || (|existing.value| == 0 && |r| == 1)
    ensures HeaderOf(r) == ReconcileHeaders(if existing.Some? then HeaderOf(existing.value) else [], required)
  {
    match existing
    case None => [required]
    case Some(s) => WriteHeader(s, ReconcileHeaders(HeaderOf(s), required))
  }

  /** Existing data rows survive header initialisation unchanged. */
  lemma InitTableKeepsRecords(s: Sheet, required: Row)
    requires |s| > 0
    ensures Records(InitTable(Some(s), required)) == Records(s)
  {
  }

  /** A second initialisation of a table changes nothing. */
  lemma InitTableIdempotent(existing: Option<Sheet>, required: Row)
    requires required != []
    ensures InitTable(Some(InitTable(existing, required)), required) == InitTable(existing, required)
  {
    var t := InitTable(existing, required);
    ReconcileIdempotent(if existing.Some? then HeaderOf(existing.value) else [], required);
    WriteSameHeader(t);
  }

  // ---- Default passwords ----

  /** The password column filled with `h` in every record whose cell is blank (or past the end of a short row). */
  function FillBlankCells(s: Sheet, col0: nat, h: string): (r: Sheet)
    ensures |r| == |s|
    ensures |s| > 0 ==> r[0] == s[0]
    ensures forall n :: 1 <= n < |s| && CellAt(s[n], col0) != "" ==> r[n] == s[n]
    ensures forall n :: 1 <= n < |s| && CellAt(s[n], col0) == "" ==>
      CellAt(r[n], col0) == h && forall k: nat :: k != col0 ==> CellAt(r[n], k) == CellAt(s[n], k)
  {
    FillRowsBelow(s, col0, h, |s|)
  }

  /** `FillBlankCells` restricted to rows `1 .. m - 1` (0-based), the state of the loop after `m - 1` records. */
  function FillRowsBelow(s: Sheet, col0: nat, h: string, m: nat): (r: Sheet)
    ensures |r| == |s|
  {
    seq(|s|, n requires 0 <= n < |s| =>
      if 1 <= n < m && CellAt(s[n], col0) == "" then WriteAt(s[n], col0, [h]) else s[n])
  }

  /** One more blank record filled: the step of the loop below. */
  lemma FillRowsStep(s: Sheet, col: nat, h: string, m: nat)
    requires col >= 1 && 1 <= m < |s|
    ensures CellAt(s[m], col - 1) == "" ==>
      ApplyWrite(FillRowsBelow(s, col - 1, h, m), RangeWrite(m + 1, col, [h])) == FillRowsBelow(s, col - 1, h, m + 1)
    ensures CellAt(s[m], col - 1) != "" ==> FillRowsBelow(s, col - 1, h, m) == FillRowsBelow(s, col - 1, h, m + 1)
  {
    if CellAt(s[m], col - 1) == "" {
      FillBlankRow(s, col, h, m);
    } else {
      SkipFilledRow(s, col - 1, h, m);
    }
  }

  /** A blank record `m` is filled by the write of the default hash into its cell. */
  lemma FillBlankRow(s: Sheet, col: nat, h: string, m: nat)
    requires col >= 1 && 1 <= m < |s| && CellAt(s[m], col - 1) == ""
    ensures ApplyWrite(FillRowsBelow(s, col - 1, h, m), RangeWrite(m + 1, col, [h])) == FillRowsBelow(s, col - 1, h, m + 1)
  {
    var before := FillRowsBelow(s, col - 1, h, m);
    var after := FillRowsBelow(s, col - 1, h, m + 1);
    assert before[m] == s[m];
    var r := ApplyWrite(before, RangeWrite(m + 1, col, [h]));
    assert r == before[m := WriteAt(s[m], col - 1, [h])];
    forall n | 0 <= n < |s|
      ensures r[n] == after[n]
    {
      if n != m {
        assert r[n] == before[n];
      }
    }
  }

  /** A filled record `m` is skipped. */
  lemma SkipFilledRow(s: Sheet, col0: nat, h: string, m: nat)
    requires 1 <= m < |s| && CellAt(s[m], col0) != ""
    ensures FillRowsBelow(s, col0, h, m) == FillRowsBelow(s, col0, h, m + 1)
  {
    var before := FillRowsBelow(s, col0, h, m);
    var after := FillRowsBelow(s, col0, h, m + 1);
    forall n | 0 <= n < |s|
      ensures before[n] == after[n]
    {
    }
  }

  /** Before the loop nothing is filled. */
  lemma FillRowsNone(s: Sheet, col0: nat, h: string)
    ensures FillRowsBelow(s, col0, h, 1) == s
    ensures |s| == 0 ==> FillBlankCells(s, col0, h) == s
  {
    assert forall n :: 0 <= n < |s| ==> FillRowsBelow(s, col0, h, 1)[n] == s[n];
  }

  /** The loop step of `DefaultPasswordWrites`: record `m` adds its write exactly when its cell is blank. */
  lemma PasswordWritesStep(s: Sheet, col: nat, h: string, updates: seq<RangeWrite>, m: nat)
    requires col >= 1 && 1 <= m < |s|
    requires forall k :: 0 <= k < |updates| ==> WriteInRange(|s|, updates[k])
    requires ApplyWrites(s, updates) == FillRowsBelow(s, col - 1, h, m)
    ensures CellAt(s[m], col - 1) == "" ==>
      ApplyWrites(s, updates + [RangeWrite(m + 1, col, [h])]) == FillRowsBelow(s, col - 1, h, m + 1)
    ensures CellAt(s[m], col - 1) != "" ==> ApplyWrites(s, updates) == FillRowsBelow(s, col - 1, h, m + 1)
  {
    FillRowsStep(s, col, h, m);
    if CellAt(s[m], col - 1) == "" {
      var w := RangeWrite(m + 1, col, [h]);
      ApplyWritesSnoc(s, updates, w);
      calc {
        ApplyWrites(s, updates + [w]);
        ApplyWrite(ApplyWrites(s, updates), w);
        ApplyWrite(FillRowsBelow(s, col - 1, h, m), w);
        FillRowsBelow(s, col - 1, h, m + 1);
      }
    }
  }

  /** No record above sheet row `m + 1` (0-based row `m`) has a blank cell in column `col0`. */
  predicate NoBlankBelow(s: Sheet, col0: nat, m: nat)
    requires m <= |s|
  {
    forall k :: 1 <= k < m ==> CellAt(s[k], col0) != ""
  }

  lemma NoBlankStep(s: Sheet, col0: nat, m: nat)
    requires 1 <= m < |s|
    ensures NoBlankBelow(s, col0, m + 1) <==> NoBlankBelow(s, col0, m) && CellAt(s[m], col0) != ""
  {
  }

  /** What the loop of `DefaultPasswordWrites` has collected once records up to 0-based row `m - 1` are visited. */
  ghost predicate PasswordWritesSoFar(s: Sheet, col: nat, h: string, updates: seq<RangeWrite>, m: nat)
    requires col >= 1 && 1 <= m <= |s|
  {
    (forall k :: 0 <= k < |updates| ==> WriteInRange(|s|, updates[k]) && updates[k].row >= 2 && updates[k].col == col) &&
    ApplyWrites(s, updates) == FillRowsBelow(s, col - 1, h, m) &&
    (updates == [] <==> NoBlankBelow(s, col - 1, m))
  }

  /** A record with a blank password cell adds its write. */
  lemma PasswordWritesSoFarBlank(s: Sheet, col: nat, h: string, updates: seq<RangeWrite>, m: nat)
    requires col >= 1 && 1 <= m < |s| && CellAt(s[m], col - 1) == ""
    requires PasswordWritesSoFar(s, col, h, updates, m)
    ensures PasswordWritesSoFar(s, col, h, updates + [RangeWrite(m + 1, col, [h])], m + 1)
  {
    NoBlankStep(s, col - 1, m);
    PasswordWritesStep(s, col, h, updates, m);
  }

  /** A record with a password adds nothing. */
  lemma PasswordWritesSoFarFilled(s: Sheet, col: nat, h: string, updates: seq<RangeWrite>, m: nat)
    requires col >= 1 && 1 <= m < |s| && CellAt(s[m], col - 1) != ""
    requires PasswordWritesSoFar(s, col, h, updates, m)
    ensures PasswordWritesSoFar(s, col, h, updates, m + 1)
  {
    NoBlankStep(s, col - 1, m);
    PasswordWritesStep(s, col, h, updates, m);
  }

  /**
   * The loop at the end of `init_db`: one single-cell write of the default
   * hash per record whose password cell is blank, sent as one batch update.
   */
  method DefaultPasswordWrites(s: Sheet, col: nat, h: string) returns (updates: seq<RangeWrite>)
    requires col >= 1
    ensures forall k :: 0 <= k < |updates| ==> WriteInRange(|s|, updates[k])
    ensures forall k :: 0 <= k < |updates| ==> updates[k].row >= 2 && updates[k].col == col
    ensures ApplyWrites(s, updates) == FillBlankCells(s, col - 1, h)
    ensures updates == [] <==> NoBlankBelow(s, col - 1, |s|)
  {
    updates := [];
    FillRowsNone(s, col - 1, h);
    if |s| == 0 {
      return;
    }
    var i := 1;
    while i < |s|
      invariant 1 <= i <= |s|
      invariant PasswordWritesSoFar(s, col, h, updates, i)
    {
      if CellAt(s[i], col - 1) == "" {
        PasswordWritesSoFarBlank(s, col, h, updates, i);
        updates := updates + [RangeWrite(i + 1, col, [h])];
      } else {
        PasswordWritesSoFarFilled(s, col, h, updates, i);
      }
      i := i + 1;
    }
  }

  // ---- The worksheet caches ----

  const DoctorSheet: string := "医員マスタ"
  const ClinicSheet: string := "外勤先マスタ"
  const AffinitySheet: string := "優先度マスタ"
  const OverrideSheet: string := "日別設定"
  const SettingSheet: string := "設定"

  const DoctorHeaders: Row := ["id", "name", "email", "password_hash", "is_active", "created_at"]
  const ClinicHeaders: Row := ["id", "name", "fee", "frequency", "preferred_doctors", "is_active", "created_at"]
  const AffinityHeaders: Row := ["doctor_id", "clinic_id", "weight"]
  const OverrideHeaders: Row := ["clinic_id", "date", "required_doctors"]
  const SettingHeaders: Row := ["key", "value"]

  /** `SHEET_HEADERS`, in its order. */
  const SheetHeaders: seq<(string, Row)> := [
    (DoctorSheet, DoctorHeaders), (ClinicSheet, ClinicHeaders), (AffinitySheet, AffinityHeaders),
    (OverrideSheet, OverrideHeaders), (SettingSheet, SettingHeaders)]

  const DefaultPassword: string := "1111"

  /** The names of the master tables, in `SHEET_HEADERS` order. */
  function TableNames(): (r: seq<string>)
    ensures |r| == |SheetHeaders| && forall k :: 0 <= k < |r| ==> r[k] == SheetHeaders[k].0
  {
    seq(|SheetHeaders|, k requires 0 <= k < |SheetHeaders| => SheetHeaders[k].0)
  }

  /** The master tables have distinct names, none of them routed to the operational spreadsheet. */
  lemma MasterTableNames()
    ensures forall k :: 0 <= k < |SheetHeaders| ==> !IsOperationalSheet(SheetHeaders[k].0)
    ensures forall j, k :: 0 <= j < k < |SheetHeaders| ==> SheetHeaders[j].0 != SheetHeaders[k].0
  {
    MasterName(DoctorSheet);
    MasterName(ClinicSheet);
    MasterName(AffinitySheet);
    MasterName(OverrideSheet);
    MasterName(SettingSheet);
    TableNamesDistinct();
  }

  lemma TableNamesDistinct()
    ensures forall j, k :: 0 <= j < k < |SheetHeaders| ==> SheetHeaders[j].0 != SheetHeaders[k].0
  {
    assert DoctorSheet[0] != ClinicSheet[0] && DoctorSheet[0] != AffinitySheet[0];
    assert ClinicSheet[0] != AffinitySheet[0] && OverrideSheet[0] != SettingSheet[0];
    assert DoctorSheet[0] != OverrideSheet[0] && DoctorSheet[0] != SettingSheet[0];
    assert ClinicSheet[0] != OverrideSheet[0] && ClinicSheet[0] != SettingSheet[0];
    assert AffinitySheet[0] != OverrideSheet[0] && AffinitySheet[0] != SettingSheet[0];
  }

  /**
   * The password batch of `init_db` raises: some record's password cell is
   * blank, so there is an update to send, and the `password_hash` column
   * lies past Z, so its range is invalid.
   */
  predicate PasswordBatchFails(s: Sheet) {
    var header := HeaderOf(s);
    "password_hash" in header && IndexOf(header, "password_hash") >= LastLetterColumn &&
    !NoBlankBelow(s, IndexOf(header, "password_hash"), |s|)
  }

  /** The outcome of the password batch, from the updates the loop collected. */
  lemma PasswordBatchOutcome(s: Sheet, h: string, updates: seq<RangeWrite>)
    requires "password_hash" in HeaderOf(s)
    requires forall k :: 0 <= k < |updates| ==> WriteInRange(|s|, updates[k])
    requires ApplyWrites(s, updates) == FillBlankCells(s, IndexOf(HeaderOf(s), "password_hash"), h)
    requires updates == [] <==> NoBlankBelow(s, IndexOf(HeaderOf(s), "password_hash"), |s|)
    ensures PasswordBatchFails(s) <==> updates != [] && IndexOf(HeaderOf(s), "password_hash") + 1 > LastLetterColumn
    ensures PasswordBatchFails(s) ==> FillDefaultPasswords(s, h) == s
    ensures !PasswordBatchFails(s) ==> FillDefaultPasswords(s, h) == ApplyWrites(s, updates)
  {
  }

  /**
   * The doctor sheet after the default-password fill: nothing happens
   * without a `password_hash` column, or where the batch update raises.
   */
  function FillDefaultPasswords(s: Sheet, h: string): (r: Sheet)
    ensures |r| == |s|
    ensures "password_hash" !in HeaderOf(s) ==> r == s
    ensures PasswordBatchFails(s) ==> r == s
  {
    var header := HeaderOf(s);
    if "password_hash" in header && !PasswordBatchFails(s) then FillBlankCells(s, IndexOf(header, "password_hash"), h) else s
  }

  /**
   * The state the module keeps: the worksheet caches `_ws_cache_master`
   * and `_ws_cache_operational` (with the operational one's insertion
   * order, which the loops over it follow), `_db_initialized`, and
   * `_pref_headers_checked` of database/operational.py. Every worksheet
   * reached through the caches is held with its contents; `hash` is
   * `_hash_password`.
   */
  /** The test "is the sheet called `name`". */
  function IsName(name: string): string -> bool {
    n => n == name
  }

  /** What `_init_monthly_sheet` hands back: the cached sheet, or a new one holding just the headers. */
  function Opened(cached: Option<Sheet>, headers: Row): Sheet {
    cached.GetOr([headers])
  }

  /** The cached sheets left once sheet `name` is dropped. */
  function Without(ops: map<string, Sheet>, name: string): map<string, Sheet> {
    map n | n in ops && n != name :: ops[n]
  }

  class Database {
    var master: map<string, Sheet>
    var operational: map<string, Sheet>
    var operationalOrder: seq<string>
    var initialized: bool
    var prefHeadersChecked: set<string>
    const hash: string -> string

    ghost predicate Valid()
      reads this
    {
      (forall n :: n in operational <==> n in operationalOrder) &&
      Distinct(operationalOrder) &&
      (forall n :: n in operational ==> IsOperationalSheet(n)) &&
      (forall n :: n in master ==> !IsOperationalSheet(n))
    }

    constructor(master0: map<string, Sheet>, operationalOrder0: seq<string>, operational0: map<string, Sheet>, hash: string -> string)
      requires forall n :: n in master0 ==> !IsOperationalSheet(n)
      requires forall n :: n in operational0 <==> n in operationalOrder0
      requires Distinct(operationalOrder0)
      requires forall n :: n in operational0 ==> IsOperationalSheet(n)
      ensures Valid()
      ensures master == master0 && operational == operational0 && operationalOrder == operationalOrder0
      ensures !initialized && prefHeadersChecked == {} && this.hash == hash
    {
      master := master0;
      operational := operational0;
      operationalOrder := operationalOrder0;
      initialized := false;
      prefHeadersChecked := {};
      this.hash := hash;
    }

    /** `name in _get_ws_cache(name)`. */
    predicate Has(name: string)
      reads this
    {
      name in operational || name in master
    }

    /** The contents of the sheet `name` routes to (`None` when there is none). */
    function Lookup(name: string): (r: Option<Sheet>)
      reads this
      ensures r.Some? <==> Has(name)
    {
      if name in operational then Some(operational[name])
      else if name in master then Some(master[name])
      else None
    }

    /** The contents of sheet `name`, blank when there is none. */
    function SheetOf(name: string): Sheet
      reads this
    {
      Lookup(name).GetOr([])
    }

    /** The names of the cached schedule and preference sheets, in cache order. */
    function OperationalNames(): seq<string>
      reads this
    {
      operationalOrder
    }

    /** The session flags (`_initialized`, `_pref_headers_checked`) are as before. */
    twostate predicate SessionUnchanged()
      reads this
    {
      initialized == old(initialized) && prefHeadersChecked == old(prefHeadersChecked)
    }

    /** Stores the new contents of sheet `name`, creating it (at the end of the cache order) if needed. */
    method Put(name: string, s: Sheet)
      requires Valid()
      modifies this
      ensures Valid()
      ensures Lookup(name) == Some(s)
      ensures operationalOrder == if IsOperationalSheet(name) && !old(Has(name)) then old(operationalOrder) + [name] else old(operationalOrder)
      ensures IsOperationalSheet(name) ==> master == old(master) && operational == old(operational)[name := s]
      ensures !IsOperationalSheet(name) ==> operational == old(operational) && master == old(master)[name := s]
      ensures initialized == old(initialized) && prefHeadersChecked == old(prefHeadersChecked)
    {
      if IsOperationalSheet(name) {
        if name !in operational {
          operationalOrder := operationalOrder + [name];
        }
        operational := operational[name := s];
      } else {
        master := master[name := s];
      }
    }

    /** Rewrites the contents of the cached operational sheet `name`. */
    method Replace(name: string, s: Sheet)
      requires Valid() && name in operational
      modifies this
      ensures Valid() && SessionUnchanged()
      ensures master == old(master) && operationalOrder == old(operationalOrder)
      ensures operational == old(operational)[name := s]
    {
      operational := operational[name := s];
    }

    /** `_pref_headers_checked.add(name)`. */
    method MarkHeadersChecked(name: string)
      requires Valid()
      modifies this
      ensures Valid() && initialized == old(initialized)
      ensures master == old(master) && operational == old(operational) && operationalOrder == old(operationalOrder)
      ensures prefHeadersChecked == old(prefHeadersChecked) + {name}
    {
      prefHeadersChecked := prefHeadersChecked + {name};
    }

    /** Drops sheet `name` from the operational spreadsheet and its cache. */
    method RemoveOperational(name: string)
      requires Valid()
      modifies this
      ensures Valid()
      ensures master == old(master)
      ensures operational == Without(old(operational), name)
      ensures operationalOrder == RemoveWhere(old(operationalOrder), IsName(name))
      ensures initialized == old(initialized) && prefHeadersChecked == old(prefHeadersChecked)
    {
      var order := RemoveWhere(operationalOrder, IsName(name));
      var ops := Without(operational, name);
      RemovedCacheConsistent(operational, operationalOrder, name);
      operationalOrder := order;
      operational := ops;
    }

    /** `_get_sheet(name)`: the cached sheet, or a new blank one. */
    method GetSheet(name: string) returns (s: Sheet)
      requires Valid()
      modifies this
      ensures Valid()
      ensures old(Has(name)) ==> s == old(SheetOf(name)) && Lookup(name) == old(Lookup(name))
      ensures !old(Has(name)) ==> s == [] && Lookup(name) == Some([])
      ensures operationalOrder == if IsOperationalSheet(name) && !old(Has(name)) then old(operationalOrder) + [name] else old(operationalOrder)
      ensures IsOperationalSheet(name) ==> master == old(master) && operational == old(operational)[name := s]
      ensures !IsOperationalSheet(name) ==> operational == old(operational) && master == old(master)[name := s]
      ensures initialized == old(initialized) && prefHeadersChecked == old(prefHeadersChecked)
    {
      if Has(name) {
        s := SheetOf(name);
      } else {
        s := [];
        Put(name, s);
      }
    }

    /**
     * `_init_monthly_sheet(name, headers)`: a cached sheet is returned as it
     * is; otherwise a new sheet holding just the headers is created.
     */
    method InitMonthlySheet(name: string, headers: Row) returns (s: Sheet)
      requires Valid()
      modifies this
      ensures Valid()
      ensures old(Has(name)) ==> s == old(SheetOf(name)) && Lookup(name) == old(Lookup(name))
      ensures !old(Has(name)) ==> s == [headers] && Lookup(name) == Some([headers])
      ensures operationalOrder == if IsOperationalSheet(name) && !old(Has(name)) then old(operationalOrder) + [name] else old(operationalOrder)
      ensures IsOperationalSheet(name) ==> master == old(master) && operational == old(operational)[name := s]
      ensures !IsOperationalSheet(name) ==> operational == old(operational) && master == old(master)[name := s]
      ensures initialized == old(initialized) && prefHeadersChecked == old(prefHeadersChecked)
    {
      if Has(name) {
        s := SheetOf(name);
      } else {
        s := [headers];
        Put(name, s);
      }
    }

    /**
     * `init_db`: once per session, every master table is created or has its
     * header row reconciled, and then every doctor without a password gets
     * the hash of the default password. `ok` is false where that last batch
     * update raises; `_db_initialized` is already set and the tables stay
     * initialised, but no password is filled.
     */
    method InitDb() returns (ok: bool)
      requires Valid()
      modifies this
      ensures ok <==> old(initialized) || !PasswordBatchFails(InitDoctorTable(old(master)))
      ensures Valid()
      ensures initialized && prefHeadersChecked == old(prefHeadersChecked)
      ensures operational == old(operational) && operationalOrder == old(operationalOrder)
      ensures master == if old(initialized) then old(master) else InitDbResult(old(master), hash(DefaultPassword))
    {
      if initialized {
        return true;
      }
      InitTables();
      initialized := true;
      assert SheetHeaders[0].0 == DoctorSheet;
      ok := FillPasswords();
    }

    /**
     * The password block at the end of `init_db`: with a `password_hash`
     * column, the blank password cells of the doctor sheet are written in
     * one batch update. `ok` is false where that update raises, and then
     * nothing is written.
     */
    method FillPasswords() returns (ok: bool)
      requires Valid() && DoctorSheet in master
      modifies this
      ensures ok <==> !PasswordBatchFails(old(master)[DoctorSheet])
      ensures Valid()
      ensures initialized == old(initialized) && prefHeadersChecked == old(prefHeadersChecked)
      ensures operational == old(operational) && operationalOrder == old(operationalOrder)
      ensures master == old(master)[DoctorSheet := FillDefaultPasswords(old(master)[DoctorSheet], hash(DefaultPassword))]
    {
      var s := master[DoctorSheet];
      var header := HeaderOf(s);
      if "password_hash" in header {
        var col := IndexOf(header, "password_hash") + 1;
        var updates := DefaultPasswordWrites(s, col, hash(DefaultPassword));
        PasswordBatchOutcome(s, hash(DefaultPassword), updates);
        if updates != [] && col > LastLetterColumn {
          assert master == master[DoctorSheet := s];
          return false;
        }
        MasterName(DoctorSheet);
        Put(DoctorSheet, ApplyWrites(s, updates));
      } else {
        assert master == master[DoctorSheet := s];
      }
      return true;
    }

    /**
     * The `SHEET_HEADERS` loop of `init_db`. Each table is read from the
     * state before the loop, which is the state the loop meets, since the
     * table names are distinct.
     */
    method InitTables()
      requires Valid()
      modifies this
      ensures Valid()
      ensures operational == old(operational) && operationalOrder == old(operationalOrder)
      ensures initialized == old(initialized) && prefHeadersChecked == old(prefHeadersChecked)
      ensures master == InitTablesFrom(old(master), |SheetHeaders|)
    {
      MasterTableNames();
      var m0 := master;
      var k := 0;
      while k < |SheetHeaders|
        invariant 0 <= k <= |SheetHeaders|
        invariant Valid()
        invariant operational == old(operational) && operationalOrder == old(operationalOrder)
        invariant initialized == old(initialized) && prefHeadersChecked == old(prefHeadersChecked)
        invariant master == InitTablesFrom(m0, k)
      {
        var (name, required) := SheetHeaders[k];
        assert !IsOperationalSheet(name);
        assert InitTablesFrom(m0, k + 1) == InitTablesFrom(m0, k)[name := InitTable(Get(m0, name), required)];
        Put(name, InitTable(Get(m0, name), required));
        k := k + 1;
      }
    }
  }

  /** `m.get(name)`. */
  function Get(m: map<string, Sheet>, name: string): (r: Option<Sheet>)
    ensures r.Some? <==> name in m
    ensures r.Some? ==> r.value == m[name]
  {
    if name in m then Some(m[name]) else None
  }

  /** The master spreadsheet after the first `k` entries of `SHEET_HEADERS` are initialised. */
  function InitTablesFrom(m: map<string, Sheet>, k: nat): (r: map<string, Sheet>)
    requires k <= |SheetHeaders|
    ensures forall j :: 0 <= j < k ==> SheetHeaders[j].0 in r
  {
    if k == 0 then m
    else InitTablesFrom(m, k - 1)[SheetHeaders[k - 1].0 := InitTable(Get(m, SheetHeaders[k - 1].0), SheetHeaders[k - 1].1)]
  }

  /** The doctor table once every entry of `SHEET_HEADERS` is initialised. */
  function InitDoctorTable(m: map<string, Sheet>): Sheet {
    var t := InitTablesFrom(m, |SheetHeaders|);
    assert SheetHeaders[0].0 == DoctorSheet;
    t[DoctorSheet]
  }

  /** The master spreadsheet after `init_db` (run for the first time). */
  function InitDbResult(m: map<string, Sheet>, h: string): map<string, Sheet> {
    InitTablesFrom(m, |SheetHeaders|)[DoctorSheet := FillDefaultPasswords(InitDoctorTable(m), h)]
  }

  lemma InitTablesFromSpec(m: map<string, Sheet>, k: nat)
    requires k <= |SheetHeaders|
    ensures forall j :: 0 <= j < k ==>
      InitTablesFrom(m, k)[SheetHeaders[j].0] == InitTable(Get(m, SheetHeaders[j].0), SheetHeaders[j].1)
  {
    forall j | 0 <= j < k
      ensures InitTablesFrom(m, k)[SheetHeaders[j].0] == InitTable(Get(m, SheetHeaders[j].0), SheetHeaders[j].1)
    {
      InitTablesFromAt(m, k, j);
    }
  }

  /** Entry `j` of `SHEET_HEADERS` keeps its initialised table while the later entries are initialised. */
  lemma {:induction false} InitTablesFromAt(m: map<string, Sheet>, k: nat, j: nat)
    requires j < k <= |SheetHeaders|
    ensures InitTablesFrom(m, k)[SheetHeaders[j].0] == InitTable(Get(m, SheetHeaders[j].0), SheetHeaders[j].1)
  {
    if j < k - 1 {
      InitTablesFromAt(m, k - 1, j);
      TableNamesDistinct();
      assert SheetHeaders[j].0 != SheetHeaders[k - 1].0;
    }
  }

  lemma {:induction false} InitTablesFromOthers(m: map<string, Sheet>, k: nat, n: string)
    requires k <= |SheetHeaders|
    requires n !in TableNames()[..k]
    ensures Get(InitTablesFrom(m, k), n) == Get(m, n)
  {
    if k > 0 {
      assert TableNames()[..k] == TableNames()[..k - 1] + [SheetHeaders[k - 1].0];
      InitTablesFromOthers(m, k - 1, n);
    }
  }

  /**
   * After `init_db` every master table exists with its header row reconciled
   * against `SHEET_HEADERS` (the doctor table also has its blank passwords
   * filled), its records are kept, and every other sheet is untouched.
   */
  lemma InitDbTables(m: map<string, Sheet>, h: string)
    ensures forall k :: 1 <= k < |SheetHeaders| ==>
      SheetHeaders[k].0 in InitDbResult(m, h) &&
      InitDbResult(m, h)[SheetHeaders[k].0] == InitTable(Get(m, SheetHeaders[k].0), SheetHeaders[k].1)
    ensures DoctorSheet in InitDbResult(m, h)
    ensures InitDbResult(m, h)[DoctorSheet] == FillDefaultPasswords(InitTable(Get(m, DoctorSheet), DoctorHeaders), h)
    ensures forall n :: n !in TableNames() ==> Get(InitDbResult(m, h), n) == Get(m, n)
  {
    forall k | 1 <= k < |SheetHeaders|
      ensures SheetHeaders[k].0 in InitDbResult(m, h) &&
        InitDbResult(m, h)[SheetHeaders[k].0] == InitTable(Get(m, SheetHeaders[k].0), SheetHeaders[k].1)
    {
      InitDbOtherTable(m, h, k);
    }
    InitDbDoctorTable(m, h);
    forall n | n !in TableNames()
      ensures Get(InitDbResult(m, h), n) == Get(m, n)
    {
      InitDbUntouched(m, h, n);
    }
  }

  lemma InitDbOtherTable(m: map<string, Sheet>, h: string, k: nat)
    requires 1 <= k < |SheetHeaders|
    ensures SheetHeaders[k].0 in InitDbResult(m, h)
    ensures InitDbResult(m, h)[SheetHeaders[k].0] == InitTable(Get(m, SheetHeaders[k].0), SheetHeaders[k].1)
  {
    InitTablesFromAt(m, |SheetHeaders|, k);
    TableNamesDistinct();
    assert SheetHeaders[k].0 != SheetHeaders[0].0 == DoctorSheet;
  }

  lemma InitDbDoctorTable(m: map<string, Sheet>, h: string)
    ensures DoctorSheet in InitDbResult(m, h)
    ensures InitDbResult(m, h)[DoctorSheet] == FillDefaultPasswords(InitTable(Get(m, DoctorSheet), DoctorHeaders), h)
  {
    InitTablesFromSpec(m, |SheetHeaders|);
    assert SheetHeaders[0].0 == DoctorSheet;
    assert InitDoctorTable(m) == InitTable(Get(m, DoctorSheet), DoctorHeaders);
  }

  lemma InitDbUntouched(m: map<string, Sheet>, h: string, n: string)
    requires n !in TableNames()
    ensures Get(InitDbResult(m, h), n) == Get(m, n)
  {
    assert TableNames()[..|SheetHeaders|] == TableNames();
    assert n != TableNames()[0];
    InitTablesFromOthers(m, |SheetHeaders|, n);
  }

  /** Dropping a name from the operational cache and from its order keeps the two in step. */
  lemma RemovedCacheConsistent(ops: map<string, Sheet>, order: seq<string>, name: string)
    requires forall n :: n in ops <==> n in order
    requires Distinct(order)
    requires forall n :: n in ops ==> IsOperationalSheet(n)
    ensures var ops', order' := Without(ops, name), RemoveWhere(order, IsName(name));
      (forall n :: n in ops' <==> n in order') && Distinct(order') && forall n :: n in ops' ==> IsOperationalSheet(n)
  {
    RemoveWhereDistinct(order, IsName(name));
    RemoveWhereMembers(order, IsName(name));
  }

  lemma RemoveWhereMembers<T>(s: seq<T>, p: T -> bool)
    ensures forall x :: x in RemoveWhere(s, p) <==> x in s && !p(x)
  {
    forall x
      ensures x in RemoveWhere(s, p) <==> x in s && !p(x)
    {
      if x in s && !p(x) {
        var k :| 0 <= k < |s| && s[k] == x;
      }
    }
  }

  lemma RemoveWhereDistinct<T>(s: seq<T>, p: T -> bool)
    requires Distinct(s)
    ensures Distinct(RemoveWhere(s, p))
  {
    if s != [] {
      RemoveWhereDistinct(s[1..], p);
      assert s[0] !in s[1..];
    }
  }
}
