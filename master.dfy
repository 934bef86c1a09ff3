/**
 * The master tables of database/master.py: doctors (医員マスタ), clinics
 * (外勤先マスタ) and doctor-clinic affinities (優先度マスタ). The per-date
 * staffing overrides (日別設定) are in module Overrides.
 */
module Master {
  import opened Wrappers
  import opened Text
  import opened Ordering
  import opened Sheets
  import opened Connection

  // ---- Reading doctors ----

  /** A doctor record as `get_doctors` hands it out, after its conversions. */
  datatype Doctor = Doctor(
    id: nat,
    name: string,
    account: string,
    accountName: string,
    email: string,
    passwordHash: string,
    isActive: nat,
    maxAssignments: nat)

  /** `int(r.get(key, default))`; `None` where `int` raises. */
  function IntField(h: Row, row: Row, key: string, default: nat): Option<nat> {
    match Field(h, row, key)
    case None => Some(default)
    case Some(t) => ParseNat(t)
  }

  /** `int(r.get(key, 0) or 0)`: a missing column and a blank cell both read 0. */
  function IntFieldBlankZero(h: Row, row: Row, key: string): Option<nat> {
    match Field(h, row, key)
    case None => Some(0)
    case Some(t) => if t == "" then Some(0) else ParseNat(t)
  }

  /**
   * The conversions `get_doctors` applies to one record; `None` when one of
   * them raises (no `id` column, or a number that does not parse). The loop
   * never reads `name`; a sheet without that column gives doctors named "".
   */
  function ParseDoctor(h: Row, row: Row): Option<Doctor>
  {
    if "id" !in h then None
    else
      match (ParseNat(FieldOr(h, row, "id", "")), IntField(h, row, "is_active", 1), IntFieldBlankZero(h, row, "max_assignments"))
      case (Some(id), Some(active), Some(most)) =>
        var account := FieldOr(h, row, "account", "");
        var accountName := FieldOr(h, row, "account_name", "");
        Some(Doctor(id, FieldOr(h, row, "name", ""), account, if accountName != "" then accountName else account,
          FieldOr(h, row, "email", ""), FieldOr(h, row, "password_hash", ""), active, most))
      case _ => None
  }

  /**
   * What `get_doctors` makes of one record: it fails exactly when a
   * conversion raises; the account name falls back to the account, a blank
   * `max_assignments` reads 0 and a missing `is_active` column reads 1.
   */
  lemma ParseDoctorSpec(h: Row, row: Row)
    ensures ParseDoctor(h, row).Some? <==> ("id" in h && ParseNat(FieldOr(h, row, "id", "")).Some? &&
                          IntField(h, row, "is_active", 1).Some? && IntFieldBlankZero(h, row, "max_assignments").Some?)
    ensures ParseDoctor(h, row).Some? ==> ParseNat(FieldOr(h, row, "id", "")) == Some(ParseDoctor(h, row).value.id) && FieldOr(h, row, "name", "") == ParseDoctor(h, row).value.name
    ensures ParseDoctor(h, row).Some? ==> (ParseDoctor(h, row).value.accountName ==
      if FieldOr(h, row, "account_name", "") != "" then FieldOr(h, row, "account_name", "") else FieldOr(h, row, "account", ""))
    ensures ParseDoctor(h, row).Some? && FieldOr(h, row, "max_assignments", "") == "" ==> ParseDoctor(h, row).value.maxAssignments == 0
    ensures ParseDoctor(h, row).Some? && "is_active" !in h ==> ParseDoctor(h, row).value.isActive == 1
  {
  }

  /** The conversion of one record, as a function of the record. */
  function DoctorParser(h: Row): Row -> Option<Doctor> {
    row => ParseDoctor(h, row)
  }

  /** All records converted, or `None` when any conversion raises. */
  function ParseDoctors(h: Row, recs: seq<Row>): Option<seq<Doctor>> {
    ParseAll(recs, DoctorParser(h))
  }

  /** The conversion of all records succeeds exactly when each record's does, and keeps their order. */
  lemma ParseDoctorsSpec(h: Row, recs: seq<Row>)
    ensures ParseDoctors(h, recs).Some? <==> forall i :: 0 <= i < |recs| ==> ParseDoctor(h, recs[i]).Some?
    ensures ParseDoctors(h, recs).Some? ==> (|ParseDoctors(h, recs).value| == |recs| &&
      forall i :: 0 <= i < |recs| ==> ParseDoctor(h, recs[i]) == Some(ParseDoctors(h, recs).value[i]))
  {
    ParseAllSpec(recs, DoctorParser(h));
  }

  /** The records `get_doctors(active_only)` skips. */
  function Skipped(activeOnly: bool): Doctor -> bool {
    (d: Doctor) => activeOnly && d.isActive == 0
  }

  function DoctorName(d: Doctor): string {
    d.name
  }

  /**
   * The sort by `x["name"]` raises (KeyError) exactly when there is a doctor
   * to sort and the sheet has no `name` column, so no record has that key.
   */
  predicate SortRaises(h: Row, kept: seq<Doctor>) {
    "name" !in h && kept != []
  }

  /** What `get_doctors(active_only)` returns, with `None` where it raises. */
  function DoctorsResult(s: Sheet, activeOnly: bool): Option<seq<Doctor>> {
    match ParseDoctors(HeaderOf(s), Records(s))
    case None => None
    case Some(ds) =>
      var kept := RemoveWhere(ds, Skipped(activeOnly));
      if SortRaises(HeaderOf(s), kept) then None else Some(SortBy(kept, DoctorName))
  }

  /**
   * `get_doctors(active_only)` over the doctor sheet: the converted records,
   * without the inactive ones when `active_only` is set, sorted by name.
   */
  method GetDoctors(s: Sheet, activeOnly: bool) returns (r: Option<seq<Doctor>>)
    ensures r == DoctorsResult(s, activeOnly)
    ensures r.None? <==> (ParseDoctors(HeaderOf(s), Records(s)).None? ||
      SortRaises(HeaderOf(s), RemoveWhere(ParseDoctors(HeaderOf(s), Records(s)).value, Skipped(activeOnly))))
    ensures r.Some? ==> SortedBy(r.value, DoctorName)
    ensures r.Some? ==> multiset(r.value) == multiset(RemoveWhere(ParseDoctors(HeaderOf(s), Records(s)).value, Skipped(activeOnly)))
    ensures r.Some? && activeOnly ==> forall k :: 0 <= k < |r.value| ==> r.value[k].isActive != 0
  {
    var kept := ConvertDoctors(HeaderOf(s), Records(s), activeOnly);
    if kept.None? || SortRaises(HeaderOf(s), kept.value) {
      return None;
    }
    var sorted := SortBy(kept.value, DoctorName);
    forall k | 0 <= k < |sorted|
      ensures !Skipped(activeOnly)(sorted[k])
    {
      assert sorted[k] in multiset(kept.value);
    }
    return Some(sorted);
  }

  /** The loop of `get_doctors`: convert each record, skipping inactive doctors when asked to. */
  method ConvertDoctors(h: Row, recs: seq<Row>, activeOnly: bool) returns (r: Option<seq<Doctor>>)
    ensures r.None? <==> ParseDoctors(h, recs).None?
    ensures r.Some? ==> r.value == RemoveWhere(ParseDoctors(h, recs).value, Skipped(activeOnly))
  {
    r := ConvertRecords(recs, DoctorParser(h), Skipped(activeOnly));
  }

  // ---- Adding, updating and deleting doctors ----

  datatype AddDoctorError = DuplicateAccount | DuplicateName

  /** A non-empty account already held by a record. */
  predicate AccountTaken(s: Sheet, account: string) {
    account != "" && exists i :: 0 <= i < |Records(s)| && FieldOr(HeaderOf(s), Records(s)[i], "account", "") == account
  }

  predicate NameTaken(s: Sheet, name: string) {
    exists i :: 0 <= i < |Records(s)| && Field(HeaderOf(s), Records(s)[i], "name") == Some(name)
  }

  /** `r["name"]` raises (KeyError) on the first record when the sheet has records but no `name` column. */
  predicate NameLookupRaises(s: Sheet) {
    "name" !in HeaderOf(s) && |Records(s)| > 0
  }

  /**
   * The duplicate checks of `add_doctor`: the account is checked before the
   * name. The outer `None` is the KeyError of the name check; `Some(None)`
   * lets the doctor be added.
   */
  function AddDoctorCheck(s: Sheet, name: string, account: string): (e: Option<Option<AddDoctorError>>)
    ensures e == Some(Some(DuplicateAccount)) <==> AccountTaken(s, account)
    ensures e.None? <==> !AccountTaken(s, account) && NameLookupRaises(s)
    ensures e == Some(Some(DuplicateName)) <==> !AccountTaken(s, account) && !NameLookupRaises(s) && NameTaken(s, name)
    ensures e == Some(None) <==> !AccountTaken(s, account) && !NameLookupRaises(s) && !NameTaken(s, name)
  {
    if AccountTaken(s, account) then Some(Some(DuplicateAccount))
    else if NameLookupRaises(s) then None
    else if NameTaken(s, name) then Some(Some(DuplicateName))
    else Some(None)
  }

  /** The `values` dict of `add_doctor`, with every value as the text of its cell. */
  function NewDoctorValues(id: nat, name: string, account: string, pwHash: string, now: string): map<string, string> {
    map[
      "id" := NatToString(id), "name" := name, "account" := account, "account_name" := account,
      "email" := "", "password_hash" := pwHash, "is_active" := "1", "created_at" := now,
      "max_assignments" := "0"]
  }

  /** The appended row, laid out in the sheet's own header order (unknown headers get ""). */
  function NewDoctorRow(h: Row, id: nat, name: string, account: string, pwHash: string, now: string): Row {
    RowFromValues(h, NewDoctorValues(id, name, account, pwHash, now))
  }

  /**
   * Read back through `get_doctors`, the new row is an active doctor with the
   * given id and name ("" when the sheet has no name column), no assignment
   * limit and the given password hash, whatever order the sheet's columns are in.
   */
  lemma NewDoctorRowReadsBack(h: Row, id: nat, name: string, account: string, pwHash: string, now: string)
    requires "id" in h
    ensures ParseDoctor(h, NewDoctorRow(h, id, name, account, pwHash, now)) ==
      Some(Doctor(id, if "name" in h then name else "",
        if "account" in h then account else "",
        if "account" in h || "account_name" in h then account else "",
        "",
        if "password_hash" in h then pwHash else "",
        1, 0))
  {
    var row := NewDoctorRow(h, id, name, account, pwHash, now);
    var vals := NewDoctorValues(id, name, account, pwHash, now);
    NatToStringRoundTrip(id);
    NatToStringRoundTrip(1);
    NatToStringRoundTrip(0);
    assert NatToString(1) == "1" && NatToString(0) == "0";
    assert vals["id"] == NatToString(id) && vals["name"] == name;
    assert vals["account"] == account && vals["account_name"] == account;
    assert vals["email"] == "" && vals["password_hash"] == pwHash;
    assert vals["is_active"] == "1" && vals["max_assignments"] == "0";
    assert FieldOr(h, row, "id", "") == NatToString(id);
    assert FieldOr(h, row, "name", "") == if "name" in h then name else "";
    assert IntField(h, row, "is_active", 1) == Some(1);
    assert IntFieldBlankZero(h, row, "max_assignments") == Some(0);
  }

  /**
   * `add_doctor(name, account, initial_password)`: a duplicate account or
   * name, or the KeyError of the name check (`err == None`), leaves the sheet
   * as it is; otherwise one row is appended, with a fresh id, the hash of the
   * initial password, and `now` as `created_at`.
   */
  method AddDoctor(db: Database, name: string, account: string, initialPassword: string, now: string)
    returns (err: Option<Option<AddDoctorError>>)
    requires db.Valid()
    modifies db
    ensures db.Valid() && db.SessionUnchanged()
    ensures db.operational == old(db.operational) && db.operationalOrder == old(db.operationalOrder)
    ensures var s := old(db.SheetOf(DoctorSheet));
      err == AddDoctorCheck(s, name, account) &&
      db.master == old(db.master)[DoctorSheet := if err != Some(None) then s else
        s + [NewDoctorRow(HeaderOf(s), NextIdOf(ColValues(s, 1)), name, account, db.hash(initialPassword), now)]]
  {
    MasterName(DoctorSheet);
    var s := db.GetSheet(DoctorSheet);
    err := AddDoctorCheck(s, name, account);
    if err != Some(None) {
      return;
    }
    var id := NextId(s);
    var row := NewDoctorRow(HeaderOf(s), id, name, account, db.hash(initialPassword), now);
    db.Put(DoctorSheet, s + [row]);
  }

  /**
   * The single-cell writes of `update_doctor` on sheet row `n`; `None` where
   * the call raises: `headers.index` finds no such column, or the column
   * lies past Z, where `_col_letter` names no column and `batch_update`
   * rejects the range.
   */
  function DoctorWrites(h: Row, n: nat, isActive: Option<nat>, maxAssignments: Option<nat>): (w: Option<seq<RangeWrite>>)
    ensures w.None? <==>
      (isActive.Some? && ("is_active" !in h || IndexOf(h, "is_active") >= LastLetterColumn)) ||
      (maxAssignments.Some? && ("max_assignments" !in h || IndexOf(h, "max_assignments") >= LastLetterColumn))
    ensures w.Some? ==> (SingleCells(w.value) &&
      forall k :: 0 <= k < |w.value| ==> w.value[k].row == n && 1 <= w.value[k].col <= LastLetterColumn)
  {
    if CellFails(h, "is_active", isActive) || CellFails(h, "max_assignments", maxAssignments) then None
    else
      Some(CellWrite(h, n, "is_active", isActive) + CellWrite(h, n, "max_assignments", maxAssignments))
  }

  /** The write of `v` to column `key` raises: no such column, or one past Z. */
  predicate CellFails(h: Row, key: string, v: Option<nat>) {
    v.Some? && (key !in h || IndexOf(h, key) >= LastLetterColumn)
  }

  /** The write of `v`, when given, to column `key` of sheet row `n`. */
  function CellWrite(h: Row, n: nat, key: string, v: Option<nat>): seq<RangeWrite>
    requires v.Some? ==> key in h
  {
    if v.Some? then [RangeWrite(n, IndexOf(h, key) + 1, [NatToString(v.value)])] else []
  }

  /** The optional write is the last (and only) write to its cell, and writes no other cell. */
  lemma CellWriteLast(h: Row, n: nat, key: string, v: Option<nat>, k: nat)
    requires v.Some? ==> key in h
    ensures SingleCells(CellWrite(h, n, key, v))
    ensures v.Some? && k == IndexOf(h, key) ==> LastWriteTo(CellWrite(h, n, key, v), n, k + 1) == Some(NatToString(v.value))
    ensures !(v.Some? && k == IndexOf(h, key)) ==> LastWriteTo(CellWrite(h, n, key, v), n, k + 1).None?
  {
    if v.Some? {
      assert CellWrite(h, n, key, v)[..0] == [];
    }
  }

  /**
   * The doctor sheet after `update_doctor(doc_id, is_active, max_assignments)`;
   * `None` when a column it must write does not exist (the call raises and
   * writes nothing).
   */
  function UpdateDoctorResult(s: Sheet, docId: nat, isActive: Option<nat>, maxAssignments: Option<nat>): Option<Sheet> {
    match FirstRecord(s, ColumnIs(0, NatToString(docId)))
    case None => Some(s)
    case Some(n) =>
      match DoctorWrites(HeaderOf(s), n, isActive, maxAssignments)
      case None => None
      case Some(w) => Some(ApplyWrites(s, w))
  }

  /**
   * `update_doctor` is a no-op for an unknown id. Otherwise it changes only
   * the doctor's own row, and in it only the `is_active` and
   * `max_assignments` cells it was given values for.
   */
  lemma UpdateDoctorSpec(s: Sheet, docId: nat, isActive: Option<nat>, maxAssignments: Option<nat>)
    ensures FirstRecord(s, ColumnIs(0, NatToString(docId))).None? ==> UpdateDoctorResult(s, docId, isActive, maxAssignments) == Some(s)
    ensures var r := UpdateDoctorResult(s, docId, isActive, maxAssignments);
      r.None? <==> (FirstRecord(s, ColumnIs(0, NatToString(docId))).Some? &&
        (CellFails(HeaderOf(s), "is_active", isActive) || CellFails(HeaderOf(s), "max_assignments", maxAssignments)))
    ensures var r := UpdateDoctorResult(s, docId, isActive, maxAssignments);
      r.Some? ==> (|r.value| == |s| &&
        forall m :: 1 <= m <= |s| && FirstRecord(s, ColumnIs(0, NatToString(docId))) != Some(m) ==> SheetRow(r.value, m) == SheetRow(s, m))
    ensures var r := UpdateDoctorResult(s, docId, isActive, maxAssignments);
      var h := HeaderOf(s);
      r.Some? && FirstRecord(s, ColumnIs(0, NatToString(docId))).Some? ==>
        var n := FirstRecord(s, ColumnIs(0, NatToString(docId))).value;
        forall k: nat :: CellAt(SheetRow(r.value, n), k) ==
          if maxAssignments.Some? && k == IndexOf(h, "max_assignments") then NatToString(maxAssignments.value)
          else if isActive.Some? && k == IndexOf(h, "is_active") then NatToString(isActive.value)
          else CellAt(SheetRow(s, n), k)
  {
    var h := HeaderOf(s);
    match FirstRecord(s, ColumnIs(0, NatToString(docId)))
    case None =>
    case Some(n) =>
      match DoctorWrites(h, n, isActive, maxAssignments)
      case None =>
      case Some(w) =>
        ApplyWritesRow(s, w, n);
        var activeWrite := CellWrite(h, n, "is_active", isActive);
        var maxWrite := CellWrite(h, n, "max_assignments", maxAssignments);
        forall k: nat
          ensures CellAt(SheetRow(ApplyWrites(s, w), n), k) ==
            if maxAssignments.Some? && k == IndexOf(h, "max_assignments") then NatToString(maxAssignments.value)
            else if isActive.Some? && k == IndexOf(h, "is_active") then NatToString(isActive.value)
            else CellAt(SheetRow(s, n), k)
        {
          CellWriteLast(h, n, "is_active", isActive, k);
          CellWriteLast(h, n, "max_assignments", maxAssignments, k);
          LastWriteToAppend(activeWrite, maxWrite, n, k + 1);
        }
  }

  /**
   * `update_doctor(doc_id, is_active, max_assignments)`: the cells are written
   * in one batch update. `ok` is false where the call raises because a
   * column is missing or lies past Z; the sheet is then unchanged.
   */
  method UpdateDoctor(db: Database, docId: nat, isActive: Option<nat>, maxAssignments: Option<nat>) returns (ok: bool)
    requires db.Valid()
    modifies db
    ensures db.Valid() && db.SessionUnchanged()
    ensures db.operational == old(db.operational) && db.operationalOrder == old(db.operationalOrder)
    ensures var r := UpdateDoctorResult(old(db.SheetOf(DoctorSheet)), docId, isActive, maxAssignments);
      ok == r.Some? && db.master == old(db.master)[DoctorSheet := r.GetOr(old(db.SheetOf(DoctorSheet)))]
  {
    MasterName(DoctorSheet);
    ghost var m0 := db.master;
    var s := db.GetSheet(DoctorSheet);
    var rowIdx := FindRowIndex(s, 1, NatToString(docId));
    if rowIdx.None? {
      return true;
    }
    var n := rowIdx.value;
    var h := HeaderOf(s);
    if isActive.Some? && "is_active" !in h {
      return false;
    }
    if maxAssignments.Some? && "max_assignments" !in h {
      return false;
    }
    var updates := CellWrite(h, n, "is_active", isActive) + CellWrite(h, n, "max_assignments", maxAssignments);
    if CellFails(h, "is_active", isActive) || CellFails(h, "max_assignments", maxAssignments) {
      return false;
    }
    assert DoctorWrites(h, n, isActive, maxAssignments) == Some(updates);
    if updates != [] {
      db.Put(DoctorSheet, ApplyWrites(s, updates));
      UpdateTwice(m0, DoctorSheet, s, ApplyWrites(s, updates));
    }
    return true;
  }

  /** The operational sheets after the loop of `delete_doctor` over the first `k` cached names. */
  function DeleteFromPrefSheets(ops: map<string, Sheet>, order: seq<string>, k: nat, docId: nat): (r: map<string, Sheet>)
    requires k <= |order|
    ensures forall n :: n in r <==> n in ops
  {
    if k == 0 then ops
    else
      var m := DeleteFromPrefSheets(ops, order, k - 1, docId);
      var name := order[k - 1];
      if StartsWith(name, PrefSheetPrefix) && name in m then
        m[name := DeleteFirstMatch(m[name], FieldIs(HeaderOf(m[name]), "doctor_id", NatToString(docId)))]
      else m
  }

  /**
   * The loop over the names (in order) a doctor's preference rows are
   * deleted from: in each preference sheet, the first record of the doctor
   * goes. Other sheets are not touched.
   */
  lemma {:induction false} DeleteFromPrefSheetsSpec(ops: map<string, Sheet>, order: seq<string>, k: nat, docId: nat, name: string)
    requires k <= |order| && Distinct(order)
    requires name in ops
    ensures var r := DeleteFromPrefSheets(ops, order, k, docId);
      r[name] == if name in order[..k] && StartsWith(name, PrefSheetPrefix)
        then DeleteFirstMatch(ops[name], FieldIs(HeaderOf(ops[name]), "doctor_id", NatToString(docId)))
        else ops[name]
  {
    if k > 0 {
      DeleteFromPrefSheetsSpec(ops, order, k - 1, docId, name);
      assert order[..k] == order[..k - 1] + [order[k - 1]];
      if name == order[k - 1] {
        assert name !in order[..k - 1];
      }
    }
  }

  /**
   * The cascade step of `delete_doctor` and `delete_clinic` on master
   * table `name`: every record whose `key` cell reads `value` is deleted,
   * bottom-up.
   */
  method DeleteRecordsWith(db: Database, name: string, key: string, value: string)
    requires db.Valid() && !IsOperationalSheet(name)
    modifies db
    ensures db.Valid() && db.SessionUnchanged()
    ensures db.operational == old(db.operational) && db.operationalOrder == old(db.operationalOrder)
    ensures var s := old(db.SheetOf(name));
      db.master == old(db.master)[name := DeleteWhere(s, FieldIs(HeaderOf(s), key, value))]
  {
    var s := db.GetSheet(name);
    var kept := CascadeDelete(s, FieldIs(HeaderOf(s), key, value));
    db.Put(name, kept);
  }

  /** The last step of `delete_doctor` and `delete_clinic`: the first record whose column A reads `id` is deleted. */
  method DeleteRecordById(db: Database, name: string, id: string)
    requires db.Valid() && !IsOperationalSheet(name)
    modifies db
    ensures db.Valid() && db.SessionUnchanged()
    ensures db.operational == old(db.operational) && db.operationalOrder == old(db.operationalOrder)
    ensures db.master == old(db.master)[name := DeleteFirstMatch(old(db.SheetOf(name)), ColumnIs(0, id))]
  {
    var s := db.GetSheet(name);
    var rowIdx := FindRowIndex(s, 1, id);
    if rowIdx.Some? {
      db.Put(name, DeleteRow(s, rowIdx.value));
    }
  }

  /**
   * `delete_doctor(doc_id)`: every affinity row of the doctor is deleted
   * (bottom-up), then the doctor's first row in each preference sheet, then
   * the doctor's own row.
   */
  method DeleteDoctor(db: Database, docId: nat)
    requires db.Valid()
    modifies db
    ensures db.Valid() && db.SessionUnchanged() && db.operationalOrder == old(db.operationalOrder)
    ensures db.operational == DeleteFromPrefSheets(old(db.operational), old(db.operationalOrder), |old(db.operationalOrder)|, docId)
    ensures var aff, doc := old(db.SheetOf(AffinitySheet)), old(db.SheetOf(DoctorSheet));
      db.master == old(db.master)
        [AffinitySheet := DeleteWhere(aff, FieldIs(HeaderOf(aff), "doctor_id", NatToString(docId)))]
        [DoctorSheet := DeleteFirstMatch(doc, ColumnIs(0, NatToString(docId)))]
  {
    MasterName(AffinitySheet);
    MasterName(DoctorSheet);
    DeleteRecordsWith(db, AffinitySheet, "doctor_id", NatToString(docId));
    DeleteFromPrefSheetsLoop(db, docId);
    DeleteRecordById(db, DoctorSheet, NatToString(docId));
  }

  /** The loop of `delete_doctor` over the cached operational sheets. */
  method DeleteFromPrefSheetsLoop(db: Database, docId: nat)
    requires db.Valid()
    modifies db
    ensures db.Valid() && db.SessionUnchanged()
    ensures db.master == old(db.master) && db.operationalOrder == old(db.operationalOrder)
    ensures db.operational == DeleteFromPrefSheets(old(db.operational), old(db.operationalOrder), |old(db.operationalOrder)|, docId)
  {
    var order := db.operationalOrder;
    ghost var ops0 := db.operational;
    var k: nat := 0;
    while k < |order|
      invariant PrefRowsDeleted(db, ops0, order, k, docId)
      invariant db.master == old(db.master) && db.SessionUnchanged()
    {
      DeleteFromPrefSheet(db, order, k, docId, ops0);
      k := k + 1;
    }
  }

  /** The state of that loop after `k` passes. */
  ghost predicate PrefRowsDeleted(db: Database, ops0: map<string, Sheet>, order: seq<string>, k: nat, docId: nat)
    reads db
  {
    db.Valid() && db.operationalOrder == order && k <= |order| && db.operational == DeleteFromPrefSheets(ops0, order, k, docId)
  }

  /** One pass of that loop: the doctor's first record goes from cached sheet `order[k]` when it is a preference sheet. */
  method DeleteFromPrefSheet(db: Database, order: seq<string>, k: nat, docId: nat, ghost ops0: map<string, Sheet>)
    requires PrefRowsDeleted(db, ops0, order, k, docId) && k < |order|
    modifies db
    ensures PrefRowsDeleted(db, ops0, order, k + 1, docId)
    ensures db.SessionUnchanged() && db.master == old(db.master)
  {
    var name := order[k];
    assert name in db.operational;
    if StartsWith(name, PrefSheetPrefix) {
      var s := db.operational[name];
      db.Replace(name, DeleteFirstMatch(s, FieldIs(HeaderOf(s), "doctor_id", NatToString(docId))));
    }
  }

  // ---- Clinics ----

  /** `update_clinic` JSON-encodes these two arguments before writing them. */
  predicate IsJsonArgument(key: string) {
    key == "preferred_doctors" || key == "fixed_doctors"
  }

  /**
   * The single-cell writes of `update_clinic` on sheet row `n`: one per
   * keyword argument whose name is a column of the canonical clinic
   * header list, at that column's canonical position. `encode` is
   * `json.dumps`; `render` is how the sheet shows any other value.
   */
  function ClinicWrites(kwargs: seq<(string, PyValue)>, n: nat, encode: PyValue -> string, render: PyValue -> string): (w: seq<RangeWrite>)
    ensures SingleCells(w) && |w| <= |kwargs|
    ensures forall k :: 0 <= k < |w| ==> w[k].row == n && 1 <= w[k].col <= |ClinicHeaders|
  {
    if kwargs == [] then []
    else
      var (key, val) := kwargs[|kwargs| - 1];
      var init := ClinicWrites(kwargs[..|kwargs| - 1], n, encode, render);
      if key in ClinicHeaders then init + [ClinicWrite(key, val, n, encode, render)]
      else init
  }

  /** The clinic sheet after `update_clinic(clinic_id, **kwargs)`. */
  function UpdateClinicResult(s: Sheet, clinicId: nat, kwargs: seq<(string, PyValue)>, encode: PyValue -> string, render: PyValue -> string): Sheet {
    match FirstRecord(s, ColumnIs(0, NatToString(clinicId)))
    case None => s
    case Some(n) => ApplyWrites(s, ClinicWrites(kwargs, n, encode, render))
  }

  /** Arguments that are not canonical clinic columns write nothing. */
  lemma {:induction false} ClinicWritesSkipUnknown(kwargs: seq<(string, PyValue)>, key: string, val: PyValue, n: nat,
                                                    encode: PyValue -> string, render: PyValue -> string)
    requires key !in ClinicHeaders
    ensures ClinicWrites(kwargs + [(key, val)], n, encode, render) == ClinicWrites(kwargs, n, encode, render)
  {
    assert (kwargs + [(key, val)])[..|kwargs|] == kwargs;
  }

  /**
   * `update_clinic` ignores a `fixed_doctors` argument: that column is not
   * in the canonical clinic header list, so the value is dropped.
   */
  lemma UpdateClinicDropsFixedDoctors(s: Sheet, clinicId: nat, kwargs: seq<(string, PyValue)>, val: PyValue,
                                       encode: PyValue -> string, render: PyValue -> string)
    ensures UpdateClinicResult(s, clinicId, kwargs + [("fixed_doctors", val)], encode, render) ==
      UpdateClinicResult(s, clinicId, kwargs, encode, render)
  {
    assert "fixed_doctors" !in ClinicHeaders;
    forall n: nat
      ensures ClinicWrites(kwargs + [("fixed_doctors", val)], n, encode, render) == ClinicWrites(kwargs, n, encode, render)
    {
      ClinicWritesSkipUnknown(kwargs, "fixed_doctors", val, n, encode, render);
    }
  }

  /** No argument names a canonical column at 0-based position `c`. */
  predicate ColumnUnnamed(kwargs: seq<(string, PyValue)>, c: nat) {
    forall k :: 0 <= k < |kwargs| ==> kwargs[k].0 !in ClinicHeaders || IndexOf(ClinicHeaders, kwargs[k].0) != c
  }

  /** The arguments of a call name each keyword once. */
  predicate DistinctKeys(kwargs: seq<(string, PyValue)>) {
    forall i, j :: 0 <= i < j < |kwargs| ==> kwargs[i].0 != kwargs[j].0
  }

  /** The text `update_clinic` writes for one argument. */
  function ClinicText(key: string, val: PyValue, encode: PyValue -> string, render: PyValue -> string): string {
    if IsJsonArgument(key) then encode(val) else render(val)
  }

  /** A canonical column no argument names is never written. */
  lemma {:induction false} ClinicWritesUnnamed(kwargs: seq<(string, PyValue)>, n: nat, encode: PyValue -> string, render: PyValue -> string, c: nat)
    requires ColumnUnnamed(kwargs, c)
    ensures LastWriteTo(ClinicWrites(kwargs, n, encode, render), n, c + 1).None?
  {
    if kwargs != [] {
      var init := kwargs[..|kwargs| - 1];
      assert ColumnUnnamed(init, c) by {
        forall k | 0 <= k < |init|
          ensures init[k].0 !in ClinicHeaders || IndexOf(ClinicHeaders, init[k].0) != c
        {
          assert init[k] == kwargs[k];
        }
      }
      ClinicWritesUnnamed(init, n, encode, render, c);
      ClinicWritesSnoc(kwargs, n, encode, render);
      var (key, val) := kwargs[|kwargs| - 1];
      if key in ClinicHeaders {
        LastWriteToSnoc(ClinicWrites(init, n, encode, render), ClinicWrite(key, val, n, encode, render), n, c + 1);
      }
    }
  }

  /** The write of one canonical argument. */
  function ClinicWrite(key: string, val: PyValue, n: nat, encode: PyValue -> string, render: PyValue -> string): RangeWrite
    requires key in ClinicHeaders
  {
    RangeWrite(n, IndexOf(ClinicHeaders, key) + 1, [ClinicText(key, val, encode, render)])
  }

  /** The writes of all arguments are those of all but the last, then the last one's when it is canonical. */
  lemma ClinicWritesSnoc(kwargs: seq<(string, PyValue)>, n: nat, encode: PyValue -> string, render: PyValue -> string)
    requires kwargs != []
    ensures kwargs[|kwargs| - 1].0 in ClinicHeaders ==> (ClinicWrites(kwargs, n, encode, render) ==
      ClinicWrites(kwargs[..|kwargs| - 1], n, encode, render) + [ClinicWrite(kwargs[|kwargs| - 1].0, kwargs[|kwargs| - 1].1, n, encode, render)])
    ensures kwargs[|kwargs| - 1].0 !in ClinicHeaders ==> ClinicWrites(kwargs, n, encode, render) == ClinicWrites(kwargs[..|kwargs| - 1], n, encode, render)
  {
  }

  /** The column of a canonical argument ends up holding that argument's text. */
  lemma {:induction false} ClinicWritesNamed(kwargs: seq<(string, PyValue)>, n: nat, encode: PyValue -> string, render: PyValue -> string, i: nat)
    requires DistinctKeys(kwargs)
    requires i < |kwargs| && kwargs[i].0 in ClinicHeaders
    ensures LastWriteTo(ClinicWrites(kwargs, n, encode, render), n, IndexOf(ClinicHeaders, kwargs[i].0) + 1) ==
      Some(ClinicText(kwargs[i].0, kwargs[i].1, encode, render))
  {
    var init := kwargs[..|kwargs| - 1];
    if i < |kwargs| - 1 {
      DistinctKeysInit(kwargs);
      assert init[i] == kwargs[i];
      ClinicWritesNamed(init, n, encode, render, i);
      ClinicWritesLaterKey(kwargs, n, encode, render, i);
    } else {
      ClinicWritesNamedLast(kwargs, n, encode, render);
    }
  }

  /** The column of the last argument, when canonical, ends up holding its text. */
  lemma ClinicWritesNamedLast(kwargs: seq<(string, PyValue)>, n: nat, encode: PyValue -> string, render: PyValue -> string)
    requires kwargs != [] && kwargs[|kwargs| - 1].0 in ClinicHeaders
    ensures LastWriteTo(ClinicWrites(kwargs, n, encode, render), n, IndexOf(ClinicHeaders, kwargs[|kwargs| - 1].0) + 1) ==
      Some(ClinicText(kwargs[|kwargs| - 1].0, kwargs[|kwargs| - 1].1, encode, render))
  {
    var (key, val) := kwargs[|kwargs| - 1];
    ClinicWritesSnoc(kwargs, n, encode, render);
    LastWriteToSnoc(ClinicWrites(kwargs[..|kwargs| - 1], n, encode, render), ClinicWrite(key, val, n, encode, render), n,
      IndexOf(ClinicHeaders, key) + 1);
  }

  lemma DistinctKeysInit(kwargs: seq<(string, PyValue)>)
    requires kwargs != [] && DistinctKeys(kwargs)
    ensures DistinctKeys(kwargs[..|kwargs| - 1])
  {
    var init := kwargs[..|kwargs| - 1];
    forall a, b | 0 <= a < b < |init|
      ensures init[a].0 != init[b].0
    {
      assert init[a] == kwargs[a] && init[b] == kwargs[b];
    }
  }

  /** The last argument, named differently from argument `i`, does not write argument `i`'s column. */
  lemma ClinicWritesLaterKey(kwargs: seq<(string, PyValue)>, n: nat, encode: PyValue -> string, render: PyValue -> string, i: nat)
    requires DistinctKeys(kwargs)
    requires i < |kwargs| - 1 && kwargs[i].0 in ClinicHeaders
    ensures LastWriteTo(ClinicWrites(kwargs, n, encode, render), n, IndexOf(ClinicHeaders, kwargs[i].0) + 1) ==
      LastWriteTo(ClinicWrites(kwargs[..|kwargs| - 1], n, encode, render), n, IndexOf(ClinicHeaders, kwargs[i].0) + 1)
  {
    ClinicWritesSnoc(kwargs, n, encode, render);
    var key := kwargs[|kwargs| - 1].0;
    if key in ClinicHeaders {
      assert key != kwargs[i].0;
      IndexOfInjective(ClinicHeaders, key, kwargs[i].0);
      LastWriteToSnoc(ClinicWrites(kwargs[..|kwargs| - 1], n, encode, render), ClinicWrite(key, kwargs[|kwargs| - 1].1, n, encode, render), n,
        IndexOf(ClinicHeaders, kwargs[i].0) + 1);
    }
  }

  /**
   * `update_clinic` is a no-op for an unknown id. Otherwise it changes only
   * the clinic's row; there, each canonical column named by an argument
   * holds that argument's text and every other cell is as before.
   */
  lemma UpdateClinicSpec(s: Sheet, clinicId: nat, kwargs: seq<(string, PyValue)>, encode: PyValue -> string, render: PyValue -> string)
    requires DistinctKeys(kwargs)
    ensures FirstRecord(s, ColumnIs(0, NatToString(clinicId))).None? ==> UpdateClinicResult(s, clinicId, kwargs, encode, render) == s
    ensures var r := UpdateClinicResult(s, clinicId, kwargs, encode, render);
      |r| == |s| && forall m :: 1 <= m <= |s| && FirstRecord(s, ColumnIs(0, NatToString(clinicId))) != Some(m) ==> SheetRow(r, m) == SheetRow(s, m)
    ensures var r := UpdateClinicResult(s, clinicId, kwargs, encode, render);
      FirstRecord(s, ColumnIs(0, NatToString(clinicId))).Some? ==>
        var n := FirstRecord(s, ColumnIs(0, NatToString(clinicId))).value;
        (forall c: nat :: ColumnUnnamed(kwargs, c) ==> CellAt(SheetRow(r, n), c) == CellAt(SheetRow(s, n), c)) &&
        (forall i :: 0 <= i < |kwargs| && kwargs[i].0 in ClinicHeaders ==>
          CellAt(SheetRow(r, n), IndexOf(ClinicHeaders, kwargs[i].0)) == ClinicText(kwargs[i].0, kwargs[i].1, encode, render))
  {
    match FirstRecord(s, ColumnIs(0, NatToString(clinicId)))
    case None =>
    case Some(n) =>
      var w := ClinicWrites(kwargs, n, encode, render);
      ApplyWritesRow(s, w, n);
      forall c: nat | ColumnUnnamed(kwargs, c)
        ensures LastWriteTo(w, n, c + 1).None?
      {
        ClinicWritesUnnamed(kwargs, n, encode, render, c);
      }
      forall i | 0 <= i < |kwargs| && kwargs[i].0 in ClinicHeaders
        ensures LastWriteTo(w, n, IndexOf(ClinicHeaders, kwargs[i].0) + 1) == Some(ClinicText(kwargs[i].0, kwargs[i].1, encode, render))
      {
        ClinicWritesNamed(kwargs, n, encode, render, i);
      }
  }

  /** The loop of `update_clinic` collecting one cell write per known column argument. */
  method CollectClinicWrites(kwargs: seq<(string, PyValue)>, n: nat, encode: PyValue -> string, render: PyValue -> string)
    returns (updates: seq<RangeWrite>)
    ensures updates == ClinicWrites(kwargs, n, encode, render)
  {
    updates := [];
    var i := 0;
    while i < |kwargs|
      invariant 0 <= i <= |kwargs|
      invariant updates == ClinicWrites(kwargs[..i], n, encode, render)
    {
      var (key, val) := kwargs[i];
      ClinicWritesStep(kwargs, i, n, encode, render);
      if key in ClinicHeaders {
        var text := if IsJsonArgument(key) then encode(val) else render(val);
        assert text == ClinicText(key, val, encode, render);
        updates := updates + [RangeWrite(n, IndexOf(ClinicHeaders, key) + 1, [text])];
      }
      i := i + 1;
    }
    assert kwargs[..|kwargs|] == kwargs;
  }

  /** One more keyword argument adds its write when it names a known column. */
  lemma ClinicWritesStep(kwargs: seq<(string, PyValue)>, i: nat, n: nat, encode: PyValue -> string, render: PyValue -> string)
    requires i < |kwargs|
    ensures kwargs[i].0 in ClinicHeaders ==> (ClinicWrites(kwargs[..i + 1], n, encode, render) ==
      ClinicWrites(kwargs[..i], n, encode, render) + [ClinicWrite(kwargs[i].0, kwargs[i].1, n, encode, render)])
    ensures kwargs[i].0 !in ClinicHeaders ==> ClinicWrites(kwargs[..i + 1], n, encode, render) == ClinicWrites(kwargs[..i], n, encode, render)
  {
    assert kwargs[..i + 1][..i] == kwargs[..i] && kwargs[..i + 1][i] == kwargs[i];
  }

  /** `update_clinic(clinic_id, **kwargs)`: all writes go out in one batch update. */
  method UpdateClinic(db: Database, clinicId: nat, kwargs: seq<(string, PyValue)>, encode: PyValue -> string, render: PyValue -> string)
    requires db.Valid()
    modifies db
    ensures db.Valid() && db.SessionUnchanged()
    ensures db.operational == old(db.operational) && db.operationalOrder == old(db.operationalOrder)
    ensures db.master == old(db.master)[ClinicSheet := UpdateClinicResult(old(db.SheetOf(ClinicSheet)), clinicId, kwargs, encode, render)]
  {
    MasterName(ClinicSheet);
    var s := db.GetSheet(ClinicSheet);
    var rowIdx := FindRowIndex(s, 1, NatToString(clinicId));
    if rowIdx.None? {
      return;
    }
    var updates := CollectClinicWrites(kwargs, rowIdx.value, encode, render);
    if updates != [] {
      db.Put(ClinicSheet, ApplyWrites(s, updates));
    }
  }

  /**
   * `delete_clinic(clinic_id)`: every affinity row and every date override
   * of the clinic is deleted (bottom-up), then the clinic's own row.
   */
  method DeleteClinic(db: Database, clinicId: nat)
    requires db.Valid()
    modifies db
    ensures db.Valid() && db.SessionUnchanged()
    ensures db.operational == old(db.operational) && db.operationalOrder == old(db.operationalOrder)
    ensures var aff, ovr, cli := old(db.SheetOf(AffinitySheet)), old(db.SheetOf(OverrideSheet)), old(db.SheetOf(ClinicSheet));
      db.master == old(db.master)
        [AffinitySheet := DeleteWhere(aff, FieldIs(HeaderOf(aff), "clinic_id", NatToString(clinicId)))]
        [OverrideSheet := DeleteWhere(ovr, FieldIs(HeaderOf(ovr), "clinic_id", NatToString(clinicId)))]
        [ClinicSheet := DeleteFirstMatch(cli, ColumnIs(0, NatToString(clinicId)))]
  {
    MasterName(AffinitySheet);
    MasterName(OverrideSheet);
    MasterName(ClinicSheet);
    DeleteRecordsWith(db, AffinitySheet, "clinic_id", NatToString(clinicId));
    DeleteRecordsWith(db, OverrideSheet, "clinic_id", NatToString(clinicId));
    DeleteRecordById(db, ClinicSheet, NatToString(clinicId));
  }

  // ---- Affinities ----

  /** The test of `set_affinity`: the record's doctor and clinic cells read `d` and `c`. */
  function PairIs(h: Row, d: string, c: string): Row -> bool {
    row => FieldOr(h, row, "doctor_id", "") == d && FieldOr(h, row, "clinic_id", "") == c
  }

  /** The (doctor, clinic) key of an affinity record. */
  function PairKey(h: Row): Row -> (string, string) {
    row => (FieldOr(h, row, "doctor_id", ""), FieldOr(h, row, "clinic_id", ""))
  }

  /** `[str(doctor_id), str(clinic_id), weight]`; the weight is kept as the text of its cell. */
  function AffinityRow(doctorId: nat, clinicId: nat, weight: string): Row {
    [NatToString(doctorId), NatToString(clinicId), weight]
  }

  function WriteAffinity(doctorId: nat, clinicId: nat, weight: string): Row -> Row {
    row => WriteAt(row, 0, AffinityRow(doctorId, clinicId, weight))
  }

  /** The affinity sheet after `set_affinity(doctor_id, clinic_id, weight)`. */
  function SetAffinityResult(s: Sheet, doctorId: nat, clinicId: nat, weight: string): Sheet {
    Upsert(s, PairIs(HeaderOf(s), NatToString(doctorId), NatToString(clinicId)),
      WriteAffinity(doctorId, clinicId, weight), AffinityRow(doctorId, clinicId, weight))
  }

  /** `set_affinity`: overwrite the first row of the pair from column A, or append one. */
  method SetAffinity(db: Database, doctorId: nat, clinicId: nat, weight: string)
    requires db.Valid()
    modifies db
    ensures db.Valid() && db.SessionUnchanged()
    ensures db.operational == old(db.operational) && db.operationalOrder == old(db.operationalOrder)
    ensures db.master == old(db.master)[AffinitySheet := SetAffinityResult(old(db.SheetOf(AffinitySheet)), doctorId, clinicId, weight)]
  {
    MasterName(AffinitySheet);
    ghost var m0 := db.master;
    ghost var s0 := db.SheetOf(AffinitySheet);
    var s := db.GetSheet(AffinitySheet);
    assert s == s0;
    var found := FindFirstRecord(s, PairIs(HeaderOf(s), NatToString(doctorId), NatToString(clinicId)));
    var t: Sheet;
    match found {
      case Some(n) =>
        t := s[n - 1 := WriteAt(s[n - 1], 0, AffinityRow(doctorId, clinicId, weight))];
      case None =>
        t := s + [AffinityRow(doctorId, clinicId, weight)];
    }
    assert t == SetAffinityResult(s, doctorId, clinicId, weight);
    db.Put(AffinitySheet, t);
    UpdateTwice(m0, AffinitySheet, s, t);
  }

  /** The canonical affinity header: doctor in column A, clinic in column B. */
  predicate CanonicalAffinityHeader(s: Sheet) {
    |s| >= 1 && |s[0]| >= 2 && s[0][0] == "doctor_id" && s[0][1] == "clinic_id"
  }

  lemma AffinityColumns(h: Row)
    requires |h| >= 2 && h[0] == "doctor_id" && h[1] == "clinic_id"
    ensures IndexOf(h, "doctor_id") == 0 && IndexOf(h, "clinic_id") == 1
  {
    assert h[1..][0] == "clinic_id";
  }

  /**
   * `set_affinity` keeps "at most one row per (doctor, clinic) pair", and
   * afterwards the pair's one row holds the new weight; the rows of every
   * other pair are as they were.
   */
  lemma SetAffinityKeepsPairsUnique(s: Sheet, doctorId: nat, clinicId: nat, weight: string)
    requires CanonicalAffinityHeader(s)
    requires UniqueKeys(s, PairKey(HeaderOf(s)))
    ensures var r := SetAffinityResult(s, doctorId, clinicId, weight);
      HeaderOf(r) == HeaderOf(s) && UniqueKeys(r, PairKey(HeaderOf(s)))
    ensures var r := SetAffinityResult(s, doctorId, clinicId, weight);
      var p := PairIs(HeaderOf(s), NatToString(doctorId), NatToString(clinicId));
      FirstRecord(r, p).Some? && FirstRecord(r, p) == LastRecord(r, p) &&
      CellAt(SheetRow(r, FirstRecord(r, p).value), 2) == weight
    ensures OthersKept(s, SetAffinityResult(s, doctorId, clinicId, weight), PairIs(HeaderOf(s), NatToString(doctorId), NatToString(clinicId)))
  {
    var h := HeaderOf(s);
    var d, c := NatToString(doctorId), NatToString(clinicId);
    var isKey := PairIs(h, d, c);
    var update := WriteAffinity(doctorId, clinicId, weight);
    var newRow := AffinityRow(doctorId, clinicId, weight);
    AffinityColumns(h);
    forall row
      ensures isKey(row) ==> PairKey(h)(update(row)) == (d, c) && isKey(update(row))
    {
      var w := update(row);
      assert CellAt(w, 0) == d && CellAt(w, 1) == c;
    }
    assert CellAt(newRow, 0) == d && CellAt(newRow, 1) == c;
    UpsertKeepsKeysUnique(s, PairKey(h), (d, c), isKey, update, newRow);
    UpsertWritesOnlyMatch(s, PairKey(h), (d, c), isKey, update, newRow);
    UpsertKeepsOthers(s, isKey, update, newRow);
    var r := SetAffinityResult(s, doctorId, clinicId, weight);
    assert HeaderOf(r) == h;
    var n := UpsertRow(s, isKey);
    if FirstRecord(s, isKey).Some? {
      assert CellAt(update(SheetRow(s, n)), 2) == weight;
    }
  }
}
