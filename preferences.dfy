/**
 * The monthly preference sheets of database/operational.py (sheets named
 * 希望_<year-month>): header completion once per session, reading all
 * preferences, looking one up, and writing a doctor's row.
 */
module Preferences {
  import opened Wrappers
  import opened Text
  import opened Sheets
  import opened Connection
  import opened Master

  const PrefHeaders: Row := ["doctor_id", "doctor_name", "ng_dates", "avoid_dates",
                             "preferred_clinics", "date_clinic_requests", "free_text", "updated_at"]

  /** `f"希望_{year_month}"`. */
  function PrefSheetName(ym: string): string {
    PrefSheetPrefix + ym
  }

  lemma PrefSheetIsOperational(ym: string)
    ensures IsOperationalSheet(PrefSheetName(ym))
  {
    IsOperationalSheetIff(PrefSheetName(ym));
    assert PrefSheetName(ym)[..|PrefSheetPrefix|] == PrefSheetPrefix;
  }

  // ---- Header completion ----

  /**
   * The header completion of `_get_pref_sheet`: unless the sheet was already
   * checked this session, a non-blank header row gets the missing
   * preference headers appended.
   */
  function CompletePrefHeader(s: Sheet, checked: bool): Sheet {
    var existing := HeaderOf(s);
    if checked || existing == [] then s
    else
      var missing := MissingHeaders(PrefHeaders, existing);
      if missing == [] then s else WriteHeader(s, existing + missing)
  }

  /**
   * A first completion keeps the existing headers as a prefix, leaves every
   * record alone, and afterwards every preference header is present; a
   * second one changes nothing.
   */
  lemma CompletePrefHeaderSpec(s: Sheet, checked: bool)
    ensures checked ==> CompletePrefHeader(s, checked) == s
    ensures Records(CompletePrefHeader(s, checked)) == Records(s)
    ensures var h, h' := HeaderOf(s), HeaderOf(CompletePrefHeader(s, checked));
      |h'| >= |h| && h'[..|h|] == h
    ensures HeaderOf(s) != [] ==>
      forall k :: k in PrefHeaders ==> k in HeaderOf(CompletePrefHeader(s, false))
    ensures CompletePrefHeader(CompletePrefHeader(s, false), false) == CompletePrefHeader(s, false)
  {
    var h := HeaderOf(s);
    var t := CompletePrefHeader(s, false);
    if h != [] {
      var missing := MissingHeaders(PrefHeaders, h);
      if missing != [] {
        assert HeaderOf(t) == ReconcileHeaders(h, PrefHeaders) by {
          var w := WriteAt(s[0], 0, h + missing);
          assert |w| == |h + missing|;
          forall k | 0 <= k < |w|
            ensures w[k] == (h + missing)[k]
          {
            assert CellAt(w, k) == CellAt(h + missing, k);
          }
        }
        ReconcileNothingMissing(HeaderOf(t), PrefHeaders);
      } else {
        ReconcileNothingMissing(h, PrefHeaders);
        assert forall k :: k in PrefHeaders ==> k in h;
      }
    }
  }

  /** `_get_pref_sheet(year_month)`: the sheet, created if needed, with its headers completed once per session. */
  method GetPrefSheet(db: Database, ym: string) returns (s: Sheet)
    requires db.Valid()
    modifies db
    ensures db.Valid() && db.initialized == old(db.initialized)
    ensures db.prefHeadersChecked == old(db.prefHeadersChecked) + {PrefSheetName(ym)}
    ensures s == CompletePrefHeader(Opened(old(db.Lookup(PrefSheetName(ym))), PrefHeaders), PrefSheetName(ym) in old(db.prefHeadersChecked))
    ensures db.master == old(db.master) && db.operational == old(db.operational)[PrefSheetName(ym) := s]
    ensures db.operationalOrder == if old(db.Has(PrefSheetName(ym))) then old(db.operationalOrder) else old(db.operationalOrder) + [PrefSheetName(ym)]
  {
    var name := PrefSheetName(ym);
    PrefSheetIsOperational(ym);
    s := db.InitMonthlySheet(name, PrefHeaders);
    s := CompletePrefSheet(db, name, s);
  }

  /** The once-per-session completion step of `_get_pref_sheet` on the opened sheet `s`. */
  method CompletePrefSheet(db: Database, name: string, s: Sheet) returns (t: Sheet)
    requires db.Valid() && name in db.operational && db.operational[name] == s
    modifies db
    ensures db.Valid() && db.initialized == old(db.initialized)
    ensures db.prefHeadersChecked == old(db.prefHeadersChecked) + {name}
    ensures t == CompletePrefHeader(s, name in old(db.prefHeadersChecked))
    ensures db.master == old(db.master) && db.operational == old(db.operational)[name := t]
    ensures db.operationalOrder == old(db.operationalOrder)
  {
    t := s;
    if name !in db.prefHeadersChecked {
      var existing := HeaderOf(s);
      if existing != [] {
        var missing := MissingHeaders(PrefHeaders, existing);
        if missing != [] {
          t := WriteHeader(s, existing + missing);
          db.Replace(name, t);
        }
      }
      db.MarkHeadersChecked(name);
    }
  }

  // ---- Reading preferences ----

  /** One preference record as `get_all_preferences` converts it; `raw` keeps its other cells. */
  datatype Preference = Preference(
    doctorId: nat,
    ngDates: PyValue,
    avoidDates: PyValue,
    preferredClinics: PyValue,
    dateClinicRequests: PyValue,
    freeText: string,
    raw: Row)

  /** The conversion of one record; `None` where `int(r["doctor_id"])` raises. */
  function ParsePreference(h: Row, row: Row, decode: string -> Option<PyValue>): Option<Preference> {
    match Field(h, row, "doctor_id")
    case None => None
    case Some(t) =>
      match ParseNat(t)
      case None => None
      case Some(id) =>
        Some(Preference(id,
          SafeJsonLoads(CellValue(h, row, "ng_dates"), PyNone, decode),
          SafeJsonLoads(CellValue(h, row, "avoid_dates"), PyNone, decode),
          SafeJsonLoads(CellValue(h, row, "preferred_clinics"), PyNone, decode),
          SafeJsonLoads(CellValue(h, row, "date_clinic_requests"), PyDict(map[]), decode),
          FieldOr(h, row, "free_text", ""),
          row))
  }

  /**
   * A record converts exactly when its doctor id is a number; a missing or
   * blank request column reads as `{}`, a missing or blank list column as
   * `[]`, and a missing free text as "".
   */
  lemma ParsePreferenceSpec(h: Row, row: Row, decode: string -> Option<PyValue>)
    ensures ParsePreference(h, row, decode).Some? <==>
      Field(h, row, "doctor_id").Some? && ParseNat(Field(h, row, "doctor_id").value).Some?
    ensures ParsePreference(h, row, decode).Some? ==>
      var p := ParsePreference(h, row, decode).value;
      p.doctorId == ParseNat(Field(h, row, "doctor_id").value).value && p.raw == row &&
      (Field(h, row, "date_clinic_requests") in {None, Some("")} ==> p.dateClinicRequests == PyDict(map[])) &&
      (Field(h, row, "ng_dates") in {None, Some("")} ==> p.ngDates == PyList([])) &&
      (Field(h, row, "free_text").None? ==> p.freeText == "")
  {
  }

  /** The conversion of one record, as a function of the record. */
  function PrefParser(h: Row, decode: string -> Option<PyValue>): Row -> Option<Preference> {
    row => ParsePreference(h, row, decode)
  }

  /** `get_all_preferences` over the records: every record converted in order, or `None` when one conversion raises. */
  function PreferencesOf(h: Row, recs: seq<Row>, decode: string -> Option<PyValue>): Option<seq<Preference>> {
    ParseAll(recs, PrefParser(h, decode))
  }

  lemma PreferencesOfSpec(h: Row, recs: seq<Row>, decode: string -> Option<PyValue>)
    ensures PreferencesOf(h, recs, decode).Some? <==> forall i :: 0 <= i < |recs| ==> ParsePreference(h, recs[i], decode).Some?
    ensures PreferencesOf(h, recs, decode).Some? ==>
      |PreferencesOf(h, recs, decode).value| == |recs| &&
      forall i :: 0 <= i < |recs| ==> Some(PreferencesOf(h, recs, decode).value[i]) == ParsePreference(h, recs[i], decode)
  {
    ParseAllSpec(recs, PrefParser(h, decode));
  }

  /** Nothing is skipped when reading preferences. */
  function KeepAll(p: Preference): bool {
    false
  }

  /** The conversion loop of `get_all_preferences`. */
  method ConvertPreferences(h: Row, recs: seq<Row>, decode: string -> Option<PyValue>) returns (r: Option<seq<Preference>>)
    ensures r == PreferencesOf(h, recs, decode)
  {
    r := ConvertRecords(recs, PrefParser(h, decode), KeepAll);
  }

  /** `get_all_preferences(year_month)`. */
  method GetAllPreferences(db: Database, ym: string, decode: string -> Option<PyValue>) returns (r: Option<seq<Preference>>)
    requires db.Valid()
    modifies db
    ensures db.Valid() && db.initialized == old(db.initialized)
    ensures db.prefHeadersChecked == old(db.prefHeadersChecked) + {PrefSheetName(ym)}
    ensures var s := CompletePrefHeader(Opened(old(db.Lookup(PrefSheetName(ym))), PrefHeaders), PrefSheetName(ym) in old(db.prefHeadersChecked));
      db.master == old(db.master) && db.operational == old(db.operational)[PrefSheetName(ym) := s] &&
      r == PreferencesOf(HeaderOf(s), Records(s), decode)
  {
    var s := GetPrefSheet(db, ym);
    r := ConvertPreferences(HeaderOf(s), Records(s), decode);
  }

  /** The first preference of doctor `id`, if any. */
  function FirstPreference(prefs: seq<Preference>, id: nat): (r: Option<Preference>)
    ensures r.Some? ==> exists i :: (0 <= i < |prefs| && prefs[i] == r.value && prefs[i].doctorId == id &&
      forall j :: 0 <= j < i ==> prefs[j].doctorId != id)
    ensures r.None? <==> forall i :: 0 <= i < |prefs| ==> prefs[i].doctorId != id
  {
    if prefs == [] then None
    else if prefs[0].doctorId == id then Some(prefs[0])
    else
      var r := FirstPreference(prefs[1..], id);
      assert forall i :: 0 < i < |prefs| ==> prefs[1..][i - 1] == prefs[i];
      if r.Some? then
        ghost var i :| 0 <= i < |prefs[1..]| && prefs[1..][i] == r.value && prefs[1..][i].doctorId == id &&
          forall j :: 0 <= j < i ==> prefs[1..][j].doctorId != id;
        assert prefs[i + 1] == r.value;
        r
      else r
  }

  /** The search loop of `get_preference`. */
  method FindPreference(prefs: seq<Preference>, id: nat) returns (r: Option<Preference>)
    ensures r == FirstPreference(prefs, id)
  {
    var i := 0;
    while i < |prefs|
      invariant 0 <= i <= |prefs|
      invariant FirstPreference(prefs, id) == FirstPreference(prefs[i..], id)
    {
      if prefs[i].doctorId == id {
        return Some(prefs[i]);
      }
      assert prefs[i..][1..] == prefs[i + 1..];
      i := i + 1;
    }
    return None;
  }

  /**
   * `get_preference(doctor_id, year_month)`: the doctor's first preference
   * record, `Some(None)` when there is none, and `None` when reading the
   * preferences raises.
   */
  method GetPreference(db: Database, id: nat, ym: string, decode: string -> Option<PyValue>) returns (r: Option<Option<Preference>>)
    requires db.Valid()
    modifies db
    ensures db.Valid() && db.initialized == old(db.initialized)
    ensures db.prefHeadersChecked == old(db.prefHeadersChecked) + {PrefSheetName(ym)}
    ensures var s := CompletePrefHeader(Opened(old(db.Lookup(PrefSheetName(ym))), PrefHeaders), PrefSheetName(ym) in old(db.prefHeadersChecked));
      var prefs := PreferencesOf(HeaderOf(s), Records(s), decode);
      db.master == old(db.master) && db.operational == old(db.operational)[PrefSheetName(ym) := s] &&
      (r.None? <==> prefs.None?) && (r.Some? ==> r.value == FirstPreference(prefs.value, id))
  {
    var prefs := GetAllPreferences(db, ym, decode);
    if prefs.None? {
      return None;
    }
    var found := FindPreference(prefs.value, id);
    return Some(found);
  }

  // ---- Writing a preference ----

  /** The first doctor with `id` in `doctors`, by name, or "" when there is none. */
  function DoctorNameFor(doctors: seq<Doctor>, id: nat): (name: string)
    ensures (forall i :: 0 <= i < |doctors| ==> doctors[i].id != id) ==> name == ""
    ensures (exists i :: 0 <= i < |doctors| && doctors[i].id == id) ==>
      exists i :: 0 <= i < |doctors| && doctors[i].id == id && doctors[i].name == name
  {
    if doctors == [] then ""
    else if doctors[0].id == id then doctors[0].name
    else
      assert forall i :: 0 < i < |doctors| ==> doctors[1..][i - 1] == doctors[i];
      DoctorNameFor(doctors[1..], id)
  }

  /** The name loop of `upsert_preference`. */
  method FindDoctorName(doctors: seq<Doctor>, id: nat) returns (name: string)
    ensures name == DoctorNameFor(doctors, id)
  {
    name := "";
    var i := 0;
    while i < |doctors|
      invariant 0 <= i <= |doctors|
      invariant DoctorNameFor(doctors, id) == DoctorNameFor(doctors[i..], id)
    {
      if doctors[i].id == id {
        name := doctors[i].name;
        return;
      }
      assert doctors[i..][1..] == doctors[i + 1..];
      i := i + 1;
    }
  }

  /**
   * `row_data`: the id, the name, the four JSON texts (an absent list as
   * `[]`, absent requests as `{}`), the free text (absent as "") and the
   * time, in the order of the preference headers.
   */
  function PrefRow(id: nat, name: string, ng: PyValue, avoid: PyValue, clinics: PyValue, requests: PyValue,
                   freeText: Option<string>, now: string, encode: PyValue -> string): (r: Row)
    ensures |r| == |PrefHeaders|
    ensures r[0] == NatToString(id) && r[1] == name && r[7] == now
    ensures !Truthy(ng) ==> r[2] == encode(PyList([]))
    ensures !Truthy(avoid) ==> r[3] == encode(PyList([]))
    ensures !Truthy(clinics) ==> r[4] == encode(PyList([]))
    ensures !Truthy(requests) ==> r[5] == encode(PyDict(map[]))
    ensures freeText.None? ==> r[6] == ""
  {
    [NatToString(id), name, encode(Or(ng, PyList([]))), encode(Or(avoid, PyList([]))), encode(Or(clinics, PyList([]))),
     encode(Or(requests, PyDict(map[]))), freeText.GetOr(""), now]
  }

  /** The test of `_find_row_index(ws, 1, doctor_id)`. */
  function DoctorIdIs(id: nat): Row -> bool {
    ColumnIs(0, NatToString(id))
  }

  function WritePref(rowData: Row): Row -> Row {
    row => WriteAt(row, 0, rowData)
  }

  /** The preference sheet after writing `rowData` for doctor `id`: its row overwritten from column A, or appended. */
  function UpsertPreferenceResult(s: Sheet, id: nat, rowData: Row): Sheet {
    Upsert(s, DoctorIdIs(id), WritePref(rowData), rowData)
  }

  /** Column A, the doctor id cell. */
  function FirstCell(row: Row): string {
    CellAt(row, 0)
  }

  /**
   * Writing a preference keeps "one row per doctor": afterwards the
   * doctor's one row holds exactly `rowData` in its first eight cells, and
   * the rows of every other doctor are as they were.
   */
  lemma UpsertPreferenceOnePerDoctor(s: Sheet, id: nat, rowData: Row)
    requires |s| >= 1 && |rowData| == |PrefHeaders| && rowData[0] == NatToString(id)
    requires UniqueKeys(s, FirstCell)
    ensures var r := UpsertPreferenceResult(s, id, rowData);
      HeaderOf(r) == HeaderOf(s) && UniqueKeys(r, FirstCell) &&
      FirstRecord(r, DoctorIdIs(id)).Some? && FirstRecord(r, DoctorIdIs(id)) == LastRecord(r, DoctorIdIs(id)) &&
      forall k :: 0 <= k < |rowData| ==> CellAt(SheetRow(r, FirstRecord(r, DoctorIdIs(id)).value), k) == rowData[k]
    ensures OthersKept(s, UpsertPreferenceResult(s, id, rowData), DoctorIdIs(id))
  {
    var key := NatToString(id);
    forall row
      ensures DoctorIdIs(id)(row) ==> FirstCell(WritePref(rowData)(row)) == key
    {
      assert CellAt(WritePref(rowData)(row), 0) == rowData[0];
    }
    assert FirstCell(rowData) == key;
    UpsertKeepsKeysUnique(s, FirstCell, key, DoctorIdIs(id), WritePref(rowData), rowData);
    UpsertWritesOnlyMatch(s, FirstCell, key, DoctorIdIs(id), WritePref(rowData), rowData);
    UpsertKeepsOthers(s, DoctorIdIs(id), WritePref(rowData), rowData);
    var r := UpsertPreferenceResult(s, id, rowData);
    assert HeaderOf(r) == HeaderOf(s);
    var n := UpsertRow(s, DoctorIdIs(id));
    forall k | 0 <= k < |rowData|
      ensures CellAt(SheetRow(r, n), k) == rowData[k]
    {
      if FirstRecord(s, DoctorIdIs(id)).Some? {
        assert CellAt(WritePref(rowData)(SheetRow(s, n)), k) == CellAt(rowData, k);
      }
    }
  }

  /**
   * `upsert_preference(doctor_id, year_month, ...)`. The doctor list is read
   * with `get_doctors(active_only=False)`; when that raises (`ok` false) the
   * preference sheet is left as `_get_pref_sheet` left it. `docName` is the
   * name written: a name the doctor sheet gives the id, or "" for an
   * unknown doctor.
   */
  method UpsertPreference(db: Database, id: nat, ym: string, ng: PyValue, avoid: PyValue, clinics: PyValue,
                          requests: PyValue, freeText: Option<string>, now: string, encode: PyValue -> string)
    returns (ok: bool, docName: string)
    requires db.Valid()
    modifies db
    ensures db.Valid() && db.initialized == old(db.initialized)
    ensures db.prefHeadersChecked == old(db.prefHeadersChecked) + {PrefSheetName(ym)}
    ensures db.master == old(db.master)[DoctorSheet := old(db.SheetOf(DoctorSheet))]
    ensures NameLookup(old(db.SheetOf(DoctorSheet)), id, ok, docName)
    ensures var s := CompletePrefHeader(Opened(old(db.Lookup(PrefSheetName(ym))), PrefHeaders), PrefSheetName(ym) in old(db.prefHeadersChecked));
      db.operational == old(db.operational)[PrefSheetName(ym) :=
        if ok then UpsertPreferenceResult(s, id, PrefRow(id, docName, ng, avoid, clinics, requests, freeText, now, encode)) else s]
  {
    MasterName(DoctorSheet);
    ghost var doctorSheet := db.SheetOf(DoctorSheet);
    ghost var ops0 := db.operational;
    var s := GetPrefSheet(db, ym);
    assert db.SheetOf(DoctorSheet) == doctorSheet;
    PrefSheetIsOperational(ym);
    ok, docName := WriteDoctorPreference(db, PrefSheetName(ym), s, id, ng, avoid, clinics, requests, freeText, now, encode);
    UpdateTwice(ops0, PrefSheetName(ym), s, db.operational[PrefSheetName(ym)]);
  }

  /** The part of `upsert_preference` after the sheet is opened: the name lookup, then the write. */
  method WriteDoctorPreference(db: Database, name: string, s: Sheet, id: nat, ng: PyValue, avoid: PyValue, clinics: PyValue,
                               requests: PyValue, freeText: Option<string>, now: string, encode: PyValue -> string)
    returns (ok: bool, docName: string)
    requires db.Valid() && name in db.operational && db.operational[name] == s
    modifies db
    ensures db.Valid() && db.SessionUnchanged() && db.operationalOrder == old(db.operationalOrder)
    ensures db.master == old(db.master)[DoctorSheet := old(db.SheetOf(DoctorSheet))]
    ensures NameLookup(old(db.SheetOf(DoctorSheet)), id, ok, docName)
    ensures db.operational == old(db.operational)[name :=
      if ok then UpsertPreferenceResult(s, id, PrefRow(id, docName, ng, avoid, clinics, requests, freeText, now, encode)) else s]
  {
    ok, docName := ReadDoctorName(db, id);
    if ok {
      WritePrefRow(db, name, s, id, PrefRow(id, docName, ng, avoid, clinics, requests, freeText, now, encode));
    } else {
      assert old(db.operational)[name := s] == old(db.operational);
    }
  }

  /**
   * The outcome of the name lookup of `upsert_preference` over doctor sheet
   * `ds`: it succeeds exactly when `get_doctors(active_only=False)` does not
   * raise (every record converts, and the sort by name finds the column or
   * has nothing to sort); then an unknown id gives "" and a known one the
   * name of a doctor with that id.
   */
  predicate NameLookup(ds: Sheet, id: nat, ok: bool, docName: string) {
    var parsed := ParseDoctors(HeaderOf(ds), Records(ds));
    (ok <==> parsed.Some? && !SortRaises(HeaderOf(ds), parsed.value)) &&
    (ok && (forall i :: 0 <= i < |parsed.value| ==> parsed.value[i].id != id) ==> docName == "") &&
    (ok && (exists i :: 0 <= i < |parsed.value| && parsed.value[i].id == id) ==>
      exists i :: 0 <= i < |parsed.value| && parsed.value[i].id == id && parsed.value[i].name == docName)
  }

  /** `get_doctors(active_only=False)` and the name loop of `upsert_preference`. */
  method ReadDoctorName(db: Database, id: nat) returns (ok: bool, docName: string)
    requires db.Valid()
    modifies db
    ensures db.Valid() && db.SessionUnchanged()
    ensures db.operational == old(db.operational) && db.operationalOrder == old(db.operationalOrder)
    ensures db.master == old(db.master)[DoctorSheet := old(db.SheetOf(DoctorSheet))]
    ensures NameLookup(old(db.SheetOf(DoctorSheet)), id, ok, docName)
  {
    MasterName(DoctorSheet);
    ghost var ds0 := db.SheetOf(DoctorSheet);
    var ds := db.GetSheet(DoctorSheet);
    assert ds == ds0;
    var doctors := GetDoctors(ds, false);
    ok := doctors.Some?;
    docName := "";
    if ok {
      docName := FindDoctorName(doctors.value, id);
    }
    NameLookupFromDoctors(ds, id, doctors, docName);
  }

  /** The name loop over the result of `get_doctors(active_only=False)` meets `NameLookup`. */
  lemma NameLookupFromDoctors(ds: Sheet, id: nat, doctors: Option<seq<Doctor>>, docName: string)
    requires var parsed := ParseDoctors(HeaderOf(ds), Records(ds));
      doctors.None? <==> (parsed.None? || SortRaises(HeaderOf(ds), RemoveWhere(parsed.value, Skipped(false))))
    requires doctors.Some? ==> multiset(doctors.value) == multiset(RemoveWhere(ParseDoctors(HeaderOf(ds), Records(ds)).value, Skipped(false)))
    requires doctors.Some? ==> docName == DoctorNameFor(doctors.value, id)
    ensures NameLookup(ds, id, doctors.Some?, docName)
  {
    var parsed := ParseDoctors(HeaderOf(ds), Records(ds));
    if parsed.Some? {
      assert RemoveWhere(parsed.value, Skipped(false)) == parsed.value;
    }
    if doctors.Some? {
      DoctorsFoundByMultiset(doctors.value, parsed.value, id, docName);
    }
  }

  /** `_find_row_index(ws, 1, doctor_id)` and the overwrite or append of `row_data`. */
  method WritePrefRow(db: Database, name: string, s: Sheet, id: nat, rowData: Row)
    requires db.Valid() && name in db.operational && db.operational[name] == s
    modifies db
    ensures db.Valid() && db.SessionUnchanged()
    ensures db.master == old(db.master) && db.operationalOrder == old(db.operationalOrder)
    ensures db.operational == old(db.operational)[name := UpsertPreferenceResult(s, id, rowData)]
  {
    var rowIdx := FindRowIndex(s, 1, NatToString(id));
    if rowIdx.Some? {
      db.Replace(name, s[rowIdx.value - 1 := WriteAt(s[rowIdx.value - 1], 0, rowData)]);
    } else {
      db.Replace(name, s + [rowData]);
    }
  }

  /** The name found in the sorted list is a name the unsorted list gives the id. */
  lemma DoctorsFoundByMultiset(sorted: seq<Doctor>, parsed: seq<Doctor>, id: nat, name: string)
    requires multiset(sorted) == multiset(RemoveWhere(parsed, Skipped(false)))
    requires name == DoctorNameFor(sorted, id)
    ensures (forall i :: 0 <= i < |parsed| ==> parsed[i].id != id) ==> name == ""
    ensures (exists i :: 0 <= i < |parsed| && parsed[i].id == id) ==>
      exists i :: 0 <= i < |parsed| && parsed[i].id == id && parsed[i].name == name
  {
    assert RemoveWhere(parsed, Skipped(false)) == parsed;
    assert forall d :: d in sorted <==> d in parsed by {
      forall d
        ensures d in sorted <==> d in parsed
      {
        assert d in sorted <==> d in multiset(sorted);
        assert d in parsed <==> d in multiset(parsed);
      }
    }
    if exists i :: 0 <= i < |parsed| && parsed[i].id == id {
      var i :| 0 <= i < |parsed| && parsed[i].id == id;
      assert parsed[i] in sorted;
      var j :| 0 <= j < |sorted| && sorted[j].id == id && sorted[j].name == name;
      assert sorted[j] in parsed;
    } else {
      forall i | 0 <= i < |sorted|
        ensures sorted[i].id != id
      {
        assert sorted[i] in parsed;
      }
    }
  }
}
