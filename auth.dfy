/**
 * Settings, the administrator password, doctors' own passwords and e-mail
 * addresses (database/auth.py). Settings are key/value records of the
 * settings sheet; doctors' passwords and addresses are cells of the
 * doctor sheet, read back through `get_doctors`.
 */
module Auth {
  import opened Wrappers
  import opened Text
  import opened Ordering
  import opened Sheets
  import opened Connection
  import opened Master

  // ---- Settings ----

  /** The test `r.get("key") == key`. */
  function KeyIs(h: Row, key: string): Row -> bool {
    row => Field(h, row, "key") == Some(key)
  }

  /** The key of a setting record. */
  function SettingKey(h: Row): Row -> Option<string> {
    row => Field(h, row, "key")
  }

  /** `_get_setting(key)`: `r.get("value")` of the first record with the key, `None` when there is none. */
  function GetSetting(s: Sheet, key: string): Option<string> {
    match FirstRecord(s, KeyIs(HeaderOf(s), key))
    case None => None
    case Some(n) => Field(HeaderOf(s), s[n - 1], "value")
  }

  /** A setting is `Some(v)` exactly when the first record with the key holds `v` as its value. */
  lemma GetSettingSpec(s: Sheet, key: string, v: string)
    ensures GetSetting(s, key) == Some(v) <==>
      exists n :: 2 <= n <= |s| && KeyIs(HeaderOf(s), key)(SheetRow(s, n)) && Field(HeaderOf(s), SheetRow(s, n), "value") == Some(v) &&
        forall m :: 2 <= m < n ==> !KeyIs(HeaderOf(s), key)(SheetRow(s, m))
    ensures (forall n :: 2 <= n <= |s| ==> !KeyIs(HeaderOf(s), key)(SheetRow(s, n))) ==> GetSetting(s, key).None?
  {
    if exists n :: 2 <= n <= |s| && KeyIs(HeaderOf(s), key)(SheetRow(s, n)) && Field(HeaderOf(s), SheetRow(s, n), "value") == Some(v) &&
        forall m :: 2 <= m < n ==> !KeyIs(HeaderOf(s), key)(SheetRow(s, m)) {
      var n :| 2 <= n <= |s| && KeyIs(HeaderOf(s), key)(SheetRow(s, n)) && Field(HeaderOf(s), SheetRow(s, n), "value") == Some(v) &&
        forall m :: 2 <= m < n ==> !KeyIs(HeaderOf(s), key)(SheetRow(s, m));
      FirstRecordIs(s, KeyIs(HeaderOf(s), key), n);
    }
  }

  /** `update_cell(i + 2, 2, value)`: the value cell (column B) of a record. */
  function WriteValue(value: string): Row -> Row {
    row => WriteAt(row, 1, [value])
  }

  /** The settings sheet after `_set_setting(key, value)`. */
  function SetSettingResult(s: Sheet, key: string, value: string): Sheet {
    Upsert(s, KeyIs(HeaderOf(s), key), WriteValue(value), [key, value])
  }

  /** The header the settings sheet is created with: key in A, value in B. */
  predicate CanonicalSettingHeader(s: Sheet) {
    |s| >= 1 && |s[0]| >= 2 && s[0][0] == "key" && s[0][1] == "value"
  }

  lemma SettingColumns(h: Row)
    requires |h| >= 2 && h[0] == "key" && h[1] == "value"
    ensures IndexOf(h, "key") == 0 && IndexOf(h, "value") == 1
  {
    assert h[1..][0] == "value";
  }

  /**
   * After `_set_setting(key, value)` on a settings sheet with the canonical
   * header, `_get_setting(key)` returns the new value, every other key reads
   * as before, and "at most one record per key" is kept.
   */
  lemma SetSettingSpec(s: Sheet, key: string, value: string)
    requires CanonicalSettingHeader(s)
    ensures var t := SetSettingResult(s, key, value);
      HeaderOf(t) == HeaderOf(s) && GetSetting(t, key) == Some(value) &&
      (UniqueKeys(s, SettingKey(HeaderOf(s))) ==> UniqueKeys(t, SettingKey(HeaderOf(s))))
    ensures forall other :: other != key ==> GetSetting(SetSettingResult(s, key, value), other) == GetSetting(s, other)
  {
    var h := HeaderOf(s);
    SettingColumns(h);
    var p := KeyIs(h, key);
    var t := SetSettingResult(s, key, value);
    assert HeaderOf(t) == h;
    match FirstRecord(s, p) {
      case Some(n) =>
        assert t == s[n - 1 := WriteValue(value)(s[n - 1])];
        assert CellAt(t[n - 1], 0) == CellAt(s[n - 1], 0) && CellAt(t[n - 1], 1) == value;
        assert forall m :: 2 <= m < n ==> SheetRow(t, m) == SheetRow(s, m);
        assert p(SheetRow(t, n));
        FirstRecordIs(t, p, n);
        forall other | other != key
          ensures GetSetting(t, other) == GetSetting(s, other)
        {
          FirstRecordCongruent(s, t, KeyIs(h, other));
        }
      case None =>
        assert t == s + [[key, value]];
        assert forall m :: 2 <= m < |t| ==> SheetRow(t, m) == SheetRow(s, m);
        assert p(SheetRow(t, |t|));
        FirstRecordIs(t, p, |t|);
        forall other | other != key
          ensures GetSetting(t, other) == GetSetting(s, other)
        {
          FirstRecordCongruent(s, t, KeyIs(h, other));
        }
    }
    if UniqueKeys(s, SettingKey(h)) {
      SetSettingKeepsUnique(s, key, value);
    }
  }

  lemma SetSettingKeepsUnique(s: Sheet, key: string, value: string)
    requires CanonicalSettingHeader(s) && UniqueKeys(s, SettingKey(HeaderOf(s)))
    ensures UniqueKeys(SetSettingResult(s, key, value), SettingKey(HeaderOf(s)))
  {
    var h := HeaderOf(s);
    SettingColumns(h);
    var p := KeyIs(h, key);
    forall row
      ensures p(row) <==> SettingKey(h)(row) == Some(key)
    {
    }
    forall row | p(row)
      ensures SettingKey(h)(WriteValue(value)(row)) == Some(key)
    {
      assert CellAt(WriteValue(value)(row), 0) == CellAt(row, 0);
    }
    assert SettingKey(h)([key, value]) == Some(key);
    UpsertKeepsKeysUnique(s, SettingKey(h), Some(key), p, WriteValue(value), [key, value]);
  }

  /** `_set_setting(key, value)`: rewrite the value of the first record with the key, or append a record. */
  method SetSetting(db: Database, key: string, value: string)
    requires db.Valid()
    modifies db
    ensures db.Valid() && db.SessionUnchanged()
    ensures db.operational == old(db.operational) && db.operationalOrder == old(db.operationalOrder)
    ensures db.master == old(db.master)[SettingSheet := SetSettingResult(old(db.SheetOf(SettingSheet)), key, value)]
  {
    MasterName(SettingSheet);
    var s := db.GetSheet(SettingSheet);
    var found := FindFirstRecord(s, KeyIs(HeaderOf(s), key));
    match found
    case Some(n) =>
      db.Put(SettingSheet, s[n - 1 := WriteAt(s[n - 1], 1, [value])]);
    case None =>
      db.Put(SettingSheet, s + [[key, value]]);
  }

  // ---- The administrator password ----

  const AdminPasswordKey: string := "admin_password"
  const OpenMonthKey: string := "open_month"

  /** `is_admin_password_set()`. */
  predicate IsAdminPasswordSet(s: Sheet) {
    GetSetting(s, AdminPasswordKey).Some?
  }

  /** `verify_admin_password(password)`: false without a stored hash or with an empty one. */
  predicate VerifyAdminPassword(s: Sheet, password: string, hash: string -> string) {
    match GetSetting(s, AdminPasswordKey)
    case None => false
    case Some(stored) => stored != "" && stored == hash(password)
  }

  /** `set_admin_password(password)`: the hash of the password is stored under `admin_password`. */
  method SetAdminPassword(db: Database, password: string)
    requires db.Valid()
    modifies db
    ensures db.Valid() && db.SessionUnchanged()
    ensures db.operational == old(db.operational) && db.operationalOrder == old(db.operationalOrder)
    ensures db.master == old(db.master)[SettingSheet := SetSettingResult(old(db.SheetOf(SettingSheet)), AdminPasswordKey, db.hash(password))]
  {
    SetSetting(db, AdminPasswordKey, db.hash(password));
  }

  /**
   * Verification accepts a password exactly when a non-empty hash is stored
   * and it is the password's hash.
   */
  lemma VerifyAdminPasswordSpec(s: Sheet, password: string, hash: string -> string)
    ensures VerifyAdminPassword(s, password, hash) <==> GetSetting(s, AdminPasswordKey) == Some(hash(password)) && hash(password) != ""
    ensures !IsAdminPasswordSet(s) ==> !VerifyAdminPassword(s, password, hash)
  {
  }

  /**
   * After `set_admin_password(p)` the password counts as set and `p` is
   * accepted; with a hash function that never hashes two passwords alike,
   * every other password is refused.
   */
  lemma SetAdminPasswordThenVerify(s: Sheet, password: string, other: string, hash: string -> string)
    requires CanonicalSettingHeader(s) && hash(password) != ""
    ensures var t := SetSettingResult(s, AdminPasswordKey, hash(password));
      IsAdminPasswordSet(t) && VerifyAdminPassword(t, password, hash) &&
      (hash(other) != hash(password) ==> !VerifyAdminPassword(t, other, hash))
  {
    SetSettingSpec(s, AdminPasswordKey, hash(password));
  }

  /** `get_open_month()`: the month doctors may enter preferences for. */
  function GetOpenMonth(s: Sheet): Option<string> {
    GetSetting(s, OpenMonthKey)
  }

  /** `set_open_month(year_month)`. */
  method SetOpenMonth(db: Database, ym: string)
    requires db.Valid()
    modifies db
    ensures db.Valid() && db.SessionUnchanged()
    ensures db.operational == old(db.operational) && db.operationalOrder == old(db.operationalOrder)
    ensures db.master == old(db.master)[SettingSheet := SetSettingResult(old(db.SheetOf(SettingSheet)), OpenMonthKey, ym)]
  {
    SetSetting(db, OpenMonthKey, ym);
  }

  /** After `set_open_month(ym)`, `get_open_month()` returns `ym` and the administrator password is untouched. */
  lemma SetOpenMonthThenGet(s: Sheet, ym: string)
    requires CanonicalSettingHeader(s)
    ensures GetOpenMonth(SetSettingResult(s, OpenMonthKey, ym)) == Some(ym)
    ensures GetSetting(SetSettingResult(s, OpenMonthKey, ym), AdminPasswordKey) == GetSetting(s, AdminPasswordKey)
  {
    SetSettingSpec(s, OpenMonthKey, ym);
  }

  // ---- Doctors' own passwords and addresses ----

  /** The first doctor with id `id` (the loops `for d in doctors: if d["id"] == doctor_id`). */
  function FirstWithId(ds: seq<Doctor>, id: nat): (r: Option<Doctor>)
    ensures r.Some? ==> r.value in ds && r.value.id == id
    ensures r.None? <==> forall d :: d in ds ==> d.id != id
  {
    if ds == [] then None
    else if ds[0].id == id then Some(ds[0])
    else
      var r := FirstWithId(ds[1..], id);
      assert forall d :: d in ds ==> d == ds[0] || d in ds[1..];
      r
  }

  /** No two doctors share an id. */
  ghost predicate UniqueIds(ds: seq<Doctor>) {
    forall i, j :: 0 <= i < j < |ds| ==> ds[i].id != ds[j].id
  }

  /** With ids unique, the first doctor with the id in any ordering of the list is the one doctor with it. */
  lemma FirstWithIdUnique(ds: seq<Doctor>, xs: seq<Doctor>, d: Doctor)
    requires UniqueIds(ds) && multiset(xs) == multiset(ds) && d in ds
    ensures FirstWithId(xs, d.id) == Some(d)
  {
    assert d in multiset(xs);
    var e := FirstWithId(xs, d.id).value;
    assert e in multiset(ds);
    var i :| 0 <= i < |ds| && ds[i] == d;
    var j :| 0 <= j < |ds| && ds[j] == e;
    if i != j {
      assert ds[i].id == ds[j].id;
    }
  }

  /** `is_doctor_individual_password_set(doctor_id)`; `None` where `get_doctors` raises. */
  function IsDoctorPasswordSet(s: Sheet, id: nat): Option<bool> {
    match DoctorsResult(s, false)
    case None => None
    case Some(ds) =>
      match FirstWithId(ds, id)
      case None => Some(false)
      case Some(d) => Some(d.passwordHash != "")
  }

  /** `verify_doctor_individual_password(doctor_id, password)`; `None` where `get_doctors` raises. */
  function VerifyDoctorPassword(s: Sheet, id: nat, password: string, hash: string -> string): Option<bool> {
    match DoctorsResult(s, false)
    case None => None
    case Some(ds) =>
      match FirstWithId(ds, id)
      case None => Some(false)
      case Some(d) => Some(d.passwordHash != "" && d.passwordHash == hash(password))
  }

  /** All doctors of the sheet, in record order, when every record converts. */
  function Parsed(s: Sheet): Option<seq<Doctor>> {
    ParseDoctors(HeaderOf(s), Records(s))
  }

  /**
   * With ids unique, a doctor's password counts as set exactly when the
   * doctor exists with a non-empty hash, and a password is accepted exactly
   * when the doctor exists and its non-empty hash is the password's; an
   * unknown id is refused.
   */
  lemma DoctorPasswordSpec(s: Sheet, id: nat, password: string, hash: string -> string)
    requires Parsed(s).Some? && UniqueIds(Parsed(s).value)
    ensures SortRaises(HeaderOf(s), Parsed(s).value) ==>
      IsDoctorPasswordSet(s, id).None? && VerifyDoctorPassword(s, id, password, hash).None?
    ensures !SortRaises(HeaderOf(s), Parsed(s).value) ==>
      IsDoctorPasswordSet(s, id) == Some(exists d :: d in Parsed(s).value && d.id == id && d.passwordHash != "")
    ensures !SortRaises(HeaderOf(s), Parsed(s).value) ==> (VerifyDoctorPassword(s, id, password, hash) ==
      Some(exists d :: d in Parsed(s).value && d.id == id && d.passwordHash != "" && d.passwordHash == hash(password)))
  {
    var ds := Parsed(s).value;
    assert RemoveWhere(ds, Skipped(false)) == ds;
    if SortRaises(HeaderOf(s), ds) {
      return;
    }
    var xs := DoctorsResult(s, false).value;
    if exists d :: d in ds && d.id == id {
      var d :| d in ds && d.id == id;
      FirstWithIdUnique(ds, xs, d);
      forall e | e in ds && e.id == id
        ensures e == d
      {
        FirstWithIdUnique(ds, xs, e);
      }
    } else {
      forall d | d in xs
        ensures d.id != id
      {
        assert d in multiset(ds);
      }
    }
  }

  /** The doctor sheet's header as `init_db` creates it: id, name, email and password hash in columns A to D. */
  predicate CanonicalDoctorHeader(s: Sheet) {
    |s| >= 1 && |s[0]| >= 4 && s[0][0] == "id" && s[0][1] == "name" && s[0][2] == "email" && s[0][3] == "password_hash"
  }

  lemma DoctorColumns(h: Row)
    requires |h| >= 4 && h[0] == "id" && h[1] == "name" && h[2] == "email" && h[3] == "password_hash"
    ensures IndexOf(h, "id") == 0 && IndexOf(h, "email") == 2 && IndexOf(h, "password_hash") == 3
  {
    var e := IndexOf(h, "email");
    var p := IndexOf(h, "password_hash");
    assert e <= 2 && p <= 3;
    assert e != 0 && e != 1 by {
      assert h[0] != "email" && h[1] != "email";
    }
    assert p != 0 && p != 1 && p != 2 by {
      assert h[0] != "password_hash" && h[1] != "password_hash" && h[2] != "password_hash";
    }
  }

  /**
   * `update_cell(row_idx, col, value)` on the row `_find_row_index(ws, 1,
   * doctor_id)` finds: one cell of the doctor's first row changes; without
   * such a row nothing does.
   */
  function SetDoctorCell(s: Sheet, id: nat, col0: nat, value: string): (r: Sheet)
    ensures FirstRecord(s, ColumnIs(0, NatToString(id))).None? ==> r == s
    ensures FirstRecord(s, ColumnIs(0, NatToString(id))).Some? ==>
      var n := FirstRecord(s, ColumnIs(0, NatToString(id))).value;
      |r| == |s| && (forall m :: 1 <= m <= |s| && m != n ==> SheetRow(r, m) == SheetRow(s, m)) &&
      CellAt(SheetRow(r, n), col0) == value && forall k: nat :: k != col0 ==> CellAt(SheetRow(r, n), k) == CellAt(SheetRow(s, n), k)
  {
    match FirstRecord(s, ColumnIs(0, NatToString(id)))
    case None => s
    case Some(n) => s[n - 1 := WriteAt(s[n - 1], col0, [value])]
  }

  /** Where the doctor's row is `n`, the rewrite is that one row's. */
  lemma SetDoctorCellAt(s: Sheet, id: nat, col0: nat, value: string, n: nat)
    requires FirstRecord(s, ColumnIs(0, NatToString(id))) == Some(n)
    ensures 2 <= n <= |s| && SetDoctorCell(s, id, col0, value) == s[n - 1 := WriteAt(s[n - 1], col0, [value])]
  {
  }

  /** `headers.index("password_hash")`: 0-based column D of the doctor header list. */
  function PasswordColumn(): nat {
    IndexOf(DoctorHeaders, "password_hash")
  }

  /** `headers.index("email")`: 0-based column C of the doctor header list. */
  function EmailColumn(): nat {
    IndexOf(DoctorHeaders, "email")
  }

  lemma DoctorHeaderColumns()
    ensures PasswordColumn() == 3 && EmailColumn() == 2
  {
    DoctorColumns(DoctorHeaders);
  }

  /** `set_doctor_individual_password(doctor_id, password)`. */
  method SetDoctorPassword(db: Database, id: nat, password: string)
    requires db.Valid()
    modifies db
    ensures db.Valid() && db.SessionUnchanged()
    ensures db.operational == old(db.operational) && db.operationalOrder == old(db.operationalOrder)
    ensures db.master == old(db.master)[DoctorSheet := SetDoctorCell(old(db.SheetOf(DoctorSheet)), id, PasswordColumn(), db.hash(password))]
  {
    WriteDoctorCell(db, id, PasswordColumn(), db.hash(password));
  }

  /** `update_doctor_email(doctor_id, email)`. */
  method UpdateDoctorEmail(db: Database, id: nat, email: string)
    requires db.Valid()
    modifies db
    ensures db.Valid() && db.SessionUnchanged()
    ensures db.operational == old(db.operational) && db.operationalOrder == old(db.operationalOrder)
    ensures db.master == old(db.master)[DoctorSheet := SetDoctorCell(old(db.SheetOf(DoctorSheet)), id, EmailColumn(), email)]
  {
    WriteDoctorCell(db, id, EmailColumn(), email);
  }

  /** The shared body of the two doctor-cell writers. */
  method WriteDoctorCell(db: Database, id: nat, col0: nat, value: string)
    requires db.Valid()
    modifies db
    ensures db.Valid() && db.SessionUnchanged()
    ensures db.operational == old(db.operational) && db.operationalOrder == old(db.operationalOrder)
    ensures db.master == old(db.master)[DoctorSheet := SetDoctorCell(old(db.SheetOf(DoctorSheet)), id, col0, value)]
  {
    MasterName(DoctorSheet);
    var s := db.GetSheet(DoctorSheet);
    var rowIdx := FindRowIndex(s, 1, NatToString(id));
    if rowIdx.None? {
      assert old(db.master)[DoctorSheet := s] == db.master;
      return;
    }
    var n := rowIdx.value;
    db.Put(DoctorSheet, s[n - 1 := WriteAt(s[n - 1], col0, [value])]);
  }

  /** Rewriting the password cell (column D) of a record changes only the converted doctor's password hash. */
  lemma ParseAfterPasswordWrite(h: Row, row: Row, x: string)
    requires |h| >= 4 && h[0] == "id" && h[1] == "name" && h[2] == "email" && h[3] == "password_hash"
    ensures ParseDoctor(h, WriteAt(row, 3, [x])) ==
      match ParseDoctor(h, row) case None => None case Some(d) => Some(d.(passwordHash := x))
  {
    var b := WriteAt(row, 3, [x]);
    DoctorColumns(h);
    SameFieldsBut(h, row, b, 3);
    assert FieldOr(h, b, "email", "") == FieldOr(h, row, "email", "");
    assert FieldOr(h, b, "password_hash", "") == x by {
      assert CellAt(b, 3) == x;
    }
    ParseDoctorOtherFields(h, row, b);
  }

  /** Rewriting the e-mail cell (column C) of a record changes only the converted doctor's address. */
  lemma ParseAfterEmailWrite(h: Row, row: Row, x: string)
    requires |h| >= 4 && h[0] == "id" && h[1] == "name" && h[2] == "email" && h[3] == "password_hash"
    ensures ParseDoctor(h, WriteAt(row, 2, [x])) ==
      match ParseDoctor(h, row) case None => None case Some(d) => Some(d.(email := x))
  {
    var b := WriteAt(row, 2, [x]);
    DoctorColumns(h);
    SameFieldsBut(h, row, b, 2);
    assert FieldOr(h, b, "password_hash", "") == FieldOr(h, row, "password_hash", "");
    assert FieldOr(h, b, "email", "") == x by {
      assert CellAt(b, 2) == x;
    }
    ParseDoctorOtherFields(h, row, b);
  }

  /** Two records that agree on every field but the e-mail and the password hash convert alike but for those two. */
  lemma ParseDoctorOtherFields(h: Row, a: Row, b: Row)
    requires forall key :: key != "email" && key != "password_hash" ==> Field(h, a, key) == Field(h, b, key)
    ensures ParseDoctor(h, b) ==
      match ParseDoctor(h, a)
      case None => None
      case Some(d) => Some(d.(email := FieldOr(h, b, "email", ""), passwordHash := FieldOr(h, b, "password_hash", "")))
  {
    assert Field(h, a, "id") == Field(h, b, "id");
    assert Field(h, a, "name") == Field(h, b, "name");
    assert Field(h, a, "is_active") == Field(h, b, "is_active");
    assert Field(h, a, "max_assignments") == Field(h, b, "max_assignments");
    assert Field(h, a, "account") == Field(h, b, "account");
    assert Field(h, a, "account_name") == Field(h, b, "account_name");
  }

  /** Two rows that differ at most in column `col0` agree on every field but the one in that column. */
  lemma SameFieldsBut(h: Row, a: Row, b: Row, col0: nat)
    requires forall k: nat :: k != col0 ==> CellAt(a, k) == CellAt(b, k)
    ensures forall key :: key in h && IndexOf(h, key) != col0 ==> Field(h, a, key) == Field(h, b, key)
  {
  }

  /**
   * Converting the records after one record's conversion changed from `d`
   * to `d2` (same id): the list is the old one with `d` replaced, so ids
   * stay unique and `d2` is the doctor found by its id.
   */
  lemma ParsedAfterRowChange(h: Row, recs: seq<Row>, k: nat, row: Row, d: Doctor, d2: Doctor)
    requires k < |recs| && ParseDoctors(h, recs).Some? && UniqueIds(ParseDoctors(h, recs).value)
    requires ParseDoctor(h, recs[k]) == Some(d) && ParseDoctor(h, row) == Some(d2) && d2.id == d.id
    ensures ParseDoctors(h, recs[k := row]).Some? && |ParseDoctors(h, recs).value| == |recs|
    ensures ParseDoctors(h, recs[k := row]).value == ParseDoctors(h, recs).value[k := d2]
    ensures UniqueIds(ParseDoctors(h, recs[k := row]).value)
    ensures d2 in ParseDoctors(h, recs[k := row]).value
  {
    var ds := ParseDoctors(h, recs).value;
    ParseDoctorsSpec(h, recs);
    ParseDoctorsSpec(h, recs[k := row]);
    var es := ParseDoctors(h, recs[k := row]).value;
    assert |es| == |ds|;
    assert forall i :: 0 <= i < |es| ==> es[i] == ds[k := d2][i];
    assert es[k] == d2;
  }

  /**
   * After `set_doctor_individual_password(id, p)` on a doctor sheet with
   * the canonical header, ids unique and the doctor's row present, the
   * password counts as set and `p` is accepted; with a hash function that
   * never hashes two passwords alike, every other password is refused.
   */
  lemma SetDoctorPasswordThenVerify(s: Sheet, id: nat, password: string, other: string, hash: string -> string)
    requires CanonicalDoctorHeader(s) && Parsed(s).Some? && UniqueIds(Parsed(s).value)
    requires FirstRecord(s, ColumnIs(0, NatToString(id))).Some? && hash(password) != ""
    ensures var t := SetDoctorCell(s, id, 3, hash(password));
      Parsed(t).Some? && IsDoctorPasswordSet(t, id) == Some(true) && VerifyDoctorPassword(t, id, password, hash) == Some(true) &&
      (hash(other) != hash(password) ==> VerifyDoctorPassword(t, id, other, hash) == Some(false))
  {
    var t := SetDoctorCell(s, id, 3, hash(password));
    var d2 := DoctorCellWritten(s, id, 3, hash(password));
    assert d2.passwordHash == hash(password);
    DoctorPasswordSpec(t, id, password, hash);
    DoctorPasswordSpec(t, id, other, hash);
    forall e | e in Parsed(t).value && e.id == id
      ensures e == d2
    {
      var i :| 0 <= i < |Parsed(t).value| && Parsed(t).value[i] == e;
      var j :| 0 <= j < |Parsed(t).value| && Parsed(t).value[j] == d2;
      if i != j {
        assert Parsed(t).value[i].id == Parsed(t).value[j].id;
      }
    }
  }

  /**
   * After `update_doctor_email(id, email)` on a doctor sheet with the
   * canonical header, ids unique and the doctor's row present, the doctor
   * `get_doctors` finds under that id carries the new address.
   */
  lemma UpdateDoctorEmailThenRead(s: Sheet, id: nat, email: string)
    requires CanonicalDoctorHeader(s) && Parsed(s).Some? && UniqueIds(Parsed(s).value)
    requires FirstRecord(s, ColumnIs(0, NatToString(id))).Some?
    ensures var t := SetDoctorCell(s, id, 2, email);
      DoctorsResult(t, false).Some? && FirstWithId(DoctorsResult(t, false).value, id).Some? &&
      FirstWithId(DoctorsResult(t, false).value, id).value.email == email
  {
    var t := SetDoctorCell(s, id, 2, email);
    var d2 := DoctorCellWritten(s, id, 2, email);
    var ds := Parsed(t).value;
    assert RemoveWhere(ds, Skipped(false)) == ds;
    FirstWithIdUnique(ds, DoctorsResult(t, false).value, d2);
  }

  /**
   * Writing column C or D of the doctor's row leaves every record
   * convertible and ids unique; the doctor with the id then carries the
   * written value in that field.
   */
  lemma DoctorCellWritten(s: Sheet, id: nat, col0: nat, value: string) returns (d2: Doctor)
    requires CanonicalDoctorHeader(s) && Parsed(s).Some? && UniqueIds(Parsed(s).value)
    requires FirstRecord(s, ColumnIs(0, NatToString(id))).Some? && (col0 == 2 || col0 == 3)
    ensures var t := SetDoctorCell(s, id, col0, value);
      HeaderOf(t) == HeaderOf(s) && Parsed(t).Some? && UniqueIds(Parsed(t).value) && d2 in Parsed(t).value && d2.id == id
    ensures col0 == 2 ==> d2.email == value
    ensures col0 == 3 ==> d2.passwordHash == value
  {
    var h := HeaderOf(s);
    var n := FirstRecord(s, ColumnIs(0, NatToString(id))).value;
    var t := SetDoctorCell(s, id, col0, value);
    var row := WriteAt(s[n - 1], col0, [value]);
    SetDoctorCellAt(s, id, col0, value, n);
    var d := FoundDoctor(s, id, n);
    var recs := Records(s);
    assert recs[n - 2] == s[n - 1];
    if col0 == 2 {
      ParseAfterEmailWrite(h, recs[n - 2], value);
      d2 := d.(email := value);
    } else {
      ParseAfterPasswordWrite(h, recs[n - 2], value);
      d2 := d.(passwordHash := value);
    }
    assert Records(t) == recs[n - 2 := row];
    ParsedAfterRowChange(h, recs, n - 2, row, d, d2);
  }

  /** The doctor the first row with the id converts to carries that id. */
  lemma FoundDoctor(s: Sheet, id: nat, n: nat) returns (d: Doctor)
    requires CanonicalDoctorHeader(s) && Parsed(s).Some?
    requires FirstRecord(s, ColumnIs(0, NatToString(id))) == Some(n)
    ensures 2 <= n <= |s| && ParseDoctor(HeaderOf(s), s[n - 1]) == Some(d) && d.id == id
  {
    var h := HeaderOf(s);
    var recs := Records(s);
    ParseDoctorsSpec(h, recs);
    assert recs[n - 2] == s[n - 1];
    d := ParseDoctor(h, recs[n - 2]).value;
    DoctorColumns(h);
    NatToStringRoundTrip(id);
    ParseDoctorSpec(h, s[n - 1]);
  }
}
