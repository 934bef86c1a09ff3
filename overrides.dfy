/**
 * The per-date staffing overrides of database/master.py (sheet 日別設定,
 * columns `clinic_id`, `date`, `required_doctors`). A clinic date without a
 * row needs the default of one doctor, so the writers never store a 1.
 */
module Overrides {
  import opened Wrappers
  import opened Text
  import opened Ordering
  import opened Sheets
  import opened Connection

  /** The number of doctors a clinic date needs when no override row exists. */
  const DefaultRequired: nat := 1

  // ---- Reading ----

  /** What `get_clinic_date_overrides(year_month)` makes of one record. */
  datatype OverrideRecord =
    | OutsideMonth                                   // its date does not start with the year-month
    | Unreadable                                     // `int(...)` or `r[...]` raises on it
    | Entry(clinic: nat, date: string, required: nat)

  function ReadOverride(h: Row, row: Row, ym: string): (e: OverrideRecord)
    ensures e.Entry? ==> StartsWith(e.date, ym) && e.date == FieldOr(h, row, "date", "")
    ensures e.OutsideMonth? <==> !StartsWith(FieldOr(h, row, "date", ""), ym)
  {
    var d := FieldOr(h, row, "date", "");
    if !StartsWith(d, ym) then OutsideMonth
    else if "clinic_id" !in h || "required_doctors" !in h then Unreadable
    else
      match (ParseNat(FieldOr(h, row, "clinic_id", "")), ParseNat(FieldOr(h, row, "required_doctors", "")))
      case (Some(c), Some(r)) => Entry(c, d, r)
      case _ => Unreadable
  }

  /** The record is an override of clinic date `k` for the month. */
  predicate IsEntryFor(h: Row, row: Row, ym: string, k: (nat, string)) {
    var e := ReadOverride(h, row, ym);
    e.Entry? && (e.clinic, e.date) == k
  }

  /**
   * The dict `get_clinic_date_overrides(year_month)` builds, keyed by
   * (clinic id, date); `None` when a conversion raises.
   */
  function OverridesOf(h: Row, recs: seq<Row>, ym: string): Option<map<(nat, string), nat>> {
    if recs == [] then Some(map[])
    else
      match OverridesOf(h, recs[..|recs| - 1], ym)
      case None => None
      case Some(m) =>
        match ReadOverride(h, recs[|recs| - 1], ym)
        case OutsideMonth => Some(m)
        case Unreadable => None
        case Entry(c, d, r) => Some(m[(c, d) := r])
  }

  /** The overrides of a month fail exactly when some record of the month cannot be converted. */
  lemma {:induction false} OverridesOfFails(h: Row, recs: seq<Row>, ym: string)
    ensures OverridesOf(h, recs, ym).None? <==> exists i :: 0 <= i < |recs| && ReadOverride(h, recs[i], ym).Unreadable?
  {
    if recs != [] {
      var init := recs[..|recs| - 1];
      OverridesOfFails(h, init, ym);
      assert forall i :: 0 <= i < |init| ==> init[i] == recs[i];
      if exists i :: 0 <= i < |recs| && ReadOverride(h, recs[i], ym).Unreadable? {
        var i :| 0 <= i < |recs| && ReadOverride(h, recs[i], ym).Unreadable?;
        if i < |init| {
          assert ReadOverride(h, init[i], ym).Unreadable?;
        }
      }
    }
  }

  /** The keys of a month's overrides are exactly the clinic dates of the month's records. */
  lemma OverridesOfKeys(h: Row, recs: seq<Row>, ym: string)
    requires OverridesOf(h, recs, ym).Some?
    ensures forall k :: k in OverridesOf(h, recs, ym).value <==> exists i :: 0 <= i < |recs| && IsEntryFor(h, recs[i], ym, k)
    ensures forall k :: k in OverridesOf(h, recs, ym).value ==> StartsWith(k.1, ym)
  {
    forall k
      ensures k in OverridesOf(h, recs, ym).value <==> exists i :: 0 <= i < |recs| && IsEntryFor(h, recs[i], ym, k)
      ensures k in OverridesOf(h, recs, ym).value ==> StartsWith(k.1, ym)
    {
      OverridesOfKey(h, recs, ym, k);
      if k in OverridesOf(h, recs, ym).value {
        var i :| 0 <= i < |recs| && IsEntryFor(h, recs[i], ym, k);
      }
    }
  }

  /** Clinic date `k` is a key of the month's overrides exactly when some record of the month is about it. */
  lemma {:induction false} OverridesOfKey(h: Row, recs: seq<Row>, ym: string, k: (nat, string))
    requires OverridesOf(h, recs, ym).Some?
    ensures k in OverridesOf(h, recs, ym).value <==> exists i :: 0 <= i < |recs| && IsEntryFor(h, recs[i], ym, k)
  {
    if recs != [] {
      var init := recs[..|recs| - 1];
      var last := |recs| - 1;
      OverridesOfStep(h, recs, ym);
      OverridesOfKey(h, init, ym, k);
      if k in OverridesOf(h, init, ym).value {
        var i :| 0 <= i < |init| && IsEntryFor(h, init[i], ym, k);
        assert recs[i] == init[i];
      }
      if exists i :: 0 <= i < |recs| && IsEntryFor(h, recs[i], ym, k) {
        var i :| 0 <= i < |recs| && IsEntryFor(h, recs[i], ym, k);
        if i < last {
          assert IsEntryFor(h, init[i], ym, k);
        }
      }
    }
  }

  /** The last record adds its clinic date, if it has one, to the keys of the records before it. */
  lemma OverridesOfStep(h: Row, recs: seq<Row>, ym: string)
    requires recs != [] && OverridesOf(h, recs, ym).Some?
    ensures OverridesOf(h, recs[..|recs| - 1], ym).Some?
    ensures forall k :: k in OverridesOf(h, recs, ym).value <==>
      k in OverridesOf(h, recs[..|recs| - 1], ym).value || IsEntryFor(h, recs[|recs| - 1], ym, k)
    ensures forall k :: IsEntryFor(h, recs[|recs| - 1], ym, k) ==> StartsWith(k.1, ym)
  {
  }

  /** Where several records of the month share a clinic date, the last one wins. */
  lemma {:induction false} OverridesOfLastWins(h: Row, recs: seq<Row>, ym: string, i: nat, k: (nat, string))
    requires OverridesOf(h, recs, ym).Some?
    requires i < |recs| && IsEntryFor(h, recs[i], ym, k)
    requires forall j :: i < j < |recs| ==> !IsEntryFor(h, recs[j], ym, k)
    ensures k in OverridesOf(h, recs, ym).value
    ensures OverridesOf(h, recs, ym).value[k] == ReadOverride(h, recs[i], ym).required
  {
    var init := recs[..|recs| - 1];
    var last := |recs| - 1;
    if i < last {
      assert !IsEntryFor(h, recs[last], ym, k);
      assert IsEntryFor(h, init[i], ym, k);
      assert forall j :: i < j < |init| ==> init[j] == recs[j];
      OverridesOfLastWins(h, init, ym, i, k);
    }
  }

  /** `get_clinic_date_overrides(year_month)` over the override sheet; `None` where it raises. */
  method GetClinicDateOverrides(s: Sheet, ym: string) returns (r: Option<map<(nat, string), nat>>)
    ensures r == OverridesOf(HeaderOf(s), Records(s), ym)
  {
    var h := HeaderOf(s);
    var recs := Records(s);
    var result: map<(nat, string), nat> := map[];
    var i := 0;
    assert recs[..0] == [];
    while i < |recs|
      invariant 0 <= i <= |recs|
      invariant OverridesOf(h, recs[..i], ym) == Some(result)
    {
      assert recs[..i + 1][..i] == recs[..i] && recs[..i + 1][i] == recs[i];
      var d := FieldOr(h, recs[i], "date", "");
      if StartsWith(d, ym) {
        if "clinic_id" !in h || "required_doctors" !in h {
          assert ReadOverride(h, recs[i], ym).Unreadable?;
          OverridesOfFails(h, recs, ym);
          return None;
        }
        var c := ParseNat(FieldOr(h, recs[i], "clinic_id", ""));
        var req := ParseNat(FieldOr(h, recs[i], "required_doctors", ""));
        if c.None? || req.None? {
          assert ReadOverride(h, recs[i], ym).Unreadable?;
          OverridesOfFails(h, recs, ym);
          return None;
        }
        result := result[(c.value, d) := req.value];
      }
      i := i + 1;
    }
    assert recs[..|recs|] == recs;
    return Some(result);
  }

  // ---- Writing one override ----

  /** The test of `set_clinic_date_override`: the record's clinic and date cells read `c` and `d`. */
  function OverrideIs(h: Row, c: string, d: string): Row -> bool {
    row => FieldOr(h, row, "clinic_id", "") == c && FieldOr(h, row, "date", "") == d
  }

  /** The (clinic, date) text key of an override record. */
  function OverrideKey(h: Row): Row -> (string, string) {
    row => (FieldOr(h, row, "clinic_id", ""), FieldOr(h, row, "date", ""))
  }

  /** `[str(clinic_id), date_str, required_doctors]`. */
  function OverrideRow(clinicId: nat, date: string, required: nat): Row {
    [NatToString(clinicId), date, NatToString(required)]
  }

  function WriteOverride(clinicId: nat, date: string, required: nat): Row -> Row {
    row => WriteAt(row, 0, OverrideRow(clinicId, date, required))
  }

  /**
   * The override sheet after `set_clinic_date_override(clinic_id, date_str,
   * required_doctors)`: the first record of the clinic date is deleted when
   * the new count is the default and rewritten otherwise; without such a
   * record, a row is appended unless the count is the default.
   */
  function SetOverrideResult(s: Sheet, clinicId: nat, date: string, required: nat): Sheet {
    match FirstRecord(s, OverrideIs(HeaderOf(s), NatToString(clinicId), date))
    case Some(n) =>
      if required == DefaultRequired then DeleteRow(s, n)
      else s[n - 1 := WriteOverride(clinicId, date, required)(s[n - 1])]
    case None =>
      if required != DefaultRequired then s + [OverrideRow(clinicId, date, required)] else s
  }

  /** `set_clinic_date_override(clinic_id, date_str, required_doctors)`. */
  method SetClinicDateOverride(db: Database, clinicId: nat, date: string, required: nat)
    requires db.Valid()
    modifies db
    ensures db.Valid() && db.SessionUnchanged()
    ensures db.operational == old(db.operational) && db.operationalOrder == old(db.operationalOrder)
    ensures db.master == old(db.master)[OverrideSheet := SetOverrideResult(old(db.SheetOf(OverrideSheet)), clinicId, date, required)]
  {
    MasterName(OverrideSheet);
    ghost var m0 := db.master;
    ghost var s0 := db.SheetOf(OverrideSheet);
    var s := db.GetSheet(OverrideSheet);
    assert s == s0;
    var found := FindFirstRecord(s, OverrideIs(HeaderOf(s), NatToString(clinicId), date));
    var t, write := s, true;
    match found {
      case Some(n) =>
        if required == DefaultRequired {
          t := DeleteRow(s, n);
        } else {
          var row := WriteAt(s[n - 1], 0, OverrideRow(clinicId, date, required));
          t := s[n - 1 := row];
        }
      case None =>
        if required != DefaultRequired {
          t := s + [OverrideRow(clinicId, date, required)];
        } else {
          write := false;
        }
    }
    assert t == SetOverrideResult(s, clinicId, date, required);
    if write {
      db.Put(OverrideSheet, t);
      UpdateTwice(m0, OverrideSheet, s, t);
    } else {
      assert db.master == m0[OverrideSheet := t];
    }
  }

  /** The header the override table is created with: clinic, date and count in columns A to C. */
  predicate CanonicalOverrideHeader(s: Sheet) {
    |s| >= 1 && |s[0]| >= 3 && s[0][0] == "clinic_id" && s[0][1] == "date" && s[0][2] == "required_doctors"
  }

  lemma OverrideColumns(h: Row)
    requires |h| >= 3 && h[0] == "clinic_id" && h[1] == "date" && h[2] == "required_doctors"
    ensures IndexOf(h, "clinic_id") == 0 && IndexOf(h, "date") == 1 && IndexOf(h, "required_doctors") == 2
  {
    assert h[1..][0] == "date";
    assert h[1..][1..][0] == "required_doctors";
  }

  /** The count cell of a record does not hold the default. */
  predicate NotDefault(h: Row, row: Row) {
    ParseNat(FieldOr(h, row, "required_doctors", "")) != Some(DefaultRequired)
  }

  /** No record stores the default count. */
  predicate NoDefaultRows(s: Sheet) {
    forall row :: row in Records(s) ==> NotDefault(HeaderOf(s), row)
  }

  /** A clinic id cell that parses is written the way `str` writes the number (no leading zeros). */
  predicate CanonicalClinicCell(h: Row, row: Row) {
    var t := FieldOr(h, row, "clinic_id", "");
    ParseNat(t).Some? ==> t == NatToString(ParseNat(t).value)
  }

  /**
   * The invariant the override writers keep: the canonical header, at most
   * one record per (clinic, date) text key, clinic ids written as `str`
   * writes them, and no record holding the default count.
   */
  ghost predicate OverrideTableOk(s: Sheet) {
    CanonicalOverrideHeader(s) && UniqueKeys(s, OverrideKey(HeaderOf(s))) && NoDefaultRows(s) &&
    forall row :: row in Records(s) ==> CanonicalClinicCell(HeaderOf(s), row)
  }

  /** The count `get_clinic_date_overrides` gives clinic date (`c`, `d`) for month `ym`, the default when it has none. */
  function EffectiveRequired(s: Sheet, ym: string, c: nat, d: string): Option<nat> {
    match OverridesOf(HeaderOf(s), Records(s), ym)
    case None => None
    case Some(m) => Some(if (c, d) in m then m[(c, d)] else DefaultRequired)
  }

  /** Under a canonical clinic cell, the reader's key and the writer's text test agree. */
  lemma EntryMatchesText(h: Row, row: Row, ym: string, c: nat, d: string)
    requires CanonicalClinicCell(h, row)
    ensures IsEntryFor(h, row, ym, (c, d)) ==> OverrideIs(h, NatToString(c), d)(row)
  {
  }

  /** The written row of an override is read back as that override. */
  lemma WrittenRowReads(h: Row, row: Row, ym: string, c: nat, d: string, r: nat)
    requires |h| >= 3 && h[0] == "clinic_id" && h[1] == "date" && h[2] == "required_doctors"
    requires StartsWith(d, ym)
    ensures var w := WriteOverride(c, d, r)(row);
      IsEntryFor(h, w, ym, (c, d)) && ReadOverride(h, w, ym).required == r &&
      OverrideIs(h, NatToString(c), d)(w) && OverrideKey(h)(w) == (NatToString(c), d) &&
      CanonicalClinicCell(h, w) && (r != DefaultRequired ==> NotDefault(h, w))
  {
    var w := WriteOverride(c, d, r)(row);
    OverrideColumns(h);
    assert CellAt(w, 0) == NatToString(c) && CellAt(w, 1) == d && CellAt(w, 2) == NatToString(r);
    NatToStringRoundTrip(c);
    NatToStringRoundTrip(r);
  }

  /** A sheet whose records are readable ones of a readable sheet (or are readable themselves) is readable. */
  lemma ReadableRows(t: Sheet, s: Sheet, ym: string)
    requires HeaderOf(t) == HeaderOf(s) && OverridesOf(HeaderOf(s), Records(s), ym).Some?
    requires forall row :: row in Records(t) ==> row in Records(s) || !ReadOverride(HeaderOf(s), row, ym).Unreadable?
    ensures OverridesOf(HeaderOf(t), Records(t), ym).Some?
  {
    var h := HeaderOf(s);
    OverridesOfFails(h, Records(s), ym);
    OverridesOfFails(h, Records(t), ym);
    forall i | 0 <= i < |Records(t)|
      ensures !ReadOverride(h, Records(t)[i], ym).Unreadable?
    {
      var row := Records(t)[i];
      if row in Records(s) {
        var j :| 0 <= j < |Records(s)| && Records(s)[j] == row;
      }
    }
  }

  /** A readable sheet without a record matching clinic date (`c`, `d`) by text gives it the default count. */
  lemma NoMatchIsDefault(t: Sheet, ym: string, c: nat, d: string)
    requires OverridesOf(HeaderOf(t), Records(t), ym).Some?
    requires forall row :: row in Records(t) ==> CanonicalClinicCell(HeaderOf(t), row)
    requires forall m :: 2 <= m <= |t| ==> !OverrideIs(HeaderOf(t), NatToString(c), d)(SheetRow(t, m))
    ensures EffectiveRequired(t, ym, c, d) == Some(DefaultRequired)
  {
    var h, recs := HeaderOf(t), Records(t);
    OverridesOfKeys(h, recs, ym);
    if (c, d) in OverridesOf(h, recs, ym).value {
      var i :| 0 <= i < |recs| && IsEntryFor(h, recs[i], ym, (c, d));
      assert recs[i] == SheetRow(t, i + 2);
      EntryMatchesText(h, recs[i], ym, c, d);
      assert false;
    }
  }

  /** Setting the default count leaves no record of the clinic date, keeps the table invariant and every other clinic date's count. */
  lemma SetDefaultOverride(s: Sheet, c: nat, d: string, ym: string)
    requires OverrideTableOk(s)
    ensures OverrideTableOk(SetOverrideResult(s, c, d, DefaultRequired))
    ensures StartsWith(d, ym) && OverridesOf(HeaderOf(s), Records(s), ym).Some? ==>
      EffectiveRequired(SetOverrideResult(s, c, d, DefaultRequired), ym, c, d) == Some(DefaultRequired)
    ensures OverridesOf(HeaderOf(s), Records(s), ym).Some? ==>
      forall c2: nat, d2: string :: (c2, d2) != (c, d) ==> EffectiveRequired(SetOverrideResult(s, c, d, DefaultRequired), ym, c2, d2) == EffectiveRequired(s, ym, c2, d2)
  {
    if OverridesOf(HeaderOf(s), Records(s), ym).Some? {
      forall c2: nat, d2: string | (c2, d2) != (c, d)
        ensures EffectiveRequired(SetOverrideResult(s, c, d, DefaultRequired), ym, c2, d2) == EffectiveRequired(s, ym, c2, d2)
      {
        SetOverrideKeepsOther(s, c, d, DefaultRequired, ym, (c2, d2));
      }
    }
    var h := HeaderOf(s);
    var p := OverrideIs(h, NatToString(c), d);
    var key := OverrideKey(h);
    assert forall row :: p(row) <==> key(row) == (NatToString(c), d);
    DeleteFirstMatchUnique(s, key, (NatToString(c), d), p);
    var t := SetOverrideResult(s, c, d, DefaultRequired);
    assert t == DeleteFirstMatch(s, p);
    assert HeaderOf(t) == h;
    if StartsWith(d, ym) && OverridesOf(h, Records(s), ym).Some? {
      ReadableRows(t, s, ym);
      NoMatchIsDefault(t, ym, c, d);
    }
  }

  /** Setting any other count leaves one record of the clinic date, holding it, and keeps the table invariant and every other clinic date's count. */
  lemma SetOtherOverride(s: Sheet, c: nat, d: string, r: nat, ym: string)
    requires OverrideTableOk(s) && r != DefaultRequired
    ensures OverrideTableOk(SetOverrideResult(s, c, d, r))
    ensures StartsWith(d, ym) && OverridesOf(HeaderOf(s), Records(s), ym).Some? ==>
      EffectiveRequired(SetOverrideResult(s, c, d, r), ym, c, d) == Some(r)
    ensures OverridesOf(HeaderOf(s), Records(s), ym).Some? ==>
      forall c2: nat, d2: string :: (c2, d2) != (c, d) ==> EffectiveRequired(SetOverrideResult(s, c, d, r), ym, c2, d2) == EffectiveRequired(s, ym, c2, d2)
  {
    if OverridesOf(HeaderOf(s), Records(s), ym).Some? {
      forall c2: nat, d2: string | (c2, d2) != (c, d)
        ensures EffectiveRequired(SetOverrideResult(s, c, d, r), ym, c2, d2) == EffectiveRequired(s, ym, c2, d2)
      {
        SetOverrideKeepsOther(s, c, d, r, ym, (c2, d2));
      }
    }
    SetOtherKeepsTable(s, c, d, r);
    if StartsWith(d, ym) && OverridesOf(HeaderOf(s), Records(s), ym).Some? {
      SetOtherReads(s, c, d, r, ym);
    }
  }

  /**
   * Two readings of a month agree about clinic date `k`: both raise, or both
   * read and give `k` the same count or none.
   */
  predicate AgreeOn(o1: Option<map<(nat, string), nat>>, o2: Option<map<(nat, string), nat>>, k: (nat, string)) {
    o1.Some? == o2.Some? &&
    (o1.Some? ==> (k in o1.value <==> k in o2.value) && (k in o1.value ==> o1.value[k] == o2.value[k]))
  }

  /** A readable record that is no override of clinic date `k` changes nothing about `k`, wherever it stands. */
  lemma {:induction false} InsertNeutral(h: Row, a: seq<Row>, x: Row, b: seq<Row>, ym: string, k: (nat, string))
    requires !ReadOverride(h, x, ym).Unreadable? && !IsEntryFor(h, x, ym, k)
    ensures AgreeOn(OverridesOf(h, a + [x] + b, ym), OverridesOf(h, a + b, ym), k)
    decreases |b|
  {
    if b == [] {
      assert a + [x] + b == a + [x] && a + b == a;
      AppendNeutral(h, a, x, ym, k);
    } else {
      var init := b[..|b| - 1];
      InsertNeutral(h, a, x, init, ym, k);
      var long, short := a + [x] + b, a + b;
      assert long[..|long| - 1] == a + [x] + init && long[|long| - 1] == b[|b| - 1];
      assert short[..|short| - 1] == a + init && short[|short| - 1] == b[|b| - 1];
      AgreeStep(h, long, short, ym, k);
    }
  }

  /** Appending a readable record that is no override of `k` changes nothing about `k`. */
  lemma AppendNeutral(h: Row, a: seq<Row>, x: Row, ym: string, k: (nat, string))
    requires !ReadOverride(h, x, ym).Unreadable? && !IsEntryFor(h, x, ym, k)
    ensures AgreeOn(OverridesOf(h, a + [x], ym), OverridesOf(h, a, ym), k)
  {
    assert (a + [x])[..|a + [x]| - 1] == a;
  }

  /** Readings that agree about `k` still agree after the same record is read at the end of both. */
  lemma AgreeStep(h: Row, l1: seq<Row>, l2: seq<Row>, ym: string, k: (nat, string))
    requires l1 != [] && l2 != [] && l1[|l1| - 1] == l2[|l2| - 1]
    requires AgreeOn(OverridesOf(h, l1[..|l1| - 1], ym), OverridesOf(h, l2[..|l2| - 1], ym), k)
    ensures AgreeOn(OverridesOf(h, l1, ym), OverridesOf(h, l2, ym), k)
  {
  }

  /** Two sheets with one header whose readings both agree about `k` with a third give `k` the same count. */
  lemma EffectiveFromAgree(t: Sheet, s: Sheet, mid: Option<map<(nat, string), nat>>, ym: string, k: (nat, string))
    requires HeaderOf(t) == HeaderOf(s)
    requires AgreeOn(OverridesOf(HeaderOf(t), Records(t), ym), mid, k)
    requires AgreeOn(OverridesOf(HeaderOf(s), Records(s), ym), mid, k)
    ensures EffectiveRequired(t, ym, k.0, k.1) == EffectiveRequired(s, ym, k.0, k.1)
  {
  }

  /** The records around data row `n`: those above it, the row, those below it. */
  lemma RecordsAround(s: Sheet, n: nat)
    requires 2 <= n <= |s|
    ensures Records(s) == Records(s)[..n - 2] + [s[n - 1]] + Records(s)[n - 1..]
    ensures Records(DeleteRow(s, n)) == Records(s)[..n - 2] + Records(s)[n - 1..]
    ensures forall w :: Records(s[n - 1 := w]) == Records(s)[..n - 2] + [w] + Records(s)[n - 1..]
  {
    forall w
      ensures Records(s[n - 1 := w]) == Records(s)[..n - 2] + [w] + Records(s)[n - 1..]
    {
      assert s[n - 1 := w][1..] == s[1..][n - 2 := w];
    }
  }

  /** A record the writer's text test picks for clinic date (`c`, `d`) is no override of any other clinic date. */
  lemma MatchNotOtherEntry(h: Row, row: Row, ym: string, c: nat, d: string, k: (nat, string))
    requires OverrideIs(h, NatToString(c), d)(row) && k != (c, d)
    ensures !IsEntryFor(h, row, ym, k)
  {
    NatToStringRoundTrip(c);
  }

  /** A row written for clinic date (`c`, `d`) is readable in every month and is no override of any other clinic date. */
  lemma WrittenNeutral(h: Row, row: Row, ym: string, c: nat, d: string, r: nat, k: (nat, string))
    requires |h| >= 3 && h[0] == "clinic_id" && h[1] == "date" && h[2] == "required_doctors"
    requires k != (c, d)
    ensures !ReadOverride(h, WriteOverride(c, d, r)(row), ym).Unreadable?
    ensures !IsEntryFor(h, WriteOverride(c, d, r)(row), ym, k)
  {
    WrittenRowReads(h, row, d, c, d, r);
    if StartsWith(d, ym) {
      WrittenRowReads(h, row, ym, c, d, r);
    }
  }

  /**
   * Setting the count of clinic date (`c`, `d`) leaves the count of every
   * other clinic date of a readable month as it was.
   */
  lemma SetOverrideKeepsOther(s: Sheet, c: nat, d: string, r: nat, ym: string, k: (nat, string))
    requires CanonicalOverrideHeader(s) && OverridesOf(HeaderOf(s), Records(s), ym).Some? && k != (c, d)
    ensures EffectiveRequired(SetOverrideResult(s, c, d, r), ym, k.0, k.1) == EffectiveRequired(s, ym, k.0, k.1)
  {
    var h := HeaderOf(s);
    var t := SetOverrideResult(s, c, d, r);
    match FirstRecord(s, OverrideIs(h, NatToString(c), d)) {
      case Some(n) =>
        var mid := KeepsOtherAtRow(s, c, d, r, ym, k, n);
        EffectiveFromAgree(t, s, mid, ym, k);
      case None =>
        if r != DefaultRequired {
          KeepsOtherOnAppend(s, c, d, r, ym, k);
          EffectiveFromAgree(t, s, OverridesOf(h, Records(s), ym), ym, k);
        }
    }
  }

  /** When the clinic date's first record is row `n`, deleting or rewriting it agrees about `k` with dropping it. */
  lemma KeepsOtherAtRow(s: Sheet, c: nat, d: string, r: nat, ym: string, k: (nat, string), n: nat)
    returns (mid: Option<map<(nat, string), nat>>)
    requires CanonicalOverrideHeader(s) && OverridesOf(HeaderOf(s), Records(s), ym).Some? && k != (c, d)
    requires FirstRecord(s, OverrideIs(HeaderOf(s), NatToString(c), d)) == Some(n)
    ensures HeaderOf(SetOverrideResult(s, c, d, r)) == HeaderOf(s)
    ensures AgreeOn(OverridesOf(HeaderOf(s), Records(SetOverrideResult(s, c, d, r)), ym), mid, k)
    ensures AgreeOn(OverridesOf(HeaderOf(s), Records(s), ym), mid, k)
  {
    var h, recs := HeaderOf(s), Records(s);
    var t := SetOverrideResult(s, c, d, r);
    var pre, x, post := recs[..n - 2], s[n - 1], recs[n - 1..];
    RecordsAround(s, n);
    OverridesOfFails(h, recs, ym);
    assert recs[n - 2] == x;
    MatchNotOtherEntry(h, x, ym, c, d, k);
    InsertNeutral(h, pre, x, post, ym, k);
    mid := OverridesOf(h, pre + post, ym);
    if r != DefaultRequired {
      var w := WriteOverride(c, d, r)(x);
      assert t == s[n - 1 := w];
      WrittenNeutral(h, x, ym, c, d, r, k);
      InsertNeutral(h, pre, w, post, ym, k);
    }
  }

  /** Appending the row of a new clinic date changes nothing about any other clinic date. */
  lemma KeepsOtherOnAppend(s: Sheet, c: nat, d: string, r: nat, ym: string, k: (nat, string))
    requires CanonicalOverrideHeader(s) && k != (c, d) && r != DefaultRequired
    requires FirstRecord(s, OverrideIs(HeaderOf(s), NatToString(c), d)).None?
    ensures HeaderOf(SetOverrideResult(s, c, d, r)) == HeaderOf(s)
    ensures AgreeOn(OverridesOf(HeaderOf(s), Records(SetOverrideResult(s, c, d, r)), ym), OverridesOf(HeaderOf(s), Records(s), ym), k)
  {
    var h, recs := HeaderOf(s), Records(s);
    var w := OverrideRow(c, d, r);
    assert w == WriteOverride(c, d, r)([]);
    assert Records(SetOverrideResult(s, c, d, r)) == recs + [w];
    WrittenNeutral(h, [], ym, c, d, r, k);
    AppendNeutral(h, recs, w, ym, k);
  }

  /** The row a non-default count is written over: the clinic date's first record, or a blank row. */
  function OverrideBase(s: Sheet, c: nat, d: string): Row {
    match FirstRecord(s, OverrideIs(HeaderOf(s), NatToString(c), d))
    case Some(n) => SheetRow(s, n)
    case None => []
  }

  /** Sheet row `n` of `t` is the clinic date's last record, written over the base row; every other record of `t` is one of `s`. */
  ghost predicate OverrideWrittenAt(s: Sheet, t: Sheet, c: nat, d: string, r: nat, n: nat) {
    HeaderOf(t) == HeaderOf(s) && 2 <= n <= |t| &&
    SheetRow(t, n) == WriteOverride(c, d, r)(OverrideBase(s, c, d)) &&
    LastRecord(t, OverrideIs(HeaderOf(s), NatToString(c), d)) == Some(n) &&
    forall m :: 2 <= m <= |t| && m != n ==> SheetRow(t, m) in Records(s)
  }

  /** Setting a non-default count is an upsert on the text key: keys stay unique and one row is written. */
  lemma SetOtherShape(s: Sheet, c: nat, d: string, r: nat)
    requires OverrideTableOk(s) && r != DefaultRequired
    ensures UniqueKeys(SetOverrideResult(s, c, d, r), OverrideKey(HeaderOf(s)))
    ensures OverrideWrittenAt(s, SetOverrideResult(s, c, d, r), c, d, r, UpsertRow(s, OverrideIs(HeaderOf(s), NatToString(c), d)))
  {
    var h := HeaderOf(s);
    var p := OverrideIs(h, NatToString(c), d);
    var key := OverrideKey(h);
    var update := WriteOverride(c, d, r);
    var newRow := OverrideRow(c, d, r);
    OverrideColumns(h);
    assert forall row :: p(row) <==> key(row) == (NatToString(c), d);
    forall row
      ensures p(row) ==> key(update(row)) == (NatToString(c), d)
    {
      WrittenRowReads(h, row, d, c, d, r);
    }
    assert newRow == update([]);
    WrittenRowReads(h, [], d, c, d, r);
    UpsertKeepsKeysUnique(s, key, (NatToString(c), d), p, update, newRow);
    UpsertWritesOnlyMatch(s, key, (NatToString(c), d), p, update, newRow);
    var t := SetOverrideResult(s, c, d, r);
    assert t == Upsert(s, p, update, newRow);
    var n := UpsertRow(s, p);
    assert HeaderOf(t) == h;
    assert SheetRow(t, n) == update(OverrideBase(s, c, d));
    forall m | 2 <= m <= |t| && m != n
      ensures SheetRow(t, m) in Records(s)
    {
      assert SheetRow(t, m) == SheetRow(s, m) == Records(s)[m - 2];
    }
  }

  /** Setting a non-default count keeps the table invariant. */
  lemma SetOtherKeepsTable(s: Sheet, c: nat, d: string, r: nat)
    requires OverrideTableOk(s) && r != DefaultRequired
    ensures OverrideTableOk(SetOverrideResult(s, c, d, r))
  {
    var h := HeaderOf(s);
    var t := SetOverrideResult(s, c, d, r);
    var n := UpsertRow(s, OverrideIs(h, NatToString(c), d));
    SetOtherShape(s, c, d, r);
    WrittenRowReads(h, OverrideBase(s, c, d), d, c, d, r);
    forall row | row in Records(t)
      ensures NotDefault(h, row) && CanonicalClinicCell(h, row)
    {
      var i :| 0 <= i < |Records(t)| && Records(t)[i] == row;
      assert row == SheetRow(t, i + 2);
    }
  }

  /** After setting a non-default count of a date in a readable month, the month reads that count for the clinic date. */
  lemma SetOtherReads(s: Sheet, c: nat, d: string, r: nat, ym: string)
    requires OverrideTableOk(s) && r != DefaultRequired
    requires StartsWith(d, ym) && OverridesOf(HeaderOf(s), Records(s), ym).Some?
    ensures EffectiveRequired(SetOverrideResult(s, c, d, r), ym, c, d) == Some(r)
  {
    var h := HeaderOf(s);
    var t := SetOverrideResult(s, c, d, r);
    var n := UpsertRow(s, OverrideIs(h, NatToString(c), d));
    SetOtherShape(s, c, d, r);
    WrittenRowReads(h, OverrideBase(s, c, d), ym, c, d, r);
    var written := SheetRow(t, n);
    forall row | row in Records(t)
      ensures row in Records(s) || !ReadOverride(h, row, ym).Unreadable?
    {
      var i :| 0 <= i < |Records(t)| && Records(t)[i] == row;
      assert row == SheetRow(t, i + 2);
    }
    ReadableRows(t, s, ym);
    var recs := Records(t);
    assert recs[n - 2] == written;
    forall j | n - 2 < j < |recs|
      ensures !IsEntryFor(h, recs[j], ym, (c, d))
    {
      assert recs[j] == SheetRow(t, j + 2);
      assert recs[j] in Records(s);
      EntryMatchesText(h, recs[j], ym, c, d);
    }
    OverridesOfLastWins(h, recs, ym, n - 2, (c, d));
  }

  /**
   * `set_clinic_date_override(c, d, r)` keeps the table invariant, and
   * afterwards the month's overrides give clinic date (`c`, `d`) the count
   * `r`, a default 1 included, and every other clinic date the count it had.
   */
  lemma SetOverrideEffective(s: Sheet, c: nat, d: string, r: nat, ym: string)
    requires OverrideTableOk(s)
    ensures OverrideTableOk(SetOverrideResult(s, c, d, r))
    ensures StartsWith(d, ym) && OverridesOf(HeaderOf(s), Records(s), ym).Some? ==>
      EffectiveRequired(SetOverrideResult(s, c, d, r), ym, c, d) == Some(r)
    ensures OverridesOf(HeaderOf(s), Records(s), ym).Some? ==>
      forall c2: nat, d2: string :: (c2, d2) != (c, d) ==> EffectiveRequired(SetOverrideResult(s, c, d, r), ym, c2, d2) == EffectiveRequired(s, ym, c2, d2)
  {
    if r == DefaultRequired {
      SetDefaultOverride(s, c, d, ym);
    } else {
      SetOtherOverride(s, c, d, r, ym);
    }
  }

  // ---- Writing many overrides at once ----

  /** One entry `(clinic_id, date_str): required_doctors` of the `changes` dict. */
  datatype Change = Change(clinicId: nat, date: string, required: nat)

  /** The text key the batch looks a change up by: `(str(clinic_id), date_str)`. */
  function ChangeKey(ch: Change): (string, string) {
    (NatToString(ch.clinicId), ch.date)
  }

  /** The keys of a dict are distinct. */
  predicate DistinctChanges(cs: seq<Change>) {
    forall i, j :: 0 <= i < j < |cs| ==> (cs[i].clinicId, cs[i].date) != (cs[j].clinicId, cs[j].date)
  }

  /** The dict `existing`: each record's text key mapped to its index, a later record overwriting an earlier one. */
  function ExistingIndex(h: Row, recs: seq<Row>): map<(string, string), nat>
    decreases |recs|
  {
    if recs == [] then map[]
    else
      var i := |recs| - 1;
      ExistingIndex(h, recs[..i])[OverrideKey(h)(recs[i]) := i]
  }

  /**
   * `existing` holds exactly the keys of the records, and maps each to the
   * last record carrying it.
   */
  lemma {:induction false} ExistingIndexSpec(h: Row, recs: seq<Row>)
    ensures forall k :: k in ExistingIndex(h, recs) ==>
      ExistingIndex(h, recs)[k] < |recs| && OverrideKey(h)(recs[ExistingIndex(h, recs)[k]]) == k
    ensures forall i :: 0 <= i < |recs| ==>
      OverrideKey(h)(recs[i]) in ExistingIndex(h, recs) && ExistingIndex(h, recs)[OverrideKey(h)(recs[i])] >= i
    decreases |recs|
  {
    if recs != [] {
      var i := |recs| - 1;
      ExistingIndexSpec(h, recs[..i]);
      assert forall j :: 0 <= j < i ==> recs[..i][j] == recs[j];
    }
  }

  /** The loop building `existing`. */
  method BuildExisting(h: Row, recs: seq<Row>) returns (existing: map<(string, string), nat>)
    ensures existing == ExistingIndex(h, recs)
  {
    existing := map[];
    var i := 0;
    while i < |recs|
      invariant 0 <= i <= |recs|
      invariant existing == ExistingIndex(h, recs[..i])
    {
      assert recs[..i + 1][..i] == recs[..i];
      var key := (FieldOr(h, recs[i], "clinic_id", ""), FieldOr(h, recs[i], "date", ""));
      existing := existing[key := i];
      i := i + 1;
    }
    assert recs[..i] == recs;
  }

  /** The three lists the batch collects: rows to delete, ranges to rewrite, rows to append. */
  datatype BatchPlan = BatchPlan(deletes: seq<nat>, updates: seq<RangeWrite>, appends: seq<Row>)

  /** How one change is classified against `existing`. */
  function AddChange(p: BatchPlan, existing: map<(string, string), nat>, ch: Change): BatchPlan {
    var key := ChangeKey(ch);
    if key in existing then
      if ch.required == DefaultRequired then p.(deletes := p.deletes + [existing[key] + 2])
      else p.(updates := p.updates + [RangeWrite(existing[key] + 2, 1, OverrideRow(ch.clinicId, ch.date, ch.required))])
    else if ch.required != DefaultRequired then p.(appends := p.appends + [OverrideRow(ch.clinicId, ch.date, ch.required)])
    else p
  }

  /** The lists after classifying the changes in dict order. */
  function PlanOf(existing: map<(string, string), nat>, cs: seq<Change>): BatchPlan
    decreases |cs|
  {
    if cs == [] then BatchPlan([], [], [])
    else AddChange(PlanOf(existing, cs[..|cs| - 1]), existing, cs[|cs| - 1])
  }

  /** The classifying loop of `set_clinic_date_overrides_batch`. */
  method Plan(existing: map<(string, string), nat>, cs: seq<Change>) returns (p: BatchPlan)
    ensures p == PlanOf(existing, cs)
  {
    var deletes, updates, appends := [], [], [];
    var i := 0;
    while i < |cs|
      invariant 0 <= i <= |cs|
      invariant BatchPlan(deletes, updates, appends) == PlanOf(existing, cs[..i])
    {
      assert cs[..i + 1][..i] == cs[..i];
      var ch := cs[i];
      var key := (NatToString(ch.clinicId), ch.date);
      if key in existing {
        var rowNum := existing[key] + 2;
        if ch.required == DefaultRequired {
          deletes := deletes + [rowNum];
        } else {
          updates := updates + [RangeWrite(rowNum, 1, OverrideRow(ch.clinicId, ch.date, ch.required))];
        }
      } else if ch.required != DefaultRequired {
        appends := appends + [OverrideRow(ch.clinicId, ch.date, ch.required)];
      }
      i := i + 1;
    }
    assert cs[..i] == cs;
    p := BatchPlan(deletes, updates, appends);
  }

  /**
   * Each change lands in the list its case calls for: an existing key with
   * the default count is deleted, an existing key with another count is
   * rewritten in place, a new key with another count is appended, and a new
   * key with the default count is dropped.
   */
  lemma {:induction false} PlanComplete(existing: map<(string, string), nat>, cs: seq<Change>, i: nat)
    requires i < |cs|
    ensures var p, ch, key := PlanOf(existing, cs), cs[i], ChangeKey(cs[i]);
      (key in existing && ch.required == DefaultRequired ==> existing[key] + 2 in p.deletes) &&
      (key in existing && ch.required != DefaultRequired ==>
        RangeWrite(existing[key] + 2, 1, OverrideRow(ch.clinicId, ch.date, ch.required)) in p.updates) &&
      (key !in existing && ch.required != DefaultRequired ==> OverrideRow(ch.clinicId, ch.date, ch.required) in p.appends)
    decreases |cs|
  {
    var last := |cs| - 1;
    if i < last {
      PlanComplete(existing, cs[..last], i);
      assert cs[..last][i] == cs[i];
    }
  }

  /** `x` is the row number change `ch` puts on the delete list. */
  predicate DeletesFor(existing: map<(string, string), nat>, ch: Change, x: nat) {
    ChangeKey(ch) in existing && ch.required == DefaultRequired && x == existing[ChangeKey(ch)] + 2
  }

  /** `w` is the range write change `ch` puts on the update list. */
  predicate UpdatesFor(existing: map<(string, string), nat>, ch: Change, w: RangeWrite) {
    ChangeKey(ch) in existing && ch.required != DefaultRequired &&
    w == RangeWrite(existing[ChangeKey(ch)] + 2, 1, OverrideRow(ch.clinicId, ch.date, ch.required))
  }

  /** `row` is the row change `ch` puts on the append list. */
  predicate AppendsFor(existing: map<(string, string), nat>, ch: Change, row: Row) {
    ChangeKey(ch) !in existing && ch.required != DefaultRequired && row == OverrideRow(ch.clinicId, ch.date, ch.required)
  }

  /** Conversely, every entry of the three lists comes from a change of its case. */
  lemma {:induction false} PlanSound(existing: map<(string, string), nat>, cs: seq<Change>)
    ensures forall x :: x in PlanOf(existing, cs).deletes ==> exists i :: 0 <= i < |cs| && DeletesFor(existing, cs[i], x)
    ensures forall w :: w in PlanOf(existing, cs).updates ==> exists i :: 0 <= i < |cs| && UpdatesFor(existing, cs[i], w)
    ensures forall row :: row in PlanOf(existing, cs).appends ==> exists i :: 0 <= i < |cs| && AppendsFor(existing, cs[i], row)
    decreases |cs|
  {
    if cs != [] {
      var last := |cs| - 1;
      var init := cs[..last];
      PlanSound(existing, init);
      var p0, p := PlanOf(existing, init), PlanOf(existing, cs);
      forall x | x in p.deletes
        ensures exists i :: 0 <= i < |cs| && DeletesFor(existing, cs[i], x)
      {
        if x in p0.deletes {
          var i :| 0 <= i < |init| && DeletesFor(existing, init[i], x);
          assert init[i] == cs[i];
        } else {
          assert DeletesFor(existing, cs[last], x);
        }
      }
      forall w | w in p.updates
        ensures exists i :: 0 <= i < |cs| && UpdatesFor(existing, cs[i], w)
      {
        if w in p0.updates {
          var i :| 0 <= i < |init| && UpdatesFor(existing, init[i], w);
          assert init[i] == cs[i];
        } else {
          assert UpdatesFor(existing, cs[last], w);
        }
      }
      forall row | row in p.appends
        ensures exists i :: 0 <= i < |cs| && AppendsFor(existing, cs[i], row)
      {
        if row in p0.appends {
          var i :| 0 <= i < |init| && AppendsFor(existing, init[i], row);
          assert init[i] == cs[i];
        } else {
          assert AppendsFor(existing, cs[last], row);
        }
      }
    }
  }

  /** Distinct keys of `existing` name distinct records. */
  predicate InjectiveIndex(existing: map<(string, string), nat>) {
    forall k1, k2 :: k1 in existing && k2 in existing && k1 != k2 ==> existing[k1] != existing[k2]
  }

  lemma ExistingIndexInjective(h: Row, recs: seq<Row>)
    ensures InjectiveIndex(ExistingIndex(h, recs))
  {
    ExistingIndexSpec(h, recs);
  }

  /** Since the dict's keys are distinct, no row number is put on the delete list twice. */
  lemma {:induction false} PlanDeletesDistinct(existing: map<(string, string), nat>, cs: seq<Change>)
    requires DistinctChanges(cs) && InjectiveIndex(existing)
    ensures Distinct(PlanOf(existing, cs).deletes)
    decreases |cs|
  {
    if cs != [] {
      var last := |cs| - 1;
      var init := cs[..last];
      PlanDeletesDistinct(existing, init);
      PlanSound(existing, init);
      var p0 := PlanOf(existing, init);
      var ch := cs[last];
      if ChangeKey(ch) in existing && ch.required == DefaultRequired {
        var x := existing[ChangeKey(ch)] + 2;
        forall y | y in p0.deletes
          ensures y != x
        {
          var i :| 0 <= i < |init| && DeletesFor(existing, init[i], y);
          assert init[i] == cs[i];
          if ChangeKey(cs[i]) == ChangeKey(ch) {
            NatToStringInjective(cs[i].clinicId, ch.clinicId);
          }
        }
        var ds := PlanOf(existing, cs).deletes;
        assert ds == p0.deletes + [x];
        forall i, j | 0 <= i < j < |ds|
          ensures ds[i] != ds[j]
        {
          if j == |ds| - 1 {
            assert ds[i] in p0.deletes;
          }
        }
      }
    }
  }

  /** Every row the batch rewrites or deletes is a record row of the sheet. */
  lemma PlanInRange(s: Sheet, cs: seq<Change>)
    ensures forall k :: 0 <= k < |PlanOf(ExistingIndex(HeaderOf(s), Records(s)), cs).updates| ==>
      WriteInRange(|s|, PlanOf(ExistingIndex(HeaderOf(s), Records(s)), cs).updates[k]) &&
      PlanOf(ExistingIndex(HeaderOf(s), Records(s)), cs).updates[k].row >= 2
    ensures forall k :: 0 <= k < |PlanOf(ExistingIndex(HeaderOf(s), Records(s)), cs).deletes| ==>
      2 <= PlanOf(ExistingIndex(HeaderOf(s), Records(s)), cs).deletes[k] <= |s|
  {
    var existing := ExistingIndex(HeaderOf(s), Records(s));
    ExistingIndexSpec(HeaderOf(s), Records(s));
    PlanSound(existing, cs);
    var p := PlanOf(existing, cs);
    forall k | 0 <= k < |p.updates|
      ensures WriteInRange(|s|, p.updates[k]) && p.updates[k].row >= 2
    {
      assert p.updates[k] in p.updates;
    }
    forall k | 0 <= k < |p.deletes|
      ensures 2 <= p.deletes[k] <= |s|
    {
      assert p.deletes[k] in p.deletes;
    }
  }

  /**
   * The override sheet after `set_clinic_date_overrides_batch(changes)`:
   * nothing for no changes; otherwise the rewrites in one batch update, then
   * the deletions, then the appended rows.
   */
  function BatchResult(s: Sheet, cs: seq<Change>): Sheet {
    if cs == [] then s
    else
      PlanInRange(s, cs);
      var p := PlanOf(ExistingIndex(HeaderOf(s), Records(s)), cs);
      Keep(ApplyWrites(s, p.updates), Elements(p.deletes), 1) + p.appends
  }

  /** The sheet operations of a non-empty batch, on the sheet's rows. */
  method RunBatch(s: Sheet, cs: seq<Change>) returns (t: Sheet)
    requires DistinctChanges(cs) && cs != []
    ensures t == BatchResult(s, cs)
  {
    var existing := BuildExisting(HeaderOf(s), Records(s));
    var p := Plan(existing, cs);
    PlanInRange(s, cs);
    t := s;
    if p.updates != [] {
      t := ApplyWrites(s, p.updates);
    }
    ExistingIndexInjective(HeaderOf(s), Records(s));
    PlanDeletesDistinct(existing, cs);
    t := DeleteRows(t, p.deletes);
    if p.appends != [] {
      t := t + p.appends;
    }
  }

  /** `for r in sorted(rows_to_delete, reverse=True): ws.delete_rows(r)`. */
  method DeleteRows(s: Sheet, rows: seq<nat>) returns (t: Sheet)
    requires Distinct(rows) && forall k :: 0 <= k < |rows| ==> 1 <= rows[k] <= |s|
    ensures t == Keep(s, Elements(rows), 1)
  {
    var order := SortDesc(rows);
    SortDescDistinct(rows);
    forall k | 0 <= k < |order|
      ensures 1 <= order[k] <= |s|
    {
      assert order[k] in multiset(rows);
    }
    t := DeleteRowsDescending(s, order);
    assert Elements(order) == Elements(rows) by {
      assert forall x :: x in order <==> x in multiset(order);
    }
  }

  /** `set_clinic_date_overrides_batch(changes)`; it does not open the sheet when there are no changes. */
  method SetClinicDateOverridesBatch(db: Database, cs: seq<Change>)
    requires db.Valid() && DistinctChanges(cs)
    modifies db
    ensures db.Valid() && db.SessionUnchanged()
    ensures db.operational == old(db.operational) && db.operationalOrder == old(db.operationalOrder)
    ensures cs == [] ==> db.master == old(db.master)
    ensures cs != [] ==> db.master == old(db.master)[OverrideSheet := BatchResult(old(db.SheetOf(OverrideSheet)), cs)]
  {
    if cs == [] {
      return;
    }
    MasterName(OverrideSheet);
    var s := db.GetSheet(OverrideSheet);
    var t := RunBatch(s, cs);
    db.Put(OverrideSheet, t);
  }

  /** A stored record holds no default count and a canonical clinic id. */
  predicate StoredRowOk(h: Row, row: Row) {
    NotDefault(h, row) && CanonicalClinicCell(h, row)
  }

  /** Every row the batch writes, in place or appended, is a stored row of the canonical table. */
  lemma PlanRowsOk(h: Row, existing: map<(string, string), nat>, cs: seq<Change>)
    requires |h| >= 3 && h[0] == "clinic_id" && h[1] == "date" && h[2] == "required_doctors"
    ensures forall w, row :: w in PlanOf(existing, cs).updates ==> w.col >= 1 && StoredRowOk(h, WrittenRow(row, w))
    ensures forall row :: row in PlanOf(existing, cs).appends ==> StoredRowOk(h, row)
  {
    PlanSound(existing, cs);
    forall w, row | w in PlanOf(existing, cs).updates
      ensures w.col >= 1 && StoredRowOk(h, WrittenRow(row, w))
    {
      var i :| 0 <= i < |cs| && UpdatesFor(existing, cs[i], w);
      assert WrittenRow(row, w) == WriteOverride(cs[i].clinicId, cs[i].date, cs[i].required)(row);
      WrittenRowReads(h, row, cs[i].date, cs[i].clinicId, cs[i].date, cs[i].required);
    }
    forall row | row in PlanOf(existing, cs).appends
      ensures StoredRowOk(h, row)
    {
      var i :| 0 <= i < |cs| && AppendsFor(existing, cs[i], row);
      assert row == WriteOverride(cs[i].clinicId, cs[i].date, cs[i].required)([]);
      WrittenRowReads(h, [], cs[i].date, cs[i].clinicId, cs[i].date, cs[i].required);
    }
  }

  /**
   * The batch keeps the header, and like the single writer it never leaves a
   * record holding the default count or a clinic id `str` would not write.
   */
  lemma BatchKeepsStoredRows(s: Sheet, cs: seq<Change>)
    requires CanonicalOverrideHeader(s) && forall row :: row in Records(s) ==> StoredRowOk(HeaderOf(s), row)
    ensures HeaderOf(BatchResult(s, cs)) == HeaderOf(s)
    ensures forall row :: row in Records(BatchResult(s, cs)) ==> StoredRowOk(HeaderOf(s), row)
  {
    if cs != [] {
      var h := HeaderOf(s);
      var ok := row => StoredRowOk(h, row);
      var existing := ExistingIndex(h, Records(s));
      var p := PlanOf(existing, cs);
      PlanInRange(s, cs);
      PlanRowsOk(h, existing, cs);
      forall k, row | 0 <= k < |p.updates|
        ensures p.updates[k].col >= 1 && ok(WrittenRow(row, p.updates[k]))
      {
        assert p.updates[k] in p.updates;
      }
      ApplyWritesKeepsRecords(s, p.updates, ok);
      var s1 := ApplyWrites(s, p.updates);
      var d := Elements(p.deletes);
      forall k | 0 <= k < |p.deletes|
        ensures p.deletes[k] != 1
      {
      }
      assert 1 !in d;
      KeepAppendKeepsRecords(s1, d, p.appends, ok);
    }
  }

  /** Only clinic dates no record holds are appended, so appending never duplicates a key. */
  lemma BatchAppendsNewKeys(s: Sheet, cs: seq<Change>)
    requires CanonicalOverrideHeader(s)
    ensures forall row, rec :: row in PlanOf(ExistingIndex(HeaderOf(s), Records(s)), cs).appends && rec in Records(s) ==>
      OverrideKey(HeaderOf(s))(rec) != OverrideKey(HeaderOf(s))(row)
  {
    var h := HeaderOf(s);
    var existing := ExistingIndex(h, Records(s));
    OverrideColumns(h);
    PlanSound(existing, cs);
    ExistingIndexSpec(h, Records(s));
    forall row, rec | row in PlanOf(existing, cs).appends && rec in Records(s)
      ensures OverrideKey(h)(rec) != OverrideKey(h)(row)
    {
      var i :| 0 <= i < |cs| && AppendsFor(existing, cs[i], row);
      assert OverrideKey(h)(row) == ChangeKey(cs[i]);
      var j :| 0 <= j < |Records(s)| && Records(s)[j] == rec;
    }
  }
}
