/**
 * The monthly plan sheets of database/operational.py (sheets named
 * スケジュール_<year-month>): saving a plan, the search by plan id across
 * the cached sheets that confirmation, deletion and re-editing share, the
 * readers of confirmed plans, and the cleanup of old monthly sheets.
 */
module Schedules {
  import opened Wrappers
  import opened Text
  import opened Ordering
  import opened Sheets
  import opened Connection

  const SchedHeaders: Row := ["id", "plan_name", "assignments", "total_variance", "satisfaction_score", "is_confirmed", "created_at"]

  /** `f"スケジュール_{year_month}"`. */
  function SchedSheetName(ym: string): string {
    ScheduleSheetPrefix + ym
  }

  lemma SchedSheetIsOperational(ym: string)
    ensures IsOperationalSheet(SchedSheetName(ym)) && StartsWith(SchedSheetName(ym), ScheduleSheetPrefix)
  {
    IsOperationalSheetIff(SchedSheetName(ym));
    assert SchedSheetName(ym)[..|ScheduleSheetPrefix|] == ScheduleSheetPrefix;
  }

  /** A header row whose first six cells are those plan sheets are created with. */
  predicate SchedHeaderRow(h: Row) {
    |h| >= 6 && h[0] == "id" && h[1] == "plan_name" && h[2] == "assignments" && h[3] == "total_variance" &&
    h[4] == "satisfaction_score" && h[5] == "is_confirmed"
  }

  /** The header plan sheets are created with: id in A, plan name in B, the confirmation flag in F. */
  predicate CanonicalSchedHeader(s: Sheet) {
    |s| >= 1 && SchedHeaderRow(s[0])
  }

  lemma SchedColumns(h: Row)
    requires SchedHeaderRow(h)
    ensures IndexOf(h, "id") == 0 && IndexOf(h, "plan_name") == 1 && IndexOf(h, "is_confirmed") == 5
  {
  }

  // ---- Saving a plan ----

  /** The test of `save_schedule`: `r.get("plan_name") == plan_name`. */
  function PlanIs(h: Row, plan: string): Row -> bool {
    row => Field(h, row, "plan_name") == Some(plan)
  }

  /** The plan-name key of a plan record. */
  function PlanKey(h: Row): Row -> Option<string> {
    row => Field(h, row, "plan_name")
  }

  /** `[id, plan_name, json.dumps(assignments), total_variance, satisfaction_score, 0, now]`. */
  function PlanRow(idText: string, plan: string, assignText: string, variance: string, score: string, now: string): Row {
    [idText, plan, assignText, variance, score, "0", now]
  }

  /**
   * The plan sheet after `save_schedule`: the first record of the plan name
   * is rewritten from column A keeping its id (`None` where `r["id"]`
   * raises); otherwise a row with the next id is appended.
   */
  function SaveScheduleResult(s: Sheet, plan: string, assignText: string, variance: string, score: string, now: string): Option<Sheet> {
    match FirstRecord(s, PlanIs(HeaderOf(s), plan))
    case Some(n) =>
      (match Field(HeaderOf(s), s[n - 1], "id")
       case None => None
       case Some(idText) => Some(s[n - 1 := WriteAt(s[n - 1], 0, PlanRow(idText, plan, assignText, variance, score, now))]))
    case None =>
      Some(s + [PlanRow(NatToString(NextIdOf(ColValues(s, 1))), plan, assignText, variance, score, now)])
  }

  /** The update a re-saved plan's record gets: its own id cell first. */
  function RewritePlan(plan: string, assignText: string, variance: string, score: string, now: string): Row -> Row {
    row => WriteAt(row, 0, PlanRow(CellAt(row, 0), plan, assignText, variance, score, now))
  }

  /** The row a new plan is appended as: the next id, then the plan's contents. */
  function NewPlanRow(s: Sheet, plan: string, assignText: string, variance: string, score: string, now: string): Row {
    PlanRow(NatToString(NextIdOf(ColValues(s, 1))), plan, assignText, variance, score, now)
  }

  /** With the canonical header, saving is an upsert keyed on the plan name that keeps a found record's id. */
  lemma SaveIsUpsert(s: Sheet, plan: string, assignText: string, variance: string, score: string, now: string)
    requires CanonicalSchedHeader(s)
    ensures SaveScheduleResult(s, plan, assignText, variance, score, now) ==
      Some(Upsert(s, PlanIs(HeaderOf(s), plan), RewritePlan(plan, assignText, variance, score, now),
                  NewPlanRow(s, plan, assignText, variance, score, now)))
  {
    SchedColumns(HeaderOf(s));
  }

  /**
   * Saving keeps "one record per plan name" in a sheet with the canonical
   * header: afterwards the plan's one record holds the new contents and is
   * not confirmed, and the records of every other plan are as they were.
   */
  lemma SaveScheduleSpec(s: Sheet, plan: string, assignText: string, variance: string, score: string, now: string)
    requires CanonicalSchedHeader(s) && UniqueKeys(s, PlanKey(HeaderOf(s)))
    ensures SaveScheduleResult(s, plan, assignText, variance, score, now).Some?
    ensures HeaderOf(SaveScheduleResult(s, plan, assignText, variance, score, now).value) == HeaderOf(s)
    ensures UniqueKeys(SaveScheduleResult(s, plan, assignText, variance, score, now).value, PlanKey(HeaderOf(s)))
    ensures PlanRecordHolds(SaveScheduleResult(s, plan, assignText, variance, score, now).value, HeaderOf(s), plan, assignText, variance, score, now)
    ensures OthersKept(s, SaveScheduleResult(s, plan, assignText, variance, score, now).value, PlanIs(HeaderOf(s), plan))
  {
    var h := HeaderOf(s);
    SchedColumns(h);
    var p := PlanIs(h, plan);
    var update := RewritePlan(plan, assignText, variance, score, now);
    var newRow := NewPlanRow(s, plan, assignText, variance, score, now);
    forall row | p(row)
      ensures PlanKey(h)(update(row)) == Some(plan) && p(update(row))
    {
      PlanCells(row, plan, assignText, variance, score, now);
    }
    NewPlanCells(s, plan, assignText, variance, score, now);
    UpsertKeepsKeysUnique(s, PlanKey(h), Some(plan), p, update, newRow);
    UpsertWritesOnlyMatch(s, PlanKey(h), Some(plan), p, update, newRow);
    UpsertKeepsOthers(s, p, update, newRow);
    SaveIsUpsert(s, plan, assignText, variance, score, now);
    var t := Upsert(s, p, update, newRow);
    var n := UpsertRow(s, p);
    assert n <= |t| && FirstRecord(t, p) == Some(n) && LastRecord(t, p) == Some(n);
    var row := SheetRow(t, n);
    if FirstRecord(s, p).Some? {
      PlanCells(SheetRow(s, n), plan, assignText, variance, score, now);
      assert row == update(SheetRow(s, n));
    } else {
      assert row == newRow;
    }
    assert PlanRecordHolds(t, h, plan, assignText, variance, score, now);
  }

  /** The plan has one record in `t`, and it holds the plan's saved contents. */
  predicate PlanRecordHolds(t: Sheet, h: Row, plan: string, assignText: string, variance: string, score: string, now: string) {
    exists n :: 1 <= n <= |t| && FirstRecord(t, PlanIs(h, plan)) == Some(n) && LastRecord(t, PlanIs(h, plan)) == Some(n) &&
      PlanCellsHold(SheetRow(t, n), plan, assignText, variance, score, now)
  }

  /** Columns B to G of a saved plan: the name, the assignments, the variance, the score, "not confirmed" and the save time. */
  predicate PlanCellsHold(row: Row, plan: string, assignText: string, variance: string, score: string, now: string) {
    CellAt(row, 1) == plan && CellAt(row, 2) == assignText && CellAt(row, 3) == variance && CellAt(row, 4) == score &&
    CellAt(row, 5) == "0" && CellAt(row, 6) == now
  }

  /** A new plan row holds the plan's contents after its id. */
  lemma NewPlanCells(s: Sheet, plan: string, assignText: string, variance: string, score: string, now: string)
    ensures PlanCellsHold(NewPlanRow(s, plan, assignText, variance, score, now), plan, assignText, variance, score, now)
  {
    var idText := NatToString(NextIdOf(ColValues(s, 1)));
    PlanRowCells(idText, plan, assignText, variance, score, now);
  }

  lemma PlanRowCells(idText: string, plan: string, assignText: string, variance: string, score: string, now: string)
    ensures PlanCellsHold(PlanRow(idText, plan, assignText, variance, score, now), plan, assignText, variance, score, now)
  {
  }

  /** A re-saved record holds the plan's new contents after its own id. */
  lemma PlanCells(row: Row, plan: string, assignText: string, variance: string, score: string, now: string)
    ensures CellAt(RewritePlan(plan, assignText, variance, score, now)(row), 1) == plan
    ensures CellAt(RewritePlan(plan, assignText, variance, score, now)(row), 2) == assignText
    ensures CellAt(RewritePlan(plan, assignText, variance, score, now)(row), 3) == variance
    ensures CellAt(RewritePlan(plan, assignText, variance, score, now)(row), 4) == score
    ensures CellAt(RewritePlan(plan, assignText, variance, score, now)(row), 5) == "0"
    ensures CellAt(RewritePlan(plan, assignText, variance, score, now)(row), 6) == now
  {
    var vals := PlanRow(CellAt(row, 0), plan, assignText, variance, score, now);
    var r := WriteAt(row, 0, vals);
    assert CellAt(r, 1) == vals[1] && CellAt(r, 2) == vals[2] && CellAt(r, 3) == vals[3] && CellAt(r, 4) == vals[4];
    assert CellAt(r, 5) == vals[5] && CellAt(r, 6) == vals[6];
  }

  /**
   * A re-saved plan keeps its id; a new plan gets an id that no
   * digit-only id already in the sheet has.
   */
  lemma SaveScheduleIds(s: Sheet, plan: string, assignText: string, variance: string, score: string, now: string)
    requires CanonicalSchedHeader(s)
    ensures var t := SaveScheduleResult(s, plan, assignText, variance, score, now).value;
      match FirstRecord(s, PlanIs(HeaderOf(s), plan))
      case Some(n) => n <= |t| && CellAt(SheetRow(t, n), 0) == CellAt(SheetRow(s, n), 0)
      case None =>
        |t| == |s| + 1 && CellAt(SheetRow(t, |t|), 0) == NatToString(NextIdOf(ColValues(s, 1))) &&
        forall m :: 2 <= m <= |s| && IsDigits(CellAt(SheetRow(s, m), 0)) ==> CellAt(SheetRow(s, m), 0) != CellAt(SheetRow(t, |t|), 0)
  {
    SaveIsUpsert(s, plan, assignText, variance, score, now);
    NextIdIsFresh(s);
  }

  /** `save_schedule(year_month, plan_name, assignments, total_variance, satisfaction_score)`; `ok` is false where it raises. */
  method SaveSchedule(db: Database, ym: string, plan: string, assignments: PyValue, variance: string, score: string,
                      now: string, encode: PyValue -> string)
    returns (ok: bool)
    requires db.Valid()
    modifies db
    ensures db.Valid() && db.SessionUnchanged() && db.master == old(db.master)
    ensures var s := Opened(old(db.Lookup(SchedSheetName(ym))), SchedHeaders);
      var r := SaveScheduleResult(s, plan, encode(assignments), variance, score, now);
      (ok <==> r.Some?) && db.operational == old(db.operational)[SchedSheetName(ym) := r.GetOr(s)]
    ensures db.operationalOrder ==
      if old(db.Has(SchedSheetName(ym))) then old(db.operationalOrder) else old(db.operationalOrder) + [SchedSheetName(ym)]
  {
    var name := SchedSheetName(ym);
    SchedSheetIsOperational(ym);
    ghost var cached := Opened(db.Lookup(name), SchedHeaders);
    ghost var ops0 := db.operational;
    var s := db.InitMonthlySheet(name, SchedHeaders);
    assert s == cached;
    ok := WritePlan(db, name, s, plan, encode(assignments), variance, score, now);
    ghost var r := SaveScheduleResult(s, plan, encode(assignments), variance, score, now);
    UpdateTwice(ops0, name, s, r.GetOr(s));
  }

  /** The part of `save_schedule` after the sheet is opened. */
  method WritePlan(db: Database, name: string, s: Sheet, plan: string, assignText: string, variance: string, score: string, now: string)
    returns (ok: bool)
    requires db.Valid() && name in db.operational && db.operational[name] == s
    modifies db
    ensures db.Valid() && db.SessionUnchanged() && db.master == old(db.master) && db.operationalOrder == old(db.operationalOrder)
    ensures var r := SaveScheduleResult(s, plan, assignText, variance, score, now);
      (ok <==> r.Some?) && db.operational == old(db.operational)[name := r.GetOr(s)]
  {
    var h := HeaderOf(s);
    var found := FindFirstRecord(s, PlanIs(h, plan));
    match found
    case Some(n) =>
      var idText := Field(h, s[n - 1], "id");
      if idText.None? {
        assert old(db.operational)[name := s] == old(db.operational);
        return false;
      }
      db.Replace(name, s[n - 1 := WriteAt(s[n - 1], 0, PlanRow(idText.value, plan, assignText, variance, score, now))]);
      return true;
    case None =>
      var newId := NextId(s);
      db.Replace(name, s + [PlanRow(NatToString(newId), plan, assignText, variance, score, now)]);
      return true;
  }

  // ---- Finding a plan by id across the cached month sheets ----

  predicate IsScheduleSheet(name: string) {
    StartsWith(name, ScheduleSheetPrefix)
  }

  /** The test `str(r.get("id", "")) == str(schedule_id)`. */
  function IdIs(h: Row, id: nat): Row -> bool {
    row => FieldOr(h, row, "id", "") == NatToString(id)
  }

  /** The first record of plan `id` in plan sheet `s`, if any. */
  function IdRecord(s: Sheet, id: nat): Option<nat> {
    FirstRecord(s, IdIs(HeaderOf(s), id))
  }

  /**
   * The search of `confirm_schedule`, `delete_schedule` and
   * `update_schedule_assignments`: the first cached plan sheet, in cache
   * order, holding a record of plan `id`, with that record's sheet row.
   */
  function FindSchedule(ops: map<string, Sheet>, order: seq<string>, id: nat): (r: Option<(string, nat)>)
    requires forall k :: 0 <= k < |order| ==> order[k] in ops
    ensures r.Some? ==> exists k :: FirstHolding(ops, order, id, k) && order[k] == r.value.0 && IdRecord(ops[order[k]], id) == Some(r.value.1)
    ensures r.None? ==> forall k :: 0 <= k < |order| && IsScheduleSheet(order[k]) ==> IdRecord(ops[order[k]], id).None?
    decreases |order|
  {
    if order == [] then None
    else if IsScheduleSheet(order[0]) && IdRecord(ops[order[0]], id).Some? then Some((order[0], IdRecord(ops[order[0]], id).value))
    else
      var r := FindSchedule(ops, order[1..], id);
      if r.Some? then
        ghost var k :| FirstHolding(ops, order[1..], id, k) && order[1..][k] == r.value.0 && IdRecord(ops[order[1..][k]], id) == Some(r.value.1);
        FirstHoldingShift(ops, order, id, k);
        r
      else
        assert forall k :: 0 < k < |order| ==> order[1..][k - 1] == order[k];
        r
  }

  /** `order[k]` is the first plan sheet in `order` holding a record of plan `id`. */
  ghost predicate FirstHolding(ops: map<string, Sheet>, order: seq<string>, id: nat, k: int)
    requires forall k :: 0 <= k < |order| ==> order[k] in ops
  {
    0 <= k < |order| && IsScheduleSheet(order[k]) && IdRecord(ops[order[k]], id).Some? &&
    forall j :: 0 <= j < k && IsScheduleSheet(order[j]) ==> IdRecord(ops[order[j]], id).None?
  }

  /** The first such sheet after a head that is not one is the first such sheet overall. */
  lemma FirstHoldingShift(ops: map<string, Sheet>, order: seq<string>, id: nat, k: int)
    requires |order| > 0 && forall k :: 0 <= k < |order| ==> order[k] in ops
    requires !(IsScheduleSheet(order[0]) && IdRecord(ops[order[0]], id).Some?)
    requires FirstHolding(ops, order[1..], id, k)
    ensures FirstHolding(ops, order, id, k + 1) && order[k + 1] == order[1..][k]
  {
    forall j | 0 <= j < k + 1 && IsScheduleSheet(order[j])
      ensures IdRecord(ops[order[j]], id).None?
    {
      if j > 0 {
        assert order[j] == order[1..][j - 1];
      }
    }
  }

  /** The loop over `list(_ws_cache_operational.items())` with its inner record loop. */
  method FindScheduleRow(db: Database, id: nat) returns (r: Option<(string, nat)>)
    requires db.Valid()
    ensures r == FindSchedule(db.operational, db.operationalOrder, id)
  {
    var order := db.operationalOrder;
    var i := 0;
    while i < |order|
      invariant 0 <= i <= |order|
      invariant FindSchedule(db.operational, order, id) == FindSchedule(db.operational, order[i..], id)
    {
      var name := order[i];
      if IsScheduleSheet(name) {
        var s := db.operational[name];
        var n := FindFirstRecord(s, IdIs(HeaderOf(s), id));
        if n.Some? {
          return Some((name, n.value));
        }
      }
      assert order[i..][1..] == order[i + 1..];
      i := i + 1;
    }
    return None;
  }

  // ---- Confirming a plan ----

  /**
   * `ws.update(values, "F2:F<len+1>")` with `values[i] = [1]` and `[0]`
   * elsewhere: column F of every record is rewritten, "1" in sheet row `n`
   * and "0" in all others.
   */
  function ConfirmColumn(s: Sheet, n: nat): (r: Sheet)
    ensures |r| == |s| && (|s| > 0 ==> r[0] == s[0])
    ensures forall m :: 2 <= m <= |s| ==>
      CellAt(SheetRow(r, m), 5) == (if m == n then "1" else "0") &&
      forall k: nat :: k != 5 ==> CellAt(SheetRow(r, m), k) == CellAt(SheetRow(s, m), k)
  {
    if |s| == 0 then s
    else [s[0]] + seq(|s| - 1, i requires 0 <= i < |s| - 1 => WriteAt(s[i + 1], 5, [if i + 2 == n then "1" else "0"]))
  }

  /** `int(r.get("is_confirmed", 0))` as a truth value; `None` where `int` raises. */
  function ConfirmedFlag(h: Row, row: Row): Option<bool> {
    match Field(h, row, "is_confirmed")
    case None => Some(false)
    case Some(t) =>
      match ParseNat(t)
      case None => None
      case Some(v) => Some(v != 0)
  }

  /**
   * In a plan sheet with the canonical header, after the column is rewritten
   * every record reads as confirmed exactly when it is record `n`.
   */
  lemma ConfirmColumnOne(s: Sheet, n: nat)
    requires CanonicalSchedHeader(s)
    ensures HeaderOf(ConfirmColumn(s, n)) == HeaderOf(s)
    ensures forall m :: 2 <= m <= |s| ==> ConfirmedFlag(HeaderOf(s), SheetRow(ConfirmColumn(s, n), m)) == Some(m == n)
  {
    SchedColumns(HeaderOf(s));
    assert DigitsValue("1") == 1 && DigitsValue("0") == 0 by {
      assert "1"[..0] == "" && "0"[..0] == "";
    }
  }

  /** The cached sheets after `confirm_schedule(schedule_id)` as written. */
  function ConfirmScheduleResult(ops: map<string, Sheet>, order: seq<string>, id: nat): map<string, Sheet>
    requires forall k :: 0 <= k < |order| ==> order[k] in ops
  {
    match FindSchedule(ops, order, id)
    case None => ops
    case Some((name, n)) => ops[name := ConfirmColumn(ops[name], n)]
  }

  /**
   * `confirm_schedule` as written: in the first plan sheet holding the id,
   * that record becomes the one confirmed plan; every other sheet is left
   * alone, and nothing changes when no sheet holds the id.
   */
  lemma ConfirmScheduleSpec(ops: map<string, Sheet>, order: seq<string>, id: nat)
    requires forall k :: 0 <= k < |order| ==> order[k] in ops
    ensures FindSchedule(ops, order, id).None? ==> ConfirmScheduleResult(ops, order, id) == ops
    ensures FindSchedule(ops, order, id).Some? ==>
      var (name, n) := FindSchedule(ops, order, id).value;
      var t := ConfirmScheduleResult(ops, order, id);
      t.Keys == ops.Keys && (forall other :: other in ops && other != name ==> t[other] == ops[other]) &&
      (CanonicalSchedHeader(ops[name]) ==>
        forall m :: 2 <= m <= |ops[name]| ==> ConfirmedFlag(HeaderOf(ops[name]), SheetRow(t[name], m)) == Some(m == n))
  {
    if FindSchedule(ops, order, id).Some? {
      var (name, n) := FindSchedule(ops, order, id).value;
      if CanonicalSchedHeader(ops[name]) {
        ConfirmColumnOne(ops[name], n);
      }
    }
  }

  /** `confirm_schedule(schedule_id)` as written. */
  method ConfirmSchedule(db: Database, id: nat)
    requires db.Valid()
    modifies db
    ensures db.Valid() && db.SessionUnchanged()
    ensures db.master == old(db.master) && db.operationalOrder == old(db.operationalOrder)
    ensures db.operational == ConfirmScheduleResult(old(db.operational), old(db.operationalOrder), id)
  {
    var found := FindScheduleRow(db, id);
    if found.Some? {
      var (name, n) := found.value;
      db.Replace(name, ConfirmColumn(db.operational[name], n));
    }
  }

  /** The cached sheets after confirming plan `id` of month `ym` only. */
  function ConfirmScheduleInResult(ops: map<string, Sheet>, ym: string, id: nat): map<string, Sheet> {
    var name := SchedSheetName(ym);
    if name !in ops then ops
    else
      match IdRecord(ops[name], id)
      case None => ops
      case Some(n) => ops[name := ConfirmColumn(ops[name], n)]
  }

  /**
   * Confirmation restricted to the plan's own month: afterwards the month
   * has exactly one confirmed plan, plan `id`, and no other month changes.
   */
  lemma ConfirmScheduleInSpec(ops: map<string, Sheet>, ym: string, id: nat)
    ensures var name := SchedSheetName(ym);
      var t := ConfirmScheduleInResult(ops, ym, id);
      t.Keys == ops.Keys && (forall other :: other in ops && other != name ==> t[other] == ops[other]) &&
      (name in ops && IdRecord(ops[name], id).Some? && CanonicalSchedHeader(ops[name]) ==>
        forall m :: 2 <= m <= |ops[name]| ==>
          ConfirmedFlag(HeaderOf(ops[name]), SheetRow(t[name], m)) == Some(m == IdRecord(ops[name], id).value))
    ensures SchedSheetName(ym) !in ops || IdRecord(ops[SchedSheetName(ym)], id).None? ==> ConfirmScheduleInResult(ops, ym, id) == ops
  {
    var name := SchedSheetName(ym);
    if name in ops && IdRecord(ops[name], id).Some? && CanonicalSchedHeader(ops[name]) {
      ConfirmColumnOne(ops[name], IdRecord(ops[name], id).value);
    }
  }

  /** `confirm_schedule(schedule_id)` for plan `id` of month `ym`. */
  method ConfirmScheduleIn(db: Database, ym: string, id: nat)
    requires db.Valid()
    modifies db
    ensures db.Valid() && db.SessionUnchanged()
    ensures db.master == old(db.master) && db.operationalOrder == old(db.operationalOrder)
    ensures db.operational == ConfirmScheduleInResult(old(db.operational), ym, id)
  {
    var name := SchedSheetName(ym);
    if name in db.operational {
      var s := db.operational[name];
      var n := FindFirstRecord(s, IdIs(HeaderOf(s), id));
      if n.Some? {
        db.Replace(name, ConfirmColumn(s, n.value));
      }
    }
  }

  /** A plan sheet holding one unconfirmed plan with id 1. */
  function OnePlanSheet(plan: string): Sheet {
    [SchedHeaders, ["1", plan, "{}", "0", "0", "0", "2025-01-01 00:00:00"]]
  }

  lemma OnePlanSheetFacts(plan: string)
    ensures CanonicalSchedHeader(OnePlanSheet(plan))
    ensures IdRecord(OnePlanSheet(plan), 1) == Some(2)
    ensures ConfirmedFlag(SchedHeaders, SheetRow(OnePlanSheet(plan), 2)) == Some(false)
  {
    var s := OnePlanSheet(plan);
    SchedColumns(SchedHeaders);
    assert NatToString(1) == "1";
    assert IdIs(SchedHeaders, 1)(s[1]);
    assert DigitsValue("0") == 0 by {
      assert "0"[..0] == "";
    }
  }

  lemma MonthSheetsDiffer()
    ensures SchedSheetName("2025-01") != SchedSheetName("2025-02")
  {
    var jan, feb := SchedSheetName("2025-01"), SchedSheetName("2025-02");
    assert jan[|ScheduleSheetPrefix| + 6] != feb[|ScheduleSheetPrefix| + 6];
  }

  /**
   * Plan ids are handed out per month sheet, so two months can both hold a
   * plan 1. With January's sheet first in the cache, confirming February's
   * plan 1 confirms January's instead and leaves February with no confirmed
   * plan; confirming within February gives February its one confirmed plan.
   */
  lemma ConfirmScheduleCrossesMonths()
    ensures var jan, feb := SchedSheetName("2025-01"), SchedSheetName("2025-02");
      var ops := map[jan := OnePlanSheet("A"), feb := OnePlanSheet("B")];
      var asWritten := ConfirmScheduleResult(ops, [jan, feb], 1);
      var intended := ConfirmScheduleInResult(ops, "2025-02", 1);
      asWritten[feb] == ops[feb] && ConfirmedFlag(SchedHeaders, SheetRow(asWritten[feb], 2)) == Some(false) &&
      ConfirmedFlag(SchedHeaders, SheetRow(asWritten[jan], 2)) == Some(true) &&
      ConfirmedFlag(SchedHeaders, SheetRow(intended[feb], 2)) == Some(true) && intended[jan] == ops[jan]
  {
    var jan, feb := SchedSheetName("2025-01"), SchedSheetName("2025-02");
    var sa, sb := OnePlanSheet("A"), OnePlanSheet("B");
    var ops := map[jan := sa, feb := sb];
    MonthSheetsDiffer();
    SchedSheetIsOperational("2025-01");
    OnePlanSheetFacts("A");
    OnePlanSheetFacts("B");
    assert FindSchedule(ops, [jan, feb], 1) == Some((jan, 2));
    ConfirmScheduleSpec(ops, [jan, feb], 1);
    ConfirmScheduleInSpec(ops, "2025-02", 1);
  }

  // ---- Deleting and re-editing a plan ----

  /** The cached sheets after `delete_schedule(schedule_id)`. */
  function DeleteScheduleResult(ops: map<string, Sheet>, order: seq<string>, id: nat): map<string, Sheet>
    requires forall k :: 0 <= k < |order| ==> order[k] in ops
  {
    match FindSchedule(ops, order, id)
    case None => ops
    case Some((name, n)) => ops[name := DeleteRow(ops[name], n)]
  }

  /**
   * `delete_schedule` removes the first record of the id from the first
   * plan sheet holding it: the records above keep their rows, those below
   * move up by one, and every other sheet is left alone.
   */
  lemma DeleteScheduleSpec(ops: map<string, Sheet>, order: seq<string>, id: nat)
    requires forall k :: 0 <= k < |order| ==> order[k] in ops
    ensures FindSchedule(ops, order, id).None? ==> DeleteScheduleResult(ops, order, id) == ops
    ensures FindSchedule(ops, order, id).Some? ==>
      var (name, n) := FindSchedule(ops, order, id).value;
      var t := DeleteScheduleResult(ops, order, id);
      t.Keys == ops.Keys && (forall other :: other in ops && other != name ==> t[other] == ops[other]) &&
      |t[name]| == |ops[name]| - 1 &&
      (forall m :: 1 <= m < n ==> SheetRow(t[name], m) == SheetRow(ops[name], m)) &&
      (forall m :: n <= m < |ops[name]| ==> SheetRow(t[name], m) == SheetRow(ops[name], m + 1))
  {
    if FindSchedule(ops, order, id).Some? {
      var (name, n) := FindSchedule(ops, order, id).value;
      DeleteRowRows(ops[name], n);
    }
  }

  /** `delete_schedule(schedule_id)`. */
  method DeleteSchedule(db: Database, id: nat)
    requires db.Valid()
    modifies db
    ensures db.Valid() && db.SessionUnchanged()
    ensures db.master == old(db.master) && db.operationalOrder == old(db.operationalOrder)
    ensures db.operational == DeleteScheduleResult(old(db.operational), old(db.operationalOrder), id)
  {
    var found := FindScheduleRow(db, id);
    if found.Some? {
      var (name, n) := found.value;
      db.Replace(name, DeleteRow(db.operational[name], n));
    }
  }

  /** The two single-cell writes: the assignments in column C and the time in column G of row `n`. */
  function AssignmentWrites(n: nat, assignText: string, now: string): seq<RangeWrite> {
    [RangeWrite(n, 3, [assignText]), RangeWrite(n, 7, [now])]
  }

  /** The cached sheets after `update_schedule_assignments(schedule_id, assignments)`. */
  function UpdateAssignmentsResult(ops: map<string, Sheet>, order: seq<string>, id: nat, assignText: string, now: string): map<string, Sheet>
    requires forall k :: 0 <= k < |order| ==> order[k] in ops
  {
    match FindSchedule(ops, order, id)
    case None => ops
    case Some((name, n)) => ops[name := ApplyWrites(ops[name], AssignmentWrites(n, assignText, now))]
  }

  /**
   * Re-editing a plan changes only two cells, the assignments (column C)
   * and the time (column G) of the plan's record; every other cell, row and
   * sheet keeps its contents.
   */
  lemma UpdateAssignmentsSpec(ops: map<string, Sheet>, order: seq<string>, id: nat, assignText: string, now: string)
    requires forall k :: 0 <= k < |order| ==> order[k] in ops
    ensures FindSchedule(ops, order, id).None? ==> UpdateAssignmentsResult(ops, order, id, assignText, now) == ops
    ensures FindSchedule(ops, order, id).Some? ==>
      var (name, n) := FindSchedule(ops, order, id).value;
      var t := UpdateAssignmentsResult(ops, order, id, assignText, now);
      t.Keys == ops.Keys && (forall other :: other in ops && other != name ==> t[other] == ops[other]) &&
      |t[name]| == |ops[name]| &&
      (forall m :: 1 <= m <= |ops[name]| && m != n ==> SheetRow(t[name], m) == SheetRow(ops[name], m)) &&
      CellAt(SheetRow(t[name], n), 2) == assignText && CellAt(SheetRow(t[name], n), 6) == now &&
      (forall k: nat :: k != 2 && k != 6 ==> CellAt(SheetRow(t[name], n), k) == CellAt(SheetRow(ops[name], n), k))
  {
    if FindSchedule(ops, order, id).Some? {
      var (name, n) := FindSchedule(ops, order, id).value;
      var w := AssignmentWrites(n, assignText, now);
      ApplyWritesRow(ops[name], w, n);
      assert w[..1][..0] == [];
      assert w[..1] == [w[0]];
      assert LastWriteTo(w, n, 3) == Some(assignText);
      assert LastWriteTo(w, n, 7) == Some(now);
      forall col: nat | col != 3 && col != 7
        ensures LastWriteTo(w, n, col) == None
      {
        assert w[..|w| - 1] == [w[0]];
        assert LastWriteTo(w, n, col) == LastWriteTo([w[0]], n, col);
        assert [w[0]][..0] == [];
        assert LastWriteTo([w[0]], n, col) == LastWriteTo([], n, col);
      }
    }
  }

  /** `update_schedule_assignments(schedule_id, assignments)`. */
  method UpdateScheduleAssignments(db: Database, id: nat, assignments: PyValue, now: string, encode: PyValue -> string)
    requires db.Valid()
    modifies db
    ensures db.Valid() && db.SessionUnchanged()
    ensures db.master == old(db.master) && db.operationalOrder == old(db.operationalOrder)
    ensures db.operational == UpdateAssignmentsResult(old(db.operational), old(db.operationalOrder), id, encode(assignments), now)
  {
    var found := FindScheduleRow(db, id);
    if found.Some? {
      var (name, n) := found.value;
      db.Replace(name, ApplyWrites(db.operational[name], AssignmentWrites(n, encode(assignments), now)));
    }
  }

  // ---- Reading confirmed plans ----

  /** A confirmed plan as `get_all_confirmed_schedules` hands it back: the record with its id, month and decoded assignments. */
  datatype ConfirmedSchedule = ConfirmedSchedule(id: nat, yearMonth: string, assignments: PyValue, raw: Row)

  /** The month of plan sheet `name`: `ws_name.replace("スケジュール_", "")`. */
  function SchedMonth(name: string): string {
    RemoveAll(name, ScheduleSheetPrefix)
  }

  /** The conversion of a confirmed record of month `ym`; `None` where `int(r["id"])` raises. */
  function ConfirmedEntry(h: Row, row: Row, ym: string, decode: string -> Option<PyValue>): Option<ConfirmedSchedule> {
    match Field(h, row, "id")
    case None => None
    case Some(t) =>
      match ParseNat(t)
      case None => None
      case Some(id) => Some(ConfirmedSchedule(id, ym, SafeJsonLoads(CellValue(h, row, "assignments"), PyNone, decode), row))
  }

  /** A record on which the reader raises: its flag does not parse, or it is confirmed and its id does not. */
  predicate RecordFails(h: Row, row: Row, ym: string, decode: string -> Option<PyValue>) {
    ConfirmedFlag(h, row).None? || (ConfirmedFlag(h, row) == Some(true) && ConfirmedEntry(h, row, ym, decode).None?)
  }

  /** The record `row` of month `ym` is confirmed and converts to `c`. */
  predicate ConfirmedAs(h: Row, row: Row, ym: string, decode: string -> Option<PyValue>, c: ConfirmedSchedule) {
    ConfirmedFlag(h, row) == Some(true) && ConfirmedEntry(h, row, ym, decode) == Some(c)
  }

  /** The confirmed plans among records `recs` of one sheet, in record order; `None` where a conversion raises. */
  function ConfirmedIn(h: Row, recs: seq<Row>, ym: string, decode: string -> Option<PyValue>): Option<seq<ConfirmedSchedule>>
    decreases |recs|
  {
    if recs == [] then Some([])
    else
      match ConfirmedIn(h, recs[..|recs| - 1], ym, decode)
      case None => None
      case Some(cs) =>
        var row := recs[|recs| - 1];
        match ConfirmedFlag(h, row)
        case None => None
        case Some(confirmed) =>
          if !confirmed then Some(cs)
          else
            match ConfirmedEntry(h, row, ym, decode)
            case None => None
            case Some(c) => Some(cs + [c])
  }

  /**
   * One sheet's part of the reader raises exactly when some record fails;
   * otherwise it holds exactly the confirmed records, converted.
   */
  lemma {:induction false} ConfirmedInSpec(h: Row, recs: seq<Row>, ym: string, decode: string -> Option<PyValue>)
    ensures ConfirmedIn(h, recs, ym, decode).None? <==> exists row :: row in recs && RecordFails(h, row, ym, decode)
    ensures ConfirmedIn(h, recs, ym, decode).Some? ==>
      forall c :: c in ConfirmedIn(h, recs, ym, decode).value <==> exists row :: row in recs && ConfirmedAs(h, row, ym, decode, c)
    decreases |recs|
  {
    if recs != [] {
      var init, last := recs[..|recs| - 1], recs[|recs| - 1];
      assert recs == init + [last];
      assert forall row :: row in recs <==> row in init || row == last;
      ConfirmedInSpec(h, init, ym, decode);
      match ConfirmedIn(h, init, ym, decode)
      case None =>
        var row :| row in init && RecordFails(h, row, ym, decode);
        assert row in recs;
      case Some(cs) =>
        if !RecordFails(h, last, ym, decode) {
          var r := ConfirmedIn(h, recs, ym, decode).value;
          forall c
            ensures c in r <==> exists row :: row in recs && ConfirmedAs(h, row, ym, decode, c)
          {
            if ConfirmedAs(h, last, ym, decode, c) {
              assert c in r;
            }
            if c in cs {
              var row :| row in init && ConfirmedAs(h, row, ym, decode, c);
              assert row in recs;
            }
          }
        }
    }
  }

  /** Loop over the records of one sheet, the inner loop of `get_all_confirmed_schedules`. */
  method ConfirmedOfSheet(h: Row, recs: seq<Row>, ym: string, decode: string -> Option<PyValue>) returns (r: Option<seq<ConfirmedSchedule>>)
    ensures r == ConfirmedIn(h, recs, ym, decode)
  {
    var cs := [];
    var j := 0;
    while j < |recs|
      invariant 0 <= j <= |recs|
      invariant ConfirmedIn(h, recs[..j], ym, decode) == Some(cs)
    {
      assert recs[..j + 1][..j] == recs[..j];
      var flag := ConfirmedFlag(h, recs[j]);
      if flag.None? {
        FailurePersists(h, recs, j + 1, ym, decode);
        return None;
      }
      if flag.value {
        var c := ConfirmedEntry(h, recs[j], ym, decode);
        if c.None? {
          FailurePersists(h, recs, j + 1, ym, decode);
          return None;
        }
        cs := cs + [c.value];
      }
      j := j + 1;
    }
    assert recs[..j] == recs;
    return Some(cs);
  }

  /** Once a prefix of the records fails, all of them do. */
  lemma FailurePersists(h: Row, recs: seq<Row>, j: nat, ym: string, decode: string -> Option<PyValue>)
    requires j <= |recs| && ConfirmedIn(h, recs[..j], ym, decode).None?
    ensures ConfirmedIn(h, recs, ym, decode).None?
  {
    ConfirmedInSpec(h, recs[..j], ym, decode);
    ConfirmedInSpec(h, recs, ym, decode);
    var row :| row in recs[..j] && RecordFails(h, row, ym, decode);
    assert row in recs;
  }

  /** The confirmed plans of every plan sheet, sheets in cache order; `None` where a conversion raises. */
  function ConfirmedAll(ops: map<string, Sheet>, order: seq<string>, decode: string -> Option<PyValue>): Option<seq<ConfirmedSchedule>>
    requires forall n :: n in order ==> n in ops
    decreases |order|
  {
    if order == [] then Some([])
    else
      match ConfirmedAll(ops, order[..|order| - 1], decode)
      case None => None
      case Some(cs) =>
        var name := order[|order| - 1];
        if !IsScheduleSheet(name) then Some(cs)
        else
          match ConfirmedIn(HeaderOf(ops[name]), Records(ops[name]), SchedMonth(name), decode)
          case None => None
          case Some(more) => Some(cs + more)
  }

  /** Plan sheet `name` holds a record on which the reader raises. */
  predicate SheetFails(ops: map<string, Sheet>, name: string, decode: string -> Option<PyValue>)
    requires name in ops
  {
    IsScheduleSheet(name) && ConfirmedIn(HeaderOf(ops[name]), Records(ops[name]), SchedMonth(name), decode).None?
  }

  /** Plan sheet `name` holds a record that is confirmed and converts to `c`. */
  predicate SheetConfirms(ops: map<string, Sheet>, name: string, decode: string -> Option<PyValue>, c: ConfirmedSchedule)
    requires name in ops
  {
    IsScheduleSheet(name) && exists row :: row in Records(ops[name]) && ConfirmedAs(HeaderOf(ops[name]), row, SchedMonth(name), decode, c)
  }

  /** Across the sheets, the reader raises exactly when some plan sheet does; otherwise it holds exactly their confirmed records. */
  lemma {:induction false} ConfirmedAllSpec(ops: map<string, Sheet>, order: seq<string>, decode: string -> Option<PyValue>)
    requires forall n :: n in order ==> n in ops
    ensures ConfirmedAll(ops, order, decode).None? <==> exists n :: n in order && SheetFails(ops, n, decode)
    ensures ConfirmedAll(ops, order, decode).Some? ==>
      forall c :: c in ConfirmedAll(ops, order, decode).value <==> exists n :: n in order && SheetConfirms(ops, n, decode, c)
    decreases |order|
  {
    if order != [] {
      var init, name := order[..|order| - 1], order[|order| - 1];
      assert order == init + [name];
      assert forall n :: n in order <==> n in init || n == name;
      ConfirmedAllSpec(ops, init, decode);
      match ConfirmedAll(ops, init, decode)
      case None =>
        var n :| n in init && SheetFails(ops, n, decode);
        assert n in order;
      case Some(cs) =>
        if !SheetFails(ops, name, decode) {
          if IsScheduleSheet(name) {
            ConfirmedInSpec(HeaderOf(ops[name]), Records(ops[name]), SchedMonth(name), decode);
          }
          var r := ConfirmedAll(ops, order, decode).value;
          forall c
            ensures c in r <==> exists n :: n in order && SheetConfirms(ops, n, decode, c)
          {
            if c in cs {
              var n :| n in init && SheetConfirms(ops, n, decode, c);
              assert n in order;
            }
            if SheetConfirms(ops, name, decode, c) {
              assert c in r;
            }
          }
        }
    }
  }

  /** What `get_all_confirmed_schedules` returns, with `None` where it raises. */
  function AllConfirmedResult(ops: map<string, Sheet>, order: seq<string>, decode: string -> Option<PyValue>): Option<seq<ConfirmedSchedule>>
    requires forall n :: n in order ==> n in ops
  {
    match ConfirmedAll(ops, order, decode)
    case None => None
    case Some(cs) => Some(SortBy(cs, MonthKey))
  }

  /** `key=lambda x: x.get("year_month", "")`. */
  function MonthKey(c: ConfirmedSchedule): string {
    c.yearMonth
  }

  /**
   * `get_all_confirmed_schedules` returns only confirmed plans and all of
   * them, each with the month of its sheet, sorted by month ascending. It
   * raises exactly when a plan sheet holds a record that does not convert.
   */
  lemma AllConfirmedSpec(ops: map<string, Sheet>, order: seq<string>, decode: string -> Option<PyValue>)
    requires forall n :: n in order ==> n in ops
    ensures AllConfirmedResult(ops, order, decode).None? <==> exists n :: n in order && SheetFails(ops, n, decode)
    ensures AllConfirmedResult(ops, order, decode).Some? ==>
      var r := AllConfirmedResult(ops, order, decode).value;
      SortedBy(r, MonthKey) &&
      forall c :: c in r <==> exists n :: n in order && SheetConfirms(ops, n, decode, c)
    ensures forall n, c :: n in order && SheetConfirms(ops, n, decode, c) ==> c.yearMonth == SchedMonth(n)
  {
    ConfirmedAllSpec(ops, order, decode);
    if AllConfirmedResult(ops, order, decode).Some? {
      var cs := ConfirmedAll(ops, order, decode).value;
      var r := SortBy(cs, MonthKey);
      forall c
        ensures c in r <==> c in cs
      {
        assert c in r <==> c in multiset(r);
      }
    }
  }

  /** `get_all_confirmed_schedules()`: the loop over the cached sheets, then the sort. */
  method GetAllConfirmedSchedules(db: Database, decode: string -> Option<PyValue>) returns (r: Option<seq<ConfirmedSchedule>>)
    requires db.Valid()
    ensures r == AllConfirmedResult(db.operational, db.operationalOrder, decode)
  {
    var order := db.operationalOrder;
    var cs := [];
    var i := 0;
    while i < |order|
      invariant 0 <= i <= |order|
      invariant ConfirmedAll(db.operational, order[..i], decode) == Some(cs)
    {
      assert order[..i + 1][..i] == order[..i];
      var name := order[i];
      if IsScheduleSheet(name) {
        var s := db.operational[name];
        var more := ConfirmedOfSheet(HeaderOf(s), Records(s), SchedMonth(name), decode);
        if more.None? {
          SheetFailurePersists(db.operational, order, i + 1, decode);
          return None;
        }
        cs := cs + more.value;
      }
      i := i + 1;
    }
    assert order[..i] == order;
    return Some(SortBy(cs, MonthKey));
  }

  lemma SheetFailurePersists(ops: map<string, Sheet>, order: seq<string>, i: nat, decode: string -> Option<PyValue>)
    requires forall n :: n in order ==> n in ops
    requires i <= |order| && ConfirmedAll(ops, order[..i], decode).None?
    ensures ConfirmedAll(ops, order, decode).None?
  {
    ConfirmedAllSpec(ops, order[..i], decode);
    ConfirmedAllSpec(ops, order, decode);
    var n :| n in order[..i] && SheetFails(ops, n, decode);
    assert n in order;
  }

  // ---- Months with a confirmed plan ----

  /** No flag among the first `k` records fails to parse or is set. */
  predicate UnconfirmedBefore(h: Row, recs: seq<Row>, k: nat)
    requires k <= |recs|
  {
    forall j :: 0 <= j < k ==> ConfirmedFlag(h, recs[j]) == Some(false)
  }

  /**
   * The scan `for r in records: if int(r.get("is_confirmed", 0)): ... break`:
   * whether some record is confirmed, `None` where a flag before the first
   * confirmed one does not parse.
   */
  function HasConfirmed(h: Row, recs: seq<Row>): Option<bool>
    decreases |recs|
  {
    if recs == [] then Some(false)
    else
      match ConfirmedFlag(h, recs[0])
      case None => None
      case Some(confirmed) => if confirmed then Some(true) else HasConfirmed(h, recs[1..])
  }

  /** The scan's answer is decided by the first record whose flag is not a parsable zero. */
  lemma {:induction false} HasConfirmedAt(h: Row, recs: seq<Row>, k: nat)
    requires k <= |recs| && UnconfirmedBefore(h, recs, k)
    ensures HasConfirmed(h, recs) == HasConfirmed(h, recs[k..])
    decreases k
  {
    if k > 0 {
      assert ConfirmedFlag(h, recs[0]) == Some(false);
      assert UnconfirmedBefore(h, recs[1..], k - 1) by {
        forall j | 0 <= j < k - 1
          ensures ConfirmedFlag(h, recs[1..][j]) == Some(false)
        {
          assert recs[1..][j] == recs[j + 1];
        }
      }
      HasConfirmedAt(h, recs[1..], k - 1);
      assert recs[1..][k - 1..] == recs[k..];
    }
  }

  /** The index of the first record whose flag is not a parsable zero, if any. */
  function FirstFlagged(h: Row, recs: seq<Row>): (k: nat)
    ensures k <= |recs| && UnconfirmedBefore(h, recs, k)
    ensures k < |recs| ==> ConfirmedFlag(h, recs[k]) != Some(false)
    decreases |recs|
  {
    if recs == [] || ConfirmedFlag(h, recs[0]) != Some(false) then 0
    else
      var k := 1 + FirstFlagged(h, recs[1..]);
      assert forall j :: 1 <= j < k ==> recs[j] == recs[1..][j - 1];
      k
  }

  /**
   * The scan finds a confirmed record exactly when there is one before any
   * flag that does not parse; it raises exactly at an unparsable flag
   * before any confirmed one; it answers no exactly when every flag is a
   * parsable zero.
   */
  lemma HasConfirmedSpec(h: Row, recs: seq<Row>)
    ensures HasConfirmed(h, recs) == Some(true) <==>
      exists k :: 0 <= k < |recs| && ConfirmedFlag(h, recs[k]) == Some(true) && UnconfirmedBefore(h, recs, k)
    ensures HasConfirmed(h, recs).None? <==>
      exists k :: 0 <= k < |recs| && ConfirmedFlag(h, recs[k]).None? && UnconfirmedBefore(h, recs, k)
    ensures HasConfirmed(h, recs) == Some(false) <==> UnconfirmedBefore(h, recs, |recs|)
  {
    var f := FirstFlagged(h, recs);
    HasConfirmedAt(h, recs, f);
    if f == |recs| {
      assert recs[f..] == [];
    } else {
      assert recs[f..][0] == recs[f];
    }
  }

  /** The months of the plan sheets with a confirmed plan, sheets in cache order; `None` where the scan raises. */
  function MonthsOf(ops: map<string, Sheet>, order: seq<string>): Option<seq<string>>
    requires forall n :: n in order ==> n in ops
    decreases |order|
  {
    if order == [] then Some([])
    else
      match MonthsOf(ops, order[..|order| - 1])
      case None => None
      case Some(ms) =>
        var name := order[|order| - 1];
        if !IsScheduleSheet(name) then Some(ms)
        else
          match HasConfirmed(HeaderOf(ops[name]), Records(ops[name]))
          case None => None
          case Some(confirmed) => if confirmed then Some(ms + [SchedMonth(name)]) else Some(ms)
  }

  /** Plan sheet `name` has a confirmed plan, found by the scan. */
  predicate MonthConfirmed(ops: map<string, Sheet>, name: string)
    requires name in ops
  {
    IsScheduleSheet(name) && HasConfirmed(HeaderOf(ops[name]), Records(ops[name])) == Some(true)
  }

  /** The scan of plan sheet `name` raises. */
  predicate MonthFails(ops: map<string, Sheet>, name: string)
    requires name in ops
  {
    IsScheduleSheet(name) && HasConfirmed(HeaderOf(ops[name]), Records(ops[name])).None?
  }

  /** Every plan sheet's name is the prefix followed by a month that does not itself contain the prefix. */
  ghost predicate MonthsWellNamed(order: seq<string>) {
    forall n :: n in order && IsScheduleSheet(n) ==> !Contains(n[|ScheduleSheetPrefix|..], ScheduleSheetPrefix)
  }

  /** Different well-named plan sheets have different months. */
  lemma MonthNameInjective(a: string, b: string)
    requires IsScheduleSheet(a) && IsScheduleSheet(b)
    requires !Contains(a[|ScheduleSheetPrefix|..], ScheduleSheetPrefix) && !Contains(b[|ScheduleSheetPrefix|..], ScheduleSheetPrefix)
    requires SchedMonth(a) == SchedMonth(b)
    ensures a == b
  {
    var p := ScheduleSheetPrefix;
    assert a == p + a[|p|..] && b == p + b[|p|..];
    RemoveAllPrefix(p, a[|p|..]);
    RemoveAllPrefix(p, b[|p|..]);
  }

  /**
   * The collected months are those of the plan sheets with a confirmed
   * plan; with distinct sheet names whose month parts do not repeat the
   * prefix, each month is collected once.
   */
  lemma {:induction false} MonthsOfSpec(ops: map<string, Sheet>, order: seq<string>)
    requires forall n :: n in order ==> n in ops
    ensures MonthsOf(ops, order).None? <==> exists n :: n in order && MonthFails(ops, n)
    ensures MonthsOf(ops, order).Some? ==>
      forall m :: m in MonthsOf(ops, order).value <==> exists n :: n in order && MonthConfirmed(ops, n) && SchedMonth(n) == m
    ensures MonthsOf(ops, order).Some? && Distinct(order) && MonthsWellNamed(order) ==> Distinct(MonthsOf(ops, order).value)
    decreases |order|
  {
    if order != [] {
      var init, name := order[..|order| - 1], order[|order| - 1];
      assert order == init + [name];
      assert forall n :: n in order <==> n in init || n == name;
      MonthsOfSpec(ops, init);
      match MonthsOf(ops, init)
      case None =>
        var n :| n in init && MonthFails(ops, n);
        assert n in order;
      case Some(ms) =>
        if !MonthFails(ops, name) {
          var r := MonthsOf(ops, order).value;
          forall m
            ensures m in r <==> exists n :: n in order && MonthConfirmed(ops, n) && SchedMonth(n) == m
          {
            if m in ms {
              var n :| n in init && MonthConfirmed(ops, n) && SchedMonth(n) == m;
              assert n in order;
            }
            if MonthConfirmed(ops, name) && SchedMonth(name) == m {
              assert m in r;
            }
          }
          if Distinct(order) && MonthsWellNamed(order) {
            MonthsOfDistinctStep(ops, order, ms);
          }
        }
    }
  }

  /** The step of `MonthsOfSpec` that adds the last sheet's month without repeating one. */
  lemma MonthsOfDistinctStep(ops: map<string, Sheet>, order: seq<string>, ms: seq<string>)
    requires forall n :: n in order ==> n in ops
    requires order != [] && Distinct(order) && MonthsWellNamed(order)
    requires MonthsOf(ops, order[..|order| - 1]) == Some(ms) && !MonthFails(ops, order[|order| - 1])
    requires Distinct(ms) && forall m :: m in ms ==> exists n :: n in order[..|order| - 1] && MonthConfirmed(ops, n) && SchedMonth(n) == m
    ensures Distinct(MonthsOf(ops, order).value)
  {
    var init, name := order[..|order| - 1], order[|order| - 1];
    if MonthConfirmed(ops, name) {
      if SchedMonth(name) in ms {
        var n :| n in init && MonthConfirmed(ops, n) && SchedMonth(n) == SchedMonth(name);
        assert n in order;
        MonthNameInjective(n, name);
      }
      assert Distinct(ms + [SchedMonth(name)]);
    }
  }

  /** What `get_confirmed_months` returns, with `None` where it raises. */
  function ConfirmedMonthsResult(ops: map<string, Sheet>, order: seq<string>): Option<seq<string>>
    requires forall n :: n in order ==> n in ops
  {
    match MonthsOf(ops, order)
    case None => None
    case Some(ms) => Some(SortStringsDesc(ms))
  }

  /**
   * `get_confirmed_months` lists the months of the plan sheets holding a
   * confirmed plan, newest first, each once when the sheet names are
   * distinct and well formed.
   */
  lemma ConfirmedMonthsSpec(ops: map<string, Sheet>, order: seq<string>)
    requires forall n :: n in order ==> n in ops
    ensures ConfirmedMonthsResult(ops, order).None? <==> exists n :: n in order && MonthFails(ops, n)
    ensures ConfirmedMonthsResult(ops, order).Some? ==>
      var r := ConfirmedMonthsResult(ops, order).value;
      (forall i :: 0 < i < |r| ==> LexLe(r[i], r[i - 1])) &&
      (forall m :: m in r <==> exists n :: n in order && MonthConfirmed(ops, n) && SchedMonth(n) == m) &&
      (Distinct(order) && MonthsWellNamed(order) ==> Distinct(r))
  {
    MonthsOfSpec(ops, order);
    if MonthsOf(ops, order).Some? {
      var ms := MonthsOf(ops, order).value;
      var r := SortStringsDesc(ms);
      forall m
        ensures m in r <==> m in ms
      {
        assert m in r <==> m in multiset(r);
      }
      if Distinct(order) && MonthsWellNamed(order) {
        DistinctPermutation(ms, r);
      }
    }
  }

  /** The scan of one sheet's records, stopping at the first confirmed one. */
  method ScanConfirmed(h: Row, recs: seq<Row>) returns (r: Option<bool>)
    ensures r == HasConfirmed(h, recs)
  {
    var j := 0;
    while j < |recs|
      invariant 0 <= j <= |recs|
      invariant HasConfirmed(h, recs) == HasConfirmed(h, recs[j..])
    {
      assert recs[j..][1..] == recs[j + 1..];
      var flag := ConfirmedFlag(h, recs[j]);
      if flag.None? {
        return None;
      }
      if flag.value {
        return Some(true);
      }
      j := j + 1;
    }
    return Some(false);
  }

  /** `get_confirmed_months()`: the loop over the cached sheets, then the sort. */
  method GetConfirmedMonths(db: Database) returns (r: Option<seq<string>>)
    requires db.Valid()
    ensures r == ConfirmedMonthsResult(db.operational, db.operationalOrder)
  {
    var order := db.operationalOrder;
    var months := [];
    var i := 0;
    while i < |order|
      invariant 0 <= i <= |order|
      invariant MonthsOf(db.operational, order[..i]) == Some(months)
    {
      assert order[..i + 1][..i] == order[..i];
      var name := order[i];
      if IsScheduleSheet(name) {
        var s := db.operational[name];
        var found := ScanConfirmed(HeaderOf(s), Records(s));
        if found.None? {
          MonthFailurePersists(db.operational, order, i + 1);
          return None;
        }
        if found.value {
          months := months + [SchedMonth(name)];
        }
      }
      i := i + 1;
    }
    assert order[..i] == order;
    return Some(SortStringsDesc(months));
  }

  lemma MonthFailurePersists(ops: map<string, Sheet>, order: seq<string>, i: nat)
    requires forall n :: n in order ==> n in ops
    requires i <= |order| && MonthsOf(ops, order[..i]).None?
    ensures MonthsOf(ops, order).None?
  {
    MonthsOfSpec(ops, order[..i]);
    MonthsOfSpec(ops, order);
    var n :| n in order[..i] && MonthFails(ops, n);
    assert n in order;
  }

  // ---- Removing old month sheets ----

  /** `ws_name.startswith(prefix)` and the rest, `ws_name.replace(prefix, "")`, sorts before `cutoff`. */
  predicate OldUnder(name: string, prefix: string, cutoff: string)
    requires |prefix| > 0
  {
    StartsWith(name, prefix) && LexLt(RemoveAll(name, prefix), cutoff)
  }

  /** Some prefix among `prefixes` marks sheet `name` as older than `cutoff`. */
  predicate OldUnderAny(name: string, prefixes: seq<string>, cutoff: string)
    requires forall k :: 0 <= k < |prefixes| ==> |prefixes[k]| > 0
    decreases |prefixes|
  {
    prefixes != [] &&
    (OldUnderAny(name, prefixes[..|prefixes| - 1], cutoff) || OldUnder(name, prefixes[|prefixes| - 1], cutoff))
  }

  /** The test of `delete_old_schedules`, over both monthly prefixes. */
  function IsOld(cutoff: string): string -> bool {
    name => OldUnderAny(name, OperationalPrefixes, cutoff)
  }

  /** A sheet is old exactly when it is a preference or plan sheet whose month part sorts before the cutoff. */
  lemma IsOldIff(name: string, cutoff: string)
    ensures IsOld(cutoff)(name) <==> OldUnder(name, PrefSheetPrefix, cutoff) || OldUnder(name, ScheduleSheetPrefix, cutoff)
  {
    var p := OperationalPrefixes;
    assert p[..1] == [PrefSheetPrefix] && p[..1][..0] == [];
    assert OldUnderAny(name, p[..1], cutoff) == OldUnder(name, PrefSheetPrefix, cutoff);
    assert OldUnderAny(name, p, cutoff) == (OldUnderAny(name, p[..1], cutoff) || OldUnder(name, ScheduleSheetPrefix, cutoff));
  }

  /** The cached sheets left once the old ones among `done` are dropped. */
  function WithoutOld(ops: map<string, Sheet>, done: seq<string>, cutoff: string): map<string, Sheet> {
    map n | n in ops && !(n in done && IsOld(cutoff)(n)) :: ops[n]
  }

  /**
   * The inner loop `for prefix in _OPERATIONAL_PREFIXES`, run over `prefixes`: sheet `name` is
   * dropped, from the spreadsheet and from the cache, when some prefix
   * marks it as old.
   */
  method DropIfOld(db: Database, name: string, prefixes: seq<string>, cutoff: string)
    requires db.Valid() && forall k :: 0 <= k < |prefixes| ==> |prefixes[k]| > 0
    modifies db
    ensures db.Valid() && db.SessionUnchanged() && db.master == old(db.master)
    ensures db.operational == if OldUnderAny(name, prefixes, cutoff) then Without(old(db.operational), name) else old(db.operational)
    ensures db.operationalOrder == if OldUnderAny(name, prefixes, cutoff) then RemoveWhere(old(db.operationalOrder), IsName(name)) else old(db.operationalOrder)
  {
    ghost var dropped, droppedOrder := Without(db.operational, name), RemoveWhere(db.operationalOrder, IsName(name));
    RemoveNameTwice(db.operational, db.operationalOrder, name);
    var j := 0;
    while j < |prefixes|
      invariant 0 <= j <= |prefixes|
      invariant db.Valid() && db.SessionUnchanged() && db.master == old(db.master)
      invariant db.operational == if OldUnderAny(name, prefixes[..j], cutoff) then dropped else old(db.operational)
      invariant db.operationalOrder == if OldUnderAny(name, prefixes[..j], cutoff) then droppedOrder else old(db.operationalOrder)
    {
      OldUnderAnyStep(name, prefixes, j, cutoff);
      DropIfOldUnder(db, name, prefixes[j], cutoff);
      j := j + 1;
    }
    assert prefixes[..j] == prefixes;
  }

  /** One pass of the inner loop: sheet `name` is dropped when `prefix` marks it as old. */
  method DropIfOldUnder(db: Database, name: string, prefix: string, cutoff: string)
    requires db.Valid() && |prefix| > 0
    modifies db
    ensures db.Valid() && db.SessionUnchanged() && db.master == old(db.master)
    ensures db.operational == if OldUnder(name, prefix, cutoff) then Without(old(db.operational), name) else old(db.operational)
    ensures db.operationalOrder == if OldUnder(name, prefix, cutoff) then RemoveWhere(old(db.operationalOrder), IsName(name)) else old(db.operationalOrder)
  {
    if StartsWith(name, prefix) {
      var ym := RemoveAll(name, prefix);
      if LexLt(ym, cutoff) {
        db.RemoveOperational(name);
      }
    }
  }

  /** One more prefix marks a sheet as old exactly when it or an earlier one does. */
  lemma OldUnderAnyStep(name: string, prefixes: seq<string>, j: nat, cutoff: string)
    requires j < |prefixes| && forall k :: 0 <= k < |prefixes| ==> |prefixes[k]| > 0
    ensures OldUnderAny(name, prefixes[..j + 1], cutoff) <==>
      OldUnderAny(name, prefixes[..j], cutoff) || OldUnder(name, prefixes[j], cutoff)
  {
    assert prefixes[..j + 1][..j] == prefixes[..j];
  }

  /** Dropping a sheet a second time changes nothing. */
  lemma RemoveNameTwice(ops: map<string, Sheet>, order: seq<string>, name: string)
    ensures Without(Without(ops, name), name) == Without(ops, name)
    ensures RemoveWhere(RemoveWhere(order, IsName(name)), IsName(name)) == RemoveWhere(order, IsName(name))
  {
    var once := RemoveWhere(order, IsName(name));
    assert forall k :: 0 <= k < |once| ==> !IsName(name)(once[k]);
  }

  /**
   * `delete_old_schedules(months_to_keep)`, with `cutoff` the year-month
   * `months_to_keep` months back: every cached preference or plan sheet
   * whose month part sorts before the cutoff is dropped, and nothing else.
   */
  method DeleteOldSchedules(db: Database, cutoff: string)
    requires db.Valid()
    modifies db
    ensures db.Valid() && db.SessionUnchanged() && db.master == old(db.master)
    ensures db.operational == map n | n in old(db.operational) && !IsOld(cutoff)(n) :: old(db.operational)[n]
    ensures db.operationalOrder == RemoveWhere(old(db.operationalOrder), IsOld(cutoff))
  {
    var order := db.operationalOrder;
    ghost var ops0 := db.operational;
    var i := 0;
    assert order[..0] == [] && order[0..] == order;
    while i < |order|
      invariant 0 <= i <= |order| && Distinct(order) && order == old(db.operationalOrder) && ops0 == old(db.operational)
      invariant db.Valid() && db.SessionUnchanged() && db.master == old(db.master)
      invariant db.operational == WithoutOld(ops0, order[..i], cutoff)
      invariant db.operationalOrder == RemoveWhere(order[..i], IsOld(cutoff)) + order[i..]
    {
      var name := order[i];
      ghost var before := db.operationalOrder;
      assert IsOld(cutoff)(name) == OldUnderAny(name, OperationalPrefixes, cutoff);
      DropIfOld(db, name, OperationalPrefixes, cutoff);
      DropStepMap(ops0, order, i, cutoff);
      DropStepOrder(order, i, IsOld(cutoff), before);
      i := i + 1;
    }
    WithoutOldAll(ops0, order, cutoff);
  }

  /** One turn of the outer loop drops the sheet it visits from the cache when that sheet is old. */
  lemma DropStepMap(ops: map<string, Sheet>, order: seq<string>, i: nat, cutoff: string)
    requires i < |order|
    ensures (if IsOld(cutoff)(order[i]) then Without(WithoutOld(ops, order[..i], cutoff), order[i]) else WithoutOld(ops, order[..i], cutoff)) ==
      WithoutOld(ops, order[..i + 1], cutoff)
  {
    assert forall n :: n in order[..i + 1] <==> n in order[..i] || n == order[i] by {
      assert order[..i + 1] == order[..i] + [order[i]];
    }
  }

  /** One turn of the outer loop takes the sheet it visits out of the cache order when that sheet is old. */
  lemma DropStepOrder(order: seq<string>, i: nat, drop: string -> bool, before: seq<string>)
    requires i < |order| && Distinct(order)
    requires before == RemoveWhere(order[..i], drop) + order[i..]
    ensures (if drop(order[i]) then RemoveWhere(before, IsName(order[i])) else before) ==
      RemoveWhere(order[..i + 1], drop) + order[i + 1..]
  {
    SplitAt(order, i);
    RemoveWhereSnoc(order[..i], order[i], drop);
    VisitedOnce(order, i, drop);
    StepCore(RemoveWhere(order[..i], drop), order[i], order[i + 1..], drop);
  }

  /** Cutting a sequence before and after position `i`. */
  lemma SplitAt<T>(xs: seq<T>, i: nat)
    requires i < |xs|
    ensures xs[..i + 1] == xs[..i] + [xs[i]]
    ensures xs[i..] == [xs[i]] + xs[i + 1..]
  {
  }

  /** The visited name `x` stands between the kept names `a` and the names `b` still to visit, and occurs in neither. */
  lemma StepCore(a: seq<string>, x: string, b: seq<string>, drop: string -> bool)
    requires RemoveWhere(a, IsName(x)) == a && RemoveWhere(b, IsName(x)) == b
    ensures (if drop(x) then RemoveWhere(a + ([x] + b), IsName(x)) else a + ([x] + b)) ==
      (a + (if drop(x) then [] else [x])) + b
  {
    assert a + ([x] + b) == a + [x] + b;
    if drop(x) {
      RemoveOnly(a, x, b, IsName(x));
      assert a + [] == a;
    }
  }

  /** Taking out an element that occurs only once, between `a` and `b`. */
  lemma RemoveOnly<T>(a: seq<T>, x: T, b: seq<T>, p: T -> bool)
    requires p(x) && RemoveWhere(a, p) == a && RemoveWhere(b, p) == b
    ensures RemoveWhere(a + [x] + b, p) == a + b
  {
    RemoveWhereAppend(a + [x], b, p);
    RemoveWhereSnoc(a, x, p);
    assert a + [] == a;
  }

  /** In a cache order without repeats, the sheet at `i` occurs neither before nor after `i`. */
  lemma VisitedOnce(order: seq<string>, i: nat, drop: string -> bool)
    requires i < |order| && Distinct(order)
    ensures RemoveWhere(RemoveWhere(order[..i], drop), IsName(order[i])) == RemoveWhere(order[..i], drop)
    ensures RemoveWhere(order[i + 1..], IsName(order[i])) == order[i + 1..]
  {
    var name := order[i];
    var a, b := RemoveWhere(order[..i], drop), order[i + 1..];
    forall k | 0 <= k < |a|
      ensures !IsName(name)(a[k])
    {
      var j :| 0 <= j < i && order[..i][j] == a[k];
      assert order[j] == a[k];
    }
    forall k | 0 <= k < |b|
      ensures !IsName(name)(b[k])
    {
      assert b[k] == order[i + 1 + k];
    }
  }

  /** Once the loop has visited every cached sheet, exactly the old ones are gone. */
  lemma WithoutOldAll(ops: map<string, Sheet>, order: seq<string>, cutoff: string)
    requires forall n :: n in ops ==> n in order
    ensures WithoutOld(ops, order[..|order|], cutoff) == map n | n in ops && !IsOld(cutoff)(n) :: ops[n]
    ensures RemoveWhere(order[..|order|], IsOld(cutoff)) + order[|order|..] == RemoveWhere(order, IsOld(cutoff))
  {
    assert order[..|order|] == order;
    assert order[|order|..] == [];
  }

  /** `delete_old_schedules` drops exactly the old monthly sheets and keeps the order of the rest. */
  lemma DeleteOldSchedulesKeeps(ops: map<string, Sheet>, order: seq<string>, cutoff: string, n: string)
    ensures var kept := map m | m in ops && !IsOld(cutoff)(m) :: ops[m];
      (n in kept <==> n in ops && !(OldUnder(n, PrefSheetPrefix, cutoff) || OldUnder(n, ScheduleSheetPrefix, cutoff))) &&
      (n in kept ==> kept[n] == ops[n])
    ensures n in RemoveWhere(order, IsOld(cutoff)) <==> n in order && !(OldUnder(n, PrefSheetPrefix, cutoff) || OldUnder(n, ScheduleSheetPrefix, cutoff))
  {
    IsOldIff(n, cutoff);
    RemoveWhereMembers(order, IsOld(cutoff));
  }
}
