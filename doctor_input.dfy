/**
 * The preference form of the doctor page (pages/doctor_input.py, `render`):
 * each target Saturday gets a ○/△/× status, which becomes the `ng_dates`
 * and `avoid_dates` lists, and each date not marked NG may carry a clinic
 * request, which becomes `date_clinic_requests`. The Streamlit widgets are
 * parameters: a radio or select box is a function from the widget's date
 * and its default index to the value the doctor leaves in it.
 */
module DoctorInput {
  import opened Wrappers
  import opened Text
  import opened Connection

  const PossibleOption: string := "○ 可能"
  const AvoidOption: string := "△ できれば避けたい"
  const NgOption: string := "× NG"

  /** `DAY_STATUS_OPTIONS`, in the order the radio shows them. */
  const DayStatusOptions: seq<string> := [PossibleOption, AvoidOption, NgOption]

  // ---- Loading what was saved ----

  /**
   * `set(existing["ng_dates"])` as far as `ds in ...` can see it: the string
   * members of a list, the keys of a dict, the one-character strings of a
   * string; `None` where `set()` raises (a number, a boolean, `null`, or a
   * list holding a list or dict, which is unhashable).
   */
  function SavedDates(v: PyValue): (r: Option<set<string>>)
    ensures v.PyList? && (forall x :: x in v.items ==> !IsContainer(x)) ==> r == Some(set x | x in v.items && x.PyStr? :: x.s)
    ensures v.PyDict? ==> r == Some(v.entries.Keys)
    ensures r.None? <==> (!(v.PyList? || v.PyDict? || v.PyStr?) || (v.PyList? && exists x :: x in v.items && IsContainer(x)))
  {
    match v
    case PyList(items) =>
      if exists x :: x in items && IsContainer(x) then None
      else Some(set x | x in items && x.PyStr? :: x.s)
    case PyDict(entries) => Some(entries.Keys)
    case PyStr(t) => Some(set c | c in t :: [c])
    case _ => None
  }

  /**
   * The radio's default for a date: × when the saved NG set has it, △ when
   * only the saved avoid set has it, ○ otherwise.
   */
  function DefaultDayIndex(ds: string, savedNg: set<string>, savedAvoid: set<string>): (i: nat)
    ensures i < |DayStatusOptions|
    ensures DayStatusOptions[i] == NgOption <==> ds in savedNg
    ensures DayStatusOptions[i] == AvoidOption <==> ds !in savedNg && ds in savedAvoid
  {
    if ds in savedNg then 2 else if ds in savedAvoid then 1 else 0
  }

  /** A date saved in both sets loads as NG. */
  lemma NgWinsOnLoad(ds: string, savedNg: set<string>, savedAvoid: set<string>)
    requires ds in savedNg && ds in savedAvoid
    ensures DayStatusOptions[DefaultDayIndex(ds, savedNg, savedAvoid)] == NgOption
  {
  }

  /** The status each date's radio holds: the doctor's answer given the default. */
  function StatusOf(radio: (string, nat) -> string, savedNg: set<string>, savedAvoid: set<string>): string -> string {
    ds => radio(ds, DefaultDayIndex(ds, savedNg, savedAvoid))
  }

  // ---- ng_dates and avoid_dates ----

  /** The dates, in their order, whose status is `option`. */
  function Selected(days: seq<string>, status: string -> string, option: string): (r: seq<string>)
    ensures |r| <= |days|
    ensures forall d :: d in r <==> d in days && status(d) == option
  {
    if days == [] then []
    else
      var init := days[..|days| - 1];
      var r := Selected(init, status, option) + (if status(days[|days| - 1]) == option then [days[|days| - 1]] else []);
      assert forall d :: d in days <==> d in init || d == days[|days| - 1];
      r
  }

  /**
   * The first loop of `render`: NG dates go to `ng_dates`, △ dates to
   * `avoid_dates`, ○ dates nowhere. No date is in both lists.
   */
  method ClassifyDays(saturdays: seq<string>, savedNg: set<string>, savedAvoid: set<string>, radio: (string, nat) -> string)
    returns (ng: seq<string>, avoid: seq<string>)
    ensures ng == Selected(saturdays, StatusOf(radio, savedNg, savedAvoid), NgOption)
    ensures avoid == Selected(saturdays, StatusOf(radio, savedNg, savedAvoid), AvoidOption)
    ensures forall d :: d in ng ==> d !in avoid
  {
    ng := [];
    avoid := [];
    var i := 0;
    while i < |saturdays|
      invariant i <= |saturdays|
      invariant ng == Selected(saturdays[..i], StatusOf(radio, savedNg, savedAvoid), NgOption)
      invariant avoid == Selected(saturdays[..i], StatusOf(radio, savedNg, savedAvoid), AvoidOption)
    {
      var ds := saturdays[i];
      var defaultIdx := DefaultDayIndex(ds, savedNg, savedAvoid);
      var status := radio(ds, defaultIdx);
      assert saturdays[..i + 1][..i] == saturdays[..i] && saturdays[..i + 1][i] == ds;
      if status == NgOption {
        ng := ng + [ds];
      } else if status == AvoidOption {
        avoid := avoid + [ds];
      }
      i := i + 1;
    }
    assert saturdays[..i] == saturdays;
  }

  /**
   * `Selected` keeps the order of the dates: any relation that holds
   * between every earlier and later target date holds between earlier and
   * later entries of the list (with ISO dates and `LexLt`, calendar order).
   */
  lemma {:induction false} SelectedKeepsOrder(days: seq<string>, status: string -> string, option: string, before: (string, string) -> bool)
    requires forall i, j :: 0 <= i < j < |days| ==> before(days[i], days[j])
    ensures forall i, j :: 0 <= i < j < |Selected(days, status, option)| ==>
      before(Selected(days, status, option)[i], Selected(days, status, option)[j])
  {
    if days != [] {
      var init := days[..|days| - 1];
      var last := days[|days| - 1];
      SelectedKeepsOrder(init, status, option, before);
      var r0 := Selected(init, status, option);
      var r := Selected(days, status, option);
      assert r == r0 + (if status(last) == option then [last] else []);
      forall i, j | 0 <= i < j < |r|
        ensures before(r[i], r[j])
      {
        if j < |r0| {
          assert r[i] == r0[i] && r[j] == r0[j];
          assert before(r0[i], r0[j]);
        } else {
          assert j == |r0| && i < |r0|;
          assert r[j] == last && r[i] == r0[i];
          assert r0[i] in init;
          var k :| 0 <= k < |init| && init[k] == r0[i];
          assert days[k] == r[i] && k < |days| - 1;
          assert before(days[k], days[|days| - 1]);
        }
      }
    }
  }

  /** Two statuses that agree on `option` for every date select the same list. */
  lemma {:induction false} SelectedCongruent(days: seq<string>, s1: string -> string, s2: string -> string, option: string)
    requires forall d :: d in days ==> (s1(d) == option <==> s2(d) == option)
    ensures Selected(days, s1, option) == Selected(days, s2, option)
  {
    if days != [] {
      SelectedCongruent(days[..|days| - 1], s1, s2, option);
    }
  }

  /**
   * Loading saved lists and submitting the form untouched gives the saved
   * lists back: the defaults reproduce every date's NG/△ classification.
   */
  lemma ClassifyReload(saturdays: seq<string>, before: string -> string, radio: (string, nat) -> string)
    requires forall d, i: nat :: i < |DayStatusOptions| ==> radio(d, i) == DayStatusOptions[i]
    ensures var ng0 := Selected(saturdays, before, NgOption);
      var avoid0 := Selected(saturdays, before, AvoidOption);
      var st := StatusOf(radio, set d | d in ng0, set d | d in avoid0);
      Selected(saturdays, st, NgOption) == ng0 && Selected(saturdays, st, AvoidOption) == avoid0
  {
    var ng0 := Selected(saturdays, before, NgOption);
    var avoid0 := Selected(saturdays, before, AvoidOption);
    var st := StatusOf(radio, set d | d in ng0, set d | d in avoid0);
    forall d | d in saturdays
      ensures (st(d) == NgOption <==> before(d) == NgOption) && (st(d) == AvoidOption <==> before(d) == AvoidOption)
    {
      var i := DefaultDayIndex(d, set d | d in ng0, set d | d in avoid0);
      assert st(d) == DayStatusOptions[i];
    }
    SelectedCongruent(saturdays, st, before, NgOption);
    SelectedCongruent(saturdays, st, before, AvoidOption);
  }

  // ---- date_clinic_requests ----

  /** `[0] + [c["id"] for c in clinics]`: 0 stands for "no preference". */
  function ClinicOptions(clinicIds: seq<int>): seq<int> {
    [0] + clinicIds
  }

  /**
   * A stored clinic id as `render` normalises it before comparing it with
   * the options: a string becomes its number when it is all digits and 0
   * otherwise; a boolean compares as 0 or 1; `None` stands for a value no
   * option equals (`null`, a list, a dict).
   */
  function StoredClinicId(v: PyValue): (r: Option<int>)
    ensures v.PyInt? ==> r == Some(v.i)
    ensures v.PyStr? && !IsDigits(v.s) ==> r == Some(0)
    ensures v.PyStr? && IsDigits(v.s) ==> r == Some(DigitsValue(v.s))
  {
    match v
    case PyInt(i) => Some(i)
    case PyBool(b) => Some(if b then 1 else 0)
    case PyStr(t) => Some(if IsDigits(t) then DigitsValue(t) else 0)
    case _ => None
  }

  /** `clinic_options.index(existing_cid) if existing_cid in clinic_options else 0`. */
  function DefaultClinicIndex(options: seq<int>, cid: Option<int>): (i: nat)
    requires |options| > 0
    ensures i < |options|
    ensures cid.Some? && cid.value in options ==> options[i] == cid.value && forall j :: 0 <= j < i ==> options[j] != cid.value
    ensures !(cid.Some? && cid.value in options) ==> i == 0
  {
    if cid.Some? && cid.value in options then FirstIndex(options, cid.value) else 0
  }

  function FirstIndex(xs: seq<int>, x: int): (i: nat)
    requires x in xs
    ensures i < |xs| && xs[i] == x && forall j :: 0 <= j < i ==> xs[j] != x
  {
    if xs[0] == x then 0 else 1 + FirstIndex(xs[1..], x)
  }

  /** `existing_dcr.get(ds, 0)`. */
  function SavedRequest(saved: map<string, PyValue>, ds: string): PyValue {
    if ds in saved then saved[ds] else PyInt(0)
  }

  /** The clinic a date's select box holds: the doctor's answer given the default. */
  function PickOf(select: (string, nat) -> int, clinicIds: seq<int>, saved: map<string, PyValue>): string -> int {
    ds => select(ds, DefaultClinicIndex(ClinicOptions(clinicIds), StoredClinicId(SavedRequest(saved, ds))))
  }

  /**
   * The second loop of `render`: every target date not in `ng_dates` whose
   * select box holds a clinic other than 0 is mapped to that clinic; NG
   * dates and "no preference" are never stored.
   */
  method DateClinicRequests(saturdays: seq<string>, ng: seq<string>, clinicIds: seq<int>, saved: map<string, PyValue>,
                            select: (string, nat) -> int)
    returns (requests: map<string, int>)
    ensures forall d :: d in requests <==> d in saturdays && d !in ng && PickOf(select, clinicIds, saved)(d) != 0
    ensures forall d :: d in requests ==> requests[d] == PickOf(select, clinicIds, saved)(d) && requests[d] != 0
  {
    requests := map[];
    var options := ClinicOptions(clinicIds);
    var i := 0;
    while i < |saturdays|
      invariant i <= |saturdays|
      invariant forall d :: d in requests <==> d in saturdays[..i] && d !in ng && PickOf(select, clinicIds, saved)(d) != 0
      invariant forall d :: d in requests ==> requests[d] == PickOf(select, clinicIds, saved)(d)
    {
      var ds := saturdays[i];
      assert saturdays[..i + 1] == saturdays[..i] + [ds];
      assert forall d :: d in saturdays[..i + 1] <==> d in saturdays[..i] || d == ds;
      if ds in ng {
        i := i + 1;
        continue;
      }
      var existingCid := StoredClinicId(SavedRequest(saved, ds));
      var defaultIdx := DefaultClinicIndex(options, existingCid);
      var selectedCid := select(ds, defaultIdx);
      if selectedCid != 0 {
        requests := requests[ds := selectedCid];
      }
      i := i + 1;
    }
    assert saturdays[..i] == saturdays;
  }

  /** A request saved as a plain clinic id that is still an option loads as that clinic. */
  lemma SavedClinicLoads(clinicIds: seq<int>, c: int)
    requires c in clinicIds
    ensures ClinicOptions(clinicIds)[DefaultClinicIndex(ClinicOptions(clinicIds), StoredClinicId(PyInt(c)))] == c
    ensures c >= 0 ==> ClinicOptions(clinicIds)[DefaultClinicIndex(ClinicOptions(clinicIds), StoredClinicId(PyStr(NatToString(c))))] == c
  {
    assert c in ClinicOptions(clinicIds);
    if c >= 0 {
      NatToStringRoundTrip(c);
    }
  }

  /** A stored text that is not all digits, or a clinic no longer offered, loads as "no preference". */
  lemma UnknownClinicLoadsAsNone(clinicIds: seq<int>, v: PyValue)
    requires StoredClinicId(v).None? || StoredClinicId(v).value !in ClinicOptions(clinicIds) || (v.PyStr? && !IsDigits(v.s))
    ensures ClinicOptions(clinicIds)[DefaultClinicIndex(ClinicOptions(clinicIds), StoredClinicId(v))] == 0
  {
  }

  /**
   * Loading saved requests (each a clinic still offered) and submitting the
   * form untouched stores them again, except on dates now marked NG.
   */
  lemma RequestsReload(saturdays: seq<string>, ng: seq<string>, clinicIds: seq<int>, saved: map<string, int>,
                       select: (string, nat) -> int)
    requires forall d :: d in saved ==> saved[d] in clinicIds && saved[d] != 0 && d in saturdays
    requires forall d, i :: 0 <= i < |ClinicOptions(clinicIds)| ==> select(d, i) == ClinicOptions(clinicIds)[i]
    ensures var pick := PickOf(select, clinicIds, map d | d in saved :: PyInt(saved[d]));
      forall d :: d in saturdays && d !in ng ==> (pick(d) != 0 <==> d in saved) && (d in saved ==> pick(d) == saved[d])
  {
    var stored := map d | d in saved :: PyInt(saved[d]);
    var pick := PickOf(select, clinicIds, stored);
    forall d | d in saturdays && d !in ng
      ensures (pick(d) != 0 <==> d in saved) && (d in saved ==> pick(d) == saved[d])
    {
      var i := DefaultClinicIndex(ClinicOptions(clinicIds), StoredClinicId(SavedRequest(stored, d)));
      assert pick(d) == ClinicOptions(clinicIds)[i];
      if d in saved {
        SavedClinicLoads(clinicIds, saved[d]);
      } else {
        assert SavedRequest(stored, d) == PyInt(0);
        assert ClinicOptions(clinicIds)[0] == 0;
      }
    }
  }
}
