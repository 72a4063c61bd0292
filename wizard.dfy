/**
 * The booking wizard of the appointment page: four step panes (appointment
 * type, academic, date and time, summary), the step indicator above them,
 * exclusive option groups, the academic pre-selection hand-off, the
 * submission gate and the appointment id it generates.
 *
 * The DOM is abstracted to what the handlers read and write: the index of the
 * active pane, the `completed`/`active` classes of each indicator, the
 * `selected` flag of each option, and the text content of the selected
 * elements ("" where an element is missing, since the handlers treat a
 * missing element and an empty text alike through `||`).
 */
module Wizard {
  import opened Options
  import opened Text

  /** The step panes: appointment type, academic, date and time, summary. */
  const StepCount: nat := 4

  /* ---------------------------------------------------------------------- */
  /* Step indicator                                                          */
  /* ---------------------------------------------------------------------- */

  /** The two classes a step indicator can carry. */
  datatype Mark = Mark(completed: bool, active: bool)

  /** The classes `updateStepsIndicator(k)` leaves on indicator `i`. */
  function MarkFor(i: nat, k: int): Mark {
    if i < k then Mark(true, false)
    else if i == k then Mark(false, true)
    else Mark(false, false)
  }

  /** All `n` indicators after `updateStepsIndicator(k)`. */
  function Marks(n: nat, k: int): (ms: seq<Mark>)
    ensures |ms| == n
  {
    seq(n, i requires 0 <= i < n => MarkFor(i, k))
  }

  function CountActive(ms: seq<Mark>): nat {
    if ms == [] then 0
    else CountActive(ms[..|ms| - 1]) + (if ms[|ms| - 1].active then 1 else 0)
  }

  function CountCompleted(ms: seq<Mark>): nat {
    if ms == [] then 0
    else CountCompleted(ms[..|ms| - 1]) + (if ms[|ms| - 1].completed then 1 else 0)
  }

  /**
   * Exactly one indicator is active when the step index is in range, none
   * otherwise; the indicators before it, and only those, are completed.
   */
  lemma {:induction false} IndicatorCounts(n: nat, k: int)
    ensures CountActive(Marks(n, k)) == if 0 <= k < n then 1 else 0
    ensures CountCompleted(Marks(n, k)) == if k <= 0 then 0 else if k < n then k else n
  {
    if n > 0 {
      assert Marks(n, k)[..n - 1] == Marks(n - 1, k);
      IndicatorCounts(n - 1, k);
    }
  }

  /** No indicator is both completed and active. */
  lemma MarksExclusive(n: nat, k: int, i: nat)
    requires i < n
    ensures !(Marks(n, k)[i].completed && Marks(n, k)[i].active)
    ensures Marks(n, k)[i].active <==> i == k
    ensures Marks(n, k)[i].completed <==> i < k
  {
  }

  /* ---------------------------------------------------------------------- */
  /* Step navigation                                                          */
  /* ---------------------------------------------------------------------- */

  /**
   * The pane a next button leads to: the following pane when there is one,
   * and straight from the first pane to the third when an academic was
   * pre-selected.
   */
  function NextStep(step: nat, skipStep2: bool): (r: nat)
    requires step < StepCount
    ensures r < StepCount
    ensures skipStep2 && step == 0 ==> r == 2
    ensures !(skipStep2 && step == 0) ==> r == if step + 1 < StepCount then step + 1 else step
  {
    if skipStep2 && step == 0 then 2
    else if step + 1 < StepCount then step + 1
    else step
  }

  /** The pane a previous button leads to: the one before, if any. */
  function PrevStep(step: nat): (r: nat)
    requires step < StepCount
    ensures r < StepCount
    ensures r == if step > 0 then step - 1 else step
  {
    if step > 0 then step - 1 else step
  }

  /**
   * Previous undoes next, except on the fast path: going back from the date
   * pane lands on the academic pane, not on the type pane it came from.
   */
  lemma PrevAfterNext(step: nat, skipStep2: bool)
    requires step + 1 < StepCount
    ensures PrevStep(NextStep(step, skipStep2)) == if skipStep2 && step == 0 then 1 else step
  {
  }

  /** After the fast path the first two indicators show completed and the third active. */
  lemma FastPathIndicators()
    ensures Marks(StepCount, NextStep(0, true)) ==
      [Mark(true, false), Mark(true, false), Mark(false, true), Mark(false, false)]
  {
    var ms := Marks(StepCount, NextStep(0, true));
    assert ms[0] == Mark(true, false) && ms[1] == Mark(true, false);
    assert ms[2] == Mark(false, true) && ms[3] == Mark(false, false);
  }

  /**
   * The wizard on the booking page: the index of the active pane, the step
   * indicators, and whether the first next button takes the fast path. The
   * fast-path listener is registered once at page load, so it stays in force
   * for every click on the first pane's next button.
   */
  class BookingWizard {
    var step: nat
    const skipStep2: bool
    const indicators: array<Mark>

    ghost predicate Valid()
      reads this
    {
      step < StepCount
    }

    /** A freshly loaded page: the first pane active and marked. */
    constructor (indicatorCount: nat, skipStep2: bool)
      ensures Valid() && step == 0 && this.skipStep2 == skipStep2
      ensures fresh(indicators) && indicators[..] == Marks(indicatorCount, 0)
    {
      step := 0;
      this.skipStep2 := skipStep2;
      indicators := new Mark[indicatorCount](i => MarkFor(i, 0));
    }

    /** `updateStepsIndicator(k)`: every indicator gets the classes its position calls for. */
    method UpdateStepsIndicator(k: int)
      modifies indicators
      ensures indicators[..] == Marks(indicators.Length, k)
    {
      for i := 0 to indicators.Length
        invariant forall j :: 0 <= j < i ==> indicators[j] == MarkFor(j, k)
      {
        indicators[i] := MarkFor(i, k);
      }
    }

    /** A click on the active pane's next button. */
    method Next()
      requires Valid()
      modifies this, indicators
      ensures Valid() && step == NextStep(old(step), skipStep2)
      ensures step != old(step) ==> indicators[..] == Marks(indicators.Length, step)
      ensures step == old(step) ==> indicators[..] == old(indicators[..])
    {
      var target := NextStep(step, skipStep2);
      if target != step {
        step := target;
        UpdateStepsIndicator(target);
      }
    }

    /** A click on the active pane's previous button. */
    method Prev()
      requires Valid()
      modifies this, indicators
      ensures Valid() && step == PrevStep(old(step))
      ensures step != old(step) ==> indicators[..] == Marks(indicators.Length, step)
      ensures step == old(step) ==> indicators[..] == old(indicators[..])
    {
      if step > 0 {
        step := step - 1;
        UpdateStepsIndicator(step);
      }
    }
  }

  /* ---------------------------------------------------------------------- */
  /* Option groups                                                            */
  /* ---------------------------------------------------------------------- */

  /** The `selected` flags of a group after option `k` was clicked. */
  function OnlySelected(n: nat, k: nat): (flags: seq<bool>)
    ensures |flags| == n
  {
    seq(n, i requires 0 <= i < n => i == k)
  }

  function CountSelected(flags: seq<bool>): nat {
    if flags == [] then 0
    else CountSelected(flags[..|flags| - 1]) + (if flags[|flags| - 1] then 1 else 0)
  }

  /**
   * `querySelector('.x.selected')`: the first selected option, which is the
   * one every later reader of the group sees.
   */
  function FirstSelected(flags: seq<bool>): (r: Option<nat>)
    ensures r.Some? <==> true in flags
    ensures r.Some? ==> r.value < |flags| && flags[r.value]
    ensures r.Some? ==> forall j :: 0 <= j < r.value ==> !flags[j]
  {
    if flags == [] then None
    else if flags[0] then Some(0)
    else match FirstSelected(flags[1..])
      case None => None
      case Some(j) => Some(j + 1)
  }

  /** After a click exactly one option is selected, and it is the clicked one. */
  lemma {:induction false} ClickSelectsOne(n: nat, k: nat)
    requires k < n
    ensures CountSelected(OnlySelected(n, k)) == 1
    ensures FirstSelected(OnlySelected(n, k)) == Some(k)
  {
    OnlySelectedCount(n, k);
    assert OnlySelected(n, k)[k];
  }

  lemma {:induction false} OnlySelectedCount(n: nat, k: nat)
    ensures CountSelected(OnlySelected(n, k)) == if k < n then 1 else 0
  {
    if n > 0 {
      assert OnlySelected(n, k)[..n - 1] == OnlySelected(n - 1, k);
      OnlySelectedCount(n - 1, k);
    }
  }

  /** A click on option `k` of a group: every sibling loses `selected`, `k` gains it. */
  method SelectExclusive(selected: array<bool>, k: nat)
    requires k < selected.Length
    modifies selected
    ensures selected[..] == OnlySelected(selected.Length, k)
  {
    var i := 0;
    while i < selected.Length
      invariant 0 <= i <= selected.Length
      invariant forall j :: 0 <= j < i ==> !selected[j]
    {
      selected[i] := false;
      i := i + 1;
    }
    selected[k] := true;
  }

  /* ---------------------------------------------------------------------- */
  /* Academic pre-selection                                                   */
  /* ---------------------------------------------------------------------- */

  /**
   * What the listing page (a name) or a link (an id such as `ahmet-yilmaz`)
   * hands to the booking page; "" where the hand-off carries no such field.
   */
  datatype Preselection = Preselection(name: string, id: string)

  /**
   * Whether a card matches, as written: by exact name when a name was handed
   * over, otherwise by the id with its dashes turned into spaces occurring in
   * the lower-cased card name.
   */
  predicate PreselectionMatchesAsWritten(cardName: string, cardNameLower: string, p: Preselection) {
    if p.name != "" then cardName == p.name
    else if p.id != "" then Contains(cardNameLower, ReplaceAll(p.id, '-', ' '))
    else false
  }

  /**
   * Ids are written in ASCII (`ahmet-yilmaz`) while names keep their Turkish
   * letters, so the id of Prof. Dr. Ahmet Yılmaz does not match that person's own card.
   */
  lemma IdMissesTurkishName(name: string, text: string, id: string)
    requires name == "Prof. Dr. Ahmet Yılmaz" && text == "prof. dr. ahmet yılmaz"
    requires id == "ahmet-yilmaz"
    ensures !PreselectionMatchesAsWritten(name, text, Preselection("", id))
  {
    var pattern := ReplaceAll(id, '-', ' ');
    assert id[7] == 'i';
    assert pattern[7] == 'i';
    assert 'i' !in text;
    AbsentCharNotContained(text, pattern, 'i');
  }

  /** The Turkish letters an ASCII id spells without their marks. */
  function FoldChar(c: char): char {
    match c
    case 'ı' => 'i'
    case 'ş' => 's'
    case 'ğ' => 'g'
    case 'ü' => 'u'
    case 'ö' => 'o'
    case 'ç' => 'c'
    case _ => c
  }

  function Fold(s: string): (r: string)
    ensures |r| == |s|
  {
    seq(|s|, i requires 0 <= i < |s| => FoldChar(s[i]))
  }

  /**
   * Whether a card matches, corrected: as written, except that the id and the
   * lower-cased name are compared with their Turkish letters folded to ASCII.
   */
  predicate PreselectionMatches(cardName: string, cardNameLower: string, p: Preselection) {
    if p.name != "" then cardName == p.name
    else if p.id != "" then Contains(Fold(cardNameLower), ReplaceAll(Fold(p.id), '-', ' '))
    else false
  }

  /** The id a listing links with: the lower-cased name, folded, spaces turned into dashes. */
  function Slug(person: string): string {
    ReplaceAll(Fold(person), ' ', '-')
  }

  /**
   * With the correction, a card whose lower-cased name ends with a person's
   * name is matched by that person's id, Turkish letters or not.
   */
  lemma {:induction false} SlugMatches(cardName: string, title: string, person: string)
    requires '-' !in person && person != ""
    ensures PreselectionMatches(cardName, title + person, Preselection("", Slug(person)))
  {
    var id := Slug(person);
    var back := ReplaceAll(Fold(id), '-', ' ');
    forall i | 0 <= i < |person|
      ensures back[i] == Fold(person)[i]
    {
      assert person[i] != '-';
    }
    assert back == Fold(person);
    var text := Fold(title + person);
    assert text == Fold(title) + Fold(person);
    assert text[|title|..|title| + |person|] == Fold(person);
    assert OccursAt(text, back, |title|);
  }

  /** Which id comparison the pre-selection runs: the script's own, or the one with Turkish letters folded. */
  datatype IdRule = IdAsWritten | IdFolded

  predicate PreselectionMatchesUnder(rule: IdRule, cardName: string, cardNameLower: string, p: Preselection) {
    match rule
    case IdAsWritten => PreselectionMatchesAsWritten(cardName, cardNameLower, p)
    case IdFolded => PreselectionMatches(cardName, cardNameLower, p)
  }

  /** A name handed over is compared exactly, so both rules select the same cards. */
  lemma NameHandoverAgrees(cardName: string, cardNameLower: string, p: Preselection)
    requires p.name != ""
    ensures PreselectionMatchesUnder(IdAsWritten, cardName, cardNameLower, p)
        <==> PreselectionMatchesUnder(IdFolded, cardName, cardNameLower, p)
    ensures PreselectionMatchesUnder(IdFolded, cardName, cardNameLower, p) <==> cardName == p.name
  {
  }

  /**
   * `selectAppropriateAcademic` under either rule: every academic card is
   * selected exactly when it matches, so more than one card can end up
   * selected, and `found` reports whether any did. `IdAsWritten` is the
   * script; `IdFolded` is the correction.
   */
  method SelectAppropriateAcademic(rule: IdRule, selected: array<bool>, names: seq<string>,
                                   lowerNames: seq<string>, p: Preselection)
    returns (found: bool)
    requires selected.Length == |names| == |lowerNames|
    modifies selected
    ensures forall i :: 0 <= i < |names| ==>
      selected[i] == PreselectionMatchesUnder(rule, names[i], lowerNames[i], p)
    ensures found <==> true in selected[..]
  {
    found := false;
    for i := 0 to selected.Length
      invariant forall j :: 0 <= j < i ==>
        selected[j] == PreselectionMatchesUnder(rule, names[j], lowerNames[j], p)
      invariant found <==> true in selected[..i]
    {
      selected[i] := PreselectionMatchesUnder(rule, names[i], lowerNames[i], p);
      assert selected[..i + 1] == selected[..i] + [selected[i]];
      found := found || selected[i];
    }
    assert selected[..] == selected[..selected.Length];
  }

  /** Under either rule, two academics sharing a first name are both selected by an id naming just that name. */
  lemma PreselectionSelectsSeveral(rule: IdRule, name1: string, lower1: string, name2: string, lower2: string, id: string)
    requires name1 == "Prof. Dr. Ahmet Yılmaz" && lower1 == "prof. dr. ahmet yılmaz"
    requires name2 == "Dr. Ahmet Kaya" && lower2 == "dr. ahmet kaya"
    requires id == "ahmet"
    ensures PreselectionMatchesUnder(rule, name1, lower1, Preselection("", id))
    ensures PreselectionMatchesUnder(rule, name2, lower2, Preselection("", id))
  {
    if rule == IdFolded {
      var pattern := ReplaceAll(Fold(id), '-', ' ');
      assert pattern == id;
      assert Fold(lower1)[10..15] == id;
      assert OccursAt(Fold(lower1), pattern, 10);
      assert Fold(lower2)[4..9] == id;
      assert OccursAt(Fold(lower2), pattern, 4);
    } else {
      var pattern := ReplaceAll(id, '-', ' ');
      assert pattern == id;
      assert lower1[10..15] == id;
      assert OccursAt(lower1, pattern, 10);
      assert lower2[4..9] == id;
      assert OccursAt(lower2, pattern, 4);
    }
  }

  /* ---------------------------------------------------------------------- */
  /* Submission gate                                                          */
  /* ---------------------------------------------------------------------- */

  /** Texts of the selected appointment-type card: its title and its duration. */
  datatype TypeChoice = TypeChoice(title: string, duration: string)

  /** Texts of the selected academic card: the name and the department. */
  datatype AcademicChoice = AcademicChoice(name: string, department: string)

  /**
   * What the submit handler reads: the first selected option of each group
   * (`None` when nothing in the group is selected), the calendar title
   * (`None` when the element is missing) and the notes field.
   */
  datatype Selections = Selections(
    kind: Option<TypeChoice>,
    academic: Option<AcademicChoice>,
    day: Option<string>,
    time: Option<string>,
    calendarTitle: Option<string>,
    notes: string)

  /** The four messages the gate can raise, one per missing selection. */
  datatype Alert = SelectType | SelectAcademic | SelectDate | SelectTime

  function AlertText(a: Alert): string {
    match a
    case SelectType => "Lütfen bir randevu türü seçiniz."
    case SelectAcademic => "Lütfen bir akademisyen seçiniz."
    case SelectDate => "Lütfen bir tarih seçiniz."
    case SelectTime => "Lütfen bir saat seçiniz."
  }

  /** JavaScript's `text || fallback` on a string. */
  function OrDefault(text: string, fallback: string): string {
    if text != "" then text else fallback
  }

  /** The alerts the submit handler raises, in the order it checks the groups. */
  function MissingAlerts(sel: Selections): seq<Alert> {
    (if sel.kind.None? then [SelectType] else [])
    + (if sel.academic.None? then [SelectAcademic] else [])
    + (if sel.day.None? then [SelectDate] else [])
    + (if sel.time.None? then [SelectTime] else [])
  }

  predicate Complete(sel: Selections) {
    sel.kind.Some? && sel.academic.Some? && sel.day.Some? && sel.time.Some?
  }

  /** Each missing group raises its own alert, once, and nothing else is raised. */
  lemma MissingAlertsExact(sel: Selections)
    ensures SelectType in MissingAlerts(sel) <==> sel.kind.None?
    ensures SelectAcademic in MissingAlerts(sel) <==> sel.academic.None?
    ensures SelectDate in MissingAlerts(sel) <==> sel.day.None?
    ensures SelectTime in MissingAlerts(sel) <==> sel.time.None?
    ensures MissingAlerts(sel) == [] <==> Complete(sel)
  {
  }

  /** No alert is raised twice. */
  lemma MissingAlertsDistinct(sel: Selections)
    ensures forall i, j :: 0 <= i < j < |MissingAlerts(sel)| ==>
      MissingAlerts(sel)[i] != MissingAlerts(sel)[j]
  {
  }

  /** The four alerts read differently. */
  lemma AlertTextsDistinct(a: Alert, b: Alert)
    requires a != b
    ensures AlertText(a) != AlertText(b)
  {
    match a
    case SelectType => assert AlertText(a)[11] == 'r';
    case SelectAcademic => assert AlertText(a)[11] == 'a';
    case SelectDate => assert AlertText(a)[11] == 't';
    case SelectTime => assert AlertText(a)[11] == 's';
  }

  /** What the clock says when the id is made: `getFullYear`, `getMonth` (from 0), `getDate`. */
  datatype Clock = Clock(year: nat, monthIndex: nat, day: nat)

  predicate ValidClock(c: Clock) {
    c.monthIndex < 12 && 1 <= c.day <= 31
  }

  /**
   * The generated appointment id `RND-YYYYMMDD-NNNN`; `draw` stands for
   * `Math.floor(Math.random() * 9000)`, so the serial is `1000 + draw`.
   */
  function AppointmentId(c: Clock, draw: nat): string
    requires ValidClock(c) && draw < 9000
  {
    "RND-" + IdDigits(c, draw)
  }

  /** The part after `RND-`: year, month, day, a dash and the serial. */
  function IdDigits(c: Clock, draw: nat): string
    requires ValidClock(c) && draw < 9000
  {
    NatToString(c.year) + PadStart2(NatToString(c.monthIndex + 1))
    + PadStart2(NatToString(c.day)) + "-" + NatToString(1000 + draw)
  }

  /** Every generated id starts with `RND-`, never with the `BRM-` of unit bookings. */
  lemma AppointmentIdPrefix(c: Clock, draw: nat)
    requires ValidClock(c) && draw < 9000
    ensures StartsWith(AppointmentId(c, draw), "RND-")
    ensures !StartsWith(AppointmentId(c, draw), "BRM-")
  {
    var id := AppointmentId(c, draw);
    assert id[..4] == "RND-";
    assert id[0] == 'R';
  }

  /** The parts of an `RND-YYYYMMDD-NNNN` id. */
  datatype IdParts = IdParts(year: nat, month: nat, day: nat, serial: nat)

  /** Reads an id of exactly the generated shape; anything else is `None`. */
  function ParseId(id: string): Option<IdParts> {
    if |id| == 17 && id[..4] == "RND-" && AllDigits(id[4..8]) && AllDigits(id[8..10])
       && AllDigits(id[10..12]) && id[12] == '-' && AllDigits(id[13..])
    then Some(IdParts(DigitsValue(id[4..8]), DigitsValue(id[8..10]),
                      DigitsValue(id[10..12]), DigitsValue(id[13..])))
    else None
  }

  /**
   * For four-digit years the generated id has the `RND-YYYYMMDD-NNNN` shape
   * exactly: reading it back gives the year, the month counted from 1, the
   * day and a serial between 1000 and 9999.
   */
  lemma {:induction false} AppointmentIdParses(c: Clock, draw: nat)
    requires ValidClock(c) && draw < 9000 && 1000 <= c.year <= 9999
    ensures |AppointmentId(c, draw)| == 17
    ensures ParseId(AppointmentId(c, draw)) == Some(IdParts(c.year, c.monthIndex + 1, c.day, 1000 + draw))
    ensures 1000 <= 1000 + draw <= 9999
  {
    var y := NatToString(c.year);
    var m := PadStart2(NatToString(c.monthIndex + 1));
    var d := PadStart2(NatToString(c.day));
    var n := NatToString(1000 + draw);
    FourDigits(c.year);
    FourDigits(1000 + draw);
    TwoDigits(c.monthIndex + 1);
    TwoDigits(c.day);
    IdSlices("RND-", y, m, d, "-", n);
    assert AppointmentId(c, draw) == "RND-" + (y + m + d + "-" + n);
    ParseFields(AppointmentId(c, draw), y, m, d, n);
  }

  /** A number between 1000 and 9999 is written with four digits that read back as it. */
  lemma FourDigits(n: nat)
    requires 1000 <= n <= 9999
    ensures |NatToString(n)| == 4 && AllDigits(NatToString(n)) && DigitsValue(NatToString(n)) == n
  {
    NatToStringLength(n, 3);
    DigitsValueOfNatToString(n);
  }

  /** An id whose fixed-width fields are digits parses to the values of those fields. */
  lemma ParseFields(id: string, y: string, m: string, d: string, n: string)
    requires |id| == 17 && id[..4] == "RND-" && id[12] == '-'
    requires id[4..8] == y && id[8..10] == m && id[10..12] == d && id[13..] == n
    requires AllDigits(y) && AllDigits(m) && AllDigits(d) && AllDigits(n)
    ensures ParseId(id) == Some(IdParts(DigitsValue(y), DigitsValue(m), DigitsValue(d), DigitsValue(n)))
  {
  }

  /** The pieces of a concatenation of fixed-width fields come back by slicing. */
  lemma IdSlices(a: string, y: string, m: string, d: string, dash: string, n: string)
    requires |a| == 4 && |y| == 4 && |m| == 2 && |d| == 2 && |dash| == 1 && |n| == 4
    ensures var id := a + (y + m + d + dash + n);
      |id| == 17 && id[..4] == a && id[4..8] == y && id[8..10] == m && id[10..12] == d
      && id[12] == dash[0] && id[13..] == n
  {
    var id := a + (y + m + d + dash + n);
    assert id == a + (y + (m + (d + (dash + n))));
    assert id[4..] == y + (m + (d + (dash + n)));
    assert id[8..] == m + (d + (dash + n));
    assert id[10..] == d + (dash + n);
    assert id[12..] == dash + n;
  }

  /** `${name} (${department})` with the defaults of an empty card: the academic line. */
  function AcademicText(a: AcademicChoice): string {
    OrDefault(a.name, "Prof. Dr. Ahmet Yılmaz") + " (" + OrDefault(a.department, "Bilgisayar Mühendisliği") + ")"
  }

  /** The selected day, or 20. */
  function DayText(day: string): string {
    OrDefault(day, "20")
  }

  /** The selected time slot, or 10:30. */
  function TimeText(time: string): string {
    OrDefault(time, "10:30")
  }

  /**
   * The submitted date: the day, then the first two words of the calendar
   * title, each read on its own with Mayıs and 2023 as defaults.
   */
  function QueryDate(day: string, calendarTitle: Option<string>): string {
    var title := calendarTitle.GetOr("");
    DayText(day) + " " + OrDefault(SplitHead(title, " "), "Mayıs") + " "
    + OrDefault(SplitSecond(title, " ").GetOr(""), "2023")
  }

  /** The four pairs every submission carries: type, academic, date and time. */
  function QueryHead(sel: Selections): seq<(string, string)>
    requires Complete(sel)
  {
    var kind := sel.kind.value;
    [("type", OrDefault(kind.title, "Genel Görüşme") + " (" + OrDefault(kind.duration, "30 dk") + ")"),
     ("academic", AcademicText(sel.academic.value)),
     ("date", QueryDate(sel.day.value, sel.calendarTitle)),
     ("time", TimeText(sel.time.value))]
  }

  /** The notes pair, present only for non-empty notes. */
  function QueryNotes(notes: string): seq<(string, string)> {
    if notes != "" then [("notes", notes)] else []
  }

  /** The query string the submit handler sends to the confirmation page, as key/value pairs. */
  function BookingQuery(sel: Selections, id: string): (q: seq<(string, string)>)
    requires Complete(sel)
  {
    QueryHead(sel) + QueryNotes(sel.notes) + [("id", id)]
  }

  /** Where a click on the submit button leads. */
  datatype Submission = Redirect(query: seq<(string, string)>) | Blocked(alerts: seq<Alert>)

  /** The submit handler: redirect with the full query, or raise the alerts and stay. */
  function Submit(sel: Selections, c: Clock, draw: nat): Submission
    requires ValidClock(c) && draw < 9000
  {
    if Complete(sel) then Redirect(BookingQuery(sel, AppointmentId(c, draw)))
    else Blocked(MissingAlerts(sel))
  }

  /** Keys of a query, in order. */
  function Keys(q: seq<(string, string)>): (ks: seq<string>)
    ensures |ks| == |q|
  {
    if q == [] then [] else [q[0].0] + Keys(q[1..])
  }

  /**
   * The gate: a redirect happens exactly when all four groups have a
   * selection, and then the query carries type, academic, date, time, the
   * notes only when they are non-empty, and the generated id last; otherwise
   * the alerts are exactly those of the missing groups and nothing is sent.
   */
  lemma SubmitGate(sel: Selections, c: Clock, draw: nat)
    requires ValidClock(c) && draw < 9000
    ensures Submit(sel, c, draw).Redirect? <==> Complete(sel)
    ensures Submit(sel, c, draw).Blocked? ==> Submit(sel, c, draw).alerts == MissingAlerts(sel) != []
    ensures Submit(sel, c, draw).Redirect? ==> Submit(sel, c, draw).query == BookingQuery(sel, AppointmentId(c, draw))
  {
    if !Complete(sel) {
      MissingAlertsExact(sel);
    }
  }

  /**
   * The query carries type, academic, date and time, then the notes only when
   * they are non-empty, and the id last.
   */
  lemma BookingQueryKeys(sel: Selections, id: string)
    requires Complete(sel)
    ensures Keys(BookingQuery(sel, id)) ==
      ["type", "academic", "date", "time"] + (if sel.notes != "" then ["notes"] else []) + ["id"]
    ensures BookingQuery(sel, id)[|BookingQuery(sel, id)| - 1] == ("id", id)
  {
    var head, notes, last := QueryHead(sel), QueryNotes(sel.notes), [("id", id)];
    QueryHeadKeys(sel);
    assert Keys(notes) == (if sel.notes != "" then ["notes"] else []);
    assert Keys(last) == ["id"];
    KeysAppend(head, notes);
    KeysAppend(head + notes, last);
  }

  lemma QueryHeadKeys(sel: Selections)
    requires Complete(sel)
    ensures Keys(QueryHead(sel)) == ["type", "academic", "date", "time"]
  {
    var head := QueryHead(sel);
    assert Keys(head[3..]) == ["time"];
    assert Keys(head[2..]) == ["date"] + Keys(head[3..]);
    assert Keys(head[1..]) == ["academic"] + Keys(head[2..]);
  }

  lemma {:induction false} KeysAppend(a: seq<(string, string)>, b: seq<(string, string)>)
    ensures Keys(a + b) == Keys(a) + Keys(b)
  {
    if a != [] {
      assert (a + b)[1..] == a[1..] + b;
      assert (a + b)[0] == a[0];
      KeysAppend(a[1..], b);
    } else {
      assert a + b == b;
    }
  }

  /* ---------------------------------------------------------------------- */
  /* Summary pane                                                             */
  /* ---------------------------------------------------------------------- */

  /** The four lines of the summary pane. */
  datatype Summary = Summary(kind: string, academic: string, date: string, time: string)

  /**
   * `updateSummaryInformation`: the summary is rebuilt from the current
   * selections each time the summary pane is entered. A calendar title
   * without a space leaves the year `undefined`, which the template prints.
   */
  function SummaryOf(sel: Selections): Summary {
    var kind := sel.kind.GetOr(TypeChoice("", ""));
    Summary(
      OrDefault(kind.title, "Genel Görüşme") + " ("
        + RemoveFirstText(OrDefault(kind.duration, "Süre: 30 dk"), "Süre: ") + ")",
      AcademicText(sel.academic.GetOr(AcademicChoice("", ""))),
      SummaryDate(sel.day.GetOr(""), sel.calendarTitle),
      TimeText(sel.time.GetOr("")))
  }

  /**
   * The summary's date: the day, then the calendar title (Mayıs 2023 when
   * absent) split at its spaces; a title without a space leaves the year
   * `undefined`, which the template prints.
   */
  function SummaryDate(day: string, calendarTitle: Option<string>): string {
    var title := OrDefault(calendarTitle.GetOr(""), "Mayıs 2023");
    DayText(day) + " " + SplitHead(title, " ") + " " + SplitSecond(title, " ").GetOr("undefined")
  }

  /** The summary names the academic and the time that a submission from the same selections sends. */
  lemma SummaryMatchesSubmission(sel: Selections, id: string)
    requires Complete(sel)
    ensures BookingQuery(sel, id)[1].1 == SummaryOf(sel).academic
    ensures BookingQuery(sel, id)[3].1 == SummaryOf(sel).time
  {
  }

  /**
   * The summary shows the date a submission sends once the calendar title
   * has a month and a year.
   */
  lemma SummaryDateAgrees(day: string, title: string)
    requires SplitHead(title, " ") != ""
    requires SplitSecond(title, " ").Some? && SplitSecond(title, " ").value != ""
    ensures QueryDate(day, Some(title)) == SummaryDate(day, Some(title))
  {
    assert SplitHead(title, " ") <= title;
    assert OrDefault(title, "Mayıs 2023") == title;
  }

  /**
   * A calendar title of one word makes the two disagree: the summary prints
   * `undefined` for the year where the query sends 2023.
   */
  lemma SummaryDateOneWord(day: string, title: string)
    requires title != "" && !Contains(title, " ")
    ensures SummaryDate(day, Some(title)) == DayText(day) + " " + title + " undefined"
    ensures QueryDate(day, Some(title)) == DayText(day) + " " + title + " 2023"
  {
  }

  /* ---------------------------------------------------------------------- */
  /* Calendar navigation                                                      */
  /* ---------------------------------------------------------------------- */

  /** The month the calendar shows: a year and a month index from 0 to 11. */
  datatype YearMonth = YearMonth(year: int, month: nat)

  /** `setMonth(getMonth() + delta)` on the year and month alone. */
  function ShiftMonth(ym: YearMonth, delta: int): (r: YearMonth)
    requires ym.month < 12
    ensures r.month < 12
    ensures r.year * 12 + r.month == ym.year * 12 + ym.month + delta
  {
    var total := ym.year * 12 + ym.month + delta;
    YearMonth(total / 12, total % 12)
  }

  /** Stepping the calendar forward then back (or back then forward) shows the same month. */
  lemma ShiftMonthInverse(ym: YearMonth, delta: int)
    requires ym.month < 12
    ensures ShiftMonth(ShiftMonth(ym, delta), -delta) == ym
  {
    var r := ShiftMonth(ShiftMonth(ym, delta), -delta);
    assert r.year * 12 + r.month == ym.year * 12 + ym.month;
  }
}
