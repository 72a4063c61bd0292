/**
 * The appointment store: the records kept under the `appointments` key, the
 * record the confirmation page builds, the status rewrites behind the cancel,
 * approve and reject buttons, and the queries the list and dashboard pages run.
 * Storage itself is a sequence held by `AppointmentStore`; clocks are parameters.
 */
module Store {
  import opened Options
  import opened Text
  import opened Collections

  const Pending: string := "pending"
  const Confirmed: string := "confirmed"
  const Cancelled: string := "cancelled"
  const Completed: string := "completed"

  /** A stored appointment. `kind` is the record's `type`; `unit` is the `birim` of unit bookings. */
  datatype Appointment = Appointment(
    id: string,
    kind: string,
    academic: string,
    academicName: string,
    academicDepartment: Option<string>,
    date: string,
    time: string,
    notes: string,
    status: string,
    student: string,
    studentDepartment: string,
    createdAt: int,
    unit: string)

  // ---------------------------------------------------------------------------
  // "Name (Department)"
  // ---------------------------------------------------------------------------

  /** `academic.split(' (')[0]`. */
  function NameOf(academic: string): string {
    SplitHead(academic, " (")
  }

  /** `academic.split(' (')[1]?.replace(')', '')`. */
  function DepartmentOf(academic: string): Option<string> {
    match SplitSecond(academic, " (")
    case None => None
    case Some(d) => Some(RemoveFirst(d, ')'))
  }

  /** Splitting `name + " (" + dept + ")"` gives back the name and the department. */
  lemma {:induction false} NameDepartmentRoundTrip(name: string, dept: string)
    requires !Contains(name, " (") && !Contains(dept, " (") && ')' !in dept
    ensures NameOf(name + " (" + dept + ")") == name
    ensures DepartmentOf(name + " (" + dept + ")") == Some(dept)
  {
    var s := name + " (" + dept + ")";
    assert s == name + " (" + (dept + ")");
    FirstParenAfter(name, dept + ")");
    assert s[..|name|] == name;
    assert s[|name| + 2..] == dept + ")";
    NoParenAfterClosing(dept);
    assert SplitHead(dept + ")", " (") == dept + ")";
    assert SplitSecond(s, " (") == Some(dept + ")");
    RemoveFirstSplits(dept, ')', []);
    assert dept + [')'] + [] == dept + ")";
    assert dept + [] == dept;
    assert RemoveFirst(dept + ")", ')') == dept;
  }

  /** A text without `" ("` is all name and no department. */
  lemma NameWithoutDepartment(academic: string)
    requires !Contains(academic, " (")
    ensures NameOf(academic) == academic && DepartmentOf(academic) == None
  {
  }

  // ---------------------------------------------------------------------------
  // Record creation on the confirmation page
  // ---------------------------------------------------------------------------

  const DefaultKind: string := "Genel Görüşme (30 dk)"
  const DefaultAcademicName: string := "Prof. Dr. Ahmet Yılmaz"
  const DefaultAcademicDepartment: string := "Bilgisayar Mühendisliği"
  const DefaultAcademic: string := DefaultAcademicName + " (" + DefaultAcademicDepartment + ")"
  const DefaultDate: string := "20 Mayıs 2023"
  const DefaultTime: string := "10:30"
  const DefaultStudent: string := "Ayşe Yılmaz"
  const DefaultStudentDepartment: string := "Bilgisayar Mühendisliği"

  /** `params.key ? params.key : fallback`: an absent or empty parameter takes the fallback. */
  function ParamOr(params: map<string, string>, key: string, fallback: string): (r: string)
    ensures key in params && params[key] != "" ==> r == params[key]
    ensures key !in params || params[key] == "" ==> r == fallback
  {
    if key in params && params[key] != "" then params[key] else fallback
  }

  /**
   * The record built from the query parameters at time `now`; no record
   * without a non-empty `id`.
   */
  function CreateRecord(params: map<string, string>, now: int): Option<Appointment> {
    if "id" in params && params["id"] != "" then
      var academic := ParamOr(params, "academic", DefaultAcademic);
      Some(Appointment(
        params["id"],
        ParamOr(params, "type", DefaultKind),
        academic,
        NameOf(academic),
        DepartmentOf(academic),
        ParamOr(params, "date", DefaultDate),
        ParamOr(params, "time", DefaultTime),
        ParamOr(params, "notes", ""),
        Pending,
        DefaultStudent,
        DefaultStudentDepartment,
        now,
        ""))
    else None
  }

  /**
   * A record is built exactly when `id` is given; it is pending, stamped with
   * `now`, and each field is its parameter or its fixed default.
   */
  lemma CreatedRecord(params: map<string, string>, now: int)
    ensures CreateRecord(params, now).Some? <==> "id" in params && params["id"] != ""
    ensures CreateRecord(params, now).Some? ==>
      var r := CreateRecord(params, now).value;
      && r.id == params["id"]
      && r.status == Pending && r.createdAt == now
      && r.kind == ParamOr(params, "type", DefaultKind)
      && r.academic == ParamOr(params, "academic", DefaultAcademic)
      && r.academicName == NameOf(r.academic)
      && r.academicDepartment == DepartmentOf(r.academic)
      && r.date == ParamOr(params, "date", DefaultDate)
      && r.time == ParamOr(params, "time", DefaultTime)
      && r.notes == ParamOr(params, "notes", "")
      && r.student == DefaultStudent && r.studentDepartment == DefaultStudentDepartment
  {
  }

  /** Without an `academic` parameter the record names the default academic and department. */
  lemma DefaultAcademicSplits(params: map<string, string>, now: int)
    requires "id" in params && params["id"] != ""
    requires "academic" !in params || params["academic"] == ""
    ensures CreateRecord(params, now).Some?
    ensures CreateRecord(params, now).value.academicName == DefaultAcademicName
    ensures CreateRecord(params, now).value.academicDepartment == Some(DefaultAcademicDepartment)
  {
    DefaultNamesPlain(DefaultAcademicName, DefaultAcademicDepartment);
    NameDepartmentRoundTrip(DefaultAcademicName, DefaultAcademicDepartment);
  }

  lemma DefaultNamesPlain(name: string, dept: string)
    requires name == DefaultAcademicName && dept == DefaultAcademicDepartment
    ensures !Contains(name, " (") && !Contains(dept, " (") && ')' !in dept
  {
    assert '(' !in name && '(' !in dept;
    AbsentCharNotContained(name, " (", '(');
    AbsentCharNotContained(dept, " (", '(');
  }

  // ---------------------------------------------------------------------------
  // Status rewrites
  // ---------------------------------------------------------------------------

  /** What `items.map(...)` makes of one item: `update` applied when its id matches. */
  function Updated(a: Appointment, id: string, update: Appointment -> Appointment): Appointment {
    if a.id == id then update(a) else a
  }

  /** `items.map(item => item.id === id ? update(item) : item)`. */
  function MapWhereId(xs: seq<Appointment>, id: string, update: Appointment -> Appointment): seq<Appointment> {
    seq(|xs|, i requires 0 <= i < |xs| => Updated(xs[i], id, update))
  }

  /** The in-place `appointment.status = status` of the button handlers. */
  function SetStatus(status: string): Appointment -> Appointment {
    (a: Appointment) => a.(status := status)
  }

  /** Every record with id `id` gets `status`; the rest stay as they are. */
  function WithStatus(xs: seq<Appointment>, id: string, status: string): seq<Appointment> {
    MapWhereId(xs, id, SetStatus(status))
  }

  function Ids(xs: seq<Appointment>): seq<string> {
    seq(|xs|, i requires 0 <= i < |xs| => xs[i].id)
  }

  /**
   * A status rewrite keeps the length, the order and every id; a record with
   * id `id` changes in its status alone, and any other record not at all.
   */
  lemma WithStatusEffect(xs: seq<Appointment>, id: string, status: string)
    ensures |WithStatus(xs, id, status)| == |xs|
    ensures Ids(WithStatus(xs, id, status)) == Ids(xs)
    ensures forall i :: 0 <= i < |xs| && xs[i].id == id ==>
      WithStatus(xs, id, status)[i] == xs[i].(status := status)
    ensures forall i :: 0 <= i < |xs| && xs[i].id != id ==> WithStatus(xs, id, status)[i] == xs[i]
  {
  }

  /** Rewriting twice for the same id leaves the second status: once is as good as twice. */
  lemma LastStatusWins(xs: seq<Appointment>, id: string, first: string, second: string)
    ensures WithStatus(WithStatus(xs, id, first), id, second) == WithStatus(xs, id, second)
  {
  }

  /** Rewriting the same status twice changes nothing more. */
  lemma WithStatusIdempotent(xs: seq<Appointment>, id: string, status: string)
    ensures WithStatus(WithStatus(xs, id, status), id, status) == WithStatus(xs, id, status)
  {
    LastStatusWins(xs, id, status, status);
  }

  /** Rewrites for different ids do not interfere: they commute. */
  lemma WithStatusCommutes(xs: seq<Appointment>, id1: string, s1: string, id2: string, s2: string)
    requires id1 != id2
    ensures WithStatus(WithStatus(xs, id1, s1), id2, s2) == WithStatus(WithStatus(xs, id2, s2), id1, s1)
  {
  }

  /** No record with id `id`: the rewrite changes nothing. */
  lemma WithStatusAbsent(xs: seq<Appointment>, id: string, status: string)
    requires id !in Ids(xs)
    ensures WithStatus(xs, id, status) == xs
  {
    forall i | 0 <= i < |xs|
      ensures WithStatus(xs, id, status)[i] == xs[i]
    {
      assert Ids(xs)[i] == xs[i].id;
    }
  }

  /** Which buttons a row offers. */
  datatype Action = Details | Cancel | Approve | Reject

  /** Student list and dashboard rows: cancel while pending or confirmed. */
  function StudentActions(status: string): set<Action> {
    {Details} + (if status == Pending || status == Confirmed then {Cancel} else {})
  }

  /** Academic rows: approve or reject while pending, cancel once confirmed. */
  function AcademicActions(status: string): set<Action> {
    {Details} + (if status == Pending then {Approve, Reject} else if status == Confirmed then {Cancel} else {})
  }

  /** The status an action writes, if any. */
  function Outcome(action: Action): Option<string> {
    match action
    case Details => None
    case Cancel => Some(Cancelled)
    case Approve => Some(Confirmed)
    case Reject => Some(Cancelled)
  }

  /** Cancel and reject ask `confirm(...)` first; approve does not. */
  predicate AsksConfirmation(action: Action) {
    action == Cancel || action == Reject
  }

  /**
   * Through the buttons a record only moves forward: an offered action always
   * changes the status, only a pending record can be confirmed, and cancelled
   * or completed records are offered nothing but details.
   */
  lemma OfferedActionsMoveForward(status: string, action: Action)
    requires action in StudentActions(status) || action in AcademicActions(status)
    ensures Outcome(action).Some? ==> (status == Pending || status == Confirmed)
    ensures Outcome(action).Some? ==> Outcome(action).value != status
    ensures Outcome(action) == Some(Confirmed) ==> status == Pending
    ensures status != Pending && status != Confirmed ==> action == Details
  {
  }

  /**
   * The gating lives in the buttons alone: when a cancelled record shares its
   * id with a pending one, approving the pending one confirms the cancelled
   * one too.
   */
  lemma ApproveReopensTwin(cancelled: Appointment, pending: Appointment)
    requires cancelled.id == pending.id
    requires cancelled.status == Cancelled && pending.status == Pending
    ensures Approve in AcademicActions(pending.status)
    ensures WithStatus([cancelled, pending], pending.id, Outcome(Approve).value)[0].status == Confirmed
  {
  }

  // ---------------------------------------------------------------------------
  // The stored collection
  // ---------------------------------------------------------------------------

  class AppointmentStore {
    var appointments: seq<Appointment>

    constructor(saved: seq<Appointment>)
      ensures appointments == saved
    {
      appointments := saved;
    }

    /** `appointments.push(record)`. */
    method Append(record: Appointment)
      modifies this
      ensures appointments == old(appointments) + [record]
    {
      appointments := appointments + [record];
    }

    /** The confirmation page: build the record from the parameters and append it. */
    method Confirm(params: map<string, string>, now: int) returns (created: Option<Appointment>)
      modifies this
      ensures created == CreateRecord(params, now)
      ensures created.Some? ==> appointments == old(appointments) + [created.value]
      ensures created.None? ==> appointments == old(appointments)
    {
      created := CreateRecord(params, now);
      if created.Some? {
        Append(created.value);
      }
    }

    /**
     * `updateLocalStorageItem`: map `update` over the records with id `id` and
     * write the result back; `writes` is whether the write succeeds, and a
     * failed write leaves the stored records as they were.
     */
    method UpdateItem(id: string, update: Appointment -> Appointment, writes: bool) returns (ok: bool)
      modifies this
      ensures ok == writes
      ensures writes ==> appointments == MapWhereId(old(appointments), id, update)
      ensures !writes ==> appointments == old(appointments)
    {
      var updated: seq<Appointment> := [];
      for i := 0 to |appointments|
        invariant |updated| == i
        invariant forall k :: 0 <= k < i ==> updated[k] == Updated(appointments[k], id, update)
      {
        var item := appointments[i];
        if item.id == id {
          item := update(item);
        }
        updated := updated + [item];
      }
      if writes {
        appointments := updated;
      }
      ok := writes;
    }

    /** The status maps of the cancel, approve and reject handlers. */
    method UpdateStatus(id: string, status: string)
      modifies this
      ensures appointments == WithStatus(old(appointments), id, status)
    {
      var _ := UpdateItem(id, SetStatus(status), true);
    }

    /** A button click: `confirmed` is the answer to the `confirm` dialog, where one is asked. */
    method Act(action: Action, id: string, confirmed: bool)
      modifies this
      ensures Outcome(action).Some? && (confirmed || !AsksConfirmation(action)) ==>
        appointments == WithStatus(old(appointments), id, Outcome(action).value)
      ensures Outcome(action).None? || (!confirmed && AsksConfirmation(action)) ==>
        appointments == old(appointments)
    {
      if Outcome(action).Some? && (confirmed || !AsksConfirmation(action)) {
        UpdateStatus(id, Outcome(action).value);
      }
    }
  }

  // ---------------------------------------------------------------------------
  // Queries
  // ---------------------------------------------------------------------------

  function HasStatus(status: string): Appointment -> bool {
    (a: Appointment) => a.status == status
  }

  /** The status tab: `all` shows everything, any other tab the records with that status. */
  function TabFilter(xs: seq<Appointment>, tab: string): seq<Appointment> {
    if tab == "all" then xs else Filter(xs, HasStatus(tab))
  }

  /** Each record shows on a tab as often as it is stored when the tab admits it, and never otherwise. */
  lemma TabFilterCount(xs: seq<Appointment>, tab: string, a: Appointment)
    ensures multiset(TabFilter(xs, tab))[a] == if tab == "all" || a.status == tab then multiset(xs)[a] else 0
  {
    if tab != "all" {
      FilterCount(xs, HasStatus(tab), a);
    }
  }

  /** Ascending by `key`. */
  predicate SortedBy(xs: seq<Appointment>, key: Appointment -> int) {
    forall i, j :: 0 <= i < j < |xs| ==> key(xs[i]) <= key(xs[j])
  }

  /** Descending `createdAt`: the comparator `new Date(b.createdAt) - new Date(a.createdAt)`. */
  predicate NewestFirst(xs: seq<Appointment>) {
    forall i, j :: 0 <= i < j < |xs| ==> xs[i].createdAt >= xs[j].createdAt
  }

  function NewestKey(a: Appointment): int {
    -a.createdAt
  }

  /** `parseInt(a.time.split(':').join(''))`. */
  function TimeKey(time: string): int {
    ParseInt(RemoveAll(time, ':'))
  }

  function TimeOrder(a: Appointment): int {
    TimeKey(a.time)
  }

  /** Ascending by the key is descending by `createdAt`. */
  lemma NewestKeyOrder(xs: seq<Appointment>)
    ensures SortedBy(xs, NewestKey) <==> NewestFirst(xs)
  {
    if SortedBy(xs, NewestKey) {
      forall i, j | 0 <= i < j < |xs|
        ensures xs[i].createdAt >= xs[j].createdAt
      {
        assert NewestKey(xs[i]) <= NewestKey(xs[j]);
      }
    }
    if NewestFirst(xs) {
      forall i, j | 0 <= i < j < |xs|
        ensures NewestKey(xs[i]) <= NewestKey(xs[j])
      {
      }
    }
  }

  /** An `HH:MM` time reads as the number `HHMM`. */
  lemma ClockTimeKey(hh: string, mm: string)
    requires |hh| == 2 && |mm| == 2 && AllDigits(hh) && AllDigits(mm)
    ensures TimeKey(hh + ":" + mm) == DigitsValue(hh) * 100 + DigitsValue(mm)
  {
    assert RemoveAll(hh + ":" + mm, ':') == hh + mm by {
      assert ':' !in hh by {
        assert IsDigit(hh[0]) && IsDigit(hh[1]);
      }
      assert ':' !in mm by {
        assert IsDigit(mm[0]) && IsDigit(mm[1]);
      }
      RemoveAllAppend(hh + ":", mm, ':');
      RemoveAllAppend(hh, ":", ':');
      assert RemoveAll(":", ':') == [];
    }
    assert AllDigits(hh + mm) && DigitsValue(hh + mm) == DigitsValue(hh) * 100 + DigitsValue(mm) by {
      DigitsValueAppend(hh, mm);
      assert Pow10(2) == 100;
    }
    ParseIntOfDigits(hh + mm);
  }

  /** White space before a time, which `parseInt` skips, leaves its key as it is. */
  lemma SpaceBeforeTimeKey(ws: string, time: string)
    requires forall i :: 0 <= i < |ws| ==> IsSpace(ws[i])
    ensures TimeKey(ws + time) == TimeKey(time)
  {
    assert ':' !in ws;
    RemoveAllAppend(ws, time, ':');
    ParseIntAfterSpace(ws, RemoveAll(time, ':'));
  }

  /** Ordering `HHMM` numbers is ordering by hour, then by minute. */
  lemma HundredsOrder(x1: nat, y1: nat, x2: nat, y2: nat)
    requires y1 < 100 && y2 < 100
    ensures x1 * 100 + y1 <= x2 * 100 + y2 <==> x1 < x2 || (x1 == x2 && y1 <= y2)
  {
  }

  /** `array.sort` with a numeric key, in place: ascending and a permutation. */
  method SortByKey(a: array<Appointment>, key: Appointment -> int)
    modifies a
    ensures SortedBy(a[..], key)
    ensures multiset(a[..]) == multiset(old(a[..]))
  {
    var i := 0;
    while i < a.Length
      invariant 0 <= i <= a.Length
      invariant SortedBy(a[..i], key)
      invariant multiset(a[..]) == multiset(old(a[..]))
    {
      InsertAt(a, i, key);
      i := i + 1;
    }
    assert a[..a.Length] == a[..];
  }

  /** One insertion step: `a[i]` moves left past every larger key. */
  method InsertAt(a: array<Appointment>, i: nat, key: Appointment -> int)
    requires i < a.Length && SortedBy(a[..i], key)
    modifies a
    ensures SortedBy(a[..i + 1], key)
    ensures multiset(a[..]) == multiset(old(a[..]))
  {
    var j := i;
    InsertionStart(a[..], i, key);
    while j > 0 && key(a[j - 1]) > key(a[j])
      invariant 0 <= j <= i
      invariant Inserting(a[..], j, i, key)
      invariant multiset(a[..]) == multiset(old(a[..]))
    {
      InsertionSwap(a[..], j, i, key);
      Swap(a, j);
      j := j - 1;
    }
    InsertionDone(a[..], j, i, key);
  }

  /** Exchange `a[j - 1]` and `a[j]`. */
  method Swap(a: array<Appointment>, j: nat)
    requires 0 < j < a.Length
    modifies a
    ensures a[..] == old(a[..])[j - 1 := old(a[j])][j := old(a[j - 1])]
    ensures multiset(a[..]) == multiset(old(a[..]))
  {
    a[j - 1], a[j] := a[j], a[j - 1];
  }

  /**
   * Midway through an insertion step at `j`: leaving position `j` aside, the
   * first `i + 1` keys ascend, and the moving element is no larger than any
   * key after it.
   */
  predicate Inserting(s: seq<Appointment>, j: nat, i: nat, key: Appointment -> int)
    requires j <= i < |s|
  {
    (forall p, q :: 0 <= p < q <= i && p != j && q != j ==> key(s[p]) <= key(s[q]))
    && (forall q :: j < q <= i ==> key(s[j]) <= key(s[q]))
  }

  lemma InsertionStart(s: seq<Appointment>, i: nat, key: Appointment -> int)
    requires i < |s| && SortedBy(s[..i], key)
    ensures Inserting(s, i, i, key)
  {
    forall p, q | 0 <= p < q <= i && p != i && q != i
      ensures key(s[p]) <= key(s[q])
    {
      assert s[p] == s[..i][p] && s[q] == s[..i][q];
    }
  }

  lemma InsertionSwap(s: seq<Appointment>, j: nat, i: nat, key: Appointment -> int)
    requires 0 < j <= i < |s| && Inserting(s, j, i, key) && key(s[j - 1]) > key(s[j])
    ensures Inserting(s[j - 1 := s[j]][j := s[j - 1]], j - 1, i, key)
  {
  }

  lemma InsertionDone(s: seq<Appointment>, j: nat, i: nat, key: Appointment -> int)
    requires j <= i < |s| && Inserting(s, j, i, key)
    requires j == 0 || key(s[j - 1]) <= key(s[j])
    ensures SortedBy(s[..i + 1], key)
  {
  }

  /** Sort a sequence through a fresh array, as `filter(...).sort(...)` sorts its own copy. */
  method SortedCopy(xs: seq<Appointment>, key: Appointment -> int) returns (r: seq<Appointment>)
    ensures SortedBy(r, key) && multiset(r) == multiset(xs)
  {
    var a := new Appointment[|xs|](i requires 0 <= i < |xs| => xs[i]);
    assert a[..] == xs;
    SortByKey(a, key);
    r := a[..];
  }

  /** `getStatusText`. */
  function StatusText(status: string): string {
    if status == Pending then "Beklemede"
    else if status == Confirmed then "Onaylandı"
    else if status == Cancelled then "İptal Edildi"
    else if status == Completed then "Tamamlandı"
    else status
  }

  /** The four statuses read differently; any other status is shown as it is. */
  lemma StatusTextDistinct(s: string, t: string)
    requires s in {Pending, Confirmed, Cancelled, Completed}
    requires t in {Pending, Confirmed, Cancelled, Completed}
    requires s != t
    ensures StatusText(s) != StatusText(t)
  {
    assert StatusText(s)[0] != StatusText(t)[0];
  }

  /** What an empty tab says; the student list adds a link to the booking page. */
  function EmptyListText(tab: string, studentPage: bool): string {
    if tab == "all" then
      if studentPage then "Henüz randevu bulunmamaktadır. <a href=\"randevu-al.html\">Yeni randevu oluştur</a>."
      else "Henüz randevu bulunmamaktadır."
    else StatusText(tab) + " durumunda randevu bulunmamaktadır."
  }

  datatype ListView = Rows(rows: seq<Appointment>) | EmptyNotice(text: string)

  /** `loadAppointments`: the tab's records newest first, or the empty-tab notice. */
  method LoadAppointments(xs: seq<Appointment>, tab: string, studentPage: bool) returns (view: ListView)
    ensures view.EmptyNotice? <==> TabFilter(xs, tab) == []
    ensures view.EmptyNotice? ==> view.text == EmptyListText(tab, studentPage)
    ensures view.Rows? ==> NewestFirst(view.rows) && multiset(view.rows) == multiset(TabFilter(xs, tab))
  {
    var filtered := TabFilter(xs, tab);
    if |filtered| == 0 {
      view := EmptyNotice(EmptyListText(tab, studentPage));
    } else {
      var rows := SortedCopy(filtered, NewestKey);
      NewestKeyOrder(rows);
      view := Rows(rows);
    }
  }

  /** No record left out of `recent` is newer than one in it. */
  predicate NewestOf(recent: seq<Appointment>, all: seq<Appointment>) {
    forall r, x :: r in recent && x in multiset(all) - multiset(recent) ==> r.createdAt >= x.createdAt
  }

  /** The first `k` of a newest-first sequence are its `k` newest. */
  lemma TakeNewest(s: seq<Appointment>, k: nat)
    requires NewestFirst(s) && k <= |s|
    ensures NewestOf(s[..k], s)
    ensures multiset(s[..k]) <= multiset(s)
  {
    SplitMultiset(s, k);
    forall r, x | r in s[..k] && x in multiset(s) - multiset(s[..k])
      ensures r.createdAt >= x.createdAt
    {
      var p :| 0 <= p < k && s[..k][p] == r;
      assert x in s[k..];
      var q :| 0 <= q < |s| - k && s[k..][q] == x;
      assert s[p] == r && s[k + q] == x;
    }
  }

  /** Taking the first `k` elements leaves the rest, counted with multiplicity. */
  lemma SplitMultiset(s: seq<Appointment>, k: nat)
    requires k <= |s|
    ensures multiset(s) - multiset(s[..k]) == multiset(s[k..])
    ensures multiset(s[..k]) <= multiset(s)
  {
    assert s == s[..k] + s[k..];
  }

  function Min(a: nat, b: nat): nat {
    if a < b then a else b
  }

  /** The newest `n` of `xs`, newest first (the sort and `slice(0, n)` of the dashboards). */
  method Newest(xs: seq<Appointment>, n: nat) returns (recent: seq<Appointment>)
    ensures |recent| == Min(n, |xs|)
    ensures NewestFirst(recent)
    ensures multiset(recent) <= multiset(xs)
    ensures NewestOf(recent, xs)
  {
    var sorted := SortedCopy(xs, NewestKey);
    NewestKeyOrder(sorted);
    assert |sorted| == |multiset(sorted)| == |multiset(xs)| == |xs|;
    var k := Min(n, |sorted|);
    recent := Take(sorted, n);
    assert recent == sorted[..k];
    TakeNewest(sorted, k);
  }

  datatype StudentDashboard = StudentDashboard(recent: seq<Appointment>, total: nat, pending: nat)

  /** The student dashboard: the three newest records and the total and pending counts. */
  method StudentDashboardView(xs: seq<Appointment>) returns (view: Option<StudentDashboard>)
    ensures view.None? <==> xs == []
    ensures view.Some? ==> view.value.total == |xs|
    ensures view.Some? ==> view.value.pending == CountWhere(xs, HasStatus(Pending))
    ensures view.Some? ==> |view.value.recent| == Min(3, |xs|) && NewestFirst(view.value.recent)
    ensures view.Some? ==> multiset(view.value.recent) <= multiset(xs) && NewestOf(view.value.recent, xs)
  {
    if |xs| == 0 {
      return None;
    }
    var recent := Newest(xs, 3);
    var pending := |Filter(xs, HasStatus(Pending))|;
    FilterLength(xs, HasStatus(Pending));
    view := Some(StudentDashboard(recent, |xs|, pending));
  }

  /** The "today" test as written: the date text includes today's day number. */
  function IsTodayAsWritten(day: nat): Appointment -> bool {
    (a: Appointment) => Contains(a.date, NatToString(day)) && a.status == Confirmed
  }

  /** The intended "today" test: the date is today's date text, and it is confirmed. */
  function IsToday(todayText: string): Appointment -> bool {
    (a: Appointment) => a.date == todayText && a.status == Confirmed
  }

  /** Day 3 counts a confirmed appointment on 20 May as today's, through the 3 of 2023. */
  lemma TodayHeuristicMiscounts(a: Appointment, day: nat, todayText: string)
    requires a.date == "20 Mayıs 2023" && a.status == Confirmed
    requires day == 3 && todayText == "3 Haziran 2023"
    ensures IsTodayAsWritten(day)(a)
    ensures !IsToday(todayText)(a)
  {
    assert NatToString(day) == "3";
    assert OccursAt(a.date, "3", 12);
    assert a.date[0] != todayText[0];
  }

  /** Whatever the intended test counts, the written one counts too: it only over-counts. */
  lemma TodayWithinHeuristic(a: Appointment, day: nat, rest: string)
    requires IsToday(NatToString(day) + " " + rest)(a)
    ensures IsTodayAsWritten(day)(a)
  {
    assert OccursAt(a.date, NatToString(day), 0);
  }

  /**
   * Which "today" test the academic dashboard runs: the script's own, whether
   * the date text includes today's day number, or the intended one, whether
   * the date is today's date text.
   */
  datatype TodayRule = DayIncluded(day: nat) | SameDate(todayText: string)

  function TodayTest(rule: TodayRule): Appointment -> bool {
    match rule
    case DayIncluded(day) => IsTodayAsWritten(day)
    case SameDate(todayText) => IsToday(todayText)
  }

  /** Over a whole list, the written test counts at least every appointment dated today. */
  lemma TodayCountWithinHeuristic(xs: seq<Appointment>, day: nat, rest: string)
    ensures CountWhere(xs, TodayTest(SameDate(NatToString(day) + " " + rest)))
      <= CountWhere(xs, TodayTest(DayIncluded(day)))
  {
    forall a | a in xs && TodayTest(SameDate(NatToString(day) + " " + rest))(a)
      ensures TodayTest(DayIncluded(day))(a)
    {
      TodayWithinHeuristic(a, day, rest);
    }
    CountWhereMonotone(xs, TodayTest(SameDate(NatToString(day) + " " + rest)), TodayTest(DayIncluded(day)));
  }

  /** On 3 June 2023 a list holding only a confirmed appointment of 20 May counts one today as written, none as intended. */
  lemma TodayRulesDisagree(xs: seq<Appointment>, a: Appointment)
    requires xs == [a] && a.date == "20 Mayıs 2023" && a.status == Confirmed
    ensures CountWhere(xs, TodayTest(DayIncluded(3))) == 1
    ensures CountWhere(xs, TodayTest(SameDate("3 Haziran 2023"))) == 0
  {
    TodayHeuristicMiscounts(a, 3, "3 Haziran 2023");
    assert xs[1..] == [];
  }

  datatype AcademicDashboard = AcademicDashboard(
    total: nat, today: nat, todayRows: seq<Appointment>, recentPending: seq<Appointment>)

  /**
   * The academic dashboard under either "today" test: the total, the
   * appointments the test accepts counted and listed by time, and the three
   * newest pending requests. `DayIncluded` is the script; `SameDate` is the
   * correction.
   */
  method AcademicDashboardView(xs: seq<Appointment>, rule: TodayRule) returns (view: Option<AcademicDashboard>)
    ensures view.None? <==> xs == []
    ensures view.Some? ==> view.value.total == |xs|
    ensures view.Some? ==> view.value.today == CountWhere(xs, TodayTest(rule))
    ensures view.Some? ==>
      multiset(view.value.todayRows) == multiset(Filter(xs, TodayTest(rule)))
      && SortedBy(view.value.todayRows, TimeOrder)
    ensures view.Some? ==>
      var pending := Filter(xs, HasStatus(Pending));
      && |view.value.recentPending| == Min(3, |pending|)
      && NewestFirst(view.value.recentPending)
      && multiset(view.value.recentPending) <= multiset(pending)
      && NewestOf(view.value.recentPending, pending)
  {
    if |xs| == 0 {
      return None;
    }
    var today := Filter(xs, TodayTest(rule));
    FilterLength(xs, TodayTest(rule));
    var todayRows := SortedCopy(today, TimeOrder);
    var pending := Filter(xs, HasStatus(Pending));
    var recentPending := Newest(pending, 3);
    view := Some(AcademicDashboard(|xs|, |today|, todayRows, recentPending));
  }

  /** Every record on the pending table is pending. */
  lemma RecentPendingArePending(recent: seq<Appointment>, xs: seq<Appointment>)
    requires multiset(recent) <= multiset(Filter(xs, HasStatus(Pending)))
    ensures forall r :: r in recent ==> r.status == Pending && r in xs
  {
    forall r | r in recent
      ensures r.status == Pending && r in xs
    {
      assert r in multiset(recent);
      assert r in Filter(xs, HasStatus(Pending));
    }
  }

  // ---------------------------------------------------------------------------
  // Unit or academic bookings
  // ---------------------------------------------------------------------------

  /** Unit bookings carry a `BRM-` id. */
  predicate IsUnitAppointment(a: Appointment) {
    StartsWith(a.id, "BRM-")
  }

  datatype Target = Target(name: string, department: string, isUnit: bool)

  /** Whom a list row shows: the unit for `BRM-` ids, otherwise the academic's name and department. */
  function DisplayTarget(a: Appointment): Target {
    if IsUnitAppointment(a) then
      Target(if a.unit != "" then a.unit else "İdari Birim", "İdari Birim", true)
    else if a.academic == "" then
      Target("Akademisyen", "", false)
    else
      Target(NameOf(a.academic), DepartmentOf(a.academic).GetOr(""), false)
  }

  /** An academic booking made as "Name (Department)" shows that name and department. */
  lemma DisplayTargetOfAcademic(a: Appointment, name: string, dept: string)
    requires !IsUnitAppointment(a)
    requires a.academic == name + " (" + dept + ")"
    requires !Contains(name, " (") && !Contains(dept, " (") && ')' !in dept
    ensures DisplayTarget(a) == Target(name, dept, false)
  {
    NameDepartmentRoundTrip(name, dept);
  }
}
