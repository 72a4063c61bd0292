/**
 * The search and filter rules of the listing pages: which academic cards and
 * which announcement cards stay visible for the chosen criteria, the single
 * "no results" notice, the faculty-to-department table, the search-results
 * page, the list limit of the academic loader, the home-page announcement
 * teaser and the registration form's checks.
 *
 * Every text compared here is already lower-cased and trimmed by the caller
 * (the search-results page, which lower-cases on its own, takes the
 * lower-casing as a function parameter).
 */
module Search {
  import opened Options
  import opened Text
  import opened Collections

  /* ---------------------------------------------------------------------- */
  /* Academic cards                                                          */
  /* ---------------------------------------------------------------------- */

  /**
   * The filter inputs: the search text, the faculty key, the department key
   * and the visible text of the chosen department option.
   */
  datatype AcademicCriteria = AcademicCriteria(
    search: string, faculty: string, department: string, departmentText: string)

  /**
   * A card as the filter reads it: the lower-cased name (absent when the card
   * has no heading) and the lower-cased department line ("" when missing).
   */
  datatype AcademicCard = AcademicCard(name: Option<string>, department: string)

  /** The search text occurs in the name or in the department line, or is empty. */
  predicate SearchMatches(search: string, name: string, department: string) {
    search == "" || Contains(name, search) || Contains(department, search)
  }

  /** Words that put a department in the Faculty of Science and Letters. */
  const FenEdebiyatWords: seq<string> :=
    ["fen edebiyat", "psikoloji", "kimya", "biyoloji", "matematik", "türk dili"]

  /** Some word of `words` occurs in `text`. */
  predicate AnyContained(text: string, words: seq<string>) {
    exists w :: w in words && Contains(text, w)
  }

  /**
   * The faculty rule as written: no faculty matches every card; each of the
   * four known keys looks for its own words in the department line; any other
   * key matches nothing.
   */
  predicate FacultyMatchesAsWritten(faculty: string, department: string) {
    if faculty == "" then true
    else if faculty == "muhendislik" then Contains(department, "mühendisli")
    else if faculty == "isletme" then Contains(department, "işletme")
    else if faculty == "fen-edebiyat" then AnyContained(department, FenEdebiyatWords)
    else if faculty == "egitim" then Contains(department, "eğitim")
    else false
  }

  /** The combining dot above that Unicode lower-casing leaves behind from a capital `İ`. */
  const CombiningDot: char := '\U{0307}'

  /**
   * The faculty rule on a department line with the combining dot removed, so
   * that "İşletme", lower-cased to "i" + dot + "şletme", reads as "işletme".
   */
  predicate FacultyMatches(faculty: string, department: string) {
    FacultyMatchesAsWritten(faculty, RemoveAll(department, CombiningDot))
  }

  /** Which faculty rule the filter runs: the script's own, or the one with the combining dot removed. */
  datatype FacultyRule = FacultyAsWritten | DotRemoved

  predicate FacultyMatchesUnder(rule: FacultyRule, faculty: string, department: string) {
    match rule
    case FacultyAsWritten => FacultyMatchesAsWritten(faculty, department)
    case DotRemoved => FacultyMatches(faculty, department)
  }

  /** Where the department line carries no combining dot, both rules agree. */
  lemma FacultyFixKeepsPlainText(faculty: string, department: string)
    requires CombiningDot !in department
    ensures FacultyMatches(faculty, department) == FacultyMatchesAsWritten(faculty, department)
  {
  }

  /**
   * The lower-cased "İşletme" (`i`, the combining dot, then `şletme`) does not
   * contain "işletme", so the business faculty hides its own academics.
   */
  lemma IsletmeMissesDottedCapital(department: string)
    requires department == "i" + [CombiningDot] + "şletme"
    ensures !FacultyMatchesAsWritten("isletme", department)
  {
    var word := "işletme";
    forall i: nat | i + |word| <= |department|
      ensures !OccursAt(department, word, i)
    {
      if i == 0 {
        assert department[i..i + |word|][1] != word[1];
      } else {
        assert department[i..i + |word|][0] != word[0];
      }
    }
  }

  /** With the dot removed, the business faculty finds the "İşletme" academics. */
  lemma IsletmeMatchesDottedCapital(head: string, tail: string, department: string)
    requires head == "i" && tail == "şletme" && department == head + [CombiningDot] + tail
    ensures FacultyMatches("isletme", department)
  {
    assert RemoveAll(department, CombiningDot) == head + tail by {
      assert CombiningDot !in head && CombiningDot !in tail;
      RemoveAllAppend(head + [CombiningDot], tail, CombiningDot);
      RemoveAllAppend(head, [CombiningDot], CombiningDot);
      assert RemoveAll([CombiningDot], CombiningDot) == [];
    }
    assert OccursAt(head + tail, "işletme", 0);
  }

  /**
   * The department rule: no department chosen, the "all departments" option,
   * or the option text before " (" occurs in the card's department line.
   */
  predicate DepartmentMatches(c: AcademicCriteria, department: string) {
    c.department == "" || c.departmentText == "tüm bölümler"
    || Contains(department, SplitHead(c.departmentText, " ("))
  }

  /** A card with a heading stays visible when all three rules hold. */
  predicate Visible(rule: FacultyRule, c: AcademicCriteria, card: AcademicCard) {
    card.name.Some?
    && SearchMatches(c.search, card.name.value, card.department)
    && FacultyMatchesUnder(rule, c.faculty, card.department)
    && DepartmentMatches(c, card.department)
  }

  /** Empty criteria show every card that has a heading. */
  lemma EmptyCriteriaShowAll(rule: FacultyRule, c: AcademicCriteria, card: AcademicCard)
    requires c.search == "" && c.faculty == "" && c.department == ""
    ensures Visible(rule, c, card) <==> card.name.Some?
  {
  }

  /** A faculty key outside the four known ones hides every card. */
  lemma UnknownFacultyHidesAll(rule: FacultyRule, c: AcademicCriteria, card: AcademicCard)
    requires c.faculty !in {"", "muhendislik", "isletme", "fen-edebiyat", "egitim"}
    ensures !Visible(rule, c, card)
  {
  }

  /**
   * With only the business faculty chosen, the filter as written hides a
   * card whose department line is the lower-cased "İşletme", and the
   * corrected filter shows it.
   */
  lemma IsletmeCardVisibility(c: AcademicCriteria, card: AcademicCard, head: string, tail: string)
    requires c.search == "" && c.faculty == "isletme" && c.department == ""
    requires head == "i" && tail == "şletme"
    requires card.name.Some? && card.department == head + [CombiningDot] + tail
    ensures !Visible(FacultyAsWritten, c, card)
    ensures Visible(DotRemoved, c, card)
  {
    IsletmeMissesDottedCapital(card.department);
    IsletmeMatchesDottedCapital(head, tail, card.department);
  }

  /** Choosing "all departments" never hides a card by department. */
  lemma AllDepartmentsOption(c: AcademicCriteria, department: string)
    requires c.departmentText == "tüm bölümler"
    ensures DepartmentMatches(c, department)
  {
  }

  /**
   * A chosen department whose option text is "name (count)" keeps the cards
   * whose department line holds that name.
   */
  lemma {:induction false} DepartmentByName(c: AcademicCriteria, name: string, rest: string, department: string)
    requires c.department != "" && c.departmentText == name + " (" + rest
    requires !Contains(name, " (")
    ensures DepartmentMatches(c, department) <==>
      c.departmentText == "tüm bölümler" || Contains(department, name)
  {
    FirstParenAfter(name, rest);
    assert SplitHead(c.departmentText, " (") == name by {
      assert c.departmentText[..|name|] == name;
    }
  }

  /**
   * The "no results" notice: `notices` copies of it are on the page before the
   * filter runs. With nothing visible one is inserted when none is there and a
   * place for it exists; with something visible the first one found is removed.
   */
  function NoticeAfter(visible: nat, notices: nat, container: bool): nat {
    if visible == 0 then (if notices == 0 && container then 1 else notices)
    else if notices > 0 then notices - 1
    else 0
  }

  /**
   * From a page with at most one notice there is never a second one, and
   * there is one exactly when nothing is visible and a notice was already
   * there or could be placed.
   */
  lemma NoticeSingleton(visible: nat, notices: nat, container: bool)
    requires notices <= 1
    ensures NoticeAfter(visible, notices, container) <= 1
    ensures NoticeAfter(visible, notices, container) == 1 <==>
      visible == 0 && (notices == 1 || container)
  {
  }

  /** Running the filter again with the same result changes nothing more. */
  lemma NoticeSettles(visible: nat, notices: nat, container: bool)
    requires notices <= 1
    ensures NoticeAfter(visible, NoticeAfter(visible, notices, container), container)
      == NoticeAfter(visible, notices, container)
  {
  }

  /** Whether a card counts as visible after the filter. */
  function IsShown(rule: FacultyRule, c: AcademicCriteria): AcademicCard -> bool {
    (card: AcademicCard) => Visible(rule, c, card)
  }

  /** A card's display after the filter: decided by the rules, or kept when it has no heading. */
  function ShownAfter(rule: FacultyRule, c: AcademicCriteria, card: AcademicCard, before: bool): bool {
    if card.name.Some? then Visible(rule, c, card) else before
  }

  /**
   * `filterAcademicians` under either faculty rule (`FacultyAsWritten` is the
   * script, `DotRemoved` the correction): show or hide each card, count the
   * visible ones and update the notice. A card without a heading is skipped and keeps its
   * display; with no cards at all the handler leaves before the notice.
   */
  method FilterAcademicians(rule: FacultyRule, cards: seq<AcademicCard>, shown: array<bool>, c: AcademicCriteria,
                            notices: nat, container: bool)
    returns (visible: nat, noticesAfter: nat)
    requires shown.Length == |cards|
    modifies shown
    ensures forall i :: 0 <= i < |cards| ==> shown[i] == ShownAfter(rule, c, cards[i], old(shown[i]))
    ensures visible == CountWhere(cards, IsShown(rule, c))
    ensures noticesAfter == if cards == [] then notices else NoticeAfter(visible, notices, container)
  {
    if |cards| == 0 {
      return 0, notices;
    }
    ghost var before := shown[..];
    visible := 0;
    var i := 0;
    while i < |cards|
      invariant 0 <= i <= |cards|
      invariant forall k :: 0 <= k < i ==> shown[k] == ShownAfter(rule, c, cards[k], before[k])
      invariant forall k :: i <= k < |cards| ==> shown[k] == before[k]
      invariant visible == CountWhere(cards[..i], IsShown(rule, c))
    {
      CountWhereSnoc(cards[..i], cards[i], IsShown(rule, c));
      assert cards[..i + 1] == cards[..i] + [cards[i]];
      if cards[i].name.Some? {
        var matches := Visible(rule, c, cards[i]);
        shown[i] := matches;
        if matches {
          visible := visible + 1;
        }
      }
      i := i + 1;
    }
    assert cards[..i] == cards;
    noticesAfter := NoticeAfter(visible, notices, container);
  }

  /* ---------------------------------------------------------------------- */
  /* Announcement cards                                                      */
  /* ---------------------------------------------------------------------- */

  /** The announcement filter inputs: search text, category and department. */
  datatype AnnouncementCriteria = AnnouncementCriteria(search: string, category: string, department: string)

  /** An announcement card's lower-cased title, content, category and department ("" when missing). */
  datatype AnnouncementCard = AnnouncementCard(title: string, content: string, category: string, department: string)

  /** The search text occurs in the title or the content; category and department occur in theirs. */
  predicate AnnouncementMatches(c: AnnouncementCriteria, card: AnnouncementCard) {
    (c.search == "" || Contains(card.title, c.search) || Contains(card.content, c.search))
    && (c.category == "" || Contains(card.category, c.category))
    && (c.department == "" || Contains(card.department, c.department))
  }

  /**
   * Each criterion is independent: a card is shown exactly when it passes the
   * search, the category and the department test, and empty criteria show all.
   */
  lemma AnnouncementCriteriaCombine(c: AnnouncementCriteria, card: AnnouncementCard)
    ensures AnnouncementMatches(c, card) <==>
      (AnnouncementMatches(AnnouncementCriteria(c.search, "", ""), card)
       && AnnouncementMatches(AnnouncementCriteria("", c.category, ""), card)
       && AnnouncementMatches(AnnouncementCriteria("", "", c.department), card))
    ensures AnnouncementMatches(AnnouncementCriteria("", "", ""), card)
  {
  }

  function AnnouncementShown(c: AnnouncementCriteria): AnnouncementCard -> bool {
    (card: AnnouncementCard) => AnnouncementMatches(c, card)
  }

  /**
   * `filterDuyurular`: every card is shown or hidden, then the visible cards
   * are counted and the notice updated; with no cards the handler leaves first.
   */
  method FilterAnnouncements(cards: seq<AnnouncementCard>, shown: array<bool>, c: AnnouncementCriteria,
                             notices: nat, container: bool)
    returns (visible: nat, noticesAfter: nat)
    requires shown.Length == |cards|
    modifies shown
    ensures forall i :: 0 <= i < |cards| ==> shown[i] == AnnouncementMatches(c, cards[i])
    ensures visible == CountWhere(cards, AnnouncementShown(c))
    ensures noticesAfter == if cards == [] then notices else NoticeAfter(visible, notices, container)
  {
    if |cards| == 0 {
      return 0, notices;
    }
    visible := 0;
    var i := 0;
    while i < |cards|
      invariant 0 <= i <= |cards|
      invariant forall k :: 0 <= k < i ==> shown[k] == AnnouncementMatches(c, cards[k])
      invariant visible == CountWhere(cards[..i], AnnouncementShown(c))
    {
      CountWhereSnoc(cards[..i], cards[i], AnnouncementShown(c));
      assert cards[..i + 1] == cards[..i] + [cards[i]];
      shown[i] := AnnouncementMatches(c, cards[i]);
      if shown[i] {
        visible := visible + 1;
      }
      i := i + 1;
    }
    assert cards[..i] == cards;
    noticesAfter := NoticeAfter(visible, notices, container);
  }

  /* ---------------------------------------------------------------------- */
  /* Faculty table                                                           */
  /* ---------------------------------------------------------------------- */

  /** The departments listed under each faculty key; other keys have no entry. */
  function FacultyTable(faculty: string): Option<seq<string>> {
    if faculty == "muhendislik" then Some(["bilgisayar", "elektrik", "makine", "inşaat"])
    else if faculty == "isletme" then Some(["işletme", "ekonomi", "muhasebe", "pazarlama"])
    else if faculty == "fen-edebiyat" then Some(["kimya", "biyoloji", "matematik", "türk dili"])
    else if faculty == "egitim" then Some(["eğitim", "ingilizce", "matematik öğretmenliği", "okul öncesi"])
    else None
  }

  /**
   * The names every object literal inherits from `Object.prototype`. Looked up
   * in the table they give a function or an object, which is truthy and has no
   * `some`.
   */
  const ObjectPrototypeNames: set<string> := {
    "constructor", "__proto__", "hasOwnProperty", "isPrototypeOf",
    "propertyIsEnumerable", "toLocaleString", "toString", "valueOf",
    "__defineGetter__", "__defineSetter__", "__lookupGetter__", "__lookupSetter__"}

  /**
   * `mapFacultyToDepartment`: whether some department of the faculty occurs in
   * the text, or `None` where the call throws a `TypeError`.
   */
  function MapFacultyToDepartment(faculty: string, department: string): (r: Option<bool>)
    ensures r.None? <==> faculty in ObjectPrototypeNames
    ensures r == Some(true) <==>
      FacultyTable(faculty).Some? && exists w :: w in FacultyTable(faculty).value && Contains(department, w)
  {
    match FacultyTable(faculty)
    case Some(words) => Some(AnyContained(department, words))
    case None => if faculty in ObjectPrototypeNames then None else Some(false)
  }

  /** Only the four faculty keys map to anything. */
  lemma MapOnlyKnownFaculties(faculty: string, department: string)
    requires MapFacultyToDepartment(faculty, department) == Some(true)
    ensures faculty in {"muhendislik", "isletme", "fen-edebiyat", "egitim"}
  {
  }

  /**
   * For Science and Letters the table is narrower than the card filter's
   * word list: whatever the table maps, the filter keeps.
   */
  lemma FenEdebiyatTableWithinFilter(department: string)
    requires MapFacultyToDepartment("fen-edebiyat", department) == Some(true)
    ensures FacultyMatchesAsWritten("fen-edebiyat", department)
  {
    var w :| w in ["kimya", "biyoloji", "matematik", "türk dili"] && Contains(department, w);
    assert w in FenEdebiyatWords;
  }

  /* ---------------------------------------------------------------------- */
  /* Search results page                                                     */
  /* ---------------------------------------------------------------------- */

  /**
   * One entry of a result list, by the two texts the page searches: name and
   * department, name and description, name and faculty, or title and category.
   */
  datatype Entry = Entry(first: string, second: string)

  /** The search term from the `q` parameter, or "" when there is none. */
  function SearchTerm(q: Option<string>): string {
    q.GetOr("")
  }

  /** The lower-cased term occurs in one of the entry's two lower-cased texts. */
  function ResultMatches(lower: string -> string, term: string): Entry -> bool {
    (e: Entry) => Contains(lower(e.first), lower(term)) || Contains(lower(e.second), lower(term))
  }

  /** One result list of the search results page. */
  function SearchResults(entries: seq<Entry>, q: Option<string>, lower: string -> string): (r: seq<Entry>)
    ensures |r| <= |entries|
  {
    Filter(entries, ResultMatches(lower, SearchTerm(q)))
  }

  /**
   * An entry appears as often as in the list when the term occurs in one of
   * its texts and not at all otherwise.
   */
  lemma SearchResultsExact(entries: seq<Entry>, q: Option<string>, lower: string -> string, e: Entry)
    ensures multiset(SearchResults(entries, q, lower))[e] ==
      if Contains(lower(e.first), lower(SearchTerm(q))) || Contains(lower(e.second), lower(SearchTerm(q)))
      then multiset(entries)[e] else 0
  {
    FilterCount(entries, ResultMatches(lower, SearchTerm(q)), e);
  }

  /** Without a `q` parameter every list is shown whole. */
  lemma MissingTermShowsAll(entries: seq<Entry>, lower: string -> string)
    requires lower("") == ""
    ensures SearchResults(entries, None, lower) == entries
  {
    forall e | e in entries
      ensures ResultMatches(lower, "")(e)
    {
      EmptyIsContained(lower(e.first));
    }
    FilterKeepsAll(entries, ResultMatches(lower, ""));
  }

  /* ---------------------------------------------------------------------- */
  /* Small helpers                                                           */
  /* ---------------------------------------------------------------------- */

  /** The academic loader's limit: a positive limit below the list's length cuts it. */
  function Limit<T>(xs: seq<T>, limit: int): (r: seq<T>)
    ensures r <= xs
    ensures |r| == if 0 < limit < |xs| then limit else |xs|
  {
    if limit > 0 && |xs| > limit then xs[..limit] else xs
  }

  /** The home page shows at most six announcements. */
  const TeaserSize: nat := 6

  /**
   * The link targets of the home-page teaser: each shown card's own id, or
   * `duyuru-hp-N` for the N-th card when it has none.
   */
  function TeaserLinks(ids: seq<string>): (r: seq<string>)
    ensures |r| == if |ids| < TeaserSize then |ids| else TeaserSize
  {
    var shown := Take(ids, TeaserSize);
    seq(|shown|, i requires 0 <= i < |shown| =>
      if shown[i] != "" then shown[i] else "duyuru-hp-" + NatToString(i + 1))
  }

  /**
   * A card keeps its own id; fallback links start with `duyuru-hp-` and no
   * two cards without an id share a fallback.
   */
  lemma TeaserLinksDistinct(ids: seq<string>, i: nat, j: nat)
    requires i < j < |TeaserLinks(ids)|
    ensures ids[i] != "" ==> TeaserLinks(ids)[i] == ids[i]
    ensures ids[i] == "" ==> StartsWith(TeaserLinks(ids)[i], "duyuru-hp-")
    ensures ids[i] == "" && ids[j] == "" ==> TeaserLinks(ids)[i] != TeaserLinks(ids)[j]
  {
    var r := TeaserLinks(ids);
    var p := "duyuru-hp-";
    if ids[i] == "" {
      assert r[i] == p + NatToString(i + 1);
      assert r[i][..|p|] == p;
      if ids[j] == "" {
        assert r[j] == p + NatToString(j + 1);
        if r[i] == r[j] {
          assert r[i][|p|..] == NatToString(i + 1);
          assert r[j][|p|..] == NatToString(j + 1);
          NatToStringInjective(i + 1, j + 1);
        }
      }
    }
  }

  /** The registration form's inputs; `emailValid` stands for the e-mail pattern test. */
  datatype Registration = Registration(
    fullName: string, email: string, emailValid: bool, password: string,
    confirmPassword: string, userType: string, terms: bool)

  datatype RegisterError =
    | NameMissing | EmailMissing | EmailInvalid | PasswordMissing | PasswordShort
    | ConfirmMissing | ConfirmMismatch | UserTypeMissing | TermsUnchecked

  /** The errors the registration handler raises, in its order. */
  function RegisterErrors(f: Registration): seq<RegisterError> {
    (if f.fullName == "" then [NameMissing] else [])
    + (if f.email == "" then [EmailMissing] else if !f.emailValid then [EmailInvalid] else [])
    + (if f.password == "" then [PasswordMissing] else if |f.password| < 6 then [PasswordShort] else [])
    + (if f.confirmPassword == "" then [ConfirmMissing]
       else if f.password != f.confirmPassword then [ConfirmMismatch] else [])
    + (if f.userType == "" then [UserTypeMissing] else [])
    + (if !f.terms then [TermsUnchecked] else [])
  }

  /**
   * The form goes through exactly when every field is filled in, the e-mail
   * passes its test, the password has at least six characters and is
   * repeated, and the terms are accepted; a password check fails with one
   * error only.
   */
  lemma RegisterAccepts(f: Registration)
    ensures RegisterErrors(f) == [] <==>
      f.fullName != "" && f.email != "" && f.emailValid && |f.password| >= 6
      && f.confirmPassword == f.password && f.userType != "" && f.terms
    ensures PasswordMissing in RegisterErrors(f) ==> PasswordShort !in RegisterErrors(f)
    ensures ConfirmMismatch in RegisterErrors(f) ==> f.password != f.confirmPassword && f.confirmPassword != ""
  {
  }
}
