# Appointment booking pages: a verified model

This project models the logic inside the page script of a university
appointment site (`main.js`), separated from the DOM:

- **The booking wizard.** It has four panes: type, academic, date and time, then a summary.
  - The step indicator classes follow the active pane.
  - Next and previous move one pane at a time, with a fast path from the first pane straight to the third when an academic was pre-selected.
  - Every option group is exclusive.
  - The academic pre-selection compares an id with card names.
  - The submit handler either raises one alert per missing group or sends the confirmation page a query ending in a generated `RND-YYYYMMDD-NNNN` id.
  - The summary pane and calendar month stepping are modelled too.
- **The appointment store.**
  - The confirmation page builds a record from the query, with fixed defaults, and appends it to the stored list.
  - The cancel, approve and reject buttons rewrite the status of every record with a given id.
  - The status tabs filter; the lists sort newest first.
  - The dashboards show the three newest records, a total, a pending count, and today's appointments sorted by time.
  - The status texts, the offered buttons and the unit/academic display are modelled too.
- **The search and filter rules.**
  - Academic cards are filtered by search text, faculty and department.
  - Announcement cards are filtered by search text, category and department.
  - A single "no results" notice is kept.
  - The faculty-to-department table, the search results page and the academic loader's list limit are modelled.
  - So are the home page's announcement links and the registration form checks.
- **The flow between pages.** A booking submitted by the wizard comes back from the confirmation page as the stored record.

Layout:

| file | module | contents |
|---|---|---|
| `options.dfy` | `Options` | `Option` |
| `text.dfy` | `Text` | the JavaScript string operations the script uses, over `seq<char>` |
| `collections.dfy` | `Collections` | `filter`, counting, `slice(0, n)` |
| `wizard.dfy` | `Wizard` | the booking wizard; the `BookingWizard` class holds the active pane and the indicator array |
| `store.dfy` | `Store` | records, status rewrites and queries; the `AppointmentStore` class holds the stored sequence |
| `search.dfy` | `Search` | the filters and the small helpers above |
| `flow.dfy` | `Flow` | wizard query → confirmation page record |

Conventions:

- Texts a handler reads from the page are parameters. A missing element and an empty text are both `""`, since the script treats them alike through `||`.
- Lower-casing, clocks and `Math.random` are inputs. The random draw is the `draw` in `1000 + draw`, with `draw < 9000`.

## Model

All source cells refer to `view/ddo-AppointmentV0-main/js/main.js`.

| member | source | states |
|---|---|---|
| Wizard.Marks | view/ddo-AppointmentV0-main/js/main.js:205-221 | `updateStepsIndicator(k)` yields one mark per indicator |
| Wizard.IndicatorCounts | view/ddo-AppointmentV0-main/js/main.js:205-221 | exactly one indicator is active when 0 ≤ k < count, none otherwise; exactly the min(k, count) indicators before k are completed |
| Wizard.MarksExclusive | view/ddo-AppointmentV0-main/js/main.js:209-218 | indicator i is active iff i = k, completed iff i < k, never both |
| Wizard.BookingWizard.UpdateStepsIndicator | view/ddo-AppointmentV0-main/js/main.js:205-221 | the loop leaves the indicator array equal to the marks for k |
| Wizard.NextStep | view/ddo-AppointmentV0-main/js/main.js:150-165 | next moves to the following pane when one exists and otherwise stays; the fast path moves from the first pane to the third |
| Wizard.PrevStep | view/ddo-AppointmentV0-main/js/main.js:185-201 | previous moves to the pane before when one exists and otherwise stays |
| Wizard.PrevAfterNext | view/ddo-AppointmentV0-main/js/main.js:150-201 | previous undoes next, except after the fast path, where it lands on the academic pane |
| Wizard.FastPathIndicators | view/ddo-AppointmentV0-main/js/main.js:656-673 | after the fast path the first two indicators are completed and the third is active |
| Wizard.BookingWizard.constructor | view/ddo-AppointmentV0-main/js/main.js:146-148 | a fresh page shows the first pane |
| Wizard.BookingWizard.Next | view/ddo-AppointmentV0-main/js/main.js:150-165 | the pane becomes NextStep and the indicators are redrawn only when the pane changed; an unchanged pane leaves the indicators untouched |
| Wizard.BookingWizard.Prev | view/ddo-AppointmentV0-main/js/main.js:185-201 | the same for previous |
| Wizard.FirstSelected | view/ddo-AppointmentV0-main/js/main.js:683-704 | `querySelector('.x.selected')` returns the least selected index, and none exactly when nothing is selected |
| Wizard.OnlySelectedCount | view/ddo-AppointmentV0-main/js/main.js:259-267 | the flags after a click on option k of n hold exactly one selected option when k < n, and none otherwise |
| Wizard.SelectExclusive | view/ddo-AppointmentV0-main/js/main.js:256-311 | after a click the group's flags are exactly "only the clicked one" |
| Wizard.ClickSelectsOne | view/ddo-AppointmentV0-main/js/main.js:256-311 | after a click exactly one option is selected, and the first selected one is the clicked one |
| Wizard.IdMissesTurkishName | view/ddo-AppointmentV0-main/js/main.js:626-631 | as written, the id `ahmet-yilmaz` does not match the card "Prof. Dr. Ahmet Yılmaz" |
| Wizard.SlugMatches | view/ddo-AppointmentV0-main/js/main.js:620-631 | with the folded comparison, the id made from a person's name matches every card whose lower-cased name ends with it |
| Wizard.SelectAppropriateAcademic | view/ddo-AppointmentV0-main/js/main.js:613-640 | under the written id rule (`IdAsWritten`) and under the folded one alike, every card is selected iff it matches under that rule; `found` iff some card ended selected |
| Wizard.NameHandoverAgrees | view/ddo-AppointmentV0-main/js/main.js:620-625 | when a name is handed over, both id rules select exactly the cards whose heading is that name |
| Wizard.PreselectionSelectsSeveral | view/ddo-AppointmentV0-main/js/main.js:620-640 | under either id rule, an id naming only a first name selects two different cards, so "at most one selected" does not hold on this path |
| Wizard.MissingAlertsExact | view/ddo-AppointmentV0-main/js/main.js:683-709 | each missing group raises its own alert and only missing groups do; no alert iff all four are selected |
| Wizard.MissingAlertsDistinct | view/ddo-AppointmentV0-main/js/main.js:683-709 | no alert is raised twice |
| Wizard.AlertTextsDistinct | view/ddo-AppointmentV0-main/js/main.js:687-707 | the four alert messages differ |
| Wizard.SubmitGate | view/ddo-AppointmentV0-main/js/main.js:683-744 | a redirect happens iff all four groups are selected and carries the booking query with the generated id; otherwise the alerts are exactly the missing ones and nothing is sent |
| Wizard.BookingQueryKeys | view/ddo-AppointmentV0-main/js/main.js:726-741 | the query's keys are type, academic, date and time, then `notes` only when the notes are non-empty, and the id last |
| Wizard.QueryHeadKeys | view/ddo-AppointmentV0-main/js/main.js:727-730 | the first four keys are type, academic, date and time |
| Wizard.AppointmentIdPrefix | view/ddo-AppointmentV0-main/js/main.js:741 | a generated id starts with `RND-` and never with the `BRM-` of unit bookings |
| Wizard.AppointmentIdParses | view/ddo-AppointmentV0-main/js/main.js:736-741 | for four-digit years the id has 17 characters and reads back as year, month counted from 1, day and a serial in [1000, 9999] |
| Wizard.IdSlices | view/ddo-AppointmentV0-main/js/main.js:741 | the fixed-width fields of the id come back by slicing |
| Wizard.SummaryMatchesSubmission | view/ddo-AppointmentV0-main/js/main.js:224-254 | the summary names the same academic and time that the submission sends |
| Wizard.SummaryDateAgrees | view/ddo-AppointmentV0-main/js/main.js:235-236 | with a two-word calendar title the summary's date and the submitted date agree |
| Wizard.SummaryDateOneWord | view/ddo-AppointmentV0-main/js/main.js:235-236 | a one-word calendar title makes the summary print `undefined` where the query sends 2023 |
| Wizard.ShiftMonth | view/ddo-AppointmentV0-main/js/main.js:324-337 | stepping the calendar by delta months keeps the month in 0..11 and moves year·12+month by exactly delta |
| Wizard.ShiftMonthInverse | view/ddo-AppointmentV0-main/js/main.js:324-332 | stepping forward then back shows the same month |
| Store.NameDepartmentRoundTrip | view/ddo-AppointmentV0-main/js/main.js:788-789 | splitting "name (dept)" at the first " (" and removing the first ")" gives back the name and the department |
| Store.NameWithoutDepartment | view/ddo-AppointmentV0-main/js/main.js:788-789 | a text without " (" is all name and has no department |
| Store.DefaultNamesPlain | view/ddo-AppointmentV0-main/js/main.js:787-789 | the default academic name and department hold no " (" and no ")", so they survive the split |
| Store.ParamOr | view/ddo-AppointmentV0-main/js/main.js:786-794 | an absent or empty parameter takes its default, and any other parameter is used as it is |
| Store.CreatedRecord | view/ddo-AppointmentV0-main/js/main.js:783-800 | a record is built iff a non-empty id is given; it is pending, stamped with now, and every field is its parameter or its fixed default |
| Store.DefaultAcademicSplits | view/ddo-AppointmentV0-main/js/main.js:787-789 | without an academic parameter the record names Prof. Dr. Ahmet Yılmaz of Bilgisayar Mühendisliği |
| Store.WithStatusEffect | view/ddo-AppointmentV0-main/js/main.js:989-997 | a status rewrite keeps the length, the order and the ids; records with the id change only in their status and the others do not change |
| Store.LastStatusWins | view/ddo-AppointmentV0-main/js/main.js:989-997 | two rewrites for one id leave the second status |
| Store.WithStatusIdempotent | view/ddo-AppointmentV0-main/js/main.js:1217-1225 | applying the same rewrite twice is the same as once |
| Store.WithStatusCommutes | view/ddo-AppointmentV0-main/js/main.js:1244-1252 | rewrites for different ids commute |
| Store.WithStatusAbsent | view/ddo-AppointmentV0-main/js/main.js:2097-2106 | an id held by no record changes nothing |
| Store.OfferedActionsMoveForward | view/ddo-AppointmentV0-main/js/main.js:932-933 | an offered button always changes the status; only pending records can be confirmed; cancelled and completed records offer only details |
| Store.ApproveReopensTwin | view/ddo-AppointmentV0-main/js/main.js:1121-1125 | the gating is in the buttons only, so approving a pending record also confirms a cancelled record with the same id |
| Store.AppointmentStore.constructor | view/ddo-AppointmentV0-main/js/main.js:802 | the store starts from the saved list |
| Store.AppointmentStore.Append | view/ddo-AppointmentV0-main/js/main.js:803 | `push` adds the record at the end and keeps the earlier ones |
| Store.AppointmentStore.Confirm | view/ddo-AppointmentV0-main/js/main.js:783-806 | the confirmation page appends exactly the created record; without an id the store is unchanged |
| Store.AppointmentStore.UpdateItem | view/ddo-AppointmentV0-main/js/main.js:2097-2106 | after a successful write the store is the id-wise map of the update; after a failed write it is unchanged |
| Store.AppointmentStore.UpdateStatus | view/ddo-AppointmentV0-main/js/main.js:989-997 | the store becomes the status rewrite of its old contents |
| Store.AppointmentStore.Act | view/ddo-AppointmentV0-main/js/main.js:985-997 | a status button rewrites the store when no confirmation is asked or the answer is yes; details, and a refused confirmation, change nothing |
| Store.TabFilterCount | view/ddo-AppointmentV0-main/js/main.js:851-853 | a record shows on a tab as often as it is stored when the tab is `all` or its status, and never otherwise |
| Store.NewestKeyOrder | view/ddo-AppointmentV0-main/js/main.js:868 | ascending order of −createdAt is exactly newest-first order |
| Store.ClockTimeKey | view/ddo-AppointmentV0-main/js/main.js:1585-1589 | the time key of "HH:MM" is HH·100 + MM |
| Store.SpaceBeforeTimeKey | view/ddo-AppointmentV0-main/js/main.js:1586-1587 | white space before a time does not change its key |
| Store.HundredsOrder | view/ddo-AppointmentV0-main/js/main.js:1585-1589 | comparing HH·100 + MM keys is comparing by hour, then by minute |
| Store.SortByKey | view/ddo-AppointmentV0-main/js/main.js:868 | the in-place sort leaves the array ascending by the key and a permutation of what it was |
| Store.InsertAt | view/ddo-AppointmentV0-main/js/main.js:868 | one insertion step extends the sorted prefix by one element and permutes the array |
| Store.SortedCopy | view/ddo-AppointmentV0-main/js/main.js:1585-1589 | the sorted copy is ascending by the key and a permutation of its input |
| Store.StatusTextDistinct | view/ddo-AppointmentV0-main/js/main.js:1007-1015 | the four statuses are shown with four different texts |
| Store.LoadAppointments | view/ddo-AppointmentV0-main/js/main.js:845-868 | the list shows the empty-tab notice iff the tab has no records; otherwise it shows exactly the tab's records, newest first |
| Store.TakeNewest | view/ddo-AppointmentV0-main/js/main.js:1317-1320 | the first k records of a newest-first list are its k newest |
| Store.Newest | view/ddo-AppointmentV0-main/js/main.js:1317-1320 | the slice has min(n, size) records, is newest first, is drawn from the input, and no record left out is newer than one kept |
| Store.StudentDashboardView | view/ddo-AppointmentV0-main/js/main.js:1305-1385 | there is no dashboard iff there are no records; otherwise the total is the record count, the pending count counts the pending records, and the table holds the three newest |
| Store.TodayHeuristicMiscounts | view/ddo-AppointmentV0-main/js/main.js:1464-1467 | as written, day 3 counts a confirmed appointment dated 20 Mayıs 2023 as today's |
| Store.TodayWithinHeuristic | view/ddo-AppointmentV0-main/js/main.js:1575-1578 | the written test accepts every appointment the intended test accepts, so it can only over-count |
| Store.AcademicDashboardView | view/ddo-AppointmentV0-main/js/main.js:1439-1589 | under the written "today" test (`DayIncluded`: the date includes today's day number) and the corrected one (`SameDate`) alike, the academic dashboard has the total; a today count and table, sorted by time, holding exactly the confirmed appointments the test accepts; and the three newest pending requests |
| Store.TodayCountWithinHeuristic | view/ddo-AppointmentV0-main/js/main.js:1464-1467 | over any list, the written test counts at least as many appointments as the corrected one |
| Store.TodayRulesDisagree | view/ddo-AppointmentV0-main/js/main.js:1464-1467 | on day 3 a list holding only a confirmed appointment of "20 Mayıs 2023" counts one for today as written and none as intended |
| Store.RecentPendingArePending | view/ddo-AppointmentV0-main/js/main.js:1474-1485 | every row of the pending table is a pending stored record |
| Store.DisplayTargetOfAcademic | view/ddo-AppointmentV0-main/js/main.js:877-887 | a non-unit booking made as "name (dept)" shows that name and department |
| Search.FacultyFixKeepsPlainText | view/ddo-AppointmentV0-main/js/main.js:1724-1729 | on text without the combining dot the corrected faculty rule is the written one |
| Search.IsletmeMissesDottedCapital | view/ddo-AppointmentV0-main/js/main.js:1726 | as written, the `isletme` faculty does not match the lower-cased "İşletme" |
| Search.IsletmeMatchesDottedCapital | view/ddo-AppointmentV0-main/js/main.js:1726 | the corrected rule matches it |
| Search.EmptyCriteriaShowAll | view/ddo-AppointmentV0-main/js/main.js:1720-1734 | under either faculty rule, empty criteria show every card with a heading |
| Search.UnknownFacultyHidesAll | view/ddo-AppointmentV0-main/js/main.js:1723-1730 | under either faculty rule, a non-empty faculty key other than the four known ones hides every card |
| Search.IsletmeCardVisibility | view/ddo-AppointmentV0-main/js/main.js:1720-1734 | a card from "İşletme" is hidden under the `isletme` faculty as written (`FacultyAsWritten`) and shown under the corrected rule |
| Search.AllDepartmentsOption | view/ddo-AppointmentV0-main/js/main.js:1732-1734 | the "tüm bölümler" option never hides a card by department |
| Search.DepartmentByName | view/ddo-AppointmentV0-main/js/main.js:1732-1734 | with an option text "name (…)" a card passes the department rule iff the option is "tüm bölümler" or its department line contains the name |
| Search.NoticeSingleton | view/ddo-AppointmentV0-main/js/main.js:1749-1769 | from at most one notice there is never a second; there is one iff nothing is visible and a notice was there or could be placed |
| Search.NoticeSettles | view/ddo-AppointmentV0-main/js/main.js:1828-1850 | running the filter again with the same result changes the notice no further |
| Search.FilterAcademicians | view/ddo-AppointmentV0-main/js/main.js:1692-1769 | under the written faculty rule and the corrected one alike, each card with a heading is shown iff it matches under that rule and a card without one keeps its display; the count is the number of visible cards; with no cards the notice is untouched, otherwise it is updated from the count |
| Search.AnnouncementCriteriaCombine | view/ddo-AppointmentV0-main/js/main.js:1809-1817 | an announcement is shown iff it passes the search, the category and the department test each on its own; empty criteria show it |
| Search.FilterAnnouncements | view/ddo-AppointmentV0-main/js/main.js:1795-1850 | every card is shown iff it matches; the visible count counts the matching cards; the notice is updated unless there are no cards |
| Search.MapFacultyToDepartment | view/ddo-AppointmentV0-main/js/main.js:1859-1872 | the call throws exactly for faculty names inherited from `Object.prototype`; otherwise it answers true iff the faculty is one of the four keys and one of its departments occurs in the text |
| Search.MapOnlyKnownFaculties | view/ddo-AppointmentV0-main/js/main.js:1859-1872 | only the four faculty keys map to anything |
| Search.FenEdebiyatTableWithinFilter | view/ddo-AppointmentV0-main/js/main.js:1859-1872 | every department the table puts in Science and Letters also passes the card filter's rule for that faculty |
| Search.SearchResultsExact | view/ddo-AppointmentV0-main/js/main.js:2134-2186 | an entry appears in a result list as often as it is listed when the lower-cased term occurs in one of its two texts, and otherwise never |
| Search.MissingTermShowsAll | view/ddo-AppointmentV0-main/js/main.js:2116 | without a `q` parameter every result list is shown whole |
| Search.Limit | view/ddo-AppointmentV0-main/js/main.js:97-101 | a positive limit below the list's length cuts the list to a prefix of that length; any other limit keeps it whole |
| Search.TeaserLinks | view/ddo-AppointmentV0-main/js/main.js:407 | the teaser shows at most six announcements |
| Search.TeaserLinksDistinct | view/ddo-AppointmentV0-main/js/main.js:417 | a card keeps its own id; fallback links start with `duyuru-hp-`; no two cards without an id share one |
| Search.RegisterAccepts | view/ddo-AppointmentV0-main/js/main.js:2024-2064 | the form goes through iff the name, e-mail and user type are filled in, the e-mail passes, the password has at least six characters and is repeated exactly, and the terms are accepted; a missing password is not also reported as too short, and a mismatch is reported only for a non-empty, different repetition |
| Flow.QueryParams | view/ddo-AppointmentV0-main/js/main.js:341-351 | the parameter object holds exactly the keys of the query |
| Flow.LastValueWins | view/ddo-AppointmentV0-main/js/main.js:346-348 | a key that does not occur again later reads as its own value |
| Flow.QueryKeysDistinct | view/ddo-AppointmentV0-main/js/main.js:726-741 | no key occurs twice in the submitted query |
| Flow.SubmittedId | view/ddo-AppointmentV0-main/js/main.js:741 | the confirmation page reads back the generated id |
| Flow.SubmittedAcademic | view/ddo-AppointmentV0-main/js/main.js:728 | the confirmation page reads back the academic line |
| Flow.SubmittedTime | view/ddo-AppointmentV0-main/js/main.js:730 | the confirmation page reads back the time slot |
| Flow.SubmittedNotes | view/ddo-AppointmentV0-main/js/main.js:731-733 | the notes arrive iff they are non-empty; otherwise no `notes` key is sent |
| Flow.BookingRoundTrip | view/ddo-AppointmentV0-main/js/main.js:715-806 | when no query value holds a `%`, a wizard booking comes back as a pending record with the generated id; the record is not a unit booking, and it has the chosen academic's name and department, the time and the notes |
| Text.IndexOf | view/ddo-AppointmentV0-main/js/main.js:788 | `indexOf` finds an occurrence iff there is one, and it finds the first |
| Text.SplitHead | view/ddo-AppointmentV0-main/js/main.js:788 | `split(sep)[0]` is a prefix without sep, and it is all of the text when sep is absent |
| Text.SplitSecond | view/ddo-AppointmentV0-main/js/main.js:789 | `split(sep)[1]` exists iff sep occurs; it follows the first piece and sep, holds no sep, and runs up to the next sep or to the end |
| Text.RemoveFirst | view/ddo-AppointmentV0-main/js/main.js:789 | `replace(')', '')` removes one character iff the text has a ")", and otherwise changes nothing |
| Text.RemoveAll | view/ddo-AppointmentV0-main/js/main.js:1586 | `split(':').join('')` leaves no ':' and changes nothing in a text without one |
| Text.RemoveAllFilters | view/ddo-AppointmentV0-main/js/main.js:1586 | `split(':').join('')` keeps exactly the characters other than ':', in order |
| Text.ParseIntAfterSpace | view/ddo-AppointmentV0-main/js/main.js:1586-1587 | `parseInt` skips leading white space |
| Text.ParseIntOfDigits | view/ddo-AppointmentV0-main/js/main.js:1586-1587 | `parseInt` of a non-empty digit string is its decimal value |
| Text.PadStart2 | view/ddo-AppointmentV0-main/js/main.js:738-739 | `padStart(2, '0')` keeps the text as its suffix and fills up to two characters with zeros |
| Text.RemoveFirstSplits | view/ddo-AppointmentV0-main/js/main.js:789 | `replace(')', '')` drops only the first ")" |
| Text.NatToStringInjective | view/ddo-AppointmentV0-main/js/main.js:417 | different numbers are written differently |
| Text.DigitsValueOfNatToString | view/ddo-AppointmentV0-main/js/main.js:738-740 | reading back `String(n)` gives n |
| Text.TwoDigits | view/ddo-AppointmentV0-main/js/main.js:738-739 | `padStart(2, '0')` of a number below 100 is two digits reading back as that number |
| Text.DigitsValueAppend | view/ddo-AppointmentV0-main/js/main.js:1586-1587 | joining digit strings shifts the first one's value by the second one's length |
| Text.RemoveAllAppend | view/ddo-AppointmentV0-main/js/main.js:1586-1587 | `split(':').join('')` on a concatenation is the concatenation of the pieces |
| Collections.FilterCount | view/ddo-AppointmentV0-main/js/main.js:851-853 | `filter` keeps each element as often as it occurs when it satisfies the test, and drops it otherwise |
| Collections.FilterLength | view/ddo-AppointmentV0-main/js/main.js:1376-1377 | `filter(...).length` counts the elements satisfying the test |
| Collections.CountWhereMonotone | view/ddo-AppointmentV0-main/js/main.js:1464-1467 | a test that holds wherever another holds counts at least as many elements |
| Collections.Take | view/ddo-AppointmentV0-main/js/main.js:1320 | `slice(0, n)` is a prefix of length min(n, size) |

## Left out

- The DOM itself is not modelled: rendering, class toggling as such, `alert`, the mobile menu and dropdowns, `renderAcademics` and `renderSearchResults`. A `confirm` dialog is a boolean input of `Store.AppointmentStore.Act`.
- The storage layer is not modelled. localStorage and sessionStorage reads and writes, and JSON parsing, are replaced by the store's in-memory sequence. A failed write is the `writes` flag of `UpdateItem`. The cross-tab read-modify-write race is concurrency.
- Percent-encoding is not modelled. Values arrive as they were sent. The confirmation page decodes each value a second time after `URLSearchParams` has already decoded it. On a value holding `%` that second decode can change it ("%41" becomes "A") or throw, and then no record is stored.
- Flow.BookingRoundTrip holds only for queries with no `%` in any value, where the second decode is the identity.
- Lower-casing and trimming (`toLowerCase`, `trim`) are not computed. The filters take texts that are already lower-cased, and the search results page takes the lower-casing as a function parameter. The one exception is the finding below, which uses the lower-cased form of "İşletme" under Unicode's default case mapping.
- The e-mail pattern test is a boolean input, `emailValid`.
- The clock, `Math.random` and `toISOString` are inputs. `createdAt` is an integer, so the comparator's parsing of ISO strings is not modelled.
- Sort stability is not claimed: the sorts are proved ordered and permutations only.
- Store.TimeKey: a time with no leading digits, where `parseInt` gives NaN, gets key 0. A comparator returning NaN counts as "equal", which is not modelled. The white space `Text.IsSpace` lists is skipped; other Unicode space separators are not. A leading `0x`, which `parseInt` reads as hexadecimal, is not modelled.
- Wizard.ShiftMonth steps only the year and month. The day overflow of `Date.setMonth` (31 March minus a month) is not modelled.
- The `fetch` of the announcements page and its HTML parsing are network I/O. Only the six-card limit and the fallback link ids are modelled.
- `debounce` is timer-based and is not modelled.
- `rating.toFixed(1)` is floating point and is not modelled.
- The login form's hard-coded credentials are not modelled.
- Search.RegisterAccepts counts the password length in characters, where JavaScript counts UTF-16 code units. The two differ only for characters outside the Basic Multilingual Plane.
- Search.FilterAcademicians and Search.FilterAnnouncements take the filter inputs as given. The early returns taken when the filter elements are missing are not modelled.
- Store.StudentDashboardView reads `academic.split` without a guard in the source. A missing academic is modelled as "".
- Several source behaviours are noted but not modelled:
  - The academic dashboard computes a pending count and never shows it.
  - After a cancel, the student list re-renders from the records read at page load, so the new status is not shown until the page reloads. The academic list's approve, reject and cancel buttons do the same (lines 1024 and 1232).
  - On the `all` tab the list sorts the page-level array itself in place (line 868), so later renders see it reordered. `Store.LoadAppointments` sorts a copy.
  - The summary strips "Süre: " from the duration, while the query sends the duration text as it is.
  - `mapFacultyToDepartment` is never called.
  - The academic list also has a separate table of all pending records (lines 1138-1185). It shows every pending record newest first, with no slice, and its own empty text, "Onay bekleyen randevu bulunmamaktadır.".

## Findings

| source | as written | input that shows it | evidently intended | confidence | as-written member | corrected member |
|---|---|---|---|---|---|---|
| view/ddo-AppointmentV0-main/js/main.js:1464-1467 | the academic dashboard counts as today's every confirmed appointment whose date text contains today's day number (`todayStr` is computed and unused, here and at 1575-1578) | today is 3 June 2023 and a confirmed appointment is dated "20 Mayıs 2023": "3" occurs in "2023" | count appointments dated today | not executed | Store.TodayRulesDisagree | Store.AcademicDashboardView |
| view/ddo-AppointmentV0-main/js/main.js:626-631 | a URL id such as `ahmet-yilmaz` is compared with the lower-cased card name, which keeps its Turkish letters | id `ahmet-yilmaz`, card "Prof. Dr. Ahmet Yılmaz": "yilmaz" does not occur in "yılmaz" | the id pre-selects its own academic | not executed | Wizard.IdMissesTurkishName | Wizard.SlugMatches |
| view/ddo-AppointmentV0-main/js/main.js:1726 | the `isletme` faculty looks for "işletme" in the lower-cased department line | department "İşletme": `toLowerCase` gives "i" + U+0307 + "şletme", which does not contain "işletme" | the business faculty shows its own academics | not executed | Search.IsletmeMissesDottedCapital | Search.IsletmeMatchesDottedCapital |
