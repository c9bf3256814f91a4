# Smart Fit locations page — a Dafny model

This project models the filtering core of the Smart Fit gym-locations page
(`src/app/page.tsx`). The page loads a list of gym units. It then shows the
units that are open during a chosen period of the day (morning `manha`,
afternoon `tarde`, evening `noite`), optionally hiding units that are closed.
Each card shows status icons for four safety measures.

The model has five modules. `Wrappers` is not listed: it only holds `Option`.

| file | module | what it holds |
|---|---|---|
| `js_strings.dfy` | `JsStrings` | The JavaScript built-ins the page relies on: `split` with a string separator, `replace` with a string pattern (first occurrence only), `parseInt` without a radix (leading whitespace, sign, `0x` prefix, longest digit run, `NaN` as `None`) and `toLowerCase` |
| `status_icons.dfy` | `StatusIcons` | `getImageSrc`, the icon table, and the safety-measure legend it must agree with |
| `schedules.dfy` | `Schedules` | The location and schedule records, the period catalogue and `isLocationOpenInPeriod` |
| `filters.dfy` | `Filters` | `Array.prototype.filter` and the rule deciding which locations `applyFilter` shows |
| `page.dfy` | `Page` | The page component as a class: its five state hooks are fields, and its load step and event handlers are methods |

Times are compared as integers made by gluing digits together, as the page
does:
- "12:01" is 1201.
- "06h" is 6 × 100 = 600.
- "06h30" is 630 × 100 = 63000. This is because only the first "h" is
  removed before the whole number is scaled.

A bound that `parseInt` cannot read is `NaN`. Every comparison with `NaN` is
false, so such a schedule can only match through its other bound, or not at
all.

Behaviour worth knowing:
- **Filter passes.** `applyFilter` filters its own previous result: the
  closed-units pass runs on what the period pass kept. `Filters.TwoStages` and
  `Filters.FilterFuse` prove this equals one pass over the full list with both
  conditions.
- **Removing "h".** The schedule parser removes the first lower-case "h"
  of a token, wherever in the token it occurs. See
  `Schedules.HourAndMinutesBound`.
- **Failed load.** A failed load leaves both lists as they were. At mount time
  they are empty.
- **Clear versus load.** "Clear" resets the controls to their initial state,
  but it does not show what the initial load showed:
  - Clear lists every unit, the closed ones included.
  - The load listed only opened units.
  - Applying the cleared filter hides the closed units again.

  See `Page.ClearMatchesLoadIffAllOpened` and `Page.LoadClearApply`.

## Model

| member | source | states |
|---|---|---|
| StatusIcons.ImageSrc | src/app/page.tsx:66-88 | The icon is non-empty exactly when the value is one the category lists. A non-empty icon is one the category's legend shows. |
| StatusIcons.ListedEntries | src/app/page.tsx:67-85 | The nine table entries: two each for mask, towel and fountain, three for the locker room. |
| StatusIcons.NoCrossCategoryLookup | src/app/page.tsx:87 | An unknown value gives "". So does a value that only another category lists, because the lookup never falls through to another table. |
| StatusIcons.IconRoundTrip | src/app/page.tsx:66-88 | For every listed (category, value), the icon `getImageSrc` returns maps back to that same pair through the inverse table `EntryOf`. |
| StatusIcons.IconIdentifiesEntry | src/app/page.tsx:67-85 | No two listed pairs share an icon, so a non-empty icon determines the category and the value. |
| StatusIcons.TableIconsInLegend | src/app/page.tsx:34-85 | Every icon the table can return appears in its category's legend. |
| StatusIcons.LegendIsCovered | src/app/page.tsx:34-88 | Every legend icon is what `getImageSrc` returns for some listed value of that category. |
| JsStrings.RemoveFirst | src/app/page.tsx:121-129 | `t.replace(p, "")` with a string pattern. Its contract is stated by `RemoveFirstSpec`, `RemoveFirstChar` and `RemoveAbsentChar`. |
| JsStrings.ParseInt | src/app/page.tsx:121-129 | `parseInt` without a radix, `NaN` as `None`. Its contract is stated by the `ParseInt…` lemmas below, with `ParseIntDecimalString` as the round trip. |
| JsStrings.IndexOf | src/app/page.tsx:121-129 | A position found for the pattern lies inside the string, at or after the start position. |
| JsStrings.IndexOfFinds | src/app/page.tsx:121-129 | The pattern does occur at the position found. |
| JsStrings.IndexOfFirst | src/app/page.tsx:121-129 | No occurrence is skipped before the position found. When none is found, none exists from the start position on. |
| JsStrings.IndexOfReaches | src/app/page.tsx:121-129 | The first occurrence at or after the start is the one found. |
| JsStrings.Split | src/app/page.tsx:121-122 | `split` returns at least one piece. |
| JsStrings.SplitPiecesSpec | src/app/page.tsx:121-122 | No piece contains the separator. |
| JsStrings.SplitJoin | src/app/page.tsx:121-122 | Joining the pieces with the separator gives back the original string. |
| JsStrings.FirstPiece | src/app/page.tsx:121-122 | Without a separator the string is its own single piece. Otherwise there are at least two pieces, and the first is the text before the first separator. |
| JsStrings.SplitOnce | src/app/page.tsx:121-128 | "a às b", where neither part contains a space, splits into exactly [a, b]. |
| JsStrings.NoLeadCharNoOccurrence | src/app/page.tsx:121-122 | A string without the separator's first character has no separator in it and splits into itself. |
| JsStrings.RemoveFirstSpec | src/app/page.tsx:121-129 | `replace(p, "")` leaves a string without `p` unchanged. Otherwise it removes exactly one copy of `p`. |
| JsStrings.RemoveFirstChar | src/app/page.tsx:121-129 | Only the first occurrence of a one-character pattern is removed; later ones stay. |
| JsStrings.RemoveAbsentChar | src/app/page.tsx:121-129 | A string without the character is left alone. |
| JsStrings.ToLowerAsciiSpec | src/app/page.tsx:126 | After lower-casing no capital A-Z remains, so lower-casing twice is lower-casing once. A character only ever changes into the small form of the same letter. |
| JsStrings.ToLowerAsciiEqual | src/app/page.tsx:126 | A string lower-cases to a given text without capitals exactly when it has that text's length and matches it letter by letter, each letter in either case. |
| JsStrings.TrimStartSpec | src/app/page.tsx:121-129 | `parseInt` starts reading after a prefix made only of whitespace. The rest is a suffix of the input that does not start with whitespace. |
| JsStrings.LeadingDigitCount | src/app/page.tsx:121-129 | Counts the longest run of digits at the front of the string. The character after the run is not a digit. |
| JsStrings.ParseIntUnsigned | src/app/page.tsx:121-129 | A string starting with a decimal digit, and not with "0x", is read unsigned in radix 10. |
| JsStrings.ParseIntMinus | src/app/page.tsx:121-129 | "-" followed by a decimal digit, with no "0x" prefix after the sign, is read in radix 10 and negated. |
| JsStrings.ParseDigitsRun | src/app/page.tsx:121-129 | Exactly the leading run of digits is read, and it gives its value. |
| JsStrings.ParseIntLeadingDigits | src/app/page.tsx:121-129 | A digit run followed by other text parses to the value of the run alone. |
| JsStrings.ParseIntDigits | src/app/page.tsx:121-129 | A string of decimal digits parses to its value. |
| JsStrings.ParseIntFourDigits | src/app/page.tsx:121-129 | Four digits parse to their positional value. |
| JsStrings.ParseIntNegated | src/app/page.tsx:121-129 | A minus sign before digits negates their value. |
| JsStrings.ParseIntNoDigits | src/app/page.tsx:121-129 | The empty string, or text that starts with no whitespace, sign or digit, is NaN. |
| JsStrings.DecimalStringValue | src/app/page.tsx:121-129 | The digits of a number have that number as their value. |
| JsStrings.ParseIntDecimalString | src/app/page.tsx:121-129 | `parseInt(String(n)) == n` for every natural n. |
| JsStrings.ParseIntNegatedDecimalString | src/app/page.tsx:121-129 | `parseInt("-" + String(n)) == -n`. |
| Schedules.PeriodTime | src/app/page.tsx:120 | `periods.find(...)`, falling back to `{ time: "" }`, then its time. Its contract is `PeriodTimeSpec`. |
| Schedules.PeriodBound | src/app/page.tsx:121-123 | A period token with its first ":" removed, parsed. Stated by `ClockValue` and `PeriodWindows`. |
| Schedules.ScheduleBound | src/app/page.tsx:127-132 | A schedule token with its first "h" and then its first ":" removed, parsed and times 100. Stated by `WholeHourBound` and `HourAndMinutesBound`. |
| Schedules.SplitWindow | src/app/page.tsx:121-129 | The destructuring `[start, end]` of the split tokens; a missing second token is `undefined`. Stated by `TwoTokenWindow` and `UnknownPeriodWindow`. |
| Schedules.IsClosedMarker | src/app/page.tsx:126 | `schedule.hour.toLowerCase() === "fechada"`. Stated by `ClosedMarkerSpec`. |
| Schedules.Overlaps | src/app/page.tsx:134-138 | The three-clause test. Stated by `OverlapsAsIntersection` and the `Unparsed…Overlaps` lemmas. |
| Schedules.AnyScheduleMatches | src/app/page.tsx:125-139 | `schedules.some(...)`. Stated by `AnyScheduleMatchesSpec`. |
| Schedules.IsOpenInPeriod | src/app/page.tsx:119-140 | `isLocationOpenInPeriod`. Stated by `IsOpenInPeriodSpec`, `UnknownPeriodNeverOpen` and `DaylongLocationOpen`. |
| Schedules.PeriodTimeSpec | src/app/page.tsx:120 | The period's time is that of the first catalogue entry with the value, or "" when there is none. |
| Schedules.PeriodWindows | src/app/page.tsx:120-123 | The period bounds: manha [600, 1200], tarde [1201, 1800], noite [1801, 2300]. |
| Schedules.ClockValue | src/app/page.tsx:123 | "hh:mm" reads as the four digits hhmm glued together. |
| Schedules.ClockWindow | src/app/page.tsx:121-123 | "h1:m1 às h2:m2" reads as the window [h1m1, h2m2]. |
| Schedules.TwoTokenWindow | src/app/page.tsx:121-129 | Two tokens without spaces, joined by the separator, give the window of those two tokens, for either bound parser. |
| Schedules.UnknownPeriodWindow | src/app/page.tsx:120-123 | A value outside the catalogue has two NaN bounds. |
| Schedules.WholeHourBound | src/app/page.tsx:127-131 | "NNh" reads as NN × 100. |
| Schedules.WholeHoursWindow | src/app/page.tsx:127-131 | "AAh às BBh" reads as [AA × 100, BB × 100]. |
| Schedules.DaylongWindow | src/app/page.tsx:127-131 | "06h às 23h" reads as [600, 2300]. |
| Schedules.HourAndMinutesBound | src/app/page.tsx:128-131 | hh + "h" + mm reads as hhmm × 100, because only the lower-case "h" is removed before scaling. |
| Schedules.MinutesAreScaledWithTheHour | src/app/page.tsx:128-131 | "06h30" reads as 63000, above every period bound. |
| Schedules.OverlapsAsIntersection | src/app/page.tsx:133-138 | For windows that each start before they end, the three clauses together mean: the schedule starts before the period ends and ends after it starts. |
| Schedules.UnparsedStartOverlaps | src/app/page.tsx:133-138 | With a NaN start, a schedule matches exactly when its end lies in (period start, period end]. |
| Schedules.UnparsedEndOverlaps | src/app/page.tsx:133-138 | With a NaN end, a schedule matches exactly when its start lies in [period start, period end). |
| Schedules.UnparsedNeverOverlaps | src/app/page.tsx:133-138 | A schedule with both bounds NaN never matches. Neither does any schedule against a period with a NaN bound. |
| Schedules.AnyScheduleMatchesSpec | src/app/page.tsx:125-139 | `some` holds exactly when some schedule of the list matches. |
| Schedules.IsOpenInPeriodSpec | src/app/page.tsx:119-140 | A location is open in a period exactly when it has schedules and one of them matches. Absent or empty schedules never match. |
| Schedules.NoMatchWhenPeriodUnparsed | src/app/page.tsx:121-139 | No schedule list matches a period with a NaN bound. |
| Schedules.UnknownPeriodNeverOpen | src/app/page.tsx:120-139 | A period value outside the catalogue makes no location open. |
| Schedules.ClosedMarkerSpec | src/app/page.tsx:126 | An hour text is the closed marker exactly when it spells "fechada" with each letter in either case. |
| Schedules.ClosedMarkers | src/app/page.tsx:126 | "fechada", "Fechada" and "FECHADA" are all closed markers; "06h às 23h" is not. |
| Schedules.AllClosedNeverMatch | src/app/page.tsx:125-126 | A list whose every schedule is a closed marker matches no period. |
| Schedules.DaylongMatchesAllPeriods | src/app/page.tsx:126-138 | A "06h às 23h" schedule matches manha, tarde and noite. |
| Schedules.DaylongLocationOpen | src/app/page.tsx:119-140 | A location with a "06h às 23h" schedule is open in every period. |
| Filters.Filter | src/app/page.tsx:145-155 | `Array.prototype.filter`. Stated by `FilterIsSubsequence`, `FilterMembership` and `FilterMultiplicity`. |
| Filters.VisibleFor | src/app/page.tsx:142-158 | The locations `applyFilter` shows. Stated by `TwoStages`, `VisibleMembership` and `VisibleIsSubsequence`. |
| Filters.FilterIsSubsequence | src/app/page.tsx:145-155 | `filter` returns a subsequence of its input, with order preserved. |
| Filters.FilterEmbedding | src/app/page.tsx:145-155 | It exhibits the increasing positions at which the kept elements sit in the input. |
| Filters.FilterMembership | src/app/page.tsx:145-155 | An element is kept exactly when it is in the input and the callback accepts it. |
| Filters.FilterMultiplicity | src/app/page.tsx:145-155 | Each accepted value appears as often as in the input; each rejected value does not appear. |
| Filters.FilterKeepsAll | src/app/page.tsx:145-155 | `filter` returns its input unchanged exactly when the callback accepts every element. |
| Filters.FilterKeepsNone | src/app/page.tsx:145-155 | A callback that rejects every element gives []. |
| Filters.FilterCongruent | src/app/page.tsx:145-155 | Callbacks that agree on every value filter alike. |
| Filters.FilterFuse | src/app/page.tsx:143-155 | Filtering the previous result again is the same as filtering once by both callbacks. |
| Filters.TwoStages | src/app/page.tsx:142-158 | The period pass, then the closed-units pass, gives exactly the locations the combined rule admits, in loaded order. |
| Filters.VisibleIsSubsequence | src/app/page.tsx:142-158 | What is shown is a subsequence of the loaded list. |
| Filters.VisibleMembership | src/app/page.tsx:142-158 | A location is shown exactly when it is loaded and it is open in the selected period (if any) and opened (unless closed units are shown). |
| Filters.HidingClosedShowsOnlyOpened | src/app/page.tsx:151-155 | With the toggle off, every shown location is opened. |
| Filters.NoFilterShowsAll | src/app/page.tsx:143-155 | With no period selected (`null` or "") and the toggle on, the whole list is shown unchanged. |
| Filters.UnknownPeriodShowsNothing | src/app/page.tsx:145-149 | A selected value outside the catalogue shows nothing. |
| Filters.HidingClosedNarrows | src/app/page.tsx:151-155 | The view with the toggle off is the view with it on, minus the closed units. |
| Page.HomePage.constructor | src/app/page.tsx:91-95 | Initial state: both lists empty, no period, toggle off, loading. |
| Page.HomePage.FinishLoad | src/app/page.tsx:98-113 | On success it stores every location but lists only the opened ones. On failure both lists stay as they were. Loading ends either way, and the controls are untouched. The view stays a subsequence of the list. |
| Page.HomePage.HandlePeriodChange | src/app/page.tsx:160-162 | The radio value becomes the selected period; nothing else changes. |
| Page.HomePage.HandleCheckboxChange | src/app/page.tsx:164-166 | The checkbox state becomes the toggle; nothing else changes. |
| Page.HomePage.ApplyFilter | src/app/page.tsx:142-158 | The shown list becomes exactly the admitted locations in loaded order (`VisibleFor`); the loaded list and the controls are untouched. |
| Page.HomePage.HandleClearFilter | src/app/page.tsx:168-173 | The period is forgotten and the toggle turned off, yet the whole loaded list is shown. |
| Page.LoadedViewIsDefaultFilter | src/app/page.tsx:104-108 | The list shown after loading is what `applyFilter` gives with no period and the toggle off. |
| Page.ClearMatchesLoadIffAllOpened | src/app/page.tsx:168-173 | What clear shows equals the freshly loaded view exactly when every location is opened. |
| Page.LoadClearApply | src/app/page.tsx:91-173 | Load, then clear, then apply: load shows the opened units, clear shows every unit, and apply shows the opened units again. |

## Left out

- The HTTP request and JSON decoding of the location list are not modelled. `FinishLoad` receives the decoded `locations` array, or `None` for any failure. A `locations` field that is not an array counts as a failure, as in the code. The logged error messages (`console.error`, and the `console.log` in the clear handler) are left out.
- The React rendering is left out: the cards, the "Aberto"/"Fechado" badge, the results counter, the radio buttons' `checked` state and the loading screen. So are `src/app/layout.tsx`, `src/components/header.tsx` and `src/components/footer.tsx`.
- Asynchrony is left out. The load is one step between the constructor and the first handler. React's batching of state updates is not modelled, because each handler's updates are independent.
- `StatusIcons.ImageSrc`: the category is an enumeration of the four names the call sites pass. An unknown category, which makes the code throw, is not modelled. Neither are keys inherited from `Object.prototype` (such as `"constructor"`), for which the JavaScript lookup returns a function rather than "".
- `JsStrings.ParseDigits`: integers are unbounded. `parseInt`'s loss of precision beyond 2^53, and the floating-point `* 100`, are not modelled. Every value that occurs in the hours is small.
- `JsStrings.ToLowerAscii`: only A-Z are lower-cased. No other character lower-cases to a letter of "fechada", so `IsClosedMarker` agrees with `toLowerCase() === "fechada"` on every input.
- Strings are sequences of Unicode characters, not UTF-16 code units. The model's `split`, `replace` and `parseInt` only depend on where characters match, which is the same in both encodings for the texts involved.
- `JsStrings.Split` requires a non-empty separator; the page only splits on " às ". `JsStrings.RemoveFirst` models `replace` with an empty replacement, so `$` substitution patterns do not arise.
