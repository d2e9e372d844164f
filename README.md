# tfpugs front-end screens, modelled in Dafny

tfpugs keeps Elo ratings for pick-up games ("pugs"). This project models the logic of four React screens in its web front end.

- **Match history of one player** (`PlayerMatches.tsx`). The screen:
  - filters the player's matches by map, server and an inclusive date range;
  - sorts them by date or map name in either direction;
  - works out which team the player was on from the comma-separated blue roster;
  - colours each row and shows its scores relative to that team;
  - offers the distinct maps and servers in the filter drop-downs;
  - exports the shown rows as comma-separated text.
- **Leaderboard** (`Leaderboard.tsx`). It can hide inactive players. It sorts a copy of the player list by any column through one comparator. That comparator:
  - compares names case-insensitively;
  - places players with no active rank as if their rank were `Number.MAX_VALUE`;
  - compares win ratios computed as `wins / (wins + losses)`, with 0 when no game was decided.
- **Match table of one player by name** (`PlayerMatchesTable.tsx`). This table component takes a player name and a close callback as its props; the screen that opens it is not part of this model. It decides the player's team with a substring test on the blue roster.
- **All-matches table** (`MatchesTable.tsx`). It shortens long team lists and names the winning side.

Modules, one per file:

- `Nullable` (`option.dfy`) holds `Option`, which stands for a nullable field.
- `Strings` models the JavaScript string built-ins the screens use: `split`, `join`, `trim`, `includes`, `toLowerCase`, `localeCompare` and number-to-text.
- `Sorting` models `Array.prototype.filter` and an in-place `Array.prototype.sort` on an array.
- `PlayerMatches`, `Leaderboard`, `PlayerMatchesTable` and `MatchesTable` each model one screen.

Where a screen changes state, the model is a class:

- `PlayerMatches.MatchHistoryView` has the fetched matches, the filter controls, the sort state and the rows on display. Every method keeps the invariant that the rows on display are the filtered matches, in display order.
- `Leaderboard.LeaderboardView` has the player list, the inactive toggle and the sort state. Its rows are computed by sorting a fresh array, so the stored list is never reordered.

The two sorts run a verified insertion sort on a fresh array. It is proved to return a permutation of its input that is sorted by the comparator. Each screen then proves that its comparator is a total preorder. It also proves that "sorted by the comparator" means the order the screen promises, which is stated without the comparator.

## Model

| member | source | states |
|---|---|---|
| Sorting.Filter | frontend/src/components/PlayerMatches.tsx:102 | `filter` returns no more elements than it was given, each accepted by the predicate |
| Sorting.FilterCount | frontend/src/components/PlayerMatches.tsx:102-110 | filtering keeps every occurrence of an accepted element and no occurrence of a rejected one |
| Sorting.FilterAppend | frontend/src/components/PlayerMatches.tsx:102-110 | filtering distributes over concatenation, so kept elements keep their relative order |
| Sorting.FilterAll | frontend/src/components/PlayerMatches.tsx:102-110 | a predicate that accepts everything returns the input unchanged |
| Sorting.InsertionSort | frontend/src/components/PlayerMatches.tsx:112-123 | in-place `sort` with a consistent comparator: the array ends sorted by the comparator and is a permutation of what it held |
| Sorting.Insert | frontend/src/components/PlayerMatches.tsx:112-123 | one insertion step extends the sorted prefix by one element and keeps the array's multiset |
| Sorting.Swap | frontend/src/components/PlayerMatches.tsx:112-123 | exchanging two elements keeps the multiset |
| Sorting.Direction.Flip | frontend/src/components/Leaderboard.tsx:42 | `d === 'asc' ? 'desc' : 'asc'` always changes the direction |
| Strings.Split | frontend/src/components/PlayerMatches.tsx:144 | `split(',')` always returns at least one piece, and no piece holds the separator |
| Strings.Join | frontend/src/components/PlayerMatches.tsx:168-184 | `join` of no pieces is empty; the result opens with the first piece, followed by the separator when there are more pieces |
| Strings.JoinCountsSeparators | frontend/src/components/PlayerMatches.tsx:182-184 | pieces free of the separator are joined by exactly one separator fewer than there are pieces |
| Strings.JoinSplit | frontend/src/components/PlayerMatches.tsx:144 | joining the pieces of a split by the same separator gives back the string |
| Strings.SplitPrefix | frontend/src/components/PlayerMatches.tsx:144 | a separator-free prefix becomes part of the first piece of the split |
| Strings.SplitJoin | frontend/src/components/PlayerMatches.tsx:182-184 | splitting a join of separator-free pieces (at least one) gives back the pieces |
| Strings.JoinedPieceIsSubstring | frontend/src/components/PlayerMatches.tsx:144 | every piece of a join occurs in the joined text |
| Strings.IsSubstringAt | frontend/src/components/PlayerMatchesTable.tsx:96 | `includes` holds exactly when the text occurs at some index |
| Strings.PrefixIsSubstring | frontend/src/components/PlayerMatchesTable.tsx:96 | a prefix is included |
| Strings.SuffixKeepsSubstring | frontend/src/components/PlayerMatchesTable.tsx:96 | putting text in front keeps an occurrence |
| Strings.SubstringTransitive | frontend/src/components/PlayerMatchesTable.tsx:96 | an occurrence inside an occurrence is an occurrence |
| Strings.SliceIsSubstring | frontend/src/components/PlayerMatchesTable.tsx:96 | every slice of a string is included in it |
| Strings.LeadingSpaces | frontend/src/components/PlayerMatches.tsx:144 | the count of white-space characters `trim` removes at the front, all of them white space, stopping at the first other character |
| Strings.TrailingSpaces | frontend/src/components/PlayerMatches.tsx:144 | the same at the back |
| Strings.Trim | frontend/src/components/PlayerMatches.tsx:144 | `trim` returns the string with only white space cut off at either end; the result has no white space at either end; an already trimmed string comes back unchanged |
| Strings.TrimIsSubstring | frontend/src/components/PlayerMatches.tsx:144 | the trimmed text occurs in the text it was trimmed from |
| Strings.LowerChar | frontend/src/components/Leaderboard.tsx:55-56 | `toLowerCase` on one character: an ASCII capital becomes its small letter (32 code points on), anything else is unchanged, and no capital remains |
| Strings.LowerCharEqual | frontend/src/components/Leaderboard.tsx:55-56 | two characters lower-case to the same character exactly when they are the same letter up to case |
| Strings.Lower | frontend/src/components/Leaderboard.tsx:55-56 | `toLowerCase` keeps the length, lower-cases character by character and leaves no upper-case ASCII letter |
| Strings.LowerEqual | frontend/src/components/Leaderboard.tsx:55-56 | two strings lower-case to the same text exactly when they have the same length and agree position by position up to case |
| Strings.LexLessIrreflexive | frontend/src/components/PlayerMatches.tsx:119-120 | the string order is irreflexive |
| Strings.LexLessTransitive | frontend/src/components/PlayerMatches.tsx:119-120 | the string order is transitive |
| Strings.LexLessTrichotomy | frontend/src/components/PlayerMatches.tsx:119-120 | any two strings are equal or ordered one way |
| Strings.LexLessAsymmetric | frontend/src/components/Leaderboard.tsx:71-72 | no two strings are each less than the other |
| Strings.LexNotAfterTransitive | frontend/src/components/PlayerMatches.tsx:119-120 | "not after" is transitive |
| Strings.LexNotAfterTotal | frontend/src/components/PlayerMatches.tsx:119-120 | of two strings, one is not after the other |
| Strings.LocaleCompare | frontend/src/components/PlayerMatches.tsx:119-120 | `localeCompare` is zero exactly for equal strings, negative exactly when the first comes first, positive exactly when the second does |
| Strings.DigitChar | frontend/src/components/PlayerMatches.tsx:174 | the digit d becomes the character whose code is d above '0' |
| Strings.Digits | frontend/src/components/PlayerMatches.tsx:174 | a natural number is written as one or more digits, with no leading zero unless it is 0 |
| Strings.DigitsRoundTrip | frontend/src/components/PlayerMatches.tsx:174 | the digits of n read back as n |
| Strings.NumberText | frontend/src/components/PlayerMatches.tsx:174 | `String(n)` for an integer: a minus sign exactly when n is negative, then digits, never a comma or line break |
| Strings.NumberTextRoundTrip | frontend/src/components/PlayerMatches.tsx:179-180 | the text of n reads back as n, so exported ids and scores are their decimal values |
| PlayerMatches.Keep | frontend/src/components/PlayerMatches.tsx:104-109 | the filter callback: a chosen map or server keeps only matches that have a non-empty one; a start date after the end date keeps nothing |
| PlayerMatches.Filtered | frontend/src/components/PlayerMatches.tsx:102-110 | `matches.filter(...)`: no more matches than given, each passing every control |
| PlayerMatches.FilteredExactly | frontend/src/components/PlayerMatches.tsx:102-110 | a match is kept exactly when every non-empty control holds: map equal, server equal, date on or after the start, on or before the end; it is kept as often as it occurs |
| PlayerMatches.FilteredKeepsOrder | frontend/src/components/PlayerMatches.tsx:102-110 | kept matches stay in their original relative order |
| PlayerMatches.NoFiltersKeepAll | frontend/src/components/PlayerMatches.tsx:102-110 | with all controls empty every match is kept, in order |
| PlayerMatches.MapText | frontend/src/components/PlayerMatches.tsx:119-120 | a missing map name sorts as the empty string |
| PlayerMatches.Compare | frontend/src/components/PlayerMatches.tsx:112-123 | the comparator is at most 0 exactly when the pair is in display order (dates rising or falling, map names not falling or not rising), and 0 exactly for equal dates or equal map texts |
| PlayerMatches.PrecedesIsTotalPreorder | frontend/src/components/PlayerMatches.tsx:112-123 | the date and map comparators, either direction, are total and transitive |
| PlayerMatches.SortedIsInDisplayOrder | frontend/src/components/PlayerMatches.tsx:112-123 | sorted by the comparator means dates rising (falling when descending) or map names, with a missing map read as empty, not falling (not rising) |
| PlayerMatches.FilterAndSort | frontend/src/components/PlayerMatches.tsx:101-126 | the rows on display are a permutation of the kept matches, in display order |
| PlayerMatches.NextSort | frontend/src/components/PlayerMatches.tsx:128-135 | choosing the current column flips the direction; another column becomes current, sorted ascending |
| PlayerMatches.NextSortTwice | frontend/src/components/PlayerMatches.tsx:128-135 | choosing the current column twice restores the sort state |
| PlayerMatches.Entries | frontend/src/components/PlayerMatches.tsx:144 | the roster entries are the trimmed comma-separated pieces, one per piece |
| PlayerMatches.GetPlayerTeam | frontend/src/components/PlayerMatches.tsx:142-147 | red when the id is missing or empty or the blue roster is null; blue exactly when the id is one of the trimmed blue entries |
| PlayerMatches.GetPlayerTeamByRoster | frontend/src/components/PlayerMatches.tsx:142-147 | for a blue roster written as comma-joined trimmed ids, a player is blue exactly when their id is one of those ids |
| PlayerMatches.RedListIgnored | frontend/src/components/PlayerMatches.tsx:145-146 | the red roster never changes the team |
| PlayerMatches.GetOutcomeClass | frontend/src/components/PlayerMatches.tsx:149-154 | "win" exactly for (1, blue) or (2, red), "draw" exactly for a null outcome, otherwise "loss" (outcome 0 included) |
| PlayerMatches.OutcomeText | frontend/src/components/PlayerMatches.tsx:172 | "Win" exactly for (blue, 1) or (red, 2), otherwise "Loss" |
| PlayerMatches.ClassAndTextAgree | frontend/src/components/PlayerMatchesTable.tsx:60-65 | (the player-matches table's `getOutcomeClass`, identical to the history screen's) the row class is "win" exactly when the text is "Win"; a null outcome is styled "draw" but reads "Loss"; outcome 0 is styled "loss" |
| PlayerMatches.GetScores | frontend/src/components/PlayerMatches.tsx:156-160 | outcome 1 gives blue the winning and red the losing score, outcome 2 the mirror, any other outcome the losing score to both |
| PlayerMatches.WinnerShowsWinningScore | frontend/src/components/PlayerMatchesTable.tsx:67-71 | (the player-matches table's `getScores`, identical to the history screen's) a row reading "Win" shows the winning score on the player's side; a decided match reading "Loss" shows the losing score there and the winning score on the other side |
| PlayerMatches.UniqueNonEmpty | frontend/src/components/PlayerMatches.tsx:162-163 | the drop-down choices have no duplicates and are exactly the non-empty values that occur |
| PlayerMatches.FirstIndex | frontend/src/components/PlayerMatches.tsx:162-163 | the first position of a value that occurs |
| PlayerMatches.UniqueInFirstOccurrenceOrder | frontend/src/components/PlayerMatches.tsx:162-163 | the choices are listed in the order of their first occurrence |
| PlayerMatches.SameFirstIndex | frontend/src/components/PlayerMatches.tsx:162-163 | appending a value does not move an earlier first occurrence |
| PlayerMatches.UniqueMapsOffered | frontend/src/components/PlayerMatches.tsx:162 | a map is offered exactly when it is non-empty and some match was played on it |
| PlayerMatches.UniqueMaps | frontend/src/components/PlayerMatches.tsx:162 | the map choices have no duplicates and no empty name |
| PlayerMatches.UniqueServers | frontend/src/components/PlayerMatches.tsx:163 | the server choices have no duplicates and no empty name |
| PlayerMatches.UniqueServersOffered | frontend/src/components/PlayerMatches.tsx:163 | a server is offered exactly when it is non-empty and some match was played on it |
| PlayerMatches.TextField | frontend/src/components/PlayerMatches.tsx:176-177 | `join` writes a null text field as empty and any other as itself |
| PlayerMatches.NumberField | frontend/src/components/PlayerMatches.tsx:174 | `join` writes a null number as empty and a number as text that reads back as that number |
| PlayerMatches.RowFields | frontend/src/components/PlayerMatches.tsx:173-182 | an exported row has one field per header |
| PlayerMatches.RowFieldsContents | frontend/src/components/PlayerMatches.tsx:169-183 | the fields: null values empty; the table's team and scores; the outcome "Win" exactly when the player's team won, so a null outcome exports "Loss" |
| PlayerMatches.RowLine | frontend/src/components/PlayerMatches.tsx:173-182 | an exported line opens with the match id followed by a comma |
| PlayerMatches.CsvText | frontend/src/components/PlayerMatches.tsx:165-184 | the export opens with the header line, followed by a line feed when any match is shown |
| PlayerMatches.NumberFieldPlain | frontend/src/components/PlayerMatches.tsx:174 | a number field holds no comma and no line break |
| PlayerMatches.JoinAvoids | frontend/src/components/PlayerMatches.tsx:182-184 | joining pieces free of a character by another separator leaves the text free of it |
| PlayerMatches.RowFieldsPlain | frontend/src/components/PlayerMatches.tsx:173-182 | when date, map and server hold no comma or line break, no field of the row does |
| PlayerMatches.RowSplitsIntoFields | frontend/src/components/PlayerMatches.tsx:173-182 | such a row splits back at commas into its eight fields and holds no line break |
| PlayerMatches.CommaInMapShiftsColumns | frontend/src/components/PlayerMatches.tsx:176-182 | a map name holding a comma is not quoted, so that row no longer splits into its fields |
| PlayerMatches.CommaInDateShiftsColumns | frontend/src/components/PlayerMatches.tsx:175-182 | a rendered date holding a comma (as a locale's date-and-time text commonly does) is not quoted, so that row no longer splits into its fields |
| PlayerMatches.RowLineSingleLine | frontend/src/components/PlayerMatches.tsx:173-182 | when date, map and server hold no line break, the row holds none |
| PlayerMatches.CsvLineStructure | frontend/src/components/PlayerMatches.tsx:165-184 | when no date, map or server holds a line break, the export splits at line feeds into the header line and then the line of each shown match, in display order, whatever commas the fields hold |
| PlayerMatches.HeaderLine | frontend/src/components/PlayerMatches.tsx:166-168 | the header line splits into the eight column names |
| PlayerMatches.CsvLines | frontend/src/components/PlayerMatches.tsx:165-184 | only when no date, map or server holds a comma or line break: the header line splits into the eight names and each further line into its match's eight fields |
| PlayerMatches.MatchHistoryView.constructor | frontend/src/components/PlayerMatches.tsx:53-63 | nothing loaded, no filters, sorted by date descending |
| PlayerMatches.MatchHistoryView.Refresh | frontend/src/components/PlayerMatches.tsx:101-126 | the rows on display become the kept matches, in display order |
| PlayerMatches.MatchHistoryView.Load | frontend/src/components/PlayerMatches.tsx:86-88 | the fetched matches and player id are stored, controls and sort unchanged, rows recomputed |
| PlayerMatches.MatchHistoryView.SetMapFilter | frontend/src/components/PlayerMatches.tsx:296 | only the map control changes; rows recomputed |
| PlayerMatches.MatchHistoryView.SetServerFilter | frontend/src/components/PlayerMatches.tsx:302 | only the server control changes; rows recomputed |
| PlayerMatches.MatchHistoryView.SetStartDate | frontend/src/components/PlayerMatches.tsx:315 | only the start date changes; rows recomputed |
| PlayerMatches.MatchHistoryView.SetEndDate | frontend/src/components/PlayerMatches.tsx:321 | only the end date changes; rows recomputed |
| PlayerMatches.MatchHistoryView.HandleSort | frontend/src/components/PlayerMatches.tsx:128-135 | the sort state takes its `NextSort` step, matches and controls unchanged; rows recomputed |
| Leaderboard.WinRatio | frontend/src/components/Leaderboard.tsx:62-64 | the ratio lies in [0, 1], is 0 when no game was decided, and times the decided games gives the wins (draws ignored) |
| Leaderboard.WinRatioMonotone | frontend/src/components/Leaderboard.tsx:62-64 | more wins with the same losses never lower the ratio |
| Leaderboard.QuotientsOrdered | frontend/src/components/Leaderboard.tsx:62-64 | cross-multiplication orders two quotients with positive denominators |
| Leaderboard.DisplayedWinPercentage | frontend/src/components/Leaderboard.tsx:177 | the percentage lies in [0, 100], is 0 with no decided game, and times the decided games gives 100 times the wins |
| Leaderboard.ThreeWinsOneLoss | frontend/src/components/Leaderboard.tsx:177 | three wins and one loss show 75 percent |
| Leaderboard.SortValueOf | frontend/src/components/Leaderboard.tsx:53-69 | the compared value is text exactly for the name column (same length, no capital left), `Number.MAX_VALUE` for a missing active rank, and within [0, 1] for the win percentage |
| Leaderboard.Less | frontend/src/components/Leaderboard.tsx:71-72 | `<` on column values only relates two texts or two numbers, and never a value to itself |
| Leaderboard.Compare | frontend/src/components/Leaderboard.tsx:71-73 | the comparator returns -1, 0 or 1 |
| Leaderboard.LessAsymmetric | frontend/src/components/Leaderboard.tsx:71-72 | `<` on two column values is asymmetric |
| Leaderboard.CompareAntisymmetric | frontend/src/components/Leaderboard.tsx:71-73 | swapping the players negates the comparison |
| Leaderboard.CompareZeroIffSameValue | frontend/src/components/Leaderboard.tsx:50-73 | two players compare equal exactly when their column values are equal |
| Leaderboard.NameComparedIgnoringCase | frontend/src/components/Leaderboard.tsx:54-56 | on the name column two players tie exactly when their names have the same length and agree letter by letter up to case |
| Leaderboard.PrecedesIsTotalPreorder | frontend/src/components/Leaderboard.tsx:49-74 | the comparator, for every column and direction, is total and transitive |
| Leaderboard.PrecedesIffInOrder | frontend/src/components/Leaderboard.tsx:71-73 | the comparator places a player first exactly when the column value does not fall (ascending) or does not rise (descending) |
| Leaderboard.SortedIsInRankOrder | frontend/src/components/Leaderboard.tsx:49-74 | sorted by the comparator means column values non-decreasing for ascending, non-increasing for descending |
| Leaderboard.UnrankedPlacement | frontend/src/components/Leaderboard.tsx:58-60 | players without an active rank come after every ranked player ascending and before them descending |
| Leaderboard.VisibleExactly | frontend/src/components/Leaderboard.tsx:49 | with inactive players hidden only active players are listed, as often as they occur; shown, every player is |
| Leaderboard.Visible | frontend/src/components/Leaderboard.tsx:49 | with inactive players shown the list is all players; hidden, every listed player is active |
| Leaderboard.SortedPlayers | frontend/src/components/Leaderboard.tsx:49-74 | the rows are a permutation of the listed players, in the column order of the direction |
| Leaderboard.NextSort | frontend/src/components/Leaderboard.tsx:40-47 | choosing the current column flips the direction; another column becomes current, sorted descending |
| Leaderboard.LeaderboardView.constructor | frontend/src/components/Leaderboard.tsx:21-25 | no players, inactive ones hidden, sorted by rating descending |
| Leaderboard.LeaderboardView.Load | frontend/src/components/Leaderboard.tsx:31 | the fetched players are stored, the rest unchanged |
| Leaderboard.LeaderboardView.ToggleInactive | frontend/src/components/Leaderboard.tsx:88 | the toggle flips, the rest unchanged |
| Leaderboard.LeaderboardView.HandleSort | frontend/src/components/Leaderboard.tsx:40-47 | the sort state takes its `NextSort` step, the list and toggle unchanged |
| Leaderboard.LeaderboardView.Rows | frontend/src/components/Leaderboard.tsx:49-74 | the rows on display, sorted from a copy, a permutation of the listed players in column order |
| PlayerMatchesTable.TableTeam | frontend/src/components/PlayerMatchesTable.tsx:96 | blue exactly when the blue roster is present and the name occurs in it at some index; red for a null roster |
| PlayerMatchesTable.EntryIsDetected | frontend/src/components/PlayerMatchesTable.tsx:96 | a name that is a trimmed roster entry is always found by the substring test |
| PlayerMatchesTable.NameInsideAnotherName | frontend/src/components/PlayerMatchesTable.tsx:96 | the converse fails: "bob" counts as blue in "bobby,alice" though it is no entry |
| PlayerMatchesTable.TableRow | frontend/src/components/PlayerMatchesTable.tsx:95-119 | a row's class is "win" exactly when its text is "Win", which happens exactly for (1, blue) or (2, red); a null outcome is styled "draw" but reads "Loss"; a "Win" row shows the winning score on the player's side |
| MatchesTable.TruncateTeamName | frontend/src/components/MatchesTable.tsx:41-44 | "" for a null or empty name; at most 20 characters; names up to 20 unchanged; longer ones become exactly 20 characters, their first 17 followed by "..." |
| MatchesTable.TruncateIdempotent | frontend/src/components/MatchesTable.tsx:41-44 | shortening a shortened name changes nothing |
| MatchesTable.GetOutcomeClass | frontend/src/components/MatchesTable.tsx:46-50 | "blue-win" exactly for 1, "red-win" exactly for 2, "draw" for everything else, 0 and null included |
| MatchesTable.GetOutcomeText | frontend/src/components/MatchesTable.tsx:52-56 | "Blue Win" exactly for 1, "Red Win" exactly for 2, "Draw" otherwise |
| MatchesTable.ClassAndTextAgree | frontend/src/components/MatchesTable.tsx:46-56 | class and text name the same side in every case |

## Left out

- Fetching (`fetch`, `response.json()`), the loading and error states, and `console.error` are I/O. `Load` receives the fetched data as a parameter.
- React's render cycle is not modelled. Each setter in `MatchHistoryView` recomputes the rows at once, which the screen does in its effect after the next render. The moment between the two, when `Load` has shown the unfiltered matches, is not modelled.
- The ELO chart (chart.js configuration and zoom) is a foreign library call.
- Dates are not parsed. `created_at` and the two date controls are integer timestamps, and an empty control is `None`. A date string that does not parse (an Invalid Date, whose comparisons are all false) is not modelled. Nor is the effect that an end date entered as a calendar day means that day's midnight.
- `toLocaleString` and `toLocaleDateString` are host- and locale-dependent. The export takes the date rendering as a function parameter `formatDate`.
- Strings.LocaleCompare: `localeCompare` is modelled as code-point lexicographic order. A locale's collation may order strings differently. The leaderboard's `<` on strings is modelled by the same order.
- Strings.Lower: `toLowerCase` is modelled for ASCII letters only. Other letters are left unchanged.
- String lengths and string order use code points, not the UTF-16 code units JavaScript uses. A name containing characters outside the Basic Multilingual Plane is truncated at a different point than in `truncateTeamName`, and can sort differently under the leaderboard's `<`: a surrogate pair sorts below characters from U+E000 to U+FFFF in JavaScript but above them here.
- Sorting.InsertionSort, PlayerMatches.FilterAndSort, PlayerMatches.MatchHistoryView.Refresh, Leaderboard.SortedPlayers, Leaderboard.LeaderboardView.Rows: they do not state stability. `Array.prototype.sort` is stable, so equal rows keep their original order, but the model only proves a sorted permutation.
- Number-to-text conversion is modelled for integers. Floating-point values, and the `* 100` and `toFixed(1)` formatting of the win percentage, are left out. The ratio is an exact real.
- Player counts are non-negative integers. With negative counts the source's ratio could leave [0, 1].
- The active-rank and all-time-rank columns have no clickable header in the leaderboard. The comparator's handling of them is modelled all the same.
- The Blob and link download mechanics of the export are browser APIs.
- JSX markup, CSS classes other than the outcome classes, the `title` attributes and navigation are presentation only.
- The Rust back end is not part of this model: its controllers filter and order in SQL, its migrations and entities are schema, its worker is a placeholder. Neither are the app shell, the about page or the build configuration.
