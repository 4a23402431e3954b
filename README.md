# HMFT attendance leaderboard — a Dafny model

This project models the logic of the `Leaderboard` React component of the HMFT
attendance tracker. The component fetches one dataset. It holds an overall table
`total` (a header row, then one row `[name, count, percentage]` per member) and
a dictionary `monthly` from month keys to arrays of rows `[name, count, fraction]`.
From these it shows:

- a ranking table, either the total ranking or the ranking of one selected month;
- a line chart of the seven best fractions of every month, one series per member;
- a bar chart of the top leader's fraction in every month where that member appears.

The model has six modules:

- `Wrappers`: the `Option` type.
- `Rows`: the row type and the comparator sort `sort((a, b) => b[k] - a[k])`.
  ECMAScript requires `Array.prototype.sort` to be stable, so the sort is a
  function of its input. `SortDesc` is that stable descending insertion order.
  `SortInPlace` sorts an array in place, and is proved equal to `SortDesc`.
- `Months`: the insertion-ordered `monthly` dictionary, as a sequence of
  `(key, array)` entries. `Snapshot` is the dictionary's current contents.
- `History`: `getTop7History`, as loops that sort every month's array in place and
  fill a name-keyed dictionary. The lemmas are about its value, `HistoryOf`.
- `Performance`: `getTopLeaderPerformance`, as a loop over the months that runs
  `find` over each array.
- `Leaderboard`: the total ranking function, and a class `Component` holding the
  component's state. Its methods are the load callback, the two select handlers,
  the view/month effect and one render.

Months hold the array objects themselves, so aliasing is modelled. In the
monthly view, the effect sorts the selected month's own array by count and
makes that array the table (`sortedData`). Every render then calls
`getTop7History`, which sorts every month's array in place by fraction. The
table is read after that sort. So whenever `sortedData` is a month's array, the
rendered table is in fraction order, not count order (`Render`'s last
postcondition). Nothing in the component relates a month's fractions to its
counts. The two orders agree only if the data endpoint computes each fraction
as the count over the same number of sessions, and the model does not assume
that.

Four consequences of the code are easy to miss:

- A selected month that does not exist leaves `sortedData` as it was rather
  than clearing the table (`ApplyView`).
- With an empty ranking, `topLeader` keeps its previous value, initially `''`
  (`Load`).
- A month's table can be rendered in fraction order, as described above.
- The monthly effect changes the next chart. After the selected month is
  sorted by count, the render's stable fraction sort keeps rows with equal
  fractions in count order. The order of the series, and which rows tie for
  seventh place, can then differ from the previous render
  (`ResortReordersChart`).

Numbers are integers. A row's score is the source's fraction (or percentage)
in a fixed-point unit. `Percent(score) = 100 * score` stands for the source's
`* 100`.

## Model

| member | source | states |
|---|---|---|
| Rows.FirstNamed | src/Leaderboard.tsx:163 | `data.find`: a row with the name that no earlier row shares, or None exactly when no row has the name |
| Rows.NameIndex | src/Leaderboard.tsx:163 | the index of the first row with the name, or None exactly when no row has it |
| Rows.SortDesc | src/Leaderboard.tsx:26 | every comparator `.sort` (also src/Leaderboard.tsx:46, 50, 141) as a value: the stable descending sort, of the input's length; the SortDesc lemma rows below give its meaning |
| Rows.SortDescSorted | src/Leaderboard.tsx:26 | the comparator sort yields rows in non-increasing order of the column |
| Rows.SortDescPermutation | src/Leaderboard.tsx:26 | the sort yields a permutation of its input (same multiset) |
| Rows.SortDescUnique | src/Leaderboard.tsx:141 | sorting rows whose names are unique leaves the names unique |
| Rows.SortDescStable | src/Leaderboard.tsx:26 | for every key value, the rows with that key keep their input order (stable sort) |
| Rows.SortDescOfSorted | src/Leaderboard.tsx:141 | sorting rows that are already in order changes nothing |
| Rows.SortDescIdempotent | src/Leaderboard.tsx:141 | sorting twice by the same column changes nothing, so renders with no effect in between agree |
| Rows.InsertDescWithKey | src/Leaderboard.tsx:26 | inserting a row into sorted rows appends it after the other rows with the same key |
| Rows.SortInPlace | src/Leaderboard.tsx:50 | `array.sort` in place: the new contents are the stable sort of the old contents, sorted and a permutation |
| Months.Keys | src/Leaderboard.tsx:136 | `Object.keys`: one key per entry, in entry order (also src/Leaderboard.tsx:28) |
| Months.SortMonth | src/Leaderboard.tsx:140-141 | sorting one month's own array in place (also src/Leaderboard.tsx:48-50): its contents become the stable sort of the old contents, sorted and a permutation, and every other month keeps its rows |
| Months.IndexOf | src/Leaderboard.tsx:48 | the property lookup `data.monthly[selectedMonth]`: the first position of the key, or None exactly when the key is absent |
| History.Percent | src/Leaderboard.tsx:147 | `row[2] * 100`: a whole multiple of 100 from which the fraction is recovered exactly |
| History.Top | src/Leaderboard.tsx:143 | `slice(0, 7)`: the first min(7, n) rows, as a prefix of the rows |
| History.SortAll | src/Leaderboard.tsx:139-149 | the outer `months.forEach`: every month's array ends up sorted by fraction, and the dictionary holds the entries of all sorted months |
| History.Top7History | src/Leaderboard.tsx:135-155 | every month's array is left sorted by fraction, and the result is `HistoryOf` the sorted months |
| History.Step | src/Leaderboard.tsx:139-149 | one iteration of the outer loop: from "first i months sorted, dictionary holds their entries" to the same for i + 1 |
| History.AddSortedMonth | src/Leaderboard.tsx:140-148 | one month: only its array changes, and it becomes the sorted contents; the dictionary then holds the points of its first seven rows as well |
| History.AddMonth | src/Leaderboard.tsx:143-148 | the inner loop adds the kept rows' points to the dictionary, which stays consistent with the entries seen |
| History.AddPoint | src/Leaderboard.tsx:144-147 | creates the name's series if it is absent and appends the row's point to it |
| History.Listed | src/Leaderboard.tsx:151-154 | the `{id, data}` list: one series per dictionary key, in key order, holding that key's points |
| History.ToSeries | src/Leaderboard.tsx:151-154 | the same list in terms of the entries seen: the series of each name in first-appearance order, with the points of its entries |
| History.HistoryOf | src/Leaderboard.tsx:135-155 | the value of `getTop7History` on the sorted months: each series holds exactly the points of the entries with its name; the History lemma rows below give the rest |
| History.ResortReordersChart | src/Leaderboard.tsx:50 | with the fraction sort at src/Leaderboard.tsx:141: one month with rows A (count 1) and B (count 2) of equal fraction charts A, B; after the month is sorted by count it charts B, A |
| History.HistoryIds | src/Leaderboard.tsx:151-154 | the series ids are distinct, are exactly the names kept in some month, and are ordered by first appearance |
| History.FirstAppearancesOrder | src/Leaderboard.tsx:144-146 | series are created in the order their names first occur |
| History.FirstAppearancesDistinct | src/Leaderboard.tsx:144-146 | a name gets at most one series |
| History.HistoryData | src/Leaderboard.tsx:139-148 | if no name repeats in a month's top seven, a series holds one point per month whose top seven include the name, in month order, and none for the other months |
| History.HistoryDataFetched | src/Leaderboard.tsx:139-148 | the same for the chart of the sorted months, needing only that no name repeats within a fetched month |
| History.HistoryPointsSound | src/Leaderboard.tsx:143-147 | every point is (month, fraction * 100) of a row with the series' name among that month's first seven rows |
| History.HistoryCount | src/Leaderboard.tsx:143 | the chart holds one point per kept row: in total, the sum over the months of min(7, number of rows) |
| History.TopIsHighest | src/Leaderboard.tsx:141-143 | the kept rows are min(7, n) of the month's rows, and no dropped row has a higher fraction than a kept one |
| History.SortMonthsSorted | src/Leaderboard.tsx:140-141 | after the sort each month keeps its key, and its rows are a permutation of the old rows in non-increasing fraction order |
| Performance.FindByName | src/Leaderboard.tsx:163 | `data.find`: the first row with the leader's name, or None exactly when no row has it |
| Performance.LeaderPerformance | src/Leaderboard.tsx:157-170 | the value of `getTopLeaderPerformance`: [] when the total table is empty or there is no leader (src/Leaderboard.tsx:158), and at most one bar per month; the LeaderBars lemma rows below give the rest |
| Performance.TopLeaderPerformance | src/Leaderboard.tsx:157-170 | [] when the total table is empty or there is no leader; otherwise one bar per month that has the leader, in month order |
| Performance.LeaderBarsLength | src/Leaderboard.tsx:162-167 | at most one bar per month |
| Performance.LeaderBarsMembers | src/Leaderboard.tsx:162-167 | every bar is (month, fraction * 100) of the first matching row of that month, and every month with a matching row has its bar |
| Performance.LeaderBarsOrder | src/Leaderboard.tsx:162 | with distinct month keys, the bars follow the month order |
| Leaderboard.Tail | src/Leaderboard.tsx:26 | `slice(1)`: every row after the header, in order (nothing for an empty table) |
| Leaderboard.PropertyKey | src/Leaderboard.tsx:48 | the property name a lookup with `selectedMonth` uses: the selected key, or "undefined" when none is selected |
| Leaderboard.TableOf | src/Leaderboard.tsx:96-103 | `sortedData.map`: one line per row, ranked from 1, with the row's name and count, and the stored percentage in the total view or the fraction times 100 otherwise |
| Leaderboard.RankTotal | src/Leaderboard.tsx:26 | the total ranking has max(0, n - 1) rows, is non-increasing by count, and is a permutation of the rows after the header |
| Leaderboard.RankTotalStable | src/Leaderboard.tsx:46 | members with equal counts keep their order from the fetched table |
| Leaderboard.RankTotalLeader | src/Leaderboard.tsx:29-31 | the first ranked row is a row of the table with the highest count |
| Leaderboard.RankTotalArray | src/Leaderboard.tsx:46 | a new array holding the total ranking |
| Leaderboard.Component.constructor | src/Leaderboard.tsx:15-19 | the initial state: no data, selected month '', view 'total', empty table, no leader |
| Leaderboard.Component.Load | src/Leaderboard.tsx:24-31 | stores the data; the table is a new total ranking; the first month key is selected (none without months); the leader is the first ranked name if the ranking is not empty, else unchanged |
| Leaderboard.Component.SetView | src/Leaderboard.tsx:40-42 | sets the view option and nothing else |
| Leaderboard.Component.SetMonth | src/Leaderboard.tsx:36-38 | sets the selected month and nothing else |
| Leaderboard.Component.ApplyView | src/Leaderboard.tsx:44-53 | total view: a new total ranking is the table; monthly view with a missing month: nothing changes; otherwise only that month's array changes, sorted by count (sorted, a permutation), and that array becomes the table |
| Leaderboard.Component.Render | src/Leaderboard.tsx:55-60 | Loading while either table is empty; otherwise every month is sorted by fraction, the chart, the bars and the table are computed from the sorted months, and a table aliasing a month shows that month in fraction order |

## Left out

- Fetching, JSON decoding and `console.error` (src/Leaderboard.tsx:22-23, 33) are network I/O. `Load` receives the decoded data as parameters.
- The JSX markup, the `<select>` elements, the chart components and the `@nivo` calls (src/Leaderboard.tsx:62-133, 172 onwards) are UI code and foreign libraries. A render returns the data it would draw: the table lines (`TableOf`, without the `toFixed(2)` formatting), the series, the leader and the bars.
- React's scheduling is left to the caller: when renders and effects run, batching, and setState skipping a value that did not change. A caller runs `ApplyView` after a render in which the view, the month or the data changed.
- Floating point is not modelled: scores are integers; `toFixed(2)` and the `%` suffix are not modelled; bars and table lines keep the unformatted number.
- `NaN` from subtracting missing or non-numeric cells is not modelled: rows are typed, so the comparator is always consistent.
- `Object.keys` orders integer-like keys first, both for `data.monthly` and for `top7History` (src/Leaderboard.tsx:151). The model takes the months in the order it is given, and the series in the order their names first appear (`ToSeries`, `HistoryIds`).
- Member names that are `Object.prototype` members (such as "constructor") make `getTop7History` throw: `top7History` starts as `{}` (src/Leaderboard.tsx:137), so `!top7History[name]` finds the inherited value, no series is created, and `push` fails (src/Leaderboard.tsx:144-147). The model treats such names as ordinary names. Month keys are looked up correctly, since they come from the object's own keys. A `selectedMonth` that is not a key but names an inherited member would make `.sort` throw at src/Leaderboard.tsx:50, where `ApplyView` leaves the table as it is. The `<select>` offers only keys, so this case does not arise.
- The header row of `total` is a row like the others. Ranking drops it without looking at it, and the emptiness guards count it.
- `src/main.tsx` only mounts the component and is not part of this model.
