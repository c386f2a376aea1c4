# Commit statistics and navigation of a portfolio site, in Dafny

This project models the two pieces of logic in a small portfolio website that are more than page
rendering:

- **Commit aggregation** (`meta/meta.js`). `processCommits` takes the per-line rows of the commit log
  (`loc.csv`) and groups them by commit id with `d3.groups`. It builds one summary per commit: the id,
  the commit URL, and the author, date, time, timezone and datetime of the group's first row. It adds
  `hourFrac` (hour plus minutes/60) and `totalLines` (the number of rows). The rows themselves stay on
  the summary as a read-only, non-enumerable `lines` property. The model splits a summary into
  `fields` (the nine enumerable properties) and `lines`, and `Enumerate` lists what enumeration sees.
- **The commit statistics** that `renderCommitInfo` shows. These are the number of commits, the weekday
  and the hour with the most rows, and the busiest hour as a 12-hour label such as `3:00 PM - 3:59 PM`.
  Rows are counted with `d3.rollup`. The busiest key is picked with
  `reduce((a, b) => a[1] > b[1] ? a : b)`, so on a tie the later key wins. `reduce` throws on an empty
  array.
- **The navigation bar** (`global.js`). The base path depends on the host name. The script builds one
  anchor per page: a URL that starts with `http` is used as it is, and any other URL is prefixed with
  the base path. The first anchor whose host and pathname match the current location gets the class
  `current`.

Modules:

- `grouping.dfy`: `Grouping`. `GroupsBy` is `d3.groups` written as the library computes it, in one
  left-to-right pass. It is proved equal to a reference description: `KeysInOrder` gives the distinct
  keys in first-seen order, and `Members` gives the elements that have one key. `Rollup` is `d3.rollup`
  with a length reducer.
- `commits.dfy`: `Commits`. Holds the row and summary datatypes, `ProcessCommits`, and its properties.
- `stats.dfy`: `CommitStats`. Holds the reduce-based argmax, the most active weekday and hour, the hour
  label, and the figures `renderCommitInfo` shows.
- `nav.dfy`: `Navigation`. Holds `BASE_PATH`, the loop that builds the anchors (a method with a loop
  invariant), the `find` of the current anchor (a method with a loop), and the script as a whole up to the theme selector.
- `wrappers.dfy`: `Option` and `Result`.

Date fields are modelled by `Moment`. It carries the local hour (0..23), minute (0..59) and weekday
(0..6, Sunday first) that `Date.getHours`, `getMinutes` and `getDay` return. `hourFrac` is a `real`.
The csv's `type` column is the field `kind`, because `type` is a Dafny keyword.

Only `meta/meta.js` and `global.js` are modelled.

## Model

| member | source | states |
|---|---|---|
| `Grouping.AddTo` | meta/meta.js:20-21 | One grouping step adds at most one group. Every group it leaves at a position either has the element's key or is unchanged from before. |
| `Grouping.GroupsBy` | meta/meta.js:20-21 | There are never more groups than elements, and there are no groups iff the input is empty. |
| `Grouping.Rollup` | meta/meta.js:56-60 | There are never more entries than rows, no entries iff there are no rows, and every count is positive. |
| `Grouping.GroupsBySpec` | meta/meta.js:20-22 | `d3.groups` yields one group per distinct key, in the order the keys first appear. Each group holds exactly the elements with its key, in input order. |
| `Grouping.KeysInOrderSpec` | meta/meta.js:20-21 | The group keys are pairwise distinct. A key is listed iff some element has it. Keys are ordered by the position of their first element. |
| `Grouping.AddToSpec` | meta/meta.js:20-21 | One grouping step appends the element to its key's group, or opens a new last group for a new key. No other group changes. |
| `Grouping.AddToTotal` | meta/meta.js:20-21 | Each grouping step places exactly one more element. |
| `Grouping.GroupsByTotal` | meta/meta.js:20-22 | The group sizes add up to the input length: no row is lost or duplicated. |
| `Grouping.GroupsNonEmpty` | meta/meta.js:22-23 | No group is empty, so `lines[0]` always exists. |
| `Grouping.MembersFirst` | meta/meta.js:23 | A key has no members iff no element has it. Otherwise its first member is the first element with that key. |
| `Grouping.MembersOfAbsentKey` | meta/meta.js:20-22 | A key that no element has gets no members. |
| `Grouping.GroupsByStep` | meta/meta.js:20-22 | One grouping step keeps the groups equal to the reference description of the rows seen so far. |
| `Grouping.RollupSpec` | meta/meta.js:56-60 | `d3.rollup` with `v => v.length` counts rows, not groups. Entry i is the i-th distinct key with its row count. Every count is positive. The counts add up to the number of rows. |
| `Commits.Summarize` | meta/meta.js:22-43 | A group's summary keeps the group's rows and their number. Its id is the group key, and its url is the commit prefix followed by the id. Its `hourFrac` lies in [0, 24). |
| `Commits.HourFraction` | meta/meta.js:33 | `hourFrac` lies in [0, 24) and in [hour, hour + 1). |
| `Commits.ProcessCommits` | meta/meta.js:19-45 | There is one summary per group that `d3.groups` yields over the commit ids. |
| `Commits.ProcessCommitsAt` | meta/meta.js:20-34 | Summary i belongs to the i-th distinct commit id and holds exactly that id's rows. |
| `Commits.ProcessCommitsIds` | meta/meta.js:20-22 | Summary ids are pairwise distinct and ordered by first appearance in the input. An id has a summary iff some row carries it. |
| `Commits.ProcessCommitsSummary` | meta/meta.js:22-41 | `lines` is exactly the rows with the summary's id, in input order, and is non-empty. `totalLines` is their number. `author`, `date`, `time`, `timezone` and `datetime` come from the first such row. `url` is the commit prefix plus the id. `hourFrac` is hour + minute/60 of that row's datetime, in [0, 24). |
| `Commits.ProcessCommitsTotal` | meta/meta.js:34 | The `totalLines` of all summaries add up to the number of input rows. |
| `Commits.Enumerate` | meta/meta.js:25-41 | Enumeration yields nine properties with distinct names, and none of them is `lines`. |
| `Commits.EnumerateSummary` | meta/meta.js:25-41 | The visible summary can be read back from its enumerated properties. Two commits with the same visible properties enumerate alike, whatever their rows. |
| `CommitStats.Larger` | meta/meta.js:61-62 | The reducer returns one of its two entries, with a count no smaller than either. When the second count is at least the first, the second entry wins. |
| `CommitStats.ReduceLarger` | meta/meta.js:61-63 | The reduce returns one of the entries, and no entry has a larger count. |
| `CommitStats.Reduce` | meta/meta.js:61-63 | `reduce` without an initial value fails iff the array is empty. Otherwise it returns a maximal entry. |
| `CommitStats.ReduceLargerIsLastMaximum` | meta/meta.js:61-63 | The winner stands at a position where every later entry has a strictly smaller count, so ties go to the later entry. |
| `CommitStats.MostActive` | meta/meta.js:56-63 | Picking the busiest key fails iff there are no rows. |
| `CommitStats.RollupEntryOf` | meta/meta.js:56-60 | The key of every row has a rollup entry holding that row's key and its row count. |
| `CommitStats.MostActiveSpec` | meta/meta.js:56-77 | The busiest weekday or hour fails iff the data is empty. Otherwise it is a key some row has, no key has more rows, and among tied keys it is the one whose first row comes last. |
| `CommitStats.DisplayHour` | meta/meta.js:79 | The displayed hour (`maxHour % 12`, or 12 when that is 0) lies in 1..12 and agrees with the hour modulo 12. |
| `CommitStats.Meridiem` | meta/meta.js:78 | The suffix is `PM` iff the hour is at least 12, and `AM` iff it is below 12. |
| `CommitStats.DecimalString` | meta/meta.js:82 | A number in a template literal is a non-empty string of decimal digits. It has no leading zero, and 0 is written `0`. |
| `CommitStats.DecimalRoundTrip` | meta/meta.js:82 | Reading the formatted number back gives the number. |
| `CommitStats.HourLabel` | meta/meta.js:82 | The label ends in `PM` iff the hour is at least 12, and in `AM` otherwise. |
| `CommitStats.HourLabelParts` | meta/meta.js:82 | The label begins with the displayed hour and a colon, and ends with the `AM`/`PM` suffix of that hour. |
| `CommitStats.HourLabelInjective` | meta/meta.js:78-82 | Distinct hours get distinct labels: the label determines the hour. |
| `CommitStats.CommitInfoOf` | meta/meta.js:48-83 | The figures fail iff there are no rows, because `reduce` throws. Otherwise the total is the number of commits passed in. |
| `CommitStats.CommitInfoSpec` | meta/meta.js:48-83 | The figures exist iff there are rows. The total is the number of distinct commit ids. The day named is a weekday some row has, with no fewer rows than any other weekday. The label is that of an hour with the same property. On a tie, each is the key whose first row comes last, as the strict `>` in the reducer gives. |
| `Navigation.BasePath` | global.js:7-10 | `BASE_PATH` is `/` iff the host name is `localhost` or `127.0.0.1`, and `/website.github.io/` otherwise. It always starts with `/`. |
| `Navigation.Href` | global.js:27 | A URL starting with `http` is used unchanged. Any other URL becomes base path plus URL: the result starts with the base path, and the URL can be read back after it. |
| `Navigation.BuildNav` | global.js:23-37 | There is exactly one anchor per page, in page order. Each has the page's title as text and the prefixed URL as href, takes its host and pathname from the browser's resolution, opens in a new tab iff its host differs from the current one, and is not yet current. |
| `Navigation.FindCurrent` | global.js:41-43 | It finds the first anchor whose host and pathname equal the location's, or reports that none matches. |
| `Navigation.InjectNav` | global.js:7-45 | The nav has the site's five pages in order, with their titles and hrefs under `BASE_PATH`. Each anchor's host and pathname are those of its resolved href, and it opens in a new tab iff its host differs from the location's. An anchor is marked `current` iff it is the first one pointing at the current location. |
| `Navigation.SiteHrefs` | global.js:12-18 | Shows the hrefs of the site's pages on a local server and on the hosted site. The GitHub link is the same in both. |

## Left out

- `loadData` (meta/meta.js:6-17) is left out. It fetches the csv over the network and parses numbers and dates; the model takes the rows as already typed.
- Local time zones are left out: `Date.getHours`, `getMinutes` and `getDay` depend on the browser's time zone. Their results are the fields of `Moment`.
- `Commits.HourFraction`: the source computes `hourFrac` in IEEE-754 doubles; the model uses exact reals.
- `renderScatterPlot` (meta/meta.js:86-163) is left out: d3 scales, axes, gridlines and SVG output are floating-point pixel mapping inside the charting library.
- `renderTooltipContent` (meta/meta.js:165-184) is left out. It only writes to the DOM, and it reads `commit.linesEdited`, which `processCommits` never sets.
- `CommitStats.CommitInfoOf`: the DOM writes of `renderCommitInfo` are left out. When the data is empty, the source has already appended the total-commits entry before `reduce` throws; the model returns only the error.
- Browser URL resolution is a parameter of `Navigation.BuildNav`: the model does not parse URLs. This covers what `a.host` and `a.pathname` report for an href.
- `$$("nav a")` (global.js:39) is taken to return exactly the anchors the loop appended, in order.
- The theme selector (global.js:47-62) is left out. It is UI, and its listener refers to `select`, which the script never defines.
- `console.log` calls are left out.
- `index.js` and `projects/projects.js` are not part of this model. They fetch JSON and render it, and they import functions that `global.js` does not define.
- `writable: false` on `lines` (meta/meta.js:39) needs no model: datatype values cannot be assigned to.
