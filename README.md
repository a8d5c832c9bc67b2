# SpaceX launch dashboard — a Dafny model of its data logic

The dashboard reads a table of rocket launches. Each row holds a launch site, a payload mass, an outcome class (1 for success, 0 for failure) and a booster version category. From that table it derives two things once: the payload bounds that seed the range slider, and the options of the site dropdown (an 'All Sites' entry, then each distinct site). It also holds two callbacks:

- the pie callback. For the selector `'ALL'` it counts the successful launches per site. For a site it counts that site's launches per outcome class.
- the scatter callback. For `'ALL'` it keeps the launches whose payload lies in the slider's inclusive range. For a site it keeps that site's launches and ignores the range.

This model states each of these as a Dafny definition and proves what the data handed to the charts contains.

- `frames.dfy` (module `Frames`) gives the table operations the code relies on, each with an independent description of its result:
  - the boolean-mask filter `Where`: membership, multiplicity and order of the rows it keeps;
  - the group-size count `GroupSizes`: one key per group that occurs, its count, and counts that sum to the number of rows;
  - `Unique`: distinct values in order of first appearance.
- `dashboard.dfy` (module `Dashboard`) holds the launch record, the payload bounds, the dropdown construction and the data of the two callbacks. Each is a pure function of the table and the control values, except the dropdown. The dropdown is built by a loop that appends to a list, so it is a method with a loop.

Group counts are maps (`map<string, nat>` by site, `map<int, nat>` by class). No order of the groups is fixed. The sum of a map's values is the ghost function `Frames.Total`, which does not depend on key order. The selector is compared with the string `"ALL"` exactly as the code compares it, so a site literally named `ALL` would take the all-sites branch.

The code's own wording suggests that a site's pie always has two slices. The comment at 7_Dashboard_With_Plotly_Dash.py:40 speaks of the site's "Success vs. Failed counts", and the title at :75 reads "Successful vs. Failed Launches for" the site. The grouping at :74 counts only the classes that occur, so a site with only successes gets one slice. The model follows the grouping: `PieSiteSlices` and `PieSiteBinary` state at most two slices, one per class present.

The scatter's site branch does not apply the payload range (7_Dashboard_With_Plotly_Dash.py:93). The model keeps this behaviour and proves it as the third postcondition of `ScatterOneSite`.

## Model

| member | source | states |
|---|---|---|
| `Frames.WhereMembers` | 7_Dashboard_With_Plotly_Dash.py:67 | a row is in a masked table exactly when it is in the table and satisfies the mask |
| `Frames.WhereMultiplicity` | 7_Dashboard_With_Plotly_Dash.py:89 | the mask keeps every copy of a passing row and no copy of a failing one |
| `Frames.WhereKeepsOrder` | 7_Dashboard_With_Plotly_Dash.py:93 | the masked table is a subsequence of the table: increasing positions of the table spell it out |
| `Frames.WhereAll` | 7_Dashboard_With_Plotly_Dash.py:89 | a mask that every row passes returns the whole table |
| `Frames.WhereNone` | 7_Dashboard_With_Plotly_Dash.py:73 | a mask that no row passes returns the empty table |
| `Frames.GroupSizes` | 7_Dashboard_With_Plotly_Dash.py:68 | group-size counting has a key exactly for the values that occur, and each count is the number of rows carrying that value |
| `Frames.GroupSizesTotal` | 7_Dashboard_With_Plotly_Dash.py:74 | the group sizes add up to the number of rows grouped, whatever the order of the groups |
| `Frames.Unique` | 7_Dashboard_With_Plotly_Dash.py:18 | the unique values are exactly the values of the column, each once |
| `Frames.UniqueFirstAppearance` | 7_Dashboard_With_Plotly_Dash.py:18 | the unique values come in the order of their first occurrence in the column |
| `Frames.UniqueSize` | 7_Dashboard_With_Plotly_Dash.py:18 | there are as many unique values as elements in the set of the column's values |
| `Dashboard.MaxPayload` | 7_Dashboard_With_Plotly_Dash.py:11 | the maximum payload is one of the payloads and no payload exceeds it; it is absent exactly for an empty table |
| `Dashboard.MinPayload` | 7_Dashboard_With_Plotly_Dash.py:12 | the minimum payload is one of the payloads and no payload is below it; it is absent exactly for an empty table |
| `Dashboard.PayloadBoundsEnclose` | 7_Dashboard_With_Plotly_Dash.py:11-12 | on a non-empty table min <= max and every payload lies between them |
| `Dashboard.LaunchSites` | 7_Dashboard_With_Plotly_Dash.py:18 | the launch sites list every site of the table, only sites of the table, and none twice |
| `Dashboard.LaunchSitesCount` | 7_Dashboard_With_Plotly_Dash.py:18 | the number of launch sites is the number of distinct sites in the table |
| `Dashboard.LaunchSitesOrder` | 7_Dashboard_With_Plotly_Dash.py:18 | the launch sites come in the order in which each first appears in the table |
| `Dashboard.DropdownOptions` | 7_Dashboard_With_Plotly_Dash.py:20-23 | the options start with 'All Sites'/'ALL', then one option per distinct site, in first-appearance order, labelled and valued by the site, none twice; there are 1 + the number of distinct sites; every site of the table is offered |
| `Dashboard.GetPieChart` | 7_Dashboard_With_Plotly_Dash.py:64-76 | for 'ALL' the pie, titled 'All Sites Successful Launches Distribution', has a slice exactly for each site with a class-1 launch, every slice positive, and the slices add up to the number of class-1 launches; for any other selector, titled 'Successful vs. Failed Launches for ' and the site, it has a slice exactly for each class among that site's launches, every slice positive, adding up to the site's number of launches |
| `Dashboard.PieAllSlices` | 7_Dashboard_With_Plotly_Dash.py:67-68 | the all-sites pie has a slice for a site exactly when the site has a launch with class 1; the slice is that site's number of successes and is positive |
| `Dashboard.PieAllTotal` | 7_Dashboard_With_Plotly_Dash.py:67-68 | the all-sites pie's slices add up to the number of launches with class 1 |
| `Dashboard.PieSiteSlices` | 7_Dashboard_With_Plotly_Dash.py:73-74 | a site's pie has a slice for a class exactly when one of the site's launches has that class; the slice counts those launches and is positive |
| `Dashboard.PieSiteTotal` | 7_Dashboard_With_Plotly_Dash.py:73-74 | a site's pie slices add up to the number of launches from that site |
| `Dashboard.PieSiteBinary` | 7_Dashboard_With_Plotly_Dash.py:74 | when every class is 0 or 1, a site's pie has only the keys 0 and 1, so at most two slices |
| `Dashboard.PieUnknownSite` | 7_Dashboard_With_Plotly_Dash.py:73 | a selector that is not 'ALL' and names no site of the table gives an empty pie under that site's title |
| `Dashboard.GetScatterChart` | 7_Dashboard_With_Plotly_Dash.py:86-96 | the scatter's points are a subsequence of the table; for 'ALL' they hold every copy of each launch with lo <= payload <= hi and nothing else, for any other selector every copy of each launch of that site and nothing else; the title is 'Correlation between Payload and Outcome' and the axis titles 'Payload Mass (kg)' and 'Outcome' |
| `Dashboard.ScatterAllSites` | 7_Dashboard_With_Plotly_Dash.py:87-89 | for 'ALL' the scatter keeps exactly the launches with lo <= payload <= hi, every copy, in the table's order |
| `Dashboard.ScatterInvertedRange` | 7_Dashboard_With_Plotly_Dash.py:89 | for 'ALL' an inverted range (lo > hi) gives no points |
| `Dashboard.ScatterOneSite` | 7_Dashboard_With_Plotly_Dash.py:91-93 | for a site the scatter keeps exactly that site's launches, every copy, in the table's order, and the result does not depend on the range |
| `Dashboard.ScatterUnknownSite` | 7_Dashboard_With_Plotly_Dash.py:93 | a selector that is not 'ALL' and names no site of the table gives no points |
| `Dashboard.ScatterInitialRange` | 7_Dashboard_With_Plotly_Dash.py:52 | with the slider at its initial value [min payload, max payload], 'ALL' shows every launch of a non-empty table |

## Left out

- Reading the CSV file (7_Dashboard_With_Plotly_Dash.py:10) is file I/O done by pandas. The table is a parameter `rs: seq<Launch>`.
- The Dash application, the layout, the `@app.callback` wiring and `run_server` (lines 15, 26-57, 62-63, 81-85, 99-100) are UI and event plumbing. The callbacks are modelled as plain functions of the table and the control values.
- Rendering by `px.pie`, `px.scatter` and `update_layout` is library code. Only the data handed to them and the title strings are kept (`PieChart`, `ScatterChart`). The field `DropdownOption.text` holds Dash's `'label'` key (`label` is a Dafny keyword).
- The slider's domain constants 0, 10000 and 1000 (lines 48-50) are static UI configuration with no logic.
- pandas NaN semantics are not modelled. Payloads are `real` and have no NaN. `max()`/`min()` of an empty column give NaN; the model returns `None` for it.
- Each entry of the slider's two-element value `payload_value` is a separate parameter, `lo` and `hi`.
- A cleared dropdown sends `None` rather than a string, and that is not modelled. The code treats it like a site absent from the table: an empty pie and an empty scatter, as `PieUnknownSite` and `ScatterUnknownSite` state for such sites.
- pandas' ordering of the group-by keys is not modelled: counts are maps, which fix no order.
- Calling a callback twice with the same inputs gives the same result because every definition is a pure function. No separate lemma states this.
