# Emoji dashboard selection and classification, in Dafny

This project models the logic inside a small React dashboard. The dashboard shows
companies × metrics (percentage scores) as an emoji grid. The model covers three
pieces:

- **Classification and highlighting** (`EmojiChart`, with the table in `Controls`).
  A number is mapped to an emoji by searching the constant table `EMOJI_RANGES`.
  The table has five inclusive integer ranges: 90–100 Excelente 😁, 70–89 Bueno 😊,
  50–69 Regular 😐, 30–49 Bajo 😕 and 0–29 Crítico 😢. The first entry that contains
  the value wins, and '😐' is used when no entry matches. `shouldHighlight` decides
  which cards stay opaque under the emoji filter.
- **The emoji filter** (`Controls`). The selection is `null` or one emoji. Each emoji
  button toggles it, and "Restaurar" resets it to `null`.
- **The company and metric selections** (`App`). These are two arrays of
  `{name, selected}` records. One handler flips a single record, and two others
  select all or clear all. The grid then shows the data rows whose `Empresa` is a
  selected company, in data order. Its columns are the selected metrics, in metric
  order. Each row and column is paired with the average that the averaging
  collaborator computed over that same filtered selection.

Modules: `Wrappers` (an `Option`), `Controls` (src/components/EmojiChart/Controls.tsx),
`EmojiChart` (src/components/EmojiChart/EmojiChart.tsx) and `App` (src/App.tsx).

How values are represented:

- A JavaScript number is `Num = Finite(real) | NaN`. The logic only compares numbers,
  and every comparison with `NaN` is false.
- Strings are `seq<char>`. A data row is a `map<string, string>`, and a row without an
  `Empresa` field is never shown.
- `parseInt(s, 10)` is modelled as follows. It skips ASCII white space, then takes an
  optional sign, then the longest run of decimal digits. The result is `NaN` when
  there are no digits.
- The averages come from `calculateAverages` in `./utils`, which is not part of this
  model. `Render` takes them as a function parameter `calculate`, and applies it to
  the same filtered rows and metric names that the grid shows.
- The application state is a class, `App.Dashboard`, holding two arrays of
  `Selectable` record objects. It starts from the `COMPANIES` and `METRICS`
  constants' own arrays. Flipping one record copies the array but mutates the
  shared record in place. The model keeps that aliasing: the previous array, and
  before any select-all or clear-all the constant itself, shows the flip too.

Two behaviours of the code are worth knowing:

- Only a missing or empty cell becomes `'0'` (src/components/EmojiChart/EmojiChart.tsx:135).
  Any other text goes through `parseInt`, and text that does not start with a number
  parses to `NaN`, which gets the fallback '😐' (`ParseNoDigit`, `OutOfRangeIsFallback`).
- Fractional values between two ranges fall back to '😐': 89.5 or 29.5 get '😐', not
  the neighbouring bucket (`GapIsFallback`, `GapExamples`).

## Model

| member | source | states |
|---|---|---|
| `Controls.TableShape` | src/components/EmojiChart/Controls.tsx:14-20 | The table has five entries. Each range is non-empty, the entries are listed high to low, each lower bound is one above the next upper bound, and together they span 0 to 100. |
| `Controls.EmojisDistinct` | src/components/EmojiChart/Controls.tsx:15-19 | The five emojis, which are the buttons' React keys, are pairwise distinct. |
| `Controls.ContiguousDescending` | src/components/EmojiChart/Controls.tsx:15-19 | In a contiguous table, every later range lies wholly below every earlier one. |
| `Controls.ContiguousDisjoint` | src/components/EmojiChart/Controls.tsx:15-19 | In a contiguous table, no integer lies in two different ranges. |
| `Controls.ContiguousCovers` | src/components/EmojiChart/Controls.tsx:15-19 | A contiguous table covers every integer between its lowest and highest bound. |
| `Controls.TableCoversExactlyOnce` | src/components/EmojiChart/Controls.tsx:14-20 | Every integer in 0..100 lies in exactly one entry. |
| `Controls.TableCoversNothingElse` | src/components/EmojiChart/Controls.tsx:14-20 | No integer below 0 or above 100 lies in any entry. |
| `Controls.TableEmojis` | src/components/EmojiChart/Controls.tsx:43-46 | The emojis that have buttons are exactly the table's emojis, and there are five of them, one per entry, so the buttons' React keys are unique. |
| `Controls.Press` | src/components/EmojiChart/Controls.tsx:46 | Pressing an emoji gives `null` when that emoji was selected, and that emoji otherwise. The result is always that emoji or `null`. |
| `Controls.Step` | src/components/EmojiChart/Controls.tsx:43-66 | An enabled button press toggles, an enabled "Restaurar" gives `null`, and an event without a rendered button changes nothing. |
| `Controls.PressTwiceFromNone` | src/components/EmojiChart/Controls.tsx:46 | From `null`, pressing an emoji selects it, and pressing it again returns to `null`. |
| `Controls.StepKeepsReachable` | src/components/EmojiChart/Controls.tsx:46-60 | Every event keeps the selection `null` or one of the table's emojis. |
| `Controls.RestoreOffered` | src/components/EmojiChart/Controls.tsx:58 | `selectedEmoji &&`: "Restaurar" is offered only for a selection that is neither `null` nor empty. `RestoreOfferedWhenSelected` gives the converse on reachable selections. |
| `Controls.RunKeepsReachable` | src/components/EmojiChart/EmojiChart.tsx:22 | Starting from the initial `null`, any sequence of events leaves the selection `null` or one of the table's emojis. |
| `Controls.RestoreOfferedWhenSelected` | src/components/EmojiChart/Controls.tsx:58-60 | For any reachable selection, "Restaurar" is offered exactly when an emoji is selected. |
| `EmojiChart.Within` | src/components/EmojiChart/EmojiChart.tsx:52 | The `find` callback `value >= range[0] && value <= range[1]`. `NaN` lies in no range, and only a non-empty range holds anything. `TableDisjoint` and `FindRange` build on it. |
| `EmojiChart.FindRange` | src/components/EmojiChart/EmojiChart.tsx:51-53 | The search returns an entry of the table that contains the value. It returns nothing exactly when no entry contains the value. |
| `EmojiChart.FindRangeIsFirst` | src/components/EmojiChart/EmojiChart.tsx:51-53 | The search returns the entry at the first index whose range contains the value. |
| `EmojiChart.FindRangeOrderFree` | src/components/EmojiChart/EmojiChart.tsx:51-53 | When at most one entry contains the value, the search finds that entry wherever it stands. |
| `EmojiChart.TableDisjoint` | src/components/EmojiChart/Controls.tsx:15-19 | No value, integer or fractional, lies in two different entries. |
| `EmojiChart.ReorderedTable` | src/components/EmojiChart/EmojiChart.tsx:51-53 | A table with the same entries in any order gives the same result for every value. |
| `EmojiChart.EmojiForValue` | src/components/EmojiChart/EmojiChart.tsx:50-55 | The emoji for any value, including `NaN`, is one of the table's emojis. |
| `EmojiChart.ClassifiedByEntry` | src/components/EmojiChart/EmojiChart.tsx:50-55 | A value inside the range of entry i gets entry i's emoji. |
| `EmojiChart.UnclassifiedIsFallback` | src/components/EmojiChart/EmojiChart.tsx:54 | A value that no entry contains gets '😐'. |
| `EmojiChart.EmojiForValueIsBucket` | src/components/EmojiChart/EmojiChart.tsx:50-55 | On every value, the table search agrees with the threshold chain `Bucket` (90–100, 70–89, 50–69, 30–49, 0–29, else '😐'). |
| `EmojiChart.ClassifyInteger` | src/components/EmojiChart/EmojiChart.tsx:50-55 | Every integer in 0..100 gets the emoji of the entry whose range holds it. |
| `EmojiChart.OutOfRangeIsFallback` | src/components/EmojiChart/EmojiChart.tsx:51-54 | `NaN`, values below 0 and values above 100 get '😐'. |
| `EmojiChart.GapIsFallback` | src/components/EmojiChart/EmojiChart.tsx:51-54 | A value strictly between two neighbouring ranges gets '😐'. |
| `EmojiChart.GapExamples` | src/components/EmojiChart/EmojiChart.tsx:51-54 | 89.5 and 29.5 get '😐', 89 gets '😊' and 90 gets '😁'. |
| `EmojiChart.ShouldHighlight` | src/components/EmojiChart/EmojiChart.tsx:57-60 | Everything is highlighted when no emoji, or the empty string, is selected. Otherwise a value can only be highlighted under a table emoji. `HighlightSelectedEntry` gives the exact ranges. |
| `EmojiChart.HighlightAllWithoutSelection` | src/components/EmojiChart/EmojiChart.tsx:58 | With no emoji selected, every value is highlighted. |
| `EmojiChart.HighlightSelectedEntry` | src/components/EmojiChart/EmojiChart.tsx:57-60 | With entry i's emoji selected, a value is highlighted exactly when it lies in that range. For the '😐' entry, values that no entry contains are highlighted too. |
| `EmojiChart.HighlightUnclassified` | src/components/EmojiChart/EmojiChart.tsx:59 | Selecting '😐' highlights `NaN`, out-of-range values and values between ranges. |
| `EmojiChart.HighlightForeignEmoji` | src/components/EmojiChart/EmojiChart.tsx:59 | A non-empty selected emoji that is not in the table highlights nothing. |
| `EmojiChart.Filter` | src/components/EmojiChart/EmojiChart.tsx:39 | The filter keeps exactly the elements that pass, and is no longer than its input. |
| `EmojiChart.FilterPositions` | src/components/EmojiChart/EmojiChart.tsx:39-40 | The filter keeps exactly the positions whose element passes, in increasing order, and its k-th element is the element at the k-th such position. |
| `EmojiChart.SelectedOf` | src/components/EmojiChart/EmojiChart.tsx:39-40 | The selected companies or metrics: exactly the records whose flag is set. `FilterPositions` gives their order. |
| `EmojiChart.RowSelected` | src/components/EmojiChart/EmojiChart.tsx:44 | A row is selected when some selected company's name equals its `Empresa`; a row without `Empresa` never is. |
| `EmojiChart.VisibleRows` | src/components/EmojiChart/EmojiChart.tsx:121-122 | The shown rows are data rows that have an `Empresa`. `VisibleRowsInOrder` states which ones, in data order. |
| `EmojiChart.VisibleRowMembership` | src/components/EmojiChart/EmojiChart.tsx:44 | A row is shown exactly when it is a data row and some selected company's name equals its `Empresa`. |
| `EmojiChart.VisibleRowsInOrder` | src/components/EmojiChart/EmojiChart.tsx:121-123 | The shown rows are exactly the data rows whose company is selected, in data order. |
| `EmojiChart.ColumnsInOrder` | src/components/EmojiChart/EmojiChart.tsx:40-45 | The columns are exactly the selected metrics, in metric order. |
| `EmojiChart.ParseInt` | src/components/EmojiChart/EmojiChart.tsx:135 | `parseInt(s, 10)`: blank text is `NaN`, and every number it returns is an integer. `ParseDigits`, `ParseLeadingDigits` and `ParseNoDigit` give its values. |
| `EmojiChart.CellText` | src/components/EmojiChart/EmojiChart.tsx:135 | The cell text or else `'0'`: never empty. A cell with text keeps its own text, and a missing or empty cell gives "0". |
| `EmojiChart.CellValue` | src/components/EmojiChart/EmojiChart.tsx:135 | A missing or empty cell reads as 0, and every finite cell value is an integer. `CellValueSpec` gives the numeral case. |
| `EmojiChart.DecimalValue` | src/components/EmojiChart/EmojiChart.tsx:135 | Reading the decimal numeral of n gives back n. |
| `EmojiChart.ParseDigits` | src/components/EmojiChart/EmojiChart.tsx:135 | A non-empty cell made only of digits reads as the number it spells. |
| `EmojiChart.ParseDecimal` | src/components/EmojiChart/EmojiChart.tsx:135 | Parsing the decimal numeral of any natural number gives that number. |
| `EmojiChart.CellValueSpec` | src/components/EmojiChart/EmojiChart.tsx:135 | A missing or empty cell reads as 0, and a cell holding the numeral of n reads as n. |
| `EmojiChart.ParseLeadingDigits` | src/components/EmojiChart/EmojiChart.tsx:135 | Text that starts with digits reads as the value of those digits; whatever follows them is ignored. |
| `EmojiChart.ParseNoDigit` | src/components/EmojiChart/EmojiChart.tsx:135 | Text whose first character is no white space, sign or digit is `NaN`. |
| `EmojiChart.AveragesOf` | src/components/EmojiChart/EmojiChart.tsx:42-46 | The collaborator applied to the shown rows and the selected metric names, the same sequences the grid shows; `RenderAlignsAverages` states the alignment. |
| `EmojiChart.Render` | src/components/EmojiChart/EmojiChart.tsx:105-196 | The grid has a header per selected metric, a row per shown data row with a card per selected metric, and a footer card per column average. |
| `EmojiChart.RenderAlignsAverages` | src/components/EmojiChart/EmojiChart.tsx:121-143 | Grid row i is the i-th data row, in data order, whose company is selected, and the averaging received that same row as its row i. |
| `EmojiChart.RenderCard` | src/components/EmojiChart/EmojiChart.tsx:134-161 | The card at (i, j) shows row i's parsed cell under the j-th selected metric, with the j-th column average and the i-th row average. It is highlighted exactly as the emoji filter says. |
| `EmojiChart.RenderAverageCards` | src/components/EmojiChart/EmojiChart.tsx:155-194 | Row i's closing card shows the i-th row average under "Promedio" and the row's company. Footer card j shows the j-th column average under the j-th selected metric and "Promedio General". Each is highlighted exactly as the emoji filter says about that average. |
| `EmojiChart.RenderEmptySelection` | src/components/EmojiChart/EmojiChart.tsx:110-123 | With no company selected the grid has no rows. With no metric selected it has no footer cards. |
| `App.Flip` | src/App.tsx:14-18 | Flipping index i negates that record's flag and keeps its name. Every other record is unchanged. |
| `App.SetAll` | src/App.tsx:26-34 | Every record keeps its name, in order, and gets the given flag. |
| `App.FlipKeepsNames` | src/App.tsx:14-18 | A flip keeps the names, and changes the flag vector only at index i. |
| `App.FlipTwice` | src/App.tsx:14-18 | Flipping the same index twice restores the original list. |
| `App.SetAllKeepsNames` | src/App.tsx:26-34 | Select-all and clear-all keep the names and their order, and set every flag. |
| `App.SetAllIdempotent` | src/App.tsx:26-34 | Select-all and clear-all are idempotent. |
| `App.SetAllForgetsFlags` | src/App.tsx:26-34 | The result of select-all or clear-all does not depend on the prior flags. |
| `App.ClearAllEmptiesGrid` | src/App.tsx:31-34 | After clear-all, the grid has no company rows and no column averages. |
| `App.SelectAllShowsNamedRows` | src/App.tsx:26-29 | After select-all, a data row is shown exactly when some listed company bears its `Empresa`. |
| `App.NewRecords` | src/App.tsx:27-28 | The mapped records are fresh, distinct objects that show exactly the given list. |
| `App.CopyAndFlip` | src/App.tsx:15-16 | The copy is a fresh array holding the same record objects. The record at index is flipped in place, so both arrays show the flipped list. |
| `App.Dashboard.constructor` | src/App.tsx:10-11 | The state starts as the constants' own arrays and record objects, not copies. |
| `App.Dashboard.HandleCompanyChange` | src/App.tsx:14-18 | The company list becomes `Flip` of the old one, and the old array shows the same list. The new array holds the same records, and the metric list is unchanged. |
| `App.Dashboard.HandleMetricChange` | src/App.tsx:20-24 | The metric list becomes `Flip` of the old one, and the old array shows the same list. The new array holds the same records, and the company list is unchanged. |
| `App.Dashboard.HandleSelectAll` | src/App.tsx:26-29 | Both lists become `SetAll(…, true)` of the old lists, in fresh arrays of fresh records, so later flips leave earlier arrays alone. |
| `App.Dashboard.HandleClearAll` | src/App.tsx:31-34 | Both lists become `SetAll(…, false)` of the old lists, in fresh arrays of fresh records. |
| `App.Dashboard.SetEvery` | src/App.tsx:26-34 | Both lists are replaced by fresh arrays of fresh records with the same names and the given flag. |
| `App.FlipReachesConstant` | src/App.tsx:10-16 | The first company flip after start-up changes the constant's own array: it shows the flipped list, the same list the state shows. |

## Left out

- `calculateAverages`, `getEmoji` and `getBackgroundColor` live in `./utils`, which is not part of this model. The averages are an opaque `calculate` function, and the mean and its floating-point division are not modelled.
- EmojiChart.Render: requires one column average per selected metric and one row average per shown row. The source indexes `columnAverages[metricIndex]` and `rowAverages[rowIndex]` and relies on `calculateAverages` (not part of this model) for those lengths.
- EmojiChart.Render: models the desktop grid only. The mobile view (`MobileView`) is not part of this model. Neither are the label cells (the "Promedio" footer heading, the empty corner cell), animation, React keys and the compact-view toggle.
- The card modal (`modalData`, `handleCardClick`) only records what to display, so it is left out.
- EmojiChart.ParseInt: white space other than ASCII space, tab, line feed, carriage return, vertical tab and form feed is not skipped. Real `parseInt` also skips the other Unicode white space.
- EmojiChart.Num: has no ±Infinity, and digit strings are read exactly, without double rounding. Both only arise for numbers far outside 0..100 (far above 100 or far below 0), which classify as '😐' either way.
- `useSheetData` (fetching) and the loading and error screens of `App` are I/O and rendering, so they are left out.
- `Layout.tsx`, `Checkbox.tsx` and `EmojiCard.tsx` are rendering only, so they are left out. The sidebar's open flags are UI state.
- App.Dashboard.HandleCompanyChange: requires an index inside the array. Assumed: the sidebar, whose file is not part of this model, passes only indices of rendered checkboxes. An index outside the array would throw in the source, and the model does not cover that.
- App.Dashboard.HandleMetricChange: requires an index inside the array, for the same reason.
- App.Dashboard.constructor: requires the two initial arrays to be different arrays of pairwise different records, none shared between them. Assumed: `COMPANIES` and `METRICS` hold pairwise distinct record objects; the constants module is not part of this model.
- React's rendering cycle is left out. `setCompanies` and `setMetrics` in the same handler are treated as one state change.
