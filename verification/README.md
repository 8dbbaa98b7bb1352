# t-route output dashboard: verified model of its table and selection logic

The dashboard loads the NetCDF output of several t-route runs and turns each
file into a table of rows keyed by `(feature_id, time, type)`. It then
restricts the tables to the selected flowpaths and merges the runs side by
side, with shared value columns renamed `flow`, `flow_2`, and so on. It can
also cut the tables to a time window and show a reduced table for one column
family. On the map, a click on a flowpath reads the feature identifier back
out of the tooltip text and toggles it in the session's selection list. The
tables are then rebuilt with an outer join.

This project models that logic in Dafny and proves what it does:

- `text.dfy` (module `Text`) models the Python string operations the code
  relies on: `str.find`, `str.strip`, `str(int)` and `int(str)`. It proves
  that `int(str(n)) == n` (without CPython's limit on the number of digits).
- `tooltip.dfy` (module `Tooltip`) models the `'wb-' + str(id)` formatting and
  `extract_id_from_tooltip`. It proves their round trip, and shows that the
  `start_idx != -1` guard never rejects anything (see Findings).
- `frames.dfy` (module `Frames`) models a frame as a sequence of rows. Each row
  holds an integer feature identifier, an integer time, a type tag and a map
  from column name to an opaque cell value. The module covers:
  - boolean-mask selection (the `isin` restriction and the time window);
  - the per-file concatenation loop;
  - the two-frame join with pandas' suffix rule and its failures;
  - the left-to-right inner merge loop with suffixes `('', '_i')`;
  - the outer `reduce` merge;
  - the prefix-based column selection.
- `selection.dfy` (module `Selection`) models the list toggle, the map click
  as written and as corrected, the `if clicked_id:` guard, and a `Session`
  class whose `selected` field is the session's selection list, updated in
  place. The session's click handler uses the extraction as written.
- `wrappers.dfy` (module `Wrappers`) holds the `Option` type.

## Model

| member | source | states |
|---|---|---|
| Text.Find | dashboard_initVersion.py:139-140 | the result is -1 or an occurrence at or after `start`, and no occurrence lies between `start` and the result (none at all when it is -1) |
| Text.FindCharMiss | dashboard_initVersion.py:140 | searching for one character gives -1 exactly when that character is absent from `s[start..]` |
| Text.StripLeading | dashboard_initVersion.py:142 | the result is a suffix of the input, everything dropped is whitespace, and the result does not start with whitespace |
| Text.StripTrailing | dashboard_initVersion.py:142 | the result is a prefix of the input, everything dropped is whitespace, and the result does not end with whitespace |
| Text.Strip | dashboard_initVersion.py:142 | the defining function of `str.strip()`: `StripLeading` then `StripTrailing`; `Text.StripUnpadded` and `Tooltip.ParseBetween` state its properties |
| Text.StripUnpadded | dashboard_initVersion.py:142 | a string that neither starts nor ends with whitespace is its own `strip()` |
| Text.NatToDecimal | dashboard_initVersion.py:89 | `str(n)` of a natural number is a non-empty digit string without a leading zero |
| Text.IntToDecimal | dashboard_initVersion.py:89 | `str(n)` is non-empty, does not end in `-`, has no whitespace at either end and contains no line break |
| Text.ParseInt | dashboard_initVersion.py:142 | `int()` succeeds exactly on a sign followed by digits, or on digits alone (within CPython's digit limit), and the sign of the result follows the leading `-` |
| Text.ParseIntSingleDigit | dashboard_initVersion.py:142 | `int()` reads a single digit as its value |
| Text.DigitsValueOfDecimal | dashboard_initVersion.py:142 | reading the decimal numeral of `n` gives back `n` |
| Text.ParseIntRoundTrip | dashboard_initVersion.py:142 | `int(str(n)) == n` for every integer `n` whose numeral is within CPython's digit limit |
| Tooltip.FormatId | dashboard_initVersion.py:89 | the identifier starts with `wb-`, and `int()` of the rest gives back the feature id |
| Tooltip.StartIndex | dashboard_initVersion.py:138-139 | the start index is at least 2 and never -1; it is 2 exactly when the tooltip has no `wb-`, and otherwise it is just past the first `wb-` |
| Tooltip.ParseBetween | dashboard_initVersion.py:142 | parsing the text between the indices never gives `None`; it gives an id exactly when the stripped text is an integer literal |
| Tooltip.ExtractIdFromTooltip | dashboard_initVersion.py:137-143 | the extraction gives `None` exactly when no line break occurs at or after the start index |
| Tooltip.ExtractRoundTrip | dashboard_initVersion.py:137-143 | a tooltip whose first `wb-` begins `'wb-' + str(n)` and is followed by a line break gives back `n` |
| Tooltip.FormattedIdRoundTrip | dashboard_initVersion.py:89 | a tooltip that begins with the formatted identifier and a line break gives back the feature id |
| Tooltip.MissingPrefixReadsFromIndexTwo | dashboard_initVersion.py:138-142 | a tooltip without `wb-` is not rejected; it is parsed from index 2 up to its first line break |
| Tooltip.ParseSingleDigit | dashboard_initVersion.py:142 | a single digit between the indices is read as its value |
| Tooltip.MissingPrefixYieldsId | dashboard_initVersion.py:139-142 | the tooltip `"ab7\n"`, which has no `wb-`, yields the id 7 |
| Tooltip.MissingPrefixRaises | dashboard_initVersion.py:142 | the tooltip `"ID\nwb\n"`, which has no `wb-`, makes `int()` raise instead of giving `None` |
| Tooltip.ExtractIdIntended | dashboard_initVersion.py:137-143 | the corrected extraction gives `None` for a tooltip without `wb-` and otherwise agrees with the code as written |
| Tooltip.MissingPrefixIgnoredWhenCorrected | dashboard_initVersion.py:139-143 | the corrected extraction gives `None` for the tooltip `"ab7\n"` that the code as written reads as 7 |
| Tooltip.IntendedRoundTrip | dashboard_initVersion.py:137-143 | the corrected extraction keeps the round trip with the formatting |
| Frames.Filter | dashboard_initVersion.py:105 | mask selection is no longer than its input, and a row is in the result exactly when it is in the input and the mask accepts it |
| Frames.FilterKeepsOrder | dashboard_initVersion.py:105 | the selection is the rows at strictly increasing positions, which are exactly the positions whose row the mask accepts |
| Frames.KeptPositionsExact | dashboard_initVersion.py:105 | a position is kept exactly when the mask accepts its row |
| Frames.FilterConcat | dashboard_initVersion.py:105-107 | selecting from a concatenation is the concatenation of the selections |
| Frames.Restrict | dashboard_initVersion.py:247 | the restriction keeps exactly the rows whose `feature_id` is selected |
| Frames.TimeWindow | dashboard_initVersion.py:199 | the time filter keeps exactly the rows with `lo <= time <= hi`, inclusive at both ends |
| Frames.TimeWindowExample | dashboard_initVersion.py:199 | the window [1, 3] over rows at times 0 to 4 keeps the rows at 1, 2 and 3, in order |
| Frames.Concat | dashboard_initVersion.py:102-107 | the defining function of the repeated `pd.concat` with `ignore_index=True`: the frames' rows one after another; `Frames.ConcatMembership`, `Frames.FilterConcat` and `Frames.ProcessAndMergeDataframes` state its properties |
| Frames.ConcatMembership | dashboard_initVersion.py:107 | a row is in the concatenation exactly when it is in one of the frames |
| Frames.ProcessAndMergeDataframes | dashboard_initVersion.py:101-108 | the loop gives the restriction of the files' concatenation, in file order; a row is in it exactly when it comes from some file and its feature is selected |
| Frames.RenameCells | dashboard_initVersion.py:113 | the renamed cells carry exactly the joined names, each holding the cell of its original column |
| Frames.Combine | dashboard_initVersion.py:113 | a joined row keeps the key; its columns are the renamed left and right columns, each with its original cell |
| Frames.LeftOnly | dashboard_initVersion.py:249 | an unmatched left row in an outer join keeps its key and its renamed cells, and holds no right column |
| Frames.RightOnly | dashboard_initVersion.py:249 | an unmatched right row in an outer join keeps its key and its renamed cells, and holds no left column |
| Frames.Matches | dashboard_initVersion.py:113 | the matches of a left row are exactly its joins with the right rows of the same key |
| Frames.InnerRows | dashboard_initVersion.py:113 | an inner join holds exactly the joins of a left and a right row with equal keys |
| Frames.OuterRows | dashboard_initVersion.py:249 | the defining function of the rows of `how='outer'`: the left outer rows, then the right rows whose key the left lacks; `Frames.LeftOuterRows`, `Frames.RightOnlyRows` and `Frames.OuterJoinKeys` state its properties |
| Frames.LeftOuterRows | dashboard_initVersion.py:249 | the left half of an outer join holds the matched joins and each left row whose key the right side lacks |
| Frames.RightOnlyRows | dashboard_initVersion.py:249 | the right half of an outer join holds each right row whose key the left side lacks |
| Frames.Join | dashboard_initVersion.py:113 | `pd.merge` fails exactly when the suffixed column names are not all distinct |
| Frames.JoinRows | dashboard_initVersion.py:113 | a join with valid names gives the inner or the outer rows |
| Frames.InnerJoinKeys | dashboard_initVersion.py:113 | an inner join holds exactly the keys both sides hold |
| Frames.OuterJoinKeys | dashboard_initVersion.py:249 | an outer join holds exactly the keys either side holds |
| Frames.InnerMergeAll | dashboard_initVersion.py:110-114 | the defining function of `merge_datasets`: frame i (from 2) joined onto the accumulated frame with suffixes `('', '_i')`; `Frames.MergeDatasets`, `Frames.MergedKeysInEveryFrame`, `Frames.FirstFrameKeepsBareNames` and `Frames.FrameColumnsSuffixed` state its properties |
| Frames.MergeFailureSticks | dashboard_initVersion.py:112-113 | once one join of the merge fails, the whole merge fails with that failure |
| Frames.MergeDatasets | dashboard_initVersion.py:110-114 | the loop gives the left-to-right inner merge, joining frame i (from 2) with suffixes `('', '_i')`, or its first failure |
| Frames.MergedKeysInEveryFrame | dashboard_initVersion.py:110-114 | a successful merge holds exactly the keys that every input frame holds |
| Frames.FirstFrameKeepsBareNames | dashboard_initVersion.py:111-113 | every merged row holds the cells of the first frame's row with its key, under their bare names |
| Frames.CombineHoldsRightCells | dashboard_initVersion.py:113 | a joined row holds every right cell, suffixed when the left side has that column |
| Frames.MergeKeepsAccumulatedCells | dashboard_initVersion.py:113 | each row of one more join holds every cell of the accumulated row with its key under the same name, the left suffix being empty |
| Frames.InnerRowsKeepLeftCells | dashboard_initVersion.py:113 | with an empty left suffix, each inner-joined row holds every cell of a left row with its key |
| Frames.CombineHoldsLeftCells | dashboard_initVersion.py:113 | with an empty left suffix, a joined row holds every left cell under its bare name |
| Frames.LastFrameColumnsSuffixed | dashboard_initVersion.py:112-113 | every merged row holds the cells of the last frame's row with its key, a name already taken getting the suffix `_n` |
| Frames.FrameColumnsSuffixed | dashboard_initVersion.py:111-113 | for every frame i from 2 on, every merged row holds the cells of frame i's row with its key, a name the merge of the frames before it already has getting the suffix `_i`, and the later joins keep them |
| Frames.SuffixOfSecondFrame | dashboard_initVersion.py:112 | the second frame's suffix is `_2` |
| Frames.MergeTwoFlowDatasets | dashboard_initVersion.py:110-114 | two runs with the same keys and a `flow` column merge into one row per key, holding `flow` and `flow_2` |
| Frames.OuterMergeAll | dashboard_initVersion.py:249 | the defining function of `reduce` with an outer `pd.merge` and the default suffixes `('_x', '_y')`; `Frames.OuterMergedKeys` and `Selection.Session.UpdateSelectedFeatureIds` state its properties |
| Frames.OuterMergedKeys | dashboard_initVersion.py:249 | a successful outer `reduce` holds exactly the keys that some frame holds |
| Frames.SelectColumns | dashboard_initVersion.py:134-135 | the reduced table keeps every row's time and feature id, and exactly the cells whose column name starts with the chosen column |
| Frames.ReducedTableKeepsColumnFamily | dashboard_initVersion.py:134 | for `flow` the reduced table shows `flow` and `flow_2` but not `velocity` |
| Selection.IndexOf | dashboard_initVersion.py:243 | the index is that of the first occurrence |
| Selection.RemoveFirst | dashboard_initVersion.py:243 | `list.remove` cuts out the first occurrence and keeps everything before and after it in order |
| Selection.RemoveFirstMultiset | dashboard_initVersion.py:243 | `list.remove` takes exactly one copy of the element out of the list |
| Selection.Toggled | dashboard_initVersion.py:242-245 | the toggle takes one copy of a selected id out of the list, or adds one copy of an unselected one; `Selection.TogglePresent`, `Selection.ToggleAbsent` and `Selection.ToggleKeepsNoDuplicates` state the rest |
| Selection.TogglePresent | dashboard_initVersion.py:242-243 | a selected id loses only its first occurrence; the rest keeps its order |
| Selection.ToggleAbsent | dashboard_initVersion.py:244-245 | an unselected id is appended, and the earlier elements are unchanged |
| Selection.ToggleCounts | dashboard_initVersion.py:242-245 | a toggle removes or adds one copy of the id and leaves every other id's membership alone |
| Selection.NoDuplicatesOnce | dashboard_initVersion.py:242-245 | in a list without repetitions, a present id occurs once |
| Selection.RemoveFirstKeepsNoDuplicates | dashboard_initVersion.py:243 | removing from a list without repetitions leaves none, and the id is gone |
| Selection.AppendKeepsNoDuplicates | dashboard_initVersion.py:245 | appending an absent id to a list without repetitions leaves none |
| Selection.ToggleKeepsNoDuplicates | dashboard_initVersion.py:242-245 | a list without repetitions stays so, and the toggled id's membership flips |
| Selection.ToggleTwiceAbsent | dashboard_initVersion.py:242-245 | two toggles of an unselected id restore the list exactly |
| Selection.ToggleTwicePresentOnce | dashboard_initVersion.py:242-245 | two toggles of an id selected once move it to the end |
| Selection.ToggleTwiceSameMembers | dashboard_initVersion.py:242-245 | two toggles of the same id keep the members of a list without repetitions |
| Selection.ToggleExample | dashboard_initVersion.py:242-245 | from an empty selection, clicking 205 gives [205], and a second click gives [] |
| Selection.ClickedId | dashboard_initVersion.py:236-237 | the click as written: no tooltip yields no id; a tooltip yields no id exactly when no line break follows the start index; a tooltip with `wb-` yields what the corrected extraction yields |
| Selection.ClickedIdIntended | dashboard_initVersion.py:236-237 | the corrected half of the finding: no tooltip, or a tooltip without `wb-`, yields no id; a tooltip with `wb-` yields what the click as written yields |
| Selection.Truthy | dashboard_initVersion.py:238 | the defining predicate of `if clicked_id:`: an id other than 0; `Selection.AfterClick` and `Selection.ClickOnZeroChangesNothing` state its use |
| Selection.AfterClick | dashboard_initVersion.py:238-239 | `None`, 0 and a raised `ValueError` leave the selection unchanged; any other id gains or loses exactly one copy, and every other id keeps its membership |
| Selection.AfterClickKeepsNoDuplicates | dashboard_initVersion.py:236-245 | no click brings a repetition into the selection |
| Selection.ClickWithoutIdChangesNothing | dashboard_initVersion.py:236-239 | the corrected half of the finding: with the corrected extraction, a click without a tooltip, or on a tooltip without `wb-`, leaves the selection as it was |
| Selection.ClickOnFormattedId | dashboard_initVersion.py:237 | a click on the tooltip of a formatted identifier yields that identifier, as written and as corrected |
| Selection.ClickOnZeroChangesNothing | dashboard_initVersion.py:238 | a click on feature 0 leaves the selection as it was, because 0 is falsy |
| Selection.ClickOnFeatureToggles | dashboard_initVersion.py:237-239 | a click on any other feature toggles it |
| Selection.AsWrittenClickWithoutPrefixSelects | dashboard_initVersion.py:237-239 | as written, a click on the tooltip `"ab7\n"`, which has no `wb-`, selects feature 7; the corrected click leaves the selection empty |
| Selection.AsWrittenClickWithoutPrefixRaises | dashboard_initVersion.py:237 | as written, a click on the tooltip `"ID\nwb\n"`, which has no `wb-`, raises `ValueError` |
| Selection.RestrictAll | dashboard_initVersion.py:247 | one frame per dataset, holding exactly that dataset's rows whose `feature_id` is selected |
| Selection.Session.constructor | dashboard_initVersion.py:29-30 | the session starts with an empty selection |
| Selection.Session.Toggle | dashboard_initVersion.py:242-245 | the selection list becomes its toggle |
| Selection.Session.UpdateSelectedFeatureIds | dashboard_initVersion.py:241-249 | the selection is toggled; each frame is restricted to the new selection; the results are outer-merged |
| Selection.Session.OnMapClick | dashboard_initVersion.py:236-239 | with the extraction as written, the selection follows the click guard; a parse failure (including text read from index 2 of a tooltip without `wb-`) raises before anything changes; tables are rebuilt exactly when the id is truthy; no repetition is introduced |

## Left out

- Streamlit page setup, sidebar widgets, caching, and the rest of `run_app` and `handle_sidebar_inputs` (dashboard_initVersion.py:26-43, 145-216) are not modelled, except the empty initial selection at line 30 (`Selection.Session.constructor`) and the time filter at line 199.
- File discovery (`glob`), NetCDF loading (`xarray`) and GeoPackage loading (`geopandas`) are left out, because they are I/O. The model takes the frames as given values, so `netcdf_to_dataframe` is not part of this model.
- Map creation, styling, CRS handling and bounds padding in `highlight_selected_features` are left out (geospatial libraries and floating point). Only the identifier formatting at line 89 is modelled.
- `plot_data`, `display_data_and_plot` and the full-table branch of `plot_df` are left out, because they only present data.
- `pd.to_datetime` (line 106) is left out: time is an integer timestamp. Cell values are opaque, and a column a row lacks stands for NaN.
- Text.ParseInt: models `int()` as an optional sign and ASCII digits. Underscores and non-ASCII digits are not accepted. Integers are unbounded: CPython 3.11 (and the 2022 security releases of 3.7 to 3.10) raise `ValueError` from `int()` and `str()` past 4300 digits, which neither `Text.ParseInt`, `Text.IntToDecimal` nor `Text.ParseIntRoundTrip` models.
- Frames.Columns: derives a frame's columns from its rows, and a cell a row lacks stands for NaN. A column that is NaN in every row of a frame is therefore not one of its columns, and that includes every column of an empty frame. pandas keeps such a column (`netcdf_to_dataframe` keeps every data variable at line 39, and an emptied frame keeps its schema), so at line 113 a later frame's column of that name takes the suffix `_i`, where the model keeps its bare name.
- Frames.LastFrameColumnsSuffixed: states the `_i` rule against the columns the model derives from the rows, not against pandas' schema (see `Frames.Columns`).
- Frames.FrameColumnsSuffixed: states the `_i` rule against the columns the model derives from the rows, not against pandas' schema (see `Frames.Columns`).
- Frames.Join: when a renamed left column and a renamed right column end up with the same name, the model fails with `SharedLabel`. pandas instead keeps both columns under one label.
- Frames.OuterRows: puts the left rows first and then the right-only rows. pandas sorts the keys of an outer join, so only the membership of the outer join is proved, not its order.
- Frames.MergeDatasets: requires at least one frame. The code raises `IndexError` on `dfs[0]` when there is none, and `run_app` always passes one frame per dataset.
- Selection.Session.UpdateSelectedFeatureIds: requires at least one frame. `reduce` without an initial value raises `TypeError` on an empty list.
- Selection.Session.OnMapClick: models the `ValueError` of `int()` as the outcome `Raised`, not as an exception unwinding the page. The map's own reply (`map_data` and the tooltip key) is passed in as an optional tooltip.
- The `KeyError` of a dataset without files: a frame always carries the key columns `feature_id`, `time` and `type`. Called on an empty file list, `process_and_merge_dataframes` returns `pd.DataFrame()` without them (lines 102 and 108), and `merge_datasets` (line 113) or the outer merge (line 249) called on that frame raises `KeyError`. Through `run_app` such a directory fails earlier, at the file selection (lines 167-172). The model cannot tell that frame from an empty frame with the key columns, so this `KeyError` is not modelled; such a frame merges as an empty frame.
- The column order of merged frames and the `type` column's dtype are not modelled.

## Findings

| source | as written | input that shows it | evidently intended | confidence | as-written member | corrected member |
|---|---|---|---|---|---|---|
| dashboard_initVersion.py:139-141 | `start_idx = tooltip.find("wb-") + 3` is at least 2, so the guard `start_idx != -1` never fails. A tooltip without `wb-` is parsed from index 2. | the tooltip `"ab7\n"` yields 7, and `"ID\nwb\n"` makes `int()` raise | a tooltip without `wb-` yields `None`, so the click changes nothing | not executed | Tooltip.MissingPrefixYieldsId | Tooltip.ExtractIdIntended |
