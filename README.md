# Spare Part Picker — a Dafny model

Spare Part Picker helps a repair shop order spare parts for household
appliances. The catalog is a table of rows `Part #`, `Part Name`,
`Model number`, `Model Name`. Each row says that a part fits one appliance
model, so a part id appears once for every model it fits. Two front ends
share the same logic:

- a desktop Tkinter app (`Spare_parts_csv.py`);
- a Streamlit web app (`spare_part_picker_web.py`).

Each runs a search by model number or model name, narrows the result
with a keyword filter, lets the user pick parts, and builds an order list of
part, name, compatible models and quantity.

This project models that logic. It proves what each step promises.

| file | module | contents |
|---|---|---|
| `text.dfy` | `Text` | ASCII case mapping, substring search, `strip`, `split`, `join`, and Python's string order (`LexLe`) with its order laws |
| `seqs.dfy` | `Seqs` | boolean-mask selection (`df[mask]`) as an order-preserving `Filter`, and subsequences |
| `wrappers.dfy` | `Wrappers` | `Option` |
| `catalog.dfy` | `Catalog` | catalog rows, order lines, and the compatibility index (`groupby("Part #")` of the sorted distinct model names) in its web (list) and desktop (joined string) forms |
| `search.dfy` | `Search` | the search resolver of both versions (model-number mode takes precedence; name mode applies the "NE" rule) and the keyword predicate |
| `desktop.dfy` | `Desktop` | class `PickerApp`, whose fields are the Tk app's globals: `current_selection`, `display_index_map`, the listbox contents and `order_list`, changed in place by the app's handlers |
| `web.dfy` | `Web` | the Streamlit pipeline: filter, de-duplicate, sort, cap at 50, and labels. Class `WebSession` holds `previous_selection`; `BuildOrderList` is the loop that builds order lines |

Message boxes and `st.warning` become returned values: `Desktop.Notice`,
`Desktop.ExportOutcome` and `Web.Page.noMatchesWarning`. Widget contents are
parameters:
- the entry texts;
- the listbox indices the user selected;
- the focused row;
- the parsed spin-box value;
- the multiselect's value;
- the number inputs.

pandas index labels are unique, so `current_selection.loc[label]` is the row
at one position. The model therefore stores `display_index_map` as positions
in `currentSelection`.

## Model

| member | source | states |
|---|---|---|
| Catalog.ModelNamesOfFits | Spare_parts_csv.py:15 | a name is in the group that `groupby("Part #")` gathers for an id exactly when some row of that id names that model |
| Catalog.SortedDistinctCorrect | Spare_parts_csv.py:15 | `sorted(set(names))` is strictly increasing (sorted, no duplicates) and holds exactly the given names |
| Catalog.StrictlySortedUnique | Spare_parts_csv.py:15 | two strictly sorted lists with the same elements are equal, so sorting a set has only one result |
| Catalog.CompatibleModelsCorrect | spare_part_picker_web.py:10 | a part's compatible models are strictly sorted and are exactly the models its rows name |
| Catalog.WebCompatibilityIndex | spare_part_picker_web.py:10 | the web index `WebCompatibility` has a key exactly for each catalog part id; each entry is non-empty, strictly sorted, and lists precisely the models the part fits |
| Catalog.WebCompatibilityDetermined | spare_part_picker_web.py:10 | any strictly sorted list of exactly a part's models is its `WebCompatibility` entry |
| Catalog.DesktopCompatibilityIndex | Spare_parts_csv.py:15 | the desktop index `DesktopCompatibility` has a key exactly for each catalog part id, mapped to the `", "`-join of the sorted distinct models the part fits |
| Catalog.FirstIndexOf | spare_part_picker_web.py:91 | the result is the position of the first row with the id, and no earlier row has it; it is the length when no row has it |
| Catalog.FirstWithId | spare_part_picker_web.py:91 | for an id in the catalog, `df[df["Part #"] == id].iloc[0]` is a catalog row with that id |
| Search.ByModelNumberExact | Spare_parts_csv.py:51 | model-number mode `ByModelNumber` keeps, in catalog order, exactly the rows whose model number contains the query, ignoring case; each kept row occurs as often as in the catalog, every other row not at all |
| Search.ByModelNameCount | Spare_parts_csv.py:53-55 | name mode `ByModelName` keeps a row as often as the catalog holds it when its lower-cased name contains the query and it is not an "NE" variant (or the query has `"ne"`); any other row occurs zero times |
| Search.ByModelNameExact | Spare_parts_csv.py:53-55 | name mode `ByModelName` keeps catalog order, and every match's lower-cased name contains the query. No match is an "NE" variant unless the query has `"ne"`. Every row meeting these conditions is matched, with the catalog's multiplicity |
| Search.DesktopNoQuery | Spare_parts_csv.py:47-58 | the desktop search `DesktopResolve` has no query exactly when the model number is blank and the stripped, lower-cased name is empty or the placeholder |
| Search.DesktopNumberMode | Spare_parts_csv.py:47-51 | a non-blank model number wins whatever the name field holds; the matches are exactly the rows whose model number contains the stripped query, ignoring case, with no "NE" rule, in catalog order and with the catalog's multiplicity |
| Search.DesktopNameMode | Spare_parts_csv.py:52-55 | with a blank model number and a real name, the matches are a subsequence of the catalog. Each match contains the stripped, lower-cased query, and no match is "NE" unless the query has `"ne"`. Every qualifying row is matched as often as the catalog holds it |
| Search.DesktopResolveSubsequence | Spare_parts_csv.py:50-55 | every resolved `DesktopResolve` search is a subsequence of the catalog |
| Search.WebResolveSubsequence | spare_part_picker_web.py:27-33 | every `WebResolve` result is a subsequence of the catalog |
| Search.WebNumberMode | spare_part_picker_web.py:28-29 | a non-empty model number wins; the `WebResolve` result is exactly the rows whose model number contains it, ignoring case, in catalog order and with the catalog's multiplicity |
| Search.WebNameMode | spare_part_picker_web.py:30-33 | name mode lower-cases both sides, drops "NE" variants unless the lower-cased query has `"ne"`, keeps every other match as often as the catalog holds it, and keeps catalog order |
| Search.SameSearchRules | spare_part_picker_web.py:27-33 | on input with no surrounding spaces that is not the placeholder, the desktop search gives exactly the web search's rows |
| Desktop.Listing | Spare_parts_csv.py:98-104 | the loop lists exactly the positions of the rows whose lower-cased `"id \| name"` contains every keyword. The positions are in increasing order, each with its row's label, so the listbox and `display_index_map` have equal length |
| Desktop.BlankFilterListsAll | Spare_parts_csv.py:94-102 | a blank filter box gives no keywords, and then every row is listed |
| Desktop.LineIndex | Spare_parts_csv.py:141-142 | the result is the position of the first order line of the part, or the length when there is none; no earlier line has the part |
| Desktop.AddRowQuantities | Spare_parts_csv.py:141-153 | adding one row (`AddRow`) raises that part's quantity by 1 and leaves every other part's quantity alone; the total grows by one |
| Desktop.AddRowIds | Spare_parts_csv.py:141-153 | after adding one row the order holds that part besides the parts it held, and one line per part is kept |
| Desktop.AddRowKeeps | Spare_parts_csv.py:141-153 | adding one row adds at most one line. Existing lines keep their place and all fields except quantity, which does not drop. Positive quantities stay positive |
| Desktop.AddRowsQuantities | Spare_parts_csv.py:138-153 | adding a batch (`AddRows`) raises each part's quantity by the number of selected rows of that part, and the total by the batch size |
| Desktop.AddRowsIds | Spare_parts_csv.py:138-153 | after a batch the order holds exactly the parts it held plus the selected ones |
| Desktop.AddRowsUnique | Spare_parts_csv.py:138-153 | a batch keeps one line per part |
| Desktop.AddRowsKeeps | Spare_parts_csv.py:138-153 | after a batch, existing lines keep their place and all fields except quantity, which does not drop. Positive quantities stay positive |
| Desktop.AddSameTwice | Spare_parts_csv.py:141-153 | adding the same part twice to an empty order gives one line with quantity 2, not two lines |
| Desktop.NewLineModelName | Spare_parts_csv.py:150 | for a catalog row, a new line (`NewLine`) has quantity 1 and as model name the `", "`-join of the sorted distinct models the part fits; the fallback is never taken |
| Desktop.SetQuantityEffect | Spare_parts_csv.py:190 | overwriting a quantity (`SetQuantity`) changes only that line's quantity; ids, names, the set of parts and one-line-per-part are kept; the part's total becomes the new value |
| Desktop.RemoveAtEffect | Spare_parts_csv.py:210 | `del order_list[i]`, modelled by `RemoveAt`, removes exactly line `i`: one line fewer, a subsequence, earlier lines in place, later lines shifted down by one |
| Desktop.RemoveAtUnique | Spare_parts_csv.py:210 | with one line per part, removal keeps that property |
| Desktop.RemoveAtIds | Spare_parts_csv.py:210 | with one line per part, the order then holds every part except the removed one |
| Desktop.EditAsWrittenStoresZero | Spare_parts_csv.py:186-190 | as written (`EditAsWritten`), the editor stores a typed 0 and leaves a line with quantity 0 (see Findings) |
| Desktop.CheckedEditEffect | Spare_parts_csv.py:186-193 | the edit `CheckedEdit`, with the spin box's lower bound keeps every quantity positive. It writes only the target line's quantity, and it is a no-op for a value that does not parse or is below 1 (see Findings) |
| Desktop.PickerApp.constructor | Spare_parts_csv.py:15-19 | at start-up the index is built from the catalog, and nothing is selected, listed or ordered |
| Desktop.PickerApp.ApplyFilter | Spare_parts_csv.py:92-104 | the listbox and `display_index_map` are rebuilt as the listing of the current result under the filter box; the result and the order are untouched |
| Desktop.PickerApp.SearchParts | Spare_parts_csv.py:45-65 | with no query the result is `InputError`; with no matches it is `NoMatches`. In both cases the selection, listbox and map are unchanged. Otherwise the matches become `currentSelection` and the listing is rebuilt. The order is never touched |
| Desktop.PickerApp.AddSelectedParts | Spare_parts_csv.py:132-153 | with nothing selected the result is `SelectionError` and the order is unchanged. Otherwise the order becomes the merge of each selected row, in selection order. The class invariant (one line per part, all quantities at least 1) is kept |
| Desktop.PickerApp.MergeRow | Spare_parts_csv.py:141-153 | the search loop over the order finds the part's line; the order becomes the one-row merge `AddRow` |
| Desktop.PickerApp.EditQuantity | Spare_parts_csv.py:188-193 | the order becomes the checked edit of the target line; everything else is unchanged (see Findings) |
| Desktop.PickerApp.RemoveSelectedItem | Spare_parts_csv.py:204-211 | with no focused row the result is `NoSelection` and nothing changes; otherwise exactly the focused line is deleted |
| Desktop.PickerApp.ExportToExcel | Spare_parts_csv.py:218-221 | export is refused exactly when the order is empty; otherwise the order lines, in order, are what gets written |
| Web.FilterRowsExact | spare_part_picker_web.py:39-44 | filtering (`FilterRows`) keeps, in order and with their multiplicity, exactly the rows whose lower-cased `"id name"` contains every keyword. With an empty or blank filter box every row is kept |
| Web.DedupFromIds | spare_part_picker_web.py:47 | `drop_duplicates`, modelled by `Dedup`, leaves distinct part ids and keeps one row for every id of its input |
| Web.DedupFromFirst | spare_part_picker_web.py:47 | every row `drop_duplicates` (`Dedup`) keeps is the first row of its part id in its input |
| Web.SortByNameCorrect | spare_part_picker_web.py:47 | sorting by part name (`SortByName`) yields a permutation of its input, non-decreasing by name |
| Web.SortByNameUnique | spare_part_picker_web.py:47 | sorting rows with distinct part ids keeps them distinct |
| Web.SortedDedupCorrect | spare_part_picker_web.py:47 | before the cap there is one row per distinct part id, each the first of its id, in part-name order |
| Web.DedupSortCapCorrect | spare_part_picker_web.py:47 | after de-duplication, sorting and `head(50)`: part ids are unique and rows are in part-name order. The count is the number of distinct ids, capped at 50, and all ids are kept when there are at most 50. Each row is the first of its id in the step's input |
| Web.DedupSortCapSmallest | spare_part_picker_web.py:47 | `head(50)` in `DedupSortCap` keeps the smallest names: for every part id it drops, the first row of that id in the step's input has a name no smaller than any shown name |
| Web.MakeLabelPrefix | spare_part_picker_web.py:53-55 | a label (`MakeLabel`) starts with `"id \| name"` and, with the toggle off, is exactly that |
| Web.MakeLabelListed | spare_part_picker_web.py:54-55 | with the toggle on, a label contains every model the index lists for its part |
| Web.MakeLabelModels | spare_part_picker_web.py:53-55 | with the toggle on, a label names every model the part fits |
| Web.OrderLineForModelName | spare_part_picker_web.py:91-100 | a web order line (`OrderLineFor`) for a catalog part carries the part's first row's name and the same model string as the desktop index, so the fallback is never taken |
| Web.BuildOrderList | spare_part_picker_web.py:89-102 | the loop gives one line per selected part, in selection order. Each line has: the first catalog row's name; the `", "`-join of the compatible models, or the row's model name when the index lacks the part; the entered quantity. Quantities of at least 1 stay so, and distinct selections give one line per part |
| Web.WebSession.constructor | spare_part_picker_web.py:60 | a new session starts with an empty `previous_selection` |
| Web.WebSession.SelectParts | spare_part_picker_web.py:63-75 | an empty filter box gives no selection and leaves the stored one alone. Otherwise the user's choice among the options is the selection and is stored back |
| Web.WebSession.Rerun | spare_part_picker_web.py:27-102 | the warning appears exactly when a query was given and nothing matched, and then nothing is shown, selected or ordered. Otherwise the shown rows are the filtered, de-duplicated, sorted and capped rows, each with its label. Selection and its storage follow `SelectParts`. The order has one line per selected part, in selection order: line k is `OrderLineFor` the k-th selected id and the k-th entered quantity, each id is a catalog part id, and every quantity is at least 1 |
| Web.ShownInCatalog | spare_part_picker_web.py:66 | every option the dropdown offers is a part id of the catalog |
| Web.NoMatchesWarningSound | spare_part_picker_web.py:112-114 | when the warning shows, no catalog row satisfies the active mode's rule; in name mode every name match is an "NE" variant the rule excluded |

## Findings

| source | as written | input that shows it | evidently intended | confidence | as-written member | corrected member |
|---|---|---|---|---|---|---|
| Spare_parts_csv.py:186-190 | the focus-out handler stores whatever `int(qty_var.get())` yields; the spin box's `from_=1` bounds only its arrow buttons, not typed text | type `0` (or `-3`) into the quantity editor of a line and leave the field: the line's quantity becomes 0 | a quantity is at least 1, as the spin box's lower bound shows; a value below 1 is ignored like one that does not parse | medium; not executed | Desktop.EditAsWrittenStoresZero | Desktop.CheckedEditEffect |

`Desktop.EditAsWritten` is the handler as written. `Desktop.CheckedEdit` is
the corrected form, and `Desktop.PickerApp.EditQuantity` uses it, so every
quantity in `PickerApp.orderList` stays at least 1 (part of `Valid()`).

## Left out

- Widgets and rendering. The model leaves out:
  - Tk widgets, event bindings and `mainloop`;
  - the click-position geometry of the quantity editor (`identify_row`, `identify_column`, `bbox`);
  - `update_order_list`, which only redraws the tree view;
  - the info label of `on_part_select`;
  - the model-name combobox values;
  - the placeholder-clearing focus handler.
- reset_filter is not a separate member. It is `ApplyFilter` on an empty filter box, which `Desktop.BlankFilterListsAll` covers.
- Streamlit machinery. The model leaves out:
  - `st.cache_data`;
  - the toggle, headers and expanders;
  - the "Compatibility Overview" expander (display only);
  - the Step 3 CSV download.
- The multiselect is a sequence of distinct ids drawn from its options. Its `format_func` lookup table and its key are left out.
- Web.WebSession.SelectParts: Streamlit rejects a `default` (the stored `previous_selection`) holding ids that are not among the current options. The model does not capture that.
- File I/O. The model leaves out:
  - `pd.read_csv` and dropping the `Unnamed` columns;
  - the `astype(str)` coercion;
  - the save dialog, `to_excel`, `to_csv` and its UTF-8 encoding.
  The catalog is an in-memory sequence of string records.
- Desktop.PickerApp.ExportToExcel: the save dialog (including its cancel) and the success message are left out. The result is the rows handed to the writer.
- pandas `str.contains` treats its pattern as a regular expression. It is modelled as literal substring search, which matches only for queries without regex metacharacters.
- NaN values and dtype behaviour of pandas are not modelled.
- Web.SortByName: `sort_values` does not promise a tie order among equal part names. The model uses a stable insertion sort. The proved properties rest only on order by name, permutation and first occurrence.
- Case mapping covers ASCII letters only. Whitespace for `strip` and `split` is the ASCII set of Python's `str.isspace`. Unicode case folding and Unicode spaces are left out.
- Python string comparison is code-point order, modelled by `Text.LexLe` on characters.
- Python integers are unbounded, as Dafny's `int` is, so no width is modelled.
- Message texts are not modelled. Each message box or warning is a returned value.
- Neither script clears the order when the search fields are emptied, so the model has no such reset.
- Desktop.CheckedEditEffect: the corrected edit ignores a value below 1 silently, as the handler does for text that does not parse. It raises no message. The lower bound comes from the spin box's `from_=1` (`Spare_parts_csv.py:186`).
- Text that is not a number makes `IntVar.get()` raise `TclError`, which `except ValueError` does not catch. The order stays unchanged either way, so the model treats it like any failed parse (`None`).
