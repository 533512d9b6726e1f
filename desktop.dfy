/** The desktop (Tkinter) picker: the current search result, the filtered
    listing shown in the parts listbox with its map back to result rows, and
    the order list that the add, edit, remove and export buttons work on. */
module Desktop {
  import opened Text
  import opened Seqs
  import opened Wrappers
  import opened Catalog
  import opened Search

  /** The message boxes the desktop app can raise (`Silent` when none). */
  datatype Notice = Silent | InputError | NoMatches | SelectionError | NoSelection

  /** Result of the export button: refused on an empty order, otherwise the
      rows handed to the spreadsheet writer. */
  datatype ExportOutcome = ExportError | Exported(lines: seq<OrderLine>)

  /** The keywords of the filter box: stripped, lower-cased, split. */
  function FilterKeywords(entry: string): seq<string> {
    Split(Lower(Strip(entry)))
  }

  /** A row is listed when every keyword occurs in its lower-cased label. */
  predicate Listed(keywords: seq<string>, row: PartRow) {
    KeywordsMatch(keywords, Lower(PartLabel(row)))
  }

  /** `labels` and `positions` are the listing of `rows` under `keywords`:
      exactly the positions of the listed rows, in increasing order, each
      with its label. */
  ghost predicate IsListing(rows: seq<PartRow>, keywords: seq<string>, labels: seq<string>, positions: seq<nat>) {
    && |labels| == |positions|
    && (forall k :: 0 <= k < |positions| ==> positions[k] < |rows| && labels[k] == PartLabel(rows[positions[k]]))
    && (forall k, m :: 0 <= k < m < |positions| ==> positions[k] < positions[m])
    && (forall i :: 0 <= i < |rows| ==> (i in positions <==> Listed(keywords, rows[i])))
  }

  /** The loop of `apply_filter`: walks the rows and lists each one whose
      lower-cased label contains every keyword. */
  method Listing(rows: seq<PartRow>, keywords: seq<string>) returns (labels: seq<string>, positions: seq<nat>)
    ensures IsListing(rows, keywords, labels, positions)
  {
    labels, positions := [], [];
    var i := 0;
    while i < |rows|
      invariant 0 <= i <= |rows|
      invariant |labels| == |positions|
      invariant forall k :: 0 <= k < |positions| ==> positions[k] < i && labels[k] == PartLabel(rows[positions[k]])
      invariant forall k, m :: 0 <= k < m < |positions| ==> positions[k] < positions[m]
      invariant forall j :: 0 <= j < i ==> (j in positions <==> Listed(keywords, rows[j]))
      invariant forall j :: j in positions ==> j < i
    {
      if Listed(keywords, rows[i]) {
        labels := labels + [PartLabel(rows[i])];
        positions := positions + [i];
      }
      i := i + 1;
    }
  }

  /** A blank filter box yields no keywords, so every row is listed. */
  lemma BlankFilterListsAll(entry: string, row: PartRow)
    requires AllSpace(entry)
    ensures FilterKeywords(entry) == [] && Listed(FilterKeywords(entry), row)
  {
    StripEmpty(entry);
  }

  /** Position of the line for part `id` (`|lines|` when there is none). */
  function LineIndex(lines: seq<OrderLine>, id: string): (k: nat)
    ensures k <= |lines|
    ensures k < |lines| ==> lines[k].partId == id
    ensures forall j :: 0 <= j < k ==> lines[j].partId != id
    decreases |lines|
  {
    if lines == [] then 0
    else if lines[0].partId == id then 0
    else 1 + LineIndex(lines[1..], id)
  }

  /** The line appended for a part not yet ordered: quantity 1, and as model
      name the part's compatibility string, or the row's own model name when
      the index has none. */
  function NewLine(row: PartRow, compatibility: map<string, string>): OrderLine {
    OrderLine(row.partId, row.partName,
              if row.partId in compatibility then compatibility[row.partId] else row.modelName, 1)
  }

  /** Adding one selected row: bump the quantity of its part's line, or append
      a new line. */
  function AddRow(lines: seq<OrderLine>, row: PartRow, compatibility: map<string, string>): seq<OrderLine> {
    var k := LineIndex(lines, row.partId);
    if k < |lines| then lines[k := lines[k].(quantity := lines[k].quantity + 1)]
    else lines + [NewLine(row, compatibility)]
  }

  /** Adding the selected rows one after another. */
  function AddRows(lines: seq<OrderLine>, rows: seq<PartRow>, compatibility: map<string, string>): seq<OrderLine>
    decreases |rows|
  {
    if rows == [] then lines else AddRows(AddRow(lines, rows[0], compatibility), rows[1..], compatibility)
  }

  /** Total quantity ordered of part `id` over all lines. */
  function QuantityOf(lines: seq<OrderLine>, id: string): int
    decreases |lines|
  {
    if lines == [] then 0
    else (if lines[0].partId == id then lines[0].quantity else 0) + QuantityOf(lines[1..], id)
  }

  /** Number of rows of part `id`. */
  function CountOf(rows: seq<PartRow>, id: string): nat
    decreases |rows|
  {
    if rows == [] then 0
    else (if rows[0].partId == id then 1 else 0) + CountOf(rows[1..], id)
  }

  function TotalQuantity(lines: seq<OrderLine>): int
    decreases |lines|
  {
    if lines == [] then 0 else lines[0].quantity + TotalQuantity(lines[1..])
  }

  /** Overwriting the quantity of line `index`. */
  function SetQuantity(lines: seq<OrderLine>, index: nat, n: int): seq<OrderLine>
    requires index < |lines|
  {
    lines[index := lines[index].(quantity := n)]
  }

  /** Every order line has a quantity of at least one. */
  predicate AllPositive(lines: seq<OrderLine>) {
    forall j :: 0 <= j < |lines| ==> lines[j].quantity >= 1
  }

  /** The focus-out handler of the quantity editor as written: any value that
      parses as an integer is stored, whatever its sign; `None` stands for a
      value that does not parse. */
  function EditAsWritten(lines: seq<OrderLine>, index: nat, parsed: Option<int>): seq<OrderLine>
    requires index < |lines|
  {
    if parsed.Some? then SetQuantity(lines, index, parsed.value) else lines
  }

  /** As written, typing `0` into the editor (whose spin box starts at 1)
      leaves a line with quantity 0. */
  lemma EditAsWrittenStoresZero()
    ensures var lines := [OrderLine("W10", "Belt", "Dryer", 1)];
      && AllPositive(lines)
      && !AllPositive(EditAsWritten(lines, 0, Some(0)))
  {
    var lines := [OrderLine("W10", "Belt", "Dryer", 1)];
    assert EditAsWritten(lines, 0, Some(0))[0].quantity == 0;
  }

  /** The quantity edit with the range the spin box offers: a parsed value of
      at least 1 is stored; anything else changes nothing. */
  function CheckedEdit(lines: seq<OrderLine>, index: nat, parsed: Option<int>): seq<OrderLine>
    requires index < |lines|
  {
    if parsed.Some? && parsed.value >= 1 then SetQuantity(lines, index, parsed.value) else lines
  }

  /** The checked edit keeps every quantity positive, touches only the target
      line's quantity, and is a no-op on a value that does not parse or is
      below 1. */
  lemma CheckedEditEffect(lines: seq<OrderLine>, index: nat, parsed: Option<int>)
    requires index < |lines|
    ensures AllPositive(lines) ==> AllPositive(CheckedEdit(lines, index, parsed))
    ensures parsed.None? || parsed.value < 1 ==> CheckedEdit(lines, index, parsed) == lines
    ensures parsed.Some? && parsed.value >= 1 ==>
      && CheckedEdit(lines, index, parsed)[index].quantity == parsed.value
      && |CheckedEdit(lines, index, parsed)| == |lines|
      && forall j :: 0 <= j < |lines| && j != index ==> CheckedEdit(lines, index, parsed)[j] == lines[j]
  {
  }

  /** `del lines[index]`. */
  function RemoveAt(lines: seq<OrderLine>, index: nat): seq<OrderLine>
    requires index < |lines|
  {
    lines[..index] + lines[index + 1..]
  }

  lemma {:induction false} QuantityOfAppend(lines: seq<OrderLine>, l: OrderLine, id: string)
    ensures QuantityOf(lines + [l], id) == QuantityOf(lines, id) + (if l.partId == id then l.quantity else 0)
    decreases |lines|
  {
    if lines != [] {
      QuantityOfAppend(lines[1..], l, id);
      assert (lines + [l])[1..] == lines[1..] + [l];
    }
  }

  lemma {:induction false} QuantityOfUpdate(lines: seq<OrderLine>, k: nat, l: OrderLine, id: string)
    requires k < |lines|
    ensures QuantityOf(lines[k := l], id) ==
      QuantityOf(lines, id) - (if lines[k].partId == id then lines[k].quantity else 0)
                            + (if l.partId == id then l.quantity else 0)
    decreases |lines|
  {
    if k > 0 {
      QuantityOfUpdate(lines[1..], k - 1, l, id);
      assert lines[k := l][1..] == lines[1..][k - 1 := l];
    }
  }

  lemma {:induction false} TotalQuantityAppend(lines: seq<OrderLine>, l: OrderLine)
    ensures TotalQuantity(lines + [l]) == TotalQuantity(lines) + l.quantity
    decreases |lines|
  {
    if lines != [] {
      TotalQuantityAppend(lines[1..], l);
      assert (lines + [l])[1..] == lines[1..] + [l];
    }
  }

  lemma {:induction false} TotalQuantityUpdate(lines: seq<OrderLine>, k: nat, l: OrderLine)
    requires k < |lines|
    ensures TotalQuantity(lines[k := l]) == TotalQuantity(lines) - lines[k].quantity + l.quantity
    decreases |lines|
  {
    if k > 0 {
      TotalQuantityUpdate(lines[1..], k - 1, l);
      assert lines[k := l][1..] == lines[1..][k - 1 := l];
    }
  }

  /** With one line per part, the per-part total is that line's quantity. */
  lemma {:induction false} QuantityOfUnique(lines: seq<OrderLine>, k: nat)
    requires UniqueIds(lines) && k < |lines|
    ensures QuantityOf(lines, lines[k].partId) == lines[k].quantity
    decreases |lines|
  {
    var id := lines[k].partId;
    if k == 0 {
      QuantityOfAbsent(lines[1..], id);
    } else {
      QuantityOfUnique(lines[1..], k - 1);
    }
  }

  lemma {:induction false} QuantityOfAbsent(lines: seq<OrderLine>, id: string)
    requires forall j :: 0 <= j < |lines| ==> lines[j].partId != id
    ensures QuantityOf(lines, id) == 0
    decreases |lines|
  {
    if lines != [] { QuantityOfAbsent(lines[1..], id); }
  }

  /** Adding one row merges by part id: that part's total goes up by one,
      every other part's total is unchanged, and the whole order grows by one
      unit. */
  lemma AddRowQuantities(lines: seq<OrderLine>, row: PartRow, compatibility: map<string, string>)
    ensures var r := AddRow(lines, row, compatibility);
      && (forall id :: QuantityOf(r, id) == QuantityOf(lines, id) + (if id == row.partId then 1 else 0))
      && TotalQuantity(r) == TotalQuantity(lines) + 1
  {
    var r := AddRow(lines, row, compatibility);
    var k := LineIndex(lines, row.partId);
    if k < |lines| {
      var l := lines[k].(quantity := lines[k].quantity + 1);
      forall id ensures QuantityOf(r, id) == QuantityOf(lines, id) + (if id == row.partId then 1 else 0) {
        QuantityOfUpdate(lines, k, l, id);
      }
      TotalQuantityUpdate(lines, k, l);
    } else {
      var l := NewLine(row, compatibility);
      forall id ensures QuantityOf(r, id) == QuantityOf(lines, id) + (if id == row.partId then 1 else 0) {
        QuantityOfAppend(lines, l, id);
      }
      TotalQuantityAppend(lines, l);
    }
  }

  /** After adding one row the order holds that part, and one line per part
      is kept. */
  lemma AddRowIds(lines: seq<OrderLine>, row: PartRow, compatibility: map<string, string>)
    ensures LineIds(AddRow(lines, row, compatibility)) == LineIds(lines) + {row.partId}
    ensures UniqueIds(lines) ==> UniqueIds(AddRow(lines, row, compatibility))
  {
    var r := AddRow(lines, row, compatibility);
    var k := LineIndex(lines, row.partId);
    if k < |lines| {
      assert LineIds(r) == LineIds(lines) by {
        forall id | id in LineIds(lines) ensures id in LineIds(r) {
          var w :| w in lines && w.partId == id;
          var j :| 0 <= j < |lines| && lines[j] == w;
          assert r[j].partId == id;
        }
        forall id | id in LineIds(r) ensures id in LineIds(lines) {
          var w :| w in r && w.partId == id;
          var j :| 0 <= j < |r| && r[j] == w;
          assert lines[j].partId == id;
        }
      }
      assert lines[k] in lines;
    } else {
      var l := NewLine(row, compatibility);
      assert LineIds(r) == LineIds(lines) + {row.partId} by {
        forall id | id in LineIds(r) ensures id in LineIds(lines) + {row.partId} {
          var w :| w in r && w.partId == id;
          var j :| 0 <= j < |r| && r[j] == w;
          if j < |lines| { assert lines[j] == w; }
        }
        assert r[|lines|] == l;
      }
    }
  }

  /** Adding one row adds at most one line; existing lines keep their place
      and all but the quantity, which does not drop; positive quantities stay
      positive. */
  lemma AddRowKeeps(lines: seq<OrderLine>, row: PartRow, compatibility: map<string, string>)
    ensures var r := AddRow(lines, row, compatibility);
      && |lines| <= |r| <= |lines| + 1
      && (forall j :: 0 <= j < |lines| ==>
            r[j] == lines[j].(quantity := r[j].quantity) && r[j].quantity >= lines[j].quantity)
      && (AllPositive(lines) ==> AllPositive(r))
  {
  }

  /** Adding a batch of selected rows: each part's total goes up by the number
      of selected rows of that part, so the order grows by one unit per row. */
  lemma {:induction false} AddRowsQuantities(lines: seq<OrderLine>, rows: seq<PartRow>, compatibility: map<string, string>)
    ensures var r := AddRows(lines, rows, compatibility);
      && (forall id :: QuantityOf(r, id) == QuantityOf(lines, id) + CountOf(rows, id))
      && TotalQuantity(r) == TotalQuantity(lines) + |rows|
    decreases |rows|
  {
    if rows != [] {
      AddRowQuantities(lines, rows[0], compatibility);
      AddRowsQuantities(AddRow(lines, rows[0], compatibility), rows[1..], compatibility);
    }
  }

  /** Adding a batch of selected rows: the order holds a line for every part
      it held or that was selected, and no other. */
  lemma {:induction false} AddRowsIds(lines: seq<OrderLine>, rows: seq<PartRow>, compatibility: map<string, string>)
    ensures LineIds(AddRows(lines, rows, compatibility)) == LineIds(lines) + PartIds(rows)
    decreases |rows|
  {
    if rows != [] {
      var once := AddRow(lines, rows[0], compatibility);
      AddRowIds(lines, rows[0], compatibility);
      AddRowsIds(once, rows[1..], compatibility);
      PartIdsSplit(rows);
      calc {
        LineIds(AddRows(lines, rows, compatibility));
        LineIds(AddRows(once, rows[1..], compatibility));
        LineIds(once) + PartIds(rows[1..]);
        LineIds(lines) + {rows[0].partId} + PartIds(rows[1..]);
        LineIds(lines) + PartIds(rows);
      }
    }
  }

  /** Adding a batch of selected rows keeps one line per part. */
  lemma {:induction false} AddRowsUnique(lines: seq<OrderLine>, rows: seq<PartRow>, compatibility: map<string, string>)
    requires UniqueIds(lines)
    ensures UniqueIds(AddRows(lines, rows, compatibility))
    decreases |rows|
  {
    if rows != [] {
      AddRowIds(lines, rows[0], compatibility);
      AddRowsUnique(AddRow(lines, rows[0], compatibility), rows[1..], compatibility);
    }
  }

  /** Adding a batch of selected rows: existing lines keep their place and
      all but the quantity, which does not drop, and positive quantities stay
      positive. */
  lemma {:induction false} AddRowsKeeps(lines: seq<OrderLine>, rows: seq<PartRow>, compatibility: map<string, string>)
    ensures var r := AddRows(lines, rows, compatibility);
      && |lines| <= |r|
      && (forall j :: 0 <= j < |lines| ==>
            r[j] == lines[j].(quantity := r[j].quantity) && r[j].quantity >= lines[j].quantity)
      && (AllPositive(lines) ==> AllPositive(r))
    decreases |rows|
  {
    if rows != [] {
      var once := AddRow(lines, rows[0], compatibility);
      var r := AddRows(lines, rows, compatibility);
      AddRowKeeps(lines, rows[0], compatibility);
      AddRowsKeeps(once, rows[1..], compatibility);
      assert r == AddRows(once, rows[1..], compatibility);
      forall j | 0 <= j < |lines|
        ensures r[j] == lines[j].(quantity := r[j].quantity) && r[j].quantity >= lines[j].quantity
      {
        assert once[j] == lines[j].(quantity := once[j].quantity);
        assert r[j] == once[j].(quantity := r[j].quantity);
      }
    }
  }

  /** Re-adding a part that is the only one in the order gives one line with
      quantity 2, not a second line. */
  lemma AddSameTwice(row: PartRow, compatibility: map<string, string>)
    ensures AddRows([], [row, row], compatibility) == [NewLine(row, compatibility).(quantity := 2)]
  {
    var once := [NewLine(row, compatibility)];
    assert [row, row][1..] == [row];
    assert AddRow([], row, compatibility) == once;
    assert LineIndex(once, row.partId) == 0;
    assert AddRow(once, row, compatibility) == [NewLine(row, compatibility).(quantity := 2)];
    assert AddRows(once, [row], compatibility) == AddRows(AddRow(once, row, compatibility), [], compatibility);
  }

  /** For rows of the catalog the fallback is never taken: a new line's model
      name is the `", "`-join of the sorted distinct models its part fits. */
  lemma NewLineModelName(catalog: seq<PartRow>, row: PartRow, models: seq<string>)
    requires row in catalog
    requires StrictlySorted(models)
    requires forall n :: n in models <==> FitsModel(catalog, row.partId, n)
    ensures NewLine(row, DesktopCompatibility(catalog)).modelName == Join(models, ", ")
    ensures NewLine(row, DesktopCompatibility(catalog)).quantity == 1
  {
    DesktopCompatibilityIndex(catalog, row.partId, models);
  }

  /** A quantity edit changes the target line's quantity and nothing else:
      ids, names and one-line-per-part are kept. */
  lemma SetQuantityEffect(lines: seq<OrderLine>, index: nat, n: int)
    requires index < |lines|
    ensures var r := SetQuantity(lines, index, n);
      && |r| == |lines|
      && r[index].quantity == n
      && (forall j :: 0 <= j < |lines| ==> r[j] == lines[j].(quantity := r[j].quantity))
      && (forall j :: 0 <= j < |lines| && j != index ==> r[j] == lines[j])
      && LineIds(r) == LineIds(lines)
      && (UniqueIds(lines) ==> UniqueIds(r))
      && (UniqueIds(lines) ==> QuantityOf(r, lines[index].partId) == n)
  {
    var r := SetQuantity(lines, index, n);
    assert LineIds(r) == LineIds(lines) by {
      forall id | id in LineIds(lines) ensures id in LineIds(r) {
        var w :| w in lines && w.partId == id;
        var j :| 0 <= j < |lines| && lines[j] == w;
        assert r[j].partId == id;
      }
      forall id | id in LineIds(r) ensures id in LineIds(lines) {
        var w :| w in r && w.partId == id;
        var j :| 0 <= j < |r| && r[j] == w;
        assert lines[j].partId == id;
      }
    }
    if UniqueIds(lines) {
      QuantityOfUnique(r, index);
    }
  }

  /** Removing line `index` deletes exactly that line: the others keep their
      relative order and the order is one line shorter. */
  lemma RemoveAtEffect(lines: seq<OrderLine>, index: nat)
    requires index < |lines|
    ensures |RemoveAt(lines, index)| == |lines| - 1
    ensures IsSubsequence(RemoveAt(lines, index), lines)
    ensures forall j :: 0 <= j < index ==> RemoveAt(lines, index)[j] == lines[j]
    ensures forall j :: index <= j < |lines| - 1 ==> RemoveAt(lines, index)[j] == lines[j + 1]
  {
    DeleteIsSubsequence(lines, index);
  }

  /** With one line per part, removal keeps that property. */
  lemma RemoveAtUnique(lines: seq<OrderLine>, index: nat)
    requires index < |lines| && UniqueIds(lines)
    ensures UniqueIds(RemoveAt(lines, index))
  {
    var r := RemoveAt(lines, index);
    RemoveAtEffect(lines, index);
    forall i, j | 0 <= i < j < |r| ensures r[i].partId != r[j].partId {
      var i' := if i < index then i else i + 1;
      var j' := if j < index then j else j + 1;
      assert r[i] == lines[i'] && r[j] == lines[j'] && i' < j';
    }
  }

  /** With one line per part, the removed part is no longer ordered while
      every other part still is. */
  lemma RemoveAtIds(lines: seq<OrderLine>, index: nat)
    requires index < |lines| && UniqueIds(lines)
    ensures LineIds(RemoveAt(lines, index)) == LineIds(lines) - {lines[index].partId}
  {
    var r := RemoveAt(lines, index);
    forall id | id in LineIds(r) ensures id in LineIds(lines) - {lines[index].partId} {
      var w :| w in r && w.partId == id;
      var j :| 0 <= j < |r| && r[j] == w;
      var j' := if j < index then j else j + 1;
      assert lines[j'] == w;
      assert lines[j'].partId != lines[index].partId;
    }
    forall id | id in LineIds(lines) - {lines[index].partId} ensures id in LineIds(r) {
      var w :| w in lines && w.partId == id;
      var j :| 0 <= j < |lines| && lines[j] == w;
      var j' := if j < index then j else j - 1;
      assert r[j'] == w;
    }
  }

  /** The rows behind the listbox indices the user selected. */
  function Picked(rows: seq<PartRow>, positions: seq<nat>, selected: seq<nat>): seq<PartRow>
    requires forall k :: 0 <= k < |positions| ==> positions[k] < |rows|
    requires forall k :: 0 <= k < |selected| ==> selected[k] < |positions|
  {
    seq(|selected|, k requires 0 <= k < |selected| => rows[positions[selected[k]]])
  }

  /** The state of the desktop app: the catalog and its compatibility index,
      fixed at start-up; the current search result; the listbox and its map
      from listbox positions to result positions; the order list. */
  class PickerApp {
    const catalog: seq<PartRow>
    const compatibility: map<string, string>
    var currentSelection: seq<PartRow>
    var displayIndexMap: seq<nat>
    var listbox: seq<string>
    var orderList: seq<OrderLine>

    ghost predicate Valid()
      reads this
    {
      && compatibility == DesktopCompatibility(catalog)
      && IsSubsequence(currentSelection, catalog)
      && |listbox| == |displayIndexMap|
      && (forall k :: 0 <= k < |displayIndexMap| ==> displayIndexMap[k] < |currentSelection|)
      && UniqueIds(orderList)
      && AllPositive(orderList)
    }

    /** Start-up: the index is built once from the catalog; nothing is
        selected, listed or ordered. */
    constructor (catalog: seq<PartRow>)
      ensures Valid()
      ensures this.catalog == catalog
      ensures currentSelection == [] && displayIndexMap == [] && listbox == [] && orderList == []
    {
      this.catalog := catalog;
      compatibility := DesktopCompatibility(catalog);
      currentSelection := [];
      displayIndexMap := [];
      listbox := [];
      orderList := [];
    }

    /** `apply_filter`: rebuilds the listbox and the index map from the current
        result and the filter box. */
    method ApplyFilter(filterEntry: string)
      requires Valid()
      modifies this
      ensures Valid()
      ensures currentSelection == old(currentSelection) && orderList == old(orderList)
      ensures IsListing(currentSelection, FilterKeywords(filterEntry), listbox, displayIndexMap)
    {
      var labels, positions := Listing(currentSelection, FilterKeywords(filterEntry));
      listbox := labels;
      displayIndexMap := positions;
    }

    /** `search_parts`: with no usable query, or with no matches, a message is
        shown and nothing changes; otherwise the matches become the current
        result and the listing is rebuilt under the filter box. */
    method SearchParts(numberEntry: string, nameEntry: string, filterEntry: string) returns (notice: Notice)
      requires Valid()
      modifies this
      ensures Valid()
      ensures orderList == old(orderList)
      ensures var res := DesktopResolve(catalog, numberEntry, nameEntry);
        && (res.NoQuery? ==> notice == InputError)
        && (res.Resolved? && res.matches == [] ==> notice == NoMatches)
        && (res.NoQuery? || res.matches == [] ==>
              currentSelection == old(currentSelection) && displayIndexMap == old(displayIndexMap)
              && listbox == old(listbox))
        && (res.Resolved? && res.matches != [] ==>
              && notice == Silent && currentSelection == res.matches
              && IsListing(currentSelection, FilterKeywords(filterEntry), listbox, displayIndexMap))
    {
      var res := DesktopResolve(catalog, numberEntry, nameEntry);
      if res.NoQuery? {
        return InputError;
      }
      if res.matches == [] {
        return NoMatches;
      }
      DesktopResolveSubsequence(catalog, numberEntry, nameEntry);
      var labels, positions := Listing(res.matches, FilterKeywords(filterEntry));
      currentSelection, listbox, displayIndexMap := res.matches, labels, positions;
      notice := Silent;
    }

    /** `add_selected_parts`: with nothing selected a message is shown and the
        order is unchanged; otherwise each selected row, in listbox order, is
        merged into the order by part id. */
    method AddSelectedParts(selected: seq<nat>) returns (notice: Notice)
      requires Valid()
      requires forall k :: 0 <= k < |selected| ==> selected[k] < |listbox|
      modifies this
      ensures Valid()
      ensures currentSelection == old(currentSelection) && displayIndexMap == old(displayIndexMap)
      ensures listbox == old(listbox)
      ensures selected == [] ==> notice == SelectionError && orderList == old(orderList)
      ensures selected != [] ==>
        && notice == Silent
        && orderList == AddRows(old(orderList), Picked(currentSelection, displayIndexMap, selected), compatibility)
    {
      if selected == [] {
        return SelectionError;
      }
      ghost var rows := Picked(currentSelection, displayIndexMap, selected);
      ghost var start := orderList;
      var i := 0;
      while i < |selected|
        invariant 0 <= i <= |selected|
        invariant Valid()
        invariant orderList == AddRows(start, rows[..i], compatibility)
        invariant currentSelection == old(currentSelection) && displayIndexMap == old(displayIndexMap)
        invariant listbox == old(listbox)
      {
        var row := currentSelection[displayIndexMap[selected[i]]];
        assert row == rows[i];
        MergeRow(row);
        AddRowsSnoc(start, rows[..i], row, compatibility);
        assert rows[..i + 1] == rows[..i] + [row];
        i := i + 1;
      }
      assert rows[..|selected|] == rows;
      notice := Silent;
    }

    /** The inner loop of `add_selected_parts` for one row: look for the
        part's line; bump its quantity if found, else append a new line. */
    method MergeRow(row: PartRow)
      requires Valid()
      modifies this`orderList
      ensures Valid()
      ensures orderList == AddRow(old(orderList), row, compatibility)
    {
      var j := 0;
      while j < |orderList| && orderList[j].partId != row.partId
        invariant 0 <= j <= |orderList|
        invariant forall m :: 0 <= m < j ==> orderList[m].partId != row.partId
      {
        j := j + 1;
      }
      assert j == LineIndex(orderList, row.partId);
      AddRowIds(orderList, row, compatibility);
      AddRowKeeps(orderList, row, compatibility);
      if j < |orderList| {
        orderList := orderList[j := orderList[j].(quantity := orderList[j].quantity + 1)];
      } else {
        orderList := orderList + [NewLine(row, compatibility)];
      }
    }

    /** The inline quantity editor on focus-out, with the range check the spin
        box implies: a parsed number of at least 1 overwrites that line's
        quantity; a value that does not parse, or is below 1, changes
        nothing. */
    method EditQuantity(index: nat, parsed: Option<int>)
      requires Valid() && index < |orderList|
      modifies this
      ensures Valid()
      ensures currentSelection == old(currentSelection) && displayIndexMap == old(displayIndexMap)
      ensures listbox == old(listbox)
      ensures orderList == CheckedEdit(old(orderList), index, parsed)
    {
      if parsed.Some? && parsed.value >= 1 {
        SetQuantityEffect(orderList, index, parsed.value);
        CheckedEditEffect(orderList, index, parsed);
        orderList := orderList[index := orderList[index].(quantity := parsed.value)];
      }
    }

    /** `remove_selected_item`: with no focused row a message is shown and
        nothing changes; otherwise the focused line is deleted. */
    method RemoveSelectedItem(focus: Option<nat>) returns (notice: Notice)
      requires Valid()
      requires focus.Some? ==> focus.value < |orderList|
      modifies this
      ensures Valid()
      ensures currentSelection == old(currentSelection) && displayIndexMap == old(displayIndexMap)
      ensures listbox == old(listbox)
      ensures focus.None? ==> notice == NoSelection && orderList == old(orderList)
      ensures focus.Some? ==> notice == Silent && orderList == RemoveAt(old(orderList), focus.value)
    {
      if focus.None? {
        return NoSelection;
      }
      RemoveAtUnique(orderList, focus.value);
      orderList := orderList[..focus.value] + orderList[focus.value + 1..];
      notice := Silent;
    }

    /** `export_to_excel`: refused when the order is empty; otherwise the
        order lines, in order, are what gets written. */
    method ExportToExcel() returns (r: ExportOutcome)
      requires Valid()
      ensures r.ExportError? <==> orderList == []
      ensures r.Exported? ==> r.lines == orderList
    {
      if orderList == [] {
        return ExportError;
      }
      r := Exported(orderList);
    }
  }

  lemma {:induction false} AddRowsSnoc(lines: seq<OrderLine>, rows: seq<PartRow>, row: PartRow, compatibility: map<string, string>)
    ensures AddRows(lines, rows + [row], compatibility) == AddRow(AddRows(lines, rows, compatibility), row, compatibility)
    decreases |rows|
  {
    if rows == [] {
      assert [] + [row] == [row];
      assert [row][1..] == [];
    } else {
      assert (rows + [row])[0] == rows[0];
      assert (rows + [row])[1..] == rows[1..] + [row];
      AddRowsSnoc(AddRow(lines, rows[0], compatibility), rows[1..], row, compatibility);
    }
  }
}
