/** The web (Streamlit) picker. Each interaction re-runs the script: search,
    optional keyword filter, de-duplication by part id, sort by part name,
    the first 50 rows, dropdown labels, the multiselect whose value is kept in
    the session as `previous_selection`, and one order line per selected
    part. */
module Web {
  import opened Text
  import opened Seqs
  import opened Catalog
  import opened Search

  /** How many parts the dropdown offers at most (`head(50)`). */
  const DisplayLimit := 50

  /** The text a row is filtered on: lower-cased `"id name"`. */
  function FilterText(row: PartRow): string {
    Lower(row.partId + " " + row.partName)
  }

  /** The keywords of the filter box: lower-cased, whitespace-split. */
  function SearchKeywords(searchTerm: string): seq<string> {
    Split(Lower(searchTerm))
  }

  /** `filter_rows`, applied only when the filter box is non-empty. */
  function FilterRows(rows: seq<PartRow>, searchTerm: string): seq<PartRow> {
    if searchTerm == "" then rows
    else Filter(rows, r => KeywordsMatch(SearchKeywords(searchTerm), FilterText(r)))
  }

  /** Filtering keeps, in their original order and with their multiplicity,
      exactly the rows whose lower-cased `"id name"` contains every keyword;
      with an empty or blank filter box every row is kept. */
  lemma FilterRowsExact(rows: seq<PartRow>, searchTerm: string)
    ensures IsSubsequence(FilterRows(rows, searchTerm), rows)
    ensures forall x :: multiset(FilterRows(rows, searchTerm))[x] ==
                        (if searchTerm == "" || KeywordsMatch(SearchKeywords(searchTerm), FilterText(x))
                         then multiset(rows)[x] else 0)
    ensures AllSpace(searchTerm) ==> FilterRows(rows, searchTerm) == rows
  {
    var p := r => KeywordsMatch(SearchKeywords(searchTerm), FilterText(r));
    if searchTerm == "" {
      SubsequenceRefl(rows);
    } else {
      FilterIsSubsequence(rows, p);
      forall x ensures multiset(FilterRows(rows, searchTerm))[x] == if p(x) then multiset(rows)[x] else 0 {
        FilterCount(rows, p, x);
      }
      if AllSpace(searchTerm) {
        assert AllSpace(Lower(searchTerm)) by {
          forall i | 0 <= i < |searchTerm| ensures IsSpace(Lower(searchTerm)[i]) {
            assert IsSpace(searchTerm[i]);
          }
        }
        SplitWords(Lower(searchTerm));
        FilterAll(rows, p);
      }
    }
  }

  /** Part ids pairwise different. */
  predicate UniquePartIds(rows: seq<PartRow>) {
    forall i, j :: 0 <= i < j < |rows| ==> rows[i].partId != rows[j].partId
  }

  /** Non-decreasing by part name in Python's string order. */
  predicate SortedByName(rows: seq<PartRow>) {
    forall i, j :: 0 <= i < j < |rows| ==> LexLe(rows[i].partName, rows[j].partName)
  }

  /** Distinct ids after a head: the tail has distinct ids and lacks the
      head's id. */
  lemma UniqueCons(h: PartRow, t: seq<PartRow>)
    ensures UniquePartIds([h] + t) <==> UniquePartIds(t) && h.partId !in PartIds(t)
  {
    var s := [h] + t;
    if UniquePartIds(s) {
      forall i, j | 0 <= i < j < |t| ensures t[i].partId != t[j].partId {
        assert t[i] == s[i + 1] && t[j] == s[j + 1];
      }
      forall w | w in t ensures w.partId != h.partId {
        var k :| 0 <= k < |t| && t[k] == w;
        assert s[k + 1] == w;
        assert s[0].partId != s[k + 1].partId;
      }
    }
    if UniquePartIds(t) && h.partId !in PartIds(t) {
      forall i, j | 0 <= i < j < |s| ensures s[i].partId != s[j].partId {
        assert s[j] == t[j - 1];
        if i == 0 {
          assert s[0] == h;
          assert t[j - 1] in t;
          assert t[j - 1].partId in PartIds(t);
        } else {
          assert s[i] == t[i - 1];
          assert t[i - 1].partId != t[j - 1].partId;
        }
      }
      assert UniquePartIds(s);
    }
  }

  /** `drop_duplicates(subset=["Part #"])` after the ids in `seen`: keeps the
      first row of every part id not yet seen. */
  function DedupFrom(rows: seq<PartRow>, seen: set<string>): seq<PartRow>
    decreases |rows|
  {
    if rows == [] then []
    else if rows[0].partId in seen then DedupFrom(rows[1..], seen)
    else [rows[0]] + DedupFrom(rows[1..], seen + {rows[0].partId})
  }

  function Dedup(rows: seq<PartRow>): seq<PartRow> {
    DedupFrom(rows, {})
  }

  /** De-duplication keeps one row for every id not yet seen, and no other. */
  lemma {:induction false} DedupFromIds(rows: seq<PartRow>, seen: set<string>)
    ensures UniquePartIds(DedupFrom(rows, seen))
    ensures PartIds(DedupFrom(rows, seen)) == PartIds(rows) - seen
    decreases |rows|
  {
    if rows != [] {
      var head := rows[0];
      var tail := rows[1..];
      assert rows == [head] + tail;
      PartIdsCons(head, tail);
      if head.partId in seen {
        DedupFromIds(tail, seen);
      } else {
        var rest := DedupFrom(tail, seen + {head.partId});
        DedupFromIds(tail, seen + {head.partId});
        PartIdsCons(head, rest);
        UniqueCons(head, rest);
      }
    }
  }

  /** Every row de-duplication keeps is the first row of its part id. */
  lemma {:induction false} DedupFromFirst(rows: seq<PartRow>, seen: set<string>)
    ensures forall x :: x in DedupFrom(rows, seen) ==>
      x.partId !in seen && x in rows && x == FirstWithId(rows, x.partId)
    decreases |rows|
  {
    if rows != [] {
      var head := rows[0];
      var tail := rows[1..];
      var seen' := if head.partId in seen then seen else seen + {head.partId};
      DedupFromFirst(tail, seen');
      forall x | x in DedupFrom(rows, seen)
        ensures x.partId !in seen && x in rows && x == FirstWithId(rows, x.partId)
      {
        if x != head || head.partId in seen {
          assert x in DedupFrom(tail, seen');
          assert FirstIndexOf(rows, x.partId) == 1 + FirstIndexOf(tail, x.partId);
        }
      }
    }
  }

  /** Inserts `x` before the first row whose name is not below it. */
  function InsertByName(x: PartRow, s: seq<PartRow>): seq<PartRow>
    decreases |s|
  {
    if s == [] then [x]
    else if LexLe(x.partName, s[0].partName) then [x] + s
    else [s[0]] + InsertByName(x, s[1..])
  }

  /** `sort_values(by="Part Name")`, realised as an insertion sort. */
  function SortByName(s: seq<PartRow>): seq<PartRow>
    decreases |s|
  {
    if s == [] then [] else InsertByName(s[0], SortByName(s[1..]))
  }

  lemma {:induction false} InsertByNamePerm(x: PartRow, s: seq<PartRow>)
    ensures multiset(InsertByName(x, s)) == multiset(s) + multiset{x}
    decreases |s|
  {
    if s != [] && !LexLe(x.partName, s[0].partName) {
      InsertByNamePerm(x, s[1..]);
      assert s == [s[0]] + s[1..];
    }
  }

  /** A row whose name is at most every name of a sorted sequence can go in
      front of it. */
  lemma SortedCons(h: PartRow, t: seq<PartRow>)
    requires SortedByName(t)
    requires forall k :: 0 <= k < |t| ==> LexLe(h.partName, t[k].partName)
    ensures SortedByName([h] + t)
  {
    var s := [h] + t;
    forall i, j | 0 <= i < j < |s| ensures LexLe(s[i].partName, s[j].partName) {
      assert s[j] == t[j - 1];
      if i > 0 { assert s[i] == t[i - 1]; }
    }
  }

  lemma {:induction false} InsertByNameSorted(x: PartRow, s: seq<PartRow>)
    requires SortedByName(s)
    ensures SortedByName(InsertByName(x, s))
    decreases |s|
  {
    if s == [] {
    } else if LexLe(x.partName, s[0].partName) {
      forall k | 0 <= k < |s| ensures LexLe(x.partName, s[k].partName) {
        if k > 0 { LexLeTrans(x.partName, s[0].partName, s[k].partName); }
      }
      SortedCons(x, s);
    } else {
      var t := s[1..];
      var r := InsertByName(x, t);
      InsertByNameSorted(x, t);
      InsertByNamePerm(x, t);
      LexLeTotal(x.partName, s[0].partName);
      forall k | 0 <= k < |r| ensures LexLe(s[0].partName, r[k].partName) {
        assert r[k] in multiset(r);
        if r[k] != x {
          assert r[k] in multiset(t);
          var m :| 0 <= m < |t| && t[m] == r[k];
          assert s[m + 1] == r[k];
        }
      }
      SortedCons(s[0], r);
    }
  }

  /** Inserting a row of a new id keeps the ids distinct. */
  lemma {:induction false} InsertByNameUnique(x: PartRow, s: seq<PartRow>)
    requires UniquePartIds(s) && x.partId !in PartIds(s)
    ensures UniquePartIds(InsertByName(x, s))
    decreases |s|
  {
    if s == [] {
    } else if LexLe(x.partName, s[0].partName) {
      UniqueCons(x, s);
    } else {
      var t := s[1..];
      assert s == [s[0]] + t;
      UniqueCons(s[0], t);
      PartIdsCons(s[0], t);
      InsertByNameUnique(x, t);
      InsertByNamePerm(x, t);
      var r := InsertByName(x, t);
      assert multiset(r) == multiset([x] + t);
      SamePartIds(r, [x] + t);
      PartIdsCons(x, t);
      UniqueCons(s[0], r);
    }
  }

  /** Sorting yields a permutation of its input, non-decreasing by name. */
  lemma {:induction false} SortByNameCorrect(s: seq<PartRow>)
    ensures multiset(SortByName(s)) == multiset(s)
    ensures SortedByName(SortByName(s))
    decreases |s|
  {
    if s != [] {
      var t := s[1..];
      assert s == [s[0]] + t;
      SortByNameCorrect(t);
      InsertByNamePerm(s[0], SortByName(t));
      InsertByNameSorted(s[0], SortByName(t));
    }
  }

  /** Permutations have the same part ids. */
  lemma SamePartIds(a: seq<PartRow>, b: seq<PartRow>)
    requires multiset(a) == multiset(b)
    ensures PartIds(a) == PartIds(b)
  {
    forall id | id in PartIds(a) ensures id in PartIds(b) {
      var w :| w in a && w.partId == id;
      assert w in multiset(b);
    }
    forall id | id in PartIds(b) ensures id in PartIds(a) {
      var w :| w in b && w.partId == id;
      assert w in multiset(a);
    }
  }

  /** Sorting keeps distinct ids distinct. */
  lemma {:induction false} SortByNameUnique(s: seq<PartRow>)
    requires UniquePartIds(s)
    ensures UniquePartIds(SortByName(s))
    decreases |s|
  {
    if s != [] {
      var t := s[1..];
      assert s == [s[0]] + t;
      UniqueCons(s[0], t);
      SortByNameUnique(t);
      SortByNameCorrect(t);
      SamePartIds(t, SortByName(t));
      InsertByNameUnique(s[0], SortByName(t));
    }
  }

  /** With distinct ids, a sequence has as many rows as part ids. */
  lemma {:induction false} UniqueIdsCount(s: seq<PartRow>)
    requires UniquePartIds(s)
    ensures |PartIds(s)| == |s|
    decreases |s|
  {
    if s != [] {
      assert s == [s[0]] + s[1..];
      UniqueCons(s[0], s[1..]);
      PartIdsCons(s[0], s[1..]);
      UniqueIdsCount(s[1..]);
    }
  }

  /** The display step: de-duplicate, sort by name, keep the first 50. */
  function DedupSortCap(rows: seq<PartRow>): seq<PartRow> {
    var s := SortByName(Dedup(rows));
    if |s| <= DisplayLimit then s else s[..DisplayLimit]
  }

  /** Before the cap: the sorted de-duplicated rows hold one row per part id,
      each the first row of its id, in part-name order. */
  lemma SortedDedupCorrect(rows: seq<PartRow>)
    ensures var s := SortByName(Dedup(rows));
      && UniquePartIds(s)
      && SortedByName(s)
      && PartIds(s) == PartIds(rows)
      && |s| == |PartIds(rows)|
      && (forall x :: x in s ==> x in rows && x == FirstWithId(rows, x.partId))
  {
    var d := Dedup(rows);
    var s := SortByName(d);
    DedupFromIds(rows, {});
    DedupFromFirst(rows, {});
    SortByNameCorrect(d);
    SortByNameUnique(d);
    UniqueIdsCount(d);
    SamePartIds(s, d);
    assert |s| == |d| by {
      assert |multiset(s)| == |multiset(d)|;
    }
    forall x | x in s ensures x in rows && x == FirstWithId(rows, x.partId) {
      assert x in multiset(d);
    }
  }

  /** The display step: part ids are unique; rows are in part-name order;
      there are min(50, number of distinct ids) of them, all ids when there
      are no more than 50; and every row is the first row of its part id in
      the step's input. */
  lemma DedupSortCapCorrect(rows: seq<PartRow>)
    ensures var r := DedupSortCap(rows);
      && UniquePartIds(r)
      && SortedByName(r)
      && |r| <= DisplayLimit
      && |r| == (if |PartIds(rows)| <= DisplayLimit then |PartIds(rows)| else DisplayLimit)
      && (|PartIds(rows)| <= DisplayLimit ==> PartIds(r) == PartIds(rows))
      && (forall x :: x in r ==> x in rows && x == FirstWithId(rows, x.partId))
  {
    var s := SortByName(Dedup(rows));
    SortedDedupCorrect(rows);
    if |s| > DisplayLimit {
      var r := s[..DisplayLimit];
      forall x | x in r ensures x in s {
        var k :| 0 <= k < |r| && r[k] == x;
        assert s[k] == x;
      }
    }
  }

  /** `head(50)` keeps the smallest names: a part the cap drops has, in the
      step's input, a first row whose name is no smaller than any shown
      name. */
  lemma DedupSortCapSmallest(rows: seq<PartRow>)
    ensures var r := DedupSortCap(rows);
      forall y :: y in rows && y == FirstWithId(rows, y.partId) && y.partId !in PartIds(r) ==>
        forall i :: 0 <= i < |r| ==> LexLe(r[i].partName, y.partName)
  {
    var s := SortByName(Dedup(rows));
    var r := DedupSortCap(rows);
    SortedDedupCorrect(rows);
    forall y | y in rows && y == FirstWithId(rows, y.partId) && y.partId !in PartIds(r)
      ensures forall i :: 0 <= i < |r| ==> LexLe(r[i].partName, y.partName)
    {
      assert y.partId in PartIds(s);
      var w :| w in s && w.partId == y.partId;
      assert w == y;
      var j :| 0 <= j < |s| && s[j] == y;
      forall k | 0 <= k < |r| ensures s[k].partId in PartIds(r) {
        assert r[k] == s[k] && r[k] in r;
      }
      assert |r| <= j;
      forall i | 0 <= i < |r| ensures LexLe(r[i].partName, y.partName) {
        assert r[i] == s[i];
      }
    }
  }

  /** The dropdown label of a row: `"id | name"`, followed by
      `" | Used in: "` and the `", "`-join of its compatible models when the
      toggle is on. */
  function MakeLabel(row: PartRow, compatibility: map<string, seq<string>>, showCompat: bool): string {
    var compat := Join(if row.partId in compatibility then compatibility[row.partId] else [], ", ");
    PartLabel(row) + (if showCompat then " | Used in: " + compat else "")
  }

  /** A label always starts with `"id | name"` and is exactly that with the
      toggle off. */
  lemma MakeLabelPrefix(row: PartRow, compatibility: map<string, seq<string>>, showCompat: bool)
    ensures var caption := MakeLabel(row, compatibility, showCompat);
      && |PartLabel(row)| <= |caption| && caption[..|PartLabel(row)|] == PartLabel(row)
      && (!showCompat ==> caption == PartLabel(row))
  {
  }

  /** With the toggle on, a label contains every model listed for its part. */
  lemma MakeLabelListed(row: PartRow, compatibility: map<string, seq<string>>, n: string)
    requires row.partId in compatibility && n in compatibility[row.partId]
    ensures Contains(MakeLabel(row, compatibility, true), n)
  {
    var models := compatibility[row.partId];
    var pre := PartLabel(row) + " | Used in: ";
    var joined := Join(models, ", ");
    assert MakeLabel(row, compatibility, true) == pre + joined;
    var k :| 0 <= k < |models| && models[k] == n;
    JoinContainsParts(models, ", ", k);
    ContainsInSuffix(pre, joined, n);
  }

  /** With the toggle on, a label names every model the part fits. */
  lemma MakeLabelModels(catalog: seq<PartRow>, row: PartRow, n: string)
    requires FitsModel(catalog, row.partId, n)
    ensures Contains(MakeLabel(row, WebCompatibility(catalog), true), n)
  {
    assert row.partId in PartIds(catalog);
    WebCompatibilityIndex(catalog, row.partId);
    MakeLabelListed(row, WebCompatibility(catalog), n);
  }

  /** `filtered["Part #"].tolist()`: the multiselect's options. */
  function PartOptions(rows: seq<PartRow>): seq<string> {
    seq(|rows|, k requires 0 <= k < |rows| => rows[k].partId)
  }

  /** The rows the dropdown offers for a query and a filter term. */
  function Shown(catalog: seq<PartRow>, modelNumber: string, modelName: string, searchTerm: string): seq<PartRow> {
    DedupSortCap(FilterRows(WebResolve(catalog, modelNumber, modelName), searchTerm))
  }

  /** The order line built for a selected part: its first catalog row's name;
      as model name the join of its compatible models, or of the first row's
      own model name when the index has no entry; the chosen quantity. */
  function OrderLineFor(catalog: seq<PartRow>, compatibility: map<string, seq<string>>, id: string, qty: int): OrderLine
    requires id in PartIds(catalog)
  {
    var row := FirstWithId(catalog, id);
    OrderLine(id, row.partName,
              Join(if id in compatibility then compatibility[id] else [row.modelName], ", "), qty)
  }

  /** For a part of the catalog, the web order line carries the same model
      string as the desktop compatibility index, the `", "`-join of the sorted
      distinct models the part fits. */
  lemma OrderLineForModelName(catalog: seq<PartRow>, id: string, qty: int)
    requires id in PartIds(catalog)
    ensures OrderLineFor(catalog, WebCompatibility(catalog), id, qty).modelName == DesktopCompatibility(catalog)[id]
    ensures var row := FirstWithId(catalog, id);
      OrderLineFor(catalog, WebCompatibility(catalog), id, qty).partName == row.partName && row in catalog
  {
  }

  /** Step 2 of the page: one order line per selected part, in selection
      order, with the quantity entered for it. */
  method BuildOrderList(catalog: seq<PartRow>, compatibility: map<string, seq<string>>,
                        selection: seq<string>, quantities: seq<int>) returns (order: seq<OrderLine>)
    requires forall k :: 0 <= k < |selection| ==> selection[k] in PartIds(catalog)
    requires |quantities| == |selection|
    ensures |order| == |selection|
    ensures forall k :: 0 <= k < |selection| ==>
      order[k] == OrderLineFor(catalog, compatibility, selection[k], quantities[k])
    ensures (forall k :: 0 <= k < |quantities| ==> quantities[k] >= 1) ==>
      forall k :: 0 <= k < |order| ==> order[k].quantity >= 1
    ensures (forall i, j :: 0 <= i < j < |selection| ==> selection[i] != selection[j]) ==> UniqueIds(order)
  {
    order := [];
    var i := 0;
    while i < |selection|
      invariant 0 <= i <= |selection|
      invariant |order| == i
      invariant forall k :: 0 <= k < i ==> order[k] == OrderLineFor(catalog, compatibility, selection[k], quantities[k])
    {
      var partNum := selection[i];
      var partRow := FirstWithId(catalog, partNum);
      var models := if partNum in compatibility then compatibility[partNum] else [partRow.modelName];
      order := order + [OrderLine(partNum, partRow.partName, Join(models, ", "), quantities[i])];
      i := i + 1;
    }
  }

  /** What one run of the page shows. */
  datatype Page = Page(
    noMatchesWarning: bool,     // "No matches found. Please refine your search."
    shown: seq<PartRow>,        // the de-duplicated, sorted, capped rows
    labels: seq<string>,        // their dropdown labels
    selection: seq<string>,     // the multiselect's value
    order: seq<OrderLine>)      // the order lines of step 2

  /** The state Streamlit keeps across runs of the script. */
  class WebSession {
    var previousSelection: seq<string>

    /** `st.session_state.setdefault("previous_selection", [])` on a fresh
        session. */
    constructor ()
      ensures previousSelection == []
    {
      previousSelection := [];
    }

    /** The part-selection block: with an empty filter box there is no
        selection and the stored one is left alone; otherwise the user's
        choice among the options is the selection and is stored. */
    method SelectParts(options: seq<string>, searchTerm: string, chosen: seq<string>) returns (selection: seq<string>)
      requires forall k :: 0 <= k < |chosen| ==> chosen[k] in options
      modifies this
      ensures searchTerm == "" ==> selection == [] && previousSelection == old(previousSelection)
      ensures searchTerm != "" ==> selection == chosen && previousSelection == chosen
      ensures forall k :: 0 <= k < |selection| ==> selection[k] in options
    {
      selection := [];
      if searchTerm != "" {
        selection := chosen;
        previousSelection := selection;
      }
    }

    /** One run of the script for the given inputs. `chosen` is what the
        multiselect returns (distinct values drawn from its options) and
        `quantities` what the number inputs hold; the catalog's index is the
        one loaded at start-up. */
    method Rerun(catalog: seq<PartRow>, compatibility: map<string, seq<string>>,
                 modelNumber: string, modelName: string, searchTerm: string, showCompat: bool,
                 chosen: seq<string>, quantities: seq<int>) returns (page: Page)
      requires compatibility == WebCompatibility(catalog)
      requires forall k :: 0 <= k < |chosen| ==>
        chosen[k] in PartOptions(Shown(catalog, modelNumber, modelName, searchTerm))
      requires forall i, j :: 0 <= i < j < |chosen| ==> chosen[i] != chosen[j]
      requires |quantities| == |chosen| && forall k :: 0 <= k < |quantities| ==> quantities[k] >= 1
      modifies this
      ensures var matches := WebResolve(catalog, modelNumber, modelName);
        && (page.noMatchesWarning <==> matches == [] && (modelNumber != "" || modelName != ""))
        && (matches == [] ==> page.shown == [] && page.selection == [] && page.order == []
                              && previousSelection == old(previousSelection))
        && (matches != [] ==> page.shown == Shown(catalog, modelNumber, modelName, searchTerm))
      ensures |page.labels| == |page.shown|
      ensures forall k :: 0 <= k < |page.shown| ==> page.labels[k] == MakeLabel(page.shown[k], compatibility, showCompat)
      ensures searchTerm == "" ==> page.selection == [] && previousSelection == old(previousSelection)
      ensures WebResolve(catalog, modelNumber, modelName) != [] && searchTerm != "" ==>
        page.selection == chosen && previousSelection == chosen
      ensures |page.order| == |page.selection| && UniqueIds(page.order)
      ensures forall k :: 0 <= k < |page.order| ==>
        page.order[k].partId == page.selection[k] && page.order[k].quantity >= 1
      ensures forall k :: 0 <= k < |page.selection| ==> page.selection[k] in PartIds(catalog)
      ensures forall k :: 0 <= k < |page.order| ==>
        page.order[k] == OrderLineFor(catalog, compatibility, page.selection[k], quantities[k])
    {
      var matches := WebResolve(catalog, modelNumber, modelName);
      if matches == [] {
        return Page(modelNumber != "" || modelName != "", [], [], [], []);
      }
      var shown := DedupSortCap(FilterRows(matches, searchTerm));
      var labels := seq(|shown|, k requires 0 <= k < |shown| => MakeLabel(shown[k], compatibility, showCompat));
      var selection := SelectParts(PartOptions(shown), searchTerm, chosen);
      var order: seq<OrderLine> := [];
      if selection != [] {
        forall k | 0 <= k < |selection| ensures selection[k] in PartIds(catalog) {
          ShownInCatalog(catalog, modelNumber, modelName, searchTerm, selection[k]);
        }
        order := BuildOrderList(catalog, compatibility, selection, quantities);
      }
      page := Page(false, shown, labels, selection, order);
    }
  }

  /** Every option the dropdown offers is a part of the catalog. */
  lemma ShownInCatalog(catalog: seq<PartRow>, modelNumber: string, modelName: string, searchTerm: string, id: string)
    requires id in PartOptions(Shown(catalog, modelNumber, modelName, searchTerm))
    ensures id in PartIds(catalog)
  {
    var matches := WebResolve(catalog, modelNumber, modelName);
    var filtered := FilterRows(matches, searchTerm);
    var shown := Shown(catalog, modelNumber, modelName, searchTerm);
    var k :| 0 <= k < |shown| && PartOptions(shown)[k] == id;
    DedupSortCapCorrect(filtered);
    assert shown[k] in filtered;
    FilterRowsExact(matches, searchTerm);
    SubsequenceElements(filtered, matches);
    WebResolveSubsequence(catalog, modelNumber, modelName);
    SubsequenceElements(matches, catalog);
    assert shown[k] in catalog;
  }

  /** The "no matches" warning tells the truth: it appears only when a query
      was given and no catalog row satisfies the active mode's rule. */
  lemma NoMatchesWarningSound(catalog: seq<PartRow>, modelNumber: string, modelName: string)
    requires WebResolve(catalog, modelNumber, modelName) == []
    requires modelNumber != "" || modelName != ""
    ensures modelNumber != "" ==> forall r :: r in catalog ==> !NumberMatch(modelNumber, r)
    ensures modelNumber == "" ==> forall r :: r in catalog && NameMatch(Lower(modelName), r) ==>
      !Contains(Lower(modelName), "ne") && IsNeVariant(r)
  {
    if modelNumber != "" {
      WebNumberMode(catalog, modelNumber, modelName);
    } else {
      WebNameMode(catalog, modelNumber, modelName);
    }
  }
}
