/** The search resolver and the keyword filter predicate that both versions of
    the picker share. A search selects catalog rows by model number (a
    case-insensitive substring match) or, failing that, by model name (a
    lower-case substring match followed by the "NE" exclusion rule). */
module Search {
  import opened Text
  import opened Seqs
  import opened Catalog

  /** The text the desktop model-name box shows before the user types. */
  const Placeholder := "-- or search model name --"

  /** The row's model number contains `query`, ignoring ASCII case. */
  predicate NumberMatch(query: string, row: PartRow) {
    Contains(Lower(row.modelNumber), Lower(query))
  }

  /** The row's lower-cased model name contains `query` (already lower-cased
      by the caller). */
  predicate NameMatch(query: string, row: PartRow) {
    Contains(Lower(row.modelName), query)
  }

  /** The row belongs to an "NE" sub-line: its upper-cased model name has the
      block `" NE"`. */
  predicate IsNeVariant(row: PartRow) {
    Contains(Upper(row.modelName), " NE")
  }

  /** Model-number mode. */
  function ByModelNumber(rows: seq<PartRow>, query: string): seq<PartRow> {
    Filter(rows, r => NumberMatch(query, r))
  }

  /** Model-name mode: name matches, then the "NE" exclusion unless the query
      itself contains `"ne"`. */
  function ByModelName(rows: seq<PartRow>, query: string): seq<PartRow> {
    var matches := Filter(rows, r => NameMatch(query, r));
    if Contains(query, "ne") then matches else Filter(matches, r => !IsNeVariant(r))
  }

  /** Model-number mode selects exactly the rows whose model number contains
      the query case-insensitively, in catalog order and with their
      multiplicity; the "NE" rule plays no part. */
  lemma ByModelNumberExact(rows: seq<PartRow>, query: string)
    ensures forall r :: r in ByModelNumber(rows, query) <==> r in rows && NumberMatch(query, r)
    ensures IsSubsequence(ByModelNumber(rows, query), rows)
    ensures forall x :: multiset(ByModelNumber(rows, query))[x] ==
                        (if NumberMatch(query, x) then multiset(rows)[x] else 0)
  {
    var p := r => NumberMatch(query, r);
    FilterIsSubsequence(rows, p);
    forall x ensures multiset(ByModelNumber(rows, query))[x] == if p(x) then multiset(rows)[x] else 0 {
      FilterCount(rows, p, x);
    }
    forall r | r in rows && NumberMatch(query, r) ensures r in ByModelNumber(rows, query) {
      var i :| 0 <= i < |rows| && rows[i] == r;
      assert p(rows[i]);
    }
    forall r | r in ByModelNumber(rows, query) ensures r in rows && NumberMatch(query, r) {
      var i :| 0 <= i < |ByModelNumber(rows, query)| && ByModelNumber(rows, query)[i] == r;
    }
  }

  /** Model-name mode keeps each row that passes the name rule and the "NE"
      rule as often as the input holds it, and no other row. */
  lemma ByModelNameCount(rows: seq<PartRow>, query: string, x: PartRow)
    ensures multiset(ByModelName(rows, query))[x] ==
            (if NameMatch(query, x) && (Contains(query, "ne") || !IsNeVariant(x))
             then multiset(rows)[x] else 0)
  {
    var p := r => NameMatch(query, r);
    var q := r => !IsNeVariant(r);
    FilterCount(rows, p, x);
    FilterCount(Filter(rows, p), q, x);
  }

  /** Model-name mode keeps catalog order; every match's lower-cased model
      name contains the query; when the query lacks `"ne"` no match is an "NE"
      variant; every row meeting those conditions is a match, and it is kept
      as often as the catalog holds it. */
  lemma ByModelNameExact(rows: seq<PartRow>, query: string)
    ensures IsSubsequence(ByModelName(rows, query), rows)
    ensures forall r :: r in ByModelName(rows, query) ==> r in rows && NameMatch(query, r)
    ensures !Contains(query, "ne") ==> forall r :: r in ByModelName(rows, query) ==> !IsNeVariant(r)
    ensures forall r :: r in rows && NameMatch(query, r) && (Contains(query, "ne") || !IsNeVariant(r)) ==>
      r in ByModelName(rows, query)
    ensures forall x :: multiset(ByModelName(rows, query))[x] ==
                        (if NameMatch(query, x) && (Contains(query, "ne") || !IsNeVariant(x))
                         then multiset(rows)[x] else 0)
  {
    var p := r => NameMatch(query, r);
    var q := r => !IsNeVariant(r);
    var matches := Filter(rows, p);
    var res := ByModelName(rows, query);
    FilterIsSubsequence(rows, p);
    FilterIsSubsequence(matches, q);
    if !Contains(query, "ne") {
      SubsequenceTrans(res, matches, rows);
    }
    forall x ensures (x in res <==> x in rows && NameMatch(query, x) && (Contains(query, "ne") || !IsNeVariant(x)))
                     && multiset(res)[x] == (if NameMatch(query, x) && (Contains(query, "ne") || !IsNeVariant(x))
                                             then multiset(rows)[x] else 0)
    {
      ByModelNameCount(rows, query, x);
      assert x in res <==> x in multiset(res);
      assert x in rows <==> x in multiset(rows);
    }
  }

  /** Outcome of a desktop search: no usable query, or the resolved rows. */
  datatype Resolution = NoQuery | Resolved(matches: seq<PartRow>)

  /** The desktop resolver: both fields are stripped, the name also lower-cased;
      a non-blank model number wins; a name equal to the placeholder counts as
      no query. */
  function DesktopResolve(catalog: seq<PartRow>, numberEntry: string, nameEntry: string): Resolution {
    var number := Strip(numberEntry);
    var name := Lower(Strip(nameEntry));
    if number != "" then Resolved(ByModelNumber(catalog, number))
    else if name != "" && name != Placeholder then Resolved(ByModelName(catalog, name))
    else NoQuery
  }

  /** The desktop search reports no query exactly when the model-number field
      is blank and the stripped, lower-cased name is empty or the
      placeholder. */
  lemma DesktopNoQuery(catalog: seq<PartRow>, numberEntry: string, nameEntry: string)
    ensures DesktopResolve(catalog, numberEntry, nameEntry).NoQuery? <==>
      AllSpace(numberEntry) && (Lower(Strip(nameEntry)) == "" || Lower(Strip(nameEntry)) == Placeholder)
  {
    StripEmpty(numberEntry);
  }

  /** A non-blank model number takes precedence, whatever the name field
      holds: the matches are exactly the catalog rows whose model number
      contains the stripped query case-insensitively, in catalog order. */
  lemma DesktopNumberMode(catalog: seq<PartRow>, numberEntry: string, nameEntry: string)
    requires !AllSpace(numberEntry)
    ensures DesktopResolve(catalog, numberEntry, nameEntry).Resolved?
    ensures var m := DesktopResolve(catalog, numberEntry, nameEntry).matches;
      && IsSubsequence(m, catalog)
      && (forall r :: r in m <==> r in catalog && NumberMatch(Strip(numberEntry), r))
      && (forall x :: multiset(m)[x] == if NumberMatch(Strip(numberEntry), x) then multiset(catalog)[x] else 0)
  {
    StripEmpty(numberEntry);
    ByModelNumberExact(catalog, Strip(numberEntry));
  }

  /** With a blank model number and a real name query `q` (stripped and
      lower-cased), every match's lower-cased model name contains `q`, no
      match is an "NE" variant unless `q` contains `"ne"`, every such catalog
      row is matched, and catalog order is kept. */
  lemma DesktopNameMode(catalog: seq<PartRow>, numberEntry: string, nameEntry: string)
    requires AllSpace(numberEntry)
    requires Lower(Strip(nameEntry)) != "" && Lower(Strip(nameEntry)) != Placeholder
    ensures DesktopResolve(catalog, numberEntry, nameEntry).Resolved?
    ensures var q := Lower(Strip(nameEntry));
      var m := DesktopResolve(catalog, numberEntry, nameEntry).matches;
      && IsSubsequence(m, catalog)
      && (forall r :: r in m ==> r in catalog && NameMatch(q, r))
      && (!Contains(q, "ne") ==> forall r :: r in m ==> !IsNeVariant(r))
      && (forall r :: r in catalog && NameMatch(q, r) && (Contains(q, "ne") || !IsNeVariant(r)) ==> r in m)
      && (forall x :: multiset(m)[x] ==
            if NameMatch(q, x) && (Contains(q, "ne") || !IsNeVariant(x)) then multiset(catalog)[x] else 0)
  {
    StripEmpty(numberEntry);
    ByModelNameExact(catalog, Lower(Strip(nameEntry)));
  }

  /** Every resolved desktop search is a subsequence of the catalog. */
  lemma DesktopResolveSubsequence(catalog: seq<PartRow>, numberEntry: string, nameEntry: string)
    requires DesktopResolve(catalog, numberEntry, nameEntry).Resolved?
    ensures IsSubsequence(DesktopResolve(catalog, numberEntry, nameEntry).matches, catalog)
  {
    if Strip(numberEntry) != "" {
      ByModelNumberExact(catalog, Strip(numberEntry));
    } else {
      ByModelNameExact(catalog, Lower(Strip(nameEntry)));
    }
  }

  /** The web resolver: the raw fields, a non-empty model number winning; with
      neither field filled in the result is the empty frame. */
  function WebResolve(catalog: seq<PartRow>, modelNumber: string, modelName: string): seq<PartRow> {
    if modelNumber != "" then ByModelNumber(catalog, modelNumber)
    else if modelName != "" then ByModelName(catalog, Lower(modelName))
    else []
  }

  /** A non-empty model number takes precedence: the result is exactly the
      catalog rows whose model number contains it case-insensitively, in
      catalog order, with no "NE" exclusion. */
  lemma WebNumberMode(catalog: seq<PartRow>, modelNumber: string, modelName: string)
    requires modelNumber != ""
    ensures var m := WebResolve(catalog, modelNumber, modelName);
      && IsSubsequence(m, catalog)
      && (forall r :: r in m <==> r in catalog && NumberMatch(modelNumber, r))
      && (forall x :: multiset(m)[x] == if NumberMatch(modelNumber, x) then multiset(catalog)[x] else 0)
  {
    ByModelNumberExact(catalog, modelNumber);
  }

  /** Name mode lower-cases both sides and drops "NE" variants unless the
      lower-cased query contains `"ne"`; catalog order is kept. */
  lemma WebNameMode(catalog: seq<PartRow>, modelNumber: string, modelName: string)
    requires modelNumber == "" && modelName != ""
    ensures var q := Lower(modelName);
      var m := WebResolve(catalog, modelNumber, modelName);
      && IsSubsequence(m, catalog)
      && (forall r :: r in m ==> r in catalog && NameMatch(q, r))
      && (!Contains(q, "ne") ==> forall r :: r in m ==> !IsNeVariant(r))
      && (forall r :: r in catalog && NameMatch(q, r) && (Contains(q, "ne") || !IsNeVariant(r)) ==> r in m)
      && (forall x :: multiset(m)[x] ==
            if NameMatch(q, x) && (Contains(q, "ne") || !IsNeVariant(x)) then multiset(catalog)[x] else 0)
  {
    ByModelNameExact(catalog, Lower(modelName));
  }

  /** A web search returns catalog rows in catalog order. */
  lemma WebResolveSubsequence(catalog: seq<PartRow>, modelNumber: string, modelName: string)
    ensures IsSubsequence(WebResolve(catalog, modelNumber, modelName), catalog)
  {
    if modelNumber != "" {
      ByModelNumberExact(catalog, modelNumber);
    } else if modelName != "" {
      ByModelNameExact(catalog, Lower(modelName));
    }
  }

  /** Both versions apply the same rules: on input without surrounding
      whitespace that is not the placeholder, the desktop search resolves to
      exactly the web search's rows. */
  lemma SameSearchRules(catalog: seq<PartRow>, modelNumber: string, modelName: string)
    requires Strip(modelNumber) == modelNumber && Strip(modelName) == modelName
    requires modelNumber != "" || (modelName != "" && Lower(modelName) != Placeholder)
    ensures DesktopResolve(catalog, modelNumber, modelName) == Resolved(WebResolve(catalog, modelNumber, modelName))
  {
    if modelNumber == "" && modelName != "" {
      assert Lower(modelName) != "";
    }
  }

  /** The keyword filter predicate: every keyword occurs in `text` (an AND of
      substrings; no keywords at all means every text matches). */
  predicate KeywordsMatch(keywords: seq<string>, text: string) {
    forall k :: k in keywords ==> Contains(text, k)
  }
}
