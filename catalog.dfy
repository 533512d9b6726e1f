/** The spare-parts catalog and the compatibility index derived from it.
    A catalog row says that part `partId` fits the appliance model
    `modelNumber` / `modelName`; one part id appears once per model it fits. */
module Catalog {
  import opened Text

  /** One row of the parts table (columns `Part #`, `Part Name`,
      `Model number`, `Model Name`). */
  datatype PartRow = PartRow(partId: string, partName: string, modelNumber: string, modelName: string)

  /** One line of an order (columns `Part #`, `Part Name`, `Model Name`,
      `Quantity`). */
  datatype OrderLine = OrderLine(partId: string, partName: string, modelName: string, quantity: int)

  function PartIds(rows: seq<PartRow>): set<string> {
    set r | r in rows :: r.partId
  }

  lemma PartIdsCons(h: PartRow, t: seq<PartRow>)
    ensures PartIds([h] + t) == {h.partId} + PartIds(t)
  {
    forall id | id in PartIds([h] + t) ensures id in {h.partId} + PartIds(t) {
      var w :| w in [h] + t && w.partId == id;
      if w != h { assert w in t; }
    }
    forall id | id in PartIds(t) ensures id in PartIds([h] + t) {
      var w :| w in t && w.partId == id;
      assert w in [h] + t;
    }
  }

  lemma PartIdsSplit(s: seq<PartRow>)
    requires s != []
    ensures PartIds(s) == {s[0].partId} + PartIds(s[1..])
  {
    assert s == [s[0]] + s[1..];
    PartIdsCons(s[0], s[1..]);
  }

  /** The text both versions show for a part, `"id | name"`. */
  function PartLabel(row: PartRow): string {
    row.partId + " | " + row.partName
  }

  /** At most one order line per part id. */
  predicate UniqueIds(lines: seq<OrderLine>) {
    forall i, j :: 0 <= i < j < |lines| ==> lines[i].partId != lines[j].partId
  }

  function LineIds(lines: seq<OrderLine>): set<string> {
    set l | l in lines :: l.partId
  }

  /** Some row says that part `id` fits the model called `name`. */
  predicate FitsModel(rows: seq<PartRow>, id: string, name: string) {
    exists r :: r in rows && r.partId == id && r.modelName == name
  }

  /** The `Model Name` column of the rows whose `Part #` is `id`, in row order
      (the group that `groupby("Part #")` gathers for `id`). */
  function ModelNamesOf(rows: seq<PartRow>, id: string): seq<string>
    decreases |rows|
  {
    if rows == [] then []
    else (if rows[0].partId == id then [rows[0].modelName] else []) + ModelNamesOf(rows[1..], id)
  }

  lemma {:induction false} ModelNamesOfFits(rows: seq<PartRow>, id: string, name: string)
    ensures name in ModelNamesOf(rows, id) <==> FitsModel(rows, id, name)
    decreases |rows|
  {
    if rows != [] {
      ModelNamesOfFits(rows[1..], id, name);
      if FitsModel(rows, id, name) && !(rows[0].partId == id && rows[0].modelName == name) {
        var r :| r in rows && r.partId == id && r.modelName == name;
        assert r in rows[1..];
      }
    }
  }

  /** Strictly increasing in Python's string order: sorted and duplicate-free. */
  predicate StrictlySorted(s: seq<string>) {
    forall i, j :: 0 <= i < j < |s| ==> LexLe(s[i], s[j]) && s[i] != s[j]
  }

  /** Adds `x` to a strictly sorted list unless it is already there. */
  function InsertDistinct(x: string, s: seq<string>): seq<string>
    decreases |s|
  {
    if s == [] then [x]
    else if x == s[0] then s
    else if LexLe(x, s[0]) then [x] + s
    else [s[0]] + InsertDistinct(x, s[1..])
  }

  /** `sorted(set(names))`. */
  function SortedDistinct(names: seq<string>): seq<string>
    decreases |names|
  {
    if names == [] then [] else InsertDistinct(names[0], SortedDistinct(names[1..]))
  }

  /** A string below the head of a strictly sorted list is below all of it. */
  lemma BelowHead(x: string, s: seq<string>)
    requires StrictlySorted(s) && s != [] && LexLe(x, s[0]) && x != s[0]
    ensures forall j :: 0 <= j < |s| ==> LexLe(x, s[j]) && x != s[j]
  {
    forall j | 0 <= j < |s| ensures LexLe(x, s[j]) && x != s[j] {
      if j > 0 {
        LexLeTrans(x, s[0], s[j]);
        if x == s[j] { LexLeAntisym(s[0], s[j]); }
      }
    }
  }

  lemma {:induction false} InsertDistinctCorrect(x: string, s: seq<string>)
    requires StrictlySorted(s)
    ensures StrictlySorted(InsertDistinct(x, s))
    ensures forall y :: y in InsertDistinct(x, s) <==> y == x || y in s
    decreases |s|
  {
    if s == [] {
    } else if x == s[0] {
    } else if LexLe(x, s[0]) {
      BelowHead(x, s);
    } else {
      var t := s[1..];
      InsertDistinctCorrect(x, t);
      var r := InsertDistinct(x, t);
      LexLeTotal(x, s[0]);
      forall j | 0 <= j < |r| ensures LexLe(s[0], r[j]) && s[0] != r[j] {
        if r[j] != x {
          assert r[j] in t;
          var k :| 0 <= k < |t| && t[k] == r[j];
          assert s[k + 1] == r[j];
        }
      }
    }
  }

  /** `sorted(set(names))` is strictly sorted and holds exactly the names. */
  lemma {:induction false} SortedDistinctCorrect(names: seq<string>)
    ensures StrictlySorted(SortedDistinct(names))
    ensures forall y :: y in SortedDistinct(names) <==> y in names
    decreases |names|
  {
    if names != [] {
      SortedDistinctCorrect(names[1..]);
      InsertDistinctCorrect(names[0], SortedDistinct(names[1..]));
      assert names == [names[0]] + names[1..];
    }
  }

  /** A set of strings has only one strictly sorted listing. */
  lemma {:induction false} StrictlySortedUnique(a: seq<string>, b: seq<string>)
    requires StrictlySorted(a) && StrictlySorted(b)
    requires forall y :: y in a <==> y in b
    ensures a == b
    decreases |a|
  {
    if a != [] { assert a[0] in b; }
    if b != [] { assert b[0] in a; }
    if a != [] && b != [] {
      // Both heads are the least element, so they coincide.
      assert b[0] in a;
      assert a[0] in b;
      var i :| 0 <= i < |a| && a[i] == b[0];
      var j :| 0 <= j < |b| && b[j] == a[0];
      if a[0] != b[0] {
        assert i > 0 && j > 0;
        LexLeAntisym(a[0], b[0]);
      }
      forall y ensures y in a[1..] <==> y in b[1..] {
        if y in a[1..] {
          var k :| 0 <= k < |a[1..]| && a[1..][k] == y;
          assert a[k + 1] == y && y != a[0];
          assert y in a;
          var m :| 0 <= m < |b| && b[m] == y;
          assert m > 0 && b[1..][m - 1] == y;
        }
        if y in b[1..] {
          var k :| 0 <= k < |b[1..]| && b[1..][k] == y;
          assert b[k + 1] == y && y != b[0];
          assert y in b;
          var m :| 0 <= m < |a| && a[m] == y;
          assert m > 0 && a[1..][m - 1] == y;
        }
      }
      StrictlySortedUnique(a[1..], b[1..]);
      assert a == [a[0]] + a[1..];
      assert b == [b[0]] + b[1..];
    }
  }

  /** The compatible models of part `id`: its distinct model names, sorted. */
  function CompatibleModels(rows: seq<PartRow>, id: string): seq<string> {
    SortedDistinct(ModelNamesOf(rows, id))
  }

  /** The web version's index: part id to the sorted list of the distinct
      models it fits. */
  function WebCompatibility(rows: seq<PartRow>): map<string, seq<string>> {
    map id | id in PartIds(rows) :: CompatibleModels(rows, id)
  }

  /** The desktop version's index: the same lists, joined with `", "`. */
  function DesktopCompatibility(rows: seq<PartRow>): map<string, string> {
    map id | id in PartIds(rows) :: Join(CompatibleModels(rows, id), ", ")
  }

  lemma CompatibleModelsCorrect(rows: seq<PartRow>, id: string)
    ensures StrictlySorted(CompatibleModels(rows, id))
    ensures forall n :: n in CompatibleModels(rows, id) <==> FitsModel(rows, id, n)
  {
    SortedDistinctCorrect(ModelNamesOf(rows, id));
    forall n ensures n in CompatibleModels(rows, id) <==> FitsModel(rows, id, n) {
      ModelNamesOfFits(rows, id, n);
    }
  }

  /** The web index has an entry exactly for the catalog's part ids, and each
      entry is a non-empty, sorted, duplicate-free list of precisely the models
      the part's rows name. */
  lemma WebCompatibilityIndex(rows: seq<PartRow>, id: string)
    ensures id in WebCompatibility(rows) <==> id in PartIds(rows)
    ensures id in WebCompatibility(rows) ==>
      && StrictlySorted(WebCompatibility(rows)[id])
      && WebCompatibility(rows)[id] != []
      && forall n :: n in WebCompatibility(rows)[id] <==> FitsModel(rows, id, n)
  {
    CompatibleModelsCorrect(rows, id);
    if id in PartIds(rows) {
      var r :| r in rows && r.partId == id;
      assert FitsModel(rows, id, r.modelName);
      assert r.modelName in WebCompatibility(rows)[id];
    }
  }

  /** Any strictly sorted listing of a part's models IS its web index entry. */
  lemma WebCompatibilityDetermined(rows: seq<PartRow>, id: string, models: seq<string>)
    requires id in PartIds(rows)
    requires StrictlySorted(models)
    requires forall n :: n in models <==> FitsModel(rows, id, n)
    ensures id in WebCompatibility(rows) && WebCompatibility(rows)[id] == models
  {
    CompatibleModelsCorrect(rows, id);
    StrictlySortedUnique(CompatibleModels(rows, id), models);
  }

  /** The desktop index maps each part id to the `", "`-join of the sorted,
      duplicate-free names of the models it fits, and has no other keys. */
  lemma DesktopCompatibilityIndex(rows: seq<PartRow>, id: string, models: seq<string>)
    requires StrictlySorted(models)
    requires forall n :: n in models <==> FitsModel(rows, id, n)
    ensures id in DesktopCompatibility(rows) <==> id in PartIds(rows)
    ensures id in PartIds(rows) ==> DesktopCompatibility(rows)[id] == Join(models, ", ")
  {
    if id in PartIds(rows) {
      WebCompatibilityDetermined(rows, id, models);
    }
  }

  /** Position of the first row of part `id` (`|rows|` when there is none). */
  function FirstIndexOf(rows: seq<PartRow>, id: string): (k: nat)
    ensures k <= |rows|
    ensures k < |rows| ==> rows[k].partId == id
    ensures forall j :: 0 <= j < k ==> rows[j].partId != id
    decreases |rows|
  {
    if rows == [] then 0
    else if rows[0].partId == id then 0
    else 1 + FirstIndexOf(rows[1..], id)
  }

  /** `df[df["Part #"] == id].iloc[0]`: the first row of part `id`. */
  function FirstWithId(rows: seq<PartRow>, id: string): (r: PartRow)
    requires id in PartIds(rows)
    ensures r in rows && r.partId == id
  {
    FirstIndexFound(rows, id);
    rows[FirstIndexOf(rows, id)]
  }

  lemma FirstIndexFound(rows: seq<PartRow>, id: string)
    requires id in PartIds(rows)
    ensures FirstIndexOf(rows, id) < |rows|
  {
    var w :| w in rows && w.partId == id;
    var i :| 0 <= i < |rows| && rows[i] == w;
  }
}
