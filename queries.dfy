/** The data extractor's query lists: the list operations behind its buttons
    and inputs, the merge of the mandatory fields into the field selection,
    and the sequential load that fills each query's results with one record
    per fetched item. */
module Queries {
  import opened Wrappers
  import opened Text
  import opened OrderedMap
  import Seqs

  // ---------------------------------------------------------------------------
  // Values and queries
  // ---------------------------------------------------------------------------

  /** A field value of a fetched item or of an extracted record: a string or a
      number (JSON numbers are modelled as reals). */
  datatype Cell = Str(s: string) | Num(x: real)

  /** The placeholder `'N/A'`. */
  const NA := Str("N/A")

  /** JavaScript truthiness of a field value. */
  predicate Truthy(c: Cell)
  {
    match c
    case Str(s) => s != ""
    case Num(x) => x != 0.0
  }

  /** One extracted record: a plain object from field name to value. */
  type Record = Dict<Cell>

  /** The main list uses numeric ids (`1`, `Date.now()`), the subset list
      string ids (`'subset1'`, `` `subset${Date.now()}` ``). A number is never
      `===` a string. */
  datatype Id = NumId(n: int) | StrId(s: string)

  datatype Query = Query(id: Id, query: string, results: seq<Record>, visible: bool)

  ghost predicate DistinctIds(qs: seq<Query>)
  {
    forall i, j :: 0 <= i < j < |qs| ==> qs[i].id != qs[j].id
  }

  const InitialQueries: seq<Query> :=
    [Query(NumId(1), "how to raise kids with a heart for the lord", [], true)]

  const InitialSubsetQueries: seq<Query> := [
    Query(StrId("subset1"), "How can we understand the meaning of a passage and apply it to our lives in a meaningful way?", [], true),
    Query(StrId("subset2"), "Why is rest important in our busy lives, and how can we find moments of stillness amidst chaos?", [], true),
    Query(StrId("subset3"), "How can parents engage children in spiritual discussions and encourage them to apply biblical teachings in their lives?", [], true),
    Query(StrId("subset4"), "How can communication be improved within families, especially during high-pressure situations, to enhance relationships?", [], true),
    Query(StrId("subset5"), "How can parents nurture faith in their children and create intentional moments for spiritual growth and connection?", [], true),
    Query(StrId("subset6"), "How can we ensure accountability and transparency in our relationships, especially when it comes to discipling children and fostering genuine connections?", [], true)
  ]

  /** The lists the page starts with: every query is visible and has no
      results yet, the ids within each list are distinct, and no id is in
      both lists. */
  lemma InitialQueriesSpec()
    ensures DistinctIds(InitialQueries) && DistinctIds(InitialSubsetQueries)
    ensures forall i :: 0 <= i < |InitialQueries| ==> InitialQueries[i].visible && InitialQueries[i].results == []
    ensures forall i :: 0 <= i < |InitialSubsetQueries| ==>
      InitialSubsetQueries[i].visible && InitialSubsetQueries[i].results == []
    ensures forall i, j :: 0 <= i < |InitialQueries| && 0 <= j < |InitialSubsetQueries| ==>
      InitialQueries[i].id != InitialSubsetQueries[j].id
  {
    InitialSubsetIds();
    forall i, j | 0 <= i < j < |InitialSubsetQueries|
      ensures InitialSubsetQueries[i].id != InitialSubsetQueries[j].id
    {
      assert InitialSubsetQueries[i].id.s[6] != InitialSubsetQueries[j].id.s[6];
    }
  }

  /** The subset ids are the strings `subset1` to `subset6`. */
  lemma InitialSubsetIds()
    ensures forall i :: 0 <= i < |InitialSubsetQueries| ==>
      InitialSubsetQueries[i].id == StrId("subset" + IntToString(i + 1))
  {
    forall i | 0 <= i < |InitialSubsetQueries|
      ensures InitialSubsetQueries[i].id == StrId("subset" + IntToString(i + 1))
    {
      assert IntToString(i + 1) == [DigitChar(i + 1)];
    }
  }

  // ---------------------------------------------------------------------------
  // Query-list operations
  // ---------------------------------------------------------------------------

  /** `[...qs, { id, query: '', results: [], visible: true }]`. */
  function Append(qs: seq<Query>, id: Id): seq<Query>
  {
    qs + [Query(id, "", [], true)]
  }

  /** `addQuery`, with `Date.now()` passed in as `now`. */
  function AddQuery(qs: seq<Query>, now: int): seq<Query>
  {
    Append(qs, NumId(now))
  }

  /** `addSubsetQuery`, with `Date.now()` passed in as `now`. */
  function AddSubsetQuery(qs: seq<Query>, now: int): seq<Query>
  {
    Append(qs, StrId("subset" + IntToString(now)))
  }

  /** Adding keeps every entry and appends one blank, visible query; a fresh id
      keeps the ids distinct. */
  lemma AddQuerySpec(qs: seq<Query>, now: int)
    ensures |AddQuery(qs, now)| == |qs| + 1 && AddQuery(qs, now)[..|qs|] == qs
    ensures AddQuery(qs, now)[|qs|] == Query(NumId(now), "", [], true)
    ensures DistinctIds(qs) && (forall q :: q in qs ==> q.id != NumId(now)) ==> DistinctIds(AddQuery(qs, now))
  {
    assert AddQuery(qs, now)[..|qs|] == qs;
  }

  lemma AddSubsetQuerySpec(qs: seq<Query>, now: int)
    ensures |AddSubsetQuery(qs, now)| == |qs| + 1 && AddSubsetQuery(qs, now)[..|qs|] == qs
    ensures AddSubsetQuery(qs, now)[|qs|].id.StrId? && StartsWith(AddSubsetQuery(qs, now)[|qs|].id.s, "subset")
    ensures AddSubsetQuery(qs, now)[|qs|].query == "" && AddSubsetQuery(qs, now)[|qs|].results == []
    ensures AddSubsetQuery(qs, now)[|qs|].visible
  {
    var r := AddSubsetQuery(qs, now);
    assert r[..|qs|] == qs;
    assert r[|qs|].id.s[..6] == "subset";
  }

  /** `qs.map(q => q.id === id ? change(q) : q)`. */
  function Where(qs: seq<Query>, id: Id, change: Query -> Query): (r: seq<Query>)
    ensures |r| == |qs|
  {
    seq(|qs|, i requires 0 <= i < |qs| => if qs[i].id == id then change(qs[i]) else qs[i])
  }

  /** `updateQuery` and `updateSubsetQuery`. */
  function UpdateQuery(qs: seq<Query>, id: Id, newQuery: string): seq<Query>
  {
    Where(qs, id, (q: Query) => q.(query := newQuery))
  }

  /** `toggleQueryVisibility` and `toggleSubsetQueryVisibility`. */
  function ToggleVisibility(qs: seq<Query>, id: Id): seq<Query>
  {
    Where(qs, id, (q: Query) => q.(visible := !q.visible))
  }

  /** The results assignment of the load: `{ ...q, results }` for the matching id. */
  function SetResults(qs: seq<Query>, id: Id, results: seq<Record>): seq<Query>
  {
    Where(qs, id, (q: Query) => q.(results := results))
  }

  /** Updating keeps the length, the order and every id; only entries with the
      id change, and of those only the query text. */
  lemma UpdateQuerySpec(qs: seq<Query>, id: Id, newQuery: string)
    ensures |UpdateQuery(qs, id, newQuery)| == |qs|
    ensures forall i :: 0 <= i < |qs| && qs[i].id != id ==> UpdateQuery(qs, id, newQuery)[i] == qs[i]
    ensures forall i :: 0 <= i < |qs| && qs[i].id == id ==>
      UpdateQuery(qs, id, newQuery)[i] == Query(id, newQuery, qs[i].results, qs[i].visible)
  {
  }

  /** A later update of the same id overrides an earlier one. */
  lemma UpdateQueryTwice(qs: seq<Query>, id: Id, a: string, b: string)
    ensures UpdateQuery(UpdateQuery(qs, id, a), id, b) == UpdateQuery(qs, id, b)
  {
    var lhs, rhs := UpdateQuery(UpdateQuery(qs, id, a), id, b), UpdateQuery(qs, id, b);
    assert forall i :: 0 <= i < |qs| ==> lhs[i] == rhs[i];
  }

  /** Toggling keeps the length, the order and every id; only entries with the
      id change, and of those only the visibility, which flips. */
  lemma ToggleVisibilitySpec(qs: seq<Query>, id: Id)
    ensures |ToggleVisibility(qs, id)| == |qs|
    ensures forall i :: 0 <= i < |qs| && qs[i].id != id ==> ToggleVisibility(qs, id)[i] == qs[i]
    ensures forall i :: 0 <= i < |qs| && qs[i].id == id ==>
      ToggleVisibility(qs, id)[i] == Query(id, qs[i].query, qs[i].results, !qs[i].visible)
  {
  }

  /** Toggling the same id twice restores the list. */
  lemma ToggleTwice(qs: seq<Query>, id: Id)
    ensures ToggleVisibility(ToggleVisibility(qs, id), id) == qs
  {
    var r := ToggleVisibility(ToggleVisibility(qs, id), id);
    assert forall i :: 0 <= i < |qs| ==> r[i] == qs[i];
  }

  /** An id that is not in the list leaves it unchanged. */
  lemma WhereAbsent(qs: seq<Query>, id: Id, change: Query -> Query)
    requires forall q :: q in qs ==> q.id != id
    ensures Where(qs, id, change) == qs
  {
    var r := Where(qs, id, change);
    assert forall i :: 0 <= i < |qs| ==> r[i] == qs[i] by {
      forall i | 0 <= i < |qs| ensures r[i] == qs[i] {
        assert qs[i] in qs;
      }
    }
  }

  // ---------------------------------------------------------------------------
  // Field selection
  // ---------------------------------------------------------------------------

  const MandatoryFields: seq<string> := ["_additional", "part", "aititle", "publisher"]

  const InitialFields: seq<string> := ["_additional", "part", "aititle"]

  /** `[...new Set([...mandatoryFields, ...prevFields])]`. */
  function MergeFields(prev: seq<string>): seq<string>
  {
    Seqs.Dedup(MandatoryFields + prev)
  }

  /** The merged list is the mandatory fields in order, then the previously
      selected fields that are not mandatory, first occurrences only; it has no
      duplicates and holds exactly the fields of either list. */
  lemma MergeFieldsSpec(prev: seq<string>)
    ensures MergeFields(prev) == MandatoryFields + Seqs.Dedup(Seqs.Without(prev, MandatoryFields))
    ensures Seqs.Distinct(MergeFields(prev))
    ensures forall f :: f in MergeFields(prev) <==> f in MandatoryFields || f in prev
  {
    Seqs.DedupAppend(MandatoryFields, prev);
    assert Seqs.Distinct(MandatoryFields);
    Seqs.DedupDistinct(MandatoryFields);
    Seqs.DedupIsDistinct(MandatoryFields + prev);
    forall f ensures f in MergeFields(prev) <==> f in MandatoryFields || f in prev {
      Seqs.DedupHas(MandatoryFields + prev, f);
    }
  }

  /** The initial selection merges to exactly the mandatory fields. */
  lemma InitialMerge()
    ensures MergeFields(InitialFields) == MandatoryFields
  {
    MergeFieldsSpec(InitialFields);
    var p1, p2 := InitialFields[..2], InitialFields[..1];
    assert p1[..1] == p2 && p2[..0] == [];
    assert Seqs.Without(p2, MandatoryFields) == [];
    assert Seqs.Without(p1, MandatoryFields) == [];
  }

  // ---------------------------------------------------------------------------
  // Extraction of one record
  // ---------------------------------------------------------------------------

  /** A fetched item: its own fields, and `_additional?.certainty` apart. */
  datatype Item = Item(fields: map<string, Cell>, certainty: Option<real>)

  /** `item[field] || 'N/A'`. */
  function FieldCell(item: Item, field: string): Cell
  {
    if field in item.fields && Truthy(item.fields[field]) then item.fields[field] else NA
  }

  predicate HasCertainty(item: Item)
  {
    item.certainty.Some? && item.certainty.value != 0.0
  }

  /** `item._additional?.certainty || 'N/A'`. */
  function CertaintyCell(item: Item): Cell
  {
    if HasCertainty(item) then Num(item.certainty.value) else NA
  }

  /** The normalised score, or `'N/A'` without a certainty; `normalize` is
      `normalizeScore` with the batch's certainty range fixed. */
  function ScoreCell(item: Item, normalize: real -> int): Cell
  {
    if HasCertainty(item) then Num(normalize(item.certainty.value) as real) else NA
  }

  /** The assignments the body of `selectedFields.forEach` makes for one field. */
  function FieldWrites(field: string, item: Item, normalize: real -> int): seq<(string, Cell)>
  {
    if field == "_additional" then [("certainty", CertaintyCell(item)), ("adjustedScore", ScoreCell(item, normalize))]
    else [(field, FieldCell(item, field))]
  }

  /** All assignments into `extracted`, in order. */
  function Writes(fields: seq<string>, item: Item, normalize: real -> int): seq<(string, Cell)>
    decreases |fields|
  {
    if |fields| == 0 then []
    else Writes(fields[..|fields| - 1], item, normalize) + FieldWrites(fields[|fields| - 1], item, normalize)
  }

  /** The record extracted from `item`. */
  function Extract(fields: seq<string>, item: Item, normalize: real -> int): Record
  {
    PutAll(Empty(), Writes(fields, item, normalize))
  }

  /** The selected fields with `'_additional'` replaced by `'certainty'` and
      `'adjustedScore'`. */
  function Expand(fields: seq<string>): seq<string>
    decreases |fields|
  {
    if |fields| == 0 then []
    else
      var f := fields[|fields| - 1];
      Expand(fields[..|fields| - 1]) + (if f == "_additional" then ["certainty", "adjustedScore"] else [f])
  }

  /** One more field adds its assignments to those of the fields before it. */
  lemma WritesStep(fields: seq<string>, i: nat, item: Item, normalize: real -> int)
    requires i < |fields|
    ensures PutAll(Empty(), Writes(fields[..i + 1], item, normalize))
         == (var d := PutAll(Empty(), Writes(fields[..i], item, normalize));
             if fields[i] == "_additional"
             then d.Put("certainty", CertaintyCell(item)).Put("adjustedScore", ScoreCell(item, normalize))
             else d.Put(fields[i], FieldCell(item, fields[i])))
  {
    assert fields[..i + 1][..i] == fields[..i];
    var a, b := Writes(fields[..i], item, normalize), FieldWrites(fields[i], item, normalize);
    PutAllAppend(Empty(), a, b);
    var d := PutAll(Empty(), a);
    if fields[i] == "_additional" {
      PutAllTwo(d, "certainty", CertaintyCell(item), "adjustedScore", ScoreCell(item, normalize));
    } else {
      PutAllOne(d, fields[i], FieldCell(item, fields[i]));
    }
  }

  /** The extraction loop over `selectedFields`. */
  method ExtractRecord(fields: seq<string>, item: Item, normalize: real -> int) returns (extracted: Record)
    ensures extracted == Extract(fields, item, normalize)
  {
    extracted := Empty();
    var i := 0;
    while i < |fields|
      invariant 0 <= i <= |fields|
      invariant extracted == PutAll(Empty(), Writes(fields[..i], item, normalize))
    {
      var field := fields[i];
      WritesStep(fields, i, item, normalize);
      if field == "_additional" {
        extracted := extracted.Put("certainty", CertaintyCell(item));
        extracted := extracted.Put("adjustedScore", ScoreCell(item, normalize));
      } else {
        extracted := extracted.Put(field, FieldCell(item, field));
      }
      i := i + 1;
    }
    assert fields[..|fields|] == fields;
  }

  lemma {:induction false} WritesKeys(fields: seq<string>, item: Item, normalize: real -> int)
    ensures KeysOf(Writes(fields, item, normalize)) == Expand(fields)
    decreases |fields|
  {
    if |fields| > 0 {
      var p := fields[..|fields| - 1];
      WritesKeys(p, item, normalize);
      var a, b := Writes(p, item, normalize), FieldWrites(fields[|fields| - 1], item, normalize);
      assert KeysOf(a + b) == KeysOf(a) + KeysOf(b);
    }
  }

  lemma {:induction false} ExpandHas(fields: seq<string>, k: string)
    ensures k in Expand(fields) <==>
      (k in fields && k != "_additional") || ((k == "certainty" || k == "adjustedScore") && "_additional" in fields)
    decreases |fields|
  {
    if |fields| > 0 {
      var p := fields[..|fields| - 1];
      ExpandHas(p, k);
      assert fields == p + [fields[|fields| - 1]];
    }
  }

  lemma {:induction false} ExpandDistinct(fields: seq<string>)
    requires Seqs.Distinct(fields)
    requires "certainty" !in fields && "adjustedScore" !in fields
    ensures Seqs.Distinct(Expand(fields))
    decreases |fields|
  {
    if |fields| > 0 {
      var p, f := fields[..|fields| - 1], fields[|fields| - 1];
      assert fields == p + [f];
      assert Seqs.Distinct(p);
      ExpandDistinct(p);
      var e := Expand(p);
      var b := if f == "_additional" then ["certainty", "adjustedScore"] else [f];
      assert Expand(fields) == e + b;
      forall k | k in e ensures (f == "_additional" ==> k != "certainty" && k != "adjustedScore") && (f != "_additional" ==> k != f) {
        ExpandHas(p, k);
      }
      Seqs.DistinctConcat(e, b);
    }
  }

  /** The keys of an extracted record are the selected fields, in selection
      order, with `'_additional'` replaced by `'certainty'` and
      `'adjustedScore'` (first occurrences only). For distinct selected fields
      none of which is itself `'certainty'` or `'adjustedScore'` (none of the
      offered fields is) there is nothing to drop. */
  lemma ExtractKeys(fields: seq<string>, item: Item, normalize: real -> int)
    ensures Extract(fields, item, normalize).keys == Seqs.Dedup(Expand(fields))
    ensures Seqs.Distinct(fields) && "certainty" !in fields && "adjustedScore" !in fields ==>
      Extract(fields, item, normalize).keys == Expand(fields)
  {
    PutAllKeys(Writes(fields, item, normalize));
    WritesKeys(fields, item, normalize);
    if Seqs.Distinct(fields) && "certainty" !in fields && "adjustedScore" !in fields {
      ExpandDistinct(fields);
      Seqs.DedupDistinct(Expand(fields));
    }
  }

  lemma {:induction false} LastField(fields: seq<string>, item: Item, normalize: real -> int, f: string)
    requires f != "_additional" && f != "certainty" && f != "adjustedScore"
    ensures Last(Writes(fields, item, normalize), f, None) == if f in fields then Some(FieldCell(item, f)) else None
    decreases |fields|
  {
    if |fields| > 0 {
      var p := fields[..|fields| - 1];
      LastField(p, item, normalize, f);
      LastAppend(Writes(p, item, normalize), FieldWrites(fields[|fields| - 1], item, normalize), f, None);
      assert fields == p + [fields[|fields| - 1]];
      var b := FieldWrites(fields[|fields| - 1], item, normalize);
      var x := Last(Writes(p, item, normalize), f, None);
      if fields[|fields| - 1] == "_additional" {
        assert b[..1][..0] == [];
        assert b[..1] == [("certainty", CertaintyCell(item))];
        assert Last(b[..1], f, x) == x;
        assert Last(b, f, x) == x;
        assert f in fields <==> f in p;
      }
    }
  }

  /** A selected field holds the item's value when that is truthy and `'N/A'`
      otherwise; an unselected field is absent. */
  lemma ExtractField(fields: seq<string>, item: Item, normalize: real -> int, f: string)
    requires f != "_additional" && f != "certainty" && f != "adjustedScore"
    ensures f !in fields ==> Extract(fields, item, normalize).Get(f) == None
    ensures f in fields && f in item.fields && Truthy(item.fields[f]) ==>
      Extract(fields, item, normalize).Get(f) == Some(item.fields[f])
    ensures f in fields && !(f in item.fields && Truthy(item.fields[f])) ==>
      Extract(fields, item, normalize).Get(f) == Some(NA)
  {
    PutAllGet(Empty(), Writes(fields, item, normalize), f);
    LastField(fields, item, normalize, f);
  }

  lemma {:induction false} LastAdditional(fields: seq<string>, item: Item, normalize: real -> int)
    requires "certainty" !in fields && "adjustedScore" !in fields
    ensures Last(Writes(fields, item, normalize), "certainty", None)
         == if "_additional" in fields then Some(CertaintyCell(item)) else None
    ensures Last(Writes(fields, item, normalize), "adjustedScore", None)
         == if "_additional" in fields then Some(ScoreCell(item, normalize)) else None
    decreases |fields|
  {
    if |fields| > 0 {
      var p := fields[..|fields| - 1];
      assert fields == p + [fields[|fields| - 1]];
      LastAdditional(p, item, normalize);
      var a, b := Writes(p, item, normalize), FieldWrites(fields[|fields| - 1], item, normalize);
      LastAppend(a, b, "certainty", None);
      LastAppend(a, b, "adjustedScore", None);
      if fields[|fields| - 1] == "_additional" {
        assert b[..1] == [("certainty", CertaintyCell(item))];
      }
    }
  }

  /** With `'_additional'` selected, `certainty` holds the item's certainty and
      `adjustedScore` its normalised score, both `'N/A'` when the certainty is
      missing or zero. */
  lemma ExtractAdditional(fields: seq<string>, item: Item, normalize: real -> int)
    requires "certainty" !in fields && "adjustedScore" !in fields
    ensures "_additional" !in fields ==>
      Extract(fields, item, normalize).Get("certainty") == None
      && Extract(fields, item, normalize).Get("adjustedScore") == None
    ensures "_additional" in fields && HasCertainty(item) ==>
      Extract(fields, item, normalize).Get("certainty") == Some(Num(item.certainty.value))
      && Extract(fields, item, normalize).Get("adjustedScore") == Some(Num(normalize(item.certainty.value) as real))
    ensures "_additional" in fields && !HasCertainty(item) ==>
      Extract(fields, item, normalize).Get("certainty") == Some(NA)
      && Extract(fields, item, normalize).Get("adjustedScore") == Some(NA)
  {
    PutAllGet(Empty(), Writes(fields, item, normalize), "certainty");
    PutAllGet(Empty(), Writes(fields, item, normalize), "adjustedScore");
    LastAdditional(fields, item, normalize);
  }

  // ---------------------------------------------------------------------------
  // The sequential load
  // ---------------------------------------------------------------------------

  /** The reply of one fetch: a failure with its error message (an HTTP error,
      a body that is not JSON, or one that is not an array), or the items. */
  datatype Fetched = Failed(message: string) | Items(data: seq<Item>)

  /** The score normalisation for one batch: it depends on the batch's
      certainties and, for the publisher filters, on one more request, which
      can fail. */
  datatype Scaling = ScaleFailed(message: string) | Scale(normalize: real -> int)

  datatype Loader = Loader(
    encode: string -> string,
    fetch: string -> Fetched,
    scale: (string, seq<Item>) -> Scaling)

  function LoadUrl(query: string, filename: string, encode: string -> string): string
  {
    "/all/" + encode(query) + "?field=filename&value=" + encode(filename)
  }

  /** One record per item, in order. */
  function ExtractAll(fields: seq<string>, data: seq<Item>, normalize: real -> int): (rs: seq<Record>)
    ensures |rs| == |data|
  {
    Seqs.Map(data, (it: Item) => Extract(fields, it, normalize))
  }

  /** The `k`-th record is the one extracted from the `k`-th item. */
  lemma ExtractAllAt(fields: seq<string>, data: seq<Item>, normalize: real -> int)
    ensures forall k :: 0 <= k < |data| ==> ExtractAll(fields, data, normalize)[k] == Extract(fields, data[k], normalize)
  {
    Seqs.MapAt(data, (it: Item) => Extract(fields, it, normalize));
  }

  datatype Loaded = LoadFailed(message: string) | Loaded(records: seq<Record>)

  /** What the body of the load loop computes for one query. */
  function LoadOne(q: Query, fields: seq<string>, filename: string, env: Loader): Loaded
  {
    match env.fetch(LoadUrl(q.query, filename, env.encode))
    case Failed(m) => LoadFailed(m)
    case Items(data) =>
      match env.scale(q.query, data)
      case ScaleFailed(m) => LoadFailed(m)
      case Scale(normalize) => Loaded(ExtractAll(fields, data, normalize))
  }

  /** Loading `todo` one query after another into `current`, stopping at the
      first failure with its message. */
  function LoadAll(current: seq<Query>, todo: seq<Query>, fields: seq<string>, filename: string, env: Loader): (r: (seq<Query>, Option<string>))
    ensures |r.0| == |current|
    decreases |todo|
  {
    if |todo| == 0 then (current, None)
    else
      match LoadOne(todo[0], fields, filename, env)
      case LoadFailed(m) => (current, Some(m))
      case Loaded(rs) => LoadAll(SetResults(current, todo[0].id, rs), todo[1..], fields, filename, env)
  }

  /** `loadQueriesSequentially`: the list it leaves behind and the error it
      reports, if any. */
  method LoadSequentially(queries: seq<Query>, fields: seq<string>, filename: string, env: Loader)
    returns (loaded: seq<Query>, error: Option<string>)
    ensures (loaded, error) == LoadAll(queries, queries, fields, filename, env)
  {
    loaded := queries;
    var i := 0;
    while i < |queries|
      invariant 0 <= i <= |queries|
      invariant LoadAll(loaded, queries[i..], fields, filename, env) == LoadAll(queries, queries, fields, filename, env)
    {
      var q := queries[i];
      LoadAllStep(loaded, queries, i, fields, filename, env);
      var fetched := env.fetch(LoadUrl(q.query, filename, env.encode));
      if fetched.Failed? {
        return loaded, Some(fetched.message);
      }
      var data := fetched.data;
      var scaling := env.scale(q.query, data);
      if scaling.ScaleFailed? {
        return loaded, Some(scaling.message);
      }
      var records := ExtractBatch(fields, data, scaling.normalize);
      loaded := SetResults(loaded, q.id, records);
      i := i + 1;
    }
    error := None;
  }

  /** One turn of the load loop. */
  lemma LoadAllStep(current: seq<Query>, queries: seq<Query>, i: nat, fields: seq<string>, filename: string, env: Loader)
    requires i < |queries|
    ensures LoadOne(queries[i], fields, filename, env).LoadFailed? ==>
      LoadAll(current, queries[i..], fields, filename, env)
      == (current, Some(LoadOne(queries[i], fields, filename, env).message))
    ensures LoadOne(queries[i], fields, filename, env).Loaded? ==>
      LoadAll(current, queries[i..], fields, filename, env)
      == LoadAll(SetResults(current, queries[i].id, LoadOne(queries[i], fields, filename, env).records),
                 queries[i + 1..], fields, filename, env)
  {
    assert queries[i..][0] == queries[i] && queries[i..][1..] == queries[i + 1..];
  }

  /** `data.map(item => { ... })`: one record per item, in order. */
  method ExtractBatch(fields: seq<string>, data: seq<Item>, normalize: real -> int) returns (records: seq<Record>)
    ensures records == ExtractAll(fields, data, normalize)
  {
    records := [];
    var j := 0;
    while j < |data|
      invariant 0 <= j <= |data|
      invariant records == ExtractAll(fields, data[..j], normalize)
    {
      var r := ExtractRecord(fields, data[j], normalize);
      assert data[..j + 1][..j] == data[..j];
      records := records + [r];
      j := j + 1;
    }
    assert data[..|data|] == data;
  }

  /** `handleSubmit`: the main queries load first, then the subset queries
      (even when the first load stopped); the error shown is the last one
      reported. */
  method HandleSubmit(queries: seq<Query>, subsets: seq<Query>, fields: seq<string>, filename: string, env: Loader)
    returns (queries': seq<Query>, subsets': seq<Query>, error: Option<string>)
    ensures (queries', LoadAll(queries, queries, fields, filename, env).1)
         == LoadAll(queries, queries, fields, filename, env)
    ensures (subsets', LoadAll(subsets, subsets, fields, filename, env).1)
         == LoadAll(subsets, subsets, fields, filename, env)
    ensures error == if LoadAll(subsets, subsets, fields, filename, env).1.Some?
                     then LoadAll(subsets, subsets, fields, filename, env).1
                     else LoadAll(queries, queries, fields, filename, env).1
  {
    var e1, e2;
    queries', e1 := LoadSequentially(queries, fields, filename, env);
    subsets', e2 := LoadSequentially(subsets, fields, filename, env);
    error := if e2.Some? then e2 else e1;
  }

  /** Loading changes nothing but results: the length, order, ids, query
      texts and visibility stay. */
  lemma {:induction false} LoadAllShape(current: seq<Query>, todo: seq<Query>, fields: seq<string>, filename: string, env: Loader)
    ensures forall i :: 0 <= i < |current| ==>
      LoadAll(current, todo, fields, filename, env).0[i].id == current[i].id
      && LoadAll(current, todo, fields, filename, env).0[i].query == current[i].query
      && LoadAll(current, todo, fields, filename, env).0[i].visible == current[i].visible
    decreases |todo|
  {
    if |todo| > 0 && LoadOne(todo[0], fields, filename, env).Loaded? {
      LoadAllShape(SetResults(current, todo[0].id, LoadOne(todo[0], fields, filename, env).records), todo[1..], fields, filename, env);
    }
  }

  /** The load reports no error exactly when every query loads; otherwise it
      reports the message of the first query that fails. */
  lemma LoadAllError(current: seq<Query>, todo: seq<Query>, fields: seq<string>, filename: string, env: Loader)
    ensures LoadAll(current, todo, fields, filename, env).1.None?
        <==> forall j :: 0 <= j < |todo| ==> LoadOne(todo[j], fields, filename, env).Loaded?
    ensures LoadAll(current, todo, fields, filename, env).1.Some? ==>
      exists j :: 0 <= j < |todo|
        && LoadOne(todo[j], fields, filename, env) == LoadFailed(LoadAll(current, todo, fields, filename, env).1.value)
        && forall i :: 0 <= i < j ==> LoadOne(todo[i], fields, filename, env).Loaded?
  {
    LoadAllNoError(current, todo, fields, filename, env);
    LoadAllFirstFailure(current, todo, fields, filename, env);
  }

  lemma {:induction false} LoadAllNoError(current: seq<Query>, todo: seq<Query>, fields: seq<string>, filename: string, env: Loader)
    ensures LoadAll(current, todo, fields, filename, env).1.None?
        <==> forall j :: 0 <= j < |todo| ==> LoadOne(todo[j], fields, filename, env).Loaded?
    decreases |todo|
  {
    if |todo| > 0 {
      var one := LoadOne(todo[0], fields, filename, env);
      if one.Loaded? {
        LoadAllNoError(SetResults(current, todo[0].id, one.records), todo[1..], fields, filename, env);
        assert forall j :: 1 <= j < |todo| ==> todo[j] == todo[1..][j - 1];
      }
    }
  }

  lemma {:induction false} LoadAllFirstFailure(current: seq<Query>, todo: seq<Query>, fields: seq<string>, filename: string, env: Loader)
    ensures LoadAll(current, todo, fields, filename, env).1.Some? ==>
      exists j :: 0 <= j < |todo|
        && LoadOne(todo[j], fields, filename, env) == LoadFailed(LoadAll(current, todo, fields, filename, env).1.value)
        && forall i :: 0 <= i < j ==> LoadOne(todo[i], fields, filename, env).Loaded?
    decreases |todo|
  {
    if |todo| > 0 {
      var one := LoadOne(todo[0], fields, filename, env);
      var r := LoadAll(current, todo, fields, filename, env);
      if one.Loaded? {
        var next := SetResults(current, todo[0].id, one.records);
        LoadAllFirstFailure(next, todo[1..], fields, filename, env);
        if r.1.Some? {
          assert r == LoadAll(next, todo[1..], fields, filename, env);
          var j :| 0 <= j < |todo[1..]|
            && LoadOne(todo[1..][j], fields, filename, env) == LoadFailed(r.1.value)
            && forall i :: 0 <= i < j ==> LoadOne(todo[1..][i], fields, filename, env).Loaded?;
          assert todo[j + 1] == todo[1..][j];
          assert forall i :: 1 <= i < j + 1 ==> todo[i] == todo[1..][i - 1];
        }
      } else {
        assert one == LoadFailed(r.1.value);
      }
    }
  }

  /** When every query loads and the ids are distinct, each entry of the list
      whose id is among the loaded queries holds that query's records, and
      every other entry keeps its results. */
  lemma {:induction false} LoadAllResults(current: seq<Query>, todo: seq<Query>, fields: seq<string>, filename: string, env: Loader)
    requires DistinctIds(todo)
    requires forall j :: 0 <= j < |todo| ==> LoadOne(todo[j], fields, filename, env).Loaded?
    ensures forall k, j :: 0 <= k < |current| && 0 <= j < |todo| && current[k].id == todo[j].id ==>
      LoadAll(current, todo, fields, filename, env).0[k].results == LoadOne(todo[j], fields, filename, env).records
    ensures forall k :: 0 <= k < |current| && (forall j :: 0 <= j < |todo| ==> current[k].id != todo[j].id) ==>
      LoadAll(current, todo, fields, filename, env).0[k].results == current[k].results
    decreases |todo|
  {
    LoadAllShape(current, todo, fields, filename, env);
    if |todo| > 0 {
      var rest := todo[1..];
      var recs := LoadOne(todo[0], fields, filename, env).records;
      var next := SetResults(current, todo[0].id, recs);
      assert forall j :: 1 <= j < |todo| ==> todo[j] == rest[j - 1];
      assert DistinctIds(rest);
      LoadAllResults(next, rest, fields, filename, env);
      var r := LoadAll(current, todo, fields, filename, env).0;
      assert r == LoadAll(next, rest, fields, filename, env).0;
      forall k, j | 0 <= k < |current| && 0 <= j < |todo| && current[k].id == todo[j].id
        ensures r[k].results == LoadOne(todo[j], fields, filename, env).records
      {
        if j == 0 {
          assert next[k].results == recs;
          forall j' | 0 <= j' < |rest| ensures next[k].id != rest[j'].id {
            assert rest[j'] == todo[j' + 1];
          }
        } else {
          assert rest[j - 1] == todo[j];
        }
      }
      forall k | 0 <= k < |current| && (forall j :: 0 <= j < |todo| ==> current[k].id != todo[j].id)
        ensures r[k].results == current[k].results
      {
        assert current[k].id != todo[0].id;
        forall j' | 0 <= j' < |rest| ensures next[k].id != rest[j'].id {
          assert rest[j'] == todo[j' + 1];
        }
      }
    }
  }
}
