/** What the data extractor makes of the loaded records: the plain-text
    export of the adjusted scores, the chart datasets (the highest-scoring
    points of each visible query, their highlighting and colours) and the
    tooltip label that is written for a point and split again for display. */
module Scores {
  import opened Wrappers
  import opened Text
  import opened OrderedMap
  import opened Queries
  import Seqs

  // ---------------------------------------------------------------------------
  // Rendering values as text
  // ---------------------------------------------------------------------------

  /** A number as JavaScript shows it: an integral value in plain decimal,
      any other value as `showReal` renders it. */
  function NumberText(x: real, showReal: real -> string): string
  {
    if x.Floor as real == x then IntToString(x.Floor) else showReal(x)
  }

  /** A property value as `join` renders it: `undefined` as the empty string. */
  function JoinText(c: Option<Cell>, showReal: real -> string): string
  {
    match c
    case None => ""
    case Some(Str(s)) => s
    case Some(Num(x)) => NumberText(x, showReal)
  }

  /** A property value as a template literal renders it: `undefined` as
      `"undefined"`. */
  function TemplateText(c: Option<Cell>, showReal: real -> string): string
  {
    match c
    case None => "undefined"
    case Some(Str(s)) => s
    case Some(Num(x)) => NumberText(x, showReal)
  }

  // ---------------------------------------------------------------------------
  // exportScores
  // ---------------------------------------------------------------------------

  /** `score !== 'N/A'` for `item.adjustedScore`. */
  predicate HasScore(r: Record)
  {
    r.Get("adjustedScore") != Some(NA)
  }

  /** The rendered adjusted scores of the records that have one, in order. */
  function ScoreTexts(records: seq<Record>, showReal: real -> string): (ts: seq<string>)
    ensures |ts| == |Seqs.Filter(records, HasScore)|
  {
    var scored := Seqs.Filter(records, HasScore);
    seq(|scored|, i requires 0 <= i < |scored| => JoinText(scored[i].Get("adjustedScore"), showReal))
  }

  /** The records ordered by part, then their scores joined with `", "`;
      `partOf` is `parseInt(item.part, 10)`. */
  function ScoresLine(results: seq<Record>, partOf: Record -> int, showReal: real -> string): string
  {
    Join(ScoreTexts(Seqs.SortBy(results, partOf), showReal), ", ")
  }

  /** One query's block of the export. */
  function Block(q: Query, partOf: Record -> int, showReal: real -> string): string
  {
    q.query + ":\n" + ScoresLine(q.results, partOf, showReal) + "\n\n"
  }

  function Blocks(qs: seq<Query>, partOf: Record -> int, showReal: real -> string): (bs: seq<string>)
    ensures |bs| == |qs|
  {
    seq(|qs|, i requires 0 <= i < |qs| => Block(qs[i], partOf, showReal))
  }

  /** The text `exportScores` downloads. */
  function ExportScores(queries: seq<Query>, subsets: seq<Query>, partOf: Record -> int, showReal: real -> string): string
  {
    Concat(Blocks(queries + subsets, partOf, showReal))
  }

  /** The export is the blocks of the main queries followed by those of the
      subset queries. */
  lemma ExportScoresSpec(queries: seq<Query>, subsets: seq<Query>, partOf: Record -> int, showReal: real -> string)
    ensures ExportScores(queries, subsets, partOf, showReal)
         == Concat(Blocks(queries, partOf, showReal)) + Concat(Blocks(subsets, partOf, showReal))
  {
    assert Blocks(queries + subsets, partOf, showReal) == Blocks(queries, partOf, showReal) + Blocks(subsets, partOf, showReal);
    ConcatAppend(Blocks(queries, partOf, showReal), Blocks(subsets, partOf, showReal));
  }

  /** Each block starts with its query and `":\n"` and ends with `"\n\n"`, and
      the blocks appear one after another in list order. */
  lemma BlocksSpec(qs: seq<Query>, partOf: Record -> int, showReal: real -> string)
    ensures |qs| == 0 ==> Concat(Blocks(qs, partOf, showReal)) == ""
    ensures |qs| > 0 ==>
      Concat(Blocks(qs, partOf, showReal)) == Block(qs[0], partOf, showReal) + Concat(Blocks(qs[1..], partOf, showReal))
    ensures forall i :: 0 <= i < |qs| ==>
      StartsWith(Blocks(qs, partOf, showReal)[i], qs[i].query + ":\n")
      && EndsWith(Blocks(qs, partOf, showReal)[i], "\n\n")
  {
    if |qs| > 0 {
      assert Blocks(qs, partOf, showReal)[1..] == Blocks(qs[1..], partOf, showReal);
    }
    forall i | 0 <= i < |qs|
      ensures StartsWith(Blocks(qs, partOf, showReal)[i], qs[i].query + ":\n")
      ensures EndsWith(Blocks(qs, partOf, showReal)[i], "\n\n")
    {
      BlockShape(qs[i], partOf, showReal);
    }
  }

  lemma BlockShape(q: Query, partOf: Record -> int, showReal: real -> string)
    ensures StartsWith(Block(q, partOf, showReal), q.query + ":\n")
    ensures EndsWith(Block(q, partOf, showReal), "\n\n")
  {
    var head, line := q.query + ":\n", ScoresLine(q.results, partOf, showReal);
    Seqs.AppendParts(head, line + "\n\n");
    Seqs.Assoc(head, line, "\n\n");
    Seqs.AppendParts(head + line, "\n\n");
  }

  /** The scores listed are exactly those of the records whose adjusted score
      is not `'N/A'` (as a multiset), ordered by ascending part; records with
      the same part keep their order. */
  lemma ScoresOrder(results: seq<Record>, partOf: Record -> int, k: int)
    ensures multiset(Seqs.Filter(Seqs.SortBy(results, partOf), HasScore)) == multiset(Seqs.Filter(results, HasScore))
    ensures Seqs.SortedBy(Seqs.Filter(Seqs.SortBy(results, partOf), HasScore), partOf)
    ensures Seqs.WithKey(Seqs.Filter(Seqs.SortBy(results, partOf), HasScore), partOf, k)
         == Seqs.WithKey(Seqs.Filter(results, HasScore), partOf, k)
  {
    var sorted := Seqs.SortBy(results, partOf);
    Seqs.FilterSortBy(results, partOf, HasScore);
    Seqs.FilterSorted(sorted, HasScore, partOf);
    Seqs.FilterWithKey(sorted, HasScore, partOf, k);
    Seqs.FilterWithKey(results, HasScore, partOf, k);
    Seqs.SortByStable(results, partOf, k);
  }

  /** For any ordering `s` of the scored records by ascending part in which
      records with the same part keep their original order, the score line
      lists the score of each record of `s`, in that order, joined with
      `", "`. */
  lemma ScoresLineSpec(results: seq<Record>, partOf: Record -> int, showReal: real -> string, s: seq<Record>)
    requires Seqs.SortedBy(s, partOf)
    requires forall k :: Seqs.WithKey(s, partOf, k) == Seqs.WithKey(Seqs.Filter(results, HasScore), partOf, k)
    ensures forall i :: 0 <= i < |s| ==> HasScore(s[i])
    ensures |ScoreTexts(s, showReal)| == |s|
    ensures forall i :: 0 <= i < |s| ==> ScoreTexts(s, showReal)[i] == JoinText(s[i].Get("adjustedScore"), showReal)
    ensures ScoresLine(results, partOf, showReal) == Join(ScoreTexts(s, showReal), ", ")
  {
    var f := Seqs.Filter(Seqs.SortBy(results, partOf), HasScore);
    forall k ensures Seqs.WithKey(f, partOf, k) == Seqs.WithKey(s, partOf, k) {
      ScoresOrder(results, partOf, k);
    }
    ScoresOrder(results, partOf, 0);
    Seqs.SortedUnique(f, s, partOf);
    forall i | 0 <= i < |s| ensures HasScore(s[i]) {
      Seqs.FilterHas(Seqs.SortBy(results, partOf), HasScore, s[i]);
    }
    Seqs.FilterAll(s, HasScore);
  }

  // ---------------------------------------------------------------------------
  // chartData: point selection
  // ---------------------------------------------------------------------------

  /** A chart point: `x` is the part, `y` the adjusted score (both integers). */
  datatype Point = Point(x: int, y: int, aititle: Option<Cell>, certainty: Cell)

  /** The point of one record; `partOf` is `parseInt(item.part, 10)` and
      `scoreOf` is `parseFloat(item.adjustedScore)`. */
  function ToPoint(r: Record, partOf: Record -> int, scoreOf: Record -> int): Point
  {
    var c := r.Get("certainty");
    Point(partOf(r), scoreOf(r), r.Get("aititle"), if c.Some? && Truthy(c.value) then c.value else NA)
  }

  function Points(results: seq<Record>, partOf: Record -> int, scoreOf: Record -> int): (ps: seq<Point>)
    ensures |ps| == |results|
  {
    seq(|results|, i requires 0 <= i < |results| => ToPoint(results[i], partOf, scoreOf))
  }

  function ByX(p: Point): int
  {
    p.x
  }

  /** The key of `(a, b) => b.y - a.y`: highest score first. */
  function ByScoreDesc(p: Point): int
  {
    -p.y
  }

  /** Where `slice(0, limit)` ends on `n` elements; a `limit` that is `NaN`
      (`None`) ends it at 0. */
  function SliceEnd(n: nat, limit: Option<int>): (m: nat)
    ensures m <= n
  {
    match limit
    case None => 0
    case Some(l) => if l >= 0 then (if l < n then l else n) else (if n + l > 0 then n + l else 0)
  }

  /** `.sort((a, b) => b.y - a.y).slice(0, pointLimit).sort((a, b) => a.x - b.x)`. */
  function Select(points: seq<Point>, limit: Option<int>): seq<Point>
  {
    var byScore := Seqs.SortBy(points, ByScoreDesc);
    Seqs.SortBy(byScore[..SliceEnd(|points|, limit)], ByX)
  }

  /** The selection keeps `min(limit, n)` points for a non-negative limit,
      sorted by ascending x and all drawn from the input. */
  lemma SelectSpec(points: seq<Point>, limit: Option<int>)
    ensures limit.Some? && limit.value >= 0 ==>
      |Select(points, limit)| == if limit.value < |points| then limit.value else |points|
    ensures |Select(points, limit)| == SliceEnd(|points|, limit)
    ensures Seqs.SortedBy(Select(points, limit), ByX)
    ensures multiset(Select(points, limit)) <= multiset(points)
  {
    var t := Seqs.SortBy(points, ByScoreDesc);
    var m := SliceEnd(|points|, limit);
    Seqs.AppendParts(t[..m], t[m..]);
    assert t == t[..m] + t[m..];
  }

  /** No point the selection drops scores higher than a point it keeps. */
  lemma SelectTop(points: seq<Point>, limit: Option<int>)
    ensures forall p, q :: p in Select(points, limit) && q in multiset(points) - multiset(Select(points, limit)) ==> q.y <= p.y
  {
    var t := Seqs.SortBy(points, ByScoreDesc);
    var m := SliceEnd(|points|, limit);
    var kept, dropped := t[..m], t[m..];
    var r := Select(points, limit);
    Seqs.AppendParts(kept, dropped);
    assert t == kept + dropped;
    assert multiset(points) == multiset(kept) + multiset(dropped);
    Seqs.SortedSplit(t, ByScoreDesc, m);
    forall p, q | p in r && q in multiset(points) - multiset(r) ensures q.y <= p.y {
      assert p in multiset(r);
      assert p in kept;
      assert q in dropped;
    }
  }

  // ---------------------------------------------------------------------------
  // chartData: highlighting and colours
  // ---------------------------------------------------------------------------

  /** `Math.max(...ys)`; `None` stands for the `-Infinity` of an empty dataset,
      which no score equals. */
  function MaxScore(ps: seq<Point>): Option<int>
    decreases |ps|
  {
    if |ps| == 0 then None
    else
      match MaxScore(ps[1..])
      case None => Some(ps[0].y)
      case Some(m) => Some(if ps[0].y > m then ps[0].y else m)
  }

  lemma {:induction false} MaxScoreSpec(ps: seq<Point>)
    ensures MaxScore(ps).None? <==> |ps| == 0
    ensures MaxScore(ps).Some? ==>
      (exists i :: 0 <= i < |ps| && ps[i].y == MaxScore(ps).value)
      && forall i :: 0 <= i < |ps| ==> ps[i].y <= MaxScore(ps).value
    decreases |ps|
  {
    if |ps| > 0 {
      var rest := ps[1..];
      MaxScoreSpec(rest);
      assert forall i :: 1 <= i < |ps| ==> ps[i] == rest[i - 1];
      if MaxScore(rest).Some? {
        var i :| 0 <= i < |rest| && rest[i].y == MaxScore(rest).value;
        assert ps[i + 1] == rest[i];
      }
    }
  }

  /** How one point is drawn. */
  datatype Style = Style(radius: nat, hoverRadius: nat, borderColor: string, borderWidth: nat)

  /** The per-point arrays of a dataset (and the element callbacks, which
      compute the same from the dataset's data): the peak is drawn large
      with a white border. */
  function PointStyle(p: Point, maxScore: Option<int>, color: string): Style
  {
    if maxScore == Some(p.y) then Style(8, 10, "white", 4) else Style(2, 4, color, 0)
  }

  datatype Dataset = Dataset(name: string, data: seq<Point>, color: string, styles: seq<Style>, secondary: bool)

  const LineColors: seq<string> := ["#7242F9", "#06B6D4", "#EC4899", "#41B768", "#F97316"]

  const SubsetLineColors: seq<string> := [
    "rgba(169,169,169,0.5)", "rgba(176,176,176,0.5)", "rgba(184,184,184,0.5)",
    "rgba(192,192,192,0.5)", "rgba(200,200,200,0.5)", "rgba(208,208,208,0.5)"
  ]

  /** The per-point style arrays of a dataset. */
  function Styles(data: seq<Point>, color: string): (ss: seq<Style>)
    ensures |ss| == |data|
  {
    var maxScore := MaxScore(data);
    seq(|data|, i requires 0 <= i < |data| => PointStyle(data[i], maxScore, color))
  }

  /** A point is drawn as the peak exactly when no point of its dataset scores
      higher, and then as no other point is; so a dataset with points has a
      peak. */
  lemma StylesSpec(data: seq<Point>, color: string)
    ensures forall i :: 0 <= i < |data| ==>
      Styles(data, color)[i]
      == if forall j :: 0 <= j < |data| ==> data[j].y <= data[i].y
         then Style(8, 10, "white", 4) else Style(2, 4, color, 0)
    ensures |data| > 0 ==> exists i :: 0 <= i < |data| && Styles(data, color)[i].radius == 8
  {
    MaxScoreSpec(data);
    if |data| > 0 {
      var i :| 0 <= i < |data| && data[i].y == MaxScore(data).value;
      assert Styles(data, color)[i].radius == 8;
    }
  }

  /** The dataset of the `index`-th visible query of a list. */
  function DatasetFor(q: Query, index: nat, colors: seq<string>, secondary: bool, limit: Option<int>,
                      partOf: Record -> int, scoreOf: Record -> int): Dataset
    requires |colors| > 0
  {
    var data := Select(Points(q.results, partOf, scoreOf), limit);
    var color := colors[index % |colors|];
    Dataset(q.query, data, color, Styles(data, color), secondary)
  }

  predicate IsVisible(q: Query)
  {
    q.visible
  }

  function Datasets(qs: seq<Query>, colors: seq<string>, secondary: bool, limit: Option<int>,
                    partOf: Record -> int, scoreOf: Record -> int): (ds: seq<Dataset>)
    requires |colors| > 0
    ensures |ds| == |Seqs.Filter(qs, IsVisible)|
  {
    var shown := Seqs.Filter(qs, IsVisible);
    seq(|shown|, i requires 0 <= i < |shown| => DatasetFor(shown[i], i, colors, secondary, limit, partOf, scoreOf))
  }

  /** `chartData.datasets`. */
  function ChartData(queries: seq<Query>, subsets: seq<Query>, limit: Option<int>,
                     partOf: Record -> int, scoreOf: Record -> int): (cd: seq<Dataset>)
    ensures |cd| == |Seqs.Filter(queries, IsVisible)| + |Seqs.Filter(subsets, IsVisible)|
  {
    Datasets(queries, LineColors, false, limit, partOf, scoreOf)
      + Datasets(subsets, SubsetLineColors, true, limit, partOf, scoreOf)
  }

  /** The `i`-th dataset belongs to the `i`-th visible query: its name is that
      query's text, its colour cycles through `colors` by `i`, and its points
      are that query's selected points. */
  ghost predicate DatasetOf(d: Dataset, q: Query, i: nat, colors: seq<string>, secondary: bool, limit: Option<int>,
                            partOf: Record -> int, scoreOf: Record -> int)
    requires |colors| > 0
  {
    && q.visible
    && d.name == q.query
    && d.color == colors[i % |colors|]
    && d.secondary == secondary
    && d.data == Select(Points(q.results, partOf, scoreOf), limit)
    && d.styles == Styles(d.data, d.color)
  }

  /** The datasets of a list are those of its visible queries, in list order,
      the `i`-th coloured `colors[i % |colors|]`. */
  lemma DatasetsSpec(qs: seq<Query>, colors: seq<string>, secondary: bool, limit: Option<int>,
                     partOf: Record -> int, scoreOf: Record -> int)
    requires |colors| > 0
    ensures forall q :: q in Seqs.Filter(qs, IsVisible) ==> q.visible
    ensures forall i :: 0 <= i < |Seqs.Filter(qs, IsVisible)| ==>
      DatasetOf(Datasets(qs, colors, secondary, limit, partOf, scoreOf)[i], Seqs.Filter(qs, IsVisible)[i],
                i, colors, secondary, limit, partOf, scoreOf)
    ensures forall q :: q in Seqs.Filter(qs, IsVisible) <==> q in qs && q.visible
  {
    forall q ensures q in Seqs.Filter(qs, IsVisible) <==> q in qs && q.visible {
      Seqs.FilterHas(qs, IsVisible, q);
    }
    var shown := Seqs.Filter(qs, IsVisible);
    forall i | 0 <= i < |shown| ensures shown[i].visible {
      assert shown[i] in shown;
    }
  }

  /** The first datasets of the chart: the `k`-th belongs to the `k`-th
      visible main query and is coloured `lineColors[k % 5]`. */
  lemma ChartDataMain(queries: seq<Query>, subsets: seq<Query>, limit: Option<int>,
                      partOf: Record -> int, scoreOf: Record -> int)
    ensures |ChartData(queries, subsets, limit, partOf, scoreOf)|
         == |Seqs.Filter(queries, IsVisible)| + |Seqs.Filter(subsets, IsVisible)|
    ensures forall k :: 0 <= k < |Seqs.Filter(queries, IsVisible)| ==>
      DatasetOf(ChartData(queries, subsets, limit, partOf, scoreOf)[k], Seqs.Filter(queries, IsVisible)[k],
                k, LineColors, false, limit, partOf, scoreOf)
  {
    var main := Datasets(queries, LineColors, false, limit, partOf, scoreOf);
    var sub := Datasets(subsets, SubsetLineColors, true, limit, partOf, scoreOf);
    DatasetsSpec(queries, LineColors, false, limit, partOf, scoreOf);
    forall k | 0 <= k < |main| ensures (main + sub)[k] == main[k] {
      Seqs.AppendAt(main, sub, k);
    }
  }

  /** From position `n` on, the `k`-th dataset of `ds` belongs to the
      `k - n`-th visible subset query, is drawn as a secondary line and is
      coloured `subsetLineColors[(k - n) % 6]`. */
  ghost predicate SubsetsPlaced(ds: seq<Dataset>, n: nat, subsets: seq<Query>, limit: Option<int>,
                                partOf: Record -> int, scoreOf: Record -> int)
  {
    forall k :: n <= k < |ds| ==>
      k - n < |Seqs.Filter(subsets, IsVisible)|
      && DatasetOf(ds[k], Seqs.Filter(subsets, IsVisible)[k - n], k - n, SubsetLineColors, true, limit, partOf, scoreOf)
  }

  /** The datasets after those of the main queries are those of the visible
      subset queries, in order. */
  lemma ChartDataSubsets(queries: seq<Query>, subsets: seq<Query>, limit: Option<int>,
                         partOf: Record -> int, scoreOf: Record -> int)
    ensures SubsetsPlaced(ChartData(queries, subsets, limit, partOf, scoreOf), |Seqs.Filter(queries, IsVisible)|,
                          subsets, limit, partOf, scoreOf)
  {
    var main := Datasets(queries, LineColors, false, limit, partOf, scoreOf);
    var sub := Datasets(subsets, SubsetLineColors, true, limit, partOf, scoreOf);
    assert (main + sub)[|main|..] == sub;
    PlaceSubsets(ChartData(queries, subsets, limit, partOf, scoreOf), |Seqs.Filter(queries, IsVisible)|,
                 subsets, limit, partOf, scoreOf);
  }

  /** Datasets that end with those of the subset queries, from position `n` on. */
  lemma PlaceSubsets(ds: seq<Dataset>, n: nat, subsets: seq<Query>, limit: Option<int>,
                     partOf: Record -> int, scoreOf: Record -> int)
    requires n <= |ds| && ds[n..] == Datasets(subsets, SubsetLineColors, true, limit, partOf, scoreOf)
    ensures SubsetsPlaced(ds, n, subsets, limit, partOf, scoreOf)
  {
    DatasetsSpec(subsets, SubsetLineColors, true, limit, partOf, scoreOf);
    forall k | n <= k < |ds|
      ensures k - n < |Seqs.Filter(subsets, IsVisible)|
      ensures DatasetOf(ds[k], Seqs.Filter(subsets, IsVisible)[k - n], k - n, SubsetLineColors, true, limit, partOf, scoreOf)
    {
      assert ds[k] == ds[n..][k - n];
    }
  }

  // ---------------------------------------------------------------------------
  // Tooltip label
  // ---------------------------------------------------------------------------

  /** The tooltip label callback: `Part ${x} | ${aititle} | ${y.toFixed(0)}`
      (for an integer `y`, `toFixed(0)` is its decimal form). */
  function Label(p: Point, showReal: real -> string): string
  {
    "Part " + IntToString(p.x) + " | " + TemplateText(p.aititle, showReal) + " | " + IntToString(p.y)
  }

  datatype TooltipParts = TooltipParts(partNumber: string, aititle: string, score: string)

  /** The custom tooltip's reading of a body line: split on `'|'` and trim the
      first three pieces; with fewer than three pieces `parts[i].trim()` throws
      (`None`). */
  function SplitLabel(body: string): Option<TooltipParts>
  {
    var parts := Split(body, '|');
    if |parts| < 3 then None
    else Some(TooltipParts(Trim(parts[0]), Trim(parts[1]), Trim(parts[2])))
  }

  lemma NoBarInNumber(i: int)
    ensures '|' !in IntToString(i) && ' ' !in IntToString(i)
  {
    var s := IntToString(i);
    forall k | 0 <= k < |s| ensures s[k] != '|' && s[k] != ' ' {
    }
  }

  lemma JoinThree(a: string, b: string, c: string, sep: char)
    ensures Join([a, b, c], [sep]) == a + [sep] + b + [sep] + c
  {
    assert [a, b, c][1..] == [b, c];
    assert [b, c][1..] == [c];
    assert Join([b, c], [sep]) == b + [sep] + c;
  }

  /** Splitting the label of a point whose title has no `'|'` and no
      surrounding white space gives back `"Part x"`, the title and the score. */
  lemma LabelRoundTrip(p: Point, showReal: real -> string)
    requires '|' !in TemplateText(p.aititle, showReal)
    requires Trimmed(TemplateText(p.aititle, showReal))
    ensures SplitLabel(Label(p, showReal))
         == Some(TooltipParts("Part " + IntToString(p.x), TemplateText(p.aititle, showReal), IntToString(p.y)))
  {
    var x, t, y := IntToString(p.x), TemplateText(p.aititle, showReal), IntToString(p.y);
    NoBarInNumber(p.x);
    NoBarInNumber(p.y);
    LabelPieces(x, t, y);
    TrimLabelPieces(x, t, y);
  }

  /** The label splits on `'|'` into its three padded pieces. */
  lemma LabelPieces(x: string, t: string, y: string)
    requires '|' !in x && '|' !in t && '|' !in y
    ensures Split("Part " + x + " | " + t + " | " + y, '|') == ["Part " + x + " ", " " + t + " ", " " + y]
  {
    var a, b, c := "Part " + x + " ", " " + t + " ", " " + y;
    assert '|' !in a && '|' !in b && '|' !in c by {
      NotInConcat("Part ", x, '|');
      NotInConcat("Part " + x, " ", '|');
      NotInConcat(" ", t, '|');
      NotInConcat(" " + t, " ", '|');
      NotInConcat(" ", y, '|');
    }
    LabelAsJoin(x, t, y);
    SplitJoin([a, b, c], '|');
  }

  lemma LabelAsJoin(x: string, t: string, y: string)
    ensures "Part " + x + " | " + t + " | " + y == Join(["Part " + x + " ", " " + t + " ", " " + y], "|")
  {
    var a, b, c := "Part " + x + " ", " " + t + " ", " " + y;
    JoinThree(a, b, c, '|');
    assert "Part " + x + " | " + t + " | " + y == a + "|" + b + "|" + c;
  }

  /** Trimming the pieces drops exactly the padding around them. */
  lemma TrimLabelPieces(x: string, t: string, y: string)
    requires |x| > 0 && Trimmed(x) && Trimmed(t) && Trimmed(y)
    ensures Trim("Part " + x + " ") == "Part " + x
    ensures Trim(" " + t + " ") == t
    ensures Trim(" " + y) == y
  {
    assert "Part " + x + " " == "" + ("Part " + x) + " ";
    assert ("Part " + x)[|"Part " + x| - 1] == x[|x| - 1];
    TrimPadded("", "Part " + x, " ");
    TrimPadded(" ", t, " ");
    assert " " + y == " " + y + "";
    TrimPadded(" ", y, "");
  }
}
