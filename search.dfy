/** The search form of the research assistant (src/ApiInterface.js): the
    publisher filter, the search URL, the prompt templates, the shaping of the
    search hits into result cards, and the clamping of the numeric inputs. */
module Search {
  import opened Wrappers
  import opened Text
  import Seqs

  /** The publishers offered as filters; all of them are selected at first. */
  const Publishers: seq<string> := ["Christianity Today", "Ligonier Ministries", "The Good Book Co"]

  // ---------------------------------------------------------------------------
  // Publisher filter
  // ---------------------------------------------------------------------------

  /** Ticking or unticking publisher `p`: a selected publisher is removed
      (every occurrence of it), an unselected one is appended. */
  function TogglePublisher(selected: seq<string>, p: string): seq<string>
  {
    if p in selected then Seqs.RemoveAll(selected, p) else selected + [p]
  }

  /** Toggling flips the membership of `p` only, and the other publishers keep
      their relative order. */
  lemma TogglePublisherSpec(selected: seq<string>, p: string)
    ensures p in TogglePublisher(selected, p) <==> p !in selected
    ensures p !in selected ==> TogglePublisher(selected, p) == selected + [p]
    ensures p in selected ==> p !in TogglePublisher(selected, p)
    ensures Seqs.RemoveAll(TogglePublisher(selected, p), p) == Seqs.RemoveAll(selected, p)
    ensures forall q :: q != p ==> (q in TogglePublisher(selected, p) <==> q in selected)
  {
    var r := TogglePublisher(selected, p);
    if p in selected {
      Seqs.RemoveAllAbsent(r, p);
    } else {
      Seqs.RemoveAllAppend(selected, [p], p);
      assert Seqs.RemoveAll([p], p) == [];
    }
    forall q | q != p
      ensures q in r <==> q in selected
    {
      Seqs.RemoveAllHas(r, p, q);
      Seqs.RemoveAllHas(selected, p, q);
    }
  }

  /** Toggling an unselected publisher twice restores the selection; toggling a
      selected one twice moves it, once, to the end. */
  lemma TogglePublisherTwice(selected: seq<string>, p: string)
    ensures p !in selected ==> TogglePublisher(TogglePublisher(selected, p), p) == selected
    ensures p in selected ==>
      TogglePublisher(TogglePublisher(selected, p), p) == Seqs.RemoveAll(selected, p) + [p]
  {
    if p !in selected {
      assert p in selected + [p];
      Seqs.RemoveAllAppend(selected, [p], p);
      Seqs.RemoveAllAbsent(selected, p);
      assert Seqs.RemoveAll([p], p) == [];
    }
  }

  // ---------------------------------------------------------------------------
  // Search URL
  // ---------------------------------------------------------------------------

  /** One `&value=` parameter per selected publisher, in selection order. */
  function ValueParams(selected: seq<string>, encode: string -> string): string
    decreases |selected|
  {
    if |selected| == 0 then ""
    else ValueParams(selected[..|selected| - 1], encode) + "&value=" + encode(selected[|selected| - 1])
  }

  /** The search URL for `question` and the selected publishers. */
  function SearchUrl(question: string, selected: seq<string>, encode: string -> string): string
  {
    "/all/" + encode(question)
    + (if |selected| > 0 then "?field=publisher" + ValueParams(selected, encode) else "")
  }

  /** `constructUrl`: `encode` stands for `encodeURIComponent`. */
  method ConstructUrl(question: string, selected: seq<string>, encode: string -> string)
    returns (url: string)
    ensures url == SearchUrl(question, selected, encode)
  {
    url := "/all/" + encode(question);
    if |selected| > 0 {
      url := url + "?field=publisher";
      var i := 0;
      while i < |selected|
        invariant 0 <= i <= |selected|
        invariant url == "/all/" + encode(question) + "?field=publisher" + ValueParams(selected[..i], encode)
      {
        assert selected[..i + 1][..i] == selected[..i];
        url := url + "&value=" + encode(selected[i]);
        i := i + 1;
      }
      assert selected[..i] == selected;
    }
  }

  /** The query parameters the URL carries for the selected publishers. */
  function PublisherParams(selected: seq<string>, encode: string -> string): (ps: seq<string>)
    ensures |ps| == |selected|
  {
    seq(|selected|, i requires 0 <= i < |selected| => "value=" + encode(selected[i]))
  }

  lemma {:induction false} ValueParamsJoin(selected: seq<string>, encode: string -> string)
    ensures "field=publisher" + ValueParams(selected, encode)
         == Join(["field=publisher"] + PublisherParams(selected, encode), "&")
    decreases |selected|
  {
    if |selected| > 0 {
      var n := |selected| - 1;
      var init := selected[..n];
      ValueParamsJoin(init, encode);
      assert PublisherParams(selected, encode) == PublisherParams(init, encode) + ["value=" + encode(selected[n])];
      assert ["field=publisher"] + PublisherParams(selected, encode)
          == (["field=publisher"] + PublisherParams(init, encode)) + ["value=" + encode(selected[n])];
      JoinSnoc(["field=publisher"] + PublisherParams(init, encode), "&", "value=" + encode(selected[n]));
    }
  }

  /** Reading the URL back: with no publisher selected it has no query string;
      otherwise its query string splits on `&` into `field=publisher` and one
      `value=` parameter per selected publisher, in selection order.
      (`encodeURIComponent` never outputs `?` or `&`.) */
  lemma SearchUrlParts(question: string, selected: seq<string>, encode: string -> string)
    requires forall s :: '?' !in encode(s) && '&' !in encode(s)
    ensures var url := SearchUrl(question, selected, encode);
      |selected| == 0 ==> url == "/all/" + encode(question) && '?' !in url
    ensures var url := SearchUrl(question, selected, encode);
      |selected| > 0 ==>
        && |Split(url, '?')| == 2
        && Split(url, '?')[0] == "/all/" + encode(question)
        && Split(Split(url, '?')[1], '&') == ["field=publisher"] + PublisherParams(selected, encode)
  {
    var path := "/all/" + encode(question);
    assert '?' !in path by {
      NotInConcat("/all/", encode(question), '?');
    }
    if |selected| > 0 {
      var query := "field=publisher" + ValueParams(selected, encode);
      QueryStringParts(selected, encode);
      SearchUrlShape(question, selected, encode);
      SplitAtOne(path, query, '?');
    }
  }

  /** The page starts with every offered publisher selected, each once, so
      the first search sends one `value=` parameter per offered publisher, in
      the listed order. */
  lemma InitialSelection(question: string, encode: string -> string)
    requires forall s :: '?' !in encode(s) && '&' !in encode(s)
    ensures Seqs.Distinct(Publishers)
    ensures |Split(SearchUrl(question, Publishers, encode), '?')| == 2
    ensures Split(Split(SearchUrl(question, Publishers, encode), '?')[1], '&')
         == ["field=publisher", "value=" + encode("Christianity Today"),
             "value=" + encode("Ligonier Ministries"), "value=" + encode("The Good Book Co")]
  {
    SearchUrlParts(question, Publishers, encode);
    assert ["field=publisher"] + PublisherParams(Publishers, encode)
        == ["field=publisher", "value=" + encode("Christianity Today"),
            "value=" + encode("Ligonier Ministries"), "value=" + encode("The Good Book Co")];
  }

  lemma SearchUrlShape(question: string, selected: seq<string>, encode: string -> string)
    requires |selected| > 0
    ensures SearchUrl(question, selected, encode)
         == ("/all/" + encode(question)) + ['?'] + ("field=publisher" + ValueParams(selected, encode))
  {
    var a := "/all/" + encode(question);
    var q := "field=publisher" + ValueParams(selected, encode);
    var v := ValueParams(selected, encode);
    QueryMark();
    Seqs.Assoc(['?'], "field=publisher", v);
    Seqs.Assoc(a, ['?'], q);
  }

  lemma QueryMark()
    ensures "?field=publisher" == ['?'] + "field=publisher"
  {
  }

  lemma SplitAtOne(a: string, b: string, c: char)
    requires c !in a && c !in b
    ensures Split(a + [c] + b, c) == [a, b]
  {
    assert Join([a, b], [c]) == a + [c] + b;
    SplitJoin([a, b], c);
  }

  lemma QueryStringParts(selected: seq<string>, encode: string -> string)
    requires forall s :: '?' !in encode(s) && '&' !in encode(s)
    ensures '?' !in "field=publisher" + ValueParams(selected, encode)
    ensures Split("field=publisher" + ValueParams(selected, encode), '&')
         == ["field=publisher"] + PublisherParams(selected, encode)
  {
    var parts := ["field=publisher"] + PublisherParams(selected, encode);
    ParamsNoChar(selected, encode, '&');
    ParamsNoChar(selected, encode, '?');
    ValueParamsJoin(selected, encode);
    SplitJoin(parts, '&');
    JoinNoChar(parts, "&", '?');
  }

  lemma ParamsNoChar(selected: seq<string>, encode: string -> string, c: char)
    requires c !in "field=publisher" && c !in "value="
    requires forall s :: c !in encode(s)
    ensures forall i :: 0 <= i < |selected| + 1 ==> c !in (["field=publisher"] + PublisherParams(selected, encode))[i]
  {
    var parts := ["field=publisher"] + PublisherParams(selected, encode);
    forall i | 0 <= i < |parts|
      ensures c !in parts[i]
    {
      if i > 0 {
        var e := encode(selected[i - 1]);
        assert parts[i] == "value=" + e;
        NotInConcat("value=", e, c);
      }
    }
  }

  lemma {:induction false} JoinNoChar(parts: seq<string>, sep: string, c: char)
    requires c !in sep
    requires forall i :: 0 <= i < |parts| ==> c !in parts[i]
    ensures c !in Join(parts, sep)
    decreases |parts|
  {
    if |parts| > 1 {
      JoinNoChar(parts[1..], sep, c);
      var rest := Join(parts[1..], sep);
      NotInConcat(parts[0], sep, c);
      NotInConcat(parts[0] + sep, rest, c);
    }
  }

  // ---------------------------------------------------------------------------
  // Prompt templates
  // ---------------------------------------------------------------------------

  /** `template.replace('{question}', question).replace('{text}', text)`. */
  function FillPrompt(template: string, question: string, text: string): string
  {
    ReplaceFirst(ReplaceFirst(template, "{question}", question), "{text}", text)
  }

  /** A template without placeholders is sent as it is. */
  lemma FillPromptNoPlaceholders(template: string, question: string, text: string)
    requires forall j: nat :: !OccursAt(template, "{question}", j)
    requires forall j: nat :: !OccursAt(template, "{text}", j)
    ensures FillPrompt(template, question, text) == template
  {
    ReplaceFirstAbsent(template, "{question}", question);
    ReplaceFirstAbsent(template, "{text}", text);
  }

  /** Only the first `{question}` and then the first `{text}` are replaced. With
      `$`-free replacements, `{question}` first at `i` and `{text}` first at
      `j` after it, and no `{text}` formed before `j` once the question is in,
      the prompt is the template with those two placeholders spliced out. */
  lemma FillPromptAt(template: string, question: string, text: string, i: nat, j: nat)
    requires '$' !in question && '$' !in text
    requires OccursAt(template, "{question}", i)
    requires forall k: nat :: k < i ==> !OccursAt(template, "{question}", k)
    requires i + 10 <= j && OccursAt(template, "{text}", j)
    requires var once := template[..i] + question + template[i + 10..];
      forall k: nat :: k < j - 10 + |question| ==> !OccursAt(once, "{text}", k)
    ensures FillPrompt(template, question, text)
         == template[..i] + question + template[i + 10..j] + text + template[j + 6..]
  {
    var once := template[..i] + question + template[i + 10..];
    var j' := j - 10 + |question|;
    assert ReplaceFirst(template, "{question}", question) == once by {
      ReplaceFirstAt(template, "{question}", question, i);
    }
    assert OccursAt(once, "{text}", j')
        && once[..j'] == template[..i] + question + template[i + 10..j]
        && once[j' + 6..] == template[j + 6..] by {
      Seqs.Splice(template, question, i, 10, j, 6);
    }
    assert ReplaceFirst(once, "{text}", text) == once[..j'] + text + once[j' + 6..] by {
      ReplaceFirstAt(once, "{text}", text, j');
    }
  }

  // ---------------------------------------------------------------------------
  // Result cards
  // ---------------------------------------------------------------------------

  /** A search hit: its text fields by name (a missing or empty field is absent or ""). */
  type Hit = map<string, string>

  datatype ResultCard = ResultCard(
    id: nat, paragraph: string, aititle: string, holder: string, publisher: string, productionimage: string)

  /** `item.f || ''`. */
  function Field(h: Hit, f: string): string
  {
    if f in h then h[f] else ""
  }

  function Card(h: Hit, id: nat): ResultCard
  {
    ResultCard(id, Field(h, "paragraph"), Field(h, "aititle"), Field(h, "holder"),
               Field(h, "publisher"), Field(h, "productionimage"))
  }

  /** `hits.map((item, index) => ({ id: index + start, ... })).filter(item => item.paragraph)`. */
  function Cards(hits: seq<Hit>, start: nat): seq<ResultCard>
    decreases |hits|
  {
    if |hits| == 0 then []
    else
      var c := Card(hits[0], start);
      (if c.paragraph != "" then [c] else []) + Cards(hits[1..], start + 1)
  }

  /** `data.slice(0, count)`. */
  function Shown(data: seq<Hit>, count: nat): (t: seq<Hit>)
    ensures |t| == if count < |data| then count else |data|
    ensures forall i :: 0 <= i < |t| ==> t[i] == data[i]
  {
    data[..if count < |data| then count else |data|]
  }

  /** The cards shown for the first `count` hits. */
  function ShapeResults(data: seq<Hit>, count: nat): seq<ResultCard>
  {
    Cards(Shown(data, count), 1)
  }

  /** Each card is the hit its id numbers from `start`, and has a paragraph. */
  lemma {:induction false} CardsFromHits(hits: seq<Hit>, start: nat)
    ensures var cs := Cards(hits, start);
      && |cs| <= |hits|
      && forall k :: 0 <= k < |cs| ==>
           start <= cs[k].id < start + |hits|
           && cs[k] == Card(hits[cs[k].id - start], cs[k].id)
           && cs[k].paragraph != ""
    decreases |hits|
  {
    if |hits| > 0 {
      CardsFromHits(hits[1..], start + 1);
      var rest := Cards(hits[1..], start + 1);
      forall k | 0 <= k < |rest|
        ensures hits[1..][rest[k].id - (start + 1)] == hits[rest[k].id - start]
      {
      }
    }
  }

  /** The ids of the cards strictly increase. */
  lemma {:induction false} CardsIncreasing(hits: seq<Hit>, start: nat)
    ensures var cs := Cards(hits, start);
      forall k, l :: 0 <= k < l < |cs| ==> cs[k].id < cs[l].id
    decreases |hits|
  {
    if |hits| > 0 {
      CardsIncreasing(hits[1..], start + 1);
      CardsFromHits(hits[1..], start + 1);
    }
  }

  /** Every hit with a paragraph has its card. */
  lemma {:induction false} CardsComplete(hits: seq<Hit>, start: nat, j: nat)
    requires j < |hits| && Field(hits[j], "paragraph") != ""
    ensures exists k :: 0 <= k < |Cards(hits, start)| && Cards(hits, start)[k].id == start + j
    decreases |hits|
  {
    var cs := Cards(hits, start);
    var c := Card(hits[0], start);
    var head := if c.paragraph != "" then [c] else [];
    var rest := Cards(hits[1..], start + 1);
    assert cs == head + rest;
    if j == 0 {
      assert c.paragraph == Field(hits[0], "paragraph");
      assert head == [c];
      assert cs[0] == c && cs[0].id == start + j;
    } else {
      assert hits[1..][j - 1] == hits[j];
      CardsComplete(hits[1..], start + 1, j - 1);
      var k :| 0 <= k < |rest| && rest[k].id == start + 1 + (j - 1);
      assert cs[|head| + k] == rest[k];
    }
  }

  /** The cards of `t` numbered from 1: at most one per hit, each the hit its
      id names, and ids increasing. */
  lemma CardsSpec(t: seq<Hit>)
    ensures |Cards(t, 1)| <= |t|
    ensures forall k :: 0 <= k < |Cards(t, 1)| ==>
      1 <= Cards(t, 1)[k].id <= |t| && Cards(t, 1)[k] == Card(t[Cards(t, 1)[k].id - 1], Cards(t, 1)[k].id)
      && Cards(t, 1)[k].paragraph != ""
    ensures forall k, l :: 0 <= k < l < |Cards(t, 1)| ==> Cards(t, 1)[k].id < Cards(t, 1)[l].id
  {
    CardsFromHits(t, 1);
    CardsIncreasing(t, 1);
  }

  /** What the paragraphs tab shows after a search: at most `count` cards,
      each the hit its id numbers from 1 among the first `count`, with a
      paragraph, in hit order. */
  lemma ShapeResultsSpec(data: seq<Hit>, count: nat)
    ensures |ShapeResults(data, count)| <= count
    ensures forall k :: 0 <= k < |ShapeResults(data, count)| ==>
      var c := ShapeResults(data, count)[k];
      1 <= c.id <= |Shown(data, count)| && c == Card(Shown(data, count)[c.id - 1], c.id) && c.paragraph != ""
    ensures forall k, l :: 0 <= k < l < |ShapeResults(data, count)| ==>
      ShapeResults(data, count)[k].id < ShapeResults(data, count)[l].id
  {
    CardsSpec(Shown(data, count));
  }

  /** No hit among the first `count` that has a paragraph is left out. */
  lemma ShapeResultsComplete(data: seq<Hit>, count: nat)
    ensures forall j :: 0 <= j < |Shown(data, count)| && Field(Shown(data, count)[j], "paragraph") != "" ==>
      exists k :: 0 <= k < |ShapeResults(data, count)| && ShapeResults(data, count)[k].id == j + 1
  {
    var t := Shown(data, count);
    assert ShapeResults(data, count) == Cards(t, 1);
    forall j | 0 <= j < |t| && Field(t[j], "paragraph") != ""
      ensures exists k :: 0 <= k < |Cards(t, 1)| && Cards(t, 1)[k].id == j + 1
    {
      CardsComplete(t, 1, j);
    }
  }

  /** What the search endpoint returned: a failed request, a body that is not
      an array, or an array of hits. */
  datatype SearchReply = FetchFailed | NotAnArray | HitList(hits: seq<Hit>)

  datatype SubmitOutcome = SubmitOutcome(results: seq<ResultCard>, concatenated: string, error: Option<string>)

  /** `handleSubmit` once the request has been answered. */
  function Submit(reply: SearchReply, count: nat): (o: SubmitOutcome)
  {
    match reply
    case FetchFailed => SubmitOutcome([], "", Some("Error fetching data. Please try again later."))
    case NotAnArray => SubmitOutcome([], "No results found.", None)
    case HitList(hits) =>
      if |hits| == 0 then SubmitOutcome([], "No results found.", None)
      else
        var rs := ShapeResults(hits, count);
        SubmitOutcome(rs, Join(Seqs.Map(rs, (c: ResultCard) => c.paragraph), "\n\n"), None)
  }

  /** The concatenated text is the shown paragraphs joined by blank lines; a
      reply with no hits shows "No results found." and no cards. */
  lemma SubmitSpec(reply: SearchReply, count: nat)
    ensures var o := Submit(reply, count);
      && (o.error.Some? <==> reply.FetchFailed?)
      && (reply.HitList? && |reply.hits| > 0 ==>
            o.results == ShapeResults(reply.hits, count)
            && o.concatenated == Join(Seqs.Map(o.results, (c: ResultCard) => c.paragraph), "\n\n")
            && |o.results| <= count)
      && (reply.NotAnArray? || (reply.HitList? && |reply.hits| == 0) ==>
            o.results == [] && o.concatenated == "No results found.")
  {
    if reply.HitList? && |reply.hits| > 0 {
      ShapeResultsSpec(reply.hits, count);
    }
  }

  // ---------------------------------------------------------------------------
  // Numeric inputs
  // ---------------------------------------------------------------------------

  /** `Math.max(1, parseInt(value) || 1)`, with `None` for a `NaN` parse. */
  function ClampCount(parsed: Option<int>): (n: nat)
    ensures n >= 1
    ensures parsed.Some? && parsed.value >= 1 ==> n == parsed.value
    ensures parsed.None? || parsed.value < 1 ==> n == 1
  {
    var v := match parsed case None => 1 case Some(x) => if x == 0 then 1 else x;
    if v < 1 then 1 else v
  }
}
