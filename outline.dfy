/** The wiki outline of the research assistant (src/ApiInterface.js): the
    line-oriented fallback parser for the model's outline reply, the default
    answer, the matching of headline keys with question keys, and the
    per-section summaries built from the paragraphs fetched for each section. */
module Outline {
  import opened Wrappers
  import opened Text
  import opened OrderedMap
  import Seqs
  import Search

  /** What the line parser stores under a key: the text of the key line, or,
      once continuation lines follow it, the list of those texts. */
  datatype Value = Scalar(s: string) | List(items: seq<string>)

  // ---------------------------------------------------------------------------
  // The key-line pattern ^(\w+):\s*(.*)$
  // ---------------------------------------------------------------------------

  /** The longest prefix of `s` made of word characters. */
  function WordPrefix(s: string): (w: string)
    ensures |w| <= |s|
    decreases |s|
  {
    if |s| > 0 && IsWordChar(s[0]) then [s[0]] + WordPrefix(s[1..]) else ""
  }

  /** It is a prefix, made of word characters, that no word character follows. */
  lemma {:induction false} WordPrefixSpec(s: string)
    ensures var w := WordPrefix(s);
      && w == s[..|w|]
      && (forall i :: 0 <= i < |w| ==> IsWordChar(w[i]))
      && (|w| == |s| || !IsWordChar(s[|w|]))
    decreases |s|
  {
    if |s| > 0 && IsWordChar(s[0]) {
      WordPrefixSpec(s[1..]);
    }
  }

  /** No character of `s` is a line terminator, so `.*` matches all of it. */
  predicate SingleLine(s: string)
  {
    forall i :: 0 <= i < |s| ==> !IsLineTerminator(s[i])
  }

  /** `line.match(/^(\w+):\s*(.*)$/)`: the key and the value it captures. The
      greedy `\w+` can only stop at the colon, the greedy `\s*` eats every
      white-space character after it (line terminators included), and `(.*)$`
      then has to reach the end of the line without meeting a line terminator. */
  function MatchKeyLine(line: string): Option<(string, string)>
  {
    var key := WordPrefix(line);
    if |key| == 0 || |key| == |line| || line[|key|] != ':' then None
    else
      match MatchRest(line[|key| + 1..])
      case Some(value) => Some((key, value))
      case None => None
  }

  /** `\s*(.*)$` on what follows the colon: skip the white space, then capture
      the rest provided it holds no line terminator. */
  function MatchRest(s: string): Option<string>
    decreases |s|
  {
    if |s| > 0 && IsSpace(s[0]) then MatchRest(s[1..])
    else if SingleLine(s) then Some(s) else None
  }

  /** The captured value is what `trimStart` leaves. */
  lemma {:induction false} MatchRestTrimStart(s: string)
    ensures MatchRest(s) == if SingleLine(TrimStart(s)) then Some(TrimStart(s)) else None
    decreases |s|
  {
    if |s| > 0 && IsSpace(s[0]) {
      MatchRestTrimStart(s[1..]);
    }
  }

  predicate IsKey(k: string)
  {
    |k| > 0 && forall i :: 0 <= i < |k| ==> IsWordChar(k[i])
  }

  /** The pattern read declaratively: the line is a key, a colon, white space,
      and a value that does not start with white space and spans one line. */
  ghost predicate KeyLine(line: string, key: string, value: string)
  {
    exists gap :: line == key + ":" + gap + value
      && IsKey(key) && AllSpace(gap)
      && (|value| == 0 || !IsSpace(value[0])) && SingleLine(value)
  }

  lemma {:induction false} WordPrefixOfKey(key: string, rest: string)
    requires forall i :: 0 <= i < |key| ==> IsWordChar(key[i])
    ensures WordPrefix(key + ":" + rest) == key
    decreases |key|
  {
    if |key| > 0 {
      assert (key + ":" + rest)[1..] == key[1..] + ":" + rest;
      WordPrefixOfKey(key[1..], rest);
      assert key == [key[0]] + key[1..];
    } else {
      assert (key + ":" + rest)[0] == ':';
    }
  }

  /** `MatchKeyLine` captures exactly the decompositions `KeyLine` describes. */
  lemma MatchKeyLineSpec(line: string, key: string, value: string)
    ensures MatchKeyLine(line) == Some((key, value)) <==> KeyLine(line, key, value)
  {
    if MatchKeyLine(line) == Some((key, value)) {
      MatchIsKeyLine(line);
    }
    if KeyLine(line, key, value) {
      var gap :| line == key + ":" + gap + value
        && IsKey(key) && AllSpace(gap)
        && (|value| == 0 || !IsSpace(value[0])) && SingleLine(value);
      KeyLineMatches(line, key, gap, value);
    }
  }

  lemma MatchIsKeyLine(line: string)
    requires MatchKeyLine(line).Some?
    ensures KeyLine(line, MatchKeyLine(line).value.0, MatchKeyLine(line).value.1)
  {
    var w := WordPrefix(line);
    WordPrefixSpec(line);
    var rest := line[|w| + 1..];
    MatchRestTrimStart(rest);
    var value := TrimStart(rest);
    TrimStartSpec(rest);
    var gap := rest[..|rest| - |value|];
    assert rest == gap + value;
    assert line == w + ":" + rest by {
      Seqs.Around(line, |w|);
    }
    KeyLineIntro(line, w, gap, value);
  }

  lemma KeyLineIntro(line: string, key: string, gap: string, value: string)
    requires line == key + ":" + (gap + value)
    requires IsKey(key) && AllSpace(gap)
    requires |value| == 0 || !IsSpace(value[0])
    requires SingleLine(value)
    ensures KeyLine(line, key, value)
  {
    assert line == key + ":" + gap + value;
  }

  lemma KeyLineMatches(line: string, key: string, gap: string, value: string)
    requires line == key + ":" + gap + value
    requires IsKey(key) && AllSpace(gap)
    requires |value| == 0 || !IsSpace(value[0])
    requires SingleLine(value)
    ensures MatchKeyLine(line) == Some((key, value))
  {
    assert line == key + ":" + (gap + value);
    WordPrefixOfKey(key, gap + value);
    assert line[|key| + 1..] == gap + value;
    TrimStartOfSpaces(gap, value);
    MatchRestTrimStart(gap + value);
  }

  /** A line that ends in a line terminator (a CRLF line split on `\n`) matches
      only when nothing but white space follows its colon, and then its value
      is empty. */
  lemma KeyLineEndingInTerminator(line: string)
    requires |line| > 0 && IsLineTerminator(line[|line| - 1])
    ensures MatchKeyLine(line).Some? ==> MatchKeyLine(line).value.1 == ""
  {
    if MatchKeyLine(line).Some? {
      var w := WordPrefix(line);
      MatchRestTrimStart(line[|w| + 1..]);
      TrimStartSpec(line[|w| + 1..]);
      var value := MatchKeyLine(line).value.1;
      assert value == line[|line| - |value|..];
    }
  }

  // ---------------------------------------------------------------------------
  // The fallback line parser
  // ---------------------------------------------------------------------------

  /** The loop state: the key of the last key line (`currentKey`) and the object built so far. */
  datatype ParseState = ParseState(current: Option<string>, out: Dict<Value>)
  {
    ghost predicate Valid()
    {
      out.Valid() && (current.Some? ==> current.value in out.vals)
    }
  }

  const Start: ParseState := ParseState(None, Empty())

  /** The lines of `content`, as `content.split('\n')` gives them. */
  function Lines(content: string): seq<string>
  {
    Split(content, '\n')
  }

  /** One continuation line `t` added to a value: a list grows by `t`, a
      single text becomes the list of it and `t`. */
  function Extend(v: Value, t: string): (r: Value)
    ensures r.List?
  {
    match v
    case List(xs) => List(xs + [t])
    case Scalar(s) => List([s, t])
  }

  /** One pass of the loop body over `line`. */
  function Step(st: ParseState, line: string): (r: ParseState)
    requires st.Valid()
    ensures r.Valid()
  {
    match MatchKeyLine(line)
    case Some(kv) => ParseState(Some(kv.0), st.out.Put(kv.0, Scalar(kv.1)))
    case None =>
      var t := Trim(line);
      if st.current.None? || t == "" then st
      else
        var k := st.current.value;
        ParseState(st.current, st.out.Put(k, Extend(st.out.vals[k], t)))
  }

  /** The loop over `lines` from state `st`. */
  function Run(st: ParseState, lines: seq<string>): (r: ParseState)
    requires st.Valid()
    ensures r.Valid()
    decreases |lines|
  {
    if |lines| == 0 then st else Step(Run(st, lines[..|lines| - 1]), lines[|lines| - 1])
  }

  /** The fallback branch of `parseWikiResponse`: the object the loop builds
      over the lines, or `{answer: content.trim()}` when it stays empty. */
  function KeyValueFallback(content: string): Dict<Value>
  {
    var out := Run(Start, Lines(content)).out;
    if |out.keys| == 0 then Empty().Put("answer", Scalar(Trim(content))) else out
  }

  /** The fallback parser as the source writes it: a loop over the lines that
      updates `currentKey` and the object in place. */
  method ParseKeyValueLines(content: string) returns (result: Dict<Value>)
    ensures result == KeyValueFallback(content)
  {
    var lines := Split(content, '\n');
    result := Empty();
    var currentKey: Option<string> := None;
    var i := 0;
    while i < |lines|
      invariant 0 <= i <= |lines|
      invariant ParseState(currentKey, result) == Run(Start, lines[..i])
    {
      assert lines[..i + 1][..i] == lines[..i];
      var line := lines[i];
      var keyMatch := MatchKeyLine(line);
      if keyMatch.Some? {
        currentKey := Some(keyMatch.value.0);
        result := result.Put(keyMatch.value.0, Scalar(keyMatch.value.1));
      } else if currentKey.Some? && Trim(line) != "" {
        var k := currentKey.value;
        match result.vals[k]
        case List(xs) =>
          result := result.Put(k, List(xs + [Trim(line)]));
        case Scalar(s) =>
          result := result.Put(k, List([s, Trim(line)]));
      }
      i := i + 1;
    }
    assert lines[..i] == lines;
    if |result.keys| == 0 {
      result := Empty().Put("answer", Scalar(Trim(content)));
    }
  }

  // ---------------------------------------------------------------------------
  // What the fallback parser computes
  // ---------------------------------------------------------------------------

  predicate IsKeyLine(line: string)
  {
    MatchKeyLine(line).Some?
  }

  /** The key of `line` if it is a key line. */
  function LineKey(line: string): (ks: seq<string>)
    ensures |ks| <= 1
  {
    match MatchKeyLine(line) case Some(kv) => [kv.0] case None => []
  }

  /** The keys of the key lines among `lines`, in order, repeats included. */
  function KeyLineKeys(lines: seq<string>): seq<string>
  {
    Seqs.FlatMap(lines, LineKey)
  }

  /** The continuation lines among `lines`: trimmed, blank ones dropped. */
  function NonBlank(lines: seq<string>): seq<string>
    decreases |lines|
  {
    if |lines| == 0 then [] else NonBlank(lines[..|lines| - 1]) + Kept(lines[|lines| - 1])
  }

  /** The value a key line with text `v` ends up with once the continuation
      lines `cont` have been added to it. */
  function Attached(v: string, cont: seq<string>): Value
  {
    if |cont| == 0 then Scalar(v) else List([v] + cont)
  }

  lemma {:induction false} RunAppend(st: ParseState, a: seq<string>, b: seq<string>)
    requires st.Valid()
    ensures Run(st, a + b) == Run(Run(st, a), b)
    decreases |b|
  {
    if |b| == 0 {
      assert a + b == a;
    } else {
      assert (a + b)[..|a + b| - 1] == a + b[..|b| - 1];
      RunAppend(st, a, b[..|b| - 1]);
    }
  }

  /** Lines before the first key line change nothing. */
  lemma {:induction false} NoKeyLinesIdle(lines: seq<string>)
    requires forall j :: 0 <= j < |lines| ==> !IsKeyLine(lines[j])
    ensures Run(Start, lines) == Start
    decreases |lines|
  {
    if |lines| > 0 {
      NoKeyLinesIdle(lines[..|lines| - 1]);
    }
  }

  /** Non-key lines before the first key line are dropped. */
  lemma LeadingLinesDropped(before: seq<string>, rest: seq<string>)
    requires forall j :: 0 <= j < |before| ==> !IsKeyLine(before[j])
    ensures Run(Start, before + rest) == Run(Start, rest)
  {
    NoKeyLinesIdle(before);
    RunAppend(Start, before, rest);
  }

  /** The keys of the object are the keys of the key lines, in the order of
      their first key line, each once. */
  lemma {:induction false} RunKeys(lines: seq<string>)
    ensures Run(Start, lines).out.keys == Seqs.Dedup(KeyLineKeys(lines))
    decreases |lines|
  {
    if |lines| > 0 {
      var p := lines[..|lines| - 1];
      var last := lines[|lines| - 1];
      RunKeys(p);
      var st := Run(Start, p);
      match MatchKeyLine(last)
      case Some(kv) =>
        assert KeyLineKeys(lines) == KeyLineKeys(p) + [kv.0];
        Seqs.DedupSnoc(KeyLineKeys(p), kv.0);
        Seqs.DedupHas(KeyLineKeys(p), kv.0);
      case None =>
        assert KeyLineKeys(lines) == KeyLineKeys(p);
    }
  }

  ghost predicate HasKeyLineFor(lines: seq<string>, k: string)
  {
    exists j :: 0 <= j < |lines| && k in LineKey(lines[j])
  }

  lemma KeyLineKeysHas(lines: seq<string>, k: string)
    ensures k in KeyLineKeys(lines) <==> HasKeyLineFor(lines, k)
  {
    Seqs.FlatMapHas(lines, LineKey, k);
  }

  /** The parser never returns an empty object. Without any key line it
      returns exactly `{answer: content.trim()}`; otherwise its keys are the
      keys of the key lines, in first-occurrence order, each once. */
  lemma KeyValueFallbackKeys(content: string)
    ensures var r := KeyValueFallback(content);
      r.Valid() && |r.keys| >= 1
    ensures (forall j :: 0 <= j < |Lines(content)| ==> !IsKeyLine(Lines(content)[j])) ==>
      KeyValueFallback(content) == Empty().Put("answer", Scalar(Trim(content)))
    ensures (exists j :: 0 <= j < |Lines(content)| && IsKeyLine(Lines(content)[j])) ==>
      KeyValueFallback(content).keys == Seqs.Dedup(KeyLineKeys(Lines(content)))
    ensures forall k :: k in KeyValueFallback(content).keys <==>
      if exists j :: 0 <= j < |Lines(content)| && IsKeyLine(Lines(content)[j])
      then HasKeyLineFor(Lines(content), k)
      else k == "answer"
  {
    var lines := Lines(content);
    RunKeys(lines);
    if exists j :: 0 <= j < |lines| && IsKeyLine(lines[j]) {
      var j :| 0 <= j < |lines| && IsKeyLine(lines[j]);
      var k0 := MatchKeyLine(lines[j]).value.0;
      KeyLineKeysHas(lines, k0);
      Seqs.DedupHas(KeyLineKeys(lines), k0);
      forall k
        ensures k in KeyValueFallback(content).keys <==> HasKeyLineFor(lines, k)
      {
        KeyLineKeysHas(lines, k);
        Seqs.DedupHas(KeyLineKeys(lines), k);
      }
    } else {
      NoKeyLinesIdle(lines);
    }
  }

  /** The trimmed line, if it is not blank. */
  function Kept(line: string): seq<string>
  {
    var t := Trim(line);
    if t == "" then [] else [t]
  }

  lemma ContinuationStep(st: ParseState, line: string, k: string, v: string, c: seq<string>)
    requires st.Valid() && st.current == Some(k)
    requires st.out.Get(k) == Some(Attached(v, c))
    requires !IsKeyLine(line)
    ensures Step(st, line).current == Some(k)
    ensures Step(st, line).out.Get(k) == Some(Attached(v, c + Kept(line)))
  {
    var t := Trim(line);
    if t != "" {
      assert st.out.vals[k] == Attached(v, c);
      assert Extend(Attached(v, c), t) == Attached(v, c + [t]) by {
        if |c| == 0 {
          assert [v] + (c + [t]) == [v, t];
        } else {
          assert [v] + c + [t] == [v] + (c + [t]);
        }
      }
    } else {
      assert c + Kept(line) == c;
    }
  }

  /** Continuation lines after the current key's line extend its value. */
  lemma {:induction false} Continuation(st: ParseState, seg: seq<string>, k: string, v: string, c0: seq<string>)
    requires st.Valid() && st.current == Some(k)
    requires st.out.Get(k) == Some(Attached(v, c0))
    requires forall j :: 0 <= j < |seg| ==> !IsKeyLine(seg[j])
    ensures Run(st, seg).current == Some(k)
    ensures Run(st, seg).out.Get(k) == Some(Attached(v, c0 + NonBlank(seg)))
    decreases |seg|
  {
    if |seg| == 0 {
      assert c0 + NonBlank(seg) == c0;
    } else {
      var p := seg[..|seg| - 1];
      var line := seg[|seg| - 1];
      Continuation(st, p, k, v, c0);
      assert Run(st, seg) == Step(Run(st, p), line);
      ContinuationStep(Run(st, p), line, k, v, c0 + NonBlank(p));
      assert NonBlank(seg) == NonBlank(p) + Kept(line);
      assert c0 + NonBlank(p) + Kept(line) == c0 + NonBlank(seg);
    }
  }

  /** Lines with no key line for `k`, met while another key is current, leave
      `k`'s value alone. */
  lemma {:induction false} Untouched(st: ParseState, seg: seq<string>, k: string)
    requires st.Valid() && st.current != Some(k)
    requires forall j :: 0 <= j < |seg| && IsKeyLine(seg[j]) ==> MatchKeyLine(seg[j]).value.0 != k
    ensures Run(st, seg).current != Some(k)
    ensures Run(st, seg).out.Get(k) == st.out.Get(k)
    decreases |seg|
  {
    if |seg| > 0 {
      Untouched(st, seg[..|seg| - 1], k);
    }
  }

  lemma KeyLineSets(lines: seq<string>, i: nat, k: string, v: string)
    requires i < |lines| && MatchKeyLine(lines[i]) == Some((k, v))
    ensures Run(Start, lines[..i + 1]).current == Some(k)
    ensures Run(Start, lines[..i + 1]).out.Get(k) == Some(Attached(v, []))
  {
    assert lines[..i + 1][..i] == lines[..i];
  }

  /** From a key line for another key on, `k`'s value is left alone. */
  lemma LaterKeyLines(st: ParseState, tail: seq<string>, k: string)
    requires st.Valid()
    requires |tail| > 0 ==> IsKeyLine(tail[0])
    requires forall j :: 0 <= j < |tail| && IsKeyLine(tail[j]) ==> MatchKeyLine(tail[j]).value.0 != k
    ensures Run(st, tail).out.Get(k) == st.out.Get(k)
  {
    if |tail| > 0 {
      var rest := tail[1..];
      assert tail == [tail[0]] + rest;
      RunAppend(st, [tail[0]], rest);
      var s1 := Run(st, [tail[0]]);
      assert s1 == Step(st, tail[0]) by { assert [tail[0]][..0] == []; }
      forall j | 0 <= j < |rest| && IsKeyLine(rest[j])
        ensures MatchKeyLine(rest[j]).value.0 != k
      {
        assert rest[j] == tail[j + 1];
      }
      Untouched(s1, rest, k);
    }
  }

  /** The key line for `k` ends `head`, `mid` holds no key line, and `tail`
      starts with a key line and holds none for `k`. */
  lemma KeyLineThenOthers(head: seq<string>, mid: seq<string>, tail: seq<string>, k: string, v: string)
    requires |head| > 0 && MatchKeyLine(head[|head| - 1]) == Some((k, v))
    requires forall j :: 0 <= j < |mid| ==> !IsKeyLine(mid[j])
    requires |tail| > 0 ==> IsKeyLine(tail[0])
    requires forall j :: 0 <= j < |tail| && IsKeyLine(tail[j]) ==> MatchKeyLine(tail[j]).value.0 != k
    ensures Run(Start, head + mid + tail).out.Get(k) == Some(Attached(v, NonBlank(mid)))
  {
    var s1 := Run(Start, head);
    var s2 := Run(s1, mid);
    assert Run(Start, head + mid + tail) == Run(s2, tail) by {
      RunAppend(Start, head + mid, tail);
      RunAppend(Start, head, mid);
    }
    assert s1.current == Some(k) && s1.out.Get(k) == Some(Attached(v, [])) by {
      KeyLineSets(head, |head| - 1, k, v);
      assert head[..|head|] == head;
    }
    assert s2.out.Get(k) == Some(Attached(v, NonBlank(mid))) by {
      Continuation(s1, mid, k, v, []);
      assert [] + NonBlank(mid) == NonBlank(mid);
    }
    LaterKeyLines(s2, tail, k);
  }

  /** A key holds the text of its last key line, followed, once there are any,
      by the non-blank continuation lines (trimmed) up to the next key line. */
  lemma LastKeyLineWins(lines: seq<string>, i: nat, e: nat, k: string, v: string)
    requires i < e <= |lines|
    requires MatchKeyLine(lines[i]) == Some((k, v))
    requires forall j :: i < j < e ==> !IsKeyLine(lines[j])
    requires e < |lines| ==> IsKeyLine(lines[e])
    requires forall j :: i < j < |lines| && IsKeyLine(lines[j]) ==> MatchKeyLine(lines[j]).value.0 != k
    ensures Run(Start, lines).out.Get(k) == Some(Attached(v, NonBlank(lines[i + 1..e])))
  {
    var head, mid, tail := lines[..i + 1], lines[i + 1..e], lines[e..];
    Seqs.Slices(lines, i + 1, e);
    assert forall j :: 0 <= j < |mid| ==> mid[j] == lines[i + 1 + j];
    assert forall j :: 0 <= j < |tail| ==> tail[j] == lines[e + j];
    assert head[|head| - 1] == lines[i];
    KeyLineThenOthers(head, mid, tail, k, v);
  }

  /** The same, for the whole parse of a reply that has a key line. */
  lemma KeyValueFallbackValue(content: string, i: nat, e: nat, k: string, v: string)
    requires i < e <= |Lines(content)|
    requires MatchKeyLine(Lines(content)[i]) == Some((k, v))
    requires forall j :: i < j < e ==> !IsKeyLine(Lines(content)[j])
    requires e < |Lines(content)| ==> IsKeyLine(Lines(content)[e])
    requires forall j :: i < j < |Lines(content)| && IsKeyLine(Lines(content)[j]) ==>
      MatchKeyLine(Lines(content)[j]).value.0 != k
    ensures KeyValueFallback(content).Get(k) == Some(Attached(v, NonBlank(Lines(content)[i + 1..e])))
  {
    var lines := Lines(content);
    LastKeyLineWins(lines, i, e, k, v);
    RunKeys(lines);
    assert k in LineKey(lines[i]);
    KeyLineKeysHas(lines, k);
    Seqs.DedupHas(KeyLineKeys(lines), k);
  }

  // ---------------------------------------------------------------------------
  // The outline reply and its default answer
  // ---------------------------------------------------------------------------

  /** What the JSON attempts of `parseWikiResponse` made of the reply (the
      fenced code block first, then the whole text): nothing, an object, or a
      JSON value (a string, a number, `null`, ...) that is not an object. */
  datatype Json = NotJson | JsonObject(obj: Dict<Value>) | JsonPrimitive

  /** `parseWikiResponse(content)`, with `json` standing for `JSON.parse` on
      the code block and on the whole text: the first parse that succeeds
      wins, and the line parser runs only when both fail. */
  function ParseWikiResponse(content: string, json: string -> Json): (r: Json)
    ensures r != NotJson
    ensures json(content).NotJson? ==> r.JsonObject? && |r.obj.keys| >= 1
  {
    match json(content)
    case NotJson =>
      KeyValueFallbackKeys(content);
      JsonObject(KeyValueFallback(content))
    case other => other
  }

  /** JavaScript truthiness of `obj.answer`: `undefined` and `''` are false,
      any other text and any array are true. */
  predicate Truthy(v: Option<Value>)
  {
    match v
    case None => false
    case Some(Scalar(s)) => s != ""
    case Some(List(_)) => true
  }

  const NoAnswer := "No answer provided."

  /** `if (!jsonResponse.answer) jsonResponse.answer = "No answer provided.";` */
  function DefaultAnswer(o: Dict<Value>): (r: Dict<Value>)
    ensures Truthy(r.Get("answer"))
    ensures Truthy(o.Get("answer")) ==> r == o
    ensures !Truthy(o.Get("answer")) ==> r.Get("answer") == Some(Scalar(NoAnswer))
    ensures forall k :: k != "answer" ==> r.Get(k) == o.Get(k)
    ensures o.Valid() ==> r.Valid() && (r.keys == o.keys <==> "answer" in o.keys)
  {
    if Truthy(o.Get("answer")) then o else o.Put("answer", Scalar(NoAnswer))
  }

  /** A reply without key lines becomes its trimmed text as the answer, or
      "No answer provided." when that is empty. */
  lemma PlainReplyAnswer(content: string)
    requires forall j :: 0 <= j < |Lines(content)| ==> !IsKeyLine(Lines(content)[j])
    ensures DefaultAnswer(KeyValueFallback(content))
         == Empty().Put("answer", Scalar(if Trim(content) == "" then NoAnswer else Trim(content)))
  {
    KeyValueFallbackKeys(content);
  }

  // ---------------------------------------------------------------------------
  // Headline and questions keys
  // ---------------------------------------------------------------------------

  /** `/^headline_\d+$/`. */
  predicate NumberedHeadline(k: string)
  {
    |k| > 9 && k[..9] == "headline_" && forall i :: 9 <= i < |k| ==> IsDigit(k[i])
  }

  /** `key.startsWith('headline') || key.match(/^headline_\d+$/)`. */
  predicate IsHeadlineKey(k: string)
  {
    StartsWith(k, "headline") || NumberedHeadline(k)
  }

  /** The second alternative adds nothing: a headline key is exactly a key
      that starts with "headline". */
  lemma HeadlineKeyIsPrefix(k: string)
    ensures IsHeadlineKey(k) <==> StartsWith(k, "headline")
  {
    if NumberedHeadline(k) {
      assert k[..8] == k[..9][..8];
    }
  }

  /** `Object.keys(outline).filter(IsHeadlineKey)`. */
  function HeadlineKeys(keys: seq<string>): seq<string>
    decreases |keys|
  {
    if |keys| == 0 then []
    else
      var last := keys[|keys| - 1];
      HeadlineKeys(keys[..|keys| - 1]) + (if IsHeadlineKey(last) then [last] else [])
  }

  /** The keys that start with `prefix`, in key order. */
  function KeysWithPrefix(keys: seq<string>, prefix: string): (r: seq<string>)
    ensures forall i :: 0 <= i < |r| ==> StartsWith(r[i], prefix)
    decreases |keys|
  {
    if |keys| == 0 then []
    else
      var last := keys[|keys| - 1];
      KeysWithPrefix(keys[..|keys| - 1], prefix) + (if StartsWith(last, prefix) then [last] else [])
  }

  lemma {:induction false} KeysWithPrefixHas(keys: seq<string>, prefix: string, k: string)
    ensures k in KeysWithPrefix(keys, prefix) <==> k in keys && StartsWith(k, prefix)
    decreases |keys|
  {
    if |keys| > 0 {
      KeysWithPrefixHas(keys[..|keys| - 1], prefix, k);
      assert keys == keys[..|keys| - 1] + [keys[|keys| - 1]];
    }
  }

  /** The headline keys are the keys starting with "headline", in key order. */
  lemma {:induction false} HeadlineKeysSpec(keys: seq<string>)
    ensures HeadlineKeys(keys) == KeysWithPrefix(keys, "headline")
    decreases |keys|
  {
    if |keys| > 0 {
      HeadlineKeysSpec(keys[..|keys| - 1]);
      HeadlineKeyIsPrefix(keys[|keys| - 1]);
    }
  }

  /** The test `find` applies to each key, for the headline number `n`. */
  predicate QuestionsKeyFor(k: string, n: string)
  {
    k == "questions" + n || k == "questions_" + n || (StartsWith(k, "questions") && EndsWith(k, n))
  }

  /** The first two alternatives are cases of the third. */
  lemma QuestionsKeyCollapse(k: string, n: string)
    ensures QuestionsKeyFor(k, n) <==> StartsWith(k, "questions") && EndsWith(k, n)
  {
    if k == "questions" + n {
      assert k[..9] == "questions" && k[|k| - |n|..] == n;
    }
    if k == "questions_" + n {
      assert k[..9] == "questions" && k[|k| - |n|..] == n;
    }
  }

  /** `Object.keys(outline).find(key => QuestionsKeyFor(key, n))`. */
  function FindQuestionsKey(keys: seq<string>, n: string): Option<string>
    decreases |keys|
  {
    if |keys| == 0 then None
    else if QuestionsKeyFor(keys[0], n) then Some(keys[0])
    else FindQuestionsKey(keys[1..], n)
  }

  /** The chosen questions key is the first key, in key order, that starts
      with "questions" and ends with the headline's digits; there is none
      exactly when no key does. */
  lemma {:induction false} FindQuestionsKeySpec(keys: seq<string>, n: string)
    ensures FindQuestionsKey(keys, n).None? <==>
      forall i :: 0 <= i < |keys| ==> !(StartsWith(keys[i], "questions") && EndsWith(keys[i], n))
    ensures FindQuestionsKey(keys, n).Some? ==>
      exists i :: 0 <= i < |keys| && keys[i] == FindQuestionsKey(keys, n).value
        && StartsWith(keys[i], "questions") && EndsWith(keys[i], n)
        && forall j :: 0 <= j < i ==> !(StartsWith(keys[j], "questions") && EndsWith(keys[j], n))
    decreases |keys|
  {
    if |keys| > 0 {
      QuestionsKeyCollapse(keys[0], n);
      if !QuestionsKeyFor(keys[0], n) {
        var rest := keys[1..];
        FindQuestionsKeySpec(rest, n);
        assert forall i :: 1 <= i < |keys| ==> keys[i] == rest[i - 1];
        if FindQuestionsKey(rest, n).Some? {
          var i :| 0 <= i < |rest| && rest[i] == FindQuestionsKey(rest, n).value
            && StartsWith(rest[i], "questions") && EndsWith(rest[i], n)
            && forall j :: 0 <= j < i ==> !(StartsWith(rest[j], "questions") && EndsWith(rest[j], n));
          assert keys[i + 1] == rest[i];
          assert forall j :: 0 <= j < i + 1 ==> !(StartsWith(keys[j], "questions") && EndsWith(keys[j], n)) by {
            forall j | 0 < j < i + 1
              ensures !(StartsWith(keys[j], "questions") && EndsWith(keys[j], n))
            {
              assert keys[j] == rest[j - 1];
            }
          }
        }
      }
    }
  }

  // ---------------------------------------------------------------------------
  // Section summaries
  // ---------------------------------------------------------------------------

  /** A paragraph fetched for a section, with `''` for every missing field. */
  datatype Paragraph = Paragraph(
    paragraph: string, publisher: string, aititle: string,
    biblicallesson: string, booktitle: string, holder: string)

  function ToParagraph(h: Search.Hit): Paragraph
  {
    Paragraph(Search.Field(h, "paragraph"), Search.Field(h, "publisher"), Search.Field(h, "aititle"),
              Search.Field(h, "biblicallesson"), Search.Field(h, "booktitle"), Search.Field(h, "holder"))
  }

  /** What the model needs of the outside world: `encodeURIComponent`, the
      search endpoint (`None` for a failed request or a body that cannot be
      read as an array of hits) and the chat-completion endpoint. */
  datatype Services = Services(
    encode: string -> string,
    fetch: string -> Option<seq<Search.Hit>>,
    complete: string -> Completion)

  /** The outcome of a chat-completion request. */
  datatype Completion = CallFailed | NoChoices | Reply(content: string)

  function Min(a: nat, b: nat): nat
  {
    if a <= b then a else b
  }

  function ParagraphsUrl(questions: string, count: nat, encode: string -> string): string
  {
    "/all/" + encode(questions) + "?count=" + NatToString(count)
  }

  /** `fetchParagraphsForQuestions(questions, count)`: the first `count`
      paragraphs of the reply, or none when the request fails. */
  function FetchParagraphs(questions: string, count: nat, env: Services): (ps: seq<Paragraph>)
    ensures |ps| <= count
    ensures env.fetch(ParagraphsUrl(questions, count, env.encode)).None? ==> ps == []
    ensures env.fetch(ParagraphsUrl(questions, count, env.encode)).Some? ==>
      |ps| == Min(count, |env.fetch(ParagraphsUrl(questions, count, env.encode)).value|)
    ensures env.fetch(ParagraphsUrl(questions, count, env.encode)).Some? ==>
      forall i :: 0 <= i < |ps| ==> ps[i] == ToParagraph(env.fetch(ParagraphsUrl(questions, count, env.encode)).value[i])
  {
    match env.fetch(ParagraphsUrl(questions, count, env.encode))
    case None => []
    case Some(data) =>
      seq(Min(count, |data|), i requires 0 <= i < Min(count, |data|) => ToParagraph(data[i]))
  }

  function ConcisePrompt(headline: string, text: string): string
  {
    "Summarize the following text about \"" + headline + "\" in less than 50 words:\n\n" + text
  }

  /** `generateConciseSummary(headline, text)`: the trimmed reply, or a fixed
      message when the request fails or brings no choice. */
  function ConciseSummary(headline: string, text: string, complete: string -> Completion): (r: string)
    ensures Trimmed(r)
    ensures complete(ConcisePrompt(headline, text)).Reply? ==>
      r == Trim(complete(ConcisePrompt(headline, text)).content)
  {
    match complete(ConcisePrompt(headline, text))
    case CallFailed => "Error generating summary."
    case NoChoices => "Failed to generate summary."
    case Reply(c) => Trim(c)
  }

  /** A value as a template literal or a property name shows it: an array as
      its items joined by commas, `undefined` as "undefined". */
  function Shown(v: Option<Value>): string
  {
    match v
    case None => "undefined"
    case Some(Scalar(s)) => s
    case Some(List(xs)) => Join(xs, ",")
  }

  /** The questions text: an array of questions is joined with spaces. */
  function QuestionsText(v: Value): string
  {
    match v
    case Scalar(s) => s
    case List(xs) => Join(xs, " ")
  }

  datatype Section = Section(summary: string, sources: seq<Paragraph>)

  /** The body of the loop of `generateWikiSectionSummaries` for headline key
      `hk`: the entry it stores, if it finds a non-empty questions value. */
  function SectionFor(outline: Dict<Value>, hk: string, snippets: nat, sourcesPer: nat, env: Services)
    : Option<(string, Section)>
  {
    var questionsKey := FindQuestionsKey(outline.keys, DigitsOf(hk));
    if questionsKey.None? || !Truthy(outline.Get(questionsKey.value)) then None
    else
      var headline := Shown(outline.Get(hk));
      var paragraphs := FetchParagraphs(QuestionsText(outline.Get(questionsKey.value).value), snippets, env);
      var summary := ConciseSummary(headline, Join(Seqs.Map(paragraphs, (p: Paragraph) => p.paragraph), " "), env.complete);
      Some((headline, Section(summary, paragraphs[..Min(sourcesPer, |paragraphs|)])))
  }

  /** The entries stored for the headline keys `hks`, in order. */
  function SectionsOf(outline: Dict<Value>, hks: seq<string>, snippets: nat, sourcesPer: nat, env: Services)
    : (r: Dict<Section>)
    ensures r.Valid()
    decreases |hks|
  {
    if |hks| == 0 then Empty()
    else
      var prev := SectionsOf(outline, hks[..|hks| - 1], snippets, sourcesPer, env);
      match SectionFor(outline, hks[|hks| - 1], snippets, sourcesPer, env)
      case None => prev
      case Some(entry) => prev.Put(entry.0, entry.1)
  }

  /** `generateWikiSectionSummaries(outline)`: a loop over the headline keys
      that fills the summaries object in place. */
  method SectionSummaries(outline: Dict<Value>, snippets: nat, sourcesPer: nat, env: Services)
    returns (summaries: Dict<Section>)
    ensures summaries == SectionsOf(outline, HeadlineKeys(outline.keys), snippets, sourcesPer, env)
  {
    var headlineKeys := HeadlineKeys(outline.keys);
    summaries := Empty();
    var i := 0;
    while i < |headlineKeys|
      invariant 0 <= i <= |headlineKeys|
      invariant summaries == SectionsOf(outline, headlineKeys[..i], snippets, sourcesPer, env)
    {
      assert headlineKeys[..i + 1][..i] == headlineKeys[..i];
      var headlineKey := headlineKeys[i];
      var headline := Shown(outline.Get(headlineKey));
      var questionsKey := FindQuestionsKey(outline.keys, DigitsOf(headlineKey));
      if questionsKey.Some? && Truthy(outline.Get(questionsKey.value)) {
        var questions := QuestionsText(outline.Get(questionsKey.value).value);
        var paragraphs := FetchParagraphs(questions, snippets, env);
        var combinedText := Join(Seqs.Map(paragraphs, (p: Paragraph) => p.paragraph), " ");
        var summary := ConciseSummary(headline, combinedText, env.complete);
        summaries := summaries.Put(headline, Section(summary, paragraphs[..Min(sourcesPer, |paragraphs|)]));
      }
      i := i + 1;
    }
    assert headlineKeys[..i] == headlineKeys;
  }

  /** The sources of a section are the first paragraphs fetched for some
      questions text, as many as `sourcesPer` allows. */
  ghost predicate SourcesFetched(sec: Section, snippets: nat, sourcesPer: nat, env: Services)
  {
    exists q :: sec.sources == FetchParagraphs(q, snippets, env)[..Min(sourcesPer, |FetchParagraphs(q, snippets, env)|)]
  }

  ghost predicate SectionOk(sec: Section, snippets: nat, sourcesPer: nat, env: Services)
  {
    |sec.sources| <= Min(sourcesPer, snippets) && SourcesFetched(sec, snippets, sourcesPer, env)
  }

  /** Every stored section is named after a headline, keeps at most
      `min(sourcesPer, snippets)` sources, and its sources are a prefix of the
      paragraphs fetched for its questions. */
  lemma {:induction false} SectionsSpec(outline: Dict<Value>, hks: seq<string>, snippets: nat, sourcesPer: nat, env: Services)
    ensures forall h :: h in SectionsOf(outline, hks, snippets, sourcesPer, env).vals ==>
      SectionOk(SectionsOf(outline, hks, snippets, sourcesPer, env).vals[h], snippets, sourcesPer, env)
      && exists j :: 0 <= j < |hks| && h == Shown(outline.Get(hks[j]))
    decreases |hks|
  {
    if |hks| > 0 {
      var p := hks[..|hks| - 1];
      var hk := hks[|hks| - 1];
      SectionsSpec(outline, p, snippets, sourcesPer, env);
      SectionForOk(outline, hk, snippets, sourcesPer, env);
      var prev := SectionsOf(outline, p, snippets, sourcesPer, env);
      var r := SectionsOf(outline, hks, snippets, sourcesPer, env);
      var entry := SectionFor(outline, hk, snippets, sourcesPer, env);
      forall h | h in r.vals
        ensures SectionOk(r.vals[h], snippets, sourcesPer, env)
        ensures exists j :: 0 <= j < |hks| && h == Shown(outline.Get(hks[j]))
      {
        if entry.Some? && h == entry.value.0 {
          assert r.Get(h) == Some(entry.value.1);
          assert h == Shown(outline.Get(hks[|hks| - 1]));
        } else {
          assert prev.Get(h) == r.Get(h);
          assert h in prev.vals && r.vals[h] == prev.vals[h];
          var j :| 0 <= j < |p| && h == Shown(outline.Get(p[j]));
          assert hks[j] == p[j];
        }
      }
    }
  }

  /** A headline key yields an entry exactly when its questions key is found
      with a truthy value. The entry is named after its headline, its summary
      is trimmed, and its sources are the first `sourcesPer` (or all, if fewer)
      of the paragraphs fetched for that key's questions text. */
  lemma SectionForOk(outline: Dict<Value>, hk: string, snippets: nat, sourcesPer: nat, env: Services)
    ensures var qk := FindQuestionsKey(outline.keys, DigitsOf(hk));
      SectionFor(outline, hk, snippets, sourcesPer, env).Some? <==> qk.Some? && Truthy(outline.Get(qk.value))
    ensures SectionFor(outline, hk, snippets, sourcesPer, env).Some? ==>
      && SectionFor(outline, hk, snippets, sourcesPer, env).value.0 == Shown(outline.Get(hk))
      && Trimmed(SectionFor(outline, hk, snippets, sourcesPer, env).value.1.summary)
      && SectionOk(SectionFor(outline, hk, snippets, sourcesPer, env).value.1, snippets, sourcesPer, env)
    ensures var qk := FindQuestionsKey(outline.keys, DigitsOf(hk));
      SectionFor(outline, hk, snippets, sourcesPer, env).Some? ==>
        var ps := FetchParagraphs(QuestionsText(outline.Get(qk.value).value), snippets, env);
        SectionFor(outline, hk, snippets, sourcesPer, env).value.1.sources == ps[..Min(sourcesPer, |ps|)]
  {
    var questionsKey := FindQuestionsKey(outline.keys, DigitsOf(hk));
    if questionsKey.Some? && Truthy(outline.Get(questionsKey.value)) {
      var q := QuestionsText(outline.Get(questionsKey.value).value);
      var ps := FetchParagraphs(q, snippets, env);
      assert SectionFor(outline, hk, snippets, sourcesPer, env).value.1.sources == ps[..Min(sourcesPer, |ps|)];
    }
  }

  /** The entry made for each headline key, if any. */
  function SectionEntries(outline: Dict<Value>, hks: seq<string>, snippets: nat, sourcesPer: nat, env: Services)
    : (es: seq<Option<(string, Section)>>)
    ensures |es| == |hks|
    ensures forall j :: 0 <= j < |hks| ==> es[j] == SectionFor(outline, hks[j], snippets, sourcesPer, env)
  {
    seq(|hks|, j requires 0 <= j < |hks| => SectionFor(outline, hks[j], snippets, sourcesPer, env))
  }

  /** The section dictionary is made by storing the headline keys' entries in turn. */
  lemma {:induction false} SectionsAsEntries(outline: Dict<Value>, hks: seq<string>, snippets: nat, sourcesPer: nat, env: Services)
    ensures SectionsOf(outline, hks, snippets, sourcesPer, env) == PutSome(SectionEntries(outline, hks, snippets, sourcesPer, env))
    decreases |hks|
  {
    if |hks| > 0 {
      var n := |hks| - 1;
      SectionsAsEntries(outline, hks[..n], snippets, sourcesPer, env);
      assert SectionEntries(outline, hks, snippets, sourcesPer, env)[..n]
          == SectionEntries(outline, hks[..n], snippets, sourcesPer, env);
    }
  }

  /** Every headline whose questions are found and non-empty gets an entry
      under its text. */
  lemma {:induction false} SectionsComplete(outline: Dict<Value>, hks: seq<string>, snippets: nat, sourcesPer: nat, env: Services)
    ensures forall j :: 0 <= j < |hks| && SectionFor(outline, hks[j], snippets, sourcesPer, env).Some? ==>
      SectionsOf(outline, hks, snippets, sourcesPer, env).Get(SectionFor(outline, hks[j], snippets, sourcesPer, env).value.0).Some?
  {
    var es := SectionEntries(outline, hks, snippets, sourcesPer, env);
    SectionsAsEntries(outline, hks, snippets, sourcesPer, env);
    forall j | 0 <= j < |hks| && SectionFor(outline, hks[j], snippets, sourcesPer, env).Some?
      ensures PutSome(es).Get(SectionFor(outline, hks[j], snippets, sourcesPer, env).value.0).Some?
    {
      PutSomeHas(es, j);
    }
  }

  /** A headline's entry is the one made for the last headline key that
      yields an entry with that text: a later one with the same text
      overwrites it, and entries under other texts leave it alone. */
  lemma {:induction false} SectionsLastWins(outline: Dict<Value>, hks: seq<string>, j: nat, snippets: nat, sourcesPer: nat, env: Services)
    requires j < |hks| && SectionFor(outline, hks[j], snippets, sourcesPer, env).Some?
    requires forall l :: j < l < |hks| && SectionFor(outline, hks[l], snippets, sourcesPer, env).Some? ==>
      SectionFor(outline, hks[l], snippets, sourcesPer, env).value.0 != SectionFor(outline, hks[j], snippets, sourcesPer, env).value.0
    ensures SectionsOf(outline, hks, snippets, sourcesPer, env).Get(SectionFor(outline, hks[j], snippets, sourcesPer, env).value.0)
         == Some(SectionFor(outline, hks[j], snippets, sourcesPer, env).value.1)
  {
    var es := SectionEntries(outline, hks, snippets, sourcesPer, env);
    SectionsAsEntries(outline, hks, snippets, sourcesPer, env);
    PutSomeLastWins(es, j);
  }

  // ---------------------------------------------------------------------------
  // The wiki summary
  // ---------------------------------------------------------------------------

  /** The outcome of the outline request: a failure before a reply could be
      read, a reply without choices, or the text of the first choice. */
  datatype OutlineReply = RequestFailed | NoChoice | Content(content: string)

  /** What the wiki tab shows: the outline and the section summaries. */
  datatype Wiki = Wiki(outline: Dict<Value>, summaries: Dict<Section>)

  const WikiFailed := "Failed to generate wiki summary."
  const WikiError := "Error generating wiki summary. Please try again."

  function ErrorWiki(message: string): Wiki
  {
    Wiki(Empty().Put("answer", Scalar(message)), Empty())
  }

  /** `generateWikiSummary`: the outline prompt is filled in and sent; the
      reply is parsed, its answer defaulted, and a summary made per headline.
      Setting `answer` on a JSON reply that is not an object throws (the
      module is strict code), which ends in the error message. */
  function GenerateWikiSummary(
    template: string, question: string, text: string,
    chat: string -> OutlineReply, json: string -> Json,
    snippets: nat, sourcesPer: nat, env: Services): Wiki
  {
    match chat(Search.FillPrompt(template, question, text))
    case RequestFailed => ErrorWiki(WikiError)
    case NoChoice => ErrorWiki(WikiFailed)
    case Content(c) =>
      match ParseWikiResponse(c, json)
      case JsonObject(o) =>
        var outline := DefaultAnswer(o);
        Wiki(outline, SectionsOf(outline, HeadlineKeys(outline.keys), snippets, sourcesPer, env))
      case _ => ErrorWiki(WikiError)
  }

  /** The wiki always has a non-empty answer. A failed request, a reply
      without choices and a non-object JSON reply give the fixed messages and
      no sections; a plain-text reply without key lines gives its trimmed text
      as the answer; every section keeps at most `min(sourcesPer, snippets)`
      sources, a prefix of the paragraphs fetched for it, and is named after a
      headline of the outline. */
  lemma GenerateWikiSummarySpec(
    template: string, question: string, text: string,
    chat: string -> OutlineReply, json: string -> Json,
    snippets: nat, sourcesPer: nat, env: Services)
    ensures var w := GenerateWikiSummary(template, question, text, chat, json, snippets, sourcesPer, env);
      && Truthy(w.outline.Get("answer"))
      && (forall h :: h in w.summaries.vals ==>
            SectionOk(w.summaries.vals[h], snippets, sourcesPer, env)
            && exists k :: k in w.outline.keys && StartsWith(k, "headline") && h == Shown(w.outline.Get(k)))
    ensures var reply := chat(Search.FillPrompt(template, question, text));
      var w := GenerateWikiSummary(template, question, text, chat, json, snippets, sourcesPer, env);
      && (reply.RequestFailed? ==> w == ErrorWiki(WikiError))
      && (reply.NoChoice? ==> w == ErrorWiki(WikiFailed))
      && (reply.Content? && json(reply.content).JsonPrimitive? ==> w == ErrorWiki(WikiError))
      && (reply.Content? && json(reply.content).NotJson?
          && (forall j :: 0 <= j < |Lines(reply.content)| ==> !IsKeyLine(Lines(reply.content)[j])) ==>
            w.outline == Empty().Put("answer",
              Scalar(if Trim(reply.content) == "" then NoAnswer else Trim(reply.content))))
  {
    var w := GenerateWikiSummary(template, question, text, chat, json, snippets, sourcesPer, env);
    var reply := chat(Search.FillPrompt(template, question, text));
    if reply.Content? {
      var c := reply.content;
      if json(c).NotJson? && (forall j :: 0 <= j < |Lines(c)| ==> !IsKeyLine(Lines(c)[j])) {
        PlainReplyAnswer(c);
      }
      match ParseWikiResponse(c, json)
      case JsonObject(o) =>
        var outline := DefaultAnswer(o);
        var hks := HeadlineKeys(outline.keys);
        SectionsSpec(outline, hks, snippets, sourcesPer, env);
        HeadlineKeysSpec(outline.keys);
        forall h | h in w.summaries.vals
          ensures exists k :: k in outline.keys && StartsWith(k, "headline") && h == Shown(outline.Get(k))
        {
          var j :| 0 <= j < |hks| && h == Shown(outline.Get(hks[j]));
          KeysWithPrefixHas(outline.keys, "headline", hks[j]);
        }
      case _ =>
    }
  }
}
