/** A plain JavaScript object used as a dictionary: its keys in the order they
    were first assigned, and the value currently stored under each. */
module OrderedMap {
  import opened Wrappers
  import Seqs

  datatype Dict<V> = Dict(keys: seq<string>, vals: map<string, V>)
  {
    /** The keys listed are exactly the keys stored, each once. */
    ghost predicate Valid()
    {
      Seqs.Distinct(keys) && forall k :: k in vals <==> k in keys
    }

    /** `obj[k]`, with `None` for `undefined`. */
    function Get(k: string): Option<V>
    {
      if k in vals then Some(vals[k]) else None
    }

    /** `obj[k] = v`: a new key goes to the end of the key order, an existing
        key keeps its place. */
    function Put(k: string, v: V): (d: Dict<V>)
      ensures Valid() ==> d.Valid()
      ensures d.Get(k) == Some(v)
      ensures forall j :: j != k ==> d.Get(j) == Get(j)
      ensures d.keys == keys || d.keys == keys + [k]
      ensures Valid() ==> (d.keys == keys <==> k in keys)
    {
      if k in vals then Dict(keys, vals[k := v]) else Dict(keys + [k], vals[k := v])
    }
  }

  function Empty<V>(): (d: Dict<V>)
    ensures d.Valid() && |d.keys| == 0
  {
    Dict([], map[])
  }

  /** The assignments `obj[kvs[0].0] = kvs[0].1; obj[kvs[1].0] = kvs[1].1; ...`. */
  function PutAll<V>(d: Dict<V>, kvs: seq<(string, V)>): (r: Dict<V>)
    ensures d.Valid() ==> r.Valid()
    decreases |kvs|
  {
    if |kvs| == 0 then d
    else PutAll(d, kvs[..|kvs| - 1]).Put(kvs[|kvs| - 1].0, kvs[|kvs| - 1].1)
  }

  function KeysOf<V>(kvs: seq<(string, V)>): (ks: seq<string>)
    ensures |ks| == |kvs|
    ensures forall i :: 0 <= i < |kvs| ==> ks[i] == kvs[i].0
  {
    seq(|kvs|, i requires 0 <= i < |kvs| => kvs[i].0)
  }

  /** The value of the last assignment to `k` among `kvs`, or `dflt` if there is none. */
  function Last<V>(kvs: seq<(string, V)>, k: string, dflt: Option<V>): Option<V>
    decreases |kvs|
  {
    if |kvs| == 0 then dflt
    else if kvs[|kvs| - 1].0 == k then Some(kvs[|kvs| - 1].1)
    else Last(kvs[..|kvs| - 1], k, dflt)
  }

  /** Starting from an empty object, the key order is the order in which keys
      were first assigned. */
  lemma {:induction false} PutAllKeys<V>(kvs: seq<(string, V)>)
    ensures PutAll(Empty(), kvs).keys == Seqs.Dedup(KeysOf(kvs))
    decreases |kvs|
  {
    if |kvs| > 0 {
      var p := kvs[..|kvs| - 1];
      PutAllKeys(p);
      assert KeysOf(kvs)[..|kvs| - 1] == KeysOf(p);
    }
  }

  /** Every key holds the value of its last assignment. */
  lemma {:induction false} PutAllGet<V>(d: Dict<V>, kvs: seq<(string, V)>, k: string)
    ensures PutAll(d, kvs).Get(k) == Last(kvs, k, d.Get(k))
    decreases |kvs|
  {
    if |kvs| > 0 {
      PutAllGet(d, kvs[..|kvs| - 1], k);
    }
  }

  /** When each key is assigned once, its value is that one assignment's. */
  lemma {:induction false} LastOfDistinct<V>(kvs: seq<(string, V)>, i: nat, dflt: Option<V>)
    requires i < |kvs|
    requires Seqs.Distinct(KeysOf(kvs))
    ensures Last(kvs, kvs[i].0, dflt) == Some(kvs[i].1)
    decreases |kvs|
  {
    var n := |kvs| - 1;
    if i < n {
      var p := kvs[..n];
      assert KeysOf(kvs)[i] != KeysOf(kvs)[n];
      assert KeysOf(p) == KeysOf(kvs)[..n];
      LastOfDistinct(p, i, dflt);
    }
  }

  /** Making the assignments of `a` and then those of `b` is making those of `a + b`. */
  lemma {:induction false} PutAllAppend<V>(d: Dict<V>, a: seq<(string, V)>, b: seq<(string, V)>)
    ensures PutAll(d, a + b) == PutAll(PutAll(d, a), b)
    decreases |b|
  {
    if |b| == 0 {
      assert a + b == a;
    } else {
      var b' := b[..|b| - 1];
      assert (a + b)[..|a + b| - 1] == a + b';
      PutAllAppend(d, a, b');
    }
  }

  /** The last assignment to `k` in `a + b` is in `b` if `b` has one, and otherwise in `a`. */
  lemma {:induction false} LastAppend<V>(a: seq<(string, V)>, b: seq<(string, V)>, k: string, dflt: Option<V>)
    ensures Last(a + b, k, dflt) == Last(b, k, Last(a, k, dflt))
    decreases |b|
  {
    if |b| == 0 {
      assert a + b == a;
    } else {
      var b' := b[..|b| - 1];
      assert (a + b)[..|a + b| - 1] == a + b';
      LastAppend(a, b', k, dflt);
    }
  }

  /** The assignments made by a loop that, for each entry in turn, assigns
      `obj[e.0] = e.1` when there is an entry `e` and skips it otherwise. */
  function PutSome<V>(entries: seq<Option<(string, V)>>): (r: Dict<V>)
    ensures r.Valid()
    decreases |entries|
  {
    if |entries| == 0 then Empty()
    else
      var prev := PutSome(entries[..|entries| - 1]);
      match entries[|entries| - 1]
      case None => prev
      case Some(e) => prev.Put(e.0, e.1)
  }

  /** Every entry's key is stored. */
  lemma {:induction false} PutSomeHas<V>(entries: seq<Option<(string, V)>>, j: nat)
    requires j < |entries| && entries[j].Some?
    ensures PutSome(entries).Get(entries[j].value.0).Some?
    decreases |entries|
  {
    var n := |entries| - 1;
    if j < n {
      var p := entries[..n];
      assert p[j] == entries[j];
      PutSomeHas(p, j);
    }
  }

  /** The value of the last entry with key `k`, if any. */
  function LastSome<V>(entries: seq<Option<(string, V)>>, k: string): Option<V>
    decreases |entries|
  {
    if |entries| == 0 then None
    else
      match entries[|entries| - 1]
      case Some(e) => if e.0 == k then Some(e.1) else LastSome(entries[..|entries| - 1], k)
      case None => LastSome(entries[..|entries| - 1], k)
  }

  /** Every key holds the value of its last entry. */
  lemma {:induction false} PutSomeGet<V>(entries: seq<Option<(string, V)>>, k: string)
    ensures PutSome(entries).Get(k) == LastSome(entries, k)
    decreases |entries|
  {
    if |entries| > 0 {
      PutSomeGet(entries[..|entries| - 1], k);
    }
  }

  /** An entry's key holds that entry's value when no later entry has the
      same key. */
  lemma {:induction false} PutSomeLastWins<V>(entries: seq<Option<(string, V)>>, j: nat)
    requires j < |entries| && entries[j].Some?
    requires forall l :: j < l < |entries| && entries[l].Some? ==> entries[l].value.0 != entries[j].value.0
    ensures PutSome(entries).Get(entries[j].value.0) == Some(entries[j].value.1)
  {
    PutSomeGet(entries, entries[j].value.0);
    LastSomeAt(entries, j, entries[j].value.0);
  }

  lemma {:induction false} LastSomeAt<V>(entries: seq<Option<(string, V)>>, j: nat, k: string)
    requires j < |entries| && entries[j].Some? && entries[j].value.0 == k
    requires forall l :: j < l < |entries| && entries[l].Some? ==> entries[l].value.0 != k
    ensures LastSome(entries, k) == Some(entries[j].value.1)
    decreases |entries|
  {
    var n := |entries| - 1;
    if j < n {
      var p := entries[..n];
      assert p[j] == entries[j];
      forall l | j < l < |p| && p[l].Some? ensures p[l].value.0 != k {
        assert p[l] == entries[l];
      }
      LastSomeAt(p, j, k);
    }
  }

  lemma PutAllOne<V>(d: Dict<V>, k: string, v: V)
    ensures PutAll(d, [(k, v)]) == d.Put(k, v)
  {
    assert [(k, v)][..0] == [];
  }

  lemma PutAllTwo<V>(d: Dict<V>, k1: string, v1: V, k2: string, v2: V)
    ensures PutAll(d, [(k1, v1), (k2, v2)]) == d.Put(k1, v1).Put(k2, v2)
  {
    assert [(k1, v1), (k2, v2)][..1] == [(k1, v1)];
    PutAllOne(d, k1, v1);
  }
}
