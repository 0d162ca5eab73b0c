/** Python dicts with string keys: the entries in insertion order, no key
    twice. Assigning to a present key keeps its position; a new key goes
    to the end. */
module Dicts {
  import opened Results

  predicate UniqueKeys<V>(d: seq<(string, V)>) {
    forall i, j :: 0 <= i < j < |d| ==> d[i].0 != d[j].0
  }

  type Dict<V> = d: seq<(string, V)> | UniqueKeys(d) witness []

  /** `list(d.keys())`. */
  function Keys<V>(d: seq<(string, V)>): seq<string> {
    if d == [] then [] else [d[0].0] + Keys(d[1..])
  }

  lemma {:induction false} KeysAt<V>(d: seq<(string, V)>, i: nat)
    requires i < |d|
    ensures |Keys(d)| == |d| && Keys(d)[i] == d[i].0
  {
    if i > 0 { KeysAt(d[1..], i - 1); } else { KeysLength(d); }
  }

  lemma {:induction false} KeysLength<V>(d: seq<(string, V)>)
    ensures |Keys(d)| == |d|
  {
    if d != [] { KeysLength(d[1..]); }
  }

  lemma {:induction false} InKeys<V>(d: seq<(string, V)>, k: string)
    ensures k in Keys(d) <==> exists i :: 0 <= i < |d| && d[i].0 == k
  {
    if d != [] {
      InKeys(d[1..], k);
      if k in Keys(d[1..]) {
        var i :| 0 <= i < |d[1..]| && d[1..][i].0 == k;
        assert d[i + 1].0 == k;
      }
      if exists i :: 0 <= i < |d| && d[i].0 == k {
        var i :| 0 <= i < |d| && d[i].0 == k;
        if i > 0 { assert d[1..][i - 1].0 == k; }
      }
    }
  }

  /** `d.get(k)`: the value stored under `k`, None when `k` is absent. */
  function Get<V>(d: Dict<V>, k: string): (r: Option<V>)
    ensures r.Some? <==> k in Keys(d)
    ensures forall i :: 0 <= i < |d| && d[i].0 == k ==> r == Some(d[i].1)
  {
    if d == [] then None
    else if d[0].0 == k then
      assert forall i :: 0 < i < |d| ==> d[i].0 != k;
      Some(d[0].1)
    else
      assert forall i :: 0 < i < |d| ==> d[i] == d[1..][i - 1];
      Get(d[1..], k)
  }

  /** `d[k] = v` on a copy of `d`. */
  function Put<V>(d: Dict<V>, k: string, v: V): (r: Dict<V>)
    ensures Get(r, k) == Some(v)
    ensures forall k' :: k' != k ==> Get(r, k') == Get(d, k')
    ensures Keys(r) == if k in Keys(d) then Keys(d) else Keys(d) + [k]
  {
    if d == [] then [(k, v)]
    else if d[0].0 == k then
      var r: seq<(string, V)> := [(k, v)] + d[1..];
      assert forall i :: 0 < i < |r| ==> r[i] == d[i];
      assert Keys(r) == [k] + Keys(d[1..]);
      r
    else
      var tail := Put(d[1..], k, v);
      var r: seq<(string, V)> := [d[0]] + tail;
      assert d[0].0 !in Keys(d[1..]) by {
        InKeys(d[1..], d[0].0);
        forall i | 0 <= i < |d[1..]| ensures d[1..][i].0 != d[0].0 { assert d[1..][i] == d[i + 1]; }
      }
      assert d[0].0 !in Keys(tail);
      ConsUnique(d[0], tail);
      assert Keys(r) == [d[0].0] + Keys(tail);
      r
  }

  /** A pair whose key is new to a dict can go in front of it. */
  lemma ConsUnique<V>(x: (string, V), d: seq<(string, V)>)
    requires UniqueKeys(d) && x.0 !in Keys(d)
    ensures UniqueKeys([x] + d)
  {
    var r := [x] + d;
    forall i, j | 0 <= i < j < |r| ensures r[i].0 != r[j].0 {
      if i == 0 { InKeys(d, r[j].0); assert r[j] == d[j - 1]; }
      else { assert r[i] == d[i - 1] && r[j] == d[j - 1]; }
    }
  }

  /** The value of the last pair in `kvs` whose key is `k`. */
  function LastValue<V>(kvs: seq<(string, V)>, k: string): Option<V> {
    if kvs == [] then None
    else if kvs[|kvs| - 1].0 == k then Some(kvs[|kvs| - 1].1)
    else LastValue(kvs[..|kvs| - 1], k)
  }

  lemma {:induction false} LastValueConcat<V>(a: seq<(string, V)>, b: seq<(string, V)>, k: string)
    ensures LastValue(a + b, k) == if LastValue(b, k).Some? then LastValue(b, k) else LastValue(a, k)
  {
    if b == [] {
      assert a + b == a;
    } else {
      var n := |b| - 1;
      assert (a + b)[..|a + b| - 1] == a + b[..n];
      LastValueConcat(a, b[..n], k);
    }
  }

  /** `for k, v in kvs: d[k] = v`. */
  function PutEach<V>(d: Dict<V>, kvs: seq<(string, V)>): Dict<V> {
    if kvs == [] then d
    else Put(PutEach(d, kvs[..|kvs| - 1]), kvs[|kvs| - 1].0, kvs[|kvs| - 1].1)
  }

  lemma PutEachSnoc<V>(d: Dict<V>, kvs: seq<(string, V)>, k: string, v: V)
    ensures PutEach(d, kvs + [(k, v)]) == Put(PutEach(d, kvs), k, v)
  {
    assert (kvs + [(k, v)])[..|kvs|] == kvs;
  }

  /** Two runs of assignments in a row are one run. */
  lemma {:induction false} PutEachConcat<V>(d: Dict<V>, a: seq<(string, V)>, b: seq<(string, V)>)
    ensures PutEach(PutEach(d, a), b) == PutEach(d, a + b)
  {
    if b == [] {
      assert a + b == a;
    } else {
      var n := |b| - 1;
      var init, last := b[..n], b[n];
      SplitLast(a, b);
      PutEachConcat(d, a, init);
      PutEachSnoc(PutEach(d, a), init, last.0, last.1);
      PutEachSnoc(d, a + init, last.0, last.1);
    }
  }

  lemma SplitLast<T>(a: seq<T>, b: seq<T>)
    requires b != []
    ensures b == b[..|b| - 1] + [b[|b| - 1]]
    ensures a + b == (a + b[..|b| - 1]) + [b[|b| - 1]]
  {
  }

  /** Later assignments win: after a run of assignments a key holds the
      value it was last assigned, or its old value if none assigned it. */
  lemma {:induction false} GetPutEach<V>(d: Dict<V>, kvs: seq<(string, V)>, k: string)
    ensures Get(PutEach(d, kvs), k) == if LastValue(kvs, k).Some? then LastValue(kvs, k) else Get(d, k)
  {
    if kvs != [] {
      GetPutEach(d, kvs[..|kvs| - 1], k);
    }
  }

  /** Some assignment in `kvs` is to `k`. */
  lemma {:induction false} LastValueSome<V>(kvs: seq<(string, V)>, k: string)
    ensures LastValue(kvs, k).Some? <==> exists i :: 0 <= i < |kvs| && kvs[i].0 == k
  {
    if kvs != [] {
      var init := kvs[..|kvs| - 1];
      LastValueSome(init, k);
      if exists i :: 0 <= i < |init| && init[i].0 == k {
        var i :| 0 <= i < |init| && init[i].0 == k;
        assert kvs[i].0 == k;
      }
      if exists i :: 0 <= i < |kvs| && kvs[i].0 == k {
        var i :| 0 <= i < |kvs| && kvs[i].0 == k;
        if i < |init| { assert init[i].0 == k; }
      }
    }
  }

  /** The keys after a run of assignments are the old keys and the
      assigned ones. */
  lemma PutEachKeys<V>(d: Dict<V>, kvs: seq<(string, V)>, k: string)
    ensures k in Keys(PutEach(d, kvs)) <==> k in Keys(d) || exists i :: 0 <= i < |kvs| && kvs[i].0 == k
  {
    GetPutEach(d, kvs, k);
    LastValueSome(kvs, k);
  }

  /** For pairs with distinct keys, the last assignment to a key is its
      only one. */
  lemma {:induction false} LastValueUnique<V>(kvs: seq<(string, V)>, k: string)
    requires UniqueKeys(kvs)
    ensures LastValue(kvs, k) == Get(kvs, k)
  {
    if kvs != [] {
      var n := |kvs| - 1;
      InitUnique(kvs);
      if kvs[n].0 != k {
        LastValueUnique(kvs[..n], k);
        GetInit(kvs, k);
      }
    }
  }

  /** A dict without its last pair is still a dict. */
  lemma InitUnique<V>(kvs: seq<(string, V)>)
    requires UniqueKeys(kvs) && kvs != []
    ensures UniqueKeys(kvs[..|kvs| - 1])
  {
    var init := kvs[..|kvs| - 1];
    forall i, j | 0 <= i < j < |init| ensures init[i].0 != init[j].0 {
      assert init[i] == kvs[i] && init[j] == kvs[j];
    }
  }

  /** Looking up a key other than the last pair's ignores that pair. */
  lemma GetInit<V>(kvs: seq<(string, V)>, k: string)
    requires UniqueKeys(kvs) && kvs != [] && kvs[|kvs| - 1].0 != k
    requires UniqueKeys(kvs[..|kvs| - 1])
    ensures Get(kvs, k) == Get(kvs[..|kvs| - 1], k)
  {
    var n := |kvs| - 1;
    var init := kvs[..n];
    InKeys(init, k);
    InKeys(kvs, k);
    if k in Keys(init) {
      var i :| 0 <= i < |init| && init[i].0 == k;
      assert kvs[i] == init[i];
    } else {
      forall i | 0 <= i < |kvs| ensures kvs[i].0 != k {
        if i < n { assert kvs[i] == init[i]; }
      }
    }
  }
}
