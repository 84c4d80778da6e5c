/**
  A Python `dict` with string keys, as an association list in insertion order.
  Python dicts remember the order in which keys were first inserted, and both
  `json.dumps` and `dict.values()` follow that order, so the model keeps it.
 */
module Dict {
  import opened Wrappers

  type Dict<V> = seq<(string, V)>

  /** No key occurs twice: every value a real dict can hold. */
  predicate DistinctKeys<V>(d: Dict<V>) {
    forall i, j | 0 <= i < j < |d| :: d[i].0 != d[j].0
  }

  /** The position of the first entry for `k`, or `|d|` when there is none. */
  function Find<V>(d: Dict<V>, k: string): (i: nat)
    ensures i <= |d|
    ensures i < |d| ==> d[i].0 == k
    ensures forall j | 0 <= j < i :: d[j].0 != k
  {
    if |d| == 0 then 0
    else if d[0].0 == k then 0
    else 1 + Find(d[1..], k)
  }

  /** `k in d`. */
  predicate HasKey<V>(d: Dict<V>, k: string) {
    Find(d, k) < |d|
  }

  /** The first-occurrence position is the only position satisfying its contract. */
  lemma {:induction false} FindIsFirst<V>(d: Dict<V>, k: string, i: nat)
    requires i <= |d|
    requires i < |d| ==> d[i].0 == k
    requires forall j | 0 <= j < i :: d[j].0 != k
    ensures Find(d, k) == i
  {
  }

  /** `k in d` holds exactly when some entry carries `k`. */
  lemma {:induction false} HasKeyIff<V>(d: Dict<V>, k: string)
    ensures HasKey(d, k) <==> exists i | 0 <= i < |d| :: d[i].0 == k
  {
    if HasKey(d, k) {
      assert d[Find(d, k)].0 == k;
    }
  }

  /** The values, in insertion order (`d.values()`). */
  function Values<V>(d: Dict<V>): (vs: seq<V>)
    ensures |vs| == |d|
    ensures forall i | 0 <= i < |d| :: vs[i] == d[i].1
  {
    seq(|d|, i requires 0 <= i < |d| => d[i].1)
  }

  /** `d.get(k)`: the value stored under `k`, if any. */
  function Lookup<V>(d: Dict<V>, k: string): (r: Option<V>)
    ensures r.Some? <==> HasKey(d, k)
    ensures r.Some? ==> (k, r.value) in d
  {
    var i := Find(d, k);
    if i < |d| then Some(d[i].1) else None
  }

  /** `d.get(k, default)`. */
  function GetOr<V>(d: Dict<V>, k: string, default: V): (v: V)
    ensures !HasKey(d, k) ==> v == default
    ensures HasKey(d, k) ==> Lookup(d, k) == Some(v)
  {
    match Lookup(d, k)
    case Some(v) => v
    case None => default
  }

  /**
    `d[k] = v`: an existing key keeps its place and gets the new value; a new
    key goes to the end.
   */
  function Update<V>(d: Dict<V>, k: string, v: V): Dict<V>
    decreases |d|
  {
    if |d| == 0 then [(k, v)]
    else if d[0].0 == k then [(k, v)] + d[1..]
    else [d[0]] + Update(d[1..], k, v)
  }

  /** `d[k] = v` replaces the entry for `k` in place, or appends one when there is none. */
  lemma {:induction false} UpdateShape<V>(d: Dict<V>, k: string, v: V)
    ensures HasKey(d, k) ==> Update(d, k, v) == d[Find(d, k) := (k, v)]
    ensures !HasKey(d, k) ==> Update(d, k, v) == d + [(k, v)]
    decreases |d|
  {
    if |d| > 0 {
      var r := Update(d, k, v);
      if d[0].0 == k {
        assert r == d[0 := (k, v)];
      } else {
        UpdateShape(d[1..], k, v);
        if HasKey(d, k) {
          assert r == d[Find(d, k) := (k, v)];
        } else {
          assert r == d + [(k, v)];
        }
      }
    }
  }

  /** After `d[k] = v`, `d.get(k)` is `v`. */
  lemma {:induction false} UpdateSame<V>(d: Dict<V>, k: string, v: V)
    ensures Lookup(Update(d, k, v), k) == Some(v)
  {
    UpdateShape(d, k, v);
    FindIsFirst(Update(d, k, v), k, Find(d, k));
  }

  /** `d[k] = v` leaves every other key's value alone. */
  lemma {:induction false} UpdateOther<V>(d: Dict<V>, k: string, v: V, k': string)
    requires k' != k
    ensures Lookup(Update(d, k, v), k') == Lookup(d, k')
  {
    var r := Update(d, k, v);
    UpdateShape(d, k, v);
    var j := Find(d, k');
    if j < |d| {
      FindIsFirst(r, k', j);
    } else {
      FindIsFirst(r, k', |r|);
    }
  }

  /** After `d[k] = v`, `k` maps to `v`, every other key is left alone, and no key moves. */
  lemma {:induction false} UpdateSpec<V>(d: Dict<V>, k: string, v: V)
    ensures Lookup(Update(d, k, v), k) == Some(v)
    ensures forall k' | k' != k :: Lookup(Update(d, k, v), k') == Lookup(d, k')
    ensures |d| <= |Update(d, k, v)| && forall i | 0 <= i < |d| :: Update(d, k, v)[i].0 == d[i].0
    ensures HasKey(d, k) ==> |Update(d, k, v)| == |d|
    ensures !HasKey(d, k) ==> Update(d, k, v) == d + [(k, v)]
  {
    UpdateShape(d, k, v);
    UpdateSame(d, k, v);
    forall k' | k' != k ensures Lookup(Update(d, k, v), k') == Lookup(d, k') {
      UpdateOther(d, k, v, k');
    }
  }

  /** In a dict with distinct keys, the entry carrying `k` is the one `d.get(k)` finds. */
  lemma {:induction false} LookupDistinct<V>(d: Dict<V>, k: string, i: nat)
    requires DistinctKeys(d)
    requires i < |d| && d[i].0 == k
    ensures Lookup(d, k) == Some(d[i].1)
  {
    FindIsFirst(d, k, i);
  }

  /** `d[k] = v` keeps the keys of a dict distinct. */
  lemma {:induction false} UpdateDistinct<V>(d: Dict<V>, k: string, v: V)
    requires DistinctKeys(d)
    ensures DistinctKeys(Update(d, k, v))
  {
    var r := Update(d, k, v);
    UpdateShape(d, k, v);
    forall a, b | 0 <= a < b < |r| ensures r[a].0 != r[b].0 {
      if b == |d| {
        assert r[b].0 == k;
        assert r[a] == d[a];
      }
    }
  }

  /**
    `dict(pairs)`, as `json.loads` builds an object: a later duplicate
    overwrites the value but keeps the position of the first occurrence.
   */
  function FromPairs<V>(ps: seq<(string, V)>): Dict<V>
    decreases |ps|
  {
    if |ps| == 0 then []
    else Update(FromPairs(ps[..|ps| - 1]), ps[|ps| - 1].0, ps[|ps| - 1].1)
  }

  /** Whatever pairs it is given, `dict(pairs)` has each key once. */
  lemma {:induction false} FromPairsDistinct<V>(ps: seq<(string, V)>)
    ensures DistinctKeys(FromPairs(ps))
    decreases |ps|
  {
    if |ps| > 0 {
      FromPairsDistinct(ps[..|ps| - 1]);
      UpdateSpec(FromPairs(ps[..|ps| - 1]), ps[|ps| - 1].0, ps[|ps| - 1].1);
    }
  }

  /** Each key of `dict(pairs)` maps to the value of the last pair that carries it. */
  lemma {:induction false} FromPairsLast<V>(ps: seq<(string, V)>, k: string, i: nat)
    requires i < |ps| && ps[i].0 == k
    requires forall j | i < j < |ps| :: ps[j].0 != k
    ensures Lookup(FromPairs(ps), k) == Some(ps[i].1)
    decreases |ps|
  {
    var n := |ps| - 1;
    if ps[n].0 == k {
      assert i == n;
      UpdateSame(FromPairs(ps[..n]), k, ps[n].1);
    } else {
      FromPairsLast(ps[..n], k, i);
      UpdateOther(FromPairs(ps[..n]), ps[n].0, ps[n].1, k);
    }
  }

  /** `dict(pairs)` has exactly the keys the pairs carry. */
  lemma {:induction false} FromPairsKeys<V>(ps: seq<(string, V)>, k: string)
    ensures HasKey(FromPairs(ps), k) <==> HasKey(ps, k)
    decreases |ps|
  {
    if |ps| > 0 {
      var n := |ps| - 1;
      var init := ps[..n];
      assert init + [ps[n]] == ps;
      var r0 := FromPairs(init);
      if ps[n].0 == k {
        UpdateSame(r0, k, ps[n].1);
        assert HasKey(FromPairs(ps), k);
        if HasKey(init, k) {
          FindPrefix(init, ps[n], k);
        } else {
          FindIsFirst(ps, k, n);
        }
      } else {
        FromPairsKeys(init, k);
        UpdateOther(r0, ps[n].0, ps[n].1, k);
        assert HasKey(FromPairs(ps), k) <==> HasKey(r0, k);
        if HasKey(init, k) {
          FindPrefix(init, ps[n], k);
        } else {
          FindIsFirst(ps, k, |ps|);
        }
      }
    }
  }

  /** A key of a prefix is first found in the prefix. */
  lemma {:induction false} FindPrefix<V>(d: Dict<V>, x: (string, V), k: string)
    requires HasKey(d, k)
    ensures Find(d + [x], k) == Find(d, k)
  {
    FindIsFirst(d + [x], k, Find(d, k));
  }

  /**
    The keys of `dict(pairs)` come in the order of their first occurrences
    among the pairs: a later duplicate does not move its key.
   */
  lemma {:induction false} FromPairsOrder<V>(ps: seq<(string, V)>)
    ensures var r := FromPairs(ps);
      forall a, b | 0 <= a < b < |r| :: Find(ps, r[a].0) < Find(ps, r[b].0)
    decreases |ps|
  {
    if |ps| > 0 {
      var n := |ps| - 1;
      var init := ps[..n];
      var r0 := FromPairs(init);
      var r := FromPairs(ps);
      assert init + [ps[n]] == ps;
      FromPairsOrder(init);
      UpdateShape(r0, ps[n].0, ps[n].1);
      forall a | 0 <= a < |r0| ensures r[a].0 == r0[a].0 && Find(ps, r0[a].0) == Find(init, r0[a].0) < n {
        HasKeyIff(r0, r0[a].0);
        FromPairsKeys(init, r0[a].0);
        FindPrefix(init, ps[n], r0[a].0);
      }
      if !HasKey(r0, ps[n].0) {
        FromPairsKeys(init, ps[n].0);
        FindIsFirst(ps, ps[n].0, n);
      }
    }
  }

  /** A list of pairs with distinct keys is already the dict it builds. */
  lemma {:induction false} FromDistinctPairs<V>(ps: seq<(string, V)>)
    requires DistinctKeys(ps)
    ensures FromPairs(ps) == ps
    decreases |ps|
  {
    if |ps| > 0 {
      var init := ps[..|ps| - 1];
      var last := ps[|ps| - 1];
      FromDistinctPairs(init);
      assert !HasKey(init, last.0);
      UpdateSpec(init, last.0, last.1);
      assert init + [last] == ps;
    }
  }

  /**
    `for k, v in kvs: d[k] = d.get(k, []) + [v]`: each value is appended to
    the list of its key, in order.
   */
  function Appended<V>(d: Dict<seq<V>>, kvs: seq<(string, V)>): Dict<seq<V>>
    decreases |kvs|
  {
    if |kvs| == 0 then d
    else Appended(Update(d, kvs[0].0, GetOr(d, kvs[0].0, []) + [kvs[0].1]), kvs[1..])
  }

  /** Appending keeps each key once. */
  lemma {:induction false} AppendedDistinct<V>(d: Dict<seq<V>>, kvs: seq<(string, V)>)
    requires DistinctKeys(d)
    ensures DistinctKeys(Appended(d, kvs))
    decreases |kvs|
  {
    if |kvs| > 0 {
      var k := kvs[0].0;
      UpdateDistinct(d, k, GetOr(d, k, []) + [kvs[0].1]);
      AppendedDistinct(Update(d, k, GetOr(d, k, []) + [kvs[0].1]), kvs[1..]);
    }
  }

  /** A key none of the pairs carries keeps its list. */
  lemma {:induction false} AppendedOther<V>(d: Dict<seq<V>>, kvs: seq<(string, V)>, k: string)
    requires !HasKey(kvs, k)
    ensures Lookup(Appended(d, kvs), k) == Lookup(d, k)
    decreases |kvs|
  {
    if |kvs| > 0 {
      var k0 := kvs[0].0;
      assert k0 != k && !HasKey(kvs[1..], k);
      AppendedOther(Update(d, k0, GetOr(d, k0, []) + [kvs[0].1]), kvs[1..], k);
      UpdateOther(d, k0, GetOr(d, k0, []) + [kvs[0].1], k);
    }
  }

  /** The first pair's key, when no later pair carries it, gets its value appended. */
  lemma {:induction false} AppendedFirst<V>(d: Dict<seq<V>>, kvs: seq<(string, V)>)
    requires |kvs| > 0
    requires forall j | 1 <= j < |kvs| :: kvs[j].0 != kvs[0].0
    ensures Lookup(Appended(d, kvs), kvs[0].0) == Some(GetOr(d, kvs[0].0, []) + [kvs[0].1])
  {
    var k0 := kvs[0].0;
    var rest := kvs[1..];
    var d' := Update(d, k0, GetOr(d, k0, []) + [kvs[0].1]);
    assert Appended(d, kvs) == Appended(d', rest);
    assert Lookup(Appended(d', rest), k0) == Lookup(d', k0) by {
      forall j | 0 <= j < |rest| ensures rest[j].0 != k0 {
        assert rest[j] == kvs[j + 1];
      }
      HasKeyIff(rest, k0);
      AppendedOther(d', rest, k0);
    }
    UpdateSame(d, k0, GetOr(d, k0, []) + [kvs[0].1]);
  }

  /**
    The `i`-th pair's key, when no other pair carries it, gets its value
    appended to the list it had, which keeps every value it had before.
   */
  lemma {:induction false} AppendedAt<V>(d: Dict<seq<V>>, kvs: seq<(string, V)>, i: nat)
    requires i < |kvs|
    requires forall j | 0 <= j < |kvs| && j != i :: kvs[j].0 != kvs[i].0
    ensures Lookup(Appended(d, kvs), kvs[i].0) == Some(GetOr(d, kvs[i].0, []) + [kvs[i].1])
    decreases |kvs|
  {
    if i == 0 {
      AppendedFirst(d, kvs);
    } else {
      var k0 := kvs[0].0;
      var d' := Update(d, k0, GetOr(d, k0, []) + [kvs[0].1]);
      var rest := kvs[1..];
      var k := kvs[i].0;
      assert Appended(d, kvs) == Appended(d', rest);
      assert Lookup(Appended(d', rest), k) == Some(GetOr(d', k, []) + [kvs[i].1]) by {
        assert rest[i - 1] == kvs[i];
        forall j | 0 <= j < |rest| && j != i - 1 ensures rest[j].0 != k {
          assert rest[j] == kvs[j + 1];
        }
        AppendedAt(d', rest, i - 1);
      }
      UpdateOther(d, k0, GetOr(d, k0, []) + [kvs[0].1], k);
    }
  }

  /**
    With distinct keys in the pairs, every pair's key gets its value appended
    and every other key keeps its list.
   */
  lemma {:induction false} AppendedSpec<V>(d: Dict<seq<V>>, kvs: seq<(string, V)>)
    requires DistinctKeys(kvs)
    ensures forall i | 0 <= i < |kvs| :: Lookup(Appended(d, kvs), kvs[i].0) == Some(GetOr(d, kvs[i].0, []) + [kvs[i].1])
    ensures forall k | !HasKey(kvs, k) :: Lookup(Appended(d, kvs), k) == Lookup(d, k)
  {
    forall i | 0 <= i < |kvs| ensures Lookup(Appended(d, kvs), kvs[i].0) == Some(GetOr(d, kvs[i].0, []) + [kvs[i].1]) {
      AppendedAt(d, kvs, i);
    }
    forall k | !HasKey(kvs, k) ensures Lookup(Appended(d, kvs), k) == Lookup(d, k) {
      AppendedOther(d, kvs, k);
    }
  }
}
