/**
  Python dictionaries. A `dict` remembers insertion order, so it is modelled as
  a sequence of (key, value) pairs; the dictionaries the program builds have
  distinct keys (`DistinctKeys`).
 */
module Dicts {
  import opened Wrappers

  type Dict<K, V> = seq<(K, V)>

  function Keys<K, V>(d: Dict<K, V>): seq<K> {
    seq(|d|, i requires 0 <= i < |d| => d[i].0)
  }

  function Values<K, V>(d: Dict<K, V>): seq<V> {
    seq(|d|, i requires 0 <= i < |d| => d[i].1)
  }

  predicate Distinct<T(==)>(s: seq<T>) {
    forall i, j :: 0 <= i < j < |s| ==> s[i] != s[j]
  }

  predicate DistinctKeys<K(==), V>(d: Dict<K, V>) {
    Distinct(Keys(d))
  }

  lemma KeysCons<K, V>(d: Dict<K, V>)
    requires d != []
    ensures Keys(d) == [d[0].0] + Keys(d[1..])
  {
  }

  lemma KeysAppend<K, V>(a: Dict<K, V>, b: Dict<K, V>)
    ensures Keys(a + b) == Keys(a) + Keys(b)
  {
  }

  lemma DistinctCons<T>(s: seq<T>)
    requires s != []
    ensures Distinct(s) <==> s[0] !in s[1..] && Distinct(s[1..])
  {
    if s[0] !in s[1..] && Distinct(s[1..]) {
      forall i, j | 0 <= i < j < |s| ensures s[i] != s[j] {
        if i > 0 { assert s[i] == s[1..][i - 1] && s[j] == s[1..][j - 1]; }
        else { assert s[j] == s[1..][j - 1]; }
      }
    }
    if Distinct(s) {
      forall i, j | 0 <= i < j < |s[1..]| ensures s[1..][i] != s[1..][j] {
        assert s[1..][i] == s[i + 1] && s[1..][j] == s[j + 1];
      }
    }
  }

  lemma DistinctAppend<T>(s: seq<T>, x: T)
    requires Distinct(s) && x !in s
    ensures Distinct(s + [x])
  {
  }

  /** `d.get(k)`: the value bound to `k`, if any. */
  function Lookup<K(==), V>(d: Dict<K, V>, k: K): (r: Option<V>)
    ensures r.Some? <==> k in Keys(d)
    ensures r.Some? ==> (k, r.value) in d
  {
    if d == [] then None
    else
      KeysCons(d);
      if d[0].0 == k then Some(d[0].1) else Lookup(d[1..], k)
  }

  /** In a dictionary with distinct keys, every pair is what lookup finds. */
  lemma {:induction false} LookupPair<K, V>(d: Dict<K, V>, k: K, v: V)
    requires DistinctKeys(d) && (k, v) in d
    ensures Lookup(d, k) == Some(v)
  {
    KeysCons(d);
    DistinctCons(Keys(d));
    if d[0] != (k, v) {
      var j :| 0 <= j < |d| && d[j] == (k, v);
      assert Keys(d)[j] == k && j > 0;
      assert (k, v) in d[1..] by { assert d[1..][j - 1] == d[j]; }
      assert k in Keys(d[1..]) by { assert Keys(d[1..])[j - 1] == k; }
      LookupPair(d[1..], k, v);
    }
  }

  /** What `d[k] = v` makes of `d`, stated for a candidate result `r`. */
  ghost predicate SetsKey<K(!new), V>(d: Dict<K, V>, k: K, v: V, r: Dict<K, V>) {
    && Lookup(r, k) == Some(v)
    && (forall k' :: k' != k ==> Lookup(r, k') == Lookup(d, k'))
    && Keys(r) == (if k in Keys(d) then Keys(d) else Keys(d) + [k])
    && (k !in Keys(d) ==> r == d + [(k, v)])
  }

  lemma SetHere<K(!new), V>(d: Dict<K, V>, k: K, v: V)
    requires d != [] && d[0].0 == k
    ensures SetsKey(d, k, v, [(k, v)] + d[1..])
  {
    var r := [(k, v)] + d[1..];
    KeysCons(d);
    KeysCons(r);
    assert r[1..] == d[1..];
  }

  lemma LookupCons<K, V>(r: Dict<K, V>, p: (K, V), rest: Dict<K, V>, k: K)
    requires r == [p] + rest
    ensures Lookup(r, k) == if p.0 == k then Some(p.1) else Lookup(rest, k)
  {
    assert r[1..] == rest;
  }

  lemma SetThereKeys<K(!new), V>(d: Dict<K, V>, k: K, v: V, rest: Dict<K, V>)
    requires d != [] && d[0].0 != k
    requires Keys(rest) == (if k in Keys(d[1..]) then Keys(d[1..]) else Keys(d[1..]) + [k])
    requires k !in Keys(d[1..]) ==> rest == d[1..] + [(k, v)]
    ensures Keys([d[0]] + rest) == (if k in Keys(d) then Keys(d) else Keys(d) + [k])
    ensures k !in Keys(d) ==> [d[0]] + rest == d + [(k, v)]
  {
    KeysCons(d);
    KeysAppend([d[0]], rest);
    if k !in Keys(d) {
      assert [d[0]] + (d[1..] + [(k, v)]) == ([d[0]] + d[1..]) + [(k, v)];
      assert [d[0]] + d[1..] == d;
    }
  }

  lemma SetThere<K(!new), V>(d: Dict<K, V>, k: K, v: V, rest: Dict<K, V>)
    requires d != [] && d[0].0 != k
    requires SetsKey(d[1..], k, v, rest)
    ensures SetsKey(d, k, v, [d[0]] + rest)
  {
    var r := [d[0]] + rest;
    forall k' ensures Lookup(r, k') == (if k' == k then Some(v) else Lookup(d, k')) {
      LookupCons(r, d[0], rest, k');
      LookupCons(d, d[0], d[1..], k');
    }
    SetThereKeys(d, k, v, rest);
  }

  /**
    `d[k] = v`: an existing key keeps its position and gets the new value, a
    new key is appended at the end.
   */
  function Set<K(==,!new), V>(d: Dict<K, V>, k: K, v: V): (r: Dict<K, V>)
    ensures Lookup(r, k) == Some(v)
    ensures forall k' :: k' != k ==> Lookup(r, k') == Lookup(d, k')
    ensures Keys(r) == if k in Keys(d) then Keys(d) else Keys(d) + [k]
    ensures k !in Keys(d) ==> r == d + [(k, v)]
  {
    if d == [] then [(k, v)]
    else if d[0].0 == k then
      SetHere(d, k, v);
      [(k, v)] + d[1..]
    else
      var rest := Set(d[1..], k, v);
      SetThere(d, k, v, rest);
      [d[0]] + rest
  }

  lemma SetDistinct<K(!new), V>(d: Dict<K, V>, k: K, v: V)
    requires DistinctKeys(d)
    ensures DistinctKeys(Set(d, k, v))
  {
    if k !in Keys(d) { DistinctAppend(Keys(d), k); }
  }

  /** Setting a key twice leaves only the second value. */
  lemma {:induction false} SetTwice<K(!new), V>(d: Dict<K, V>, k: K, v1: V, v2: V)
    ensures Set(Set(d, k, v1), k, v2) == Set(d, k, v2)
  {
    if d != [] && d[0].0 != k {
      SetTwice(d[1..], k, v1, v2);
      assert Set(d, k, v1)[1..] == Set(d[1..], k, v1);
    }
  }

  /** `d.update(e)`: the pairs of `e` are set into `d` one by one, in order. */
  function Update<K(==,!new), V>(d: Dict<K, V>, e: Dict<K, V>): (r: Dict<K, V>)
    ensures forall k :: k in Keys(r) <==> k in Keys(d) || k in Keys(e)
    ensures DistinctKeys(d) ==> DistinctKeys(r)
    decreases |e|
  {
    if e == [] then d
    else
      KeysCons(e);
      if DistinctKeys(d) then
        SetDistinct(d, e[0].0, e[0].1);
        Update(Set(d, e[0].0, e[0].1), e[1..])
      else
        Update(Set(d, e[0].0, e[0].1), e[1..])
  }

  /** After `d.update(e)`, the keys of `e` hold `e`'s values and all other keys keep theirs. */
  lemma {:induction false} UpdateLookup<K(!new), V>(d: Dict<K, V>, e: Dict<K, V>, k: K)
    requires DistinctKeys(e)
    ensures Lookup(Update(d, e), k) == if k in Keys(e) then Lookup(e, k) else Lookup(d, k)
    decreases |e|
  {
    if e != [] {
      KeysCons(e);
      DistinctCons(Keys(e));
      UpdateLookup(Set(d, e[0].0, e[0].1), e[1..], k);
    }
  }

  lemma SnocSlice<T>(a: seq<T>, b: seq<T>, j: nat)
    requires j < |b|
    ensures a + b[..j + 1] == (a + b[..j]) + [b[j]]
  {
    assert b[..j + 1] == b[..j] + [b[j]];
  }

  lemma SliceNone<T>(a: seq<T>, b: seq<T>)
    ensures a + b[..0] == a
  {
    assert b[..0] == [];
  }

  lemma SliceAll<T>(a: seq<T>, b: seq<T>)
    ensures a + b[..|b|] == a + b
  {
    assert b[..|b|] == b;
  }

  /** `f` applied to every element, in order. */
  function MapSeq<A, B>(f: A -> B, s: seq<A>): (r: seq<B>)
    ensures |r| == |s|
  {
    if s == [] then [] else MapSeq(f, s[..|s| - 1]) + [f(s[|s| - 1])]
  }

  lemma {:induction false} MapSeqAt<A, B>(f: A -> B, s: seq<A>, i: nat)
    requires i < |s|
    ensures MapSeq(f, s)[i] == f(s[i])
  {
    var last := |s| - 1;
    if i < last {
      MapSeqAt(f, s[..last], i);
      assert s[..last][i] == s[i];
    }
  }

  lemma MapSeqSnoc<A, B>(f: A -> B, s: seq<A>, i: nat)
    requires i < |s|
    ensures MapSeq(f, s[..i + 1]) == MapSeq(f, s[..i]) + [f(s[i])]
  {
    assert s[..i + 1][..i] == s[..i];
  }

  lemma MapSeqAll<A, B>(f: A -> B, s: seq<A>)
    ensures MapSeq(f, s[..|s|]) == MapSeq(f, s)
  {
    assert s[..|s|] == s;
  }

  /** The concatenation of a sequence of sequences. */
  function Concat<T>(ss: seq<seq<T>>): seq<T> {
    if ss == [] then [] else ss[0] + Concat(ss[1..])
  }

  lemma {:induction false} ConcatAppend<T>(a: seq<seq<T>>, b: seq<seq<T>>)
    ensures Concat(a + b) == Concat(a) + Concat(b)
  {
    if a == [] {
      assert a + b == b;
    } else {
      assert (a + b)[0] == a[0];
      assert (a + b)[1..] == a[1..] + b;
      ConcatAppend(a[1..], b);
    }
  }

  /** The values of a dictionary of sequences, concatenated in key order. */
  function Flatten<K, T>(d: Dict<K, seq<T>>): seq<T> {
    Concat(Values(d))
  }

  lemma FlattenAppend<K, T>(a: Dict<K, seq<T>>, b: Dict<K, seq<T>>)
    ensures Flatten(a + b) == Flatten(a) + Flatten(b)
  {
    assert Values(a + b) == Values(a) + Values(b);
    ConcatAppend(Values(a), Values(b));
  }

  lemma FlattenCons<K, T>(p: (K, seq<T>), d: Dict<K, seq<T>>)
    ensures Flatten([p] + d) == p.1 + Flatten(d)
  {
    assert Values([p] + d) == [p.1] + Values(d);
    assert ([p.1] + Values(d))[1..] == Values(d);
  }

  /** Setting `k` to `x` trades the entries of its old value for those of `x`. */
  lemma {:induction false} FlattenSet<K(!new), T>(d: Dict<K, seq<T>>, k: K, x: seq<T>)
    ensures multiset(Flatten(Set(d, k, x))) + multiset(Lookup(d, k).GetOr([]))
         == multiset(Flatten(d)) + multiset(x)
  {
    if d == [] {
      FlattenCons((k, x), []);
      assert [(k, x)] + [] == Set(d, k, x);
    } else if d[0].0 == k {
      FlattenSetHere(d, x);
    } else {
      var rest := Set(d[1..], k, x);
      FlattenSet(d[1..], k, x);
      FlattenCons(d[0], d[1..]);
      FlattenCons(d[0], rest);
      assert d == [d[0]] + d[1..];
      assert Set(d, k, x) == [d[0]] + rest;
      assert Lookup(d, k) == Lookup(d[1..], k);
      calc {
        multiset(Flatten(Set(d, k, x))) + multiset(Lookup(d, k).GetOr([]));
        multiset(d[0].1 + Flatten(rest)) + multiset(Lookup(d[1..], k).GetOr([]));
        multiset(d[0].1) + (multiset(Flatten(rest)) + multiset(Lookup(d[1..], k).GetOr([])));
        multiset(d[0].1) + (multiset(Flatten(d[1..])) + multiset(x));
        multiset(d[0].1 + Flatten(d[1..])) + multiset(x);
        multiset(Flatten(d)) + multiset(x);
      }
    }
  }

  lemma MultisetCancel<T>(a: multiset<T>, b: multiset<T>, c: multiset<T>)
    requires a + c == b + c
    ensures a == b
  {
    forall x ensures a[x] == b[x] {
      assert (a + c)[x] == (b + c)[x];
    }
  }

  /** Appending `y` to the value at `k` adds exactly `y` to the flattened entries. */
  lemma FlattenSetAppend<K(!new), T>(d: Dict<K, seq<T>>, k: K, y: T)
    ensures multiset(Flatten(Set(d, k, Lookup(d, k).GetOr([]) + [y])))
         == multiset(Flatten(d)) + multiset{y}
  {
    var prev := Lookup(d, k).GetOr([]);
    FlattenSet(d, k, prev + [y]);
    assert multiset(prev + [y]) == multiset(prev) + multiset{y};
    MultisetCancel(multiset(Flatten(Set(d, k, prev + [y]))), multiset(Flatten(d)) + multiset{y}, multiset(prev));
  }

  lemma FlattenSetHere<K(!new), T>(d: Dict<K, seq<T>>, x: seq<T>)
    requires d != []
    ensures multiset(Flatten(Set(d, d[0].0, x))) + multiset(d[0].1)
         == multiset(Flatten(d)) + multiset(x)
  {
    assert d == [d[0]] + d[1..];
    FlattenCons(d[0], d[1..]);
    FlattenCons((d[0].0, x), d[1..]);
    assert Set(d, d[0].0, x) == [(d[0].0, x)] + d[1..];
  }

  lemma {:induction false} CountAtMostOne<K, V>(a: Dict<K, V>, x: (K, V))
    requires DistinctKeys(a)
    ensures multiset(a)[x] <= 1
  {
    if a != [] {
      KeysCons(a);
      DistinctCons(Keys(a));
      assert a == [a[0]] + a[1..];
      CountAtMostOne(a[1..], x);
      forall j | 0 <= j < |a[1..]| ensures a[1..][j] != a[0] {
        assert Keys(a[1..])[j] == a[1..][j].0;
      }
    }
  }

  lemma CountTwo<T>(b: seq<T>, i: nat, j: nat)
    requires i < j < |b| && b[i] == b[j]
    ensures multiset(b)[b[i]] >= 2
  {
    assert b == b[..j] + [b[j]] + b[j + 1..];
    assert b[i] == b[..j][i];
  }

  /** Distinct keys survive reordering. */
  lemma DistinctKeysPermutation<K, V>(a: Dict<K, V>, b: Dict<K, V>)
    requires multiset(a) == multiset(b) && DistinctKeys(a)
    ensures DistinctKeys(b)
  {
    forall i, j | 0 <= i < j < |b| ensures Keys(b)[i] != Keys(b)[j] {
      if b[i] == b[j] {
        CountTwo(b, i, j);
        CountAtMostOne(a, b[i]);
        assert false;
      }
      assert b[i] in multiset(a) && b[j] in multiset(a);
      var p :| 0 <= p < |a| && a[p] == b[i];
      var q :| 0 <= q < |a| && a[q] == b[j];
      assert p != q;
      if p < q { assert Keys(a)[p] != Keys(a)[q]; } else { assert Keys(a)[q] != Keys(a)[p]; }
    }
  }

  /** The key-to-value mapping a dictionary denotes, forgetting its order. */
  function ToMap<K(!new), V>(d: Dict<K, V>): (m: map<K, V>)
    ensures forall k :: k in m <==> k in Keys(d)
    ensures forall k :: k in m ==> Lookup(d, k) == Some(m[k])
  {
    map k | k in Keys(d) :: Lookup(d, k).value
  }
}
