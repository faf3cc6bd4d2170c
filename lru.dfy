/**
 * The bounded least-recently-used store behind both result caches: an
 * OrderedDict whose entries run from least to most recently used, with
 * move_to_end on a hit and popitem(last=False) when a new key meets a full store.
 */
module Lru {
  import opened Wrappers

  /** The keys of the entries, in the entries' order. */
  function KeysOf<K, V>(s: seq<(K, V)>): (ks: seq<K>)
    ensures |ks| == |s|
    ensures forall i :: 0 <= i < |s| ==> ks[i] == s[i].0
  {
    seq(|s|, i requires 0 <= i < |s| => s[i].0)
  }

  predicate Distinct<T(==)>(s: seq<T>) {
    forall i, j :: 0 <= i < j < |s| ==> s[i] != s[j]
  }

  /** What an OrderedDict with these entries holds: distinct keys, at most `capacity` of them. */
  predicate WellFormed<K(==), V>(s: seq<(K, V)>, capacity: nat) {
    Distinct(KeysOf(s)) && |s| <= capacity
  }

  /** The value stored under k, if any. */
  function Lookup<K(==), V>(s: seq<(K, V)>, k: K): (r: Option<V>)
    ensures r.None? <==> k !in KeysOf(s)
    ensures r.Some? ==> (k, r.value) in s
  {
    if s == [] then None
    else if s[0].0 == k then Some(s[0].1)
    else
      assert KeysOf(s) == [s[0].0] + KeysOf(s[1..]);
      Lookup(s[1..], k)
  }

  /** s without x; the rest keeps its order. */
  function Without<T(==)>(s: seq<T>, x: T): (r: seq<T>)
    ensures |r| <= |s|
    ensures forall y :: y in r ==> y in s && y != x
    ensures forall i :: 0 <= i < |s| && s[i] != x ==> s[i] in r
  {
    if s == [] then [] else (if s[0] == x then [] else [s[0]]) + Without(s[1..], x)
  }

  /** The entries without the one stored under k. */
  function RemoveKey<K(==), V>(s: seq<(K, V)>, k: K): (r: seq<(K, V)>)
    ensures KeysOf(r) == Without(KeysOf(s), k)
    ensures forall e :: e in r ==> e in s
  {
    if s == [] then []
    else
      assert KeysOf(s) == [s[0].0] + KeysOf(s[1..]);
      var rest := RemoveKey(s[1..], k);
      var r := (if s[0].0 == k then [] else [s[0]]) + rest;
      assert KeysOf(r) == (if s[0].0 == k then [] else [s[0].0]) + KeysOf(rest);
      r
  }

  /** OrderedDict.move_to_end(k): k becomes the most recently used entry, keeping its value. */
  function MoveToEnd<K(==), V>(s: seq<(K, V)>, k: K): (r: seq<(K, V)>)
    requires k in KeysOf(s)
    ensures 0 < |r| && r[|r| - 1].0 == k
    ensures forall e :: e in r ==> e in s
  {
    RemoveKey(s, k) + [(k, Lookup(s, k).value)]
  }

  /**
   * add_to_cache: a known key is only moved to the back and keeps its old value;
   * a new key evicts the front entry when the store is full and goes to the back.
   */
  function Put<K(==), V>(s: seq<(K, V)>, capacity: nat, k: K, v: V): (r: seq<(K, V)>)
    requires 0 < capacity
    ensures 0 < |r| && r[|r| - 1].0 == k
    ensures forall e :: e in r ==> e in s || e == (k, v)
  {
    if k in KeysOf(s) then MoveToEnd(s, k)
    else (if |s| >= capacity then s[1..] else s) + [(k, v)]
  }

  // ---------------------------------------------------------------------------
  // Facts about Without and RemoveKey

  lemma {:induction false} WithoutAbsent<T>(s: seq<T>, x: T)
    requires x !in s
    ensures Without(s, x) == s
  {
    if s != [] {
      WithoutAbsent(s[1..], x);
    }
  }

  lemma {:induction false} WithoutAppend<T>(a: seq<T>, b: seq<T>, x: T)
    ensures Without(a + b, x) == Without(a, x) + Without(b, x)
  {
    if a == [] {
      assert a + b == b;
    } else {
      assert (a + b)[1..] == a[1..] + b;
      WithoutAppend(a[1..], b, x);
    }
  }

  lemma DistinctSuffix<T>(s: seq<T>, m: nat)
    requires Distinct(s) && m <= |s|
    ensures Distinct(s[m..])
  {
    var t := s[m..];
    forall i, j | 0 <= i < j < |t| ensures t[i] != t[j] {
      assert t[i] == s[m + i] && t[j] == s[m + j];
    }
  }

  lemma {:induction false} WithoutDistinct<T>(s: seq<T>, x: T)
    requires Distinct(s)
    ensures Distinct(Without(s, x))
    ensures |Without(s, x)| == if x in s then |s| - 1 else |s|
  {
    if s != [] {
      var t := s[1..];
      DistinctSuffix(s, 1);
      forall p | 0 <= p < |t| ensures t[p] != s[0] {
        assert t[p] == s[p + 1];
      }
      WithoutDistinct(t, x);
      if s[0] == x {
        WithoutAbsent(t, x);
      } else {
        var w := Without(t, x);
        var r := [s[0]] + w;
        assert Without(s, x) == r;
        forall i, j | 0 <= i < j < |r| ensures r[i] != r[j] {
          assert r[j] == w[j - 1] && w[j - 1] in w;
        }
      }
    }
  }

  lemma {:induction false} RemoveKeyLookup<K, V>(s: seq<(K, V)>, k: K, k': K)
    ensures Lookup(RemoveKey(s, k), k') == if k' == k then None else Lookup(s, k')
  {
    if s != [] {
      RemoveKeyLookup(s[1..], k, k');
      var rest := RemoveKey(s[1..], k);
      if s[0].0 == k {
        assert RemoveKey(s, k) == rest;
      } else {
        var r := [s[0]] + rest;
        assert RemoveKey(s, k) == r;
        assert r[0] == s[0] && r[1..] == rest;
      }
    }
  }

  // ---------------------------------------------------------------------------
  // What get_from_cache and add_to_cache do to keys and values

  /** A hit changes only the order: every key keeps its value and the hit key becomes the last. */
  lemma MoveToEndKeepsValues<K, V>(s: seq<(K, V)>, k: K, k': K)
    requires k in KeysOf(s)
    ensures Lookup(MoveToEnd(s, k), k') == Lookup(s, k')
    ensures KeysOf(MoveToEnd(s, k)) == Without(KeysOf(s), k) + [k]
  {
    var r := RemoveKey(s, k);
    var last := (k, Lookup(s, k).value);
    RemoveKeyLookup(s, k, k');
    LookupAppend(r, last, k');
    assert KeysOf(r + [last]) == KeysOf(r) + [k];
  }

  lemma {:induction false} LookupAppend<K, V>(s: seq<(K, V)>, e: (K, V), k: K)
    ensures Lookup(s + [e], k) == if k in KeysOf(s) then Lookup(s, k) else if e.0 == k then Some(e.1) else None
  {
    if s == [] {
      assert [e][1..] == [];
    } else {
      assert (s + [e])[1..] == s[1..] + [e];
      assert KeysOf(s) == [s[0].0] + KeysOf(s[1..]);
      LookupAppend(s[1..], e, k);
    }
  }

  /** A hit keeps the store within its bound and its keys distinct. */
  lemma MoveToEndWellFormed<K, V>(s: seq<(K, V)>, capacity: nat, k: K)
    requires WellFormed(s, capacity) && k in KeysOf(s)
    ensures WellFormed(MoveToEnd(s, k), capacity)
  {
    var keys := KeysOf(s);
    MoveToEndKeepsValues(s, k, k);
    WithoutDistinct(keys, k);
    var w := Without(keys, k);
    assert KeysOf(MoveToEnd(s, k)) == w + [k];
    assert k !in w;
  }

  /** The store never exceeds its bound and never holds a key twice. */
  lemma PutWellFormed<K, V>(s: seq<(K, V)>, capacity: nat, k: K, v: V)
    requires 0 < capacity && WellFormed(s, capacity)
    ensures WellFormed(Put(s, capacity, k, v), capacity)
    ensures |Put(s, capacity, k, v)| <= capacity
  {
    var keys := KeysOf(s);
    if k in keys {
      MoveToEndWellFormed(s, capacity, k);
    } else {
      var kept := if |s| >= capacity then s[1..] else s;
      assert KeysOf(kept + [(k, v)]) == KeysOf(kept) + [k];
    }
  }

  /**
   * The effect of add_to_cache on the order of keys: a known key moves to the
   * back; a new key is appended, evicting exactly the front key when full.
   */
  lemma PutKeys<K, V>(s: seq<(K, V)>, capacity: nat, k: K, v: V)
    requires 0 < capacity && WellFormed(s, capacity)
    ensures k in KeysOf(s) ==> KeysOf(Put(s, capacity, k, v)) == Without(KeysOf(s), k) + [k]
    ensures k !in KeysOf(s) && |s| == capacity ==>
      KeysOf(Put(s, capacity, k, v)) == KeysOf(s)[1..] + [k]
    ensures k !in KeysOf(s) && |s| < capacity ==> KeysOf(Put(s, capacity, k, v)) == KeysOf(s) + [k]
  {
    if k in KeysOf(s) {
      MoveToEndKeepsValues(s, k, k);
    } else {
      var kept := if |s| >= capacity then s[1..] else s;
      assert KeysOf(kept + [(k, v)]) == KeysOf(kept) + [k];
    }
  }

  /**
   * The effect of add_to_cache on values: a known key keeps its OLD value, a new
   * key gets v, the evicted front key is gone, and every other key is untouched.
   */
  lemma PutLookup<K, V>(s: seq<(K, V)>, capacity: nat, k: K, v: V, k': K)
    requires 0 < capacity && WellFormed(s, capacity)
    ensures Lookup(Put(s, capacity, k, v), k') ==
      if k' == k then (if k in KeysOf(s) then Lookup(s, k) else Some(v))
      else if k !in KeysOf(s) && |s| == capacity && k' == s[0].0 then None
      else Lookup(s, k')
  {
    var keys := KeysOf(s);
    if k in keys {
      assert Put(s, capacity, k, v) == MoveToEnd(s, k);
      MoveToEndKeepsValues(s, k, k');
    } else if |s| < capacity {
      assert Put(s, capacity, k, v) == s + [(k, v)];
      LookupAppend(s, (k, v), k');
    } else {
      var kept := s[1..];
      assert Put(s, capacity, k, v) == kept + [(k, v)];
      LookupAppend(kept, (k, v), k');
      if k' == s[0].0 {
        assert k' !in KeysOf(kept) by {
          forall i | 0 <= i < |kept| ensures KeysOf(kept)[i] != k' {
            assert keys[0] == k' && keys[i + 1] == KeysOf(kept)[i];
          }
        }
      } else {
        assert Lookup(s, k') == Lookup(kept, k');
      }
    }
  }

  // ---------------------------------------------------------------------------
  // Reference model: strict access-recency eviction

  /** The keys of a history of touches, each placed at its most recent touch. */
  function Recency<K(==)>(h: seq<K>): (r: seq<K>)
    ensures forall x :: x in r ==> x in h
    ensures forall i :: 0 <= i < |h| ==> h[i] in r
  {
    if h == [] then [] else Without(Recency(h[..|h| - 1]), h[|h| - 1]) + [h[|h| - 1]]
  }

  /** The position of the most recent touch of k in h. */
  function LastTouch<K(==)>(h: seq<K>, k: K): (i: nat)
    requires k in h
    ensures i < |h| && h[i] == k
    ensures forall j :: i < j < |h| ==> h[j] != k
  {
    if h[|h| - 1] == k then |h| - 1
    else
      assert k in h[..|h| - 1] by {
        var p :| 0 <= p < |h| && h[p] == k;
        assert h[..|h| - 1][p] == k;
      }
      LastTouch(h[..|h| - 1], k)
  }

  /** The keys of s, all touched in h, in the order of their most recent touches. */
  predicate ByLastTouch<K(==)>(s: seq<K>, h: seq<K>) {
    (forall x :: x in s ==> x in h)
    && forall i, j :: 0 <= i < j < |s| ==> LastTouch(h, s[i]) < LastTouch(h, s[j])
  }

  lemma {:induction false} WithoutByLastTouch<K>(s: seq<K>, h: seq<K>, x: K)
    requires ByLastTouch(s, h)
    ensures ByLastTouch(Without(s, x), h)
  {
    if s != [] {
      var t := s[1..];
      assert ByLastTouch(t, h) by {
        forall i, j | 0 <= i < j < |t| ensures LastTouch(h, t[i]) < LastTouch(h, t[j]) {
          assert t[i] == s[i + 1] && t[j] == s[j + 1];
        }
      }
      WithoutByLastTouch(t, h, x);
      var w := Without(t, x);
      if s[0] != x {
        var r := [s[0]] + w;
        forall i, j | 0 <= i < j < |r| ensures LastTouch(h, r[i]) < LastTouch(h, r[j]) {
          if i == 0 {
            assert r[j] in t;
            var q :| 0 <= q < |t| && t[q] == r[j];
            assert s[q + 1] == r[j];
          } else {
            assert r[i] == w[i - 1] && r[j] == w[j - 1];
          }
        }
        assert Without(s, x) == r;
      } else {
        assert Without(s, x) == w;
      }
    }
  }

  /** The reference order lists the touched keys by their most recent touch. */
  lemma {:induction false} RecencyByLastTouch<K>(h: seq<K>)
    ensures ByLastTouch(Recency(h), h)
  {
    if h != [] {
      var h', k := h[..|h| - 1], h[|h| - 1];
      var w := Without(Recency(h'), k);
      assert ByLastTouch(w, h') by {
        RecencyByLastTouch(h');
        WithoutByLastTouch(Recency(h'), h', k);
      }
      var r := w + [k];
      assert r == Recency(h);
      forall y | y in w ensures y in h && LastTouch(h, y) == LastTouch(h', y) < |h'| {
        assert y != k && y in h';
        var p :| 0 <= p < |h'| && h'[p] == y;
        assert h[p] == y;
      }
      forall i, j | 0 <= i < j < |r| ensures LastTouch(h, r[i]) < LastTouch(h, r[j]) {
        assert r[i] == w[i] && r[i] in w;
        if j < |w| {
          assert r[j] == w[j] && r[j] in w;
        }
      }
    }
  }

  /**
   * The reference order is the touched keys sorted by their most recent touch:
   * a comes before b exactly when a's last touch is earlier than b's.
   */
  lemma RecencyOrder<K>(h: seq<K>)
    ensures forall i, j :: 0 <= i < |Recency(h)| && 0 <= j < |Recency(h)| ==>
      (i < j <==> LastTouch(h, Recency(h)[i]) < LastTouch(h, Recency(h)[j]))
  {
    RecencyByLastTouch(h);
  }

  /** The last n elements of s (all of s when it is shorter). */
  function LastN<T>(s: seq<T>, n: nat): (r: seq<T>)
    ensures |r| == if |s| <= n then |s| else n
  {
    if |s| <= n then s else s[|s| - n..]
  }

  lemma {:induction false} RecencyDistinct<K>(h: seq<K>)
    ensures Distinct(Recency(h))
  {
    if h != [] {
      RecencyDistinct(h[..|h| - 1]);
      WithoutDistinct(Recency(h[..|h| - 1]), h[|h| - 1]);
    }
  }

  lemma RecencyStep<K>(h: seq<K>, k: K)
    ensures Recency(h + [k]) == Without(Recency(h), k) + [k]
  {
    assert (h + [k])[..|h|] == h;
  }

  lemma LastNSuffix<T>(a: seq<T>, b: seq<T>, n: nat)
    requires n <= |b|
    ensures LastN(a + b, n) == LastN(b, n)
  {
    assert (a + b)[|a + b| - n..] == b[|b| - n..];
  }

  /**
   * Moving a present key to the back of the recency order shortens the
   * remembered window by one slot, which the moved key then fills.
   */
  lemma WindowAfterTouch<K>(r: seq<K>, n: nat, k: K)
    requires Distinct(r) && 0 < n && k in LastN(r, n)
    ensures LastN(Without(r, k), n - 1) == Without(LastN(r, n), k)
  {
    if |r| <= n {
      WithoutDistinct(r, k);
      assert LastN(r, n) == r;
    } else {
      var pre, post := r[..|r| - n], r[|r| - n..];
      assert LastN(r, n) == post;
      assert Without(r, k) == pre + Without(post, k) by {
        assert r == pre + post;
        assert k !in pre by {
          var p :| 0 <= p < |post| && post[p] == k;
          assert r[|r| - n + p] == k;
        }
        WithoutAppend(pre, post, k);
        WithoutAbsent(pre, k);
      }
      assert |Without(post, k)| == n - 1 by {
        DistinctSuffix(r, |r| - n);
        WithoutDistinct(post, k);
      }
      LastNSuffix(pre, Without(post, k), n - 1);
    }
  }

  /** Adding a new key to the back: the window moves past the oldest key when full. */
  lemma WindowAfterInsert<K>(r: seq<K>, n: nat, k: K)
    requires Distinct(r) && 0 < n && k !in LastN(r, n)
    ensures LastN(Without(r, k), n - 1) == if |r| >= n then LastN(r, n)[1..] else r
  {
    if |r| <= n {
      assert LastN(r, n) == r;
      WithoutAbsent(r, k);
    } else {
      var pre, post := r[..|r| - n], r[|r| - n..];
      assert r == pre + post;
      assert LastN(r, n) == post;
      WithoutAppend(pre, post, k);
      WithoutAbsent(post, k);
      assert Without(r, k) == Without(pre, k) + post;
      LastNSuffix(Without(pre, k), post, n - 1);
      assert LastN(post, n - 1) == post[1..];
    }
  }

  lemma LastNAppend<T>(s: seq<T>, x: T, n: nat)
    requires 0 < n
    ensures LastN(s + [x], n) == LastN(s, n - 1) + [x]
  {
  }

  /**
   * One step of the recency invariant: if the cache holds exactly the `capacity`
   * most recently touched keys in recency order, it still does after a put of k
   * (which touches k).
   */
  lemma PutFollowsRecency<K, V>(s: seq<(K, V)>, capacity: nat, h: seq<K>, k: K, v: V)
    requires 0 < capacity && WellFormed(s, capacity)
    requires KeysOf(s) == LastN(Recency(h), capacity)
    ensures KeysOf(Put(s, capacity, k, v)) == LastN(Recency(h + [k]), capacity)
  {
    var r := Recency(h);
    RecencyDistinct(h);
    RecencyStep(h, k);
    LastNAppend(Without(r, k), k, capacity);
    PutKeys(s, capacity, k, v);
    if k in KeysOf(s) {
      WindowAfterTouch(r, capacity, k);
    } else {
      WindowAfterInsert(r, capacity, k);
    }
  }

  /** The same step for a cache hit, which also touches its key. */
  lemma HitFollowsRecency<K, V>(s: seq<(K, V)>, capacity: nat, h: seq<K>, k: K)
    requires 0 < capacity && WellFormed(s, capacity)
    requires KeysOf(s) == LastN(Recency(h), capacity)
    requires k in KeysOf(s)
    ensures KeysOf(MoveToEnd(s, k)) == LastN(Recency(h + [k]), capacity)
  {
    var r := Recency(h);
    RecencyDistinct(h);
    RecencyStep(h, k);
    LastNAppend(Without(r, k), k, capacity);
    MoveToEndKeepsValues(s, k, k);
    WindowAfterTouch(r, capacity, k);
  }

  // ---------------------------------------------------------------------------
  // Whole runs

  datatype CacheOp<K, V> = GetOp(key: K) | PutOp(key: K, value: V)

  /**
   * The entries after running ops on a store with these entries, and the keys
   * the run touched (every put, and every get that hit), in order.
   */
  function Run<K(==), V>(s: seq<(K, V)>, capacity: nat, ops: seq<CacheOp<K, V>>): (seq<(K, V)>, seq<K>)
    requires 0 < capacity
  {
    if ops == [] then (s, [])
    else
      var (before, touched) := Run(s, capacity, ops[..|ops| - 1]);
      match ops[|ops| - 1]
      case GetOp(k) =>
        if k in KeysOf(before) then (MoveToEnd(before, k), touched + [k]) else (before, touched)
      case PutOp(k, v) => (Put(before, capacity, k, v), touched + [k])
  }

  /**
   * LRU correctness: from an empty store, after any run the store holds exactly
   * the `capacity` most recently touched keys, least recently touched first.
   */
  lemma {:induction false} RunFollowsRecency<K, V>(capacity: nat, ops: seq<CacheOp<K, V>>)
    requires 0 < capacity
    ensures WellFormed(Run([], capacity, ops).0, capacity)
    ensures KeysOf(Run([], capacity, ops).0) == LastN(Recency(Run([], capacity, ops).1), capacity)
  {
    if ops != [] {
      var init := ops[..|ops| - 1];
      RunFollowsRecency(capacity, init);
      var (before, touched) := Run([], capacity, init);
      match ops[|ops| - 1]
      case GetOp(k) =>
        if k in KeysOf(before) {
          HitFollowsRecency(before, capacity, touched, k);
          MoveToEndWellFormed(before, capacity, k);
        }
      case PutOp(k, v) =>
        PutFollowsRecency(before, capacity, touched, k, v);
        PutWellFormed(before, capacity, k, v);
    }
  }

  /** Distinct keys are their own recency order. */
  lemma {:induction false} RecencyOfDistinct<K>(h: seq<K>)
    requires Distinct(h)
    ensures Recency(h) == h
  {
    if h != [] {
      var init := h[..|h| - 1];
      RecencyOfDistinct(init);
      WithoutAbsent(init, h[|h| - 1]);
    }
  }

  function PutAll<K, V>(ks: seq<K>, v: V): (ops: seq<CacheOp<K, V>>)
    ensures |ops| == |ks| && forall i :: 0 <= i < |ks| ==> ops[i] == PutOp(ks[i], v)
  {
    seq(|ks|, i requires 0 <= i < |ks| => PutOp(ks[i], v))
  }

  lemma {:induction false} PutAllTouches<K, V>(capacity: nat, ks: seq<K>, v: V)
    requires 0 < capacity
    ensures Run([], capacity, PutAll(ks, v)).1 == ks
  {
    if ks != [] {
      var init := ks[..|ks| - 1];
      assert PutAll(ks, v)[..|ks| - 1] == PutAll(init, v);
      PutAllTouches(capacity, init, v);
    }
  }

  /** Inserting capacity + 1 distinct keys into an empty store evicts exactly the first. */
  lemma OverflowEvictsFirst<K, V>(capacity: nat, ks: seq<K>, v: V)
    requires 0 < capacity && |ks| == capacity + 1 && Distinct(ks)
    ensures KeysOf(Run([], capacity, PutAll(ks, v)).0) == ks[1..]
  {
    RunFollowsRecency(capacity, PutAll(ks, v));
    PutAllTouches(capacity, ks, v);
    RecencyOfDistinct(ks);
  }

  /** Two puts into an empty store with room for two keep both entries in insertion order. */
  lemma TwoPuts()
    ensures Run([], 2, [PutOp(1, 'a'), PutOp(2, 'b')]).0 == [(1, 'a'), (2, 'b')]
  {
    var ops := [PutOp(1, 'a'), PutOp(2, 'b')];
    var s1 := [(1, 'a')];
    assert Run([], 2, ops[..1]).0 == s1 by {
      assert ops[..1][..0] == [];
      assert Put([], 2, 1, 'a') == s1;
    }
    assert Put(s1, 2, 2, 'b') == [(1, 'a'), (2, 'b')] by {
      assert KeysOf(s1) == [1];
    }
  }

  /** Without reads, the third put into a store with room for two evicts the first key. */
  lemma ThirdPutEvictsOldest()
    ensures KeysOf(Run([], 2, [PutOp(1, 'a'), PutOp(2, 'b'), PutOp(3, 'c')]).0) == [2, 3]
  {
    var ops := [PutOp(1, 'a'), PutOp(2, 'b'), PutOp(3, 'c')];
    var s2 := [(1, 'a'), (2, 'b')];
    assert Run([], 2, ops[..2]).0 == s2 by {
      TwoPuts();
      assert ops[..2] == [PutOp(1, 'a'), PutOp(2, 'b')];
    }
    assert Put(s2, 2, 3, 'c') == [(2, 'b'), (3, 'c')] by {
      assert KeysOf(s2) == [1, 2];
    }
    assert KeysOf([(2, 'b'), (3, 'c')]) == [2, 3];
  }

  /** Reading the older key first makes the other one the victim of the third put. */
  lemma HitChangesVictim()
    ensures KeysOf(Run([], 2, [PutOp(1, 'a'), PutOp(2, 'b'), GetOp(1), PutOp(3, 'c')]).0) == [1, 3]
  {
    var ops := [PutOp(1, 'a'), PutOp(2, 'b'), GetOp(1), PutOp(3, 'c')];
    var s2 := [(1, 'a'), (2, 'b')];
    var s3 := [(2, 'b'), (1, 'a')];
    assert Run([], 2, ops[..3]).0 == s3 by {
      assert Run([], 2, ops[..3][..2]).0 == s2 by {
        TwoPuts();
        assert ops[..3][..2] == [PutOp(1, 'a'), PutOp(2, 'b')];
      }
      assert KeysOf(s2) == [1, 2];
      assert MoveToEnd(s2, 1) == s3 by {
        assert RemoveKey(s2, 1) == [(2, 'b')];
      }
    }
    assert Put(s3, 2, 3, 'c') == [(1, 'a'), (3, 'c')] by {
      assert KeysOf(s3) == [2, 1];
    }
    assert KeysOf([(1, 'a'), (3, 'c')]) == [1, 3];
  }

  // ---------------------------------------------------------------------------
  // The store itself

  /** One OrderedDict cache with its maximum size. */
  class Cache<K(==), V> {
    /** The entries, least recently used first. */
    var entries: seq<(K, V)>
    const capacity: nat

    ghost predicate Valid()
      reads this
    {
      0 < capacity && WellFormed(entries, capacity)
    }

    constructor (capacity: nat)
      requires 0 < capacity
      ensures Valid() && this.capacity == capacity && entries == []
    {
      this.capacity := capacity;
      entries := [];
    }

    /** get_from_cache: on a hit the value, and the key becomes the most recently used. */
    method Get(k: K) returns (r: Option<V>)
      requires Valid()
      modifies this
      ensures Valid()
      ensures r == Lookup(old(entries), k)
      ensures entries == if r.Some? then MoveToEnd(old(entries), k) else old(entries)
    {
      r := Lookup(entries, k);
      if r.Some? {
        MoveToEndWellFormed(entries, capacity, k);
        entries := MoveToEnd(entries, k);
      }
    }

    /** add_to_cache */
    method Add(k: K, v: V)
      requires Valid()
      modifies this
      ensures Valid()
      ensures entries == Put(old(entries), capacity, k, v)
    {
      PutWellFormed(entries, capacity, k, v);
      entries := Put(entries, capacity, k, v);
    }
  }
}
