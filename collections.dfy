/**
 * Sequence bookkeeping shared by the scrapers and trainers: order-preserving
 * de-duplication (`list(dict.fromkeys(xs))`), keeping the first item per key
 * (a `seen` set of hashes), flattening per-thread result lists and summing
 * their lengths.
 */
module Collections {
  import opened Seqs

  predicate NoDup<T(==)>(xs: seq<T>) {
    forall i, j :: 0 <= i < j < |xs| ==> xs[i] != xs[j]
  }

  /** Index of the first occurrence of `x` in `xs`. */
  function FirstIndex<T(==)>(xs: seq<T>, x: T): (i: nat)
    requires x in xs
    ensures i < |xs| && xs[i] == x && x !in xs[..i]
  {
    if xs[0] == x then 0
    else
      var j := FirstIndex(xs[1..], x);
      assert xs[..j + 1] == [xs[0]] + xs[1..][..j];
      j + 1
  }

  /** The first occurrence is the only index with no earlier copy. */
  lemma FirstIndexUnique<T>(xs: seq<T>, x: T, i: nat)
    requires i < |xs| && xs[i] == x && x !in xs[..i]
    ensures FirstIndex(xs, x) == i
  {
    var k := FirstIndex(xs, x);
    assert forall j :: 0 <= j < i ==> xs[..i][j] == xs[j];
    assert forall j :: 0 <= j < k ==> xs[..k][j] == xs[j];
  }

  /** `list(dict.fromkeys(xs))`: each element once, where it first occurs. */
  function Dedup<T(==,!new)>(xs: seq<T>): (r: seq<T>)
    ensures NoDup(r)
    ensures forall x :: x in r <==> x in xs
    ensures |r| <= |xs|
  {
    if xs == [] then []
    else
      var r' := Dedup(xs[..|xs| - 1]);
      var x := xs[|xs| - 1];
      assert forall y :: y in xs <==> y in xs[..|xs| - 1] || y == x by {
        assert xs == xs[..|xs| - 1] + [x];
      }
      if x in r' then r' else r' + [x]
  }

  /** The elements of `Dedup(xs)` stand in the order of their first occurrences in `xs`. */
  lemma {:induction false} DedupOrder<T(!new)>(xs: seq<T>)
    ensures forall i, j :: 0 <= i < j < |Dedup(xs)| ==>
      FirstIndex(xs, Dedup(xs)[i]) < FirstIndex(xs, Dedup(xs)[j])
  {
    if xs != [] {
      var n := |xs| - 1;
      var p := xs[..n];
      var x := xs[n];
      var r' := Dedup(p);
      DedupOrder(p);
      forall y | y in p ensures FirstIndex(xs, y) == FirstIndex(p, y) {
        var k := FirstIndex(p, y);
        assert xs[..k] == p[..k];
        FirstIndexUnique(xs, y, k);
      }
      if x !in r' {
        assert x !in p;
        assert xs[..n] == p;
        FirstIndexUnique(xs, x, n);
        var r := Dedup(xs);
        assert r == r' + [x];
        forall i, j | 0 <= i < j < |r| ensures FirstIndex(xs, r[i]) < FirstIndex(xs, r[j]) {
          assert r[i] == r'[i] && r'[i] in p;
          if j < |r'| {
            assert r[j] == r'[j] && r'[j] in p;
          }
        }
      }
    }
  }

  /** Items of `xs` whose key has not occurred earlier, in order. */
  function KeepFirst<T, K(==)>(xs: seq<T>, key: T -> K): (r: seq<T>)
    ensures |r| <= |xs|
    ensures forall i :: 0 <= i < |r| ==> r[i] in xs
  {
    if xs == [] then []
    else
      var r' := KeepFirst(xs[..|xs| - 1], key);
      var x := xs[|xs| - 1];
      if key(x) in Keys(xs[..|xs| - 1], key) then r' else r' + [x]
  }

  /** The set of keys of the items of `xs`. */
  function Keys<T, K(==)>(xs: seq<T>, key: T -> K): set<K> {
    set i | 0 <= i < |xs| :: key(xs[i])
  }

  lemma KeysSnoc<T, K>(xs: seq<T>, x: T, key: T -> K)
    ensures Keys(xs + [x], key) == Keys(xs, key) + {key(x)}
  {
    var ys := xs + [x];
    assert forall i :: 0 <= i < |xs| ==> ys[i] == xs[i];
    assert ys[|xs|] == x;
    forall k | k in Keys(ys, key) ensures k in Keys(xs, key) + {key(x)} {
      var i :| 0 <= i < |ys| && key(ys[i]) == k;
      if i < |xs| {
        assert key(xs[i]) == k;
      }
    }
  }

  lemma KeepFirstSnoc<T, K>(xs: seq<T>, x: T, key: T -> K)
    ensures key(x) in Keys(xs, key) ==> KeepFirst(xs + [x], key) == KeepFirst(xs, key)
    ensures key(x) !in Keys(xs, key) ==> KeepFirst(xs + [x], key) == KeepFirst(xs, key) + [x]
  {
    assert (xs + [x])[..|xs|] == xs;
  }

  /** The kept items have pairwise distinct keys and cover every key of the input. */
  lemma {:induction false} KeepFirstKeys<T, K>(xs: seq<T>, key: T -> K)
    ensures Keys(KeepFirst(xs, key), key) == Keys(xs, key)
    ensures forall i, j :: 0 <= i < j < |KeepFirst(xs, key)| ==>
      key(KeepFirst(xs, key)[i]) != key(KeepFirst(xs, key)[j])
  {
    if xs != [] {
      var p := xs[..|xs| - 1];
      var x := xs[|xs| - 1];
      assert xs == p + [x];
      KeepFirstKeys(p, key);
      KeysSnoc(p, x, key);
      var r' := KeepFirst(p, key);
      if key(x) !in Keys(p, key) {
        KeysSnoc(r', x, key);
        var r := r' + [x];
        forall i, j | 0 <= i < j < |r| ensures key(r[i]) != key(r[j]) {
          if j == |r'| {
            assert key(r'[i]) in Keys(r', key);
          }
        }
      }
    }
  }

  /** `r` is the subsequence of `xs` at the strictly increasing positions `idx`. */
  ghost predicate PicksAt<T>(xs: seq<T>, r: seq<T>, idx: seq<nat>) {
    && |idx| == |r|
    && (forall j :: 0 <= j < |idx| ==> idx[j] < |xs| && r[j] == xs[idx[j]])
    && (forall j, j' :: 0 <= j < j' < |idx| ==> idx[j] < idx[j'])
  }

  /** Positions picked from `p` stay picked from `p + [x]`, and `x` can be picked after them. */
  lemma PicksSnoc<T>(p: seq<T>, r: seq<T>, idx: seq<nat>, x: T)
    requires PicksAt(p, r, idx)
    ensures |p| !in idx
    ensures PicksAt(p + [x], r, idx)
    ensures PicksAt(p + [x], r + [x], idx + [|p|])
  {
    var xs := p + [x];
    assert forall j :: 0 <= j < |idx| ==> xs[idx[j]] == p[idx[j]];
  }

  /** The item at position `i` is the first of its key. */
  ghost predicate FirstOfKey<T, K>(xs: seq<T>, key: T -> K, i: nat)
    requires i < |xs|
  {
    key(xs[i]) !in Keys(xs[..i], key)
  }

  /** Appending an item changes no earlier position's standing and puts its own key's test last. */
  lemma FirstOfKeySnoc<T, K>(p: seq<T>, x: T, key: T -> K)
    ensures forall i :: 0 <= i < |p| ==> FirstOfKey(p + [x], key, i) == FirstOfKey(p, key, i)
    ensures FirstOfKey(p + [x], key, |p|) == (key(x) !in Keys(p, key))
  {
    var xs := p + [x];
    forall i | 0 <= i < |p| ensures FirstOfKey(xs, key, i) == FirstOfKey(p, key, i) {
      assert xs[..i] == p[..i] && xs[i] == p[i];
    }
    assert xs[..|p|] == p;
  }

  /** `idx` lists the first-of-key positions of `xs` in increasing order and `r` takes those items. */
  ghost predicate FirstPicks<T, K>(xs: seq<T>, key: T -> K, r: seq<T>, idx: seq<nat>) {
    PicksAt(xs, r, idx) && forall i :: 0 <= i < |xs| ==> (i in idx <==> FirstOfKey(xs, key, i))
  }

  /** An item whose key occurred before is not picked. */
  lemma FirstPicksKeep<T, K>(p: seq<T>, x: T, key: T -> K, r: seq<T>, idx: seq<nat>)
    requires FirstPicks(p, key, r, idx) && key(x) in Keys(p, key)
    ensures FirstPicks(p + [x], key, r, idx)
  {
    var xs := p + [x];
    PicksSnoc(p, r, idx, x);
    FirstOfKeySnoc(p, x, key);
    forall i | 0 <= i < |xs| ensures i in idx <==> FirstOfKey(xs, key, i) {
      if i < |p| {
        assert FirstOfKey(xs, key, i) == FirstOfKey(p, key, i);
      }
    }
  }

  /** An item with a new key is picked, after all earlier picks. */
  lemma FirstPicksAdd<T, K>(p: seq<T>, x: T, key: T -> K, r: seq<T>, idx: seq<nat>)
    requires FirstPicks(p, key, r, idx) && key(x) !in Keys(p, key)
    ensures FirstPicks(p + [x], key, r + [x], idx + [|p|])
  {
    var xs := p + [x];
    var idx' := idx + [|p|];
    PicksSnoc(p, r, idx, x);
    FirstOfKeySnoc(p, x, key);
    forall i | 0 <= i < |xs| ensures i in idx' <==> FirstOfKey(xs, key, i) {
      if i < |p| {
        assert FirstOfKey(xs, key, i) == FirstOfKey(p, key, i);
        assert i in idx' <==> i in idx;
      } else {
        assert idx'[|idx|] == i;
      }
    }
  }

  /**
   * `KeepFirst(xs, key)` is the subsequence of `xs`, in input order, at exactly the positions
   * whose key did not occur earlier: the first item of every key.
   */
  lemma {:induction false} KeepFirstOrder<T, K>(xs: seq<T>, key: T -> K)
    ensures exists idx: seq<nat> :: FirstPicks(xs, key, KeepFirst(xs, key), idx)
  {
    if xs == [] {
      assert FirstPicks(xs, key, KeepFirst(xs, key), []);
    } else {
      var p := xs[..|xs| - 1];
      var x := xs[|xs| - 1];
      assert xs == p + [x];
      KeepFirstOrder(p, key);
      var idx: seq<nat> :| FirstPicks(p, key, KeepFirst(p, key), idx);
      KeepFirstSnoc(p, x, key);
      if key(x) in Keys(p, key) {
        FirstPicksKeep(p, x, key, KeepFirst(p, key), idx);
      } else {
        FirstPicksAdd(p, x, key, KeepFirst(p, key), idx);
      }
    }
  }

  /** Concatenation of the lists in order. */
  function Flatten<T>(xss: seq<seq<T>>): (r: seq<T>)
    ensures |r| == SumLen(xss)
  {
    if xss == [] then [] else Flatten(xss[..|xss| - 1]) + xss[|xss| - 1]
  }

  /** Sum of the lengths of the lists. */
  function SumLen<T>(xss: seq<seq<T>>): nat {
    if xss == [] then 0 else SumLen(xss[..|xss| - 1]) + |xss[|xss| - 1]|
  }

  lemma {:induction false} FlattenAppend<T>(a: seq<seq<T>>, b: seq<seq<T>>)
    ensures Flatten(a + b) == Flatten(a) + Flatten(b)
    decreases |b|
  {
    if b == [] {
      assert a + b == a;
    } else {
      var b' := b[..|b| - 1];
      var ab := a + b;
      assert ab[..|ab| - 1] == a + b';
      assert ab[|ab| - 1] == b[|b| - 1];
      FlattenAppend(a, b');
      assert Flatten(ab) == (Flatten(a) + Flatten(b')) + b[|b| - 1];
      assert Flatten(b) == Flatten(b') + b[|b| - 1];
    }
  }

  lemma FlattenCons<T>(x: seq<T>, xss: seq<seq<T>>)
    ensures Flatten([x] + xss) == x + Flatten(xss)
  {
    FlattenAppend([x], xss);
    assert Flatten([x]) == Flatten([x][..0]) + x;
  }

  /** Removing the list at `j` takes away its length and one copy of it. */
  lemma RemoveAt<T>(b: seq<seq<T>>, j: nat)
    requires j < |b|
    ensures multiset(b[..j] + b[j + 1..]) == multiset(b) - multiset{b[j]}
  {
    assert b == b[..j] + [b[j]] + b[j + 1..];
  }

  lemma FlattenAt<T>(b: seq<seq<T>>, j: nat)
    requires j < |b|
    ensures Flatten(b) == Flatten(b[..j]) + (b[j] + Flatten(b[j + 1..]))
    ensures Flatten(b[..j] + b[j + 1..]) == Flatten(b[..j]) + Flatten(b[j + 1..])
  {
    var l, r := b[..j], b[j + 1..];
    assert Flatten(b) == Flatten(l) + (b[j] + Flatten(r)) by {
      SplitAt(b, j);
      FlattenAppend(l, [b[j]] + r);
      FlattenCons(b[j], r);
    }
    FlattenAppend(l, r);
  }

  /** Taking off the last list of a non-empty sequence of lists. */
  lemma LastOut<T>(a: seq<seq<T>>)
    requires a != []
    ensures multiset(a[..|a| - 1]) == multiset(a) - multiset{a[|a| - 1]}
    ensures Flatten(a) == Flatten(a[..|a| - 1]) + a[|a| - 1]
  {
    var n := |a| - 1;
    Whole(a);
    assert multiset(a) == multiset(a[..n]) + multiset{a[n]};
  }

  lemma MultisetMiddle<T>(l: seq<T>, x: seq<T>, r: seq<T>)
    ensures multiset(l + (x + r)) == multiset(l + r) + multiset(x)
  {
  }

  /**
   * Lists that are a permutation of each other flatten to the same multiset of items,
   * and so to the same total length.
   */
  lemma {:induction false} FlattenPermutation<T>(a: seq<seq<T>>, b: seq<seq<T>>)
    requires multiset(a) == multiset(b)
    ensures multiset(Flatten(a)) == multiset(Flatten(b))
    ensures SumLen(a) == SumLen(b)
    decreases |a|
  {
    if a != [] {
      var n := |a| - 1;
      var x := a[n];
      LastOut(a);
      assert x in multiset(b);
      var j :| 0 <= j < |b| && b[j] == x;
      RemoveAt(b, j);
      FlattenAt(b, j);
      FlattenPermutation(a[..n], b[..j] + b[j + 1..]);
      MultisetMiddle(Flatten(b[..j]), x, Flatten(b[j + 1..]));
    }
    assert |multiset(Flatten(a))| == SumLen(a) && |multiset(Flatten(b))| == SumLen(b);
  }

  /** Sum of a list of counts. */
  function Sum(xs: seq<nat>): nat {
    if xs == [] then 0 else Sum(xs[..|xs| - 1]) + xs[|xs| - 1]
  }

  lemma SumSnoc(xs: seq<nat>, x: nat)
    ensures Sum(xs + [x]) == Sum(xs) + x
  {
    assert (xs + [x])[..|xs|] == xs;
  }

  /** The images `f(x)` of the items of `xs` that are at least `minLen` long, in order. */
  function Gate<T>(xs: seq<T>, f: T -> string, minLen: nat): (r: seq<string>)
    ensures |r| <= |xs|
  {
    if xs == [] then []
    else
      var c := f(xs[|xs| - 1]);
      if |c| >= minLen then Gate(xs[..|xs| - 1], f, minLen) + [c] else Gate(xs[..|xs| - 1], f, minLen)
  }

  lemma GatePrefix<T>(xs: seq<T>, k: nat, f: T -> string, minLen: nat)
    requires k < |xs|
    ensures |f(xs[k])| >= minLen ==> Gate(xs[..k + 1], f, minLen) == Gate(xs[..k], f, minLen) + [f(xs[k])]
    ensures |f(xs[k])| < minLen ==> Gate(xs[..k + 1], f, minLen) == Gate(xs[..k], f, minLen)
  {
    assert xs[..k + 1][..k] == xs[..k];
  }

  /** A text passes the gate iff it is the image of some item and is long enough. */
  lemma {:induction false} GateMembers<T>(xs: seq<T>, f: T -> string, minLen: nat, t: string)
    ensures t in Gate(xs, f, minLen) <==> exists k :: 0 <= k < |xs| && f(xs[k]) == t && |t| >= minLen
  {
    if xs != [] {
      var p := xs[..|xs| - 1];
      GateMembers(p, f, minLen, t);
      assert forall k :: 0 <= k < |p| ==> p[k] == xs[k];
    }
  }

  /** `f` applied to each item of `xs`, in order: the result of a worker per input. */
  function MapAll<T, U>(xs: seq<T>, f: T -> U): (rs: seq<U>)
    ensures |rs| == |xs|
    ensures forall i :: 0 <= i < |xs| ==> rs[i] == f(xs[i])
  {
    if xs == [] then [] else MapAll(xs[..|xs| - 1], f) + [f(xs[|xs| - 1])]
  }
}
