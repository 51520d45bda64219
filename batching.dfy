/**
 * The batched training loop shared by the three trainers. Rows are cleaned one at
 * a time; every kept row is appended to `batch`; as soon as `batch` holds
 * `BATCH_SIZE` rows a model is built from it and merged into `combined_model`;
 * after the last row a non-empty remainder is merged the same way. The n-gram model
 * type `M`, `markovify.Text` (`build`) and `markovify.combine` (`combine`) are
 * parameters: nothing is assumed about them.
 */
module Batching {
  import opened Wrappers
  import opened Strings
  import opened Collections
  import opened Seqs

  /** Rows per intermediate model. */
  const BATCH_SIZE: nat := 50000

  /** The cleaned texts of the rows that pass the cleaner, in input order. */
  function Accepted<R>(rows: seq<R>, accept: R -> Option<string>): (r: seq<string>)
    ensures |r| <= |rows|
  {
    if rows == [] then []
    else
      var p := Accepted(rows[..|rows| - 1], accept);
      var c := accept(rows[|rows| - 1]);
      if Truthy(c) then p + [c.value] else p
  }

  /** A text is kept exactly when some row cleans to it. */
  lemma {:induction false} AcceptedMembers<R>(rows: seq<R>, accept: R -> Option<string>, t: string)
    ensures t in Accepted(rows, accept) <==>
      exists i :: 0 <= i < |rows| && accept(rows[i]) == Some(t) && t != []
  {
    if rows != [] {
      var n := |rows| - 1;
      var p := rows[..n];
      AcceptedMembers(p, accept, t);
      assert forall i :: 0 <= i < n ==> p[i] == rows[i];
      if t in Accepted(rows, accept) && t !in Accepted(p, accept) {
        assert accept(rows[n]) == Some(t);
      }
      if accept(rows[n]) == Some(t) && t != [] {
        assert t in Accepted(rows, accept);
      }
    }
  }

  /** `xs` cut into consecutive pieces of `n`, the last one possibly shorter but never empty. */
  function Chunks<T>(xs: seq<T>, n: nat): (cs: seq<seq<T>>)
    requires n > 0
    ensures forall i :: 0 <= i < |cs| ==> 0 < |cs[i]| <= n
    ensures forall i :: 0 <= i < |cs| - 1 ==> |cs[i]| == n
    ensures cs == [] <==> xs == []
    decreases |xs|
  {
    if |xs| <= n then (if xs == [] then [] else [xs])
    else [xs[..n]] + Chunks(xs[n..], n)
  }

  /** The pieces, concatenated in order, give back the input. */
  lemma {:induction false} ChunksFlatten<T>(xs: seq<T>, n: nat)
    requires n > 0
    ensures Flatten(Chunks(xs, n)) == xs
    decreases |xs|
  {
    if |xs| <= n {
      if xs != [] {
        FlattenCons(xs, []);
        AppendNil([xs]);
        AppendNil(xs);
      }
    } else {
      ChunksFlatten(xs[n..], n);
      FlattenCons(xs[..n], Chunks(xs[n..], n));
      TakeDrop(xs, n);
    }
  }

  /** A full piece in front of a non-empty rest is split off first. */
  lemma ChunksCons<T>(x: seq<T>, rest: seq<T>, n: nat)
    requires n > 0 && |x| == n
    ensures Chunks(x + rest, n) == [x] + Chunks(rest, n)
  {
    var xs := x + rest;
    DropPrefix(x, rest);
    if rest == [] {
      AppendNil(x);
    }
  }

  /** Every piece has exactly `n` items. */
  predicate Full<T>(ms: seq<seq<T>>, n: nat) {
    forall k :: 0 <= k < |ms| ==> |ms[k]| == n
  }

  lemma FullSnoc<T>(ms: seq<seq<T>>, b: seq<T>, n: nat)
    requires Full(ms, n) && |b| == n
    ensures Full(ms + [b], n)
  {
  }

  /** Full pieces followed by a shorter remainder are exactly the chunking of their concatenation. */
  lemma {:induction false} ChunksOf<T>(ms: seq<seq<T>>, b: seq<T>, n: nat)
    requires n > 0 && |b| < n
    requires Full(ms, n)
    ensures b == [] ==> Chunks(Flatten(ms) + b, n) == ms
    ensures b != [] ==> Chunks(Flatten(ms) + b, n) == ms + [b]
    decreases |ms|
  {
    if ms == [] {
      assert Flatten(ms) + b == b;
    } else {
      var x, tl := ms[0], ms[1..];
      FullTail(ms, n);
      FlattenHead(ms, b);
      ChunksOf(tl, b, n);
      ChunksCons(x, Flatten(tl) + b, n);
      HeadTail(ms, []);
      if b != [] {
        Assoc([x], tl, [b]);
      }
    }
  }

  lemma FullTail<T>(ms: seq<seq<T>>, n: nat)
    requires ms != [] && Full(ms, n)
    ensures |ms[0]| == n && Full(ms[1..], n)
  {
  }

  /** Taking off the first piece before or after concatenating. */
  lemma FlattenHead<T>(ms: seq<seq<T>>, b: seq<T>)
    requires ms != []
    ensures Flatten(ms) + b == ms[0] + (Flatten(ms[1..]) + b)
  {
    HeadTail(ms, []);
    AppendNil(ms);
    FlattenCons(ms[0], ms[1..]);
    Assoc(ms[0], Flatten(ms[1..]), b);
  }

  /** Merging a new model into the running one: `combine([acc, m]) if acc else m`. */
  function Merge<M>(acc: Option<M>, m: M, combine: (M, M) -> M): (r: M)
    ensures acc.None? ==> r == m
  {
    match acc
    case None => m
    case Some(a) => combine(a, m)
  }

  /** The running model after merging the models built from `bs`, in order. */
  function Fold<M>(bs: seq<seq<string>>, build: seq<string> -> M, combine: (M, M) -> M): (r: Option<M>)
    ensures r.None? <==> bs == []
  {
    if bs == [] then None
    else Some(Merge(Fold(bs[..|bs| - 1], build, combine), build(bs[|bs| - 1]), combine))
  }

  lemma AcceptedStep<R>(rows: seq<R>, i: nat, accept: R -> Option<string>)
    requires i < |rows|
    ensures Truthy(accept(rows[i])) ==>
      Accepted(rows[..i + 1], accept) == Accepted(rows[..i], accept) + [accept(rows[i]).value]
    ensures !Truthy(accept(rows[i])) ==> Accepted(rows[..i + 1], accept) == Accepted(rows[..i], accept)
  {
    SnocPrefix(rows, i);
  }

  lemma MergedStep<M>(ms: seq<seq<string>>, b: seq<string>, build: seq<string> -> M, combine: (M, M) -> M)
    ensures Fold(ms + [b], build, combine) == Some(Merge(Fold(ms, build, combine), build(b), combine))
    ensures Flatten(ms + [b]) == Flatten(ms) + b
  {
    DropPrefix(ms, [b]);
  }

  /**
   * The training loop over a finished (or interrupted, hence shorter) row stream:
   * the result is the left fold over the chunking of the kept rows, and it is
   * `None` exactly when no row was kept.
   */
  method RunTraining<R, M>(rows: seq<R>, accept: R -> Option<string>,
                           build: seq<string> -> M, combine: (M, M) -> M)
    returns (combined: Option<M>, total: nat)
    ensures total == |Accepted(rows, accept)|
    ensures combined == Fold(Chunks(Accepted(rows, accept), BATCH_SIZE), build, combine)
    ensures combined.None? <==> total == 0
  {
    combined := None;
    total := 0;
    var batch: seq<string> := [];
    ghost var merged: seq<seq<string>> := [];
    var i := 0;
    while i < |rows|
      invariant 0 <= i <= |rows|
      invariant |batch| < BATCH_SIZE
      invariant Full(merged, BATCH_SIZE)
      invariant Flatten(merged) + batch == Accepted(rows[..i], accept)
      invariant total == |Accepted(rows[..i], accept)|
      invariant combined == Fold(merged, build, combine)
    {
      AcceptedStep(rows, i, accept);
      var cleaned := accept(rows[i]);
      if Truthy(cleaned) {
        Assoc(Flatten(merged), batch, [cleaned.value]);
        batch := batch + [cleaned.value];
        total := total + 1;
      }
      if |batch| >= BATCH_SIZE {
        var model := build(batch);
        combined := Some(Merge(combined, model, combine));
        MergedStep(merged, batch, build, combine);
        AppendNil(Flatten(merged) + batch);
        FullSnoc(merged, batch, BATCH_SIZE);
        merged := merged + [batch];
        batch := [];
      }
      i := i + 1;
    }
    Whole(rows);
    ChunksOf(merged, batch, BATCH_SIZE);
    if batch != [] {
      var model := build(batch);
      combined := Some(Merge(combined, model, combine));
      MergedStep(merged, batch, build, combine);
      merged := merged + [batch];
    }
    assert Chunks(Accepted(rows, accept), BATCH_SIZE) == merged;
  }
}
