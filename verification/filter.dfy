/** The provider's generic filter chain: a record survives when every
    predicate of an ordered chain accepts it, and the predicates are tried
    left to right, stopping at the first that rejects. */
module FilterChain {

  /** Every predicate of the chain accepts `v`. */
  ghost predicate AllAccept<T(!new)>(fs: seq<T -> bool>, v: T)
  {
    forall i :: 0 <= i < |fs| ==> fs[i](v)
  }

  /** `xs` is `ys` with some elements left out, the others kept in order. */
  ghost predicate IsSubsequence<T(!new)>(xs: seq<T>, ys: seq<T>)
    decreases |ys|
  {
    if |xs| == 0 then true
    else if |ys| == 0 then false
    else (xs[0] == ys[0] && IsSubsequence(xs[1..], ys[1..])) || IsSubsequence(xs, ys[1..])
  }

  /** The inner loop of the chain: the index of the first predicate that
      rejects `v`, or `|fs|` when none does. The predicates before it were
      all tried and accepted; the ones after it are never tried. */
  function FirstRejecting<T(!new)>(fs: seq<T -> bool>, v: T): (k: nat)
    ensures k <= |fs|
    ensures forall i :: 0 <= i < k ==> fs[i](v)
    ensures k < |fs| ==> !fs[k](v)
    decreases |fs|
  {
    if |fs| == 0 || !fs[0](v) then 0 else 1 + FirstRejecting(fs[1..], v)
  }

  /** The chain lets `v` through. */
  function Accepts<T(!new)>(fs: seq<T -> bool>, v: T): (b: bool)
    ensures b <==> AllAccept(fs, v)
  {
    FirstRejecting(fs, v) == |fs|
  }

  /** `filter`: the records that every predicate accepts, in input order. */
  function Filter<T(!new)>(vs: seq<T>, fs: seq<T -> bool>): (r: seq<T>)
    ensures |r| <= |vs|
    ensures forall k :: 0 <= k < |r| ==> r[k] in vs && AllAccept(fs, r[k])
    decreases |vs|
  {
    if |vs| == 0 then []
    else (if Accepts(fs, vs[0]) then [vs[0]] else []) + Filter(vs[1..], fs)
  }

  /** The filtered sequence is a subsequence of the input, and each value
      occurs in it exactly as often as in the input when the chain accepts
      it, and never otherwise. */
  lemma {:induction false} FilterSelects<T(!new)>(vs: seq<T>, fs: seq<T -> bool>)
    ensures IsSubsequence(Filter(vs, fs), vs)
    ensures forall x :: multiset(Filter(vs, fs))[x] == if AllAccept(fs, x) then multiset(vs)[x] else 0
    decreases |vs|
  {
    if |vs| > 0 {
      var v := vs[0];
      var rest := Filter(vs[1..], fs);
      FilterSelects(vs[1..], fs);
      assert vs == [v] + vs[1..];
      if Accepts(fs, v) {
        assert Filter(vs, fs) == [v] + rest;
        assert ([v] + rest)[1..] == rest;
      } else {
        assert Filter(vs, fs) == rest;
      }
    }
  }

  /** A subsequence never holds a value more often than the sequence. */
  lemma {:induction false} SubsequenceMultiset<T(!new)>(xs: seq<T>, ys: seq<T>)
    requires IsSubsequence(xs, ys)
    ensures multiset(xs) <= multiset(ys)
    decreases |ys|
  {
    if |xs| > 0 {
      assert ys == [ys[0]] + ys[1..];
      if xs[0] == ys[0] && IsSubsequence(xs[1..], ys[1..]) {
        SubsequenceMultiset(xs[1..], ys[1..]);
        assert xs == [xs[0]] + xs[1..];
      } else {
        SubsequenceMultiset(xs, ys[1..]);
      }
    }
  }

  /** The two properties of `Filter`'s contract pin its result down: any
      subsequence of the input holding exactly the accepted values, as often
      as the input holds them, is the filtered sequence. */
  lemma {:induction false} FilterUnique<T(!new)>(vs: seq<T>, fs: seq<T -> bool>, r: seq<T>)
    requires IsSubsequence(r, vs)
    requires forall x :: multiset(r)[x] == if AllAccept(fs, x) then multiset(vs)[x] else 0
    ensures r == Filter(vs, fs)
    decreases |vs|
  {
    if |vs| == 0 {
      assert |r| == 0;
    } else {
      var v := vs[0];
      var tail := vs[1..];
      assert vs == [v] + tail;
      if AllAccept(fs, v) {
        assert multiset(r)[v] == multiset(tail)[v] + 1;
        assert |r| > 0;
        if !(r[0] == v && IsSubsequence(r[1..], tail)) {
          SubsequenceMultiset(r, tail);
          assert false;
        }
        assert r == [v] + r[1..];
        FilterUnique(tail, fs, r[1..]);
      } else {
        assert multiset(r)[v] == 0;
        if |r| > 0 {
          assert r == [r[0]] + r[1..];
          assert r[0] != v;
        }
        FilterUnique(tail, fs, r);
      }
    }
  }

  /** With no predicates every record survives. */
  lemma {:induction false} FilterNoPredicates<T(!new)>(vs: seq<T>)
    ensures Filter(vs, []) == vs
    decreases |vs|
  {
    if |vs| > 0 {
      FilterNoPredicates(vs[1..]);
      assert vs == [vs[0]] + vs[1..];
    }
  }

  /** The chain is a conjunction, so its result depends only on which
      predicates it holds, not on their order (nor on repeats). */
  lemma FilterPredicateOrder<T(!new)>(vs: seq<T>, fs: seq<T -> bool>, gs: seq<T -> bool>)
    requires forall f :: f in fs <==> f in gs
    ensures Filter(vs, fs) == Filter(vs, gs)
  {
    forall x
      ensures AllAccept(fs, x) <==> AllAccept(gs, x)
    {
      if AllAccept(fs, x) {
        forall j | 0 <= j < |gs| ensures gs[j](x) {
          assert gs[j] in fs;
        }
      }
      if AllAccept(gs, x) {
        forall j | 0 <= j < |fs| ensures fs[j](x) {
          assert fs[j] in gs;
        }
      }
    }
    FilterSelects(vs, gs);
    FilterUnique(vs, fs, Filter(vs, gs));
  }

  /** Filtering a concatenation filters each part. */
  lemma {:induction false} FilterAppend<T(!new)>(a: seq<T>, b: seq<T>, fs: seq<T -> bool>)
    ensures Filter(a + b, fs) == Filter(a, fs) + Filter(b, fs)
    decreases |a|
  {
    if |a| > 0 {
      var v := a[0];
      var head := if Accepts(fs, v) then [v] else [];
      assert (a + b)[0] == v;
      assert (a + b)[1..] == a[1..] + b;
      assert Filter(a + b, fs) == head + Filter(a[1..] + b, fs);
      assert Filter(a, fs) == head + Filter(a[1..], fs);
      FilterAppend(a[1..], b, fs);
      assert head + (Filter(a[1..], fs) + Filter(b, fs)) == (head + Filter(a[1..], fs)) + Filter(b, fs);
    } else {
      assert a + b == b;
    }
  }

  /** A chain split in two can run as two filters in a row. */
  lemma {:induction false} FilterSplitChain<T(!new)>(vs: seq<T>, fs: seq<T -> bool>, gs: seq<T -> bool>)
    ensures Filter(vs, fs + gs) == Filter(Filter(vs, fs), gs)
    decreases |vs|
  {
    if |vs| > 0 {
      FilterSplitChain(vs[1..], fs, gs);
      var v := vs[0];
      assert AllAccept(fs + gs, v) <==> AllAccept(fs, v) && AllAccept(gs, v) by {
        if AllAccept(fs, v) && AllAccept(gs, v) {
          forall i | 0 <= i < |fs + gs| ensures (fs + gs)[i](v) {
            if i >= |fs| {
              assert (fs + gs)[i] == gs[i - |fs|];
            }
          }
        }
        if AllAccept(fs + gs, v) {
          forall i | 0 <= i < |gs| ensures gs[i](v) {
            assert (fs + gs)[|fs| + i] == gs[i];
          }
          forall i | 0 <= i < |fs| ensures fs[i](v) {
            assert (fs + gs)[i] == fs[i];
          }
        }
      }
      var rest := Filter(vs[1..], fs);
      assert Filter(vs, fs + gs) == (if AllAccept(fs + gs, v) then [v] else []) + Filter(vs[1..], fs + gs);
      if AllAccept(fs, v) {
        var kept := [v] + rest;
        assert Filter(vs, fs) == kept;
        assert kept[0] == v && kept[1..] == rest;
        assert Filter(kept, gs) == (if AllAccept(gs, v) then [v] else []) + Filter(rest, gs);
      } else {
        assert Filter(vs, fs) == rest;
      }
    }
  }

  /** `filter` as the source writes it: an outer loop over the records and an
      inner loop over the predicates that gives up at the first rejection. */
  method FilterLoop<T(!new)>(vs: seq<T>, fs: seq<T -> bool>) returns (vsf: seq<T>)
    ensures vsf == Filter(vs, fs)
  {
    vsf := [];
    var n := 0;
    while n < |vs|
      invariant n <= |vs|
      invariant vsf == Filter(vs[..n], fs)
    {
      var v := vs[n];
      var accepted := true;
      var k := 0;
      while k < |fs|
        invariant k <= |fs|
        invariant accepted
        invariant forall i :: 0 <= i < k ==> fs[i](v)
      {
        if !fs[k](v) {
          accepted := false;
          break;
        }
        k := k + 1;
      }
      assert accepted <==> AllAccept(fs, v);
      FilterAppend(vs[..n], [v], fs);
      assert vs[..n + 1] == vs[..n] + [v];
      if accepted {
        vsf := vsf + [v];
      }
      n := n + 1;
    }
    assert vs[..n] == vs;
  }
}
