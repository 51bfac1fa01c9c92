/** Properties of the duplex automaton: permutation counts, absorbing and squeezing in pieces, and
    the behaviour of the squeeze loop as written. */
module DuplexProperties {
  import opened Field
  import opened Rescue
  import opened Duplex

  /** A chunked loop over n >= 1 items from index `start` permutes ceil((start + n) / rate) - 1
      times, that is floor((start + n - 1) / rate) times: once per full window crossed. */
  lemma {:induction false} ChunkPermutesCount(rate: nat, start: nat, n: nat)
    requires rate >= 1 && start <= rate && n >= 1
    ensures ChunkPermutes(rate, start, n) == (start + n - 1) / rate
    decreases n, start
  {
    if start + n <= rate {
      DivUnique(start + n - 1, rate, 0, start + n - 1);
    } else {
      var m := n - (rate - start);
      ChunkPermutesCount(rate, 0, m);
      var q := (m - 1) / rate;
      DivUnique(start + n - 1, rate, q + 1, (m - 1) % rate);
    }
  }

  /** Absorbing n >= 1 elements costs one extra permutation exactly when the sponge was squeezing
      or its window was full, on top of one per full window crossed. */
  lemma AbsorbPermutesCount(c: ValidConfig, m: Mode, n: nat)
    requires c.rate >= 1 && m.Index() <= c.rate && n >= 1
    ensures AbsorbPermutes(c, m, n) ==
      if m.Squeezing? || m.Index() == c.rate then 1 + (n - 1) / c.rate
      else (m.Index() + n - 1) / c.rate
  {
    if m.Squeezing? || m.Index() == c.rate {
      ChunkPermutesCount(c.rate, 0, n);
    } else {
      ChunkPermutesCount(c.rate, m.Index(), n);
    }
  }

  /** Squeezing n >= 1 elements costs one extra permutation exactly when the sponge was absorbing
      or its window was used up, on top of one per full window crossed. */
  lemma SqueezePermutesCount(c: ValidConfig, m: Mode, n: nat)
    requires c.rate >= 1 && m.Index() <= c.rate && n >= 1
    ensures SqueezePermutes(c, m, n) ==
      if m.Absorbing? || m.Index() == c.rate then 1 + (n - 1) / c.rate
      else (m.Index() + n - 1) / c.rate
  {
    if m.Absorbing? || m.Index() == c.rate {
      ChunkPermutesCount(c.rate, 0, n);
    } else {
      ChunkPermutesCount(c.rate, m.Index(), n);
    }
  }

  /** Adding `xs` and then `ys` just after it is adding `xs + ys`. */
  lemma AddAtConcat(s: seq<int>, offset: nat, xs: seq<int>, ys: seq<int>, p: nat)
    requires p > 0 && offset + |xs| + |ys| <= |s|
    ensures AddAt(AddAt(s, offset, xs, p), offset + |xs|, ys, p) == AddAt(s, offset, xs + ys, p)
  {
    var l := AddAt(AddAt(s, offset, xs, p), offset + |xs|, ys, p);
    var r := AddAt(s, offset, xs + ys, p);
    forall j | 0 <= j < |s|
      ensures l[j] == r[j]
    {
      if offset <= j < offset + |xs| {
        assert (xs + ys)[j - offset] == xs[j - offset];
      } else if offset + |xs| <= j < offset + |xs| + |ys| {
        assert (xs + ys)[j - offset] == ys[j - offset - |xs|];
      }
    }
  }

  /** Absorbing a non-empty input from a full window is permuting and absorbing from index 0. */
  lemma AbsorbAtRate(c: ValidConfig, s: seq<int>, start: nat, ys: seq<int>)
    requires |s| == c.Width() && |ys| >= 1 && start == c.rate
    ensures AbsorbInternal(c, s, start, ys) == AbsorbInternal(c, Permutation(c, s), 0, ys)
  {
    AbsorbStep(c, s, start, ys, 0);
    AddAtNone(s, c.capacity + start, ys[..0], c.modulus);
    assert ys[0..] == ys;
  }

  /** Adding an empty input changes nothing. */
  lemma AddAtNone(s: seq<int>, offset: nat, xs: seq<int>, p: nat)
    requires p > 0 && offset <= |s| && |xs| == 0
    ensures AddAt(s, offset, xs, p) == s
  {
  }

  /** Absorbing within the window adds input k to slot capacity + start + k and leaves every other
      slot, the capacity slots among them, unchanged. */
  lemma AbsorbWithinWindow(c: ValidConfig, s: seq<int>, start: nat, xs: seq<int>)
    requires |s| == c.Width() && start + |xs| <= c.rate
    ensures var d := AbsorbInternal(c, s, start, xs);
      && d.mode == Absorbing(start + |xs|)
      && (forall k :: 0 <= k < |xs| ==>
            d.state[c.capacity + start + k] == (s[c.capacity + start + k] + xs[k]) % c.modulus)
      && (forall j :: 0 <= j < |s| && !(c.capacity + start <= j < c.capacity + start + |xs|) ==>
            d.state[j] == s[j])
  {
    var d := AbsorbInternal(c, s, start, xs);
    assert d.state == AddAt(s, c.capacity + start, xs, c.modulus);
  }

  /** The absorb loop when the input fits in the window. */
  lemma AbsorbFits(c: ValidConfig, s: seq<int>, start: nat, xs: seq<int>)
    requires |s| == c.Width() && start + |xs| <= c.rate
    ensures AbsorbInternal(c, s, start, xs) ==
      Sponge(AddAt(s, c.capacity + start, xs, c.modulus), Absorbing(start + |xs|))
  {
  }

  /** One step of the absorb loop when the input crosses the window boundary: fill the window,
      permute, and absorb the rest from index 0. */
  lemma AbsorbStep(c: ValidConfig, s: seq<int>, start: nat, xs: seq<int>, n: nat)
    requires |s| == c.Width() && start <= c.rate < start + |xs|
    requires n == c.rate - start
    ensures AbsorbInternal(c, s, start, xs) ==
      AbsorbInternal(c, Permutation(c, AddAt(s, c.capacity + start, xs[..n], c.modulus)), 0, xs[n..])
  {
  }

  /** Cutting `xs + ys` at `n <= |xs|`. */
  lemma CutLeft(xs: seq<int>, ys: seq<int>, n: nat)
    requires n <= |xs|
    ensures (xs + ys)[..n] == xs[..n] && (xs + ys)[n..] == xs[n..] + ys
  {
  }

  /** Cutting `xs + ys` at `|xs| + n1`, with `n1 <= |ys|`. */
  lemma CutRight(xs: seq<int>, ys: seq<int>, n: nat, n1: nat)
    requires n == |xs| + n1 && n1 <= |ys|
    ensures (xs + ys)[..n] == xs + ys[..n1] && (xs + ys)[n..] == ys[n1..]
  {
  }

  /** Absorbing `xs` and then `ys` from where the first absorb stopped is absorbing `xs + ys`. */
  predicate AbsorbSplits(c: ValidConfig, s: seq<int>, start: nat, xs: seq<int>, ys: seq<int>)
    requires |s| == c.Width() && start <= c.rate
  {
    var d := AbsorbInternal(c, s, start, xs);
    AbsorbInternal(c, d.state, d.mode.nextAbsorbIndex, ys) == AbsorbInternal(c, s, start, xs + ys)
  }

  /** The absorb loop treats its input as a stream. */
  lemma {:induction false} AbsorbInternalConcat(c: ValidConfig, s: seq<int>, start: nat, xs: seq<int>, ys: seq<int>)
    requires |s| == c.Width() && start <= c.rate
    ensures AbsorbSplits(c, s, start, xs, ys)
    decreases |xs|, start
  {
    if start + |xs| > c.rate {
      var n := c.rate - start;
      AbsorbInternalConcat(c, Permutation(c, AddAt(s, c.capacity + start, xs[..n], c.modulus)), 0, xs[n..], ys);
      AbsorbConcatPast(c, s, start, xs, ys, n);
    } else if start + |xs| + |ys| <= c.rate {
      AbsorbConcatWithin(c, s, start, xs, ys);
    } else {
      AbsorbConcatCrossing(c, s, start, xs, ys);
    }
  }

  /** `AbsorbInternalConcat` when `xs` crosses the window boundary, given the property for the
      rest of `xs`. */
  lemma AbsorbConcatPast(c: ValidConfig, s: seq<int>, start: nat, xs: seq<int>, ys: seq<int>, n: nat)
    requires |s| == c.Width() && start <= c.rate < start + |xs|
    requires n == c.rate - start
    requires AbsorbSplits(c, Permutation(c, AddAt(s, c.capacity + start, xs[..n], c.modulus)), 0, xs[n..], ys)
    ensures AbsorbSplits(c, s, start, xs, ys)
  {
    AbsorbStep(c, s, start, xs, n);
    AbsorbStep(c, s, start, xs + ys, n);
    CutLeft(xs, ys, n);
  }

  /** `AbsorbInternalConcat` when both inputs fit in the window. */
  lemma AbsorbConcatWithin(c: ValidConfig, s: seq<int>, start: nat, xs: seq<int>, ys: seq<int>)
    requires |s| == c.Width() && start + |xs| + |ys| <= c.rate
    ensures AbsorbSplits(c, s, start, xs, ys)
  {
    AbsorbFits(c, s, start, xs);
    AbsorbFits(c, AddAt(s, c.capacity + start, xs, c.modulus), start + |xs|, ys);
    AbsorbFits(c, s, start, xs + ys);
    AddAtConcat(s, c.capacity + start, xs, ys, c.modulus);
  }

  /** `AbsorbInternalConcat` when `xs` fits in the window and `ys` crosses it. */
  lemma AbsorbConcatCrossing(c: ValidConfig, s: seq<int>, start: nat, xs: seq<int>, ys: seq<int>)
    requires |s| == c.Width() && start + |xs| <= c.rate < start + |xs| + |ys|
    ensures AbsorbSplits(c, s, start, xs, ys)
  {
    var o := c.capacity + start;
    var n := c.rate - start;
    var n1 := n - |xs|;
    var s1 := AddAt(s, o, xs, c.modulus);
    var filled := AddAt(s1, c.capacity + (start + |xs|), ys[..n1], c.modulus);
    assert filled == AddAt(s, o, (xs + ys)[..n], c.modulus) by {
      CutRight(xs, ys, n, n1);
      assert c.capacity + (start + |xs|) == o + |xs|;
      AddAtConcat(s, o, xs, ys[..n1], c.modulus);
    }
    assert (xs + ys)[n..] == ys[n1..] by {
      CutRight(xs, ys, n, n1);
    }
    AbsorbFits(c, s, start, xs);
    AbsorbStep(c, s1, start + |xs|, ys, n1);
    AbsorbStep(c, s, start, xs + ys, n);
  }

  /** Two absorbs in a row are one absorb of the concatenated input. */
  lemma AbsorbConcat(c: ValidConfig, d: Sponge, xs: seq<int>, ys: seq<int>)
    requires SpongeValid(c, d)
    ensures Absorb(c, Absorb(c, d, xs), ys) == Absorb(c, d, xs + ys)
  {
    if |xs| == 0 {
      assert xs + ys == ys;
    } else if |ys| == 0 {
      assert xs + ys == xs;
    } else {
      var s0, i0 := d.state, d.mode.Index();
      if d.mode.Squeezing? || d.mode.Index() == c.rate {
        s0, i0 := Permutation(c, d.state), 0;
      }
      var d1 := Absorb(c, d, xs);
      assert d1 == AbsorbInternal(c, s0, i0, xs);
      if d1.mode.nextAbsorbIndex == c.rate {
        AbsorbAtRate(c, d1.state, d1.mode.nextAbsorbIndex, ys);
      }
      AbsorbInternalConcat(c, s0, i0, xs, ys);
    }
  }

  /** Absorbing `left` and then `right` is absorbing `[left, right]`. */
  lemma AbsorbPair(c: ValidConfig, d: Sponge, left: int, right: int)
    requires SpongeValid(c, d)
    ensures Absorb(c, Absorb(c, d, [left]), [right]) == Absorb(c, d, [left, right])
  {
    var xs, ys := [left], [right];
    AbsorbConcat(c, d, xs, ys);
    assert xs + ys == [left, right];
  }

  /** Squeezing from a used-up window is permuting and squeezing from index 0. */
  lemma SqueezeAtRate(c: ValidConfig, s: seq<int>, n: nat)
    requires |s| == c.Width() && n >= 1
    ensures SqueezeInternal(c, s, c.rate, n) == SqueezeInternal(c, Permutation(c, s), 0, n)
  {
    assert s[c.capacity + c.rate .. c.capacity + c.rate] == [];
  }

  /** One step of the squeeze loop when the request crosses the window boundary: the rest of
      the window, then `m` elements from the permuted state. */
  lemma SqueezeStep(c: ValidConfig, s: seq<int>, start: nat, n: nat, m: nat)
    requires |s| == c.Width() && start <= c.rate < start + n
    requires m == n - (c.rate - start)
    ensures var rest := SqueezeInternal(c, Permutation(c, s), 0, m);
      SqueezeInternal(c, s, start, n) ==
      Squeezed(s[c.capacity + start .. c.capacity + c.rate] + rest.out, rest.after)
  {
  }

  /** The squeeze loop when the request fits in the window. */
  lemma SqueezeFits(c: ValidConfig, s: seq<int>, start: nat, n: nat)
    requires |s| == c.Width() && start + n <= c.rate
    ensures SqueezeInternal(c, s, start, n) ==
      Squeezed(s[c.capacity + start .. c.capacity + start + n], Sponge(s, Squeezing(start + n)))
  {
  }

  /** Squeezing within the window reads output k from slot capacity + start + k, leaves the state
      untouched and records where squeezing stopped. */
  lemma SqueezeWithinWindow(c: ValidConfig, s: seq<int>, start: nat, n: nat)
    requires |s| == c.Width() && start + n <= c.rate
    ensures var r := SqueezeInternal(c, s, start, n);
      && |r.out| == n
      && (forall k :: 0 <= k < n ==> r.out[k] == s[c.capacity + start + k])
      && r.after.state == s
      && r.after.mode == Squeezing(start + n)
  {
    SqueezeFits(c, s, start, n);
  }

  /** A slice is the concatenation of its two halves at any cut point. */
  lemma SliceSplit(s: seq<int>, i: nat, j: nat, k: nat)
    requires i <= j <= k <= |s|
    ensures s[i .. k] == s[i .. j] + s[j .. k]
  {
  }

  /** Concatenation is associative. */
  lemma AppendAssoc<T>(x: seq<T>, y: seq<T>, z: seq<T>)
    ensures x + (y + z) == (x + y) + z
  {
  }

  /** Squeezing `a` and then `b` elements from where the first squeeze stopped yields the same
      elements, and leaves the same sponge, as squeezing `a + b` at once. */
  predicate SqueezeSplits(c: ValidConfig, s: seq<int>, start: nat, a: nat, b: nat)
    requires |s| == c.Width() && start <= c.rate
  {
    var r1 := SqueezeInternal(c, s, start, a);
    var r2 := SqueezeInternal(c, r1.after.state, r1.after.mode.nextSqueezeIndex, b);
    var r := SqueezeInternal(c, s, start, a + b);
    r.out == r1.out + r2.out && r.after == r2.after
  }

  /** The squeeze loop yields one stream: any `b >= 1` further elements continue it. */
  lemma {:induction false} SqueezeInternalConcat(c: ValidConfig, s: seq<int>, start: nat, a: nat, b: nat)
    requires |s| == c.Width() && start <= c.rate && b >= 1
    ensures SqueezeSplits(c, s, start, a, b)
    decreases a, start
  {
    if start + a > c.rate {
      SqueezeInternalConcat(c, Permutation(c, s), 0, a - (c.rate - start), b);
      SqueezeConcatPast(c, s, start, a, b);
    } else if start + a + b <= c.rate {
      SqueezeConcatWithin(c, s, start, a, b);
    } else {
      SqueezeConcatCrossing(c, s, start, a, b);
    }
  }

  /** `SqueezeInternalConcat` when the first squeeze crosses the window boundary, given the
      property for the rest of the first squeeze. */
  lemma SqueezeConcatPast(c: ValidConfig, s: seq<int>, start: nat, a: nat, b: nat)
    requires |s| == c.Width() && start <= c.rate < start + a && b >= 1
    requires SqueezeSplits(c, Permutation(c, s), 0, a - (c.rate - start), b)
    ensures SqueezeSplits(c, s, start, a, b)
  {
    var m := a - (c.rate - start);
    var ps := Permutation(c, s);
    var q1 := SqueezeInternal(c, ps, 0, m);
    var r1 := SqueezeInternal(c, s, start, a);
    SqueezeStepTwice(c, s, start, a, b, m);
    ConcatFromParts(s, c.capacity + start, c.capacity + c.rate, q1,
      SqueezeInternal(c, q1.after.state, q1.after.mode.nextSqueezeIndex, b), SqueezeInternal(c, ps, 0, m + b),
      r1, SqueezeInternal(c, r1.after.state, r1.after.mode.nextSqueezeIndex, b), SqueezeInternal(c, s, start, a + b));
  }

  /** `SqueezeStep` for `a` and for `a + b` elements. */
  lemma SqueezeStepTwice(c: ValidConfig, s: seq<int>, start: nat, a: nat, b: nat, m: nat)
    requires |s| == c.Width() && start <= c.rate < start + a
    requires m == a - (c.rate - start)
    ensures var w := s[c.capacity + start .. c.capacity + c.rate];
      var q1 := SqueezeInternal(c, Permutation(c, s), 0, m);
      var q := SqueezeInternal(c, Permutation(c, s), 0, m + b);
      SqueezeInternal(c, s, start, a) == Squeezed(w + q1.out, q1.after)
      && SqueezeInternal(c, s, start, a + b) == Squeezed(w + q.out, q.after)
  {
    SqueezeStep(c, s, start, a, m);
    SqueezeStep(c, s, start, a + b, m + b);
  }

  /** Reassembles the concatenation property from the pieces of one crossing step whose window
      part is `s[i .. k]`. */
  lemma ConcatFromParts(s: seq<int>, i: nat, k: nat, q1: Squeezed, q2: Squeezed, q: Squeezed,
                        r1: Squeezed, r2: Squeezed, r: Squeezed)
    requires i <= k <= |s|
    requires q.out == q1.out + q2.out && q.after == q2.after
    requires r1 == Squeezed(s[i .. k] + q1.out, q1.after) && r2 == q2
    requires r == Squeezed(s[i .. k] + q.out, q.after)
    ensures r.out == r1.out + r2.out && r.after == r2.after
  {
    AppendAssoc(s[i .. k], q1.out, q2.out);
  }

  /** `SqueezeInternalConcat` when both squeezes fit in the window. */
  lemma SqueezeConcatWithin(c: ValidConfig, s: seq<int>, start: nat, a: nat, b: nat)
    requires |s| == c.Width() && start + a + b <= c.rate
    ensures SqueezeSplits(c, s, start, a, b)
  {
    var o := c.capacity + start;
    assert c.capacity + (start + a) == o + a && c.capacity + (start + a) + b == o + a + b
      && c.capacity + start + (a + b) == o + a + b;
    SqueezeFits(c, s, start, a);
    SqueezeFits(c, s, start + a, b);
    SqueezeFits(c, s, start, a + b);
    SliceSplit(s, o, o + a, o + a + b);
  }

  /** `SqueezeInternalConcat` when the first squeeze fits in the window and the second crosses it. */
  lemma SqueezeConcatCrossing(c: ValidConfig, s: seq<int>, start: nat, a: nat, b: nat)
    requires |s| == c.Width() && start + a <= c.rate < start + a + b
    ensures SqueezeSplits(c, s, start, a, b)
  {
    var o := c.capacity;
    var m := a + b - (c.rate - start);
    var r1 := SqueezeInternal(c, s, start, a);
    assert o + start + a == o + (start + a);
    SqueezeFits(c, s, start, a);
    SqueezeStep(c, s, start + a, b, m);
    SqueezeStep(c, s, start, a + b, m);
    CrossFromParts(s, o + start, o + (start + a), o + c.rate, SqueezeInternal(c, Permutation(c, s), 0, m), r1,
      SqueezeInternal(c, r1.after.state, r1.after.mode.nextSqueezeIndex, b), SqueezeInternal(c, s, start, a + b));
  }

  /** Reassembles the concatenation property when only the second squeeze crosses the window
      `s[i .. k]`, split at `j`. */
  lemma CrossFromParts(s: seq<int>, i: nat, j: nat, k: nat, rest: Squeezed, r1: Squeezed, r2: Squeezed, r: Squeezed)
    requires i <= j <= k <= |s|
    requires r1.out == s[i .. j]
    requires r2 == Squeezed(s[j .. k] + rest.out, rest.after)
    requires r == Squeezed(s[i .. k] + rest.out, rest.after)
    ensures r.out == r1.out + r2.out && r.after == r2.after
  {
    SliceSplit(s, i, j, k);
    AppendAssoc(s[i .. j], s[j .. k], rest.out);
  }

  /** Squeezing `a` and then `b >= 1` elements yields the same elements, and leaves the same
      sponge, as squeezing `a + b` at once. */
  lemma SqueezeConcat(c: ValidConfig, d: Sponge, a: nat, b: nat)
    requires SpongeValid(c, d) && b >= 1
    ensures var r1 := Squeeze(c, d, a);
      var r2 := Squeeze(c, r1.after, b);
      var r := Squeeze(c, d, a + b);
      r.out == r1.out + r2.out && r.after == r2.after
  {
    var s0, i0 := d.state, d.mode.Index();
    if d.mode.Absorbing? || d.mode.Index() == c.rate {
      s0, i0 := Permutation(c, d.state), 0;
    }
    var r1 := Squeeze(c, d, a);
    assert r1 == SqueezeInternal(c, s0, i0, a);
    if r1.after.mode.nextSqueezeIndex == c.rate {
      SqueezeAtRate(c, r1.after.state, b);
    }
    SqueezeInternalConcat(c, s0, i0, a, b);
  }

  /** The first element of a squeeze of n >= 1 elements is the element a squeeze of one yields. */
  lemma SqueezeHead(c: ValidConfig, d: Sponge, n: nat)
    requires SpongeValid(c, d) && n >= 1
    ensures Squeeze(c, d, n).out[0] == Squeeze(c, d, 1).out[0]
  {
    if n > 1 {
      SqueezeConcat(c, d, 1, n - 1);
    }
  }

  /** As written, squeezing exactly `rate` elements from index 0 < k < rate reads the rest of the
      window and then, without permuting, the first k slots of the same window again. */
  lemma AsWrittenRereadsWindow(c: ValidConfig, s: seq<int>, k: nat)
    requires |s| == c.Width() && 0 < k < c.rate
    ensures SqueezeInternalAsWritten(c, s, k, c.rate).out ==
      s[c.capacity + k .. c.capacity + c.rate] + s[c.capacity .. c.capacity + k]
    ensures SqueezeInternalAsWritten(c, s, k, c.rate).after == Sponge(s, Squeezing(k))
  {
    AsWrittenFullStep(c, s, k);
    AsWrittenFits(c, s, k);
  }

  /** As written, a request of exactly `rate` elements from index `0 < k < rate` takes the rest
      of the window and then, without permuting, squeezes `k` more from index 0. */
  lemma AsWrittenFullStep(c: ValidConfig, s: seq<int>, k: nat)
    requires |s| == c.Width() && 0 < k < c.rate
    ensures var rest := SqueezeInternalAsWritten(c, s, 0, k);
      SqueezeInternalAsWritten(c, s, k, c.rate) ==
      Squeezed(s[c.capacity + k .. c.capacity + c.rate] + rest.out, rest.after)
  {
  }

  /** As written, `k < rate` elements from index 0 are the first `k` window slots. */
  lemma AsWrittenFits(c: ValidConfig, s: seq<int>, k: nat)
    requires |s| == c.Width() && 0 < k < c.rate
    ensures SqueezeInternalAsWritten(c, s, 0, k) ==
      Squeezed(s[c.capacity .. c.capacity + k], Sponge(s, Squeezing(k)))
  {
  }

  /** As written, after an absorb, squeezing one element and then `rate >= 2` elements returns
      the first element again as the last one of the second squeeze. */
  lemma AsWrittenRepeatsOutput(c: ValidConfig, d: Sponge)
    requires SpongeValid(c, d) && d.mode.Absorbing? && c.rate >= 2
    ensures var first := SqueezeAsWritten(c, d, 1);
      var second := SqueezeAsWritten(c, first.after, c.rate);
      second.out[c.rate - 1] == first.out[0]
  {
    var s := Permutation(c, d.state);
    var first := SqueezeAsWritten(c, d, 1);
    assert first.out == s[c.capacity .. c.capacity + 1];
    assert first.after == Sponge(s, Squeezing(1));
    AsWrittenRereadsWindow(c, s, 1);
  }

  /** The loop as written and the corrected loop agree whenever the skipped case cannot arise:
      squeezing from index 0, or asking for a number of elements other than `rate`. */
  lemma {:induction false} AsWrittenAgrees(c: ValidConfig, s: seq<int>, start: nat, n: nat)
    requires |s| == c.Width() && start <= c.rate && (start == 0 || n != c.rate)
    ensures SqueezeInternalAsWritten(c, s, start, n) == SqueezeInternal(c, s, start, n)
    decreases n, start
  {
    if start + n > c.rate {
      AsWrittenAgrees(c, Permutation(c, s), 0, n - (c.rate - start));
    }
  }

  /** From an absorbing sponge, `squeeze_field_elements` as written yields and leaves exactly what
      the corrected loop does: this is how the hash adapters use it. */
  lemma SqueezeAsWrittenFromAbsorbing(c: ValidConfig, d: Sponge, n: nat)
    requires SpongeValid(c, d) && d.mode.Absorbing?
    ensures SqueezeAsWritten(c, d, n) == Squeeze(c, d, n)
  {
    AsWrittenAgrees(c, Permutation(c, d.state), 0, n);
  }
}
