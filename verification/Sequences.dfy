/** Facts about sequences that the verifier takes one instance at a time. */
module Sequences {
  function Min(a: nat, b: nat): nat
  {
    if a < b then a else b
  }

  /** All parts, one behind the other. */
  function Flatten<T>(parts: seq<seq<T>>): seq<T>
  {
    if parts == [] then [] else parts[0] + Flatten(parts[1..])
  }

  lemma Associates<T>(xs: seq<T>, ys: seq<T>, zs: seq<T>)
    ensures xs + (ys + zs) == xs + ys + zs
  {
  }

  /** A common first element does not matter to equality and prefix. */
  lemma ConsPrefix<T>(x: T, xs: seq<T>, ys: seq<T>)
    ensures [x] + xs <= [x] + ys <==> xs <= ys
    ensures [x] + xs == [x] + ys <==> xs == ys
  {
    assert xs == ([x] + xs)[1..] && ys == ([x] + ys)[1..];
  }

  /** The elements of xs occur in ys, in order, each at a place of its own. */
  ghost predicate IsSubsequence<T>(xs: seq<T>, ys: seq<T>)
    decreases |ys|
  {
    || xs == []
    || (ys != [] &&
         var m, n := |xs| - 1, |ys| - 1;
         (xs[m] == ys[n] && IsSubsequence(xs[..m], ys[..n])) || IsSubsequence(xs, ys[..n]))
  }

  lemma SubsequenceSkip<T>(xs: seq<T>, ys: seq<T>, y: T)
    requires IsSubsequence(xs, ys)
    ensures IsSubsequence(xs, ys + [y])
  {
    assert (ys + [y])[..|ys|] == ys;
  }

  lemma SubsequenceTake<T>(xs: seq<T>, ys: seq<T>, x: T)
    requires IsSubsequence(xs, ys)
    ensures IsSubsequence(xs + [x], ys + [x])
  {
    assert (xs + [x])[..|xs|] == xs && (ys + [x])[..|ys|] == ys;
  }

  /** Leaving elements off the end keeps a subsequence. */
  lemma {:induction false} SubsequenceDrop<T>(xs: seq<T>, x: T, ys: seq<T>)
    requires IsSubsequence(xs + [x], ys)
    ensures IsSubsequence(xs, ys)
    decreases |ys|
  {
    var n := |ys| - 1;
    assert (xs + [x])[..|xs|] == xs;
    if IsSubsequence(xs + [x], ys[..n]) {
      SubsequenceDrop(xs, x, ys[..n]);
    }
    SubsequenceSkip(xs, ys[..n], ys[n]);
    assert ys[..n] + [ys[n]] == ys;
  }

  lemma {:induction false} SubsequencePrefix<T>(xs: seq<T>, more: seq<T>, ys: seq<T>)
    requires IsSubsequence(xs + more, ys)
    ensures IsSubsequence(xs, ys)
    decreases |more|
  {
    if more == [] {
      assert xs + more == xs;
    } else {
      var k := |more| - 1;
      assert xs + more == (xs + more[..k]) + [more[k]];
      SubsequenceDrop(xs + more[..k], more[k], ys);
      SubsequencePrefix(xs, more[..k], ys);
    }
  }
}
