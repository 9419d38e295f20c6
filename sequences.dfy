/** What every `for x in xs: results.append(...)` loop of the stores builds: the concatenation,
    in order, of the rows each element contributes. */
module Sequences {
  /** The rows `f(x)` of every `x` in `s`, concatenated in the order of `s`. */
  function FlatMap<T, U>(s: seq<T>, f: T -> seq<U>): seq<U>
    decreases |s|
  {
    if s == [] then [] else FlatMap(s[..|s| - 1], f) + f(s[|s| - 1])
  }

  /** One more element appends its own rows: the step of every such loop. */
  lemma FlatMapSnoc<T, U>(s: seq<T>, x: T, f: T -> seq<U>)
    ensures FlatMap(s + [x], f) == FlatMap(s, f) + f(x)
  {
    assert (s + [x])[..|s|] == s;
  }

  /** The rows of a concatenation are the rows of its parts, in order. */
  lemma {:induction false} FlatMapAppend<T, U>(a: seq<T>, b: seq<T>, f: T -> seq<U>)
    ensures FlatMap(a + b, f) == FlatMap(a, f) + FlatMap(b, f)
    decreases |b|
  {
    if b == [] {
      assert a + b == a;
    } else {
      var init := b[..|b| - 1];
      var last := b[|b| - 1];
      assert b == init + [last];
      assert a + b == (a + init) + [last];
      FlatMapAppend(a, init, f);
      FlatMapSnoc(a + init, last, f);
      FlatMapSnoc(init, last, f);
    }
  }

  /** A row is produced exactly when some element contributes it. */
  lemma {:induction false} FlatMapIff<T, U>(s: seq<T>, f: T -> seq<U>, y: U)
    ensures y in FlatMap(s, f) <==> exists i :: 0 <= i < |s| && y in f(s[i])
    decreases |s|
  {
    if s != [] {
      var n := |s|;
      var init := s[..n - 1];
      FlatMapIff(init, f, y);
      if y in FlatMap(s, f) {
        if y in FlatMap(init, f) {
          var i :| 0 <= i < |init| && y in f(init[i]);
          assert s[i] == init[i];
        } else {
          assert y in f(s[n - 1]);
        }
      }
      if exists i :: 0 <= i < n && y in f(s[i]) {
        var i :| 0 <= i < n && y in f(s[i]);
        if i < n - 1 {
          assert init[i] == s[i];
        }
      }
    }
  }

  /** When no element contributes more than one row, there are at most as many rows as elements. */
  lemma {:induction false} FlatMapAtMostOne<T, U>(s: seq<T>, f: T -> seq<U>)
    requires forall i :: 0 <= i < |s| ==> |f(s[i])| <= 1
    ensures |FlatMap(s, f)| <= |s|
    decreases |s|
  {
    if s != [] {
      var init := s[..|s| - 1];
      assert forall i :: 0 <= i < |init| ==> init[i] == s[i];
      FlatMapAtMostOne(init, f);
    }
  }
}
