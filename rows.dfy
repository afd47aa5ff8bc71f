/**
 * Filtering a result set in a Python loop or comprehension: the rows that pass
 * a test are kept, in their original order. Every window's list filter and the
 * table deletes are instances of this one operation.
 */
module Rows {
  import opened Common

  /** The rows of `s` that satisfy `p`, in the order of `s`. */
  function Filter<T>(s: seq<T>, p: T -> bool): (r: seq<T>)
    ensures |r| <= |s|
  {
    if s == [] then [] else Filter(s[..|s| - 1], p) + (if p(s[|s| - 1]) then [s[|s| - 1]] else [])
  }

  /** One more row at the end of the input is one more step of the loop. */
  lemma FilterSnoc<T>(s: seq<T>, x: T, p: T -> bool)
    ensures Filter(s + [x], p) == Filter(s, p) + (if p(x) then [x] else [])
  {
    assert (s + [x])[..|s|] == s;
  }

  /** Filtering keeps exactly the rows that pass the test. */
  lemma {:induction false} FilterMembership<T>(s: seq<T>, p: T -> bool, x: T)
    ensures x in Filter(s, p) <==> x in s && p(x)
  {
    if s != [] {
      var t := s[..|s| - 1];
      FilterMembership(t, p, x);
      assert s == t + [s[|s| - 1]];
    }
  }

  /** Filtering distributes over concatenation: a kept row of the first part stays
      before every kept row of the second part. */
  lemma {:induction false} FilterConcat<T>(a: seq<T>, b: seq<T>, p: T -> bool)
    ensures Filter(a + b, p) == Filter(a, p) + Filter(b, p)
    decreases |b|
  {
    if b == [] {
      assert a + b == a;
    } else {
      var c := b[..|b| - 1];
      var x := b[|b| - 1];
      var tail := if p(x) then [x] else [];
      assert b == c + [x];
      assert a + b == (a + c) + [x];
      calc {
        Filter(a + b, p);
        { FilterSnoc(a + c, x, p); }
        Filter(a + c, p) + tail;
        { FilterConcat(a, c, p); }
        Filter(a, p) + Filter(c, p) + tail;
        { FilterSnoc(c, x, p); }
        Filter(a, p) + Filter(b, p);
      }
    }
  }

  /** The order of the kept rows is the order of the input: the k-th kept row is the
      row at index idx[k] and the indices increase. */
  lemma {:induction false} FilterOrder<T>(s: seq<T>, p: T -> bool) returns (idx: seq<nat>)
    ensures |idx| == |Filter(s, p)|
    ensures forall k :: 0 <= k < |idx| ==> idx[k] < |s| && Filter(s, p)[k] == s[idx[k]]
    ensures forall k, l :: 0 <= k < l < |idx| ==> idx[k] < idx[l]
  {
    if s == [] {
      idx := [];
    } else {
      var t := s[..|s| - 1];
      var x := s[|s| - 1];
      var prev := FilterOrder(t, p);
      var ft, fs := Filter(t, p), Filter(s, p);
      assert fs == ft + (if p(x) then [x] else []);
      idx := if p(x) then prev + [|t|] else prev;
      forall k | 0 <= k < |idx|
        ensures idx[k] < |s| && fs[k] == s[idx[k]]
      {
        if k < |prev| {
          assert fs[k] == ft[k] && idx[k] == prev[k];
          assert s[prev[k]] == t[prev[k]];
        }
      }
      forall k, l | 0 <= k < l < |idx|
        ensures idx[k] < idx[l]
      {
        assert idx[k] == prev[k];
      }
    }
  }

  /** When every row passes, the filter is the identity. */
  lemma {:induction false} FilterAll<T>(s: seq<T>, p: T -> bool)
    requires forall i :: 0 <= i < |s| ==> p(s[i])
    ensures Filter(s, p) == s
  {
    if s != [] {
      FilterAll(s[..|s| - 1], p);
    }
  }

  /** One turn of a loop that appends at most one output per row and stops at the
      first row that fails. */
  function CollectStep<T, A, E>(acc: Result<seq<A>, E>, x: T, f: T -> Result<Option<A>, E>): Result<seq<A>, E>
  {
    match acc
    case Err(e) => Err(e)
    case Ok(out) =>
      match f(x)
      case Err(e) => Err(e)
      case Ok(None) => Ok(out)
      case Ok(Some(a)) => Ok(out + [a])
  }

  /** The whole loop over `s`. */
  function Collect<T, A, E>(s: seq<T>, f: T -> Result<Option<A>, E>): Result<seq<A>, E>
  {
    if s == [] then Ok([]) else CollectStep(Collect(s[..|s| - 1], f), s[|s| - 1], f)
  }

  lemma CollectPrefix<T, A, E>(s: seq<T>, i: int, f: T -> Result<Option<A>, E>)
    requires 0 <= i < |s|
    ensures Collect(s[..i + 1], f) == CollectStep(Collect(s[..i], f), s[i], f)
  {
    assert s[..i + 1][..i] == s[..i];
  }

  /** Once the loop has failed on a prefix, it fails with the same error on the whole input. */
  lemma {:induction false} CollectErrorPersists<T, A, E>(s: seq<T>, i: int, f: T -> Result<Option<A>, E>)
    requires 0 <= i <= |s| && Collect(s[..i], f).Err?
    ensures Collect(s, f) == Collect(s[..i], f)
    decreases |s| - i
  {
    if i == |s| {
      assert s[..i] == s;
    } else {
      CollectPrefix(s, i, f);
      CollectErrorPersists(s, i + 1, f);
    }
  }

  /** The loop succeeds exactly when no row fails. */
  lemma {:induction false} CollectOk<T, A, E>(s: seq<T>, f: T -> Result<Option<A>, E>)
    ensures Collect(s, f).Ok? <==> forall i :: 0 <= i < |s| ==> f(s[i]).Ok?
  {
    if s != [] {
      var init := s[..|s| - 1];
      CollectOk(init, f);
      if Collect(s, f).Ok? {
        forall i | 0 <= i < |s| ensures f(s[i]).Ok? {
          if i < |init| { assert init[i] == s[i]; }
        }
      } else if forall i :: 0 <= i < |s| ==> f(s[i]).Ok? {
        forall i | 0 <= i < |init| ensures f(init[i]).Ok? {
          assert init[i] == s[i];
        }
      }
    }
  }

  /** A successful loop outputs the value of every row that has one, and nothing else. */
  lemma {:induction false} CollectExact<T, A, E>(s: seq<T>, f: T -> Result<Option<A>, E>)
    requires Collect(s, f).Ok?
    ensures forall i :: 0 <= i < |s| && f(s[i]).Ok? && f(s[i]).value.Some? ==>
      f(s[i]).value.value in Collect(s, f).value
    ensures forall a :: a in Collect(s, f).value ==> exists i :: 0 <= i < |s| && f(s[i]) == Ok(Some(a))
  {
    if s != [] {
      var init := s[..|s| - 1];
      CollectExact(init, f);
      var prev := Collect(init, f).value;
      var all := Collect(s, f).value;
      forall i | 0 <= i < |s| && f(s[i]).Ok? && f(s[i]).value.Some?
        ensures f(s[i]).value.value in all
      {
        if i < |init| { assert init[i] == s[i]; }
      }
      forall a | a in all ensures exists i :: 0 <= i < |s| && f(s[i]) == Ok(Some(a)) {
        if a in prev {
          var i :| 0 <= i < |init| && f(init[i]) == Ok(Some(a));
          assert init[i] == s[i];
        } else {
          assert f(s[|s| - 1]) == Ok(Some(a));
        }
      }
    }
  }

  /** The loop distributes over concatenation when the first part succeeds: outputs
      keep the order of their rows. */
  lemma {:induction false} CollectConcat<T, A, E>(a: seq<T>, b: seq<T>, f: T -> Result<Option<A>, E>)
    requires Collect(a, f).Ok? && Collect(b, f).Ok?
    ensures Collect(a + b, f) == Ok(Collect(a, f).value + Collect(b, f).value)
    decreases |b|
  {
    if b == [] {
      assert a + b == a;
      assert Collect(a, f).value + [] == Collect(a, f).value;
      assert Collect(a, f).value + [] == Collect(a, f).value;
    } else {
      var c := b[..|b| - 1];
      var x := b[|b| - 1];
      assert b == c + [x];
      assert (a + b)[..|a + b| - 1] == a + c;
      CollectOk(b, f);
      CollectOk(c, f);
      forall i | 0 <= i < |c| ensures f(c[i]).Ok? { assert c[i] == b[i]; }
      CollectConcat(a, c, f);
      assert (a + b)[|a + b| - 1] == x;
      assert Collect(a + b, f) == CollectStep(Collect(a + c, f), x, f);
      assert Collect(b, f) == CollectStep(Collect(c, f), x, f);
      var p, q := Collect(a, f).value, Collect(c, f).value;
      if f(x).value.Some? {
        assert p + q + [f(x).value.value] == p + (q + [f(x).value.value]);
      }
    }
  }

  /** The pieces `f` gives for each row, joined in row order: a loop of `+=`. */
  function ConcatMap<T, U>(s: seq<T>, f: T -> seq<U>): seq<U>
  {
    if s == [] then [] else ConcatMap(s[..|s| - 1], f) + f(s[|s| - 1])
  }

  lemma ConcatMapPrefix<T, U>(s: seq<T>, i: int, f: T -> seq<U>)
    requires 0 <= i < |s|
    ensures ConcatMap(s[..i + 1], f) == ConcatMap(s[..i], f) + f(s[i])
  {
    assert s[..i + 1][..i] == s[..i];
  }

  /** Joining two lists one after the other joins their pieces one after the other. */
  lemma {:induction false} ConcatMapConcat<T, U>(a: seq<T>, b: seq<T>, f: T -> seq<U>)
    ensures ConcatMap(a + b, f) == ConcatMap(a, f) + ConcatMap(b, f)
    decreases |b|
  {
    if b == [] {
      assert a + b == a;
    } else {
      var c := b[..|b| - 1];
      var x := b[|b| - 1];
      assert (a + b)[..|a + b| - 1] == a + c;
      assert (a + b)[|a + b| - 1] == x;
      ConcatMapConcat(a, c, f);
      assert ConcatMap(a + b, f) == ConcatMap(a, f) + ConcatMap(c, f) + f(x);
    }
  }

  /** Each row contributes its piece at its own place: the pieces of the rows before
      it, then its own, then those of the rows after it. */
  lemma ConcatMapAt<T, U>(s: seq<T>, k: int, f: T -> seq<U>)
    requires 0 <= k < |s|
    ensures ConcatMap(s, f) == ConcatMap(s[..k], f) + f(s[k]) + ConcatMap(s[k + 1..], f)
  {
    assert s == s[..k + 1] + s[k + 1..];
    ConcatMapConcat(s[..k + 1], s[k + 1..], f);
    ConcatMapPrefix(s, k, f);
  }

  /** Regrouping a concatenation; the alert message loop of the rewards window needs it
      to move the header in front of the accumulated lines. */
  lemma AppendAssoc<T>(a: seq<T>, b: seq<T>, c: seq<T>)
    ensures a + (b + c) == (a + b) + c
  {
  }

  /** Applies `f` to every element, in order. */
  function Map<T, U>(s: seq<T>, f: T -> U): (r: seq<U>)
    ensures |r| == |s| && forall i :: 0 <= i < |s| ==> r[i] == f(s[i])
  {
    seq(|s|, i requires 0 <= i < |s| => f(s[i]))
  }

  /** Mapping one more element appends its image. */
  lemma MapPrefix<T, U>(s: seq<T>, i: int, f: T -> U)
    requires 0 <= i < |s|
    ensures Map(s[..i + 1], f) == Map(s[..i], f) + [f(s[i])]
  {
  }
}
