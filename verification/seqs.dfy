/** Order-preserving selections from a sequence. */
module Seqs {
  import opened Wrappers

  /** The indices of the elements of `s` that satisfy `p`, in increasing order. */
  function Positions<T>(s: seq<T>, p: T -> bool): (pos: seq<nat>)
    ensures |pos| <= |s|
    ensures forall k :: 0 <= k < |pos| ==> pos[k] < |s| && p(s[pos[k]])
    ensures forall k, l :: 0 <= k < l < |pos| ==> pos[k] < pos[l]
    ensures forall i :: 0 <= i < |s| && p(s[i]) ==> i in pos
  {
    if |s| == 0 then []
    else
      var front := Positions(s[..|s| - 1], p);
      if p(s[|s| - 1]) then front + [|s| - 1] else front
  }

  /** True when every index in `idx` addresses an element of `s`. */
  predicate InRange<T>(s: seq<T>, idx: seq<nat>) {
    forall k :: 0 <= k < |idx| ==> idx[k] < |s|
  }

  /** The elements of `s` at the indices `idx`, in the order of `idx`. */
  function Select<T>(s: seq<T>, idx: seq<nat>): (r: seq<T>)
    requires InRange(s, idx)
  {
    seq(|idx|, k requires 0 <= k < |idx| => s[idx[k]])
  }

  /** The elements of `s` that satisfy `p`, keeping their relative order
      (JavaScript's `Array.prototype.filter`). */
  function Filter<T>(s: seq<T>, p: T -> bool): (r: seq<T>)
    ensures |r| <= |s|
    ensures forall x :: x in r ==> x in s && p(x)
    ensures forall i :: 0 <= i < |s| && p(s[i]) ==> s[i] in r
  {
    if |s| == 0 then []
    else
      var front := Filter(s[..|s| - 1], p);
      if p(s[|s| - 1]) then front + [s[|s| - 1]] else front
  }

  /** `Filter` keeps exactly the elements at `Positions`, in order: the result
      is an order-preserving subsequence that misses no satisfying element. */
  lemma {:induction false} FilterIsSelection<T>(s: seq<T>, p: T -> bool)
    ensures Filter(s, p) == Select(s, Positions(s, p))
  {
    if |s| > 0 {
      var n := |s| - 1;
      var init := s[..n];
      FilterIsSelection(init, p);
      var front := Positions(init, p);
      SelectInPrefix(s, n, front);
      if p(s[n]) {
        SelectSnoc(s, front, n);
      }
    }
  }

  /** Indices into a prefix select the same elements from the whole sequence. */
  lemma SelectInPrefix<T>(s: seq<T>, n: nat, idx: seq<nat>)
    requires n <= |s|
    requires InRange(s[..n], idx)
    ensures InRange(s, idx)
    ensures Select(s[..n], idx) == Select(s, idx)
  {
  }

  /** Selecting one more index appends its element. */
  lemma SelectSnoc<T>(s: seq<T>, idx: seq<nat>, i: nat)
    requires InRange(s, idx) && i < |s|
    ensures InRange(s, idx + [i])
    ensures Select(s, idx + [i]) == Select(s, idx) + [s[i]]
  {
  }

  /** The positions within a prefix of `s` are the first positions within
      `s`, and every later position lies at or past the end of the prefix. */
  lemma {:induction false} PositionsPrefix<T>(s: seq<T>, p: T -> bool, n: nat)
    requires n <= |s|
    ensures var front, pos := Positions(s[..n], p), Positions(s, p);
      |front| <= |pos| && pos[..|front|] == front &&
      forall k :: |front| <= k < |pos| ==> n <= pos[k]
  {
    if n < |s| {
      var init := s[..|s| - 1];
      PositionsPrefix(init, p, n);
      assert init[..n] == s[..n];
      var front, prev, pos := Positions(s[..n], p), Positions(init, p), Positions(s, p);
      assert pos == if p(s[|s| - 1]) then prev + [|s| - 1] else prev;
      assert pos[..|prev|] == prev;
      assert pos[..|front|] == prev[..|front|];
    } else {
      assert s[..n] == s;
    }
  }

  /** Exactly `k` satisfying elements come before the `k`-th satisfying one. */
  lemma CountBefore<T>(s: seq<T>, p: T -> bool, k: nat)
    requires k < |Positions(s, p)|
    ensures |Filter(s[..Positions(s, p)[k]], p)| == k
  {
    var pos := Positions(s, p);
    var i := pos[k];
    PositionsPrefix(s, p, i);
    var front := Positions(s[..i], p);
    forall j | 0 <= j < |front| ensures pos[j] < i {
      assert pos[j] == pos[..|front|][j] == front[j];
    }
    assert |front| < |pos| ==> i <= pos[|front|];
    assert k == |front|;
    FilterIsSelection(s[..i], p);
  }

  /** Predicates that agree on every element keep the same elements. */
  lemma {:induction false} FilterAgree<T>(s: seq<T>, p: T -> bool, q: T -> bool)
    requires forall k :: 0 <= k < |s| ==> p(s[k]) == q(s[k])
    ensures Filter(s, p) == Filter(s, q)
  {
    if |s| > 0 {
      FilterAgree(s[..|s| - 1], p, q);
    }
  }

  /** A predicate that holds everywhere keeps everything. */
  lemma {:induction false} FilterAll<T>(s: seq<T>, p: T -> bool)
    requires forall k :: 0 <= k < |s| ==> p(s[k])
    ensures Filter(s, p) == s
  {
    if |s| > 0 {
      FilterAll(s[..|s| - 1], p);
      assert s[..|s| - 1] + [s[|s| - 1]] == s;
    }
  }

  /** `s.map(f).filter(x => x !== null)`: the values `f` yields, in order,
      skipping the elements it rejects. */
  function FilterMap<T, U>(s: seq<T>, f: T -> Option<U>): (r: seq<U>)
    ensures |r| <= |s|
  {
    if |s| == 0 then []
    else
      var front := FilterMap(s[..|s| - 1], f);
      match f(s[|s| - 1])
      case Some(y) => front + [y]
      case None => front
  }

  /** `FilterMap` yields the images of exactly the elements at the positions
      `p` marks, where `p` marks the elements `f` accepts. */
  lemma {:induction false} FilterMapSelects<T, U>(s: seq<T>, f: T -> Option<U>, p: T -> bool)
    requires forall x :: p(x) == f(x).Some?
    ensures var pos := Positions(s, p);
      FilterMap(s, f) == seq(|pos|, k requires 0 <= k < |pos| => f(s[pos[k]]).value)
  {
    var pos := Positions(s, p);
    if |s| > 0 {
      var init := s[..|s| - 1];
      FilterMapSelects(init, f, p);
      var front := Positions(init, p);
      var want := seq(|pos|, k requires 0 <= k < |pos| => f(s[pos[k]]).value);
      var prev := seq(|front|, k requires 0 <= k < |front| => f(init[front[k]]).value);
      if p(s[|s| - 1]) {
        assert want == prev + [f(s[|s| - 1]).value];
      } else {
        assert want == prev;
      }
    }
  }

  /** When `f` accepts every element, `FilterMap` is a plain map. */
  lemma {:induction false} FilterMapTotal<T, U>(s: seq<T>, f: T -> Option<U>)
    requires forall k :: 0 <= k < |s| ==> f(s[k]).Some?
    ensures FilterMap(s, f) == seq(|s|, k requires 0 <= k < |s| => f(s[k]).value)
  {
    if |s| > 0 {
      FilterMapTotal(s[..|s| - 1], f);
    }
  }
}
