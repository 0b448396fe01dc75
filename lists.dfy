/**
 * The JavaScript array operations the pages use on their in-memory lists:
 * `filter`, `find`, `map` with a per-item replacement, and `Math.max(...ids) + 1`
 * with JavaScript's number semantics for an empty argument list.
 */
module Lists {
  import opened Wrappers

  /** `sub` is `xs` with some items left out, the rest in their original order. */
  ghost predicate IsSubsequence<T>(sub: seq<T>, xs: seq<T>)
    decreases |xs|
  {
    if sub == [] then true
    else if xs == [] then false
    else if sub[0] == xs[0] then IsSubsequence(sub[1..], xs[1..])
    else IsSubsequence(sub, xs[1..])
  }

  /** Every item of a subsequence comes from the original list. */
  lemma {:induction false} SubsequenceItems<T>(sub: seq<T>, xs: seq<T>)
    requires IsSubsequence(sub, xs)
    ensures |sub| <= |xs|
    ensures forall x :: x in sub ==> x in xs
    decreases |xs|
  {
    if sub != [] {
      if sub[0] == xs[0] {
        SubsequenceItems(sub[1..], xs[1..]);
        assert forall x :: x in sub ==> x == sub[0] || x in sub[1..];
      } else {
        SubsequenceItems(sub, xs[1..]);
      }
    }
  }

  /** `xs.filter(p)`. */
  function Filter<T>(xs: seq<T>, p: T -> bool): (r: seq<T>)
    ensures |r| <= |xs|
    ensures forall i :: 0 <= i < |r| ==> p(r[i])
  {
    if xs == [] then [] else (if p(xs[0]) then [xs[0]] else []) + Filter(xs[1..], p)
  }

  /** `filter` keeps exactly the items that pass, in order. */
  lemma {:induction false} FilterKeepsExactlyPassing<T>(xs: seq<T>, p: T -> bool)
    ensures IsSubsequence(Filter(xs, p), xs)
    ensures forall x :: x in Filter(xs, p) <==> x in xs && p(x)
  {
    if xs != [] {
      FilterKeepsExactlyPassing(xs[1..], p);
      assert forall x :: x in xs <==> x == xs[0] || x in xs[1..];
      if p(xs[0]) {
        assert Filter(xs, p) == [xs[0]] + Filter(xs[1..], p);
        assert Filter(xs, p)[1..] == Filter(xs[1..], p);
      } else {
        assert Filter(xs, p) == Filter(xs[1..], p);
        SubsequenceOfTailIsSubsequence(Filter(xs, p), xs);
      }
    }
  }

  /** `filter` distributes over concatenation. */
  lemma {:induction false} FilterAppend<T>(xs: seq<T>, ys: seq<T>, p: T -> bool)
    ensures Filter(xs + ys, p) == Filter(xs, p) + Filter(ys, p)
  {
    if xs == [] {
      assert xs + ys == ys;
    } else {
      assert (xs + ys)[1..] == xs[1..] + ys;
      FilterAppend(xs[1..], ys, p);
    }
  }

  /** Dropping the first item of the larger list keeps a subsequence a subsequence. */
  lemma {:induction false} SubsequenceOfTailIsSubsequence<T>(sub: seq<T>, xs: seq<T>)
    requires xs != [] && IsSubsequence(sub, xs[1..])
    ensures IsSubsequence(sub, xs)
    decreases |xs|, 1
  {
    if sub != [] && sub[0] == xs[0] {
      TailOfSubsequence(sub, xs[1..]);
    }
  }

  /** The tail of a subsequence is a subsequence. */
  lemma {:induction false} TailOfSubsequence<T>(sub: seq<T>, xs: seq<T>)
    requires sub != [] && IsSubsequence(sub, xs)
    ensures IsSubsequence(sub[1..], xs)
    decreases |xs|, 2
  {
    if sub[0] != xs[0] {
      TailOfSubsequence(sub, xs[1..]);
    }
    if sub[1..] != [] {
      SubsequenceOfTailIsSubsequence(sub[1..], xs);
    }
  }

  /** Every list is a subsequence of itself. */
  lemma {:induction false} SubsequenceOfItself<T>(xs: seq<T>)
    ensures IsSubsequence(xs, xs)
  {
    if xs != [] {
      SubsequenceOfItself(xs[1..]);
    }
  }

  /** The index of the first item that passes, or `|xs|` when none does. */
  function FirstIndex<T>(xs: seq<T>, p: T -> bool): (i: nat)
    ensures i <= |xs|
    ensures forall j :: 0 <= j < i ==> !p(xs[j])
    ensures i < |xs| ==> p(xs[i])
  {
    if xs == [] then 0
    else if p(xs[0]) then 0
    else 1 + FirstIndex(xs[1..], p)
  }

  /** `xs.find(p)`: the first item that passes. */
  function Find<T>(xs: seq<T>, p: T -> bool): (r: Option<T>)
    ensures r.None? <==> forall i :: 0 <= i < |xs| ==> !p(xs[i])
    ensures r.Some? ==> exists i :: && 0 <= i < |xs| && xs[i] == r.value && p(xs[i])
                                    && forall j :: 0 <= j < i ==> !p(xs[j])
  {
    var i := FirstIndex(xs, p);
    if i == |xs| then None else Some(xs[i])
  }

  /** `xs.map(x => hit(x) ? f(x) : x)`. */
  function MapWhere<T>(xs: seq<T>, hit: T -> bool, f: T -> T): (r: seq<T>)
    ensures |r| == |xs|
    ensures forall i :: 0 <= i < |xs| && !hit(xs[i]) ==> r[i] == xs[i]
    ensures forall i :: 0 <= i < |xs| && hit(xs[i]) ==> r[i] == f(xs[i])
  {
    seq(|xs|, i requires 0 <= i < |xs| => if hit(xs[i]) then f(xs[i]) else xs[i])
  }

  /** A JavaScript number, as far as `Math.max` and `+ 1` on whole numbers take it. */
  datatype JsNumber = Finite(value: int) | NegativeInfinity

  /** `Math.max(...xs)`: `-Infinity` for no arguments. */
  function JsMax(xs: seq<int>): (r: JsNumber)
    ensures r == NegativeInfinity <==> xs == []
    ensures r.Finite? ==> r.value in xs && forall x :: x in xs ==> x <= r.value
  {
    if xs == [] then NegativeInfinity
    else
      var m := JsMax(xs[1..]);
      if m.NegativeInfinity? || xs[0] >= m.value then
        assert forall x :: x in xs ==> x == xs[0] || x in xs[1..];
        Finite(xs[0])
      else
        assert forall x :: x in xs ==> x == xs[0] || x in xs[1..];
        m
  }

  function PlusOne(n: JsNumber): JsNumber
  {
    match n
    case Finite(v) => Finite(v + 1)
    case NegativeInfinity => NegativeInfinity
  }

  /** `Math.max(...ids) + 1` as the pages write it. */
  function NextIdAsWritten(ids: seq<int>): (r: JsNumber)
    ensures r == NegativeInfinity <==> ids == []
    ensures r.Finite? ==> r.value - 1 in ids && forall x :: x in ids ==> x < r.value
  {
    PlusOne(JsMax(ids))
  }

  /** The id the pages evidently mean: one past the largest, and 1 for an empty list. */
  function NextId(ids: seq<int>): (r: int)
    ensures forall x :: x in ids ==> x < r
    ensures ids == [] ==> r == 1
    ensures ids != [] ==> r - 1 in ids
  {
    match JsMax(ids)
    case Finite(m) => m + 1
    case NegativeInfinity => 1
  }

  /**
   * On an empty list the written expression is `-Infinity`, which is not an
   * id; on any other list it agrees with the intended one.
   */
  lemma NextIdOnEmptyList(ids: seq<int>)
    ensures NextIdAsWritten([]) == NegativeInfinity && NextId([]) == 1
    ensures ids != [] ==> NextIdAsWritten(ids) == Finite(NextId(ids))
  {
  }
}
