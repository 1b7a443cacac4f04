/** `sus::iter::from_range`: an iterator over the elements of a C++ range,
    here a finite sequence. It keeps a front and a back position; `next`
    yields from the front, `next_back` from the back, and the size hints
    report exactly how many elements lie between them. Once the positions
    meet it yields nothing more. */
module FromRange {
  import opened Wrappers

  /** `sus::iter::SizeHint`: a lower bound and an optional upper bound on
      the number of elements still to come. */
  datatype SizeHint = SizeHint(lower: nat, upper: Option<nat>)

  /** The iterator `from_range(v)`. */
  class RangeIter<T> {
    /** The elements of the range it was built from. */
    const items: seq<T>
    /** Position of the next element `next` yields. */
    var front: nat
    /** One past the position of the next element `next_back` yields. */
    var back: nat

    ghost predicate Valid()
      reads this
    {
      front <= back <= |items|
    }

    /** The elements not yet yielded, in range order. */
    function Remaining(): (r: seq<T>)
      reads this
      requires Valid()
      ensures |r| == back - front
    {
      items[front..back]
    }

    /** `from_range(v)`: every element of v is still to come. */
    constructor(v: seq<T>)
      ensures Valid() && items == v && Remaining() == v
    {
      items := v;
      front := 0;
      back := |v|;
    }

    /** `size_hint`: both bounds are the exact number of elements left. */
    function SizeHintNow(): (h: SizeHint)
      reads this
      requires Valid()
      ensures h == SizeHint(|Remaining()|, Some(|Remaining()|))
    {
      SizeHint(back - front, Some(back - front))
    }

    /** `exact_size_hint`: the number of elements left. */
    function ExactSizeHint(): (n: nat)
      reads this
      requires Valid()
      ensures n == |Remaining()|
    {
      back - front
    }

    /** `next`: the first remaining element, which is then no longer
        remaining; `None` once nothing is left, and then nothing changes. */
    method Next() returns (r: Option<T>)
      requires Valid()
      modifies this
      ensures Valid()
      ensures old(Remaining()) == [] ==> r == None && front == old(front) && back == old(back)
      ensures old(Remaining()) != [] ==>
        r == Some(old(Remaining())[0]) && Remaining() == old(Remaining())[1..]
      ensures r.Some? ==> r.value == items[old(front)]
      ensures back == old(back)
    {
      if front == back {
        r := None;
      } else {
        r := Some(items[front]);
        front := front + 1;
      }
    }

    /** `next_back`: the last remaining element, which is then no longer
        remaining; `None` once nothing is left, and then nothing changes. */
    method NextBack() returns (r: Option<T>)
      requires Valid()
      modifies this
      ensures Valid()
      ensures old(Remaining()) == [] ==> r == None && front == old(front) && back == old(back)
      ensures old(Remaining()) != [] ==>
        r == Some(old(Remaining())[|old(Remaining())| - 1])
        && Remaining() == old(Remaining())[..|old(Remaining())| - 1]
      ensures r.Some? ==> r.value == items[old(back) - 1]
      ensures front == old(front)
    {
      if front == back {
        r := None;
      } else {
        back := back - 1;
        r := Some(items[back]);
      }
    }
  }

  /** The sum of a sequence of integers. */
  function SeqSum(s: seq<int>): int
  {
    if s == [] then 0 else s[0] + SeqSum(s[1..])
  }

  /** `sum`: consumes the iterator, adding up every remaining element. */
  method Sum(it: RangeIter<int>) returns (total: int)
    requires it.Valid()
    modifies it
    ensures it.Valid() && it.Remaining() == []
    ensures total == SeqSum(old(it.Remaining()))
  {
    total := 0;
    var item := it.Next();
    while item.Some?
      invariant it.Valid()
      invariant item.None? ==> it.Remaining() == []
      invariant total + (if item.Some? then item.value else 0) + SeqSum(it.Remaining())
             == SeqSum(old(it.Remaining()))
      decreases |it.Remaining()| + (if item.Some? then 1 else 0)
    {
      total := total + item.value;
      item := it.Next();
    }
  }

  /** Iterating the range adaptor (`.range()`) of an iterator: every
      remaining element, in order. */
  method Collect<T>(it: RangeIter<T>) returns (out: seq<T>)
    requires it.Valid()
    modifies it
    ensures it.Valid() && it.Remaining() == []
    ensures out == old(it.Remaining())
  {
    out := [];
    var item := it.Next();
    while item.Some?
      invariant it.Valid()
      invariant item.None? ==> it.Remaining() == []
      invariant out + (if item.Some? then [item.value] else []) + it.Remaining()
             == old(it.Remaining())
      decreases |it.Remaining()| + (if item.Some? then 1 else 0)
    {
      out := out + [item.value];
      item := it.Next();
    }
  }

  /** The elements of s that satisfy p, in order. */
  function Filter<T>(s: seq<T>, p: T -> bool): seq<T>
  {
    if s == [] then []
    else if p(s[0]) then [s[0]] + Filter(s[1..], p)
    else Filter(s[1..], p)
  }

  /** `std::ranges::views::filter` over the range adaptor: the remaining
      elements that satisfy p, in order. */
  method CollectFiltered<T>(it: RangeIter<T>, p: T -> bool) returns (out: seq<T>)
    requires it.Valid()
    modifies it
    ensures it.Valid() && it.Remaining() == []
    ensures out == Filter(old(it.Remaining()), p)
  {
    out := [];
    ghost var seen: seq<T> := [];
    var item := it.Next();
    while item.Some?
      invariant it.Valid()
      invariant item.None? ==> it.Remaining() == []
      invariant seen + (if item.Some? then [item.value] else []) + it.Remaining()
             == old(it.Remaining())
      invariant out == Filter(seen, p)
      decreases |it.Remaining()| + (if item.Some? then 1 else 0)
    {
      FilterAppend(seen, [item.value], p);
      if p(item.value) {
        out := out + [item.value];
      }
      seen := seen + [item.value];
      item := it.Next();
    }
    assert seen + [] + [] == seen;
  }

  lemma {:induction false} FilterAppend<T>(a: seq<T>, b: seq<T>, p: T -> bool)
    ensures Filter(a + b, p) == Filter(a, p) + Filter(b, p)
  {
    if a == [] {
      assert a + b == b;
    } else {
      assert (a + b)[1..] == a[1..] + b;
      FilterAppend(a[1..], b, p);
    }
  }

  // ------------------------------------------------------------ examples

  /** `next` over {1, 2, 3} yields 1, 2, 3 and then nothing, the size hint
      counting down from 3 to 0 and staying there. */
  method ForwardExample() returns (hints: seq<SizeHint>, items: seq<Option<int>>)
    ensures hints == [SizeHint(3, Some(3)), SizeHint(2, Some(2)), SizeHint(1, Some(1)),
                      SizeHint(0, Some(0)), SizeHint(0, Some(0))]
    ensures items == [Some(1), Some(2), Some(3), None]
  {
    var it := new RangeIter([1, 2, 3]);
    hints := [it.SizeHintNow()];
    var a := it.Next();
    hints := hints + [it.SizeHintNow()];
    var b := it.Next();
    hints := hints + [it.SizeHintNow()];
    var c := it.Next();
    hints := hints + [it.SizeHintNow()];
    var d := it.Next();
    hints := hints + [it.SizeHintNow()];
    items := [a, b, c, d];
  }

  /** Taking from both ends of {1, 2, 3}: `next_back`, `next`, `next_back`
      yield 3, 1, 2, after which `next_back` yields nothing. */
  method BothEndsExample() returns (a: Option<int>, b: Option<int>, c: Option<int>,
                                    d: Option<int>, h: SizeHint)
    ensures a == Some(3) && b == Some(1) && c == Some(2) && d == None
    ensures h == SizeHint(0, Some(0))
  {
    var it := new RangeIter([1, 2, 3]);
    a := it.NextBack();
    b := it.Next();
    c := it.NextBack();
    d := it.NextBack();
    h := it.SizeHintNow();
  }

  /** Summing the iterator over {1, 2, 3} gives 1 + 2 + 3. */
  method SumExample() returns (total: int)
    ensures total == 1 + 2 + 3
  {
    var it := new RangeIter([1, 2, 3]);
    total := Sum(it);
  }

  /** The range adaptor over {1, ..., 6} yields 1 to 6 in order, and the
      filter `i > 3` over it yields 4, 5, 6. */
  method AdaptorExamples() returns (all: seq<int>, filtered: seq<int>)
    ensures all == [1, 2, 3, 4, 5, 6]
    ensures filtered == [4, 5, 6]
  {
    var it := new RangeIter([1, 2, 3, 4, 5, 6]);
    all := Collect(it);
    it := new RangeIter([1, 2, 3, 4, 5, 6]);
    filtered := CollectFiltered(it, (i: int) => i > 3);
  }
}
