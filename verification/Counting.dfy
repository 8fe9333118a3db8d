/** Cardinalities of intervals and of sets of sequence elements. */
module Counting {

  /** The numbers from `from` up, `count` of them. */
  ghost function Span(from: nat, count: nat): (s: set<nat>)
    ensures forall k :: k in s <==> from <= k < from + count
  {
    if count == 0 then {} else Span(from, count - 1) + {from + count - 1}
  }

  lemma {:induction false} SpanSize(from: nat, count: nat)
    ensures |Span(from, count)| == count
  {
    if count > 0 { SpanSize(from, count - 1); }
  }

  lemma {:induction false} SubsetSize<T>(a: set<T>, b: set<T>)
    requires a <= b
    ensures |a| <= |b|
    ensures |a| == |b| ==> a == b
  {
    if a != {} {
      var k :| k in a;
      SubsetSize(a - {k}, b - {k});
    } else if b != {} {
      var k :| k in b;
      assert |b - {k}| < |b|;
    }
  }

  ghost function Elements<T>(s: seq<T>): set<T> {
    set k | k in s
  }

  ghost predicate Distinct<T>(s: seq<T>) {
    forall i, j :: 0 <= i < j < |s| ==> s[i] != s[j]
  }

  /** The same, said from the end; it unfolds one element at a time. */
  ghost predicate Unique<T>(s: seq<T>) {
    s == [] || (s[|s| - 1] !in s[..|s| - 1] && Unique(s[..|s| - 1]))
  }

  lemma UniqueAppend<T>(s: seq<T>, x: T)
    requires Unique(s) && x !in s
    ensures Unique(s + [x])
  {}

  lemma {:induction false} ElementsSize<T>(s: seq<T>)
    ensures |Elements(s)| <= |s|
  {
    if s != [] {
      var front, last := s[..|s| - 1], s[|s| - 1];
      ElementsSize(front);
      assert s == front + [last];
      assert Elements(s) == Elements(front) + {last};
    } else {
      assert Elements(s) == {};
    }
  }
}
