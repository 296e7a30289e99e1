/** Growable lists of integers, as the break engines use for break positions. */
module Vectors {

  class Vector {
    var elements: seq<int>

    constructor ()
      ensures elements == []
    {
      elements := [];
    }

    method Push(x: int)
      modifies this
      ensures elements == old(elements) + [x]
    {
      elements := elements + [x];
    }

    /** The last element, or 0 if there is none. */
    function Peek(): int
      reads this
    {
      if elements == [] then 0 else elements[|elements| - 1]
    }

    /** Removes the last element, if there is one. */
    method Pop() returns (x: int)
      modifies this
      ensures x == old(Peek())
      ensures elements == if old(elements) == [] then [] else old(elements)[..|old(elements)| - 1]
    {
      x := Peek();
      if elements != [] {
        elements := elements[..|elements| - 1];
      }
    }
  }

  lemma ConcatLast(a: seq<int>, b: seq<int>)
    requires b != []
    ensures (a + b)[|a + b| - 1] == b[|b| - 1] && (a + b)[..|a + b| - 1] == a + b[..|b| - 1]
  {
  }

  ghost predicate Ascending(s: seq<int>) { forall j, k :: 0 <= j < k < |s| ==> s[j] < s[k] }
}
