/** The join of two sorted sequences: the left elements whose key occurs on the right. */
module OrderedJoins {
  import opened Common

  /** The elements of `left`, in order and with repetitions, that occur in `right`. */
  ghost function Joined(left: seq<int>, right: seq<int>): seq<int>
  {
    if left == [] then [] else (if left[0] in right then [left[0]] else []) + Joined(left[1..], right)
  }

  /** Elements below everything on the left do not matter on the right. */
  lemma {:induction false} RightSkips(left: seq<int>, right: seq<int>, key: int)
    requires Sorted(right) && forall x | x in left :: key <= x
    ensures Joined(left, LowerBound(right, key)) == Joined(left, right)
  {
    if left != [] {
      assert left[0] in left && forall x | x in left[1..] :: x in left;
      LowerBoundKeeps(right, key, left[0]);
      RightSkips(left[1..], right, key);
    }
  }

  /** Elements of the left below everything on the right are not joined. */
  lemma {:induction false} LeftSkips(left: seq<int>, right: seq<int>, key: int)
    requires Sorted(left) && forall x | x in right :: key <= x
    ensures Joined(LowerBound(left, key), right) == Joined(left, right)
  {
    if left != [] && left[0] < key {
      LeftSkips(left[1..], right, key);
    }
  }

  lemma {:induction false} NothingToJoin(left: seq<int>)
    ensures Joined(left, []) == []
  {
    if left != [] {
      NothingToJoin(left[1..]);
    }
  }

  lemma FirstIsLeast(s: seq<int>)
    requires Sorted(s) && s != []
    ensures (forall x | x in s :: s[0] <= x) && Sorted(s[1..])
  {
  }

  class OrderedJoin {
    const leftSource: seq<int>
    const rightSource: seq<int>
    /** Whether the sequences offer `lower_bound`. */
    const skipping: bool
    /** What is left of both sides, the current elements first. */
    var left: seq<int>
    var right: seq<int>

    constructor (leftSource: seq<int>, rightSource: seq<int>, skipping: bool)
      requires Sorted(leftSource) && Sorted(rightSource)
      ensures this.leftSource == leftSource && this.rightSource == rightSource
    {
      this.leftSource, this.rightSource, this.skipping := leftSource, rightSource, skipping;
      left, right := [], [];
    }

    ghost predicate Valid()
      reads this
    {
      Sorted(left) && Sorted(right) && (InRange() ==> left[0] == right[0])
    }

    predicate InRange()
      reads this
    {
      left != [] && right != []
    }

    ghost function Remaining(): seq<int>
      reads this
    {
      Joined(left, right)
    }

    function Current(): (x: int)
      requires Valid() && InRange()
      reads this
      ensures Remaining() != [] && x == Remaining()[0]
    {
      left[0]
    }

    /** `opt_next`: at least one element further, and on to the first that is not below `key`; with `lower_bound`, at
        once. */
    method OptNext(src: seq<int>, key: int) returns (r: seq<int>)
      requires src != [] && src[0] < key
      ensures r == LowerBound(src, key)
    {
      if skipping && src[0] < key {
        return LowerBound(src, key);
      }
      r := src[1..];
      while r != [] && r[0] < key
        invariant LowerBound(r, key) == LowerBound(src, key)
        decreases |r|
      {
        r := r[1..];
      }
    }

    /** `seek`: to the next left element that is on the right as well. */
    method Seek()
      requires Sorted(left) && Sorted(right)
      modifies this`left, this`right
      ensures Valid() && Remaining() == old(Remaining()) && (InRange() <==> Remaining() != [])
    {
      hide Joined;
      while left != [] && right != []
        invariant Sorted(left) && Sorted(right) && Remaining() == old(Remaining())
        decreases |left| + |right|
      {
        FirstIsLeast(left);
        FirstIsLeast(right);
        if left[0] < right[0] {
          LowerBoundKeeps(left, right[0], right[0]);
          LeftSkips(left, right, right[0]);
          left := OptNext(left, right[0]);
        } else if left[0] == right[0] {
          JoinedFirst(left, right);
          return;
        } else {
          LowerBoundKeeps(right, left[0], left[0]);
          RightSkips(left, right, left[0]);
          right := OptNext(right, left[0]);
        }
      }
      JoinedFirst(left, right);
      NothingToJoin(left);
    }

    /** `start`: from then on the sequence yields the join. */
    method Start()
      requires Sorted(leftSource) && Sorted(rightSource)
      modifies this`left, this`right
      ensures Valid() && Remaining() == Joined(leftSource, rightSource) && (InRange() <==> Remaining() != [])
    {
      left, right := leftSource, [];
      if left != [] {
        right := rightSource;
        Seek();
      }
    }

    /** `next`. */
    method Next()
      requires Valid() && InRange()
      modifies this`left, this`right
      ensures Valid() && Remaining() == old(Remaining()[1..]) && (InRange() <==> Remaining() != [])
    {
      FirstIsLeast(left);
      left := left[1..];
      Seek();
    }
  }

  lemma JoinedFirst(left: seq<int>, right: seq<int>)
    ensures left == [] ==> Joined(left, right) == []
    ensures left != [] && left[0] in right ==> Joined(left, right) == [left[0]] + Joined(left[1..], right)
  {
  }

  /** A left element is joined once for each time it occurs on the left, if it occurs on the right at all. */
  lemma {:induction false} JoinedCounts(left: seq<int>, right: seq<int>, x: int)
    ensures multiset(Joined(left, right))[x] == if x in right then multiset(left)[x] else 0
  {
    if left != [] {
      assert left == [left[0]] + left[1..];
      JoinedCounts(left[1..], right, x);
    }
  }
}
