/** The sorted merge of several sorted sequences, by a heap of indices whose last entry is set aside. */
module OrderingFlatMappings {
  import opened Common

  /** A child sequence as the applicator returns it; `ordered` is what `is_sequence_ordered` says. */
  datatype Child = Child(items: seq<int>, ordered: bool)

  ghost predicate Honest(children: seq<Child>)
  {
    forall i | 0 <= i < |children| :: children[i].ordered ==> Sorted(children[i].items)
  }

  // ----- binary heaps of keys, least first -----

  function Parent(i: nat): (p: nat)
    requires i > 0
    ensures p < i
  {
    (i - 1) / 2
  }

  /** The first `n` keys form a heap. */
  ghost predicate IsHeap(keys: seq<int>, n: nat)
  {
    n <= |keys| && forall i {:trigger Parent(i)} | 0 < i < n :: keys[Parent(i)] <= keys[i]
  }

  /** A heap but for the key at `at`, which may be less than those above it. */
  ghost predicate Rising(keys: seq<int>, n: nat, at: nat)
  {
    && at < n <= |keys|
    && (forall i {:trigger Parent(i)} | 0 < i < n && i != at :: keys[Parent(i)] <= keys[i])
    && (forall i {:trigger Parent(i)} | 0 < i < n && at > 0 && Parent(i) == at :: keys[Parent(at)] <= keys[i])
  }

  /** A heap but for the key at `at`, which may be greater than those below it. */
  ghost predicate Sinking(keys: seq<int>, n: nat, at: nat)
  {
    && at <= n <= |keys|
    && (forall i {:trigger Parent(i)} | 0 < i < n && Parent(i) != at :: keys[Parent(i)] <= keys[i])
    && (forall i {:trigger Parent(i)} | 0 < i < n && at > 0 && Parent(i) == at :: keys[Parent(at)] <= keys[i])
  }

  lemma {:induction false} RootIsLeast(keys: seq<int>, n: nat, i: nat)
    requires IsHeap(keys, n) && i < n
    ensures keys[0] <= keys[i]
    decreases i
  {
    if i > 0 {
      RootIsLeast(keys, n, Parent(i));
    }
  }

  function Swap<T>(s: seq<T>, i: nat, j: nat): (r: seq<T>)
    requires i < |s| && j < |s|
    ensures |r| == |s| && multiset(r) == multiset(s)
  {
    s[i := s[j]][j := s[i]]
  }

  /** The last key is the least. */
  ghost predicate LastLeast(keys: seq<int>)
  {
    keys != [] ==> forall k | 0 <= k < |keys| :: keys[|keys| - 1] <= keys[k]
  }

  lemma SinkStarts(keys: seq<int>)
    requires keys != [] && IsHeap(keys, |keys|)
    ensures var m := |keys| - 1; Sinking(Swap(keys, 0, m), m, 0) && LastLeast(Swap(keys, 0, m))
  {
    forall k | 0 <= k < |keys|
      ensures keys[0] <= keys[k]
    {
      RootIsLeast(keys, |keys|, k);
    }
  }

  lemma LastStays(keys: seq<int>, i: nat, j: nat)
    requires LastLeast(keys) && i < |keys| - 1 && j < |keys| - 1
    ensures LastLeast(Swap(keys, i, j))
  {
  }

  /** Where the key has sunk to its place, all is a heap. */
  lemma SinkEnds(keys: seq<int>, n: nat, at: nat)
    requires Sinking(keys, n, at)
    requires forall i {:trigger Parent(i)} | 0 < i < n && Parent(i) == at :: keys[at] <= keys[i]
    ensures IsHeap(keys, n)
  {
  }

  lemma RiseStep(keys: seq<int>, n: nat, at: nat)
    requires Rising(keys, n, at) && at > 0 && keys[at] < keys[Parent(at)]
    ensures Rising(Swap(keys, at, Parent(at)), n, Parent(at))
  {
    var p := Parent(at);
    var keys' := Swap(keys, at, p);
    assert p > 0 ==> keys[Parent(p)] <= keys[p];
    forall i | 0 < i < n && i != p
      ensures keys'[Parent(i)] <= keys'[i]
    {
    }
    forall i | 0 < i < n && p > 0 && Parent(i) == p
      ensures keys'[Parent(p)] <= keys'[i]
    {
    }
  }

  lemma SinkStep(keys: seq<int>, n: nat, at: nat, c: nat)
    requires Sinking(keys, n, at) && 0 < c < n && Parent(c) == at && keys[c] < keys[at]
    requires forall i {:trigger Parent(i)} | 0 < i < n && Parent(i) == at :: keys[c] <= keys[i]
    ensures Sinking(Swap(keys, at, c), n, c)
  {
    var keys' := Swap(keys, at, c);
    assert at > 0 ==> keys[Parent(at)] <= keys[c];
    forall i | 0 < i < n && Parent(i) != c
      ensures keys'[Parent(i)] <= keys'[i]
    {
    }
    forall i | 0 < i < n && Parent(i) == c
      ensures keys'[Parent(c)] <= keys'[i]
    {
    }
  }

  // ----- what is in the sequences -----

  ghost function Total(seqs: seq<seq<int>>): multiset<int>
  {
    if seqs == [] then multiset{} else multiset(seqs[0]) + Total(seqs[1..])
  }

  lemma {:induction false} TotalAppend(seqs: seq<seq<int>>, s: seq<int>)
    ensures Total(seqs + [s]) == Total(seqs) + multiset(s)
  {
    if seqs == [] {
      assert seqs + [s] == [s];
    } else {
      assert (seqs + [s])[1..] == seqs[1..] + [s];
      TotalAppend(seqs[1..], s);
    }
  }

  lemma {:induction false} TotalAdvance(seqs: seq<seq<int>>, i: nat)
    requires i < |seqs| && seqs[i] != []
    ensures Total(seqs) == Total(seqs[i := seqs[i][1..]]) + multiset{seqs[i][0]}
  {
    var next := seqs[i := seqs[i][1..]];
    if i == 0 {
      assert seqs[0] == [seqs[0][0]] + seqs[0][1..];
      assert next[1..] == seqs[1..];
    } else {
      assert next[1..] == seqs[1..][i - 1 := seqs[1..][i - 1][1..]];
      TotalAdvance(seqs[1..], i - 1);
    }
  }

  lemma {:induction false} TotalMember(seqs: seq<seq<int>>, x: int) returns (i: nat)
    requires x in Total(seqs)
    ensures i < |seqs| && x in seqs[i]
  {
    if x in seqs[0] {
      i := 0;
    } else {
      i := TotalMember(seqs[1..], x);
      i := i + 1;
    }
  }

  function KeyOf(seqs: seq<seq<int>>, i: nat): int
  {
    if i < |seqs| && seqs[i] != [] then seqs[i][0] else 0
  }

  /** The current elements of the indexed sequences, in index order. */
  function KeysOf(seqs: seq<seq<int>>, reorder: seq<nat>): (keys: seq<int>)
    ensures |keys| == |reorder|
  {
    seq(|reorder|, k requires 0 <= k < |reorder| => KeyOf(seqs, reorder[k]))
  }

  lemma KeysSwap(seqs: seq<seq<int>>, reorder: seq<nat>, i: nat, j: nat)
    requires i < |reorder| && j < |reorder|
    ensures KeysOf(seqs, Swap(reorder, i, j)) == Swap(KeysOf(seqs, reorder), i, j)
  {
  }

  lemma CountedTwice<T>(s: seq<T>, i: nat, j: nat)
    requires i < j < |s| && s[i] == s[j]
    ensures multiset(s)[s[i]] >= 2
  {
    assert s == s[..j] + s[j..];
    assert s[i] in s[..j] && s[j] in s[j..];
    assert multiset(s[..j])[s[i]] > 0 && multiset(s[j..])[s[i]] > 0;
  }

  /** Each sequence that is not used up has one entry in the index, and the others have none. */
  ghost predicate Indexed(seqs: seq<seq<int>>, reorder: seq<nat>)
  {
    && (forall i | 0 <= i < |seqs| :: Sorted(seqs[i]))
    && (forall i: nat {:trigger multiset(reorder)[i]} ::
          multiset(reorder)[i] == if i < |seqs| && seqs[i] != [] then 1 else 0)
  }

  lemma IndexedEntry(seqs: seq<seq<int>>, reorder: seq<nat>, k: nat)
    requires Indexed(seqs, reorder) && k < |reorder|
    ensures reorder[k] < |seqs| && seqs[reorder[k]] != [] && Sorted(seqs[reorder[k]])
  {
    assert reorder[k] in multiset(reorder);
  }

  lemma IndexedOnce(seqs: seq<seq<int>>, reorder: seq<nat>, k: nat, j: nat)
    requires Indexed(seqs, reorder) && k < |reorder| && j < |reorder| && k != j
    ensures reorder[k] != reorder[j]
  {
    if reorder[k] == reorder[j] {
      CountedTwice(reorder, if k < j then k else j, if k < j then j else k);
    }
  }

  /** The current element of an indexed sequence with the least key is the least of all. */
  lemma LeastOfAll(seqs: seq<seq<int>>, reorder: seq<nat>, x: int)
    requires Indexed(seqs, reorder) && reorder != [] && x in Total(seqs)
    requires LastLeast(KeysOf(seqs, reorder))
    ensures KeyOf(seqs, reorder[|reorder| - 1]) <= x
  {
    var i := TotalMember(seqs, x);
    assert multiset(reorder)[i] == 1 && i in multiset(reorder);
    var k :| 0 <= k < |reorder| && reorder[k] == i;
    assert KeysOf(seqs, reorder)[k] == seqs[i][0] <= x;
  }

  class OrderingFlatMapping {
    const children: seq<Child>
    /** What is left of each child that was not empty. */
    var seqs: seq<seq<int>>
    var reorder: seq<nat>

    constructor (children: seq<Child>)
      ensures this.children == children
    {
      this.children, seqs, reorder := children, [], [];
    }

    ghost function Keys(): seq<int>
      reads this
    {
      KeysOf(seqs, reorder)
    }

    /** Between two calls all entries but the last form a heap, and the last is of a least element. */
    ghost predicate Valid()
      reads this
    {
      Indexed(seqs, reorder) && (reorder != [] ==> IsHeap(Keys(), |reorder| - 1)) && LastLeast(Keys())
    }

    /** What is still to be yielded. */
    ghost function Left(): multiset<int>
      reads this
    {
      Total(seqs)
    }

    predicate InRange()
      reads this
    {
      reorder != []
    }

    /** `std::push_heap`: the last entry rises to its place. */
    method PushHeap()
      requires reorder != [] && IsHeap(Keys(), |reorder| - 1)
      modifies this`reorder
      ensures multiset(reorder) == multiset(old(reorder)) && |reorder| == |old(reorder)| && IsHeap(Keys(), |reorder|)
    {
      var at: nat := |reorder| - 1;
      while at > 0 && KeyOf(seqs, reorder[at]) < KeyOf(seqs, reorder[Parent(at)])
        invariant multiset(reorder) == multiset(old(reorder)) && |reorder| == |old(reorder)|
        invariant Rising(Keys(), |reorder|, at)
        decreases at
      {
        RiseStep(Keys(), |reorder|, at);
        KeysSwap(seqs, reorder, at, Parent(at));
        reorder := Swap(reorder, at, Parent(at));
        at := Parent(at);
      }
    }

    /** `std::pop_heap`: the first entry changes places with the last, which sinks to its place. */
    method PopHeap()
      requires reorder != [] && IsHeap(Keys(), |reorder|)
      modifies this`reorder
      ensures multiset(reorder) == multiset(old(reorder)) && |reorder| == |old(reorder)|
      ensures IsHeap(Keys(), |reorder| - 1) && LastLeast(Keys())
    {
      hide IsHeap, Sinking, LastLeast, Swap, Parent;
      var m: nat := |reorder| - 1;
      SinkStarts(Keys());
      KeysSwap(seqs, reorder, 0, m);
      reorder := Swap(reorder, 0, m);
      var at: nat := 0;
      while 2 * at + 1 < m
        invariant multiset(reorder) == multiset(old(reorder)) && |reorder| == m + 1 && at <= m
        invariant Sinking(Keys(), m, at) && LastLeast(Keys())
        decreases m - at
      {
        var c := 2 * at + 1;
        if c + 1 < m && KeyOf(seqs, reorder[c + 1]) < KeyOf(seqs, reorder[c]) {
          c := c + 1;
        }
        ChildrenOf(at);
        if KeyOf(seqs, reorder[at]) <= KeyOf(seqs, reorder[c]) {
          SinkEnds(Keys(), m, at);
          return;
        }
        SinkStep(Keys(), m, at, c);
        LastStays(Keys(), at, c);
        KeysSwap(seqs, reorder, at, c);
        reorder := Swap(reorder, at, c);
        at := c;
      }
      ChildrenOf(at);
      SinkEnds(Keys(), m, at);
    }

    /** `grant_smallest`. */
    method GrantSmallest()
      requires Indexed(seqs, reorder) && (reorder != [] ==> IsHeap(Keys(), |reorder|))
      modifies this`reorder
      ensures Valid() && (reorder == [] <==> old(reorder) == [])
    {
      if reorder != [] {
        PopHeap();
      }
    }

    /** `current`: a least of all that is left. */
    function Current(): (x: int)
      requires Valid() && InRange()
      reads this
      ensures x in Left() && forall y | y in Left() :: x <= y
    {
      CurrentIsLeast();
      seqs[reorder[|reorder| - 1]][0]
    }

    lemma CurrentIsLeast()
      requires Valid() && InRange()
      ensures var i := reorder[|reorder| - 1];
        && i < |seqs| && seqs[i] != [] && seqs[i][0] in Left() && forall y | y in Left() :: seqs[i][0] <= y
    {
      var i := reorder[|reorder| - 1];
      IndexedEntry(seqs, reorder, |reorder| - 1);
      TotalAdvance(seqs, i);
      forall y | y in Left()
        ensures seqs[i][0] <= y
      {
        LeastOfAll(seqs, reorder, y);
      }
    }

    /** `start`; false is the exception for a child that is not ordered. */
    method Start() returns (ok: bool)
      requires Honest(children)
      modifies this
      ensures ok <==> forall c | c in children :: c.ordered
      ensures ok ==> Valid() && Left() == AllItems(children)
    {
      hide Indexed, KeysOf, Total, AllItems, Sorted;
      seqs, reorder := [], [];
      var n := 0;
      NothingIndexed();
      assert children[..0] == [];
      while n < |children|
        invariant 0 <= n <= |children| && forall c | c in children[..n] :: c.ordered
        invariant Indexed(seqs, reorder) && IsHeap(Keys(), |reorder|) && Left() == AllItems(children[..n])
        decreases |children| - n
      {
        var c := children[n];
        assert children[..n + 1] == children[..n] + [c];
        if !c.ordered {
          assert c in children;
          return false;
        }
        AllItemsAppend(children[..n], c);
        if c.items != [] {
          TotalAppend(seqs, c.items);
          AddedToIndex(seqs, reorder, c.items);
          HeapBelow(Keys(), KeysOf(seqs + [c.items], reorder + [|seqs|]));
          seqs, reorder := seqs + [c.items], reorder + [|seqs|];
          ghost var added := reorder;
          PushHeap();
          SameIndexed(seqs, added, reorder);
        } else {
          NoItems(c.items);
        }
        n := n + 1;
      }
      assert children[..n] == children;
      GrantSmallest();
      return true;
    }

    /** `next`: takes exactly the current element away. */
    method Next()
      requires Valid() && InRange()
      modifies this
      ensures Valid() && old(Left()) == Left() + multiset{old(Current())}
    {
      var m: nat := |reorder| - 1;
      var i := reorder[m];
      CurrentIsLeast();
      TotalAdvance(seqs, i);
      hide Indexed, KeysOf, Total, LastLeast;
      Advanced(seqs, reorder);
      ghost var keys := Keys();
      seqs := seqs[i := seqs[i][1..]];
      HeapKept(keys, Keys());
      if seqs[i] != [] {
        ghost var was := reorder;
        PushHeap();
        SameIndexed(seqs, was, reorder);
      } else {
        reorder := reorder[..m];
      }
      GrantSmallest();
    }

    /** Reading the whole sequence: the sorted merge of all children. */
    method All() returns (ok: bool, out: seq<int>)
      requires Honest(children)
      modifies this
      ensures ok <==> forall c | c in children :: c.ordered
      ensures ok ==> Sorted(out) && multiset(out) == AllItems(children)
    {
      out := [];
      ok := Start();
      if !ok {
        return;
      }
      while InRange()
        invariant Valid() && Sorted(out) && multiset(out) + Left() == AllItems(children)
        invariant forall x, y | x in out && y in Left() :: x <= y
        decreases |Left()|
      {
        ghost var before := Left();
        var x := Current();
        Next();
        assert forall y | y in Left() :: y in before;
        SortedWith(out, x);
        out := out + [x];
      }
      NothingLeft(seqs, reorder);
    }
  }

  lemma SortedWith(s: seq<int>, x: int)
    requires Sorted(s) && forall y | y in s :: y <= x
    ensures Sorted(s + [x]) && multiset(s + [x]) == multiset(s) + multiset{x}
  {
    assert forall i | 0 <= i < |s| :: s[i] in s;
  }

  ghost function AllItems(children: seq<Child>): multiset<int>
  {
    if children == [] then multiset{} else multiset(children[0].items) + AllItems(children[1..])
  }

  lemma {:induction false} AllItemsAppend(children: seq<Child>, c: Child)
    ensures AllItems(children + [c]) == AllItems(children) + multiset(c.items)
  {
    if children == [] {
      assert children + [c] == [c];
    } else {
      assert (children + [c])[1..] == children[1..] + [c];
      AllItemsAppend(children[1..], c);
    }
  }

  lemma ChildrenOf(at: nat)
    ensures forall i {:trigger Parent(i)} | i > 0 :: Parent(i) == at <==> i == 2 * at + 1 || i == 2 * at + 2
  {
  }

  lemma AddedToIndex(seqs: seq<seq<int>>, reorder: seq<nat>, s: seq<int>)
    requires Indexed(seqs, reorder) && s != [] && Sorted(s)
    ensures Indexed(seqs + [s], reorder + [|seqs|])
    ensures KeysOf(seqs + [s], reorder + [|seqs|])[..|reorder|] == KeysOf(seqs, reorder)
  {
    forall k | 0 <= k < |reorder|
      ensures KeyOf(seqs + [s], reorder[k]) == KeyOf(seqs, reorder[k])
    {
      IndexedEntry(seqs, reorder, k);
    }
  }

  lemma NothingIndexed()
    ensures Indexed([], []) && KeysOf([], []) == [] && Total([]) == multiset{} && AllItems([]) == multiset{}
  {
  }

  lemma NoItems(s: seq<int>)
    ensures s == [] ==> multiset(s) == multiset{}
  {
  }

  lemma SameIndexed(seqs: seq<seq<int>>, reorder: seq<nat>, other: seq<nat>)
    requires Indexed(seqs, reorder) && multiset(other) == multiset(reorder)
    ensures Indexed(seqs, other)
  {
  }

  /** A heap and one more key. */
  lemma HeapBelow(keys: seq<int>, longer: seq<int>)
    requires IsHeap(keys, |keys|) && |longer| == |keys| + 1 && longer[..|keys|] == keys
    ensures IsHeap(longer, |longer| - 1)
  {
    forall i | 0 < i < |keys|
      ensures longer[Parent(i)] <= longer[i]
    {
      assert longer[..|keys|][i] == longer[i] && longer[..|keys|][Parent(i)] == longer[Parent(i)];
    }
  }

  /** A heap whose last key is set aside. */
  lemma HeapKept(keys: seq<int>, keys': seq<int>)
    requires keys != [] && |keys'| == |keys| && keys'[..|keys| - 1] == keys[..|keys| - 1] && IsHeap(keys, |keys| - 1)
    ensures IsHeap(keys', |keys| - 1) && IsHeap(keys'[..|keys| - 1], |keys| - 1)
  {
    var m := |keys| - 1;
    forall i | 0 < i < m
      ensures keys'[Parent(i)] <= keys'[i]
    {
      assert keys'[..m][i] == keys[..m][i] && keys'[..m][Parent(i)] == keys[..m][Parent(i)];
    }
  }

  /** Advancing the sequence of the last entry touches no other key. */
  lemma Advanced(seqs: seq<seq<int>>, reorder: seq<nat>)
    requires Indexed(seqs, reorder) && reorder != []
    ensures var m := |reorder| - 1; var i := reorder[m];
      i < |seqs| && seqs[i] != []
    ensures var m := |reorder| - 1; var i := reorder[m]; var seqs' := seqs[i := seqs[i][1..]];
      && Indexed(seqs', if seqs'[i] == [] then reorder[..m] else reorder)
      && KeysOf(seqs', reorder)[..m] == KeysOf(seqs, reorder)[..m] == KeysOf(seqs', reorder[..m])
  {
    var m := |reorder| - 1;
    var i := reorder[m];
    IndexedEntry(seqs, reorder, m);
    var seqs' := seqs[i := seqs[i][1..]];
    forall k | 0 <= k < m
      ensures KeyOf(seqs', reorder[k]) == KeyOf(seqs, reorder[k])
    {
      IndexedOnce(seqs, reorder, k, m);
    }
    assert reorder == reorder[..m] + [i];
    var front := reorder[..m];
    assert multiset(reorder) == multiset(front + [i]) == multiset(front) + multiset([i]);
    assert multiset(reorder)[i] == 1;
    var reorder': seq<nat> := if seqs'[i] == [] then reorder[..m] else reorder;
    forall j: nat
      ensures multiset(reorder')[j] == if j < |seqs'| && seqs'[j] != [] then 1 else 0
    {
      assert multiset(reorder)[j] == if j < |seqs| && seqs[j] != [] then 1 else 0;
    }
  }

  lemma CountOf(seqs: seq<seq<int>>, reorder: seq<nat>, i: nat)
    requires Indexed(seqs, reorder) && i < |seqs| && seqs[i] != []
    ensures i in multiset(reorder)
  {
    assert multiset(reorder)[i] == 1;
  }

  lemma NothingLeft(seqs: seq<seq<int>>, reorder: seq<nat>)
    requires Indexed(seqs, reorder) && reorder == []
    ensures Total(seqs) == multiset{}
  {
    if x :| x in Total(seqs) {
      var i := TotalMember(seqs, x);
      CountOf(seqs, reorder, i);
      assert false;
    }
  }
}
