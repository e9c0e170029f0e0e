/** Two concrete states, each the result of a few insertions, in which the trie does not do what its caller expects.
    The contracts of `Trie.Insert` and `Trie.SyncIterator` say for all states when this happens. */
module TrieCounterexamples {
  import opened Common
  import opened Lex
  import opened TrieModel
  import opened TriePath
  import opened TrieOrder
  import opened TrieSearch
  import opened TrieVersions
  import opened TrieInsert
  import opened NodeSteps

  const A: Atom := 97
  const B: Atom := 98
  const C: Atom := 99
  const D: Atom := 100
  const X: Atom := 120

  /** After inserting "abcd" and "abcx". */
  function Forked(v: Value, w: Value): Heap
  {
    map[0 := Node(2, map[A := Entry(Some(1), [B, C], None)]),
        1 := Node(2, map[D := Entry(None, [], Some(v)), X := Entry(None, [], Some(w))])]
  }

  const FORKED_LAYOUT := Layout(map[0 := [], 1 := [A, B, C]], map[1 := Slot(0, A)])

  /** The two insertions: a new entry in the root, and then the comparison with "abcx" leaves its stem before the "d", so
      that the entry is split there and the "x" goes beside the "d". */
  lemma ForkedByInserting(v: Value, w: Value)
    ensures var root' := Node(1, map[A := Entry(None, [B, C, D], Some(v))]); var h := map[0 := root'];
      var p := Position(0, Some(A), Some(2), false, true, 1);
      && Inserted(NewNode, root', A, [B, C, D], v)
      && Walk(h, [], [], 0, [A, B, C, X]) == Walked([A, B, C], [p], [X], Unequals)
      && var h1 := SplitHeap(h, p, 1);
      && Inserted(h1[1], Forked(v, w)[1], X, [], w) && Forked(v, w) == h1[1 := Forked(v, w)[1]]
  {
    var h := map[0 := Node(1, map[A := Entry(None, [B, C, D], Some(v))])];
    var p := Position(0, Some(A), Some(2), false, true, 1);
    assert Walk(h, [], [], 0, [A, B, C, X]) == Walked([A, B, C], [p], [X], Unequals) by {
      MatchLenIs([B, C, D], [B, C, X], 2);
      assert [A, B, C, X][1..] == [B, C, X] && [A, B, C, X][..3] == [A, B, C] && [A, B, C, X][3..] == [X];
      assert [A, B, C, X][0] == A && CompareStep(h, 0, [A, B, C, X]) == Step(Unequals, Some(2), 3);
      assert [] + [A, B, C] == [A, B, C] && [] + [p] == [p];
    }
    assert [B, C, D][..2] == [B, C] && [B, C, D][3..] == [] && [B, C, D][2] == D;
    assert EntryAt(h, p) == Entry(None, [B, C, D], Some(v));
    var h1 := SplitHeap(h, p, 1);
    assert h1[1] == Node(1, map[D := Entry(None, [], Some(v))]);
    assert h1[0] == Node(2, map[A := Entry(Some(1), [B, C], None)]);
  }

  /** Then "abc" is not stored, but `insert` does not get to store it: it ends where a stem ends. */
  lemma EndOfStem(v: Value, w: Value)
    ensures Tree(Forked(v, w), 0, FORKED_LAYOUT)
    ensures Lookup(Forked(v, w), 0, [A, B, C, D]) == Some(v) && Lookup(Forked(v, w), 0, [A, B, C, X]) == Some(w)
    ensures Lookup(Forked(v, w), 0, [A, B, C]).None? && StopsAtStemEnd(Forked(v, w), 0, [A, B, C])
  {
    var h, l := Forked(v, w), FORKED_LAYOUT;
    assert ParentOk(h, l, 1);
    assert EntryOk(h, 0, l, 0, A) && EntryOk(h, 0, l, 1, D) && EntryOk(h, 0, l, 1, X);
    assert !IsEmptyNode(h, 1) by { assert D in h[1].entries; }
    assert [B, C] <= [B, C, D] && [B, C] <= [B, C, X];
    assert Find(h, 1, [D]) == Some(Slot(1, D)) && Find(h, 1, [X]) == Some(Slot(1, X));
    assert [A, B, C, D][3..] == [D] && [A, B, C, X][3..] == [X];
  }

  /** After inserting "a", then "ab", then "ac". */
  function Grown(v: Value): Heap
  {
    map[0 := Node(2, map[A := Entry(Some(1), [], Some(v))]),
        1 := Node(2, map[B := Entry(None, [], Some(v)), C := Entry(None, [], Some(v))])]
  }

  const GROWN_LAYOUT := Layout(map[0 := [], 1 := [A]], map[1 := Slot(0, A)])

  /** The iterator that the insertion of "ab" returned: its upper position still says that there is no child. */
  const AFTER_AB := [Position(0, Some(A), Some(0), false, true, 2), Position(1, Some(B), Some(0), false, true, 1)]

  /** The last two insertions: "ab" goes on past the entry of "a", into a new child, and the iterator keeps the flag that
      it had before; "ac" gets an entry of its own in that child. */
  lemma GrownByInserting(v: Value)
    ensures var root' := Node(1, map[A := Entry(None, [], Some(v))]); var h := map[0 := root'];
      var p := Position(0, Some(A), Some(0), false, true, 1);
      && Inserted(NewNode, root', A, [], v)
      && Walk(h, [], [], 0, [A, B]) == Walked([A], [p], [B], StemEnd)
      && var child := Node(1, map[B := Entry(None, [], Some(v))]); var root2 := ChildSet(root', A, 1);
      && Inserted(NewNode, child, B, [], v) && AFTER_AB == TwoMore([], p.(version := root2.version), 1, B, 0, child.version)
      && Inserted(child, Grown(v)[1], C, [], v) && Grown(v) == map[0 := root2, 1 := Grown(v)[1]]
  {
    assert [A, B][1..] == [B] && [A, B][..1] == [A];
    MatchLenIs([], [B], 0);
    var h := map[0 := Node(1, map[A := Entry(None, [], Some(v))])];
    var p := Position(0, Some(A), Some(0), false, true, 1);
    assert [A, B][0] == A && CompareStep(h, 0, [A, B]) == Step(StemEnd, Some(0), 1);
    assert [] + [A] == [A] && [] + [p] == [p];
    var root2 := ChildSet(h[0], A, 1);
    assert root2 == Grown(v)[0];
    assert TwoMore([], p.(version := 2), 1, B, 0, 1) == AFTER_AB;
  }

  /** Then `sync_iterator` gives the iterator up, although its key is still stored. */
  lemma KeyIsLost(v: Value)
    ensures Tree(Grown(v), 0, GROWN_LAYOUT) && Lookup(Grown(v), 0, [A, B]) == Some(v)
    ensures Trackable(Snapshot(Grown(v), 0, 3), GROWN_LAYOUT, [A, B], AFTER_AB, 2)
    ensures !CanRelocate(Grown(v), AFTER_AB)
  {
    var h, l := Grown(v), GROWN_LAYOUT;
    assert ParentOk(h, l, 1);
    assert EntryOk(h, 0, l, 0, A) && EntryOk(h, 0, l, 1, B) && EntryOk(h, 0, l, 1, C);
    assert !IsEmptyNode(h, 1) by { assert B in h[1].entries; }
    assert [] <= [B] && [A, B][1..] == [B];
    assert Find(h, 1, [B]) == Some(Slot(1, B));
    assert AFTER_AB[..1] == [AFTER_AB[0]];
    assert StaleAt(h, 0, l, [A, B], AFTER_AB, 1);
    assert FirstStale(h, AFTER_AB, 1) == 1;
  }

  const DOT: Atom := 46
  const ONE: Atom := 49
  const TWO: Atom := 50
  const THREE: Atom := 51

  /** The keys in the comment on `next_sibling`: "abc", "abc.1", "abc.2", "abc.222", "abc.333", "abcdef". */
  const LISTED: set<Str> := {
    [A, B, C], [A, B, C, DOT, ONE], [A, B, C, DOT, TWO], [A, B, C, DOT, TWO, TWO, TWO],
    [A, B, C, DOT, THREE, THREE, THREE], [A, B, C, D, 101, 102]}

  /** All of them continue "abc", so that its next sibling is the end, and not "abc.1" as the comment has it. */
  lemma SiblingOfAbc(m: map<Str, Value>)
    requires m.Keys == LISTED
    ensures Above(m, [A, B, C], true) == {} && [A, B, C, DOT, ONE] in Above(m, [A, B, C], false)
  {
    assert [A, B, C, DOT, ONE] in LISTED;
    LessExtension([A, B, C], [A, B, C, DOT, ONE]);
  }
}
