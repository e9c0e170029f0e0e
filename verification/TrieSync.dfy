/** Which iterators `sync_iterator` can bring back, whatever happens to the trie: those with sound child flags. */
module TrieSync {
  import opened Common
  import opened Lex
  import opened TrieModel
  import opened TriePath
  import opened TrieMoves
  import opened TrieChange
  import opened TrieVersions

  /** `sync_iterator` succeeds: the key is stored, and the search for it can start. */
  ghost predicate Findable(s: Snapshot, l: Layout, prefix: Str, stack: seq<Position>, version: nat)
  {
    prefix in Contents(s.nodes, s.root, l) && (version == s.version || CanRelocate(s.nodes, stack))
  }

  /** With sound flags the search can start wherever the version check stops. */
  lemma SoundRelocates(h: Heap, stack: seq<Position>)
    requires FlagsSound(stack)
    ensures CanRelocate(h, stack)
  {
    var j := FirstStale(h, stack, 0);
    if 0 < j < |stack| {
      assert ChildUp(stack[..|stack| - 1], j - 1);
    }
  }

  /** An iterator with sound flags is brought back, after any run of changes, exactly if its key is still stored. */
  lemma SoundIsFindable(run: seq<Snapshot>, layouts: seq<Layout>, prefix: Str, stack: seq<Position>, version: nat)
    requires |run| == |layouts| > 0
    requires forall i | 0 <= i < |run| :: Shape(run[i].nodes, run[i].root, layouts[i])
    requires forall i | 0 < i < |run| :: Evolves(run[i - 1], run[i])
    requires Trackable(run[0], layouts[0], prefix, stack, version) && FlagsSound(stack)
    ensures var t := run[|run| - 1]; var l := layouts[|run| - 1];
      && Trackable(t, l, prefix, stack, version)
      && (Findable(t, l, prefix, stack, version) <==> prefix in Contents(t.nodes, t.root, l))
  {
    TrackableOverRun(run, layouts, prefix, stack, version);
    SoundRelocates(run[|run| - 1].nodes, stack);
  }

  /** In no later state of the trie is the iterator given up while its key is stored. */
  ghost predicate NeverGivenUp(s: Snapshot, prefix: Str, stack: seq<Position>, version: nat)
  {
    forall t: Snapshot, l | Tree(t.nodes, t.root, l) && Evolves(s, t) && prefix in Contents(t.nodes, t.root, l) ::
      Findable(t, l, prefix, stack, version)
  }

  lemma SoundIsKept(s: Snapshot, prefix: Str, stack: seq<Position>, version: nat)
    requires FlagsSound(stack)
    ensures NeverGivenUp(s, prefix, stack, version)
  {
    forall t: Snapshot, l | Tree(t.nodes, t.root, l) && Evolves(s, t) && prefix in Contents(t.nodes, t.root, l)
      ensures Findable(t, l, prefix, stack, version)
    {
      SoundRelocates(t.nodes, stack);
    }
  }

  /** The state after changes that leave every entry as it was, but move the versions of node `a` and of the trie. */
  function Moved(s: Snapshot, a: Addr): Snapshot
    requires a in s.nodes
  {
    Snapshot(s.nodes[a := Node(s.nodes[a].version + 1, s.nodes[a].entries)], s.root, s.version + 1)
  }

  lemma MovedIsLater(s: Snapshot, l: Layout, a: Addr)
    requires Tree(s.nodes, s.root, l) && a in s.nodes
    ensures var t := Moved(s, a);
      && Tree(t.nodes, t.root, l) && Evolves(s, t)
      && Contents(t.nodes, t.root, l) == Contents(s.nodes, s.root, l)
  {
    var t := Moved(s, a);
    forall b | b in t.nodes && b != t.root
      ensures ParentOk(t.nodes, l, b)
    {
      assert ParentOk(s.nodes, l, b);
    }
    forall b, c | Has(t.nodes, b, c)
      ensures EntryOk(t.nodes, t.root, l, b, c)
    {
      assert EntryOk(s.nodes, s.root, l, b, c);
    }
    forall b | b in t.nodes && b != t.root
      ensures !IsEmptyNode(t.nodes, b)
    {
      assert !IsEmptyNode(s.nodes, b);
    }
    SameHeldSameContents(s.nodes, s.root, l, t.nodes, l);
    KeptByOperation(s, t, l, l);
  }

  /** When only the node of position `j` of a current path has moved, the version check stops there. */
  lemma {:induction false} StopsAtMoved(h: Heap, root: Addr, l: Layout, h': Heap, stack: seq<Position>, j: nat, i: nat)
    requires Shape(h, root, l) && Chain(h, root, stack) && Current(h, stack) && i <= j < |stack|
    requires ChangedOnly(h, h', stack[j].addr)
    ensures FirstStale(h', stack, i) == j
    decreases j - i
  {
    assert Fits(h, stack[i]) && InStep(h, stack[i]);
    if i < j {
      ChainGrows(h, root, l, stack, i, j);
      StopsAtMoved(h, root, l, h', stack, j, i + 1);
    }
  }

  /** Sound flags are not only enough: a current iterator whose flags are not sound is given up in some later state in
      which its key is still stored. */
  lemma FlagsDecide(s: Snapshot, l: Layout, prefix: Str, stack: seq<Position>, version: nat)
    requires Tree(s.nodes, s.root, l) && OnKey(s.nodes, s.root, l, prefix, stack) && Current(s.nodes, stack)
    requires version <= s.version
    ensures FlagsSound(stack) <==> NeverGivenUp(s, prefix, stack, version)
  {
    hide TrieModel.Contents, Evolves, Tree;
    if FlagsSound(stack) {
      SoundIsKept(s, prefix, stack, version);
    } else {
      GivenUp(s, l, prefix, stack, version);
    }
  }

  lemma GivenUp(s: Snapshot, l: Layout, prefix: Str, stack: seq<Position>, version: nat)
    requires Tree(s.nodes, s.root, l) && OnKey(s.nodes, s.root, l, prefix, stack) && Current(s.nodes, stack)
    requires version <= s.version && !FlagsSound(stack)
    ensures !NeverGivenUp(s, prefix, stack, version)
  {
    hide TrieModel.Contents, Evolves;
    var i :| 0 <= i < |stack| - 1 && !ChildUp(stack[..|stack| - 1], i);
    assert Fits(s.nodes, stack[i + 1]);
    var t := Moved(s, stack[i + 1].addr);
    MovedIsLater(s, l, stack[i + 1].addr);
    StopsAtMoved(s.nodes, s.root, l, t.nodes, stack, i + 1, 0);
    OnKeyIsStored(s.nodes, s.root, l, prefix, stack);
    assert !Findable(t, l, prefix, stack, version);
  }
}
