/** What node versions tell an iterator about the time since it was last in step with the trie. */
module TrieVersions {
  import opened Common
  import opened Lex
  import opened TrieModel
  import opened TriePath

  /** What an iterator can observe of a trie: the nodes, the root and the trie-wide version. */
  datatype Snapshot = Snapshot(nodes: Heap, root: Addr, version: nat)

  // ----- how a trie may change over time -----

  /** The addresses in `kept` belong to the same nodes before and after: versions never go back, a node
      whose version stands still is unchanged, and then its children are the same nodes too. Addresses outside
      `kept` may have been freed and handed out again with version 0. */
  ghost predicate Kept(s: Snapshot, t: Snapshot, kept: set<Addr>)
  {
    && s.root == t.root && s.root in kept && kept <= s.nodes.Keys && kept <= t.nodes.Keys
    && (forall a | a in kept :: s.nodes[a].version <= t.nodes[a].version)
    && (forall a | a in kept && s.nodes[a].version == t.nodes[a].version :: s.nodes[a] == t.nodes[a])
    && (forall a, c | a in kept && s.nodes[a].version == t.nodes[a].version && Has(s.nodes, a, c) ::
          At(s.nodes, a, c).child.Some? ==> At(s.nodes, a, c).child.value in kept)
  }

  /** The same entries with the same stems, children and value flags. */
  ghost predicate SameForm(h: Heap, h': Heap)
  {
    && (forall a | a in h :: a in h' && h[a].version <= h'[a].version)
    && (forall a, c | Has(h, a, c) ::
          && Has(h', a, c)
          && At(h', a, c).stem == At(h, a, c).stem && At(h', a, c).child == At(h, a, c).child
          && At(h', a, c).value.Some? == At(h, a, c).value.Some?)
  }

  /** Later states of one trie. */
  ghost predicate Evolves(s: Snapshot, t: Snapshot)
  {
    && (exists kept :: Kept(s, t, kept))
    && s.version <= t.version
    && (s.version == t.version ==> SameForm(s.nodes, t.nodes))
  }

  lemma EvolvesReflexive(s: Snapshot, l: Layout)
    requires Shape(s.nodes, s.root, l)
    ensures Evolves(s, s)
  {
    forall a, c | Has(s.nodes, a, c)
      ensures At(s.nodes, a, c).child.Some? ==> At(s.nodes, a, c).child.value in s.nodes.Keys
    {
      assert EntryOk(s.nodes, s.root, l, a, c);
    }
    assert Kept(s, s, s.nodes.Keys);
  }

  lemma KeptTransitive(s: Snapshot, t: Snapshot, u: Snapshot, k1: set<Addr>, k2: set<Addr>)
    requires Kept(s, t, k1) && Kept(t, u, k2)
    ensures Kept(s, u, k1 * k2)
  {
    forall a, c | a in k1 * k2 && s.nodes[a].version == u.nodes[a].version && Has(s.nodes, a, c)
      ensures At(s.nodes, a, c).child.Some? ==> At(s.nodes, a, c).child.value in k1 * k2
    {
      assert s.nodes[a] == t.nodes[a] && Has(t.nodes, a, c);
    }
  }

  lemma EvolvesTransitive(s: Snapshot, t: Snapshot, u: Snapshot)
    requires Evolves(s, t) && Evolves(t, u)
    ensures Evolves(s, u)
  {
    var k1 :| Kept(s, t, k1);
    var k2 :| Kept(t, u, k2);
    KeptTransitive(s, t, u, k1, k2);
    if s.version == u.version {
      forall a, c | Has(s.nodes, a, c)
        ensures Has(u.nodes, a, c) && At(u.nodes, a, c).stem == At(s.nodes, a, c).stem
        ensures At(u.nodes, a, c).child == At(s.nodes, a, c).child
        ensures At(u.nodes, a, c).value.Some? == At(s.nodes, a, c).value.Some?
      {
        assert Has(t.nodes, a, c);
      }
    }
  }

  /** Nodes present in both heaps are unchanged or carry a greater version. */
  ghost predicate Forward(h: Heap, h': Heap)
  {
    forall a | a in h && a in h' :: h[a] == h'[a] || h[a].version < h'[a].version
  }

  /** One operation that never frees and reuses an address within itself. */
  lemma KeptByOperation(s: Snapshot, t: Snapshot, l: Layout, l': Layout)
    requires Shape(s.nodes, s.root, l) && Shape(t.nodes, t.root, l') && s.root == t.root
    requires Forward(s.nodes, t.nodes)
    ensures Kept(s, t, s.nodes.Keys * t.nodes.Keys)
  {
    forall a, c | a in s.nodes && a in t.nodes && s.nodes[a].version == t.nodes[a].version && Has(s.nodes, a, c)
      ensures At(s.nodes, a, c).child.Some? ==> At(s.nodes, a, c).child.value in s.nodes.Keys * t.nodes.Keys
    {
      assert EntryOk(s.nodes, s.root, l, a, c);
      assert Has(t.nodes, a, c) && EntryOk(t.nodes, t.root, l', a, c);
    }
  }

  // ----- what an iterator keeps over time -----

  ghost predicate Exact(h: Heap, p: Position)
  {
    Fits(h, p) && p.version == h[p.addr].version
  }

  ghost predicate ExactChain(h: Heap, root: Addr, stack: seq<Position>)
  {
    && (forall i | 0 <= i < |stack| :: Exact(h, stack[i]))
    && Chain(h, root, stack)
  }

  lemma ExactIsCurrent(h: Heap, root: Addr, stack: seq<Position>)
    requires ExactChain(h, root, stack)
    ensures Current(h, stack)
  {
    forall i | 0 <= i < |stack|
      ensures InStep(h, stack[i])
    {
      assert Exact(h, stack[i]);
    }
  }

  /** The first `j` positions are exact, and the version check stops at position `j`, if there is one. */
  ghost predicate StaleAt(h: Heap, root: Addr, l: Layout, prefix: Str, stack: seq<Position>, j: nat)
  {
    && j <= |stack| && ExactChain(h, root, stack[..j])
    && if j == |stack| then OnKey(h, root, l, prefix, stack)
       else
         && NextAddr(h, root, stack[..j], j) == Some(stack[j].addr)
         && stack[j].addr in h && stack[j].addr in l.at
         && stack[j].version < h[stack[j].addr].version
         && l.at[stack[j].addr] <= prefix && |l.at[stack[j].addr]| < |prefix|
  }

  /** An iterator that `sync_iterator` can bring back into step. */
  ghost predicate Trackable(s: Snapshot, l: Layout, prefix: Str, stack: seq<Position>, version: nat)
  {
    && (stack == [] ==> prefix == [])
    && version <= s.version
    && (version == s.version ==> OnKey(s.nodes, s.root, l, prefix, stack))
    && exists j :: StaleAt(s.nodes, s.root, l, prefix, stack, j)
  }

  lemma {:induction false} StaleFrom(h: Heap, root: Addr, l: Layout, prefix: Str, stack: seq<Position>, i: nat)
    returns (j: nat)
    requires Shape(h, root, l) && OnKey(h, root, l, prefix, stack)
    requires i <= |stack| && forall k | 0 <= k < i :: Exact(h, stack[k])
    ensures StaleAt(h, root, l, prefix, stack, j)
    decreases |stack| - i
  {
    ChainPrefix(h, root, stack, i);
    j := i;
    if i < |stack| {
      assert Fits(h, stack[i]);
      if stack[i].version == h[stack[i].addr].version {
        j := StaleFrom(h, root, l, prefix, stack, i + 1);
      } else {
        assert NextAddr(h, root, stack, i) == Some(stack[i].addr);
        ChainBelowString(h, root, l, stack, i);
      }
    } else {
      assert stack[..i] == stack;
    }
  }

  /** An iterator on a stored key stays within reach of `sync_iterator`. */
  lemma OnKeyIsTrackable(s: Snapshot, l: Layout, prefix: Str, stack: seq<Position>, version: nat)
    requires Shape(s.nodes, s.root, l) && OnKey(s.nodes, s.root, l, prefix, stack) && version <= s.version
    ensures Trackable(s, l, prefix, stack, version)
  {
    var j := StaleFrom(s.nodes, s.root, l, prefix, stack, 0);
  }

  // ----- an iterator survives any later changes -----

  /** Position `k` still carries the version of its node, which is still the same node. */
  ghost predicate Unbumped(t: Snapshot, kept: set<Addr>, p: Position)
  {
    p.addr in kept && p.addr in t.nodes && p.version == t.nodes[p.addr].version
  }

  lemma {:induction false} FirstBump(s: Snapshot, t: Snapshot, kept: set<Addr>, stack: seq<Position>, i: nat)
    returns (j: nat)
    requires Kept(s, t, kept) && ExactChain(s.nodes, s.root, stack)
    requires i <= |stack| && forall k | 0 <= k < i :: Unbumped(t, kept, stack[k])
    ensures i <= j <= |stack| && forall k | 0 <= k < j :: Unbumped(t, kept, stack[k])
    ensures NextAddr(s.nodes, s.root, stack, j).Some? ==> NextAddr(s.nodes, s.root, stack, j).value in kept
    ensures j < |stack| ==> stack[j].version < t.nodes[stack[j].addr].version
    decreases |stack| - i
  {
    j := i;
    if i > 0 {
      var p := stack[i - 1];
      assert Unbumped(t, kept, p) && Exact(s.nodes, p);
      assert Has(s.nodes, p.addr, p.key.value);
    }
    if i < |stack| {
      assert NextAddr(s.nodes, s.root, stack, i) == Some(stack[i].addr);
      assert Exact(s.nodes, stack[i]) && stack[i].addr in kept;
      if stack[i].version == t.nodes[stack[i].addr].version {
        j := FirstBump(s, t, kept, stack, i + 1);
      }
    }
  }

  lemma ExactPrefix(h: Heap, root: Addr, stack: seq<Position>, j: nat)
    requires ExactChain(h, root, stack) && j <= |stack|
    ensures ExactChain(h, root, stack[..j])
    ensures NextAddr(h, root, stack[..j], j) == NextAddr(h, root, stack, j)
  {
    ChainPrefix(h, root, stack, j);
  }

  lemma UnbumpedChain(s: Snapshot, t: Snapshot, kept: set<Addr>, stack: seq<Position>)
    requires Kept(s, t, kept) && ExactChain(s.nodes, s.root, stack)
    requires forall k | 0 <= k < |stack| :: Unbumped(t, kept, stack[k])
    ensures ExactChain(t.nodes, t.root, stack)
    ensures NextAddr(t.nodes, t.root, stack, |stack|) == NextAddr(s.nodes, s.root, stack, |stack|)
  {
    forall k | 0 <= k < |stack|
      ensures Exact(t.nodes, stack[k]) && t.nodes[stack[k].addr] == s.nodes[stack[k].addr]
    {
      assert Unbumped(t, kept, stack[k]) && Exact(s.nodes, stack[k]);
    }
    ChainKept(s.nodes, t.nodes, s.root, stack);
  }

  /** Nodes reached over unchanged entries sit at the same strings. */
  lemma {:induction false} SamePlaces(s: Snapshot, t: Snapshot, l: Layout, l': Layout, stack: seq<Position>)
    requires Shape(s.nodes, s.root, l) && Shape(t.nodes, t.root, l') && s.root == t.root
    requires ExactChain(s.nodes, s.root, stack) && ExactChain(t.nodes, t.root, stack)
    requires forall k | 0 <= k < |stack| ::
      EntryAt(s.nodes, stack[k]) == EntryAt(t.nodes, stack[k])
    ensures PathString(s.nodes, s.root, l, stack) == PathString(t.nodes, t.root, l', stack)
    decreases |stack|
  {
    if stack != [] {
      var m := |stack| - 1;
      assert Exact(s.nodes, stack[m]) && Exact(t.nodes, stack[m]);
      ExactPrefix(s.nodes, s.root, stack, m);
      ExactPrefix(t.nodes, t.root, stack, m);
      SamePlaces(s, t, l, l', stack[..m]);
      assert NextAddr(s.nodes, s.root, stack, m) == NextAddr(t.nodes, t.root, stack, m) == Some(stack[m].addr);
      ArrivesAt(s.nodes, s.root, l, stack[..m], stack[m].addr);
      ArrivesAt(t.nodes, t.root, l', stack[..m], stack[m].addr);
    }
  }

  lemma UnbumpedEntries(s: Snapshot, t: Snapshot, kept: set<Addr>, stack: seq<Position>)
    requires Kept(s, t, kept) && ExactChain(s.nodes, s.root, stack)
    requires forall k | 0 <= k < |stack| :: Unbumped(t, kept, stack[k])
    ensures forall k | 0 <= k < |stack| ::
      EntryAt(s.nodes, stack[k]) == EntryAt(t.nodes, stack[k])
  {
    forall k | 0 <= k < |stack|
      ensures EntryAt(s.nodes, stack[k]) == EntryAt(t.nodes, stack[k])
    {
      assert Unbumped(t, kept, stack[k]) && Exact(s.nodes, stack[k]);
    }
  }

  /** The part of a stack before its first bumped position is exact in the later state as well. */
  lemma StaleLater(s: Snapshot, t: Snapshot, l: Layout, l': Layout, kept: set<Addr>,
                   prefix: Str, stack: seq<Position>, j: nat) returns (i: nat)
    requires Shape(s.nodes, s.root, l) && Shape(t.nodes, t.root, l') && Kept(s, t, kept)
    requires StaleAt(s.nodes, s.root, l, prefix, stack, j)
    ensures StaleAt(t.nodes, t.root, l', prefix, stack, i)
  {
    var front := stack[..j];
    i := FirstBump(s, t, kept, front, 0);
    ExactPrefix(s.nodes, s.root, front, i);
    assert front[..i] == stack[..i];
    UnbumpedChain(s, t, kept, stack[..i]);
    UnbumpedEntries(s, t, kept, stack[..i]);
    SamePlaces(s, t, l, l', stack[..i]);
    if i < |stack| {
      StaleNode(s, l, prefix, stack, j, i);
      ArrivesAt(s.nodes, s.root, l, stack[..i], stack[i].addr);
      ArrivesAt(t.nodes, t.root, l', stack[..i], stack[i].addr);
    } else {
      assert stack[..i] == stack;
      assert stack != [] ==> Unbumped(t, kept, stack[|stack| - 1]) && Exact(s.nodes, stack[|stack| - 1]);
    }
  }

  /** Every position up to the stale one is in the node its path leads to, at a prefix of the iterator's string. */
  lemma StaleNode(s: Snapshot, l: Layout, prefix: Str, stack: seq<Position>, j: nat, i: nat)
    requires Shape(s.nodes, s.root, l) && StaleAt(s.nodes, s.root, l, prefix, stack, j)
    requires i <= j && i < |stack|
    ensures ExactChain(s.nodes, s.root, stack[..i])
    ensures NextAddr(s.nodes, s.root, stack[..i], i) == Some(stack[i].addr)
    ensures stack[i].addr in l.at && l.at[stack[i].addr] <= prefix && |l.at[stack[i].addr]| < |prefix|
  {
    ExactPrefix(s.nodes, s.root, stack[..j], i);
    assert stack[..j][..i] == stack[..i];
    if i < j {
      assert NextAddr(s.nodes, s.root, stack[..j], i) == Some(stack[..j][i].addr);
      ChainBelowString(s.nodes, s.root, l, stack[..j], i);
      if j < |stack| {
        ArrivesAt(s.nodes, s.root, l, stack[..j], stack[j].addr);
      } else {
        assert stack[..j] == stack;
      }
    }
  }

  lemma OnKeySameForm(h: Heap, h': Heap, root: Addr, l: Layout, l': Layout, prefix: Str, stack: seq<Position>)
    requires Shape(h, root, l) && Shape(h', root, l') && SameForm(h, h') && OnKey(h, root, l, prefix, stack)
    ensures OnKey(h', root, l', prefix, stack)
  {
    forall i | 0 <= i < |stack|
      ensures Fits(h', stack[i]) && EntryAt(h', stack[i]).child == EntryAt(h, stack[i]).child
    {
      assert Fits(h, stack[i]);
    }
    ChainKept(h, h', root, stack);
    FormPlaces(h, h', root, l, l', stack);
  }

  lemma {:induction false} FormPlaces(h: Heap, h': Heap, root: Addr, l: Layout, l': Layout, stack: seq<Position>)
    requires Shape(h, root, l) && Shape(h', root, l') && SameForm(h, h') && Chain(h, root, stack) && Chain(h', root, stack)
    ensures PathString(h, root, l, stack) == PathString(h', root, l', stack)
    decreases |stack|
  {
    if stack != [] {
      var m := |stack| - 1;
      assert Fits(h, stack[m]) && Fits(h', stack[m]);
      ChainPrefix(h, root, stack, m);
      ChainPrefix(h', root, stack, m);
      FormPlaces(h, h', root, l, l', stack[..m]);
      assert NextAddr(h, root, stack, m) == NextAddr(h', root, stack, m) == Some(stack[m].addr);
      ArrivesAt(h, root, l, stack[..m], stack[m].addr);
      ArrivesAt(h', root, l', stack[..m], stack[m].addr);
    }
  }

  /** Whatever happens to the trie, and whatever addresses are reused, an iterator stays trackable: the version
      check never takes a changed path for a current one, and never looks at a node that is gone. */
  lemma TrackableSurvives(s: Snapshot, t: Snapshot, l: Layout, l': Layout,
                          prefix: Str, stack: seq<Position>, version: nat)
    requires Shape(s.nodes, s.root, l) && Shape(t.nodes, t.root, l') && Evolves(s, t)
    requires Trackable(s, l, prefix, stack, version)
    ensures Trackable(t, l', prefix, stack, version)
  {
    var kept :| Kept(s, t, kept);
    var j :| StaleAt(s.nodes, s.root, l, prefix, stack, j);
    var i := StaleLater(s, t, l, l', kept, prefix, stack, j);
    if version == t.version {
      OnKeySameForm(s.nodes, t.nodes, s.root, l, l', prefix, stack);
    }
  }

  /** The same over a whole run of states. */
  lemma {:induction false} TrackableOverRun(run: seq<Snapshot>, layouts: seq<Layout>,
                                            prefix: Str, stack: seq<Position>, version: nat)
    requires |run| == |layouts| > 0
    requires forall i | 0 <= i < |run| :: Shape(run[i].nodes, run[i].root, layouts[i])
    requires forall i | 0 < i < |run| :: Evolves(run[i - 1], run[i])
    requires Trackable(run[0], layouts[0], prefix, stack, version)
    ensures Trackable(run[|run| - 1], layouts[|run| - 1], prefix, stack, version)
    decreases |run|
  {
    var m := |run| - 1;
    if m > 0 {
      TrackableOverRun(run[..m], layouts[..m], prefix, stack, version);
      assert run[..m][m - 1] == run[m - 1] && layouts[..m][m - 1] == layouts[m - 1];
      TrackableSurvives(run[m - 1], run[m], layouts[m - 1], layouts[m], prefix, stack, version);
    }
  }

  /** When the check finds every recorded version in place, the stack still spells the same stored key. */
  lemma AllVersionsMatch(run: seq<Snapshot>, layouts: seq<Layout>, prefix: Str, stack: seq<Position>, version: nat)
    requires |run| == |layouts| > 0
    requires forall i | 0 <= i < |run| :: Shape(run[i].nodes, run[i].root, layouts[i])
    requires forall i | 0 < i < |run| :: Evolves(run[i - 1], run[i])
    requires Trackable(run[0], layouts[0], prefix, stack, version)
    requires var t := run[|run| - 1];
      forall i | 0 <= i < |stack| :: stack[i].addr in t.nodes ==> t.nodes[stack[i].addr].version == stack[i].version
    ensures var t := run[|run| - 1]; var l := layouts[|run| - 1];
      && OnKey(t.nodes, t.root, l, prefix, stack)
      && (stack != [] ==> prefix in Contents(t.nodes, t.root, l))
  {
    TrackableOverRun(run, layouts, prefix, stack, version);
    var t, l := run[|run| - 1], layouts[|run| - 1];
    var j :| StaleAt(t.nodes, t.root, l, prefix, stack, j);
    if stack != [] {
      OnKeyIsStored(t.nodes, t.root, l, prefix, stack);
    }
  }

  // ----- where the check of `sync_iterator` stops -----

  /** The first position, from `i` on, whose recorded version is not that of its node. */
  function FirstStale(h: Heap, stack: seq<Position>, i: nat): (j: nat)
    requires i <= |stack|
    ensures i <= j <= |stack|
    decreases |stack| - i
  {
    if i < |stack| && stack[i].addr in h && h[stack[i].addr].version == stack[i].version
    then FirstStale(h, stack, i + 1)
    else i
  }

  lemma {:induction false} FirstStaleIs(h: Heap, root: Addr, l: Layout, prefix: Str, stack: seq<Position>, j: nat, i: nat)
    requires StaleAt(h, root, l, prefix, stack, j) && i <= j
    ensures FirstStale(h, stack, i) == j
    decreases |stack| - i
  {
    if i < j {
      assert Exact(h, stack[..j][i]);
      FirstStaleIs(h, root, l, prefix, stack, j, i + 1);
    }
  }

  /** The search that relocates a stale path can start: from the root, or from a position with its child flag up. */
  predicate CanRelocate(h: Heap, stack: seq<Position>)
  {
    var j := FirstStale(h, stack, 0);
    j == |stack| || j == 0 || stack[j - 1].hasChild
  }

  /** A current path can be found again without a search. */
  lemma {:induction false} CurrentIsFound(h: Heap, stack: seq<Position>, i: nat)
    requires Current(h, stack) && (forall k | 0 <= k < |stack| :: stack[k].addr in h) && i <= |stack|
    ensures FirstStale(h, stack, i) == |stack|
    decreases |stack| - i
  {
    if i < |stack| {
      assert InStep(h, stack[i]);
      CurrentIsFound(h, stack, i + 1);
    }
  }

  /** What it means that the check stopped at position `j`, or ran to the end. */
  lemma CheckedUpTo(h: Heap, root: Addr, l: Layout, prefix: Str, stack: seq<Position>, j: nat)
    requires StaleAt(h, root, l, prefix, stack, j) && j == FirstStale(h, stack, 0)
    ensures CanRelocate(h, stack) <==> j == |stack| || j == 0 || stack[j - 1].hasChild
    ensures j == |stack| ==> OnKey(h, root, l, prefix, stack) && Current(h, stack)
  {
    if j == |stack| {
      assert stack[..j] == stack;
      ExactIsCurrent(h, root, stack);
    }
  }

  /** Cutting a stale stack leaves a path whose string is a proper prefix of the iterator's. */
  lemma CutLeads(s: Snapshot, l: Layout, prefix: Str, stack: seq<Position>, j: nat)
    requires Shape(s.nodes, s.root, l) && StaleAt(s.nodes, s.root, l, prefix, stack, j) && j < |stack|
    ensures var p := PathString(s.nodes, s.root, l, stack[..j]);
      && p <= prefix && |p| < |prefix|
      && LeadsTo(s.nodes, s.root, l, p, stack[..j], stack[j].addr)
  {
    ArrivesAt(s.nodes, s.root, l, stack[..j], stack[j].addr);
    if j > 0 {
      assert Exact(s.nodes, stack[..j][j - 1]);
    }
  }

  /** The length that `sync_iterator` adds up over the positions it found current. */
  lemma LengthGrows(s: Snapshot, l: Layout, prefix: Str, stack: seq<Position>, j: nat, i: nat)
    requires Shape(s.nodes, s.root, l) && StaleAt(s.nodes, s.root, l, prefix, stack, j) && i < j
    ensures stack[i].addr in s.nodes && stack[i].version == s.nodes[stack[i].addr].version && stack[i].stemSize.Some?
    ensures |PathString(s.nodes, s.root, l, stack[..i + 1])|
         == |PathString(s.nodes, s.root, l, stack[..i])| + stack[i].stemSize.value + 1
  {
    var front := stack[..j];
    assert Exact(s.nodes, front[i]) && front[i] == stack[i];
    ChainNode(s.nodes, s.root, l, front, i);
    ExactPrefix(s.nodes, s.root, front, i);
    assert front[..i] == stack[..i] && front[..i + 1] == stack[..i + 1];
    assert NextAddr(s.nodes, s.root, front, i) == Some(stack[i].addr);
    ArrivesAt(s.nodes, s.root, l, stack[..i], stack[i].addr);
    assert stack[..i + 1][i] == stack[i];
  }
}
