/** How an iterator without sound flags gets lost: a key beside its path comes and goes. */
module TrieLosses {
  import opened Common
  import opened Lex
  import opened TrieModel
  import opened TriePath
  import opened TrieOrder
  import opened TrieSearch
  import opened TrieMoves
  import opened TrieVersions
  import opened TrieSync
  import opened TrieErase
  import opened TrieIteration
  import opened TrieStore
  import opened NodeSteps

  // ----- strings that lead to a node and one byte further -----

  /** A comparison with a string that runs through a node's string comes to that node. */
  lemma {:induction false} WalkComesTo(h: Heap, root: Addr, l: Layout, a: Addr, t: Str) returns (front: seq<Position>)
    requires Shape(h, root, l) && a in h && t != []
    ensures Walk(h, [], [], root, l.at[a] + t) == Walk(h, l.at[a], front, a, t)
    decreases |l.at[a]|
  {
    if a == root {
      assert l.at[a] + t == t;
      front := [];
    } else {
      assert ParentOk(h, l, a);
      var p := l.up[a];
      var stem := At(h, p.addr, p.key).stem;
      var t' := [p.key] + (stem + t);
      assert l.at[a] + t == l.at[p.addr] + t';
      front := WalkComesTo(h, root, l, p.addr, t');
      MatchLenIs(stem, stem + t, |stem|);
      assert t'[1..] == stem + t && t'[1 + |stem|..] == t;
      assert l.at[p.addr] + t'[..1 + |stem|] == l.at[a];
      front := front + [StepPosition(h, p.addr, t')];
    }
  }

  /** So with one byte more it stops there. */
  lemma StopsThere(h: Heap, root: Addr, l: Layout, a: Addr, d: Atom)
    requires Shape(h, root, l) && a in h
    ensures StopNode(h, root, l.at[a] + [d]) == a
  {
    var front := WalkComesTo(h, root, l, a, [d]);
  }

  /** Such a string is spelled by an entry of the node that has no stem, or by none. */
  lemma BesideSlot(h: Heap, root: Addr, l: Layout, a: Addr, d: Atom)
    requires Shape(h, root, l) && a in h
    ensures var w := Find(h, root, l.at[a] + [d]);
      w.Some? ==> w.value == Slot(a, d) && Has(h, a, d) && At(h, a, d).stem == []
    ensures !StopsAtStemEnd(h, root, l.at[a] + [d])
    ensures var q := l.at[a] + [d]; q in Contents(h, root, l) ==>
      Has(h, a, d) && At(h, a, d).value == Some(Contents(h, root, l)[q])
  {
    var q := l.at[a] + [d];
    FindDescends(h, root, l, a, [d]);
    ContentsIsLookup(h, root, l, q);
    if Find(h, root, q).Some? {
      FindEnters(h, a, [d]);
    }
  }

  // ----- a path whose last node changes -----

  lemma ChangedTwice(h: Heap, h1: Heap, h2: Heap, a: Addr)
    requires ChangedOnly(h, h1, a) && ChangedOnly(h1, h2, a)
    ensures ChangedOnly(h, h2, a)
  {
  }

  /** A current path to a node stays one when only that node changes, and spells the same. */
  lemma PathStays(s: Snapshot, t: Snapshot, l: Layout, l': Layout, front: seq<Position>, a: Addr)
    requires Shape(s.nodes, s.root, l) && Shape(t.nodes, t.root, l') && s.root == t.root
    requires Chain(s.nodes, s.root, front) && NextAddr(s.nodes, s.root, front, |front|) == Some(a) && Current(s.nodes, front)
    requires ChangedOnly(s.nodes, t.nodes, a)
    ensures Chain(t.nodes, t.root, front) && NextAddr(t.nodes, t.root, front, |front|) == Some(a) && Current(t.nodes, front)
    ensures a in l.at && a in l'.at && l'.at[a] == l.at[a]
  {
    ArrivesAt(s.nodes, s.root, l, front, a);
    forall i | 0 <= i < |front|
      ensures Exact(s.nodes, front[i]) && Exact(t.nodes, front[i])
      ensures EntryAt(s.nodes, front[i]) == EntryAt(t.nodes, front[i])
    {
      assert Fits(s.nodes, front[i]) && InStep(s.nodes, front[i]);
      ChainBelowString(s.nodes, s.root, l, front, i);
    }
    ChainKept(s.nodes, t.nodes, s.root, front);
    SamePlaces(s, t, l, l', front);
    FrontCurrent(s.nodes, s.root, l, t.nodes, front, a);
    ArrivesAt(t.nodes, t.root, l', front, a);
  }

  // ----- the loss -----

  /** Adds the key that is spelled by node `a` and byte `d`, or erases it if it is stored. Only the node changes, if it has
      another entry. */
  method Toggle(t: Trie, q: Str, v: Value, ghost a: Addr, ghost d: Atom, ghost c: Atom)
    requires t.Valid() && a in t.nodes && a in t.lay.at && q == t.lay.at[a] + [d] && c != d && Has(t.nodes, a, c)
    modifies t
    ensures t.Valid() && t.root == old(t.root) && Evolves(old(t.Snap()), t.Snap()) && t.version > old(t.version)
    ensures ChangedOnly(old(t.nodes), t.nodes, a)
    ensures t.Contents() == if q in old(t.Contents()) then old(t.Contents()) - {q} else old(t.Contents())[q := v]
  {
    hide Tree, OnKey, Evolves, StopNode, StopsAtStemEnd, NeverGivenUp, FlagsSound, TrieModel.Contents;
    NodeBeside(t, a, d);
    var stored := t.CheckExists(q);
    if stored {
      var it := t.Find(q);
      SoundRelocates(t.nodes, it.stack);
      t.OnKeyCanSync(it);
      assert c in Erased(t.nodes[a], d, true).entries;
      var result, erased := t.Erase(it);
    } else {
      var it, r := t.Insert(q, v);
    }
  }

  lemma NodeBeside(t: Trie, a: Addr, d: Atom)
    requires t.Valid() && a in t.nodes && a in t.lay.at
    ensures var q := t.lay.at[a] + [d];
      && StopNode(t.nodes, t.root, q) == a && !StopsAtStemEnd(t.nodes, t.root, q)
      && (q in t.Contents() ==>
            TrieModel.Find(t.nodes, t.root, q) == Some(Slot(a, d)) && Has(t.nodes, a, d)
            && At(t.nodes, a, d).value == Some(t.Contents()[q]))
  {
    StopsThere(t.nodes, t.root, t.lay, a, d);
    BesideSlot(t.nodes, t.root, t.lay, a, d);
    ContentsIsLookup(t.nodes, t.root, t.lay, t.lay.at[a] + [d]);
  }

  /** The length of what the positions before `j` spell. */
  method LengthBefore(t: Trie, it: TrieIterator, j: nat) returns (length: nat)
    requires t.Valid() && t.IsOnKey(it) && j < |it.stack|
    ensures length < |it.prefix| && it.stack[j].addr in t.lay.at && it.prefix[..length] == t.lay.at[it.stack[j].addr]
    ensures it.stack[j].key == Some(it.prefix[length]) && Has(t.nodes, it.stack[j].addr, it.prefix[length])
  {
    hide TrieModel.Contents;
    length := 0;
    var i := 0;
    ChainNode(t.nodes, t.root, t.lay, it.stack, 0);
    while i < j
      invariant 0 <= i <= j && it.stack[i].addr in t.lay.at && length == |t.lay.at[it.stack[i].addr]|
      invariant Fits(t.nodes, it.stack[i])
    {
      ChainNode(t.nodes, t.root, t.lay, it.stack, i);
      ChainNode(t.nodes, t.root, t.lay, it.stack, i + 1);
      length, i := length + it.stack[i].stemSize.value + 1, i + 1;
    }
    OnTheWay(t.nodes, t.root, t.lay, it.prefix, it.stack, j);
  }

  /** The nodes of a path lie on the way to its string. */
  lemma OnTheWay(h: Heap, root: Addr, l: Layout, prefix: Str, stack: seq<Position>, j: nat)
    requires Shape(h, root, l) && OnChain(h, root, l, prefix, stack) && j < |stack|
    ensures Fits(h, stack[j]) && stack[j].addr in l.at && l.at[stack[j].addr] + [stack[j].key.value] <= prefix
  {
    var m := |stack| - 1;
    ChainNode(h, root, l, stack, j);
    ChainNode(h, root, l, stack, m);
    SpellAt(l.at[stack[j].addr], stack[j].key.value, EntryAt(h, stack[j]).stem);
    if j < m {
      if j + 1 < m {
        ChainGrows(h, root, l, stack, j + 1, m);
      }
    }
  }

  /** Between the two changes the path still leads to the node, and the iterator's key still runs through it. */
  lemma BetweenToggles(s: Snapshot, t: Snapshot, l: Layout, l': Layout, prefix: Str, stack: seq<Position>, j: nat)
    requires Tree(s.nodes, s.root, l) && Tree(t.nodes, t.root, l') && s.root == t.root
    requires OnKey(s.nodes, s.root, l, prefix, stack) && Current(s.nodes, stack) && j < |stack|
    requires ChangedOnly(s.nodes, t.nodes, stack[j].addr) && prefix in Contents(t.nodes, t.root, l')
    ensures var a := stack[j].addr; a in l.at && a in l'.at && a in t.nodes && l'.at[a] == l.at[a]
    ensures stack[j].key.Some? && Has(t.nodes, stack[j].addr, stack[j].key.value)
  {
    var a := stack[j].addr;
    OnTheWay(s.nodes, s.root, l, prefix, stack, j);
    ChainPrefix(s.nodes, s.root, stack, j);
    assert NextAddr(s.nodes, s.root, stack, j) == Some(a);
    forall k | 0 <= k < j
      ensures InStep(s.nodes, stack[..j][k])
    {
      assert InStep(s.nodes, stack[k]);
    }
    PathStays(s, t, l, l', stack[..j], a);
    Enters(t.nodes, t.root, l', a, prefix);
  }

  /** An iterator whose lower node has changed, and whose flag above it is wrong, is given up. */
  lemma Lost(s: Snapshot, t: Snapshot, l: Layout, l': Layout, prefix: Str, stack: seq<Position>, version: nat, i: nat)
    requires Tree(s.nodes, s.root, l) && Tree(t.nodes, t.root, l') && Evolves(s, t) && version <= s.version < t.version
    requires OnKey(s.nodes, s.root, l, prefix, stack) && Current(s.nodes, stack)
    requires i + 1 < |stack| && !stack[i].hasChild && ChangedOnly(s.nodes, t.nodes, stack[i + 1].addr)
    ensures Trackable(t, l', prefix, stack, version) && !TrieSync.Findable(t, l', prefix, stack, version)
  {
    OnKeyIsTrackable(s, l, prefix, stack, version);
    TrackableSurvives(s, t, l, l', prefix, stack, version);
    StopsAtMoved(s.nodes, s.root, l, t.nodes, stack, i + 1, 0);
  }

  /** Adds and erases again the key that is spelled by node `a` and byte `d`, or erases it and puts it back. */
  method ToggleTwice(t: Trie, q: Str, v: Value, ghost d: Atom, ghost j: nat, ghost prefix: Str, ghost stack: seq<Position>)
    requires t.Valid() && OnKey(t.nodes, t.root, t.lay, prefix, stack) && Current(t.nodes, stack) && j < |stack|
    requires stack[j].addr in t.nodes && stack[j].addr in t.lay.at && stack[j].key.Some? && stack[j].key != Some(d)
    requires q == t.lay.at[stack[j].addr] + [d] && q != prefix && Has(t.nodes, stack[j].addr, stack[j].key.value)
    requires q in t.Contents() ==> t.Contents()[q] == v
    modifies t
    ensures t.Valid() && t.Contents() == old(t.Contents()) && t.version > old(t.version)
    ensures t.root == old(t.root) && Evolves(old(t.Snap()), t.Snap()) && ChangedOnly(old(t.nodes), t.nodes, stack[j].addr)
  {
    hide Tree, OnKey, Evolves, ChangedOnly, TrieModel.Contents;
    ghost var s, l, a, c, m := t.Snap(), t.lay, stack[j].addr, stack[j].key.value, t.Contents();
    IsStored(s, l, prefix, stack);
    Toggle(t, q, v, a, d, c);
    ghost var s1 := t.Snap();
    BetweenToggles(s, s1, l, t.lay, prefix, stack, j);
    Toggle(t, q, v, a, d, c);
    EvolvesTransitive(s, s1, t.Snap());
    ChangedTwice(s.nodes, s1.nodes, t.nodes, a);
    PutBack(m, q, v);
  }

  lemma IsStored(s: Snapshot, l: Layout, prefix: Str, stack: seq<Position>)
    requires Tree(s.nodes, s.root, l) && OnKey(s.nodes, s.root, l, prefix, stack) && stack != []
    ensures prefix in Contents(s.nodes, s.root, l)
  {
    OnKeyIsStored(s.nodes, s.root, l, prefix, stack);
  }

  lemma PutBack(m: map<Str, Value>, q: Str, v: Value)
    ensures q !in m ==> m[q := v] - {q} == m
    ensures q in m && m[q] == v ==> (m - {q})[q := v] == m
  {
  }

  /** For any iterator with a wrong flag at position `i`: a key that is not stored is added and erased again in the node
      below, or a stored one erased and put back, and `sync_iterator` gives the iterator up, although the stored pairs are
      what they were. */
  method LoseIterator(t: Trie, it: TrieIterator, i: nat, v: Value) returns (ok: bool)
    requires t.Valid() && t.IsOnKey(it) && Current(t.nodes, it.stack) && it.version <= t.version
    requires i + 1 < |it.stack| && !it.stack[i].hasChild
    modifies t, it
    ensures t.Valid() && t.Contents() == old(t.Contents()) && old(it.prefix) in t.Contents() && !ok
  {
    hide Tree, OnKey, Evolves, ChangedOnly, Current, TrieModel.Contents, TrieSync.Findable;
    var length := LengthBefore(t, it, i + 1);
    var a, c := it.stack[i + 1].addr, it.prefix[length];
    var d: Atom := if c == 0 then 1 else 0;
    var q := it.prefix[..length] + [d];
    assert q[length] == d;
    ghost var s, l := t.Snap(), t.lay;
    IsStored(s, l, it.prefix, it.stack);
    NodeBeside(t, a, d);
    var stored := t.CheckExists(q);
    var w := if stored then t.nodes[a].entries[d].value.value else v;
    ToggleTwice(t, q, w, d, i + 1, it.prefix, it.stack);
    Lost(s, t.Snap(), l, t.lay, it.prefix, it.stack, it.version, i);
    ok := t.SyncIterator(it);
  }
}
