/** What erasing does to the trie: a key goes, and with it the nodes that hold nothing else. */
module TrieErase {
  import opened Common
  import opened Lex
  import opened TrieModel
  import opened TriePath
  import opened TrieOrder
  import opened TrieSearch
  import opened TrieChange
  import opened TrieInsert
  import opened TrieVersions
  import opened NodeSteps

  /** A later state with nodes and entries taken away: what is left sits where it was, with the same stems, and
      every node that differs has a greater version. */
  ghost predicate Shrunk(h: Heap, root: Addr, l: Layout, h': Heap, l': Layout)
  {
    && h'.Keys <= h.Keys && Forward(h, h')
    && (forall a {:trigger a in l'.at} | a in h' :: a in l'.at && a in l.at && l'.at[a] == l.at[a])
    && (forall a {:trigger a in l'.up} | a in h' && a != root :: a in l'.up && a in l.up && l'.up[a] == l.up[a])
    && (forall a, c {:trigger Has(h', a, c)} | Has(h', a, c) ::
          && Has(h, a, c) && At(h', a, c).stem == At(h, a, c).stem
          && (At(h', a, c).child.Some? ==> At(h', a, c).child == At(h, a, c).child))
  }

  lemma ShrunkReflexive(h: Heap, root: Addr, l: Layout)
    requires Shape(h, root, l)
    ensures Shrunk(h, root, l, h, l)
  {
    forall a | a in h && a != root
      ensures a in l.up
    {
      assert ParentOk(h, l, a);
    }
  }

  lemma ShrunkTransitive(h: Heap, root: Addr, l: Layout, g: Heap, k: Layout, f: Heap, j: Layout)
    requires Shrunk(h, root, l, g, k) && Shrunk(g, root, k, f, j)
    ensures Shrunk(h, root, l, f, j)
  {
    forall a | a in f
      ensures a in j.at && a in l.at && j.at[a] == l.at[a]
    {
      assert a in j.at && a in k.at;
    }
    forall a | a in f && a != root
      ensures a in j.up && a in l.up && j.up[a] == l.up[a]
    {
      assert a in j.up && a in k.up;
    }
  }

  /** A node whose entries are unchanged may be touched any number of times. */
  lemma Touched(h: Heap, root: Addr, l: Layout, a: Addr, n: Node)
    requires Shape(h, root, l) && a in h && n.entries == h[a].entries
    ensures Shape(h[a := n], root, l) && Contents(h[a := n], root, l) == Contents(h, root, l)
  {
    var h' := h[a := n];
    forall b | b in h' && b != root
      ensures ParentOk(h', l, b)
    {
      assert ParentOk(h, l, b);
    }
    forall b, c | Has(h', b, c)
      ensures EntryOk(h', root, l, b, c)
    {
      assert EntryOk(h, root, l, b, c);
    }
    SameHeldSameContents(h, root, l, h', l);
  }

  lemma EraseShrinks(h: Heap, root: Addr, l: Layout, a: Addr, c: Atom)
    requires Tree(h, root, l) && Has(h, a, c)
    ensures Shrunk(h, root, l, h[a := Erased(h[a], c, true)], l) && NoEmptyBut(h[a := Erased(h[a], c, true)], root, a)
  {
    var g := h[a := Erased(h[a], c, true)];
    ShrunkReflexive(h, root, l);
    forall b | b in g && b != root && b != a
      ensures !IsEmptyNode(g, b)
    {
      assert !IsEmptyNode(h, b);
    }
  }

  /** The first step of an erase: the value goes, and the entry with it unless it has a child. */
  lemma EraseFirst(h: Heap, root: Addr, l: Layout, a: Addr, c: Atom)
    requires Tree(h, root, l) && Has(h, a, c) && At(h, a, c).value.Some? && a in l.at
    ensures var g := h[a := Erased(h[a], c, true)]; var k := Spell(l.at[a], c, At(h, a, c).stem);
      && Shape(g, root, l) && k in Contents(h, root, l) && Contents(g, root, l) == Contents(h, root, l) - {k}
  {
    if At(h, a, c).child.Some? {
      DropValue(h, root, l, a, c, Erased(h[a], c, true));
    } else {
      DropEntry(h, root, l, a, c, Erased(h[a], c, true));
    }
  }

  /** When the node keeps other entries, nothing but this one node changes. */
  ghost predicate ErasedAt(h: Heap, h': Heap, w: Slot)
  {
    Has(h, w.addr, w.key) && Erased(h[w.addr], w.key, true).entries != map[] ==>
      h' == h[w.addr := Erased(h[w.addr], w.key, true)]
  }

  /** Heap and layout after an empty node `b` and the reference to it are gone: `remove_child` and `erase` on its parent. */
  function PrunedNode(g: Heap, w: Slot): Node
    requires Has(g, w.addr, w.key) && At(g, w.addr, w.key).child.Some?
  {
    Erased(ChildRemoved(g[w.addr], w.key), w.key, false)
  }

  function PrunedHeap(g: Heap, b: Addr, w: Slot): Heap
    requires Has(g, w.addr, w.key) && At(g, w.addr, w.key).child.Some?
  {
    (g - {b})[w.addr := PrunedNode(g, w)]
  }

  function WithoutNode(l: Layout, b: Addr): Layout
  {
    Layout(l.at - {b}, l.up - {b})
  }

  lemma PruneShrinks(g: Heap, root: Addr, l: Layout, b: Addr, w: Slot)
    requires Shape(g, root, l) && b in g && b != root && w.addr != b
    requires Has(g, w.addr, w.key) && At(g, w.addr, w.key).child == Some(b)
    ensures Shrunk(g, root, l, PrunedHeap(g, b, w), WithoutNode(l, b))
  {
    ShrunkReflexive(g, root, l);
  }

  /** One step up of an erase. */
  lemma PruneStep(g: Heap, root: Addr, l: Layout, b: Addr)
    requires Shape(g, root, l) && b in g && b != root && IsEmptyNode(g, b) && NoEmptyBut(g, root, b)
    ensures b in l.up && var w := l.up[b];
      && Has(g, w.addr, w.key) && w.addr != b && At(g, w.addr, w.key).child == Some(b)
      && Shape(PrunedHeap(g, b, w), root, WithoutNode(l, b))
      && Contents(PrunedHeap(g, b, w), root, WithoutNode(l, b)) == Contents(g, root, l)
      && Shrunk(g, root, l, PrunedHeap(g, b, w), WithoutNode(l, b))
      && NoEmptyBut(PrunedHeap(g, b, w), root, w.addr)
  {
    assert ParentOk(g, l, b);
    var w := l.up[b];
    var l' := WithoutNode(l, b);
    var n1 := ChildRemoved(g[w.addr], w.key);
    var g1 := (g - {b})[w.addr := n1];
    PruneIsPruned(g, l, w.addr, w.key, b, n1);
    DropChild(g, root, l, w, b, g1, l');
    Touched(g1, root, l', w.addr, PrunedNode(g, w));
    assert g1[w.addr := PrunedNode(g, w)] == PrunedHeap(g, b, w);
    PruneShrinks(g, root, l, b, w);
    forall a | a in PrunedHeap(g, b, w) && a != root && a != w.addr
      ensures !IsEmptyNode(PrunedHeap(g, b, w), a)
    {
      assert !IsEmptyNode(g, a);
    }
  }

  /** The entry that spells a key that is still stored is still there, and keeps its child if keys run through it. */
  lemma SlotSurvives(h: Heap, root: Addr, l: Layout, h': Heap, l': Layout, a: Addr, c: Atom, k: Str)
    requires Tree(h, root, l) && Shape(h', root, l') && Shrunk(h, root, l, h', l')
    requires Contents(h', root, l') == Contents(h, root, l) - {k}
    requires Has(h, a, c) && a in l.at && At(h, a, c).value.Some? && !(Spell(l.at[a], c, At(h, a, c).stem) <= k)
    ensures Has(h', a, c) && At(h', a, c).value.Some? && At(h', a, c).child == At(h, a, c).child
  {
    var q := Spell(l.at[a], c, At(h, a, c).stem);
    SlotIsFound(h, root, l, a, c);
    ContentsIsLookup(h, root, l, q);
    assert q in Contents(h', root, l');
    ContentsIsLookup(h', root, l', q);
    FoundIsSpelled(h', root, l', root, q);
    var w := Find(h', root, q).value;
    assert l'.at[root] + q == q && w.addr in l'.at;
    SlotIsFound(h, root, l, w.addr, w.key);
    if At(h, a, c).child.Some? {
      ChildSurvives(h, root, l, h', l', a, c, k);
    }
  }

  lemma ChildSurvives(h: Heap, root: Addr, l: Layout, h': Heap, l': Layout, a: Addr, c: Atom, k: Str)
    requires Tree(h, root, l) && Shape(h', root, l') && Shrunk(h, root, l, h', l')
    requires Contents(h', root, l') == Contents(h, root, l) - {k}
    requires Has(h, a, c) && a in l.at && !(Spell(l.at[a], c, At(h, a, c).stem) <= k)
    requires Has(h', a, c) && At(h, a, c).child.Some?
    ensures At(h', a, c).child.Some?
  {
    hide TrieModel.Contents;
    var q := Spell(l.at[a], c, At(h, a, c).stem);
    var b := At(h, a, c).child.value;
    ChildIsDeeper(h, root, l, a, c);
    assert !IsEmptyNode(h, b);
    var d :| d in h[b].entries;
    var t := KeyThrough(h, root, l, b, d);
    SpellAt(q, d, At(h, b, d).stem);
    SpellAt(l.at[a], c, At(h, a, c).stem);
    assert a in l'.at && t in Contents(h', root, l');
    Enters(h', root, l', a, t);
  }

  /** A path to a key that is still stored is still a path. */
  lemma OnKeySurvives(h: Heap, root: Addr, l: Layout, h': Heap, l': Layout, prefix: Str, stack: seq<Position>, k: Str)
    requires Tree(h, root, l) && Shape(h', root, l') && Shrunk(h, root, l, h', l')
    requires Contents(h', root, l') == Contents(h, root, l) - {k}
    requires OnKey(h, root, l, prefix, stack) && (stack != [] ==> !(prefix <= k))
    ensures OnKey(h', root, l', prefix, stack)
  {
    if stack != [] {
      var m := |stack| - 1;
      var p := stack[m];
      ChainNode(h, root, l, stack, m);
      SlotSurvives(h, root, l, h', l', p.addr, p.key.value, k);
      forall i | 0 <= i <= m
        ensures Fits(h', stack[i]) && (i < m ==> EntryAt(h', stack[i]).child == EntryAt(h, stack[i]).child)
      {
        PathSurvives(h, root, l, h', l', stack, i);
      }
      ChainKept(h, h', root, stack);
      assert p.addr in l'.at;
    }
  }

  lemma {:induction false} PathSurvives(h: Heap, root: Addr, l: Layout, h': Heap, l': Layout, stack: seq<Position>, i: nat)
    requires Shape(h, root, l) && Shape(h', root, l') && Shrunk(h, root, l, h', l')
    requires Chain(h, root, stack) && i < |stack|
    requires var p := stack[|stack| - 1]; Fits(h, p) && Has(h', p.addr, p.key.value)
    ensures Fits(h', stack[i])
    ensures i < |stack| - 1 ==> EntryAt(h', stack[i]).child == EntryAt(h, stack[i]).child
    decreases |stack| - i
  {
    var p := stack[i];
    assert Fits(h, p);
    if i < |stack| - 1 {
      PathSurvives(h, root, l, h', l', stack, i + 1);
      var b := stack[i + 1].addr;
      assert Fits(h, stack[i + 1]) && b in h';
      assert NextAddr(h, root, stack, i + 1) == Some(b);
      assert EntryOk(h, root, l, p.addr, p.key.value);
      assert b != root;
      assert ParentOk(h', l', b);
      assert b in l'.up;
    }
  }

  /** A state on the way up: the key is gone and nothing else, and only node `b` may be empty. */
  ghost predicate Erasing(h: Heap, root: Addr, l: Layout, k: Str, g: Heap, lg: Layout, b: Addr)
  {
    && Shape(g, root, lg) && Contents(g, root, lg) == Contents(h, root, l) - {k}
    && Shrunk(h, root, l, g, lg) && NoEmptyBut(g, root, b) && b in g
  }

  lemma ErasingStarts(h: Heap, root: Addr, l: Layout, a: Addr, c: Atom, k: Str)
    requires Tree(h, root, l) && Has(h, a, c) && At(h, a, c).value.Some? && a in l.at
    requires k == Spell(l.at[a], c, At(h, a, c).stem)
    ensures Erasing(h, root, l, k, h[a := Erased(h[a], c, true)], l, a)
  {
    EraseFirst(h, root, l, a, c);
    EraseShrinks(h, root, l, a, c);
  }

  lemma ErasingClimbs(h: Heap, root: Addr, l: Layout, k: Str, g: Heap, lg: Layout, b: Addr)
    requires Tree(h, root, l) && Erasing(h, root, l, k, g, lg, b) && IsEmptyNode(g, b) && b != root
    ensures b in l.up && var w := l.up[b];
      && Has(g, w.addr, w.key) && w.addr != b && At(g, w.addr, w.key).child == Some(b)
      && Erasing(h, root, l, k, PrunedHeap(g, b, w), WithoutNode(lg, b), w.addr)
  {
    assert b in lg.up;
    PruneStep(g, root, lg, b);
    ShrunkTransitive(h, root, l, g, lg, PrunedHeap(g, b, l.up[b]), WithoutNode(lg, b));
  }

  lemma ErasingEnds(h: Heap, root: Addr, l: Layout, k: Str, g: Heap, lg: Layout, b: Addr)
    requires Erasing(h, root, l, k, g, lg, b) && b in g && (!IsEmptyNode(g, b) || b == root)
    ensures Tree(g, root, lg) && Contents(g, root, lg) == Contents(h, root, l) - {k} && Shrunk(h, root, l, g, lg)
  {
    forall a | a in g && a != root
      ensures !IsEmptyNode(g, a)
    {
    }
  }

  /** The parent of a node on a path is the position before it. */
  lemma ChainUp(h: Heap, root: Addr, l: Layout, stack: seq<Position>, i: nat)
    requires Shape(h, root, l) && Chain(h, root, stack) && i < |stack|
    ensures i == 0 ==> stack[i].addr == root
    ensures i > 0 ==> stack[i].addr != root && stack[i].addr in l.up && stack[i - 1].key.Some?
                      && l.up[stack[i].addr] == Slot(stack[i - 1].addr, stack[i - 1].key.value)
  {
    assert NextAddr(h, root, stack, i) == Some(stack[i].addr);
    if i > 0 {
      var p := stack[i - 1];
      assert Fits(h, p);
      assert EntryOk(h, root, l, p.addr, p.key.value);
    }
  }

  lemma NotBefore(k: Str, prefix: Str)
    requires Less(k, prefix)
    ensures !(prefix <= k)
  {
    if prefix <= k {
      LessIrreflexive(k);
      if prefix != k {
        LessExtension(prefix, k);
      }
      LessAsymmetric(k, prefix);
    }
  }

  lemma AboveWithout(m: map<Str, Value>, k: Str)
    ensures Above(m - {k}, k, false) == Above(m, k, false)
  {
    LessIrreflexive(k);
  }

  /** The state after an erase, and the iterator that was moved to the successor before it. */
  lemma AfterErase(s: Snapshot, l: Layout, t: Snapshot, l': Layout, k: Str, prefix: Str, stack: seq<Position>)
    requires Tree(s.nodes, s.root, l) && Tree(t.nodes, t.root, l') && s.root == t.root && s.version < t.version
    requires Shrunk(s.nodes, s.root, l, t.nodes, l')
    requires k in Contents(s.nodes, s.root, l) && Contents(t.nodes, t.root, l') == Contents(s.nodes, s.root, l) - {k}
    requires OnKey(s.nodes, s.root, l, prefix, stack)
    requires stack != [] ==> Less(k, prefix)
    ensures Evolves(s, t) && OnKey(t.nodes, t.root, l', prefix, stack)
    ensures Above(Contents(t.nodes, t.root, l'), k, false) == Above(Contents(s.nodes, s.root, l), k, false)
  {
    var m := Contents(s.nodes, s.root, l);
    AboveWithout(m, k);
    if stack != [] {
      NotBefore(k, prefix);
    }
    KeptByOperation(s, t, l, l');
    OnKeySurvives(s.nodes, s.root, l, t.nodes, l', prefix, stack, k);
  }

  lemma OneLess(m: map<Str, Value>, k: Str)
    requires k in m
    ensures |m - {k}| == |m| - 1
  {
    assert (m - {k}).Keys == m.Keys - {k};
  }
}
