/** The elementary changes that node operations make to a trie, and what each does to the stored map. */
module TrieChange {
  import opened Common
  import opened Lex
  import opened TrieModel

  /** A trie stores the map `m` when its entries hold exactly the pairs of `m`. */
  lemma ContentsFromStored(h: Heap, root: Addr, l: Layout, m: map<Str, Value>)
    requires Shape(h, root, l)
    requires forall s, v :: Stored(h, l, s, v) <==> s in m && m[s] == v
    ensures Contents(h, root, l) == m
  {
    var k := Contents(h, root, l);
    forall s
      ensures s in k <==> s in m
      ensures s in k && s in m ==> k[s] == m[s]
    {
      if s in m {
        LookupIffStored(h, root, l, s, m[s]);
      }
      if s in k {
        LookupIffStored(h, root, l, s, k[s]);
      }
    }
  }

  /** The same slots hold the same pairs before and after: only `w` may differ. */
  ghost predicate SameHeld(h: Heap, l: Layout, h': Heap, l': Layout, w: Slot)
  {
    && (forall a, c, s, v | Slot(a, c) != w :: Holds(h, l, a, c, s, v) <==> Holds(h', l', a, c, s, v))
  }

  ghost predicate HoldsNothing(h: Heap, l: Layout, w: Slot)
  {
    !Has(h, w.addr, w.key) || At(h, w.addr, w.key).value.None?
  }

  /** One slot that held nothing now holds `(k, v)`. */
  lemma ContentsGains(h: Heap, l: Layout, h': Heap, l': Layout, root: Addr, w: Slot, k: Str, v: Value)
    requires Shape(h, root, l) && Shape(h', root, l')
    requires SameHeld(h, l, h', l', w) && HoldsNothing(h, l, w) && Holds(h', l', w.addr, w.key, k, v)
    ensures k !in Contents(h, root, l)
    ensures Contents(h', root, l') == Contents(h, root, l)[k := v]
  {
    var m := Contents(h, root, l);
    if k in m {
      LookupIffStored(h, root, l, k, m[k]);
      var a, c :| Holds(h, l, a, c, k, m[k]);
      SlotIsFound(h', root, l', a, c);
      SlotIsFound(h', root, l', w.addr, w.key);
      assert false;
    }
    forall s, x
      ensures Stored(h', l', s, x) <==> s in m[k := v] && m[k := v][s] == x
    {
      LookupIffStored(h, root, l, s, x);
      if Stored(h', l', s, x) {
        var a, c :| Holds(h', l', a, c, s, x);
        assert Slot(a, c) != w ==> Holds(h, l, a, c, s, x);
      }
      if s in m && m[s] == x {
        var a, c :| Holds(h, l, a, c, s, x);
        assert Holds(h', l', a, c, s, x);
      }
    }
    ContentsFromStored(h', root, l', m[k := v]);
  }

  /** One slot that held `(k, v)` now holds nothing. */
  lemma ContentsLoses(h: Heap, l: Layout, h': Heap, l': Layout, root: Addr, w: Slot, k: Str, v: Value)
    requires Shape(h, root, l) && Shape(h', root, l')
    requires SameHeld(h, l, h', l', w) && Holds(h, l, w.addr, w.key, k, v) && HoldsNothing(h', l', w)
    ensures k in Contents(h, root, l)
    ensures Contents(h', root, l') == Contents(h, root, l) - {k}
  {
    var m := Contents(h, root, l);
    var m' := Contents(h', root, l');
    ContentsGains(h', l', h, l, root, w, k, v);
    assert m == m'[k := v] && k !in m';
    assert m - {k} == m';
  }

  lemma ContentsKept(h: Heap, l: Layout, h': Heap, l': Layout, root: Addr)
    requires Shape(h, root, l) && Shape(h', root, l')
    requires forall s, v :: Stored(h, l, s, v) <==> Stored(h', l', s, v)
    ensures Contents(h', root, l') == Contents(h, root, l)
  {
    var m := Contents(h, root, l);
    forall s, x
      ensures Stored(h', l', s, x) <==> s in m && m[s] == x
    {
      LookupIffStored(h, root, l, s, x);
    }
    ContentsFromStored(h', root, l', m);
  }

  // ----- entries and values -----

  /** Two heaps that agree on every entry but the one at `w`. */
  ghost predicate AgreeBut(h: Heap, h': Heap, w: Slot)
  {
    && h'.Keys == h.Keys
    && (forall a, d {:trigger Has(h, a, d)} {:trigger Has(h', a, d)} | Slot(a, d) != w ::
          (Has(h, a, d) <==> Has(h', a, d)) && (Has(h, a, d) ==> At(h', a, d) == At(h, a, d)))
  }

  /** Changing one entry without touching its stem or child keeps the shape, if the entry stays useful. */
  lemma ShapeKept(h: Heap, h': Heap, root: Addr, l: Layout, w: Slot)
    requires Shape(h, root, l) && AgreeBut(h, h', w)
    requires Has(h', w.addr, w.key) && EntryOk(h', root, l, w.addr, w.key)
    requires if Has(h, w.addr, w.key)
      then At(h', w.addr, w.key).stem == At(h, w.addr, w.key).stem && At(h', w.addr, w.key).child == At(h, w.addr, w.key).child
      else At(h', w.addr, w.key).child.None?
    ensures Shape(h', root, l)
    ensures SameHeld(h, l, h', l, w)
  {
    forall b | b in h' && b != root
      ensures ParentOk(h', l, b)
    {
      assert ParentOk(h, l, b);
    }
    forall a, d | Has(h', a, d)
      ensures EntryOk(h', root, l, a, d)
    {
      if Slot(a, d) != w {
        assert EntryOk(h, root, l, a, d);
      }
    }
  }

  lemma AddEntry(h: Heap, root: Addr, l: Layout, n: Addr, c: Atom, stem: Str, v: Value, n': Node)
    requires Shape(h, root, l) && n in h && c !in h[n].entries
    requires n'.entries == h[n].entries[c := Entry(None, stem, Some(v))]
    ensures var h' := h[n := n']; var k := Spell(l.at[n], c, stem);
      && Shape(h', root, l)
      && k !in Contents(h, root, l)
      && Contents(h', root, l) == Contents(h, root, l)[k := v]
  {
    var h' := h[n := n'];
    ShapeKept(h, h', root, l, Slot(n, c));
    assert Holds(h', l, n, c, Spell(l.at[n], c, stem), v);
    ContentsGains(h, l, h', l, root, Slot(n, c), Spell(l.at[n], c, stem), v);
  }

  /** Putting a value on an entry that is already there. */
  lemma PutValue(h: Heap, root: Addr, l: Layout, n: Addr, c: Atom, v: Value, n': Node)
    requires Shape(h, root, l) && Has(h, n, c) && At(h, n, c).value.None?
    requires n'.entries == h[n].entries[c := At(h, n, c).(value := Some(v))]
    ensures var h' := h[n := n']; var k := Spell(l.at[n], c, At(h, n, c).stem);
      && Shape(h', root, l)
      && k !in Contents(h, root, l)
      && Contents(h', root, l) == Contents(h, root, l)[k := v]
  {
    var h' := h[n := n'];
    var k := Spell(l.at[n], c, At(h, n, c).stem);
    assert EntryOk(h, root, l, n, c);
    ShapeKept(h, h', root, l, Slot(n, c));
    assert Holds(h', l, n, c, k, v);
    ContentsGains(h, l, h', l, root, Slot(n, c), k, v);
  }

  /** Wiping the value of an entry that has a child. */
  lemma DropValue(h: Heap, root: Addr, l: Layout, n: Addr, c: Atom, n': Node)
    requires Shape(h, root, l) && Has(h, n, c) && At(h, n, c).value.Some? && At(h, n, c).child.Some?
    requires n'.entries == h[n].entries[c := At(h, n, c).(value := None)]
    ensures var h' := h[n := n']; var k := Spell(l.at[n], c, At(h, n, c).stem);
      && Shape(h', root, l)
      && k in Contents(h, root, l)
      && Contents(h', root, l) == Contents(h, root, l) - {k}
  {
    var h' := h[n := n'];
    var k := Spell(l.at[n], c, At(h, n, c).stem);
    assert EntryOk(h, root, l, n, c);
    ShapeKept(h, h', root, l, Slot(n, c));
    assert Holds(h, l, n, c, k, At(h, n, c).value.value);
    ContentsLoses(h, l, h', l, root, Slot(n, c), k, At(h, n, c).value.value);
  }

  /** Removing an entry that has a value and no child. */
  lemma DropEntry(h: Heap, root: Addr, l: Layout, n: Addr, c: Atom, n': Node)
    requires Shape(h, root, l) && Has(h, n, c) && At(h, n, c).value.Some? && At(h, n, c).child.None?
    requires n'.entries == h[n].entries - {c}
    ensures var h' := h[n := n']; var k := Spell(l.at[n], c, At(h, n, c).stem);
      && Shape(h', root, l)
      && k in Contents(h, root, l)
      && Contents(h', root, l) == Contents(h, root, l) - {k}
  {
    var h' := h[n := n'];
    var k := Spell(l.at[n], c, At(h, n, c).stem);
    assert AgreeBut(h, h', Slot(n, c));
    forall b | b in h' && b != root
      ensures ParentOk(h', l, b)
    {
      assert ParentOk(h, l, b);
    }
    forall a, d | Has(h', a, d)
      ensures EntryOk(h', root, l, a, d)
    {
      assert EntryOk(h, root, l, a, d);
    }
    assert Holds(h, l, n, c, k, At(h, n, c).value.value);
    ContentsLoses(h, l, h', l, root, Slot(n, c), k, At(h, n, c).value.value);
  }

  // ----- children -----

  /** `h'` has one node more than `h`, at `b`, and differs from it otherwise at most in the entry at `w`. */
  ghost predicate GrowsBut(h: Heap, l: Layout, h': Heap, l': Layout, w: Slot, b: Addr)
  {
    && b !in h && h'.Keys == h.Keys + {b} && l.at.Keys == h.Keys && l'.at.Keys == h'.Keys
    && (forall a | a in h :: l'.at[a] == l.at[a])
    && (forall a, d {:trigger Has(h, a, d)} {:trigger Has(h', a, d)} | Slot(a, d) != w && a != b ::
          (Has(h, a, d) <==> Has(h', a, d)) && (Has(h, a, d) ==> At(h', a, d) == At(h, a, d)))
  }

  lemma GrownParent(h: Heap, l: Layout, h': Heap, l': Layout, w: Slot, b: Addr, d: Addr)
    requires GrowsBut(h, l, h', l', w, b) && ParentOk(h, l, d)
    requires d in l'.up && l'.up[d] == l.up[d] && d in h
    requires l.up[d] == w ==> Has(h', w.addr, w.key) && At(h', w.addr, w.key).child == Some(d)
                              && At(h', w.addr, w.key).stem == At(h, w.addr, w.key).stem
    ensures ParentOk(h', l', d)
  {
    var p := l.up[d];
    assert Has(h, p.addr, p.key);
  }

  lemma GrownEntry(h: Heap, root: Addr, l: Layout, h': Heap, l': Layout, w: Slot, b: Addr, a: Addr, d: Atom)
    requires GrowsBut(h, l, h', l', w, b) && Has(h', a, d) && a != b && Slot(a, d) != w
    requires Has(h, a, d) && EntryOk(h, root, l, a, d)
    requires var k := At(h, a, d).child; k.Some? ==> k.value in l'.up && l'.up[k.value] == l.up[k.value]
    ensures EntryOk(h', root, l', a, d)
    ensures forall s, v :: Holds(h, l, a, d, s, v) <==> Holds(h', l', a, d, s, v)
  {
  }

  function WithNode(l: Layout, b: Addr, s: Str, w: Slot): Layout
  {
    Layout(l.at[b := s], l.up[b := w])
  }

  lemma AddChildShape(h: Heap, root: Addr, l: Layout, w: Slot, b: Addr, h': Heap, l': Layout)
    requires Shape(h, root, l) && Has(h, w.addr, w.key) && At(h, w.addr, w.key).child.None?
    requires GrowsBut(h, l, h', l', w, b) && h'[b].entries == map[]
    requires Has(h', w.addr, w.key) && At(h', w.addr, w.key) == At(h, w.addr, w.key).(child := Some(b))
    requires l' == WithNode(l, b, Spell(l.at[w.addr], w.key, At(h, w.addr, w.key).stem), w)
    ensures Shape(h', root, l')
    ensures forall a, d, s, v :: Holds(h, l, a, d, s, v) <==> Holds(h', l', a, d, s, v)
  {
    forall d | d in h' && d != root
      ensures ParentOk(h', l', d)
    {
      if d != b {
        assert ParentOk(h, l, d);
        GrownParent(h, l, h', l', w, b, d);
      }
    }
    forall a, d | Has(h', a, d)
      ensures EntryOk(h', root, l', a, d)
    {
      assert a != b && Has(h, a, d) && EntryOk(h, root, l, a, d);
      if Slot(a, d) != w {
        GrownEntry(h, root, l, h', l', w, b, a, d);
      }
    }
  }

  lemma SameHeldSameContents(h: Heap, root: Addr, l: Layout, h': Heap, l': Layout)
    requires Shape(h, root, l) && Shape(h', root, l')
    requires forall a, d, s, v :: Holds(h, l, a, d, s, v) <==> Holds(h', l', a, d, s, v)
    ensures Contents(h', root, l') == Contents(h, root, l)
  {
    forall s, v
      ensures Stored(h, l, s, v) <==> Stored(h', l', s, v)
    {
      if Stored(h, l, s, v) {
        var a, d :| Holds(h, l, a, d, s, v);
        assert Holds(h', l', a, d, s, v);
      }
      if Stored(h', l', s, v) {
        var a, d :| Holds(h', l', a, d, s, v);
        assert Holds(h, l, a, d, s, v);
      }
    }
    ContentsKept(h, l, h', l', root);
  }

  /** Hanging a fresh empty node below an entry. */
  lemma AddChild(h: Heap, root: Addr, l: Layout, n: Addr, c: Atom, b: Addr, n': Node, b': Node)
    requires Shape(h, root, l) && Has(h, n, c) && At(h, n, c).child.None? && b !in h
    requires n'.entries == h[n].entries[c := At(h, n, c).(child := Some(b))] && b'.entries == map[]
    ensures var h' := h[n := n'][b := b'];
      var l' := WithNode(l, b, Spell(l.at[n], c, At(h, n, c).stem), Slot(n, c));
      && Shape(h', root, l')
      && Contents(h', root, l') == Contents(h, root, l)
  {
    var h' := h[n := n'][b := b'];
    var l' := WithNode(l, b, Spell(l.at[n], c, At(h, n, c).stem), Slot(n, c));
    AddChildShape(h, root, l, Slot(n, c), b, h', l');
    SameHeldSameContents(h, root, l, h', l');
  }

  lemma DropChildShape(h: Heap, root: Addr, l: Layout, w: Slot, b: Addr, h': Heap, l': Layout)
    requires Shape(h', root, l') && Has(h', w.addr, w.key) && At(h', w.addr, w.key).child == Some(b)
    requires b in h' && h'[b].entries == map[] && l == Layout(l'.at - {b}, l'.up - {b})
    requires GrowsBut(h, l, h', l', w, b)
    requires if At(h', w.addr, w.key).value.Some?
      then Has(h, w.addr, w.key) && At(h, w.addr, w.key) == At(h', w.addr, w.key).(child := None)
      else !Has(h, w.addr, w.key)
    requires b != root
    ensures Shape(h, root, l)
    ensures forall a, d, s, v :: Holds(h, l, a, d, s, v) <==> Holds(h', l', a, d, s, v)
  {
    forall d | d in h && d != root
      ensures ParentOk(h, l, d)
    {
      assert ParentOk(h', l', d);
      var p := l'.up[d];
      assert Has(h', p.addr, p.key) && p.addr != b;
    }
    forall a, d | Has(h, a, d)
      ensures EntryOk(h, root, l, a, d)
    {
      assert EntryOk(h', root, l', a, d) && EntryOk(h', root, l', w.addr, w.key);
    }
  }

  /** Node `b` is taken out and entry `w`, which referred to it, loses the reference, or goes if it has no value. */
  ghost predicate IsPruned(h: Heap, l: Layout, h': Heap, l': Layout, w: Slot, b: Addr)
  {
    && GrowsBut(h', l', h, l, w, b) && l' == Layout(l.at - {b}, l.up - {b})
    && Has(h, w.addr, w.key)
    && if At(h, w.addr, w.key).value.Some?
       then Has(h', w.addr, w.key) && At(h', w.addr, w.key) == At(h, w.addr, w.key).(child := None)
       else !Has(h', w.addr, w.key)
  }

  lemma PruneIsPruned(h: Heap, l: Layout, n: Addr, c: Atom, b: Addr, n': Node)
    requires Has(h, n, c) && b in h && b != n && l.at.Keys == h.Keys
    requires n'.entries == if At(h, n, c).value.Some? then h[n].entries[c := At(h, n, c).(child := None)]
                           else h[n].entries - {c}
    ensures IsPruned(h, l, (h - {b})[n := n'], Layout(l.at - {b}, l.up - {b}), Slot(n, c), b)
  {
  }

  /** Removing an empty node together with the reference to it. */
  lemma DropChild(h: Heap, root: Addr, l: Layout, w: Slot, b: Addr, h': Heap, l': Layout)
    requires Shape(h, root, l) && IsPruned(h, l, h', l', w, b)
    requires At(h, w.addr, w.key).child == Some(b) && h[b].entries == map[]
    ensures Shape(h', root, l') && Contents(h', root, l') == Contents(h, root, l)
  {
    assert EntryOk(h, root, l, w.addr, w.key);
    DropChildShape(h', root, l', w, b, h, l);
    SameHeldSameContents(h', root, l', h, l);
  }

  // ----- splitting a stem -----

  /** The layout after the tail of entry `(n, c)` moved into node `b`. */
  function SplitLayout(h: Heap, l: Layout, n: Addr, c: Atom, m: nat, b: Addr): Layout
    requires Has(h, n, c) && n in l.at && m < |At(h, n, c).stem|
  {
    var e := At(h, n, c);
    var l1 := WithNode(l, b, Spell(l.at[n], c, e.stem[..m]), Slot(n, c));
    if e.child.None? then l1 else l1.(up := l1.up[e.child.value := Slot(b, e.stem[m])])
  }

  ghost predicate IsSplit(h: Heap, h': Heap, l: Layout, l': Layout, n: Addr, c: Atom, m: nat, b: Addr)
  {
    && Has(h, n, c) && n in l.at && m < |At(h, n, c).stem|
    && l' == SplitLayout(h, l, n, c, m, b)
    && GrowsBut(h, l, h', l', Slot(n, c), b)
    && var e := At(h, n, c);
    && Has(h', n, c) && At(h', n, c) == Entry(Some(b), e.stem[..m], None)
    && h'[b].entries == map[e.stem[m] := Entry(e.child, e.stem[m + 1..], e.value)]
  }

  lemma SplitSpelling(p: Str, c: Atom, stem: Str, m: nat)
    requires m < |stem|
    ensures Spell(Spell(p, c, stem[..m]), stem[m], stem[m + 1..]) == Spell(p, c, stem)
  {
    assert stem == stem[..m] + [stem[m]] + stem[m + 1..];
  }

  lemma SplitParent(h: Heap, root: Addr, l: Layout, n: Addr, c: Atom, m: nat, b: Addr, h': Heap, l': Layout, d: Addr)
    requires Shape(h, root, l) && IsSplit(h, h', l, l', n, c, m, b) && d in h' && d != root
    ensures ParentOk(h', l', d)
  {
    var e := At(h, n, c);
    SplitSpelling(l.at[n], c, e.stem, m);
    assert EntryOk(h, root, l, n, c);
    if d != b {
      assert ParentOk(h, l, d);
      if e.child == Some(d) {
        assert Has(h', b, e.stem[m]);
      } else {
        GrownParent(h, l, h', l', Slot(n, c), b, d);
      }
    }
  }

  lemma SplitEntryOk(h: Heap, root: Addr, l: Layout, n: Addr, c: Atom, m: nat, b: Addr, h': Heap, l': Layout,
                     a: Addr, d: Atom)
    requires Shape(h, root, l) && IsSplit(h, h', l, l', n, c, m, b) && Has(h', a, d)
    ensures EntryOk(h', root, l', a, d)
  {
    assert EntryOk(h, root, l, n, c);
    if a != b && Slot(a, d) != Slot(n, c) {
      assert Has(h, a, d) && EntryOk(h, root, l, a, d);
      GrownEntry(h, root, l, h', l', Slot(n, c), b, a, d);
    }
  }

  lemma SplitShape(h: Heap, root: Addr, l: Layout, n: Addr, c: Atom, m: nat, b: Addr, h': Heap, l': Layout)
    requires Shape(h, root, l) && IsSplit(h, h', l, l', n, c, m, b)
    ensures Shape(h', root, l')
  {
    forall d | d in h' && d != root
      ensures ParentOk(h', l', d)
    {
      SplitParent(h, root, l, n, c, m, b, h', l', d);
    }
    forall a, d | Has(h', a, d)
      ensures EntryOk(h', root, l', a, d)
    {
      SplitEntryOk(h, root, l, n, c, m, b, h', l', a, d);
    }
  }

  lemma SplitKeepsStored(h: Heap, root: Addr, l: Layout, n: Addr, c: Atom, m: nat, b: Addr, h': Heap, l': Layout,
                         s: Str, v: Value)
    requires Shape(h, root, l) && IsSplit(h, h', l, l', n, c, m, b)
    ensures Stored(h, l, s, v) <==> Stored(h', l', s, v)
  {
    var e := At(h, n, c);
    SplitSpelling(l.at[n], c, e.stem, m);
    if Stored(h, l, s, v) {
      var a, d :| Holds(h, l, a, d, s, v);
      if Slot(a, d) == Slot(n, c) {
        assert Holds(h', l', b, e.stem[m], s, v);
      } else {
        assert Holds(h', l', a, d, s, v);
      }
    }
    if Stored(h', l', s, v) {
      var a, d :| Holds(h', l', a, d, s, v);
      if a == b {
        assert Holds(h, l, n, c, s, v);
      } else {
        assert Slot(a, d) != Slot(n, c);
        assert Holds(h, l, a, d, s, v);
      }
    }
  }

  /** A split moves the end of an entry one node down and changes no stored pair. */
  lemma Split(h: Heap, root: Addr, l: Layout, n: Addr, c: Atom, m: nat, b: Addr, h': Heap, l': Layout)
    requires Shape(h, root, l) && IsSplit(h, h', l, l', n, c, m, b)
    ensures Shape(h', root, l') && Contents(h', root, l') == Contents(h, root, l)
  {
    SplitShape(h, root, l, n, c, m, b, h', l');
    forall s, v
      ensures Stored(h, l, s, v) <==> Stored(h', l', s, v)
    {
      SplitKeepsStored(h, root, l, n, c, m, b, h', l', s, v);
    }
    ContentsKept(h, l, h', l', root);
  }
}
