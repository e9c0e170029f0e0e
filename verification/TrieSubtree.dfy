/** Taking away everything below an entry: the nodes of a subtree are exactly those that sit at continuations of
    the entry's string, and the keys they hold are exactly the stored keys that properly continue it. */
module TrieSubtree {
  import opened Common
  import opened Lex
  import opened TrieModel
  import opened TriePath
  import opened TrieOrder
  import opened TrieSearch
  import opened TrieChange
  import opened TrieErase
  import opened TrieMoves
  import opened TrieVersions
  import opened NodeSteps

  /** The nodes that sit at `q` or further down. */
  ghost function Below(h: Heap, l: Layout, q: Str): set<Addr>
  {
    set n | n in h && n in l.at && q <= l.at[n]
  }

  /** The stored keys that node `n` holds itself. */
  ghost function KeysOf(h: Heap, l: Layout, n: Addr): set<Str>
  {
    set c | n in h && n in l.at && c in h[n].entries && h[n].entries[c].value.Some? :: Spell(l.at[n], c, h[n].entries[c].stem)
  }

  ghost function KeysIn(h: Heap, l: Layout, nodes: set<Addr>): set<Str>
  {
    set n, c | n in nodes && n in h && n in l.at && c in h[n].entries && h[n].entries[c].value.Some?
      :: Spell(l.at[n], c, h[n].entries[c].stem)
  }

  /** A node below `q` whose parent is not is the node directly below the entry that spells `q`. */
  lemma SubtreeTop(h: Heap, root: Addr, l: Layout, a: Addr, c: Atom, y: Addr)
    requires Shape(h, root, l) && Has(h, a, c) && a in l.at && y in h && y != root
    requires var q := Spell(l.at[a], c, At(h, a, c).stem);
      y in Below(h, l, q) && y in l.up && l.up[y].addr !in Below(h, l, q)
    ensures l.up[y] == Slot(a, c) && At(h, a, c).child == Some(y)
  {
    var q := Spell(l.at[a], c, At(h, a, c).stem);
    assert ParentOk(h, l, y);
    var x, d := l.up[y].addr, l.up[y].key;
    SlotIsFound(h, root, l, a, c);
    SpellAt(l.at[x], d, At(h, x, d).stem);
    var tail := q[|l.at[x]|..];
    assert l.at[x] <= q && l.at[x] + tail == q;
    assert tail[0] == q[|l.at[x]|] == l.at[y][|l.at[x]|] == d;
    FindDescends(h, root, l, x, tail);
    FindEnters(h, x, tail);
    JoinSpell(l.at[x], d, At(h, x, d).stem, tail[1 + |At(h, x, d).stem|..]);
    assert l.at[y] <= q;
    assert l.at[y] == q;
  }

  /** The keys held below `q` are the stored keys that properly continue `q`. */
  lemma KeysBelow(h: Heap, root: Addr, l: Layout, a: Addr, c: Atom)
    requires Shape(h, root, l) && Has(h, a, c) && a in l.at && At(h, a, c).child.Some?
    ensures var q := Spell(l.at[a], c, At(h, a, c).stem);
      KeysIn(h, l, Below(h, l, q)) == Under(Contents(h, root, l), q)
  {
    var q := Spell(l.at[a], c, At(h, a, c).stem);
    var m := Contents(h, root, l);
    var b := At(h, a, c).child.value;
    ChildIsDeeper(h, root, l, a, c);
    forall t | t in Under(m, q)
      ensures t in KeysIn(h, l, Below(h, l, q))
    {
      ContentsIsLookup(h, root, l, t);
      var tail := t[|q|..];
      assert l.at[b] + tail == t;
      FindDescends(h, root, l, b, tail);
      FoundIsSpelled(h, root, l, b, tail);
      var w := Find(h, b, tail).value;
      assert w.addr in Below(h, l, q) && w.key in h[w.addr].entries;
    }
    forall t | t in KeysIn(h, l, Below(h, l, q))
      ensures t in Under(m, q)
    {
      var n, d :| n in Below(h, l, q) && d in h[n].entries && h[n].entries[d].value.Some?
                  && t == Spell(l.at[n], d, h[n].entries[d].stem);
      assert Has(h, n, d);
      NotStoredWithoutValue(h, root, l, n, d);
      SpellAt(l.at[n], d, At(h, n, d).stem);
    }
  }

  /** The state after the subtree below entry `(a, c)` is gone. */
  ghost predicate IsCut(h: Heap, l: Layout, h': Heap, l': Layout, a: Addr, c: Atom, q: Str)
  {
    && Has(h, a, c) && a in l.at && At(h, a, c).child.Some? && At(h, a, c).value.Some?
    && q == Spell(l.at[a], c, At(h, a, c).stem)
    && h'.Keys == h.Keys - Below(h, l, q) && a in h'
    && h'[a] == ChildRemoved(h[a], c)
    && (forall x | x in h' && x != a :: h'[x] == h[x])
    && l' == Layout(l.at - Below(h, l, q), l.up - Below(h, l, q))
  }

  lemma CutShrinks(h: Heap, root: Addr, l: Layout, h': Heap, l': Layout, a: Addr, c: Atom, q: Str)
    requires Tree(h, root, l) && IsCut(h, l, h', l', a, c, q)
    ensures Shrunk(h, root, l, h', l')
  {
    ShrunkReflexive(h, root, l);
  }

  lemma CutEntryOk(h: Heap, root: Addr, l: Layout, h': Heap, l': Layout, a: Addr, c: Atom, q: Str, x: Addr, d: Atom)
    requires Tree(h, root, l) && IsCut(h, l, h', l', a, c, q) && Has(h', x, d)
    ensures EntryOk(h', root, l', x, d)
  {
    assert Has(h, x, d) && EntryOk(h, root, l, x, d);
    var child := At(h', x, d).child;
    if child.Some? && child.value in Below(h, l, q) {
      SubtreeTop(h, root, l, a, c, child.value);
      assert false;
    }
  }

  lemma CutShape(h: Heap, root: Addr, l: Layout, h': Heap, l': Layout, a: Addr, c: Atom, q: Str)
    requires Tree(h, root, l) && IsCut(h, l, h', l', a, c, q)
    ensures Tree(h', root, l') && Shrunk(h, root, l, h', l')
  {
    hide Shrunk;
    CutShrinks(h, root, l, h', l', a, c, q);
    forall x | x in h' && x != root
      ensures ParentOk(h', l', x)
    {
      assert ParentOk(h, l, x);
      var p := l.up[x];
      SpellAt(l.at[p.addr], p.key, At(h, p.addr, p.key).stem);
      assert p.addr !in Below(h, l, q);
      assert p == Slot(a, c) ==> x in Below(h, l, q);
      assert Has(h', p.addr, p.key) && At(h', p.addr, p.key) == At(h, p.addr, p.key);
    }
    forall x, d | Has(h', x, d)
      ensures EntryOk(h', root, l', x, d)
    {
      CutEntryOk(h, root, l, h', l', a, c, q, x, d);
    }
    forall x | x in h' && x != root
      ensures !IsEmptyNode(h', x)
    {
      assert !IsEmptyNode(h, x);
      assert x == a ==> c in h'[a].entries;
    }
  }

  lemma HeldOutside(h: Heap, l: Layout, h': Heap, l': Layout, a: Addr, c: Atom, q: Str, x: Addr, d: Atom, s: Str, v: Value)
    requires IsCut(h, l, h', l', a, c, q) && h.Keys == l.at.Keys
    requires Holds(h, l, x, d, s, v) && s !in KeysIn(h, l, Below(h, l, q))
    ensures Holds(h', l', x, d, s, v)
  {
    hide Below;
    assert x in Below(h, l, q) ==> s in KeysIn(h, l, Below(h, l, q));
  }

  /** Cutting a subtree off removes exactly the keys that properly continue the entry's string. */
  lemma CutContents(h: Heap, root: Addr, l: Layout, h': Heap, l': Layout, a: Addr, c: Atom, q: Str)
    requires Tree(h, root, l) && IsCut(h, l, h', l', a, c, q) && Tree(h', root, l')
    ensures Contents(h', root, l') == Contents(h, root, l) - Under(Contents(h, root, l), q)
  {
    var m := Contents(h, root, l);
    var rest := m - Under(m, q);
    KeysBelow(h, root, l, a, c);
    forall s, v
      ensures Stored(h', l', s, v) <==> s in rest && rest[s] == v
    {
      LookupIffStored(h, root, l, s, v);
      if Stored(h', l', s, v) {
        var x, d :| Holds(h', l', x, d, s, v);
        assert Holds(h, l, x, d, s, v);
        if s in Under(m, q) {
          var y, e :| y in Below(h, l, q) && e in h[y].entries && s == Spell(l.at[y], e, h[y].entries[e].stem);
          assert Has(h, y, e);
          SlotIsFound(h, root, l, x, d);
          SlotIsFound(h, root, l, y, e);
          assert false;
        }
      }
      if s in rest && rest[s] == v {
        var x, d :| Holds(h, l, x, d, s, v);
        HeldOutside(h, l, h', l', a, c, q, x, d, s, v);
      }
    }
    ContentsFromStored(h', root, l', rest);
  }

  /** All of the above for the heap that `prefixed_erase_all` leaves. */
  lemma CutAway(h: Heap, root: Addr, l: Layout, a: Addr, c: Atom, q: Str)
    requires Tree(h, root, l) && Has(h, a, c) && a in l.at && At(h, a, c).child.Some? && At(h, a, c).value.Some?
    requires q == Spell(l.at[a], c, At(h, a, c).stem)
    ensures var all := Below(h, l, q);
      var h' := h[a := ChildRemoved(h[a], c)] - all; var l' := Layout(l.at - all, l.up - all);
      && IsCut(h, l, h', l', a, c, q) && Tree(h', root, l') && Shrunk(h, root, l, h', l')
      && Contents(h', root, l') == Contents(h, root, l) - Under(Contents(h, root, l), q)
      && |KeysIn(h, l, all)| == |Under(Contents(h, root, l), q)|
  {
    var all := Below(h, l, q);
    var h', l' := h[a := ChildRemoved(h[a], c)] - all, Layout(l.at - all, l.up - all);
    SpellAt(l.at[a], c, At(h, a, c).stem);
    assert a !in all;
    CutShape(h, root, l, h', l', a, c, q);
    CutContents(h, root, l, h', l', a, c, q);
    KeysBelow(h, root, l, a, c);
  }

  /** The iterator on the entry stays on it, once its child flag is taken down. */
  lemma CutIterator(h: Heap, root: Addr, l: Layout, h': Heap, l': Layout, a: Addr, c: Atom, q: Str, stack: seq<Position>)
    requires Tree(h, root, l) && IsCut(h, l, h', l', a, c, q) && Tree(h', root, l') && Shrunk(h, root, l, h', l')
    requires OnKey(h, root, l, q, stack) && stack != []
    requires var p := stack[|stack| - 1]; p.addr == a && p.key == Some(c)
    ensures OnKey(h', root, l', q, stack[..|stack| - 1] + [stack[|stack| - 1].(hasChild := false)])
  {
    var m := |stack| - 1;
    forall i | 0 <= i <= m
      ensures Fits(h', stack[i]) && (i < m ==> EntryAt(h', stack[i]).child == EntryAt(h, stack[i]).child)
    {
      PathSurvives(h, root, l, h', l', stack, i);
    }
    ChainKept(h, h', root, stack);
    ChainPrefix(h', root, stack, m);
    assert NextAddr(h', root, stack, m) == Some(stack[m].addr);
    ChainExtend(h', root, stack[..m], stack[m].(hasChild := false));
    assert a in l'.at;
  }

  /** The stored keys that start with `k`. */
  ghost function StartingWith(m: map<Str, Value>, k: Str): set<Str>
  {
    set t | t in m && k <= t
  }

  lemma SplitByPrefix(m: map<Str, Value>, k: Str)
    requires k in m
    ensures |StartingWith(m, k)| == |Under(m, k)| + 1 && |StartingWith(m, k)| <= |m|
    ensures k in m - Under(m, k) && (m - Under(m, k)) - {k} == m - StartingWith(m, k)
    ensures |m - StartingWith(m, k)| == |m| - |StartingWith(m, k)|
  {
    var all := StartingWith(m, k);
    assert all == Under(m, k) + {k} && k !in Under(m, k);
    assert all <= m.Keys;
    Remainder(m.Keys, all);
    assert (m - all).Keys == m.Keys - all;
  }

  lemma Remainder(all: set<Str>, part: set<Str>)
    requires part <= all
    ensures |part| <= |all| && |all - part| == |all| - |part|
  {
    assert all == part + (all - part);
  }

  /** A key whose entry has no child is the only one that starts with itself. */
  lemma NothingBelow(h: Heap, root: Addr, l: Layout, prefix: Str, stack: seq<Position>)
    requires Tree(h, root, l) && OnKey(h, root, l, prefix, stack) && stack != [] && !stack[|stack| - 1].hasChild
    ensures StartingWith(Contents(h, root, l), prefix) == {prefix}
  {
    OnKeyIsStored(h, root, l, prefix, stack);
    OnKeyEntry(h, root, l, prefix, stack);
    var p := stack[|stack| - 1];
    SpellAt(l.at[p.addr], p.key.value, At(h, p.addr, p.key.value).stem);
    forall t | t in Contents(h, root, l) && prefix <= t
      ensures t == prefix
    {
      Enters(h, root, l, p.addr, t);
    }
  }

  /** Cutting a subtree off and then erasing the key above it is one change of the trie. */
  lemma AfterEraseAll(s: Snapshot, l: Layout, s1: Snapshot, l1: Layout, t: Snapshot, l': Layout)
    requires Tree(s.nodes, s.root, l) && Tree(t.nodes, t.root, l') && s.root == s1.root == t.root
    requires Shrunk(s.nodes, s.root, l, s1.nodes, l1) && Shrunk(s1.nodes, s.root, l1, t.nodes, l')
    requires s.version < t.version
    ensures Evolves(s, t)
  {
    ShrunkTransitive(s.nodes, s.root, l, s1.nodes, l1, t.nodes, l');
    KeptByOperation(s, t, l, l');
  }

  // ----- freeing the nodes one by one -----

  /** `children` lists the children of node `n`, each once. */
  ghost predicate ChildrenOf(h: Heap, n: Addr, children: seq<Addr>)
  {
    && Distinct(children)
    && (forall y | y in children :: exists d :: Has(h, n, d) && At(h, n, d).child == Some(y))
    && (forall d | Has(h, n, d) && At(h, n, d).child.Some? :: At(h, n, d).child.value in children)
  }

  /** While a subtree is being freed: `done` are the freed nodes, `stack` holds freed nodes' children that are not
      freed yet, and every other node of the subtree still has its parent. */
  ghost predicate Wiping(h: Heap, l: Layout, top: Addr, all: set<Addr>, done: set<Addr>, stack: seq<Addr>)
  {
    && done <= all && Distinct(stack)
    && (forall x | x in stack :: x in all && x !in done)
    && (forall x | x in done || x in stack :: x == top || (x in l.up && l.up[x].addr in done))
    && (forall x | x in all && x !in done && x !in stack :: x in l.up && l.up[x].addr in all && l.up[x].addr !in done)
  }

  /** Node `top` hangs below entry `(a, c)`, which spells `q`; so node `a` itself is not below `q`. */
  ghost predicate TopOf(h: Heap, l: Layout, a: Addr, c: Atom, top: Addr, q: Str)
  {
    && Has(h, a, c) && a in l.at && q == Spell(l.at[a], c, At(h, a, c).stem)
    && top in h && top in l.up && l.up[top].addr == a
    && q != [] && !(q <= l.at[a])
  }

  lemma WipeStarts(h: Heap, root: Addr, l: Layout, a: Addr, c: Atom, top: Addr)
    requires Shape(h, root, l) && Has(h, a, c) && a in l.at && At(h, a, c).child == Some(top)
    ensures var q := Spell(l.at[a], c, At(h, a, c).stem);
      Wiping(h, l, top, Below(h, l, q), {}, [top]) && TopOf(h, l, a, c, top, q) && KeysIn(h, l, {}) == {}
  {
    var q := Spell(l.at[a], c, At(h, a, c).stem);
    SpellAt(l.at[a], c, At(h, a, c).stem);
    assert EntryOk(h, root, l, a, c);
    ChildIsDeeper(h, root, l, a, c);
    forall x | x in Below(h, l, q) && x != top
      ensures x in l.up && l.up[x].addr in Below(h, l, q)
    {
      assert x != root;
      assert ParentOk(h, l, x);
      if l.up[x].addr !in Below(h, l, q) {
        SubtreeTop(h, root, l, a, c, x);
        assert false;
      }
    }
  }

  lemma RemoveOneMore(h: Heap, done: set<Addr>, n: Addr)
    ensures (h - done) - {n} == h - (done + {n})
  {
  }

  lemma WipeNext(h: Heap, l: Layout, q: Str, top: Addr, done: set<Addr>, stack: seq<Addr>, a: Addr, c: Atom)
    requires Wiping(h, l, top, Below(h, l, q), done, stack) && stack != [] && TopOf(h, l, a, c, top, q)
    ensures var n := stack[|stack| - 1]; n in Below(h, l, q) && n !in done && n in h && n in l.at && n != a
  {
  }

  lemma WipeStep(h: Heap, root: Addr, l: Layout, q: Str, top: Addr, done: set<Addr>, stack: seq<Addr>, children: seq<Addr>,
                 a: Addr, c: Atom)
    requires Shape(h, root, l) && Wiping(h, l, top, Below(h, l, q), done, stack) && stack != []
    requires ChildrenOf(h, stack[|stack| - 1], children) && TopOf(h, l, a, c, top, q)
    ensures var m := |stack| - 1; Wiping(h, l, top, Below(h, l, q), done + {stack[m]}, stack[..m] + children)
  {
    var m := |stack| - 1;
    var n, all := stack[m], Below(h, l, q);
    var done', stack' := done + {n}, stack[..m] + children;
    forall y | y in children
      ensures y in all && y !in done' && y !in stack[..m] && y in l.up && l.up[y].addr == n
    {
      var d :| Has(h, n, d) && At(h, n, d).child == Some(y);
      ChildIsDeeper(h, root, l, n, d);
      assert EntryOk(h, root, l, n, d);
      SpellAt(l.at[n], d, At(h, n, d).stem);
      assert y != top;
      assert y != n;
    }
    forall x | x in all && x !in done' && x !in stack'
      ensures x in l.up && l.up[x].addr in all && l.up[x].addr !in done'
    {
      assert x !in stack && x != root;
      assert ParentOk(h, l, x);
    }
    forall i, j | 0 <= i < j < |stack'|
      ensures stack'[i] != stack'[j]
    {
      if i < m && j >= m {
        assert stack'[j] in children && stack'[i] in stack[..m];
      }
    }
    assert forall x | x in stack' :: x in stack[..m] || x in children;
  }

  /** When the stack is empty, every node of the subtree is freed. */
  lemma {:induction false} WipeEnds(h: Heap, root: Addr, l: Layout, q: Str, top: Addr, done: set<Addr>, x: Addr)
    requires Shape(h, root, l) && Wiping(h, l, top, Below(h, l, q), done, []) && q != []
    requires x in Below(h, l, q)
    ensures x in done
    decreases |l.at[x]|
  {
    if x !in done {
      assert ParentOk(h, l, x);
      WipeEnds(h, root, l, q, top, done, l.up[x].addr);
    }
  }

  lemma WipeEndsAll(h: Heap, root: Addr, l: Layout, q: Str, top: Addr, done: set<Addr>, a: Addr, c: Atom)
    requires Shape(h, root, l) && Wiping(h, l, top, Below(h, l, q), done, []) && TopOf(h, l, a, c, top, q)
    ensures done == Below(h, l, q)
  {
    forall x | x in Below(h, l, q)
      ensures x in done
    {
      WipeEnds(h, root, l, q, top, done, x);
    }
  }

  // ----- counting the keys of the freed nodes -----

  /** The keys that node `n` holds under bytes below `from`. */
  ghost function KeysUpTo(h: Heap, l: Layout, n: Addr, from: nat): set<Str>
  {
    set c | n in h && n in l.at && c in h[n].entries && c < from && h[n].entries[c].value.Some?
      :: Spell(l.at[n], c, h[n].entries[c].stem)
  }

  lemma KeysUpToStep(h: Heap, l: Layout, n: Addr, from: nat, c: Atom)
    requires n in l.at && Has(h, n, c) && from <= c && forall d: Atom | Has(h, n, d) && from <= d :: c <= d
    ensures |KeysUpTo(h, l, n, c + 1)| == |KeysUpTo(h, l, n, from)| + (if At(h, n, c).value.Some? then 1 else 0)
  {
    var k := Spell(l.at[n], c, At(h, n, c).stem);
    var before, after := KeysUpTo(h, l, n, from), KeysUpTo(h, l, n, c + 1);
    if k in before {
      var d :| d in h[n].entries && d < from && k == Spell(l.at[n], d, h[n].entries[d].stem);
      SpellAt(l.at[n], c, At(h, n, c).stem);
      SpellAt(l.at[n], d, h[n].entries[d].stem);
      assert false;
    }
    forall t | t in after
      ensures t in before || (t == k && At(h, n, c).value.Some?)
    {
      var d :| d in h[n].entries && d < c + 1 && h[n].entries[d].value.Some? && t == Spell(l.at[n], d, h[n].entries[d].stem);
      assert Has(h, n, d);
    }
    assert after == if At(h, n, c).value.Some? then before + {k} else before;
  }

  /** All keys of the node, once no byte is left. */
  lemma KeysUpToAll(h: Heap, l: Layout, n: Addr, from: nat)
    requires forall d: Atom | Has(h, n, d) :: d < from
    ensures KeysUpTo(h, l, n, from) == KeysOf(h, l, n)
  {
    forall t | t in KeysOf(h, l, n)
      ensures t in KeysUpTo(h, l, n, from)
    {
      var d :| n in h && n in l.at && d in h[n].entries && h[n].entries[d].value.Some? && t == Spell(l.at[n], d, h[n].entries[d].stem);
      assert Has(h, n, d);
    }
  }

  /** A node holds one key for each value that `erase_all` counts. */
  lemma {:induction false} KeysCounted(h: Heap, l: Layout, n: Addr, from: nat)
    requires n in h && n in l.at && from <= 256
    ensures |KeysUpTo(h, l, n, from)| + ValuesFrom(h[n].entries, from) == |KeysOf(h, l, n)|
    decreases 256 - from
  {
    hide KeysUpTo, KeysOf;
    if from == 256 {
      KeysUpToAll(h, l, n, from);
    } else {
      if from in h[n].entries {
        KeysUpToStep(h, l, n, from, from);
      } else {
        KeysUpToSkip(h, l, n, from);
      }
      KeysCounted(h, l, n, from + 1);
    }
  }

  lemma KeysUpToSkip(h: Heap, l: Layout, n: Addr, from: nat)
    requires n in h && n in l.at && from < 256 && from !in h[n].entries
    ensures KeysUpTo(h, l, n, from + 1) == KeysUpTo(h, l, n, from)
  {
  }

  lemma KeysUpToNone(h: Heap, l: Layout, n: Addr)
    ensures KeysUpTo(h, l, n, 0) == {} && ChildrenUpTo(h, n, 0, [])
  {
  }

  /** Freeing one more node adds exactly its own keys. */
  lemma KeysInStep(h: Heap, root: Addr, l: Layout, done: set<Addr>, n: Addr)
    requires Shape(h, root, l) && n !in done
    ensures |KeysIn(h, l, done + {n})| == |KeysIn(h, l, done)| + |KeysOf(h, l, n)|
  {
    var a, b := KeysIn(h, l, done), KeysOf(h, l, n);
    if t :| t in a && t in b {
      var x, d :| x in done && x in h && x in l.at && d in h[x].entries && t == Spell(l.at[x], d, h[x].entries[d].stem);
      var e :| e in h[n].entries && t == Spell(l.at[n], e, h[n].entries[e].stem);
      assert Has(h, x, d) && Has(h, n, e);
      SlotIsFound(h, root, l, x, d);
      SlotIsFound(h, root, l, n, e);
      assert false;
    }
    assert KeysIn(h, l, done + {n}) == a + b;
    assert a !! b;
  }

  /** The children met at bytes below `from`. */
  ghost predicate ChildrenUpTo(h: Heap, n: Addr, from: nat, children: seq<Addr>)
  {
    && Distinct(children)
    && (forall y | y in children :: exists d: Atom :: d < from && Has(h, n, d) && At(h, n, d).child == Some(y))
    && (forall d: Atom | d < from && Has(h, n, d) && At(h, n, d).child.Some? :: At(h, n, d).child.value in children)
  }

  lemma ChildrenUpToStep(h: Heap, root: Addr, l: Layout, n: Addr, from: nat, c: Atom, children: seq<Addr>)
    requires Shape(h, root, l) && Has(h, n, c) && from <= c && forall d: Atom | Has(h, n, d) && from <= d :: c <= d
    requires ChildrenUpTo(h, n, from, children)
    ensures ChildrenUpTo(h, n, c + 1, if At(h, n, c).child.Some? then children + [At(h, n, c).child.value] else children)
  {
    var child := At(h, n, c).child;
    var more := if child.Some? then children + [child.value] else children;
    assert EntryOk(h, root, l, n, c);
    forall y | y in children
      ensures child != Some(y) && exists d: Atom :: d < c + 1 && Has(h, n, d) && At(h, n, d).child == Some(y)
    {
      var d: Atom :| d < from && Has(h, n, d) && At(h, n, d).child == Some(y);
      assert EntryOk(h, root, l, n, d);
    }
    forall d: Atom | d < c + 1 && Has(h, n, d) && At(h, n, d).child.Some?
      ensures At(h, n, d).child.value in more
    {
      assert d < from || d == c;
    }
  }

  /** The list that `erase_all` makes has each child once. */
  lemma {:induction false} ChildrenListed(h: Heap, root: Addr, l: Layout, n: Addr, from: nat, children: seq<Addr>)
    requires Shape(h, root, l) && n in h && from <= 256 && ChildrenUpTo(h, n, from, children)
    ensures ChildrenOf(h, n, children + ChildrenFrom(h[n].entries, from))
    decreases 256 - from
  {
    hide ChildrenOf, ChildrenUpTo, Shape;
    if from == 256 {
      ChildrenUpToAll(h, n, children);
      assert children + ChildrenFrom(h[n].entries, from) == children;
    } else {
      var here := if from in h[n].entries && At(h, n, from).child.Some? then [At(h, n, from).child.value] else [];
      if from in h[n].entries {
        ChildrenUpToStep(h, root, l, n, from, from, children);
      } else {
        ChildrenUpToSkip(h, n, from, children);
      }
      assert children + [] == children;
      ChildrenListed(h, root, l, n, from + 1, children + here);
      assert children + ChildrenFrom(h[n].entries, from) == children + here + ChildrenFrom(h[n].entries, from + 1);
    }
  }

  lemma ChildrenUpToSkip(h: Heap, n: Addr, from: nat, children: seq<Addr>)
    requires n in h && from < 256 && from !in h[n].entries && ChildrenUpTo(h, n, from, children)
    ensures ChildrenUpTo(h, n, from + 1, children)
  {
    forall y | y in children
      ensures exists d: Atom :: d < from + 1 && Has(h, n, d) && At(h, n, d).child == Some(y)
    {
      var d: Atom :| d < from && Has(h, n, d) && At(h, n, d).child == Some(y);
      assert d < from + 1;
    }
  }

  lemma ChildrenUpToAll(h: Heap, n: Addr, children: seq<Addr>)
    requires ChildrenUpTo(h, n, 256, children)
    ensures ChildrenOf(h, n, children)
  {
  }

  /** What `erase_all` says of a node, in terms of the trie: how many keys the node held, and its children. */
  lemma ErasedNode(h: Heap, root: Addr, l: Layout, n: Addr, slots: nat, children: seq<Addr>)
    requires Shape(h, root, l) && n in h && n in l.at && AllErased(h[n], slots, children)
    ensures slots == |KeysOf(h, l, n)| && ChildrenOf(h, n, children)
  {
    hide KeysUpTo, ChildrenUpTo, KeysOf, ChildrenOf, ValuesFrom, ChildrenFrom;
    KeysUpToNone(h, l, n);
    KeysCounted(h, l, n, 0);
    ChildrenListed(h, root, l, n, 0, []);
    assert [] + children == children;
  }
}
