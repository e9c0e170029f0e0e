/** The stored form of the trie: nodes at addresses, each a table from a first byte to an entry with a
    stem, an optional value and an optional child address. */
module TrieModel {
  import opened Common
  import opened Lex

  type Value(==, 0, !new)

  type Addr = nat

  datatype Entry = Entry(child: Option<Addr>, stem: Str, value: Option<Value>)

  datatype Node = Node(version: nat, entries: map<Atom, Entry>)

  type Heap = map<Addr, Node>

  datatype Slot = Slot(addr: Addr, key: Atom)

  /** Where each node sits: the string spelled from the root down to it, and the entry that refers to it. */
  datatype Layout = Layout(at: map<Addr, Str>, up: map<Addr, Slot>)

  predicate Has(h: Heap, a: Addr, c: Atom)
  {
    a in h && c in h[a].entries
  }

  function At(h: Heap, a: Addr, c: Atom): Entry
    requires Has(h, a, c)
  {
    h[a].entries[c]
  }

  function Spell(prefix: Str, c: Atom, stem: Str): Str
  {
    prefix + [c] + stem
  }

  // ----- what is stored, read off by walking down from a node -----

  /** The entry reached by consuming exactly `s` below node `a`: first byte, stem, then the child with what is left. */
  function Find(h: Heap, a: Addr, s: Str): (w: Option<Slot>)
    ensures w.Some? ==> Has(h, w.value.addr, w.value.key)
    decreases |s|
  {
    if s == [] || !Has(h, a, s[0]) || !(At(h, a, s[0]).stem <= s[1..]) then None
    else
      var e := At(h, a, s[0]);
      var rest := s[1 + |e.stem|..];
      if rest == [] then Some(Slot(a, s[0]))
      else if e.child.None? then None
      else Find(h, e.child.value, rest)
  }

  function Lookup(h: Heap, a: Addr, s: Str): Option<Value>
  {
    var w := Find(h, a, s);
    if w.None? then None else At(h, w.value.addr, w.value.key).value
  }

  // ----- well-formed tries -----

  ghost predicate ParentOk(h: Heap, l: Layout, b: Addr)
  {
    && b in l.at && b in l.up
    && var p := l.up[b];
    && Has(h, p.addr, p.key) && p.addr in l.at
    && At(h, p.addr, p.key).child == Some(b)
    && l.at[b] == Spell(l.at[p.addr], p.key, At(h, p.addr, p.key).stem)
  }

  ghost predicate EntryOk(h: Heap, root: Addr, l: Layout, a: Addr, c: Atom)
    requires Has(h, a, c)
  {
    var e := At(h, a, c);
    && (e.child.Some? || e.value.Some?)
    && (e.child.Some? ==> e.child.value in h && e.child.value != root
                          && e.child.value in l.up && l.up[e.child.value] == Slot(a, c))
  }

  /** Every node but the root hangs below exactly one entry, and no entry is idle. */
  ghost predicate Shape(h: Heap, root: Addr, l: Layout)
  {
    && root in h && l.at.Keys == h.Keys && l.at[root] == []
    && (forall b {:trigger ParentOk(h, l, b)} | b in h && b != root :: ParentOk(h, l, b))
    && (forall a, c {:trigger EntryOk(h, root, l, a, c)} | Has(h, a, c) :: EntryOk(h, root, l, a, c))
  }

  predicate IsEmptyNode(h: Heap, a: Addr)
    requires a in h
  {
    h[a].entries == map[]
  }

  ghost predicate NoEmptyNode(h: Heap, root: Addr)
  {
    forall a {:trigger IsEmptyNode(h, a)} | a in h && a != root :: !IsEmptyNode(h, a)
  }

  /** A well-formed trie between two operations. */
  ghost predicate Tree(h: Heap, root: Addr, l: Layout)
  {
    Shape(h, root, l) && NoEmptyNode(h, root)
  }

  // ----- the stored keys, read off the entries -----

  ghost predicate Holds(h: Heap, l: Layout, a: Addr, c: Atom, s: Str, v: Value)
  {
    Has(h, a, c) && a in l.at && At(h, a, c).value == Some(v) && s == Spell(l.at[a], c, At(h, a, c).stem)
  }

  ghost predicate Stored(h: Heap, l: Layout, s: Str, v: Value)
  {
    exists a, c :: Holds(h, l, a, c, s, v)
  }

  ghost function Keys(h: Heap, l: Layout): set<Str>
  {
    set a, c | a in h && c in h[a].entries && a in l.at && h[a].entries[c].value.Some?
      :: Spell(l.at[a], c, h[a].entries[c].stem)
  }

  /** The abstract map of the trie. The layout only bounds its domain: values come from `Lookup`. */
  ghost function Contents(h: Heap, root: Addr, l: Layout): map<Str, Value>
  {
    map s | s in Keys(h, l) && Lookup(h, root, s).Some? :: Lookup(h, root, s).value
  }

  // ----- the two readings agree -----

  lemma SplitSpell(p: Str, c: Atom, stem: Str, t: Str)
    ensures Spell(p, c, stem) + t == p + Spell([], c, stem + t)
    ensures Spell([], c, stem + t)[0] == c && Spell([], c, stem + t)[1..] == stem + t
    ensures stem <= stem + t && (stem + t)[|stem|..] == t
  {
  }

  lemma FindThrough(h: Heap, a: Addr, c: Atom, t: Str)
    requires Has(h, a, c)
    ensures Find(h, a, Spell([], c, At(h, a, c).stem + t))
         == if t == [] then Some(Slot(a, c))
            else if At(h, a, c).child.None? then None
            else Find(h, At(h, a, c).child.value, t)
  {
    var e := At(h, a, c);
    SplitSpell([], c, e.stem, t);
    var s := Spell([], c, e.stem + t);
    assert s[1 + |e.stem|..] == s[1..][|e.stem|..] == t;
  }

  /** Searching a continuation of a node's own string from the root is searching the rest at the node. */
  lemma {:induction false} FindDescends(h: Heap, root: Addr, l: Layout, n: Addr, t: Str)
    requires Shape(h, root, l) && n in h && t != []
    ensures Find(h, root, l.at[n] + t) == Find(h, n, t)
    decreases |l.at[n]|
  {
    if n == root {
      assert l.at[n] + t == t;
    } else {
      assert ParentOk(h, l, n);
      var p := l.up[n];
      var e := At(h, p.addr, p.key);
      SplitSpell(l.at[p.addr], p.key, e.stem, t);
      FindDescends(h, root, l, p.addr, Spell([], p.key, e.stem + t));
      FindThrough(h, p.addr, p.key, t);
    }
  }

  /** Every entry is found under the string it spells; so no two entries spell the same string. */
  lemma SlotIsFound(h: Heap, root: Addr, l: Layout, a: Addr, c: Atom)
    requires Shape(h, root, l) && Has(h, a, c)
    ensures Find(h, root, Spell(l.at[a], c, At(h, a, c).stem)) == Some(Slot(a, c))
  {
    var e := At(h, a, c);
    SplitSpell(l.at[a], c, e.stem, []);
    assert e.stem + [] == e.stem;
    assert Spell(l.at[a], c, e.stem) + [] == Spell(l.at[a], c, e.stem);
    FindDescends(h, root, l, a, Spell([], c, e.stem));
    FindThrough(h, a, c, []);
  }

  /** What a search passes through: the entry of the first byte, whose stem it has to match. */
  lemma FindEnters(h: Heap, n: Addr, t: Str)
    requires Find(h, n, t).Some?
    ensures t != [] && Has(h, n, t[0])
    ensures var e := At(h, n, t[0]);
      && Spell([], t[0], e.stem) <= t
      && var rest := t[1 + |e.stem|..];
      && t == Spell([], t[0], e.stem) + rest
      && if rest == [] then Find(h, n, t) == Some(Slot(n, t[0])) && t == Spell([], t[0], e.stem)
         else e.child.Some? && Find(h, e.child.value, rest) == Find(h, n, t)
  {
    var e := At(h, n, t[0]);
    assert t == [t[0]] + t[1..];
    assert t[1..][..|e.stem|] == e.stem;
    assert t == Spell([], t[0], e.stem) + t[1 + |e.stem|..];
  }

  lemma JoinSpell(p: Str, c: Atom, stem: Str, rest: Str)
    ensures p + (Spell([], c, stem) + rest) == Spell(p, c, stem) + rest
    ensures p + Spell([], c, stem) == Spell(p, c, stem)
  {
  }

  lemma {:induction false} FoundIsSpelled(h: Heap, root: Addr, l: Layout, n: Addr, t: Str)
    requires Shape(h, root, l) && n in h && Find(h, n, t).Some?
    ensures var w := Find(h, n, t).value;
      && w.addr in l.at && Spell(l.at[w.addr], w.key, At(h, w.addr, w.key).stem) == l.at[n] + t
      && l.at[n] <= l.at[w.addr]
    decreases |t|
  {
    FindEnters(h, n, t);
    var e := At(h, n, t[0]);
    var rest := t[1 + |e.stem|..];
    JoinSpell(l.at[n], t[0], e.stem, rest);
    if rest != [] {
      assert EntryOk(h, root, l, n, t[0]);
      assert ParentOk(h, l, e.child.value);
      FoundIsSpelled(h, root, l, e.child.value, rest);
    }
  }

  /** Walking from the root finds exactly the keys that the entries spell, with their values. */
  lemma LookupIffStored(h: Heap, root: Addr, l: Layout, s: Str, v: Value)
    requires Shape(h, root, l)
    ensures Lookup(h, root, s) == Some(v) <==> Stored(h, l, s, v)
    ensures Stored(h, l, s, v) <==> s in Contents(h, root, l) && Contents(h, root, l)[s] == v
  {
    if Lookup(h, root, s) == Some(v) {
      FoundIsSpelled(h, root, l, root, s);
      var w := Find(h, root, s).value;
      assert l.at[root] + s == s;
      assert Holds(h, l, w.addr, w.key, s, v);
      assert s in Keys(h, l);
    }
    if Stored(h, l, s, v) {
      var a, c :| Holds(h, l, a, c, s, v);
      SlotIsFound(h, root, l, a, c);
    }
  }

  lemma ContentsIsLookup(h: Heap, root: Addr, l: Layout, s: Str)
    requires Shape(h, root, l)
    ensures s in Contents(h, root, l) <==> Lookup(h, root, s).Some?
    ensures s in Contents(h, root, l) ==> Lookup(h, root, s) == Some(Contents(h, root, l)[s])
  {
    if Lookup(h, root, s).Some? {
      LookupIffStored(h, root, l, s, Lookup(h, root, s).value);
    }
  }
}
