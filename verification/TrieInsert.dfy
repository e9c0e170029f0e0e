/** What each way of inserting a key makes of the trie and of the iterator. */
module TrieInsert {
  import opened Common
  import opened Lex
  import opened TrieModel
  import opened TriePath
  import opened TrieChange
  import opened TrieSearch
  import opened TrieMoves
  import opened TrieVersions
  import opened NodeSteps

  /** The front of a path is not touched by a change of the node it leads to. */
  lemma FrontKept(h: Heap, root: Addr, l: Layout, h': Heap, l': Layout, prefix: Str, front: seq<Position>, n: Addr)
    requires Shape(h, root, l) && LeadsTo(h, root, l, prefix, front, n)
    requires forall a | a in h && a != n :: a in h' && h'[a] == h[a]
    requires forall a | a in h :: a in l'.at && l'.at[a] == l.at[a]
    ensures LeadsTo(h', root, l', prefix, front, n)
  {
    ArrivesAt(h, root, l, front, n);
    forall i | 0 <= i < |front|
      ensures Fits(h', front[i]) && EntryAt(h', front[i]) == EntryAt(h, front[i]) && front[i].addr in h
    {
      ChainBelowString(h, root, l, front, i);
      assert Fits(h, front[i]);
    }
    ChainKept(h, h', root, front);
    if front != [] {
      ChainNode(h, root, l, front, |front| - 1);
    }
  }

  /** The result of an insertion: one more pair, a well-formed trie, and an iterator on the new key. */
  ghost predicate InsertedPair(h: Heap, root: Addr, l: Layout, h': Heap, l': Layout,
                               prefix: Str, stack: seq<Position>, key: Str, v: Value)
  {
    && Tree(h', root, l') && Forward(h, h') && h.Keys <= h'.Keys
    && key !in Contents(h, root, l) && Contents(h', root, l') == Contents(h, root, l)[key := v]
    && prefix == key && stack != [] && OnKey(h', root, l', prefix, stack)
  }

  function Settled(p: Position, stemSize: nat, child: bool, version: nat): Position
  {
    Position(p.addr, p.key, Some(stemSize), child, true, version)
  }

  ghost predicate NoEmptyBut(h: Heap, root: Addr, b: Addr)
  {
    forall a {:trigger IsEmptyNode(h, a)} | a in h && a != root && a != b :: !IsEmptyNode(h, a)
  }

  lemma Filled(h: Heap, root: Addr, b: Addr, b': Node, c: Atom)
    requires NoEmptyBut(h, root, b) && c in b'.entries
    ensures NoEmptyNode(h[b := b'], root)
  {
    var h' := h[b := b'];
    forall a | a in h' && a != root
      ensures !IsEmptyNode(h', a)
    {
      assert a != b ==> !IsEmptyNode(h, a);
    }
  }

  /** A path that is extended by a position on a stored entry. */
  lemma SettlesOn(h: Heap, root: Addr, l: Layout, at: Str, front: seq<Position>, p: Position)
    requires Shape(h, root, l) && LeadsTo(h, root, l, at, front, p.addr) && Fits(h, p)
    requires p.hasData && EntryAt(h, p).value.Some? && p.hasChild == EntryAt(h, p).child.Some?
    ensures p.addr in l.at && at == l.at[p.addr]
    ensures OnKey(h, root, l, Spell(at, p.key.value, EntryAt(h, p).stem), front + [p])
  {
    ArrivesAt(h, root, l, front, p.addr);
    ChainExtend(h, root, front, p);
  }

  /** An entry the node did not have. */
  lemma InsertsEntry(h: Heap, root: Addr, l: Layout, prefix: Str, stack: seq<Position>, stem: Str, v: Value, n': Node)
    requires Tree(h, root, l) && Compared(h, root, l, prefix, stack, stem, NoEntry)
    requires var p := stack[|stack| - 1]; Inserted(h[p.addr], n', p.key.value, stem, v)
    ensures var m := |stack| - 1; var p := stack[m];
      InsertedPair(h, root, l, h[p.addr := n'], l, prefix + stem,
                   stack[..m] + [Settled(p, |stem|, false, n'.version)], prefix + stem, v)
  {
    var m := |stack| - 1;
    var p, front := stack[m], stack[..m];
    var n, c := p.addr, p.key.value;
    var h' := h[n := n'];
    AddEntry(h, root, l, n, c, stem, v, n');
    assert prefix + stem == Spell(l.at[n], c, stem);
    Filled(h, root, n, n', c);
    ArrivesAt(h, root, l, front, n);
    FrontKept(h, root, l, h', l, l.at[n], front, n);
    SettlesOn(h', root, l, l.at[n], front, Settled(p, |stem|, false, n'.version));
  }

  /** A value on an entry that had none, when the string ends there and no stem is in the way. */
  lemma InsertsValue(h: Heap, root: Addr, l: Layout, prefix: Str, stack: seq<Position>, v: Value)
    requires Tree(h, root, l) && Compared(h, root, l, prefix, stack, [], StringEnd)
    requires EntryAt(h, stack[|stack| - 1]).stem == []
    ensures var m := |stack| - 1; var p := stack[m]; var n' := ValueSet(h[p.addr], p.key.value, v);
      InsertedPair(h, root, l, h[p.addr := n'], l, prefix, stack[..m] + [Settled(p, 0, true, n'.version)], prefix, v)
  {
    var m := |stack| - 1;
    var p, front := stack[m], stack[..m];
    var n, c := p.addr, p.key.value;
    var n' := ValueSet(h[n], c, v);
    var h' := h[n := n'];
    assert EntryAt(h, p).stem[..p.stemSize.value] == [];
    assert EntryOk(h, root, l, n, c);
    PutValue(h, root, l, n, c, v, n');
    Filled(h, root, n, n', c);
    ArrivesAt(h, root, l, front, n);
    FrontKept(h, root, l, h', l, l.at[n], front, n);
    SettlesOn(h', root, l, l.at[n], front, Settled(p, 0, true, n'.version));
  }

  /** Heap and layout after a split at the position where the comparison stopped. */
  function SplitHeap(h: Heap, p: Position, b: Addr): Heap
    requires p.key.Some? && Has(h, p.addr, p.key.value) && p.stemSize.Some?
    requires p.stemSize.value < |EntryAt(h, p).stem|
  {
    h[b := MovedIn(NewNode, EntryAt(h, p), p.stemSize.value)]
     [p.addr := MovedOut(h[p.addr], p.key.value, p.stemSize.value, b)]
  }

  lemma SplitAtStop(h: Heap, root: Addr, l: Layout, prefix: Str, stack: seq<Position>, rest: Str, r: StemCompare, b: Addr)
    requires Tree(h, root, l) && Compared(h, root, l, prefix, stack, rest, r) && !r.NoEntry? && b !in h
    requires var p := stack[|stack| - 1]; p.stemSize.value < |EntryAt(h, p).stem|
    ensures var p := stack[|stack| - 1]; var n := p.addr; var c := p.key.value;
      var h' := SplitHeap(h, p, b); var l' := SplitLayout(h, l, n, c, p.stemSize.value, b);
      && Tree(h', root, l') && Contents(h', root, l') == Contents(h, root, l)
      && l'.at == l.at[b := prefix] && b != n
      && LeadsTo(h', root, l', l.at[n], stack[..|stack| - 1], n) && n in l'.at && l'.at[n] == l.at[n]
      && Has(h', n, c) && At(h', n, c) == Entry(Some(b), EntryAt(h, p).stem[..p.stemSize.value], None)
      && Forward(h, h')
  {
    var p := stack[|stack| - 1];
    var n, c, m := p.addr, p.key.value, p.stemSize.value;
    var h', l' := SplitHeap(h, p, b), SplitLayout(h, l, n, c, m, b);
    assert IsSplit(h, h', l, l', n, c, m, b);
    Split(h, root, l, n, c, m, b, h', l');
    forall a | a in h' && a != root
      ensures !IsEmptyNode(h', a)
    {
      if a != n && a != b {
        assert !IsEmptyNode(h, a);
      }
      assert Has(h', n, c) && Has(h', b, EntryAt(h, p).stem[m]);
    }
    ArrivesAt(h, root, l, stack[..|stack| - 1], n);
    FrontKept(h, root, l, h', l', l.at[n], stack[..|stack| - 1], n);
  }

  /** The key ends inside a stem: the stem is split there and the value goes to its upper part. */
  lemma InsertsInsideStem(h: Heap, root: Addr, l: Layout, prefix: Str, stack: seq<Position>, v: Value, b: Addr,
                          h': Heap, l': Layout, stack': seq<Position>)
    requires Tree(h, root, l) && Compared(h, root, l, prefix, stack, [], StringEnd) && b !in h
    requires var p := stack[|stack| - 1]; p.stemSize.value < |EntryAt(h, p).stem|
    requires var m := |stack| - 1; var p := stack[m];
      var h1 := SplitHeap(h, p, b); var n' := ValueSet(h1[p.addr], p.key.value, v);
      && h' == h1[p.addr := n'] && l' == SplitLayout(h, l, p.addr, p.key.value, p.stemSize.value, b)
      && stack' == stack[..m] + [Settled(p, p.stemSize.value, true, n'.version)]
    ensures InsertedPair(h, root, l, h', l', prefix, stack', prefix, v)
  {
    var m := |stack| - 1;
    var p, front := stack[m], stack[..m];
    var n, c := p.addr, p.key.value;
    var h1 := SplitHeap(h, p, b);
    SplitAtStop(h, root, l, prefix, stack, [], StringEnd, b);
    var n' := ValueSet(h1[n], c, v);
    PutValue(h1, root, l', n, c, v, n');
    Filled(h1, root, n, n', c);
    FrontKept(h1, root, l', h', l', l.at[n], front, n);
    SettlesOn(h', root, l', l.at[n], front, Settled(p, p.stemSize.value, true, n'.version));
  }

  /** The stack of an iterator that went one node further down to a new entry. */
  function TwoMore(front: seq<Position>, upper: Position, b: Addr, c: Atom, stemSize: nat, version: nat): seq<Position>
  {
    front + [upper] + [Position(b, Some(c), Some(stemSize), false, true, version)]
  }

  /** Of a path that goes one node further down than the comparison did, every version is current. */
  lemma TwoMoreCurrent(h: Heap, root: Addr, l: Layout, prefix: Str, stack: seq<Position>, rest: Str, r: StemCompare,
                       h': Heap, upper: Position, b: Addr, c: Atom, stemSize: nat, version: nat)
    requires Tree(h, root, l) && Compared(h, root, l, prefix, stack, rest, r) && b in h'
    requires var n := stack[|stack| - 1].addr; upper.addr == n && (forall a | a in h && a in h' && a != n :: h'[a] == h[a])
    requires InStep(h', upper) && version == h'[b].version
    ensures var front := stack[..|stack| - 1];
      Current(h, front) ==> Current(h', TwoMore(front, upper, b, c, stemSize, version))
  {
    FrontCurrent(h, root, l, h', stack[..|stack| - 1], upper.addr);
  }

  /** A new entry in node `b`, hanging below the entry of `upper`. */
  lemma InsertsBelow(h: Heap, root: Addr, l: Layout, prefix: Str, front: seq<Position>, upper: Position,
                     b: Addr, rest: Str, v: Value, b': Node)
    requires Shape(h, root, l) && rest != [] && b in h && b != root && rest[0] !in h[b].entries
    requires NoEmptyBut(h, root, b)
    requires Chain(h, root, front + [upper]) && EntryAt(h, upper).child == Some(b)
    requires prefix == PathString(h, root, l, front + [upper])
    requires Inserted(h[b], b', rest[0], rest[1..], v)
    ensures var h' := h[b := b'];
      && Tree(h', root, l)
      && prefix + rest !in Contents(h, root, l)
      && Contents(h', root, l) == Contents(h, root, l)[prefix + rest := v]
      && OnKey(h', root, l, prefix + rest, TwoMore(front, upper, b, rest[0], |rest| - 1, b'.version))
  {
    hide TrieModel.Contents;
    var h' := h[b := b'];
    var path := front + [upper];
    var p := Position(b, Some(rest[0]), Some(|rest| - 1), false, true, b'.version);
    assert Fits(h, path[|path| - 1]);
    ArrivesAt(h, root, l, path, b);
    AddEntry(h, root, l, b, rest[0], rest[1..], v, b');
    assert rest == [rest[0]] + rest[1..];
    assert Spell(prefix, rest[0], rest[1..]) == prefix + rest;
    Filled(h, root, b, b', rest[0]);
    FrontKept(h, root, l, h', l, prefix, path, b);
    SettlesOn(h', root, l, prefix, path, p);
    assert TwoMore(front, upper, b, rest[0], |rest| - 1, b'.version) == path + [p];
  }

  /** A fresh node hangs below the entry where the comparison stopped. */
  lemma HangsChild(h: Heap, root: Addr, l: Layout, prefix: Str, stack: seq<Position>, rest: Str, b: Addr)
    requires Tree(h, root, l) && Compared(h, root, l, prefix, stack, rest, StemEnd) && b !in h
    ensures var m := |stack| - 1; var p := stack[m]; var n' := ChildSet(h[p.addr], p.key.value, b);
      var h1 := h[b := NewNode][p.addr := n']; var l1 := WithNode(l, b, prefix, Slot(p.addr, p.key.value));
      && Shape(h1, root, l1) && Contents(h1, root, l1) == Contents(h, root, l)
      && NoEmptyBut(h1, root, b) && b != root
      && OnChain(h1, root, l1, prefix, stack[..m] + [p.(version := n'.version)])
      && EntryAt(h1, p).child == Some(b) && b in l1.at && l1.at[b] == prefix
  {
    var m := |stack| - 1;
    var p, front := stack[m], stack[..m];
    var n, c := p.addr, p.key.value;
    var n' := ChildSet(h[n], c, b);
    var h1 := h[b := NewNode][n := n'];
    var l1 := WithNode(l, b, prefix, Slot(n, c));
    assert EntryAt(h, p).stem[..p.stemSize.value] == EntryAt(h, p).stem;
    AddChild(h, root, l, n, c, b, n', NewNode);
    assert h1 == h[n := n'][b := NewNode];
    Filled(h, root, n, n', c);
    assert forall a | a in h1 && a != b :: IsEmptyNode(h1, a) == IsEmptyNode(h[n := n'], a);
    ArrivesAt(h, root, l, front, n);
    FrontKept(h, root, l, h1, l1, l.at[n], front, n);
    ChainExtend(h1, root, front, p.(version := n'.version));
  }

  /** The string goes on past an entry without a child: a new child takes the rest. */
  lemma InsertsChild(h: Heap, root: Addr, l: Layout, prefix: Str, stack: seq<Position>, rest: Str, v: Value, b: Addr,
                     h': Heap, l': Layout, stack': seq<Position>)
    requires Tree(h, root, l) && Compared(h, root, l, prefix, stack, rest, StemEnd) && b !in h && b in h'
    requires Inserted(NewNode, h'[b], rest[0], rest[1..], v)
    requires var m := |stack| - 1; var p := stack[m]; var n' := ChildSet(h[p.addr], p.key.value, b);
      && h' == h[b := NewNode][p.addr := n'][b := h'[b]] && l' == WithNode(l, b, prefix, Slot(p.addr, p.key.value))
      && stack' == TwoMore(stack[..m], p.(version := n'.version), b, rest[0], |rest| - 1, h'[b].version)
    ensures InsertedPair(h, root, l, h', l', prefix + rest, stack', prefix + rest, v)
    ensures Current(h, stack[..|stack| - 1]) ==> Current(h', stack')
    ensures ChangedOnly(h, h', stack[|stack| - 1].addr)
  {
    var m := |stack| - 1;
    var p, front := stack[m], stack[..m];
    var n' := ChildSet(h[p.addr], p.key.value, b);
    HangsChild(h, root, l, prefix, stack, rest, b);
    TwoMoreCurrent(h, root, l, prefix, stack, rest, StemEnd, h', p.(version := n'.version), b, rest[0], |rest| - 1, h'[b].version);
    InsertsBelow(h[b := NewNode][p.addr := n'], root, l', prefix, front, p.(version := n'.version), b, rest, v, h'[b]);
  }

  /** Of the path to an entry beside the lower part of a split stem, every version is current, and one old node has changed. */
  lemma BesideCurrent(h: Heap, root: Addr, l: Layout, prefix: Str, stack: seq<Position>, rest: Str, b: Addr,
                      h': Heap, stack': seq<Position>)
    requires Tree(h, root, l) && Compared(h, root, l, prefix, stack, rest, Unequals) && b !in h && b in h'
    requires var m := |stack| - 1; var p := stack[m]; var h1 := SplitHeap(h, p, b);
      && h' == h1[b := h'[b]]
      && stack' == TwoMore(stack[..m], p.(hasChild := true, version := h1[p.addr].version),
                           b, rest[0], |rest| - 1, h'[b].version)
    ensures Current(h, stack[..|stack| - 1]) ==> Current(h', stack')
    ensures ChangedOnly(h, h', stack[|stack| - 1].addr)
  {
    hide Tree, Current, TwoMore;
    var p := stack[|stack| - 1];
    var upper := p.(hasChild := true, version := h'[p.addr].version);
    TwoMoreCurrent(h, root, l, prefix, stack, rest, Unequals, h', upper, b, rest[0], |rest| - 1, h'[b].version);
  }

  /** The split that comes first: the path goes on to the new node, which has no entry for the rest of the string. */
  lemma SplitHalfway(h: Heap, root: Addr, l: Layout, prefix: Str, stack: seq<Position>, rest: Str, b: Addr)
    requires Tree(h, root, l) && Compared(h, root, l, prefix, stack, rest, Unequals) && b !in h
    ensures var m := |stack| - 1; var p := stack[m]; var h1 := SplitHeap(h, p, b);
      var l1 := SplitLayout(h, l, p.addr, p.key.value, p.stemSize.value, b);
      var path := stack[..m] + [p.(hasChild := true, version := h1[p.addr].version)];
      && Shape(h1, root, l1) && Contents(h1, root, l1) == Contents(h, root, l) && Forward(h, h1) && h.Keys <= h1.Keys
      && b in h1 && b != root && rest[0] !in h1[b].entries && NoEmptyBut(h1, root, b)
      && Chain(h1, root, path) && EntryAt(h1, path[m]).child == Some(b) && prefix == PathString(h1, root, l1, path)
  {
    hide TrieModel.Contents;
    var m := |stack| - 1;
    var p := stack[m];
    var h1 := SplitHeap(h, p, b);
    SplitAtStop(h, root, l, prefix, stack, rest, Unequals, b);
    ChainExtend(h1, root, stack[..m], p.(hasChild := true, version := h1[p.addr].version));
  }

  /** The string leaves a stem halfway: the stem is split there and the rest goes beside its lower part. */
  lemma InsertsBeside(h: Heap, root: Addr, l: Layout, prefix: Str, stack: seq<Position>, rest: Str, v: Value, b: Addr,
                      h': Heap, l': Layout, stack': seq<Position>)
    requires Tree(h, root, l) && Compared(h, root, l, prefix, stack, rest, Unequals) && b !in h && b in h'
    requires var p := stack[|stack| - 1]; Inserted(SplitHeap(h, p, b)[b], h'[b], rest[0], rest[1..], v)
    requires var m := |stack| - 1; var p := stack[m]; var h1 := SplitHeap(h, p, b);
      && h' == h1[b := h'[b]] && l' == SplitLayout(h, l, p.addr, p.key.value, p.stemSize.value, b)
      && stack' == TwoMore(stack[..m], p.(hasChild := true, version := h1[p.addr].version),
                           b, rest[0], |rest| - 1, h'[b].version)
    ensures InsertedPair(h, root, l, h', l', prefix + rest, stack', prefix + rest, v)
    ensures Current(h, stack[..|stack| - 1]) ==> Current(h', stack')
    ensures ChangedOnly(h, h', stack[|stack| - 1].addr)
  {
    hide ChangedOnly, Current, Shape, Chain, NoEmptyBut, EntryAt, PathString, SplitLayout, TrieModel.Contents;
    var m := |stack| - 1;
    var p, front := stack[m], stack[..m];
    var h1 := SplitHeap(h, p, b);
    SplitHalfway(h, root, l, prefix, stack, rest, b);
    var upper := p.(hasChild := true, version := h1[p.addr].version);
    BesideCurrent(h, root, l, prefix, stack, rest, b, h', stack');
    InsertsBelow(h1, root, l', prefix, front, upper, b, rest, v, h'[b]);
  }

  /** The state after an insertion is well-formed, and later than the one before in every observable way. */
  lemma AfterInsert(s: Snapshot, l: Layout, t: Snapshot, l': Layout, prefix: Str, stack: seq<Position>, key: Str, v: Value)
    requires Tree(s.nodes, s.root, l) && s.root == t.root && s.version < t.version
    requires InsertedPair(s.nodes, s.root, l, t.nodes, l', prefix, stack, key, v)
    ensures Tree(t.nodes, t.root, l') && Evolves(s, t)
    ensures Contents(t.nodes, t.root, l') == Contents(s.nodes, s.root, l)[key := v]
    ensures |Contents(t.nodes, t.root, l')| == |Contents(s.nodes, s.root, l)| + 1
    ensures OnKey(t.nodes, t.root, l', prefix, stack) && stack != [] && prefix == key
  {
    var m := Contents(s.nodes, s.root, l);
    assert m[key := v].Keys == m.Keys + {key};
    KeptByOperation(s, t, l, l');
  }

  lemma OverwrittenForm(h: Heap, n: Addr, c: Atom, v: Value)
    requires Has(h, n, c) && At(h, n, c).value.Some?
    ensures SameForm(h, h[n := ValueSet(h[n], c, v)])
  {
  }

  /** Overwriting the value of a stored key. */
  lemma UpdatesPair(h: Heap, root: Addr, l: Layout, prefix: Str, stack: seq<Position>, v: Value)
    requires Tree(h, root, l) && OnKey(h, root, l, prefix, stack) && stack != []
    ensures var m := |stack| - 1; var p := stack[m];
      && p.key.Some? && Has(h, p.addr, p.key.value)
      && var n' := ValueSet(h[p.addr], p.key.value, v); var h' := h[p.addr := n'];
      && Tree(h', root, l) && Forward(h, h') && SameForm(h, h')
      && prefix in Contents(h, root, l) && Contents(h', root, l) == Contents(h, root, l)[prefix := v]
      && OnKey(h', root, l, prefix, stack[..m] + [p.(version := n'.version)])
      && (Current(h, stack) ==> Current(h', stack[..m] + [p.(version := n'.version)]))
  {
    hide SameForm, TrieModel.Contents;
    var m := |stack| - 1;
    var p, front := stack[m], stack[..m];
    OnKeyEntry(h, root, l, prefix, stack);
    Popped(h, root, l, prefix, stack);
    var n, c := p.addr, p.key.value;
    OverwrittenForm(h, n, c, v);
    var n' := ValueSet(h[n], c, v);
    var h' := h[n := n'];
    assert EntryOk(h, root, l, n, c);
    ShapeKept(h, h', root, l, Slot(n, c));
    Filled(h, root, n, n', c);
    OnKeyIsStored(h, root, l, prefix, stack);
    ContentsOverwritten(h, root, l, h', Slot(n, c), prefix, v);
    FrontCurrent(h, root, l, h', front, n);
    FrontKept(h, root, l, h', l, l.at[n], front, n);
    SettlesOn(h', root, l, l.at[n], front, p.(version := n'.version));
  }

  lemma ContentsOverwritten(h: Heap, root: Addr, l: Layout, h': Heap, w: Slot, k: Str, v: Value)
    requires Shape(h, root, l) && Shape(h', root, l) && SameHeld(h, l, h', l, w)
    requires Has(h, w.addr, w.key) && w.addr in l.at && k == Spell(l.at[w.addr], w.key, At(h, w.addr, w.key).stem)
    requires Holds(h', l, w.addr, w.key, k, v)
    ensures Contents(h', root, l) == Contents(h, root, l)[k := v]
  {
    var m := Contents(h, root, l);
    SlotIsFound(h, root, l, w.addr, w.key);
    forall s, x
      ensures Stored(h', l, s, x) <==> s in m[k := v] && m[k := v][s] == x
    {
      LookupIffStored(h, root, l, s, x);
      LookupIffStored(h', root, l, s, x);
      LookupIffStored(h', root, l, k, v);
      if Stored(h', l, s, x) {
        var a, c :| Holds(h', l, a, c, s, x);
        assert Slot(a, c) != w ==> Holds(h, l, a, c, s, x);
        if Slot(a, c) != w && s == k {
          SlotIsFound(h, root, l, a, c);
          assert false;
        }
      }
      if s != k && s in m && m[s] == x {
        var a, c :| Holds(h, l, a, c, s, x);
        assert Slot(a, c) != w;
        assert Holds(h', l, a, c, s, x);
      }
    }
    ContentsFromStored(h', root, l, m[k := v]);
  }

  lemma AfterUpdate(s: Snapshot, l: Layout, t: Snapshot)
    requires Tree(s.nodes, s.root, l) && Tree(t.nodes, t.root, l) && s.root == t.root && s.version == t.version
    requires Forward(s.nodes, t.nodes) && SameForm(s.nodes, t.nodes)
    ensures Evolves(s, t)
  {
    KeptByOperation(s, t, l, l);
  }
}
