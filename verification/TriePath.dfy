/** Positions of an iterator and the paths they form through the trie. */
module TriePath {
  import opened Common
  import opened Lex
  import opened TrieModel

  /** A `TriePosition`: the key is absent while only the node is known, the stem size until it is compared. */
  datatype Position = Position(addr: Addr, key: Option<Atom>, stemSize: Option<nat>,
                               hasChild: bool, hasData: bool, version: nat)

  /** The outcome of comparing a string with the entries along its path. */
  datatype StemCompare = Equals | StringEnd | StemEnd | Unequals | NoEntry

  // ----- paths -----

  ghost predicate Fits(h: Heap, p: Position)
  {
    && p.key.Some? && Has(h, p.addr, p.key.value)
    && p.stemSize == Some(|At(h, p.addr, p.key.value).stem|)
    && p.version <= h[p.addr].version
  }

  function EntryAt(h: Heap, p: Position): Entry
  {
    if p.key.Some? && Has(h, p.addr, p.key.value) then At(h, p.addr, p.key.value) else Entry(None, [], None)
  }

  /** The node that position `i` has to be in, given the positions before it. */
  ghost function NextAddr(h: Heap, root: Addr, stack: seq<Position>, i: nat): Option<Addr>
    requires i <= |stack|
  {
    if i == 0 then Some(root) else EntryAt(h, stack[i - 1]).child
  }

  ghost predicate Chain(h: Heap, root: Addr, stack: seq<Position>)
  {
    && (forall i {:trigger Fits(h, stack[i])} | 0 <= i < |stack| :: Fits(h, stack[i]))
    && (forall i {:trigger NextAddr(h, root, stack, i)} | 0 <= i < |stack| ::
          NextAddr(h, root, stack, i) == Some(stack[i].addr))
  }

  ghost function Spelled(h: Heap, l: Layout, p: Position): Str
  {
    if p.key.Some? && p.addr in l.at then Spell(l.at[p.addr], p.key.value, EntryAt(h, p).stem) else []
  }

  ghost function PathString(h: Heap, root: Addr, l: Layout, stack: seq<Position>): Str
  {
    if stack == [] then [] else Spelled(h, l, stack[|stack| - 1])
  }

  /** The iterator's prefix and stack describe one path. */
  ghost predicate OnChain(h: Heap, root: Addr, l: Layout, prefix: Str, stack: seq<Position>)
  {
    && Chain(h, root, stack) && prefix == PathString(h, root, l, stack)
    && (stack != [] ==> Fits(h, stack[|stack| - 1]))
  }

  /** A path whose last position has up-to-date flags. */
  ghost predicate OnPath(h: Heap, root: Addr, l: Layout, prefix: Str, stack: seq<Position>)
  {
    && OnChain(h, root, l, prefix, stack)
    && (stack != [] ==>
          var p := stack[|stack| - 1];
          p.hasChild == EntryAt(h, p).child.Some? && p.hasData == EntryAt(h, p).value.Some?)
  }

  /** An iterator that points to a stored key, or to the end. */
  ghost predicate OnKey(h: Heap, root: Addr, l: Layout, prefix: Str, stack: seq<Position>)
  {
    OnPath(h, root, l, prefix, stack) && (stack != [] ==> stack[|stack| - 1].hasData)
  }

  /** The path leads to node `n`, which has not been looked into yet. */
  ghost predicate LeadsTo(h: Heap, root: Addr, l: Layout, prefix: Str, stack: seq<Position>, n: Addr)
  {
    && OnChain(h, root, l, prefix, stack) && NextAddr(h, root, stack, |stack|) == Some(n)
  }

  lemma OnKeyIsStored(h: Heap, root: Addr, l: Layout, prefix: Str, stack: seq<Position>)
    requires Shape(h, root, l) && OnKey(h, root, l, prefix, stack) && stack != []
    ensures prefix in Contents(h, root, l) && prefix != []
  {
    var p := stack[|stack| - 1];
    assert Holds(h, l, p.addr, p.key.value, prefix, EntryAt(h, p).value.value);
    LookupIffStored(h, root, l, prefix, EntryAt(h, p).value.value);
  }

  /** A path arrives at the string of the node it leads to. */
  lemma ArrivesAt(h: Heap, root: Addr, l: Layout, stack: seq<Position>, n: Addr)
    requires Shape(h, root, l) && Chain(h, root, stack) && NextAddr(h, root, stack, |stack|) == Some(n)
    ensures n in h && n in l.at && l.at[n] == PathString(h, root, l, stack)
  {
    if stack != [] {
      var p := stack[|stack| - 1];
      assert Fits(h, p);
      assert EntryOk(h, root, l, p.addr, p.key.value);
      assert ParentOk(h, l, n);
    }
  }

  lemma ChainPrefix(h: Heap, root: Addr, stack: seq<Position>, i: nat)
    requires Chain(h, root, stack) && i <= |stack|
    ensures Chain(h, root, stack[..i])
    ensures NextAddr(h, root, stack[..i], i) == NextAddr(h, root, stack, i)
  {
    forall j | 0 <= j < i
      ensures Fits(h, stack[..i][j])
    {
      assert Fits(h, stack[j]);
    }
    forall j | 0 <= j < i
      ensures NextAddr(h, root, stack[..i], j) == Some(stack[..i][j].addr)
    {
      assert NextAddr(h, root, stack, j) == Some(stack[j].addr);
    }
  }

  lemma ChainExtend(h: Heap, root: Addr, stack: seq<Position>, p: Position)
    requires Chain(h, root, stack) && Fits(h, p) && NextAddr(h, root, stack, |stack|) == Some(p.addr)
    ensures Chain(h, root, stack + [p])
  {
    var t := stack + [p];
    forall j | 0 <= j < |t|
      ensures Fits(h, t[j])
    {
      assert j < |stack| ==> t[j] == stack[j] && Fits(h, stack[j]);
    }
    forall j | 0 <= j < |t|
      ensures NextAddr(h, root, t, j) == Some(t[j].addr)
    {
      assert j < |stack| ==> NextAddr(h, root, stack, j) == Some(stack[j].addr);
    }
  }

  lemma ChainNode(h: Heap, root: Addr, l: Layout, stack: seq<Position>, i: nat)
    requires Shape(h, root, l) && Chain(h, root, stack) && i < |stack|
    ensures Fits(h, stack[i]) && stack[i].addr in l.at
    ensures Spelled(h, l, stack[i]) == Spell(l.at[stack[i].addr], stack[i].key.value, EntryAt(h, stack[i]).stem)
    ensures i + 1 < |stack| ==> stack[i + 1].addr in l.at && l.at[stack[i + 1].addr] == Spelled(h, l, stack[i])
    ensures i == 0 ==> l.at[stack[i].addr] == []
  {
    assert Fits(h, stack[i]);
    assert NextAddr(h, root, stack, i) == Some(stack[i].addr);
    if i + 1 < |stack| {
      var p := stack[i];
      assert NextAddr(h, root, stack, i + 1) == Some(stack[i + 1].addr);
      assert EntryOk(h, root, l, p.addr, p.key.value);
      assert ParentOk(h, l, stack[i + 1].addr);
    }
  }

  /** Nodes along a path sit at ever longer strings, each a prefix of the next. */
  lemma {:induction false} ChainGrows(h: Heap, root: Addr, l: Layout, stack: seq<Position>, i: nat, j: nat)
    requires Shape(h, root, l) && Chain(h, root, stack) && i < j < |stack|
    ensures stack[i].addr in l.at && stack[j].addr in l.at
    ensures l.at[stack[i].addr] <= l.at[stack[j].addr] && |l.at[stack[i].addr]| < |l.at[stack[j].addr]|
    decreases j - i
  {
    ChainNode(h, root, l, stack, i);
    if i + 1 < j {
      ChainGrows(h, root, l, stack, i + 1, j);
    }
  }

  lemma ChainBelowString(h: Heap, root: Addr, l: Layout, stack: seq<Position>, i: nat)
    requires Shape(h, root, l) && Chain(h, root, stack) && i < |stack|
    ensures stack[i].addr in l.at
    ensures l.at[stack[i].addr] <= PathString(h, root, l, stack)
    ensures |l.at[stack[i].addr]| < |PathString(h, root, l, stack)|
  {
    var m := |stack| - 1;
    ChainNode(h, root, l, stack, m);
    if i < m {
      ChainGrows(h, root, l, stack, i, m);
    }
  }

  /** A path stays a path when the entries it uses keep their stems and children. */
  lemma ChainKept(h: Heap, h': Heap, root: Addr, stack: seq<Position>)
    requires Chain(h, root, stack)
    requires forall i | 0 <= i < |stack| :: Fits(h', stack[i])
    requires forall i | 0 <= i < |stack| - 1 :: EntryAt(h', stack[i]).child == EntryAt(h, stack[i]).child
    ensures Chain(h', root, stack)
  {
    forall i | 0 <= i < |stack|
      ensures NextAddr(h', root, stack, i) == Some(stack[i].addr)
    {
      assert NextAddr(h, root, stack, i) == Some(stack[i].addr);
    }
  }

  // ----- recorded versions -----

  /** A position on an existing node has recorded the version that the node still carries. */
  predicate InStep(h: Heap, p: Position)
  {
    p.addr in h ==> p.version == h[p.addr].version
  }

  /** All positions have: the version check finds nothing to repair. */
  predicate Current(h: Heap, stack: seq<Position>)
  {
    forall i | 0 <= i < |stack| :: InStep(h, stack[i])
  }

  /** Of the nodes there were, only node `n` has changed, and its version tells. */
  ghost predicate ChangedOnly(h: Heap, h': Heap, n: Addr)
  {
    && n in h && n in h' && h[n].version < h'[n].version
    && (forall a | a in h && a != n :: a in h' && h'[a] == h[a])
  }

  /** A change of the node that a path leads to, and of nodes that are new, leaves the path itself current. */
  lemma FrontCurrent(h: Heap, root: Addr, l: Layout, h': Heap, front: seq<Position>, n: Addr)
    requires Shape(h, root, l) && Chain(h, root, front) && NextAddr(h, root, front, |front|) == Some(n)
    requires forall a | a in h && a in h' && a != n :: h'[a] == h[a]
    ensures Current(h, front) ==> Current(h', front)
  {
    ArrivesAt(h, root, l, front, n);
    forall i | 0 <= i < |front| && InStep(h, front[i])
      ensures InStep(h', front[i])
    {
      ChainBelowString(h, root, l, front, i);
      assert Fits(h, front[i]);
    }
  }
}
