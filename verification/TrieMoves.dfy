/** The moves of an iterator: down into a node, right within a node, up to the parent. */
module TrieMoves {
  import opened Common
  import opened Lex
  import opened TrieModel
  import opened TriePath
  import opened TrieOrder
  import opened TrieSearch
  import opened NodeSteps

  /** The position that `load_iterator` makes for entry `c` of node `n`. */
  function Loaded(h: Heap, n: Addr, c: Atom): Position
    requires Has(h, n, c)
  {
    var e := At(h, n, c);
    Position(n, Some(c), Some(|e.stem|), e.child.Some?, e.value.Some?, h[n].version)
  }

  predicate ChildUp(stack: seq<Position>, i: nat)
    requires i < |stack|
  {
    stack[i].hasChild
  }

  /** Every position has its child flag up. */
  predicate AllChild(stack: seq<Position>)
  {
    forall i {:trigger ChildUp(stack, i)} | 0 <= i < |stack| :: ChildUp(stack, i)
  }

  /** All positions above the last have their child flag up, as they must on a path. */
  predicate FlagsSound(stack: seq<Position>)
  {
    stack != [] ==> AllChild(stack[..|stack| - 1])
  }

  lemma AllChildFront(stack: seq<Position>)
    requires AllChild(stack)
    ensures FlagsSound(stack)
  {
    if stack != [] {
      var front := stack[..|stack| - 1];
      forall i | 0 <= i < |front|
        ensures ChildUp(front, i)
      {
        assert ChildUp(stack, i);
      }
    }
  }

  lemma AllChildExtend(stack: seq<Position>, p: Position)
    requires AllChild(stack)
    ensures FlagsSound(stack + [p])
    ensures p.hasChild ==> AllChild(stack + [p])
  {
    assert (stack + [p])[..|stack|] == stack;
    if p.hasChild {
      forall i | 0 <= i < |stack + [p]|
        ensures ChildUp(stack + [p], i)
      {
        assert i < |stack| ==> ChildUp(stack, i);
      }
    }
  }

  lemma Emplaced(h: Heap, root: Addr, l: Layout, prefix: Str, stack: seq<Position>, n: Addr, c: Atom)
    requires Shape(h, root, l) && LeadsTo(h, root, l, prefix, stack, n) && Has(h, n, c)
    ensures n in l.at && prefix == l.at[n]
    ensures prefix + [c] + At(h, n, c).stem == Spell(l.at[n], c, At(h, n, c).stem)
    ensures OnPath(h, root, l, prefix + [c] + At(h, n, c).stem, stack + [Loaded(h, n, c)])
    ensures AllChild(stack) ==> FlagsSound(stack + [Loaded(h, n, c)])
    ensures AllChild(stack) && At(h, n, c).child.Some? ==> AllChild(stack + [Loaded(h, n, c)])
  {
    if AllChild(stack) {
      AllChildExtend(stack, Loaded(h, n, c));
    }
    ArrivesAt(h, root, l, stack, n);
    ChainExtend(h, root, stack, Loaded(h, n, c));
  }

  /** Dropping the last position leaves the path that leads to its node. */
  lemma Popped(h: Heap, root: Addr, l: Layout, prefix: Str, stack: seq<Position>)
    requires Shape(h, root, l) && OnChain(h, root, l, prefix, stack) && stack != []
    ensures var p := stack[|stack| - 1]; var front := stack[..|stack| - 1];
      && Fits(h, p) && p.addr in l.at
      && prefix == Spell(l.at[p.addr], p.key.value, EntryAt(h, p).stem)
      && p.stemSize.value + 1 <= |prefix|
      && prefix[..|prefix| - (p.stemSize.value + 1)] == l.at[p.addr]
      && LeadsTo(h, root, l, l.at[p.addr], front, p.addr)
    ensures FlagsSound(stack) ==> AllChild(stack[..|stack| - 1]) && FlagsSound(stack[..|stack| - 1])
    ensures FlagsSound(stack) && stack[|stack| - 1].hasChild ==> AllChild(stack)
  {
    if FlagsSound(stack) {
      AllChildFront(stack[..|stack| - 1]);
      AllChildExtend(stack[..|stack| - 1], stack[|stack| - 1]);
      assert stack == stack[..|stack| - 1] + [stack[|stack| - 1]];
    }
    var m := |stack| - 1;
    ChainNode(h, root, l, stack, m);
    ChainPrefix(h, root, stack, m);
    assert m > 0 ==> Fits(h, stack[..m][m - 1]);
    assert NextAddr(h, root, stack, m) == Some(stack[m].addr);
    ArrivesAt(h, root, l, stack[..m], stack[m].addr);
  }

  lemma LeadsUp(h: Heap, root: Addr, l: Layout, prefix: Str, stack: seq<Position>, n: Addr)
    requires Shape(h, root, l) && LeadsTo(h, root, l, prefix, stack, n)
    ensures n in l.at && prefix == l.at[n]
    ensures stack == [] ==> prefix == []
  {
    ArrivesAt(h, root, l, stack, n);
  }

  lemma EmptyRoot(h: Heap, root: Addr, l: Layout)
    requires Shape(h, root, l) && h[root].entries == map[]
    ensures Contents(h, root, l) == map[]
  {
    forall t
      ensures t !in Contents(h, root, l)
    {
      ContentsIsLookup(h, root, l, t);
    }
  }

  /** The first entry of the root is where all stored keys begin. */
  lemma RootFirst(h: Heap, root: Addr, l: Layout, c: Atom)
    requires Shape(h, root, l) && FirstIn(h, root, c, -1)
    ensures var q := Spell([], c, At(h, root, c).stem); Funnel(Contents(h, root, l), [], q) && q != []
  {
    EmptyPrefix(Contents(h, root, l));
    FunnelStep(h, root, l, [], root, c);
  }

  lemma EmptyPrefix(m: map<Str, Value>)
    ensures Funnel(m, [], [])
  {
  }

  /** The first stored key below or at the root's first entry is the least of all. */
  lemma LeastOfAll(h: Heap, root: Addr, l: Layout, q: Str, r: Str)
    requires Shape(h, root, l)
    requires Funnel(Contents(h, root, l), [], q) && q != []
    requires FirstBelow(Contents(h, root, l), q, r)
    ensures Least(Contents(h, root, l).Keys, r)
  {
    var m := Contents(h, root, l);
    forall t | t in m
      ensures t == r || Less(r, t)
    {
      ContentsIsLookup(h, root, l, t);
      assert t in Under(m, []);
      if q <= t {
        if q in m && t != q {
          LessExtension(q, t);
        }
        assert q !in m ==> t in Under(m, q);
      } else {
        BeyondContinuation(q, r, t);
      }
    }
  }

  /** A path on an entry without a value leads on to its child, which is not empty. */
  lemma LeadsToChild(h: Heap, root: Addr, l: Layout, prefix: Str, stack: seq<Position>, child: Option<Addr>)
    requires Tree(h, root, l) && OnPath(h, root, l, prefix, stack) && stack != []
    requires var p := stack[|stack| - 1]; (p.hasChild || !p.hasData) && child == EntryAt(h, p).child
    ensures child.Some? && child.value in h && !IsEmptyNode(h, child.value)
    ensures LeadsTo(h, root, l, prefix, stack, child.value)
    ensures FlagsSound(stack) ==> AllChild(stack)
  {
    Popped(h, root, l, prefix, stack);
    var p := stack[|stack| - 1];
    assert EntryOk(h, root, l, p.addr, p.key.value);
    ChildIsDeeper(h, root, l, p.addr, p.key.value);
    assert !IsEmptyNode(h, child.value);
  }

  /** The last position of a path is stored exactly if it has its data flag up. */
  lemma StoredByFlag(h: Heap, root: Addr, l: Layout, prefix: Str, stack: seq<Position>)
    requires Shape(h, root, l) && OnPath(h, root, l, prefix, stack) && stack != []
    ensures prefix in Contents(h, root, l) <==> stack[|stack| - 1].hasData
    ensures prefix in Contents(h, root, l) ==> EntryAt(h, stack[|stack| - 1]).value == Some(Contents(h, root, l)[prefix])
  {
    var p := stack[|stack| - 1];
    ChainNode(h, root, l, stack, |stack| - 1);
    NotStoredWithoutValue(h, root, l, p.addr, p.key.value);
  }

  /** Replacing the last position by the next entry of its node. */
  lemma RightTurn(h: Heap, root: Addr, l: Layout, prefix: Str, stack: seq<Position>, d: Atom, k: Str, skip: bool)
    requires Shape(h, root, l) && OnChain(h, root, l, prefix, stack) && stack != []
    requires Passed(Contents(h, root, l), k, skip, prefix)
    requires var p := stack[|stack| - 1]; FirstIn(h, p.addr, d, p.key.value)
    ensures var p := stack[|stack| - 1]; var front := stack[..|stack| - 1];
      && p.stemSize.Some? && p.stemSize.value + 1 <= |prefix|
      && var q := prefix[..|prefix| - (p.stemSize.value + 1)] + [d] + At(h, p.addr, d).stem;
      && OnPath(h, root, l, q, front + [Loaded(h, p.addr, d)])
      && BeginsAt(Contents(h, root, l), k, skip, q)
      && (FlagsSound(stack) ==> AllChild(front))
  {
    var p := stack[|stack| - 1];
    Popped(h, root, l, prefix, stack);
    Emplaced(h, root, l, l.at[p.addr], stack[..|stack| - 1], p.addr, d);
    StepRight(h, root, l, p.addr, p.key.value, d, k, skip);
  }

  /** The last position of a chain names an existing entry. */
  lemma LastEntry(h: Heap, root: Addr, l: Layout, prefix: Str, stack: seq<Position>)
    requires Tree(h, root, l) && OnChain(h, root, l, prefix, stack) && stack != []
    ensures var p := stack[|stack| - 1];
      p.key.Some? && Has(h, p.addr, p.key.value) && p.stemSize.Some? && p.stemSize.value + 1 <= |prefix|
  {
    Popped(h, root, l, prefix, stack);
  }

  /** Looking for the next entry of the last node either finds one to go on from, or the last one is the rightmost. */
  lemma TurnOrNot(h: Heap, root: Addr, l: Layout, prefix: Str, stack: seq<Position>, right: Option<Atom>, k: Str, skip: bool)
    requires Tree(h, root, l) && OnChain(h, root, l, prefix, stack) && stack != []
    requires Passed(Contents(h, root, l), k, skip, prefix)
    requires var p := stack[|stack| - 1];
      p.key.Some? && p.addr in h && var c: int := p.key.value; right == KeyFrom(h[p.addr].entries.Keys, c + 1)
    ensures var p := stack[|stack| - 1]; right.None? ==> Rightmost(h, p.addr, p.key.value)
    ensures right.Some? ==>
      (var p := stack[|stack| - 1]; var stack' := stack[..|stack| - 1] + [Loaded(h, p.addr, right.value)];
       && Has(h, p.addr, right.value) && p.stemSize.Some? && p.stemSize.value + 1 <= |prefix|
       && var q := prefix[..|prefix| - (p.stemSize.value + 1)] + [right.value] + At(h, p.addr, right.value).stem;
       && OnPath(h, root, l, q, stack') && BeginsAt(Contents(h, root, l), k, skip, q)
       && (FlagsSound(stack) ==> FlagsSound(stack')))
  {
    hide OnPath, OnChain, BeginsAt, Passed, FlagsSound, TrieModel.Contents;
    if right.Some? {
      RightTurn(h, root, l, prefix, stack, right.value, k, skip);
      var front := stack[..|stack| - 1];
      if AllChild(front) {
        AllChildExtend(front, Loaded(h, stack[|stack| - 1].addr, right.value));
      }
    }
  }

  lemma NoRightTurn(h: Heap, root: Addr, l: Layout, prefix: Str, stack: seq<Position>, k: Str, skip: bool)
    requires Shape(h, root, l) && OnChain(h, root, l, prefix, stack) && stack != []
    requires Passed(Contents(h, root, l), k, skip, prefix)
    requires var p := stack[|stack| - 1]; Rightmost(h, p.addr, p.key.value)
    ensures var p := stack[|stack| - 1]; var front := stack[..|stack| - 1];
      && p.stemSize.Some? && p.stemSize.value + 1 <= |prefix|
      && var up := prefix[..|prefix| - (p.stemSize.value + 1)];
      && OnChain(h, root, l, up, front)
      && Passed(Contents(h, root, l), k, skip, up)
      && (front == [] ==> up == [])
      && (FlagsSound(stack) ==> FlagsSound(front))
  {
    var p := stack[|stack| - 1];
    Popped(h, root, l, prefix, stack);
    PassedUp(h, root, l, p.addr, p.key.value, k, skip);
    LeadsUp(h, root, l, l.at[p.addr], stack[..|stack| - 1], p.addr);
  }

  /** The first step down from the root. */
  lemma RootTurn(h: Heap, root: Addr, l: Layout, c: Atom)
    requires Shape(h, root, l) && FirstIn(h, root, c, -1)
    ensures var q := [] + [c] + At(h, root, c).stem;
      && OnPath(h, root, l, q, [] + [Loaded(h, root, c)])
      && Funnel(Contents(h, root, l), [], q) && q != []
  {
    RootFirst(h, root, l, c);
    Emplaced(h, root, l, [], [], root, c);
  }

  /** A comparison only goes on over positions with their child flag up. */
  lemma {:induction false} WalkSound(h: Heap, prefix: Str, front: seq<Position>, n: Addr, s: Str)
    requires s != [] && AllChild(front)
    ensures FlagsSound(Walk(h, prefix, front, n, s).stack)
    decreases |s|
  {
    var t, p := CompareStep(h, n, s), StepPosition(h, n, s);
    AllChildExtend(front, p);
    if t.r == StemEnd && p.hasChild {
      WalkSound(h, prefix + s[..t.used], front + [p], At(h, n, s[0]).child.value, s[t.used..]);
    }
  }

  /** The comparison records the versions it meets. */
  lemma {:induction false} WalkCurrent(h: Heap, prefix: Str, front: seq<Position>, n: Addr, s: Str)
    requires s != [] && Current(h, front)
    ensures Current(h, Walk(h, prefix, front, n, s).stack)
    decreases |s|
  {
    var t, p := CompareStep(h, n, s), StepPosition(h, n, s);
    if t.r == StemEnd && p.hasChild {
      WalkCurrent(h, prefix + s[..t.used], front + [p], At(h, n, s[0]).child.value, s[t.used..]);
    }
  }

  lemma FlagsCut(stack: seq<Position>, j: nat)
    requires j < |stack|
    ensures FlagsSound(stack) ==> AllChild(stack[..j])
  {
    if FlagsSound(stack) {
      forall i | 0 <= i < j
        ensures ChildUp(stack[..j], i)
      {
        assert ChildUp(stack[..|stack| - 1], i);
      }
    }
  }

  lemma SameFrontSameFlags(stack: seq<Position>, stack': seq<Position>)
    requires stack != [] && stack' != [] && stack'[..|stack'| - 1] == stack[..|stack| - 1]
    ensures FlagsSound(stack') <==> FlagsSound(stack)
  {
  }

  lemma FlagMissing(stack: seq<Position>, i: nat)
    requires i + 1 < |stack| && !stack[i].hasChild
    ensures !FlagsSound(stack)
  {
    assert !ChildUp(stack[..|stack| - 1], i);
  }

  lemma ArrivesHere(h: Heap, root: Addr, l: Layout, prefix: Str, stack: seq<Position>)
    requires Shape(h, root, l) && OnChain(h, root, l, prefix, stack) && stack != []
    ensures var p := stack[|stack| - 1]; p.addr in l.at && prefix == Spell(l.at[p.addr], p.key.value, EntryAt(h, p).stem)
  {
    Popped(h, root, l, prefix, stack);
  }

  /** The entry an iterator on a stored key points to. */
  lemma OnKeyEntry(h: Heap, root: Addr, l: Layout, prefix: Str, stack: seq<Position>)
    requires Tree(h, root, l) && OnKey(h, root, l, prefix, stack) && stack != []
    ensures Shape(h, root, l)
    ensures var p := stack[|stack| - 1];
      && p.key.Some? && Has(h, p.addr, p.key.value) && p.addr in l.at
      && prefix == Spell(l.at[p.addr], p.key.value, At(h, p.addr, p.key.value).stem)
      && At(h, p.addr, p.key.value).value.Some?
      && p.hasChild == At(h, p.addr, p.key.value).child.Some?
  {
    ArrivesHere(h, root, l, prefix, stack);
  }
}
