/** The trie: nodes in an address space, counters in a header, and iterators that walk it. */
module TrieStore {
  import opened Common
  import opened Lex
  import opened TrieModel
  import opened TriePath
  import opened TrieOrder
  import opened TrieSearch
  import opened TrieMoves
  import opened TrieVersions
  import opened TrieSync
  import opened TrieIteration
  import opened TrieChange
  import opened TrieInsert
  import opened TrieErase
  import opened TrieSubtree
  import opened NodeSteps

  /** What `insert` comes to: whether the key is new, or an exception that the transaction rolls back. */
  datatype InsertOutcome = Done(added: bool) | OutOfRange

  class Trie {
    var nodes: Heap
    var root: Addr
    var count: nat
    var nodesAllocated: nat
    var version: nat
    ghost var lay: Layout

    /** `create_new`: an empty root. */
    constructor ()
      ensures Valid() && Contents() == map[] && version == 0
    {
      nodes, root := map[0 := NewNode], 0;
      count, nodesAllocated, version := 0, 1, 0;
      lay := Layout(map[0 := []], map[]);
      new;
      EmptyRoot(nodes, root, lay);
    }

    ghost predicate Valid()
      reads this
    {
      Tree(nodes, root, lay) && count == |Contents()| && nodesAllocated == |nodes|
    }

    /** The stored map. */
    ghost function Contents(): map<Str, Value>
      reads this`nodes, this`root, this`lay
    {
      TrieModel.Contents(nodes, root, lay)
    }

    ghost function Snap(): Snapshot
      reads this`nodes, this`root, this`version
    {
      Snapshot(nodes, root, version)
    }

    ghost predicate IsOnKey(it: TrieIterator)
      reads this`nodes, this`root, this`lay, it`prefix, it`stack
    {
      OnKey(nodes, root, lay, it.prefix, it.stack)
    }

    ghost predicate CanSync(it: TrieIterator)
      reads this, it
    {
      Trackable(Snap(), lay, it.prefix, it.stack, it.version)
    }

    /** Every iterator on a stored key can be brought back into step later; `TrackableOverRun` says that this lasts. */
    lemma OnKeyCanSync(it: TrieIterator)
      requires Valid() && IsOnKey(it) && it.version <= version
      ensures CanSync(it)
    {
      OnKeyIsTrackable(Snap(), lay, it.prefix, it.stack, it.version);
    }

    // ----- looking into nodes -----

    method LoadIterator(addr: Addr, pos: Option<Atom>, it: TrieIterator, replaceBack: bool)
      returns (ok: bool, child: Option<Addr>)
      requires addr in nodes && (pos.Some? ==> Has(nodes, addr, pos.value))
      requires replaceBack ==>
        it.stack != [] && it.Back().stemSize.Some? && it.Back().stemSize.value + 1 <= |it.prefix|
      modifies it`prefix, it`stack
      ensures ok == pos.Some?
      ensures !ok ==> it.prefix == old(it.prefix) && it.stack == old(it.stack)
      ensures ok ==> child == At(nodes, addr, pos.value).child
      ensures ok && !replaceBack ==>
        && it.prefix == old(it.prefix) + [pos.value] + At(nodes, addr, pos.value).stem
        && it.stack == old(it.stack) + [Loaded(nodes, addr, pos.value)]
      ensures ok && replaceBack ==>
        && it.prefix == old(it.prefix[..|it.prefix| - (it.Back().stemSize.value + 1)])
                        + [pos.value] + At(nodes, addr, pos.value).stem
        && it.stack == old(it.Front()) + [Loaded(nodes, addr, pos.value)]
    {
      if pos.None? {
        return false, None;
      }
      var e := At(nodes, addr, pos.value);
      var p := Position(addr, pos, None, false, false, nodes[addr].version);
      if replaceBack {
        it.UpdateBack(p, e.stem);
      } else {
        it.Emplace(p, e.stem);
      }
      it.SetBack(it.Back().(hasChild := e.child.Some?, hasData := e.value.Some?));
      return true, e.child;
    }

    /** Enters node `start` and goes down its first entries to the first stored key. */
    method EnterDeepUntilTerminal(start: Addr, it: TrieIterator)
      requires Tree(nodes, root, lay) && LeadsTo(nodes, root, lay, it.prefix, it.stack, start)
      requires start in nodes && !IsEmptyNode(nodes, start)
      modifies it`prefix, it`stack
      ensures IsOnKey(it) && it.stack != []
      ensures Least(Under(Contents(), old(it.prefix)), it.prefix)
      ensures AllChild(old(it.stack)) ==> FlagsSound(it.stack)
      ensures Current(nodes, old(it.stack)) ==> Current(nodes, it.stack)
    {
      hide TrieModel.Contents;
      ghost var p := it.prefix;
      var n := start;
      LeadsUp(nodes, root, lay, it.prefix, it.stack, n);
      while true
        invariant LeadsTo(nodes, root, lay, it.prefix, it.stack, n)
        invariant n in nodes && !IsEmptyNode(nodes, n) && n in lay.at && it.prefix == lay.at[n]
        invariant Funnel(Contents(), p, it.prefix) && (p == it.prefix || it.prefix !in Contents())
        invariant AllChild(old(it.stack)) ==> AllChild(it.stack)
        invariant Current(nodes, old(it.stack)) ==> Current(nodes, it.stack)
        decreases Deeper(lay, n)
      {
        var first := KeyFrom(nodes[n].entries.Keys, 0);
        var c := FirstExists(nodes[n].entries, first);
        Emplaced(nodes, root, lay, it.prefix, it.stack, n, c);
        FunnelStep(nodes, root, lay, p, n, c);
        SpellAt(lay.at[n], c, At(nodes, n, c).stem);
        NotStoredWithoutValue(nodes, root, lay, n, c);
        assert EntryOk(nodes, root, lay, n, c);
        var ok, child := LoadIterator(n, first, it, false);
        if it.Back().hasData {
          FunnelEnds(Contents(), p, it.prefix);
          return;
        }
        ChildIsDeeper(nodes, root, lay, n, c);
        assert !IsEmptyNode(nodes, child.value);
        n := child.value;
      }
    }
  
    /** Stays on an entry with a value, or enters its child down to the first stored key. */
    method EnterUnlessTerminal(child: Option<Addr>, it: TrieIterator)
      requires Tree(nodes, root, lay) && OnPath(nodes, root, lay, it.prefix, it.stack) && it.stack != []
      requires child == EntryAt(nodes, it.Back()).child
      modifies it`prefix, it`stack
      ensures IsOnKey(it) && it.stack != []
      ensures FirstBelow(Contents(), old(it.prefix), it.prefix)
      ensures FlagsSound(old(it.stack)) ==> FlagsSound(it.stack)
      ensures Current(nodes, old(it.stack)) ==> Current(nodes, it.stack)
    {
      hide TrieModel.Contents;
      ghost var q, m := it.prefix, Contents();
      StoredByFlag(nodes, root, lay, it.prefix, it.stack);
      if !it.Back().hasData {
        LeadsToChild(nodes, root, lay, it.prefix, it.stack, child);
        EnterDeepUntilTerminal(child.value, it);
        assert FirstBelow(m, q, it.prefix);
      }
    }

    /** The least stored key, or the end of an empty trie. */
    method Begin() returns (it: TrieIterator)
      requires Valid()
      ensures fresh(it) && it.version <= version && IsOnKey(it) && FlagsSound(it.stack) && Current(nodes, it.stack)
      ensures NeverGivenUp(Snap(), it.prefix, it.stack, it.version)
      ensures it.IsEnd() <==> Contents() == map[]
      ensures !it.IsEnd() ==> Least(Contents().Keys, it.prefix) && it.version == version
    {
      hide TrieModel.Contents;
      it := new TrieIterator(version);
      var first := KeyFrom(nodes[root].entries.Keys, 0);
      if first.Some? {
        RootTurn(nodes, root, lay, first.value);
      }
      var ok, child := LoadIterator(root, first, it, false);
      if !ok {
        EmptyRoot(nodes, root, lay);
        it := new TrieIterator(0);
        FlagsDecide(Snap(), lay, it.prefix, it.stack, it.version);
        return;
      }
      ghost var q := it.prefix;
      EnterUnlessTerminal(child, it);
      LeastOfAll(nodes, root, lay, q, it.prefix);
      FlagsDecide(Snap(), lay, it.prefix, it.stack, it.version);
    }

    /** Replaces the last position by the next entry of its node, if there is one. */
    method TurnRight(it: TrieIterator, ghost k: Str, ghost skip: bool) returns (ok: bool, child: Option<Addr>)
      requires Tree(nodes, root, lay) && OnChain(nodes, root, lay, it.prefix, it.stack) && it.stack != []
      requires Passed(Contents(), k, skip, it.prefix)
      modifies it`prefix, it`stack
      ensures it.stack != []
      ensures ok ==> OnPath(nodes, root, lay, it.prefix, it.stack) && child == EntryAt(nodes, it.Back()).child
      ensures ok ==> BeginsAt(Contents(), k, skip, it.prefix)
      ensures !ok ==> it.prefix == old(it.prefix) && it.stack == old(it.stack)
      ensures !ok ==> Rightmost(nodes, it.Back().addr, it.Back().key.value)
      ensures FlagsSound(old(it.stack)) ==> FlagsSound(it.stack)
      ensures Current(nodes, old(it.stack)) ==> Current(nodes, it.stack)
    {
      hide Tree, OnChain, OnPath, BeginsAt, Passed, FlagsSound, Rightmost, TrieModel.Contents;
      var back := it.Back();
      LastEntry(nodes, root, lay, it.prefix, it.stack);
      var c: int := back.key.value;
      var right := KeyFrom(nodes[back.addr].entries.Keys, c + 1);
      TurnOrNot(nodes, root, lay, it.prefix, it.stack, right, k, skip);
      ok, child := LoadIterator(back.addr, right, it, true);
    }

    /** Within `_next` and `next_sibling`: to the next entry of the last node, and down to its first stored key. */
    method GoRight(it: TrieIterator, ghost k: Str, ghost skip: bool) returns (ok: bool)
      requires Tree(nodes, root, lay) && OnChain(nodes, root, lay, it.prefix, it.stack) && it.stack != []
      requires Passed(Contents(), k, skip, it.prefix)
      modifies it`prefix, it`stack
      ensures it.stack != []
      ensures ok ==> IsOnKey(it) && Least(Above(Contents(), k, skip), it.prefix)
      ensures !ok ==> it.prefix == old(it.prefix) && it.stack == old(it.stack)
      ensures !ok ==> Rightmost(nodes, it.Back().addr, it.Back().key.value)
      ensures FlagsSound(old(it.stack)) ==> FlagsSound(it.stack)
      ensures Current(nodes, old(it.stack)) ==> Current(nodes, it.stack)
    {
      hide TrieModel.Contents;
      var child;
      ok, child := TurnRight(it, k, skip);
      if ok {
        ghost var q := it.prefix;
        EnterUnlessTerminal(child, it);
        RightIsLeast(Contents(), k, skip, q, it.prefix);
      }
    }

    /** The loop of `_next` and `next_sibling`: right, or up and right, or to the end. */
    method ClimbRight(it: TrieIterator, ghost k: Str, ghost skip: bool)
      requires Tree(nodes, root, lay) && OnChain(nodes, root, lay, it.prefix, it.stack) && it.stack != []
      requires Passed(Contents(), k, skip, it.prefix)
      modifies it`prefix, it`stack
      ensures IsOnKey(it)
      ensures Landed(it, Above(Contents(), k, skip))
      ensures FlagsSound(old(it.stack)) ==> FlagsSound(it.stack)
      ensures Current(nodes, old(it.stack)) ==> Current(nodes, it.stack)
    {
      hide TrieModel.Contents;
      while !it.IsEnd()
        invariant OnChain(nodes, root, lay, it.prefix, it.stack)
        invariant Passed(Contents(), k, skip, it.prefix)
        invariant FlagsSound(old(it.stack)) ==> FlagsSound(it.stack)
        invariant Current(nodes, old(it.stack)) ==> Current(nodes, it.stack)
        decreases |it.stack|
      {
        var ok := GoRight(it, k, skip);
        if ok {
          return;
        }
        NoRightTurn(nodes, root, lay, it.prefix, it.stack, k, skip);
        it.Pop();
      }
      PassedEverything(Contents(), k, skip);
    }

    /** The iterator points to the least of `keys`, or to the end if there is none. */
    ghost predicate Landed(it: TrieIterator, keys: set<Str>)
      reads it
    {
      if keys == {} then it.IsEnd() else !it.IsEnd() && Least(keys, it.prefix)
    }

    /** `_next`: the least stored key above the current one; without `wayDown`, the least that does not continue it. */
    method Advance(it: TrieIterator, wayDown: bool)
      requires Tree(nodes, root, lay) && OnPath(nodes, root, lay, it.prefix, it.stack)
      modifies it`prefix, it`stack
      ensures IsOnKey(it)
      ensures old(it.stack) == [] ==> it.IsEnd()
      ensures old(it.stack) != [] ==> Landed(it, Above(Contents(), old(it.prefix), !wayDown))
      ensures FlagsSound(old(it.stack)) ==> FlagsSound(it.stack)
      ensures Current(nodes, old(it.stack)) ==> Current(nodes, it.stack)
    {
      hide TrieModel.Contents;
      if it.IsEnd() {
        return;
      }
      var back := it.Back();
      Popped(nodes, root, lay, it.prefix, it.stack);
      if wayDown && back.hasChild {
        var child := At(nodes, back.addr, back.key.value).child;
        LeadsToChild(nodes, root, lay, it.prefix, it.stack, child);
        ghost var k := it.prefix;
        EnterDeepUntilTerminal(child.value, it);
        DownIsLeast(Contents(), k, it.prefix);
      } else {
        PassedAtStart(nodes, root, lay, back.addr, back.key.value, !wayDown);
        ClimbRight(it, it.prefix, !wayDown);
      }
    }

    // ----- comparing a string with the entries on its path -----

    /** The path ends in a node that has not been looked into: a bare position was pushed for it. */
    ghost predicate AtNode(it: TrieIterator)
      reads this`nodes, this`root, this`lay, it`prefix, it`stack
    {
      && it.stack != []
      && LeadsTo(nodes, root, lay, it.prefix, it.stack[..|it.stack| - 1], it.stack[|it.stack| - 1].addr)
      && it.stack[|it.stack| - 1].stemSize.None?
    }

    /** Matches the stem of an entry against the string: `StringMemoryManager::get` with the comparing callback. */
    method MatchStem(it: TrieIterator, stem: Str, s: Str) returns (m: nat, rest: Str, r: StemCompare)
      modifies it`prefix
      ensures m == MatchLen(stem, s) && rest == s[m..] && it.prefix == old(it.prefix) + s[..m]
      ensures r == if m == |stem| then Equals else if m == |s| then StringEnd else Unequals
    {
      m, rest, r := 0, s, Equals;
      while m < |stem|
        invariant m <= |stem| && m <= |s| && rest == s[m..] && stem[..m] == s[..m] && r == Equals
        invariant it.prefix == old(it.prefix) + stem[..m]
      {
        if rest == [] {
          MatchLenIs(stem, s, m);
          return m, rest, StringEnd;
        }
        if stem[m] != rest[0] {
          MatchLenIs(stem, s, m);
          return m, rest, Unequals;
        }
        it.prefix := it.prefix + [rest[0]];
        assert stem[..m + 1] == stem[..m] + [stem[m]] && s[..m + 1] == s[..m] + [s[m]];
        rest, m := rest[1..], m + 1;
      }
      MatchLenIs(stem, s, m);
    }

    /** One round of `mismatch`: the first byte of `s` and the stem of its entry in the node the path leads to. */
    method CompareEntry(it: TrieIterator, s: Str) returns (r: StemCompare, rest: Str)
      requires it.stack != [] && it.Back().stemSize.None? && s != []
      modifies it`prefix, it`stack
      ensures var n := old(it.stack)[|old(it.stack)| - 1].addr;
        var t := CompareStep(nodes, n, s);
        && r == t.r && rest == s[t.used..] && it.prefix == old(it.prefix) + s[..t.used]
        && it.stack == old(it.stack)[..|old(it.stack)| - 1] + [StepPosition(nodes, n, s)]
    {
      var n, c := it.Back().addr, s[0];
      rest := s[1..];
      var hasChild := Has(nodes, n, c) && At(nodes, n, c).child.Some?;
      var hasValue := Has(nodes, n, c) && At(nodes, n, c).value.Some?;
      it.SetKey(c, hasChild, hasValue, if n in nodes then nodes[n].version else 0);
      if !hasValue {
        if !hasChild {
          return NoEntry, rest;
        }
        if rest == [] {
          it.SetBack(it.Back().(stemSize := Some(0)));
          return StringEnd, rest;
        }
      }
      var m;
      m, rest, r := MatchStem(it, At(nodes, n, c).stem, rest);
      it.SetBack(it.Back().(stemSize := Some(m)));
      if r == Equals {
        if rest != [] {
          r := StemEnd;
        } else if !hasValue {
          r := StringEnd;
        }
      }
    }

    /** `mismatch`: follows the string down from the node the path leads to, until it ends or stops matching. */
    method Mismatch(it: TrieIterator, s: Str) returns (r: StemCompare, rest: Str)
      requires Valid() && AtNode(it) && s != []
      modifies it`prefix, it`stack
      ensures Walked(it.prefix, it.stack, rest, r) == old(Walk(nodes, it.prefix, it.Front(), it.Back().addr, s))
      ensures it.prefix + rest == old(it.prefix) + s
      ensures Compared(nodes, root, lay, it.prefix, it.stack, rest, r)
    {
      hide Compared, Tree, LeadsTo, CompareStep, StepPosition, TrieModel.Contents;
      WalkCompares(nodes, root, lay, it.prefix, it.Front(), it.Back().addr, s);
      r, rest := Equals, s;
      var node := Some(it.Back().addr);
      ghost var p, k := it.prefix, it.Front();
      ghost var w := Walk(nodes, p, k, node.value, s);
      while rest != [] && node.Some? && (r == Equals || r == StemEnd)
        invariant it.prefix == p
        invariant rest != [] && node.Some? && (r == Equals || r == StemEnd) ==>
          && it.stack != [] && it.Front() == k && it.Back().stemSize.None? && it.Back().addr == node.value
          && w == Walk(nodes, p, k, node.value, rest)
        invariant !(rest != [] && node.Some? && (r == Equals || r == StemEnd)) ==> w == Walked(p, it.stack, rest, r)
        decreases |rest|
      {
        var n, t := node.value, rest;
        r, rest := CompareEntry(it, t);
        p, k := it.prefix, it.stack;
        node := if Has(nodes, n, t[0]) then At(nodes, n, t[0]).child else None;
        if r == StemEnd && node.Some? {
          it.Push(node.value);
        }
      }
    }

    /** Prepares the iterator to be looked into below: from the root, or from the child of its last position. */
    method NavigationMode(it: TrieIterator) returns (ok: bool)
      requires Valid() && OnChain(nodes, root, lay, it.prefix, it.stack)
      requires it.stack != [] && it.Back().hasChild ==> EntryAt(nodes, it.Back()).child.Some?
      modifies it`stack
      ensures ok <==> old(it.stack) == [] || old(it.Back().hasChild)
      ensures if ok then AtNode(it) && it.stack[..|it.stack| - 1] == old(it.stack) else it.stack == old(it.stack)
    {
      var next := root;
      if !it.IsEnd() {
        if !it.Back().hasChild {
          return false;
        }
        next := At(nodes, it.Back().addr, it.Back().key.value).child.value;
      }
      ghost var stack := it.stack;
      it.Push(next);
      assert it.stack[..|it.stack| - 1] == stack;
      return true;
    }

    method CommonPrefix(s: Str, it: TrieIterator) returns (r: StemCompare)
      requires Valid() && it.stack == [] && it.prefix == []
      modifies it`prefix, it`stack
      ensures r.Equals? <==> s in Contents()
      ensures s != [] ==> (r.Equals? || r.StringEnd? <==> exists t :: t in Contents() && s <= t)
      ensures s == [] ==> r == Unequals
    {
      hide TrieModel.Contents;
      r := Unequals;
      if s == [] {
        ContentsIsLookup(nodes, root, lay, s);
        return;
      }
      var ok := NavigationMode(it);
      var rest;
      r, rest := Mismatch(it, s);
      assert it.prefix + rest == s;
      ComparedDecides(nodes, root, lay, it.prefix, it.stack, rest, r);
    }

    /** Whether the string is a stored key. */
    method CheckExists(s: Str) returns (b: bool)
      requires Valid()
      ensures b <==> s in Contents()
    {
      var it := new TrieIterator(0);
      var r := CommonPrefix(s, it);
      return r == Equals;
    }

    /** Whether some stored key starts with the string; always false for the empty string. */
    method CheckPrefixExists(s: Str) returns (b: bool)
      requires Valid()
      ensures b <==> s != [] && exists t :: t in Contents() && s <= t
    {
      var it := new TrieIterator(0);
      var r := CommonPrefix(s, it);
      return r == Equals || r == StringEnd;
    }

    /** `lower_bound_impl`, as far as its exact-match result goes. */
    method LowerBoundExact(it: TrieIterator, s: Str) returns (exact: bool)
      requires Valid() && OnChain(nodes, root, lay, it.prefix, it.stack)
      requires it.stack != [] && it.Back().hasChild ==> EntryAt(nodes, it.Back()).child.Some?
      modifies it`prefix, it`stack
      ensures exact <==> s != [] && old(it.stack == [] || it.Back().hasChild) && old(it.prefix) + s in Contents()
      ensures exact ==> IsOnKey(it) && it.stack != [] && it.prefix == old(it.prefix) + s
      ensures exact && AllChild(old(it.stack)) ==> FlagsSound(it.stack)
      ensures exact && Current(nodes, old(it.stack)) ==> Current(nodes, it.stack)
    {
      hide TrieModel.Contents;
      if s == [] {
        it.Clear();
        return false;
      }
      var ok := NavigationMode(it);
      if !ok {
        return false;
      }
      ghost var p, k, n := it.prefix, it.Front(), it.Back().addr;
      var r, rest := Mismatch(it, s);
      if AllChild(k) {
        WalkSound(nodes, p, k, n, s);
      }
      if Current(nodes, k) {
        WalkCurrent(nodes, p, k, n, s);
      }
      ComparedDecides(nodes, root, lay, it.prefix, it.stack, rest, r);
      if r == Equals {
        EqualsIsOnKey(nodes, root, lay, it.prefix, it.stack, rest);
        assert it.prefix + rest == it.prefix;
      }
      return r == Equals;
    }

    /** The iterator on the given key, or the end iterator if it is not stored. */
    method Find(s: Str) returns (it: TrieIterator)
      requires Valid()
      ensures fresh(it) && it.version <= version && IsOnKey(it) && FlagsSound(it.stack) && Current(nodes, it.stack)
      ensures if s in Contents() then !it.IsEnd() && it.prefix == s else it.IsEnd()
      ensures NeverGivenUp(Snap(), it.prefix, it.stack, it.version)
    {
      hide TrieModel.Contents;
      it := new TrieIterator(version);
      assert it.prefix + s == s && AllChild(it.stack);
      ContentsIsLookup(nodes, root, lay, []);
      var exact := LowerBoundExact(it, s);
      if !exact {
        it := new TrieIterator(0);
      }
      FlagsDecide(Snap(), lay, it.prefix, it.stack, it.version);
    }

    // ----- bringing an iterator back into step -----

    /** The version check of `sync_iterator`: how many positions are current, and how long a string they spell. */
    method CheckVersions(it: TrieIterator) returns (order: nat, length: nat)
      requires Valid() && CanSync(it)
      ensures order <= |it.stack| && StaleAt(nodes, root, lay, it.prefix, it.stack, order)
      ensures order == FirstStale(nodes, it.stack, 0)
      ensures length == |PathString(nodes, root, lay, it.stack[..order])|
    {
      hide TrieModel.Contents;
      ghost var j :| StaleAt(nodes, root, lay, it.prefix, it.stack, j);
      FirstStaleIs(nodes, root, lay, it.prefix, it.stack, j, 0);
      order, length := 0, 0;
      while order < |it.stack|
        invariant order <= j && length == |PathString(nodes, root, lay, it.stack[..order])|
      {
        var p := it.stack[order];
        if p.addr !in nodes || nodes[p.addr].version != p.version {
          if order < j {
            LengthGrows(Snap(), lay, it.prefix, it.stack, j, order);
          }
          return;
        }
        LengthGrows(Snap(), lay, it.prefix, it.stack, j, order);
        order, length := order + 1, length + p.stemSize.value + 1;
      }
    }

    /** Within `sync_iterator`: cuts the stack at a stale position; what is left of the key is to be searched anew. */
    method CutStale(it: TrieIterator, order: nat, length: nat) returns (suffix: Str)
      requires Valid() && order < |it.stack| && StaleAt(nodes, root, lay, it.prefix, it.stack, order)
      requires length == |PathString(nodes, root, lay, it.stack[..order])|
      modifies it`prefix, it`stack
      ensures OnChain(nodes, root, lay, it.prefix, it.stack)
      ensures |it.stack| == order && suffix != [] && it.prefix + suffix == old(it.prefix)
      ensures order > 0 ==> it.Back() == old(it.stack)[order - 1] && EntryAt(nodes, it.Back()).child.Some?
      ensures FlagsSound(old(it.stack)) ==> AllChild(it.stack)
      ensures Current(nodes, it.stack)
    {
      hide TrieModel.Contents;
      CutLeads(Snap(), lay, it.prefix, it.stack, order);
      FlagsCut(it.stack, order);
      CutAt(it.prefix, length);
      suffix := it.prefix[length..];
      it.prefix, it.stack := it.prefix[..length], it.stack[..order];
      ExactIsCurrent(nodes, root, it.stack);
    }

    /** Within `sync_iterator`: searches for the key of a stale iterator from its last current position. */
    method Relocate(it: TrieIterator, order: nat, length: nat) returns (ok: bool)
      requires Valid() && order < |it.stack| && StaleAt(nodes, root, lay, it.prefix, it.stack, order)
      requires length == |PathString(nodes, root, lay, it.stack[..order])|
      modifies it`prefix, it`stack
      ensures ok <==> old(it.prefix) in Contents() && (order == 0 || old(it.stack)[order - 1].hasChild)
      ensures ok ==> IsOnKey(it) && it.stack != [] && it.prefix == old(it.prefix)
      ensures ok && FlagsSound(old(it.stack)) ==> FlagsSound(it.stack)
      ensures ok ==> Current(nodes, it.stack)
    {
      var suffix := CutStale(it, order, length);
      ok := LowerBoundExact(it, suffix);
    }

    /** The key under the iterator can be found again: it is stored, and the search for it can start. */
    ghost predicate Findable(it: TrieIterator)
      reads this, it
    {
      TrieSync.Findable(Snap(), lay, it.prefix, it.stack, it.version)
    }

    /** `sync_iterator`: succeeds exactly if the iterator's key is still stored and the search for it can start
        where the version check stopped; then the iterator is on that key again. */
    method SyncIterator(it: TrieIterator) returns (ok: bool)
      requires Valid() && CanSync(it)
      modifies it
      ensures ok ==> IsOnKey(it) && it.prefix == old(it.prefix) && (it.stack == [] <==> old(it.stack) == [])
      ensures ok <==> old(it.stack == [] || Findable(it))
      ensures FlagsSound(old(it.stack)) ==> (ok <==> old(it.stack) == [] || old(it.prefix) in Contents())
      ensures ok && FlagsSound(old(it.stack)) ==> FlagsSound(it.stack)
      ensures old(it.version) == version ==> it.stack == old(it.stack)
      ensures old(it.version) != version && ok ==> Current(nodes, it.stack)
      ensures it.version == version
    {
      hide TrieModel.Contents, FlagsSound, CanRelocate, StaleAt;
      if FlagsSound(it.stack) {
        SoundRelocates(nodes, it.stack);
      }
      ghost var current := OnKey(nodes, root, lay, it.prefix, it.stack);
      if current && it.stack != [] {
        OnKeyIsStored(nodes, root, lay, it.prefix, it.stack);
      }
      if it.version == version {
        return true;
      }
      var order, length := CheckVersions(it);
      CheckedUpTo(nodes, root, lay, it.prefix, it.stack, order);
      it.version := version;
      if order == |it.stack| {
        return true;
      }
      ok := Relocate(it, order, length);
    }

    /** Bringing the iterator into step leaves all its recorded versions current. */
    ghost predicate KeepsUp(it: TrieIterator)
      reads this, it
    {
      it.version != version || Current(nodes, it.stack)
    }

    /** Moves to the least stored key above the current one, whatever happened to the trie in between. */
    method Next(it: TrieIterator)
      requires Valid() && CanSync(it)
      modifies it
      ensures old(it.stack) == [] ==> it.IsEnd() && IsOnKey(it)
      ensures old(it.stack != [] && Findable(it)) ==> IsOnKey(it) && Landed(it, Above(Contents(), old(it.prefix), false))
      ensures it.version == version
      ensures old(Findable(it) && FlagsSound(it.stack)) ==> FlagsSound(it.stack)
      ensures old(Findable(it) && KeepsUp(it)) ==> Current(nodes, it.stack)
    {
      hide TrieModel.Contents;
      var ok := SyncIterator(it);
      if ok {
        Advance(it, true);
      }
    }

    /** Moves to the least stored key above the current one that does not continue it. */
    method NextSibling(it: TrieIterator)
      requires Valid() && CanSync(it)
      modifies it
      ensures old(it.stack) == [] ==> it.IsEnd() && IsOnKey(it)
      ensures old(it.stack != [] && Findable(it)) ==> IsOnKey(it) && Landed(it, Above(Contents(), old(it.prefix), true))
      ensures it.version == version
      ensures old(Findable(it) && FlagsSound(it.stack)) ==> FlagsSound(it.stack)
      ensures old(Findable(it) && KeepsUp(it)) ==> Current(nodes, it.stack)
    {
      hide TrieModel.Contents;
      var ok := SyncIterator(it);
      if ok {
        Advance(it, false);
      }
    }

    /** Iteration from `begin()` to the end: every stored key once, in strictly ascending order. */
    method Iterate() returns (visited: seq<Str>)
      requires Valid()
      ensures forall i, j | 0 <= i < j < |visited| :: Less(visited[i], visited[j]) && visited[i] != visited[j]
      ensures forall t :: t in visited <==> t in Contents()
    {
      hide TrieModel.Contents, Tree, OnKey, Above, Least, FlagsSound;
      ghost var m := Contents();
      var it := Begin();
      visited := [];
      while !it.IsEnd()
        invariant fresh(it) && IsOnKey(it) && (!it.IsEnd() ==> it.version == version)
        invariant visited == [] ==> (it.IsEnd() <==> m == map[]) && (!it.IsEnd() ==> Least(m.Keys, it.prefix))
        invariant visited != [] ==> Ascent(m, visited) && Landed(it, Above(m, visited[|visited| - 1], false))
        decreases if visited == [] then m.Keys + {[]} else Above(m, visited[|visited| - 1], false)
      {
        OnKeyCanSync(it);
        OnStoredKey(it);
        AscentGrows(m, visited, it.prefix);
        visited := visited + [it.prefix];
        Next(it);
      }
      AscentEnds(m, visited);
    }

    // ----- inserting -----

    /** Allocates an empty node at any free address, possibly one used before. */
    method AllocateNode() returns (b: Addr)
      requires nodesAllocated == |nodes|
      modifies this`nodes, this`nodesAllocated
      ensures b !in old(nodes) && nodes == old(nodes)[b := NewNode] && nodesAllocated == |nodes|
    {
      SomeIsFree(nodes.Keys);
      b :| b !in nodes;
      nodes := nodes[b := NewNode];
      nodesAllocated := nodesAllocated + 1;
    }

    /** `move_from_entry`: cuts the entry's stem at `m` and moves the rest to node `b`. At the very end of the stem
        there is no byte to move; taking the rest of the stem then throws. */
    method MoveFromEntry(n: Addr, c: Atom, m: nat, b: Addr) returns (threw: bool)
      requires Has(nodes, n, c) && b in nodes && b != n && m <= |At(nodes, n, c).stem|
      requires nodes[b].entries == map[]
      modifies this`nodes
      ensures threw <==> m == |old(nodes)[n].entries[c].stem|
      ensures threw ==> nodes == old(nodes)
      ensures !threw ==> nodes == old(nodes[b := MovedIn(nodes[b], At(nodes, n, c), m)][n := MovedOut(nodes[n], c, m, b)])
    {
      var e := At(nodes, n, c);
      if m + 1 > |e.stem| {
        return true;
      }
      nodes := nodes[b := MovedIn(nodes[b], e, m)][n := MovedOut(nodes[n], c, m, b)];
      return false;
    }

    /** `unconditional_insert`: the position the iterator stands at becomes a new entry, with the end of the
        iterator's prefix as its stem. */
    method UnconditionalInsert(it: TrieIterator, v: Value)
      requires it.stack != []
      requires var p := it.Back(); p.key.Some? && p.stemSize.Some? && p.stemSize.value <= |it.prefix| && p.addr in nodes
      requires !Has(nodes, it.Back().addr, it.Back().key.value)
      modifies this`nodes, this`count, this`version, it`stack, it`version
      ensures old(it.Back()).addr in nodes
      ensures var p := old(it.Back()); var n' := nodes[p.addr];
        && nodes == old(nodes)[p.addr := n']
        && Inserted(old(nodes)[p.addr], n', p.key.value, it.prefix[|it.prefix| - p.stemSize.value..], v)
        && it.stack == old(it.Front()) + [p.(version := n'.version, hasData := true)]
      ensures count == old(count) + 1 && version == old(version) + 1 && it.version == version
      ensures nodes.Keys == old(nodes).Keys
    {
      var p := it.Back();
      var stem := it.prefix[|it.prefix| - p.stemSize.value..];
      var bumps: nat :| bumps > 0;
      var n' := Node(nodes[p.addr].version + bumps,
                     nodes[p.addr].entries[p.key.value := Entry(None, stem, Some(v))]);
      nodes := nodes[p.addr := n'];
      it.SetBack(p.(version := n'.version, hasData := true));
      version, count := version + 1, count + 1;
      it.version := version;
    }

    /** What a successful insertion leaves, relative to the trie and the comparison before it. */
    twostate predicate HasInserted(new it: TrieIterator, key: Str, v: Value)
      reads this, it
    {
      && InsertedPair(old(nodes), old(root), old(lay), nodes, lay, it.prefix, it.stack, key, v)
      && root == old(root) && count == old(count) + 1 && version == old(version) + 1
      && nodesAllocated == |nodes| && it.version <= version
    }

    /** Nothing in the node yet: the rest of the string is the stem of a new entry. */
    method InsertNoEntry(it: TrieIterator, rest: Str, v: Value)
      requires Valid() && Compared(nodes, root, lay, it.prefix, it.stack, rest, NoEntry) && it.version <= version
      modifies this, it
      ensures HasInserted(it, old(it.prefix) + rest, v)
      ensures AllChild(old(it.Front())) ==> FlagsSound(it.stack)
      ensures Current(old(nodes), old(it.Front())) ==> Current(nodes, it.stack)
      ensures ChangedOnly(old(nodes), nodes, old(it.Back().addr))
      ensures |nodes| == |old(nodes)|
    {
      hide TrieModel.Contents;
      ghost var h, l, k, s := nodes, lay, it.prefix, it.stack;
      var n := it.Back().addr;
      it.UpdateStem(rest);
      UnconditionalInsert(it, v);
      InsertsEntry(h, root, l, k, s, rest, v, nodes[n]);
      FrontCurrent(h, root, l, nodes, s[..|s| - 1], n);
      if AllChild(s[..|s| - 1]) {
        AllChildExtend(s[..|s| - 1], it.Back());
      }
    }

    /** `new_node` and `move_from_entry` together: the entry at `p` is split at the recorded stem size. */
    method SplitEntry(p: Position) returns (threw: bool, b: Addr)
      requires nodesAllocated == |nodes| && p.key.Some? && Has(nodes, p.addr, p.key.value)
      requires p.stemSize.Some? && p.stemSize.value <= |EntryAt(nodes, p).stem|
      modifies this`nodes, this`nodesAllocated
      ensures threw <==> p.stemSize.value == |old(EntryAt(nodes, p)).stem|
      ensures !threw ==> b !in old(nodes) && nodes == SplitHeap(old(nodes), p, b) && nodesAllocated == |nodes|
    {
      ghost var h := nodes;
      b := AllocateNode();
      assert At(nodes, p.addr, p.key.value) == At(h, p.addr, p.key.value);
      threw := MoveFromEntry(p.addr, p.key.value, p.stemSize.value, b);
      if !threw {
        assert nodes == SplitHeap(h, p, b);
        assert nodes.Keys == h.Keys + {b};
      }
    }

    /** `set_raw_factory_value` and the counters: the entry under the iterator gets its value. */
    method AssignValue(it: TrieIterator, v: Value)
      requires it.stack != [] && it.Back().key.Some? && Has(nodes, it.Back().addr, it.Back().key.value)
      modifies this`nodes, this`count, this`version, it`stack
      ensures var p := old(it.Back()); var n' := ValueSet(old(nodes)[p.addr], p.key.value, v);
        && nodes == old(nodes)[p.addr := n']
        && it.stack == old(it.Front()) + [p.(hasChild := true, hasData := true, version := n'.version)]
      ensures count == old(count) + 1 && version == old(version) + 1
    {
      var p := it.Back();
      nodes := nodes[p.addr := ValueSet(nodes[p.addr], p.key.value, v)];
      it.SetBack(p.(hasChild := true, hasData := true, version := nodes[p.addr].version));
      version, count := version + 1, count + 1;
    }

    /** The string ended on an entry without a value, directly after its key and with no stem in the way. */
    method InsertOnEntry(it: TrieIterator, v: Value)
      requires Valid() && Compared(nodes, root, lay, it.prefix, it.stack, [], StringEnd)
      requires EntryAt(nodes, it.Back()).stem == [] && it.version <= version
      modifies this, it
      ensures HasInserted(it, old(it.prefix), v)
      ensures AllChild(old(it.Front())) ==> FlagsSound(it.stack)
      ensures Current(old(nodes), old(it.Front())) ==> Current(nodes, it.stack)
      ensures ChangedOnly(old(nodes), nodes, old(it.Back().addr))
      ensures |nodes| == |old(nodes)|
    {
      hide TrieModel.Contents;
      ghost var h, l, k, s := nodes, lay, it.prefix, it.stack;
      InsertsValue(h, root, l, k, s, v);
      assert EntryOk(h, root, l, it.Back().addr, it.Back().key.value);
      if AllChild(s[..|s| - 1]) {
        AllChildExtend(s[..|s| - 1], Settled(it.Back(), 0, true, h[it.Back().addr].version + 1));
      }
      AssignValue(it, v);
      FrontCurrent(h, root, l, nodes, s[..|s| - 1], s[|s| - 1].addr);
    }

    /** The branch of `insert_mismatch_string_end` for an entry with a stem: split, then assign. */
    method SplitAndAssign(it: TrieIterator, v: Value) returns (threw: bool, b: Addr)
      requires it.stack != [] && it.Back().key.Some? && Has(nodes, it.Back().addr, it.Back().key.value)
      requires it.Back().stemSize.Some? && it.Back().stemSize.value <= |EntryAt(nodes, it.Back()).stem|
      requires nodesAllocated == |nodes|
      modifies this`nodes, this`nodesAllocated, this`count, this`version, it`stack
      ensures threw <==> old(it.Back().stemSize.value == |EntryAt(nodes, it.Back()).stem|)
      ensures threw ==> count == old(count) && version == old(version)
      ensures !threw ==> old(it.Back().stemSize.value < |EntryAt(nodes, it.Back()).stem|)
      ensures !threw ==>
        var p := old(it.Back()); var h1 := SplitHeap(old(nodes), p, b); var n' := ValueSet(h1[p.addr], p.key.value, v);
        && b !in old(nodes) && nodes == h1[p.addr := n']
        && it.stack == old(it.Front()) + [p.(hasChild := true, hasData := true, version := n'.version)]
        && nodesAllocated == |nodes| && count == old(count) + 1 && version == old(version) + 1
    {
      threw, b := SplitEntry(it.Back());
      if !threw {
        AssignValue(it, v);
      }
    }

    /** The string ended within or at the end of a stem: the stem is split there, which throws at its end. */
    method InsertInStem(it: TrieIterator, v: Value) returns (threw: bool)
      requires Tree(nodes, root, lay) && nodesAllocated == |nodes|
      requires Compared(nodes, root, lay, it.prefix, it.stack, [], StringEnd)
      requires EntryAt(nodes, it.Back()).stem != [] && it.version <= version
      modifies this`nodes, this`nodesAllocated, this`count, this`version, this`lay, it`stack
      ensures threw <==> old(it.Back().stemSize.value == |EntryAt(nodes, it.Back()).stem|)
      ensures threw ==> lay == old(lay) && count == old(count) && version == old(version)
      ensures !threw ==> HasInserted(it, old(it.prefix), v)
      ensures !threw && AllChild(old(it.Front())) ==> FlagsSound(it.stack)
      ensures !threw && Current(old(nodes), old(it.Front())) ==> Current(nodes, it.stack)
      ensures !threw ==> ChangedOnly(old(nodes), nodes, old(it.Back().addr)) && |nodes| == |old(nodes)| + 1
    {
      hide InsertedPair;
      ghost var h, rt, l, k, s, p := nodes, root, lay, it.prefix, it.stack, it.Back();
      ghost var n, c, m := p.addr, p.key.value, p.stemSize.value;
      var b;
      threw, b := SplitAndAssign(it, v);
      if !threw {
        lay := SplitLayout(h, l, n, c, m, b);
        InsertsInsideStem(h, rt, l, k, s, v, b, nodes, lay, it.stack);
        FrontCurrent(h, rt, l, nodes, s[..|s| - 1], n);
        if AllChild(s[..|s| - 1]) {
          AllChildExtend(s[..|s| - 1], it.Back());
        }
      }
    }

    /** The common end of both branches that made a node `b`: the rest of the string becomes an entry there. */
    method AppendEntry(it: TrieIterator, b: Addr, rest: Str, v: Value)
      requires rest != [] && b in nodes && !Has(nodes, b, rest[0])
      modifies this`nodes, this`count, this`version, it
      ensures nodes.Keys == old(nodes).Keys && b in nodes && nodes == old(nodes)[b := nodes[b]]
      ensures Inserted(old(nodes)[b], nodes[b], rest[0], rest[1..], v)
      ensures it.prefix == old(it.prefix) + rest
      ensures it.stack == old(it.stack) + [Position(b, Some(rest[0]), Some(|rest| - 1), false, true, nodes[b].version)]
      ensures count == old(count) + 1 && version == old(version) + 1 && it.version == version
    {
      SpellRest(it.prefix, rest);
      it.PushKey(b, rest[0]);
      it.UpdateStem(rest[1..]);
      UnconditionalInsert(it, v);
    }

    /** `new_node` and `set_child` together. */
    method HangNode(n: Addr, c: Atom) returns (b: Addr)
      requires Has(nodes, n, c) && At(nodes, n, c).child.None? && nodesAllocated == |nodes|
      modifies this`nodes, this`nodesAllocated
      ensures b !in old(nodes) && nodes == old(nodes)[b := NewNode][n := ChildSet(old(nodes)[n], c, b)]
      ensures nodesAllocated == |nodes|
    {
      ghost var h := nodes;
      b := AllocateNode();
      nodes := nodes[n := ChildSet(nodes[n], c, b)];
      assert nodes.Keys == h.Keys + {b};
    }

    /** The string goes on past an entry without a child: the rest becomes an entry of a new child. */
    method InsertStemEnd(it: TrieIterator, rest: Str, v: Value)
      requires Tree(nodes, root, lay) && nodesAllocated == |nodes|
      requires Compared(nodes, root, lay, it.prefix, it.stack, rest, StemEnd)
      modifies this`nodes, this`nodesAllocated, this`count, this`version, this`lay, it
      ensures HasInserted(it, old(it.prefix) + rest, v)
      ensures !FlagsSound(it.stack)
      ensures Current(old(nodes), old(it.Front())) ==> Current(nodes, it.stack)
      ensures ChangedOnly(old(nodes), nodes, old(it.Back().addr))
      ensures |nodes| == |old(nodes)| + 1
    {
      hide InsertedPair, Tree, Current, ChangedOnly;
      ghost var h, rt, l, k, s, p := nodes, root, lay, it.prefix, it.stack, it.Back();
      var back := it.Back();
      var b := HangNode(back.addr, back.key.value);
      it.SetBack(back.(version := nodes[back.addr].version));
      AppendEntry(it, b, rest, v);
      lay := WithNode(l, b, k, Slot(p.addr, p.key.value));
      InsertsChild(h, rt, l, k, s, rest, v, b, nodes, lay, it.stack);
      FlagMissing(it.stack, |it.stack| - 2);
    }

    /** The string leaves a stem halfway: the stem is split there and the rest becomes a second entry below it. */
    method InsertUnequals(it: TrieIterator, rest: Str, v: Value)
      requires Tree(nodes, root, lay) && nodesAllocated == |nodes|
      requires Compared(nodes, root, lay, it.prefix, it.stack, rest, Unequals)
      modifies this`nodes, this`nodesAllocated, this`count, this`version, this`lay, it
      ensures HasInserted(it, old(it.prefix) + rest, v)
      ensures AllChild(old(it.Front())) ==> FlagsSound(it.stack)
      ensures Current(old(nodes), old(it.Front())) ==> Current(nodes, it.stack)
      ensures ChangedOnly(old(nodes), nodes, old(it.Back().addr))
      ensures |nodes| == |old(nodes)| + 1
    {
      hide InsertedPair, Current, ChangedOnly, Tree, AllChild, FlagsSound, SplitLayout;
      ghost var h, rt, l, k, s, p := nodes, root, lay, it.prefix, it.stack, it.Back();
      var back := it.Back();
      var threw, b := SplitEntry(back);
      it.SetBack(back.(hasChild := true, version := nodes[back.addr].version));
      ghost var path := it.stack;
      AppendEntry(it, b, rest, v);
      if AllChild(s[..|s| - 1]) {
        AllChildExtend(s[..|s| - 1], path[|path| - 1]);
        AllChildExtend(path, it.Back());
      }
      lay := SplitLayout(h, l, p.addr, p.key.value, p.stemSize.value, b);
      InsertsBeside(h, rt, l, k, s, rest, v, b, nodes, lay, it.stack);
    }

    /** `insert_impl` after the comparison: one branch for each way the key can differ. */
    method InsertAt(it: TrieIterator, rest: Str, r: StemCompare, v: Value) returns (threw: bool)
      requires Valid() && Compared(nodes, root, lay, it.prefix, it.stack, rest, r) && r != Equals
      requires it.version <= version && AllChild(it.Front()) && Current(nodes, it.Front())
      modifies this, it
      ensures threw <==> old(r == StringEnd && EntryAt(nodes, it.Back()).stem != []
                             && it.Back().stemSize == Some(|EntryAt(nodes, it.Back()).stem|))
      ensures threw ==> root == old(root) && lay == old(lay) && count == old(count) && version == old(version)
      ensures !threw ==> HasInserted(it, old(it.prefix) + rest, v)
      ensures !threw ==> (FlagsSound(it.stack) <==> r != StemEnd) && Current(nodes, it.stack)
      ensures !threw ==> ChangedOnly(old(nodes), nodes, old(it.Back().addr))
      ensures !threw ==> |nodes| == |old(nodes)| + if old(MakesNode(nodes, it.Back(), r)) then 1 else 0
    {
      hide InsertedPair, ChangedOnly;
      assert it.prefix + [] == it.prefix;
      match r {
        case NoEntry =>
          InsertNoEntry(it, rest, v);
          return false;
        case StringEnd =>
          if EntryAt(nodes, it.Back()).stem != [] {
            threw := InsertInStem(it, v);
          } else {
            InsertOnEntry(it, v);
            return false;
          }
        case StemEnd =>
          InsertStemEnd(it, rest, v);
          return false;
        case Unequals =>
          InsertUnequals(it, rest, v);
          return false;
      }
    }

    /** The comparison that `insert_impl` starts with, from the root. */
    method CompareFromRoot(it: TrieIterator, key: Str) returns (r: StemCompare, rest: Str)
      requires Valid() && it.stack == [] && it.prefix == [] && key != []
      modifies it`prefix, it`stack
      ensures it.prefix + rest == key && Compared(nodes, root, lay, it.prefix, it.stack, rest, r)
      ensures FlagsSound(it.stack) && Current(nodes, it.stack) && it.stack == Walk(nodes, [], [], root, key).stack
      ensures r == Walk(nodes, [], [], root, key).r
      ensures r == Equals <==> key in Contents()
      ensures r == StemEnd <==> ExtendsLeaf(Contents(), key)
      ensures StopsAtStemEnd(nodes, root, key) <==>
        (r == StringEnd && EntryAt(nodes, it.Back()).stem != []
         && it.Back().stemSize == Some(|EntryAt(nodes, it.Back()).stem|))
    {
      hide TrieModel.Contents;
      it.Push(root);
      assert it.stack[..0] == [];
      WalkSound(nodes, [], [], root, key);
      WalkCurrent(nodes, [], [], root, key);
      r, rest := Mismatch(it, key);
      assert it.prefix + rest == key;
      ComparedDecides(nodes, root, lay, it.prefix, it.stack, rest, r);
      ComparedStops(nodes, root, lay, it.prefix, it.stack, rest, r);
      ComparedExtends(nodes, root, lay, it.prefix, it.stack, rest, r);
    }

    /** `insert_impl` from the root: compares the key with the trie and adds it where it differs. */
    method InsertImpl(it: TrieIterator, key: Str, v: Value) returns (exists_: bool, threw: bool)
      requires Valid() && it.stack == [] && it.prefix == [] && it.version <= version && key != []
      modifies this, it
      ensures exists_ <==> key in old(Contents())
      ensures threw <==> old(StopsAtStemEnd(nodes, root, key))
      ensures exists_ ==> Snap() == old(Snap()) && lay == old(lay) && count == old(count) && nodesAllocated == old(nodesAllocated)
      ensures exists_ ==> IsOnKey(it) && it.stack != [] && it.prefix == key && FlagsSound(it.stack) && it.version <= version
      ensures threw ==> !exists_ && root == old(root) && lay == old(lay) && count == old(count) && version == old(version)
      ensures !threw ==> Current(nodes, it.stack)
      ensures !exists_ && !threw ==> ChangedOnly(old(nodes), nodes, StopNode(old(nodes), root, key))
      ensures !exists_ && !threw ==> nodesAllocated == |nodes| == |old(nodes)| + if old(NeedsNode(nodes, root, key)) then 1 else 0
      ensures !exists_ && !threw ==> HasInserted(it, key, v) && (FlagsSound(it.stack) <==> !ExtendsLeaf(old(Contents()), key))
    {
      hide InsertedPair, ChangedOnly;
      var r, rest := CompareFromRoot(it, key);
      if r == Equals {
        EqualsIsOnKey(nodes, root, lay, it.prefix, it.stack, rest);
        assert it.prefix == key;
        return true, false;
      }
      threw := InsertAt(it, rest, r, v);
      return false, threw;
    }

    lemma StartOver(key: Str)
      requires Valid()
      ensures Evolves(Snap(), Snap()) && FlagsSound([]) && OnKey(nodes, root, lay, [], [])
      ensures StopsAtStemEnd(nodes, root, key) ==> key !in Contents() && key != []
      ensures [] !in Contents()
    {
      StopsMeansAbsent(nodes, root, lay, key);
      EvolvesReflexive(Snap(), lay);
    }

    /** The transaction around `insert_impl`: an exception restores what it had changed. */
    method InsertOrRollback(it: TrieIterator, key: Str, v: Value) returns (exists_: bool, threw: bool)
      requires Valid() && it.stack == [] && it.prefix == [] && it.version <= version && key != []
      modifies this, it
      ensures Valid() && root == old(root) && Evolves(old(Snap()), Snap())
      ensures exists_ <==> key in old(Contents())
      ensures threw <==> old(StopsAtStemEnd(nodes, root, key))
      ensures exists_ ==> !threw && FlagsSound(it.stack)
      ensures exists_ || threw ==> Contents() == old(Contents()) && Snap() == old(Snap())
      ensures !threw ==> IsOnKey(it) && it.stack != [] && it.prefix == key && it.version <= version
      ensures !threw ==> Current(nodes, it.stack)
      ensures !exists_ && !threw ==> ChangedOnly(old(nodes), nodes, StopNode(old(nodes), root, key))
      ensures !exists_ && !threw ==> nodesAllocated == |nodes| == |old(nodes)| + if old(NeedsNode(nodes, root, key)) then 1 else 0
      ensures !exists_ && !threw ==> version > old(version)
      ensures !exists_ && !threw ==> Contents() == old(Contents())[key := v]
      ensures !exists_ && !threw ==> (FlagsSound(it.stack) <==> !ExtendsLeaf(old(Contents()), key))
    {
      hide InsertedPair, Evolves, Tree, StopsAtStemEnd, ExtendsLeaf, FlagsSound, OnKey, Current, ChangedOnly, StopNode, NeedsNode,
        TrieModel.Contents;
      StartOver(key);
      var savedNodes, savedAllocated := nodes, nodesAllocated;
      ghost var s, l := Snap(), lay;
      exists_, threw := InsertImpl(it, key, v);
      if threw {
        nodes, nodesAllocated := savedNodes, savedAllocated;
      } else if !exists_ {
        AfterInsert(s, l, Snap(), lay, it.prefix, it.stack, key, v);
      }
    }

    /** Adds a key that is not stored yet. The empty string is never added. A key that ends exactly at the end of
        a stem whose entry has no value makes the split throw, and the transaction is rolled back. */
    method Insert(key: Str, v: Value) returns (it: TrieIterator, r: InsertOutcome)
      requires Valid()
      modifies this
      ensures Valid() && fresh(it) && root == old(root) && Evolves(old(Snap()), Snap())
      ensures r == OutOfRange <==> old(StopsAtStemEnd(nodes, root, key))
      ensures r == Done(true) <==> old(key != [] && key !in Contents() && !StopsAtStemEnd(nodes, root, key))
      ensures Contents() == if r == Done(true) then old(Contents())[key := v] else old(Contents())
      ensures r != Done(true) ==> Snap() == old(Snap())
      ensures r == Done(true) ==> ChangedOnly(old(nodes), nodes, StopNode(old(nodes), root, key)) && version > old(version)
      ensures r == Done(true) ==> nodesAllocated == old(nodesAllocated) + if old(NeedsNode(nodes, root, key)) then 1 else 0
      ensures r.Done? ==> IsOnKey(it) && it.prefix == key && (it.IsEnd() <==> key == []) && it.version <= version
      ensures r.Done? ==> Current(nodes, it.stack)
      ensures r.Done? ==> (FlagsSound(it.stack) <==> !(r.added && ExtendsLeaf(old(Contents()), key)))
      ensures r.Done? ==> (NeverGivenUp(Snap(), it.prefix, it.stack, it.version)
                           <==> !(r.added && ExtendsLeaf(old(Contents()), key)))
    {
      hide Evolves, Tree, StopsAtStemEnd, ExtendsLeaf, FlagsSound, OnKey, NeverGivenUp, ChangedOnly, StopNode, NeedsNode,
        TrieModel.Contents;
      StartOver(key);
      if key == [] {
        it := new TrieIterator(version);
        FlagsDecide(Snap(), lay, it.prefix, it.stack, it.version);
        return it, Done(false);
      }
      it := new TrieIterator(0);
      var exists_, threw := InsertOrRollback(it, key, v);
      if !threw {
        FlagsDecide(Snap(), lay, it.prefix, it.stack, it.version);
      }
      return it, if threw then OutOfRange else Done(!exists_);
    }

    // ----- erasing -----

    /** One round of the climb in `erase_impl` on the entry at `a`, `c`: drops the reference to a removed child,
        then erases; true if the node is empty now. */
    method EraseEntry(a: Addr, c: Atom, childGone: bool, first: bool) returns (empty: bool)
      requires Has(nodes, a, c) && first == !childGone && (childGone ==> At(nodes, a, c).child.Some?)
      modifies this`nodes
      ensures nodes == old(nodes)[a := if childGone then Erased(ChildRemoved(old(nodes)[a], c), c, first)
                                       else Erased(old(nodes)[a], c, first)]
      ensures nodes.Keys == old(nodes).Keys && empty == IsEmptyNode(nodes, a)
    {
      if childGone {
        nodes := nodes[a := ChildRemoved(nodes[a], c)];
      }
      nodes := nodes[a := Erased(nodes[a], c, first)];
      empty := c !in nodes[a].entries && nodes[a].entries == map[];
    }

    method RemoveNode(a: Addr)
      requires a in nodes && nodesAllocated == |nodes|
      modifies this`nodes, this`nodesAllocated
      ensures nodes == old(nodes) - {a} && nodesAllocated == |nodes|
    {
      assert |nodes - {a}| == |nodes| - 1 by {
        assert (nodes - {a}).Keys == nodes.Keys - {a};
      }
      nodes := nodes - {a};
      nodesAllocated := nodesAllocated - 1;
    }

    /** A round of the climb, seen against the state `h`, `l` before the erase: `g` is the state at its start, in which
        the node `b`, already freed, was still there and empty. */
    method EraseRound(a: Addr, c: Atom, childGone: bool, first: bool,
                      ghost h: Heap, ghost l: Layout, ghost k: Str, ghost g: Heap, ghost b: Addr)
      returns (empty: bool)
      requires Tree(h, root, l) && childGone == !first
      requires first ==> nodes == h && lay == l && Has(h, a, c) && At(h, a, c).value.Some? && a in l.at
      requires first ==> k == Spell(l.at[a], c, At(h, a, c).stem)
      requires !first ==> Erasing(h, root, l, k, g, lay, b) && IsEmptyNode(g, b) && b != root && nodes == g - {b}
      requires !first ==> b in l.up && l.up[b] == Slot(a, c)
      modifies this`nodes, this`lay
      ensures Erasing(h, root, l, k, nodes, lay, a) && a in nodes
      ensures empty == IsEmptyNode(nodes, a) && nodes.Keys == old(nodes).Keys
      ensures first ==> nodes == old(nodes)[a := Erased(old(nodes)[a], c, true)]
    {
      hide Shrunk, NoEmptyBut, NoEmptyNode;
      if first {
        ErasingStarts(h, root, l, a, c, k);
      } else {
        ErasingClimbs(h, root, l, k, g, lay, b);
      }
      empty := EraseEntry(a, c, childGone, first);
      if !first {
        lay := WithoutNode(lay, b);
        assert nodes == PrunedHeap(g, b, Slot(a, c));
      }
    }

    /** Pops a position of a path through the state `h`, `l`; the entry below it is the one that refers to its node. */
    method PopPath(pos: TrieIterator, ghost h: Heap, ghost l: Layout)
      requires Shape(h, root, l) && OnChain(h, root, l, pos.prefix, pos.stack) && pos.stack != []
      modifies pos`prefix, pos`stack
      ensures OnChain(h, root, l, pos.prefix, pos.stack) && pos.stack == old(pos.Front())
      ensures pos.stack == [] <==> old(pos.Back()).addr == root
      ensures pos.stack != [] ==> (old(pos.Back()).addr in l.up && pos.Back().key.Some?
                                   && l.up[old(pos.Back()).addr] == Slot(pos.Back().addr, pos.Back().key.value))
    {
      ChainUp(h, root, l, pos.stack, |pos.stack| - 1);
      Popped(h, root, l, pos.prefix, pos.stack);
      LeadsUp(h, root, l, l.at[pos.Back().addr], pos.Front(), pos.Back().addr);
      pos.Pop();
    }

    /** The entry an iterator points to. */
    ghost function SlotOf(it: TrieIterator): Slot
      reads it
    {
      if it.stack != [] && it.Back().key.Some? then Slot(it.Back().addr, it.Back().key.value) else Slot(0, 0)
    }

    /** The loop of `erase_impl`: erases the pointed entry's value, then every node that is left empty. */
    method EraseUpwards(pos: TrieIterator)
      requires Tree(nodes, root, lay) && nodesAllocated == |nodes| && IsOnKey(pos) && pos.stack != []
      modifies this`nodes, this`nodesAllocated, this`lay, pos`prefix, pos`stack
      ensures Tree(nodes, root, lay) && nodesAllocated == |nodes|
      ensures Contents() == old(Contents()) - {old(pos.prefix)}
      ensures Shrunk(old(nodes), root, old(lay), nodes, lay)
      ensures ErasedAt(old(nodes), nodes, old(SlotOf(pos)))
    {
      hide Erasing, Shrunk, NoEmptyNode, TrieModel.Contents;
      ghost var h, l, k := nodes, lay, pos.prefix;
      ghost var g, b, w := nodes, root, SlotOf(pos);
      var first := true;
      while pos.stack != []
        invariant OnChain(h, root, l, pos.prefix, pos.stack) && nodesAllocated == |nodes|
        invariant first ==> nodes == h && lay == l && pos.stack == old(pos.stack) && pos.prefix == k
        invariant !first ==> Erasing(h, root, l, k, g, lay, b) && b in g
        invariant !first ==> !Has(h, w.addr, w.key) || Erased(h[w.addr], w.key, true).entries == map[]
        invariant !first && pos.stack != [] ==>
          && IsEmptyNode(g, b) && b != root && nodes == g - {b}
          && b in l.up && l.up[b] == Slot(pos.Back().addr, pos.Back().key.value)
        invariant !first && pos.stack == [] ==> nodes == g && b == root
        decreases |pos.stack|
      {
        var a, c := pos.Back().addr, pos.Back().key.value;
        ArrivesHere(h, root, l, pos.prefix, pos.stack);
        var empty := EraseRound(a, c, !first, first, h, l, k, g, b);
        g, b := nodes, a;
        if !empty {
          ErasingEnds(h, root, l, k, g, lay, b);
          return;
        }
        if a != root {
          RemoveNode(a);
        }
        PopPath(pos, h, l);
        first := false;
      }
      ErasingEnds(h, root, l, k, g, lay, b);
    }

    lemma OnStoredKey(pos: TrieIterator)
      requires Tree(nodes, root, lay) && IsOnKey(pos)
      ensures OnPath(nodes, root, lay, pos.prefix, pos.stack)
      ensures pos.stack != [] ==> pos.prefix in Contents()
    {
      if pos.stack != [] {
        OnKeyIsStored(nodes, root, lay, pos.prefix, pos.stack);
      }
    }

    lemma PointsToSlot(pos: TrieIterator)
      requires Tree(nodes, root, lay) && IsOnKey(pos) && pos.stack != []
      ensures TrieModel.Find(nodes, root, pos.prefix) == Some(SlotOf(pos))
    {
      OnKeyEntry(nodes, root, lay, pos.prefix, pos.stack);
      SlotIsFound(nodes, root, lay, pos.Back().addr, pos.Back().key.value);
    }

    lemma LandedAbove(it: TrieIterator, m: map<Str, Value>, k: Str)
      requires Landed(it, Above(m, k, false))
      ensures it.stack != [] ==> Less(k, it.prefix)
    {
    }

    /** The climb of `erase_impl` and the header update after it. */
    method EraseKey(pos: TrieIterator)
      requires Tree(nodes, root, lay) && nodesAllocated == |nodes| && count > 0 && IsOnKey(pos) && pos.stack != []
      modifies this`nodes, this`nodesAllocated, this`lay, this`count, this`version, pos`prefix, pos`stack
      ensures Tree(nodes, root, lay) && nodesAllocated == |nodes|
      ensures version == old(version) + 1 && count == old(count) - 1
      ensures Contents() == old(Contents()) - {old(pos.prefix)}
      ensures Shrunk(old(nodes), root, old(lay), nodes, lay)
      ensures ErasedAt(old(nodes), nodes, old(SlotOf(pos)))
    {
      hide Shrunk, Tree, OnKey, OnPath, ErasedAt, TrieModel.Contents;
      EraseUpwards(pos);
      version, count := version + 1, count - 1;
    }

    /** `erase_impl`: erases the key under the iterator and returns an iterator on its successor. */
    method EraseImpl(pos: TrieIterator) returns (result: TrieIterator)
      requires Tree(nodes, root, lay) && nodesAllocated == |nodes| && count > 0 && IsOnKey(pos) && pos.stack != []
      modifies this`nodes, this`nodesAllocated, this`lay, this`count, this`version, pos`prefix, pos`stack
      ensures Tree(nodes, root, lay) && nodesAllocated == |nodes|
      ensures version == old(version) + 1 && count == old(count) - 1
      ensures old(pos.prefix) in old(Contents()) && Contents() == old(Contents()) - {old(pos.prefix)}
      ensures Shrunk(old(nodes), root, old(lay), nodes, lay) && Evolves(old(Snap()), Snap())
      ensures fresh(result) && result.version == old(pos.version) && IsOnKey(result)
      ensures Landed(result, Above(Contents(), old(pos.prefix), false))
      ensures FlagsSound(old(pos.stack)) ==> FlagsSound(result.stack)
      ensures ErasedAt(old(nodes), nodes, old(SlotOf(pos)))
    {
      hide Shrunk, Tree, OnKey, OnPath, Evolves, FlagsSound, Landed, ErasedAt, TrieModel.Contents;
      ghost var s, l, k := Snap(), lay, pos.prefix;
      OnStoredKey(pos);
      result := new TrieIterator.Copy(pos);
      Advance(result, true);
      EraseKey(pos);
      LandedAbove(result, TrieModel.Contents(s.nodes, s.root, l), k);
      AfterErase(s, l, Snap(), lay, k, result.prefix, result.stack);
    }

    /** `erase`: removes exactly the key under the iterator, if it is still stored and can be found again. */
    method Erase(pos: TrieIterator) returns (result: TrieIterator, erased: nat)
      requires Valid() && CanSync(pos)
      modifies this, pos
      ensures Valid() && root == old(root) && Evolves(old(Snap()), Snap())
      ensures erased == if old(pos.stack != [] && Findable(pos)) then 1 else 0
      ensures erased == 0 ==> Contents() == old(Contents()) && Snap() == old(Snap()) && result.IsEnd()
      ensures erased == 1 ==> Contents() == old(Contents()) - {old(pos.prefix)}
      ensures erased == 1 ==> Landed(result, Above(Contents(), old(pos.prefix), false))
      ensures fresh(result) && IsOnKey(result) && result.version <= version
      ensures old(FlagsSound(pos.stack)) ==> FlagsSound(result.stack)
      ensures erased == 1 ==> version == old(version) + 1 && result.version == old(version)
      ensures erased == 1 ==> TrieModel.Find(old(nodes), root, old(pos.prefix)).Some?
      ensures erased == 1 ==> ErasedAt(old(nodes), nodes, TrieModel.Find(old(nodes), root, old(pos.prefix)).value)
    {
      hide Evolves, Tree, OnKey, FlagsSound, TrieModel.Contents, Shrunk, Landed, ErasedAt;
      StartOver([]);
      var ok := SyncIterator(pos);
      if !ok || pos.IsEnd() {
        result := new TrieIterator(0);
        return result, 0;
      }
      OnStoredKey(pos);
      PointsToSlot(pos);
      OneLess(Contents(), pos.prefix);
      result := EraseImpl(pos);
      return result, 1;
    }

    /** `erase_all`: empties node `n`; counts its values and lists its children, for the caller to free. */
    method EraseAll(n: Addr) returns (slots: nat, children: seq<Addr>)
      requires n in nodes
      modifies this`nodes
      ensures nodes == old(nodes)[n := old(nodes)[n].(entries := map[])]
      ensures AllErased(old(nodes)[n], slots, children)
    {
      hide ValuesFrom, ChildrenFrom;
      var entries := nodes[n].entries;
      ghost var from: nat := 0;
      slots, children := 0, [];
      var i := KeyFrom(entries.Keys, 0);
      while i.Some?
        invariant i == KeyFrom(entries.Keys, from) && from <= 256 && nodes == old(nodes)
        invariant slots + ValuesFrom(entries, from) == ValuesFrom(entries, 0)
        invariant children + ChildrenFrom(entries, from) == ChildrenFrom(entries, 0)
        decreases 256 - from
      {
        var c := i.value;
        assert c in entries.Keys;
        EntriesStep(entries, from, c);
        var e := entries[c];
        if e.value.Some? {
          slots := slots + 1;
        }
        if e.child.Some? {
          children := children + [e.child.value];
        }
        from := c as int + 1;
        i := KeyFrom(entries.Keys, c as int + 1);
      }
      NoEntriesFrom(entries, from);
      nodes := nodes[n := nodes[n].(entries := map[])];
    }

    /** `erase_all` and `remove_node` together. */
    method FreeNode(n: Addr) returns (slots: nat, children: seq<Addr>)
      requires n in nodes && nodesAllocated == |nodes|
      modifies this`nodes, this`nodesAllocated
      ensures nodes == old(nodes) - {n} && nodesAllocated == |nodes|
      ensures AllErased(old(nodes)[n], slots, children)
    {
      hide AllErased;
      ghost var before := nodes;
      slots, children := EraseAll(n);
      assert nodes.Keys == before.Keys;
      RemoveNode(n);
    }

    /** The loop of `prefixed_erase_all`: frees node `top` and every node below it, and counts their values. */
    method WipeSubtree(top: Addr, ghost h: Heap, ghost l: Layout, ghost a: Addr, ghost c: Atom) returns (erased: nat)
      requires Shape(h, root, l) && Has(h, a, c) && At(h, a, c).child == Some(top) && a in l.at
      requires nodes.Keys == h.Keys && nodesAllocated == |nodes|
      requires forall x | x in h && x != a :: nodes[x] == h[x]
      modifies this`nodes, this`nodesAllocated
      ensures var q := Spell(l.at[a], c, At(h, a, c).stem);
        erased == |KeysIn(h, l, Below(h, l, q))| && nodes == old(nodes) - Below(h, l, q)
      ensures nodesAllocated == |nodes|
    {
      hide Wiping, TopOf, ChildrenOf, AllErased, KeysIn, KeysOf, Below, TrieModel.Contents;
      ghost var q := Spell(l.at[a], c, At(h, a, c).stem);
      ghost var all, done: set<Addr> := Below(h, l, q), {};
      ghost var start := nodes;
      var stack := [top];
      erased := 0;
      WipeStarts(h, root, l, a, c, top);
      while stack != []
        invariant Wiping(h, l, top, all, done, stack) && nodes == start - done && nodesAllocated == |nodes|
        invariant erased == |KeysIn(h, l, done)|
        decreases all - done
      {
        var n := stack[|stack| - 1];
        WipeNext(h, l, q, top, done, stack, a, c);
        var slots, children := FreeNode(n);
        ErasedNode(h, root, l, n, slots, children);
        WipeStep(h, root, l, q, top, done, stack, children, a, c);
        KeysInStep(h, root, l, done, n);
        RemoveOneMore(start, done, n);
        stack, done := stack[..|stack| - 1] + children, done + {n};
        erased := erased + slots;
      }
      WipeEndsAll(h, root, l, q, top, done, a, c);
    }

    /** The middle of `prefixed_erase_all`: everything below the pointed key goes, the key itself stays. */
    method CutBelow(it: TrieIterator) returns (erased: nat)
      requires Tree(nodes, root, lay) && nodesAllocated == |nodes| && IsOnKey(it) && it.stack != [] && it.Back().hasChild
      modifies this`nodes, this`nodesAllocated, this`lay, it`stack
      ensures Tree(nodes, root, lay) && nodesAllocated == |nodes| && Shrunk(old(nodes), root, old(lay), nodes, lay)
      ensures Contents() == old(Contents() - Under(Contents(), it.prefix))
      ensures erased == |old(Under(Contents(), it.prefix))|
      ensures IsOnKey(it) && it.stack != [] && it.Front() == old(it.Front())
    {
      hide TrieModel.Contents, Shrunk, KeysIn, Tree, OnKey, IsCut, Shape;
      ghost var h, l, q, stack := nodes, lay, it.prefix, it.stack;
      var back := it.Back();
      OnKeyEntry(h, root, l, q, stack);
      var a, c := back.addr, back.key.value;
      CutAway(h, root, l, a, c, q);
      var top := At(nodes, a, c).child.value;
      nodes := nodes[a := ChildRemoved(nodes[a], c)];
      erased := WipeSubtree(top, h, l, a, c);
      lay := Layout(l.at - Below(h, l, q), l.up - Below(h, l, q));
      assert nodes == h[a := ChildRemoved(h[a], c)] - Below(h, l, q);
      CutIterator(h, root, l, nodes, lay, a, c, q, stack);
      it.SetBack(back.(hasChild := false));
    }

    /** `prefixed_erase_all` on a synchronised iterator whose key has others below it. */
    method EraseBelowToo(it: TrieIterator) returns (result: TrieIterator, erased: nat)
      requires Valid() && IsOnKey(it) && it.stack != [] && it.Back().hasChild
      modifies this, it`prefix, it`stack
      ensures Valid() && root == old(root) && Evolves(old(Snap()), Snap())
      ensures Contents() == old(Contents()) - StartingWith(old(Contents()), old(it.prefix))
      ensures erased == |StartingWith(old(Contents()), old(it.prefix))|
      ensures Landed(result, Above(Contents(), old(it.prefix), false)) && fresh(result)
      ensures IsOnKey(result) && result.version == it.version && version > old(version)
      ensures FlagsSound(old(it.stack)) ==> FlagsSound(result.stack)
    {
      hide TrieModel.Contents, Shrunk, Tree, OnKey, Evolves, Landed, Under, StartingWith, FlagsSound, ErasedAt;
      ghost var s, l, m, k := Snap(), lay, Contents(), it.prefix;
      OnStoredKey(it);
      SplitByPrefix(m, k);
      ghost var path := it.stack;
      erased := CutBelow(it);
      SameFrontSameFlags(path, it.stack);
      ghost var s1, l1 := Snap(), lay;
      var below := erased;
      result := EraseImpl(it);
      erased := below + 1;
      version, count := version + 1, count - below;
      AfterEraseAll(s, l, s1, l1, Snap(), lay);
    }

    /** `prefixed_erase_all` with the prefix itself: removes exactly the stored keys that start with the iterator's
        key and returns how many they were. */
    method PrefixedEraseAll(it: TrieIterator) returns (result: TrieIterator, erased: nat)
      requires Valid() && CanSync(it)
      modifies this, it
      ensures Valid() && root == old(root) && Evolves(old(Snap()), Snap())
      ensures old(it.stack != [] && Findable(it)) ==>
        (Contents() == old(Contents()) - StartingWith(old(Contents()), old(it.prefix))
         && erased == |StartingWith(old(Contents()), old(it.prefix))|
         && Landed(result, Above(Contents(), old(it.prefix), false)))
      ensures old(it.stack != [] && Findable(it)) ==>
        fresh(result) && IsOnKey(result) && result.version <= version && (FlagsSound(old(it.stack)) ==> FlagsSound(result.stack))
      ensures !old(it.stack != [] && Findable(it)) ==>
        (erased == 0 && Contents() == old(Contents()) && Snap() == old(Snap()) && result == it)
    {
      hide TrieModel.Contents, Tree, OnKey, Evolves, Landed, StartingWith, FlagsSound, ErasedAt;
      StartOver([]);
      var ok := SyncIterator(it);
      if !ok || it.IsEnd() {
        return it, 0;
      }
      OnStoredKey(it);
      if it.Back().hasChild {
        result, erased := EraseBelowToo(it);
      } else {
        NothingBelow(nodes, root, lay, it.prefix, it.stack);
        OneLess(Contents(), it.prefix);
        result := EraseImpl(it);
        erased := 1;
      }
    }

    // ----- updating -----

    /** `update`: overwrites the value under the iterator. The node's version moves, the trie's does not. */
    method Update(it: TrieIterator, v: Value) returns (updated: nat)
      requires Valid() && CanSync(it)
      modifies this, it
      ensures Valid() && root == old(root) && version == old(version) && Evolves(old(Snap()), Snap())
      ensures updated == if old(it.stack != [] && Findable(it)) then 1 else 0
      ensures Contents() == if updated == 1 then old(Contents())[old(it.prefix) := v] else old(Contents())
      ensures updated == 1 ==> IsOnKey(it) && it.prefix == old(it.prefix) && it.version == version
      ensures updated == 1 ==> InStep(nodes, it.Back()) && (old(KeepsUp(it)) ==> Current(nodes, it.stack))
      ensures updated == 1 && old(it.version) == version ==> it.Front() == old(it.Front())
      ensures updated == 1 && FlagsSound(old(it.stack)) ==>
        FlagsSound(it.stack) && NeverGivenUp(Snap(), it.prefix, it.stack, it.version)
      ensures updated == 0 ==> Snap() == old(Snap())
    {
      hide TrieModel.Contents, Tree, OnKey, Evolves, FlagsSound, NeverGivenUp, SameForm, Forward;
      StartOver([]);
      var ok := SyncIterator(it);
      if !ok || it.IsEnd() {
        return 0;
      }
      ghost var s := Snap();
      var p := it.Back();
      UpdatesPair(nodes, root, lay, it.prefix, it.stack, v);
      nodes := nodes[p.addr := ValueSet(nodes[p.addr], p.key.value, v)];
      ghost var path := it.stack;
      it.SetBack(p.(version := nodes[p.addr].version));
      SameFrontSameFlags(path, it.stack);
      if FlagsSound(it.stack) {
        SoundIsKept(Snap(), it.prefix, it.stack, it.version);
      }
      AfterUpdate(s, lay, Snap());
      SameKeysSameSize(old(Contents()), it.prefix, v);
      return 1;
    }
  }

  lemma FirstExists(entries: map<Atom, Entry>, first: Option<Atom>) returns (c: Atom)
    requires entries != map[] && first == KeyFrom(entries.Keys, 0)
    ensures first == Some(c) && c in entries && forall d | d in entries.Keys :: c <= d
  {
    var d :| d in entries.Keys;
    c := first.value;
    assert c in entries.Keys;
  }

  lemma SameKeysSameSize(m: map<Str, Value>, k: Str, v: Value)
    ensures k in m ==> |m[k := v]| == |m|
  {
    assert k in m ==> m[k := v].Keys == m.Keys;
  }
}
