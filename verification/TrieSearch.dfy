/** Comparing a string with the entries along its path: what each outcome says about the stored keys. */
module TrieSearch {
  import opened Common
  import opened Lex
  import opened TrieModel
  import opened TriePath
  import opened TrieOrder

  /** What `mismatch` leaves: the position where the comparison stopped, the string spelled up to it, and the
      part of the searched string that is left over. */
  ghost predicate Compared(h: Heap, root: Addr, l: Layout, prefix: Str, stack: seq<Position>, rest: Str, r: StemCompare)
  {
    && stack != []
    && var front := stack[..|stack| - 1];
    && var p := stack[|stack| - 1];
    && Chain(h, root, front) && NextAddr(h, root, front, |front|) == Some(p.addr)
    && p.addr in h && p.addr in l.at && p.key.Some? && p.version == h[p.addr].version
    && if r.NoEntry? then
         && !Has(h, p.addr, p.key.value) && p.stemSize.None? && !p.hasChild && !p.hasData
         && prefix == Spell(l.at[p.addr], p.key.value, [])
       else
         && Has(h, p.addr, p.key.value)
         && var e := EntryAt(h, p);
         && p.hasChild == e.child.Some? && p.hasData == e.value.Some?
         && p.stemSize.Some? && p.stemSize.value <= |e.stem|
         && prefix == Spell(l.at[p.addr], p.key.value, e.stem[..p.stemSize.value])
         && match r
            case Equals => rest == [] && p.stemSize.value == |e.stem| && e.value.Some?
            case StringEnd => rest == [] && (p.stemSize.value < |e.stem| || e.value.None?)
            case StemEnd => rest != [] && p.stemSize.value == |e.stem| && e.child.None?
            case NoEntry => true
            case Unequals => rest != [] && p.stemSize.value < |e.stem| && rest[0] != e.stem[p.stemSize.value]
  }

  /** `key` is spelled in full by an entry that has a stem and no value. */
  predicate StopsAtStemEnd(h: Heap, root: Addr, key: Str)
  {
    var w := Find(h, root, key);
    w.Some? && At(h, w.value.addr, w.value.key).value.None? && At(h, w.value.addr, w.value.key).stem != []
  }

  lemma NotStoredWithoutValue(h: Heap, root: Addr, l: Layout, n: Addr, c: Atom)
    requires Shape(h, root, l) && Has(h, n, c) && n in l.at
    ensures Spell(l.at[n], c, At(h, n, c).stem) in Contents(h, root, l) <==> At(h, n, c).value.Some?
    ensures At(h, n, c).value.Some? ==>
      Contents(h, root, l)[Spell(l.at[n], c, At(h, n, c).stem)] == At(h, n, c).value.value
  {
    SlotIsFound(h, root, l, n, c);
    ContentsIsLookup(h, root, l, Spell(l.at[n], c, At(h, n, c).stem));
  }

  /** Some stored key runs through every entry. */
  lemma {:induction false} KeyThrough(h: Heap, root: Addr, l: Layout, n: Addr, c: Atom) returns (t: Str)
    requires Tree(h, root, l) && Has(h, n, c) && n in l.at
    ensures t in Contents(h, root, l) && Spell(l.at[n], c, At(h, n, c).stem) <= t
    decreases Deeper(l, n)
  {
    NotStoredWithoutValue(h, root, l, n, c);
    if At(h, n, c).value.Some? {
      t := Spell(l.at[n], c, At(h, n, c).stem);
    } else {
      assert EntryOk(h, root, l, n, c);
      ChildIsDeeper(h, root, l, n, c);
      var b := At(h, n, c).child.value;
      assert !IsEmptyNode(h, b);
      var d :| d in h[b].entries;
      t := KeyThrough(h, root, l, b, d);
    }
  }

  /** A search string that leaves node `n` in a way no entry matches is not even a prefix of a stored key. */
  lemma NothingContinues(h: Heap, root: Addr, l: Layout, prefix: Str, stack: seq<Position>, rest: Str, r: StemCompare,
                         t: Str)
    requires Shape(h, root, l) && Compared(h, root, l, prefix, stack, rest, r)
    requires r.NoEntry? || r.StemEnd? || r.Unequals?
    requires t in Contents(h, root, l)
    ensures !(prefix + rest <= t)
  {
    var p := stack[|stack| - 1];
    var n, c := p.addr, p.key.value;
    if prefix + rest <= t {
      assert prefix <= t && prefix[|l.at[n]|] == c;
      assert l.at[n] <= t && t[|l.at[n]|] == c;
      assert rest != [] ==> t[|prefix|] == (prefix + rest)[|prefix|] == rest[0];
      Enters(h, root, l, n, t);
      assert false;
    }
  }

  /** The outcome decides membership and whether some stored key continues the string. */
  lemma ComparedDecides(h: Heap, root: Addr, l: Layout, prefix: Str, stack: seq<Position>, rest: Str, r: StemCompare)
    requires Tree(h, root, l) && Compared(h, root, l, prefix, stack, rest, r)
    ensures r.Equals? <==> prefix + rest in Contents(h, root, l)
    ensures r.Equals? || r.StringEnd? <==> exists t :: t in Contents(h, root, l) && prefix + rest <= t
  {
    var p := stack[|stack| - 1];
    if r.Equals? || r.StringEnd? {
      var e := EntryAt(h, p);
      var t := KeyThrough(h, root, l, p.addr, p.key.value);
      assert Spell(l.at[p.addr], p.key.value, e.stem[..p.stemSize.value]) <= Spell(l.at[p.addr], p.key.value, e.stem);
      assert prefix + rest == prefix <= t;
      NotStoredWithoutValue(h, root, l, p.addr, p.key.value);
      if r.StringEnd? && prefix in Contents(h, root, l) {
        assert prefix[|l.at[p.addr]|] == p.key.value;
        Enters(h, root, l, p.addr, prefix);
        assert false;
      }
      assert r.Equals? ==> e.stem[..p.stemSize.value] == e.stem;
    } else {
      forall t | t in Contents(h, root, l)
        ensures !(prefix + rest <= t)
      {
        NothingContinues(h, root, l, prefix, stack, rest, r, t);
      }
    }
  }

  /** The comparison stops at the end of a stem without a value exactly for the strings that an entry spells so. */
  lemma ComparedStops(h: Heap, root: Addr, l: Layout, prefix: Str, stack: seq<Position>, rest: Str, r: StemCompare)
    requires Tree(h, root, l) && Compared(h, root, l, prefix, stack, rest, r)
    ensures StopsAtStemEnd(h, root, prefix + rest) <==>
      r.StringEnd? && var p := stack[|stack| - 1]; EntryAt(h, p).stem != [] && p.stemSize.value == |EntryAt(h, p).stem|
  {
    var p := stack[|stack| - 1];
    var s := prefix + rest;
    if r.StringEnd? && p.stemSize.value == |EntryAt(h, p).stem| {
      assert EntryAt(h, p).stem[..p.stemSize.value] == EntryAt(h, p).stem;
      SlotIsFound(h, root, l, p.addr, p.key.value);
      assert s == prefix;
    }
    if StopsAtStemEnd(h, root, s) {
      StopsHere(h, root, l, prefix, stack, rest, r);
    }
  }

  lemma StopsHere(h: Heap, root: Addr, l: Layout, prefix: Str, stack: seq<Position>, rest: Str, r: StemCompare)
    requires Tree(h, root, l) && Compared(h, root, l, prefix, stack, rest, r)
    requires StopsAtStemEnd(h, root, prefix + rest)
    ensures r.StringEnd? && var p := stack[|stack| - 1]; EntryAt(h, p).stem != [] && p.stemSize.value == |EntryAt(h, p).stem|
  {
    var p := stack[|stack| - 1];
    var s := prefix + rest;
    var w := Find(h, root, s).value;
    FoundIsSpelled(h, root, l, root, s);
    assert l.at[root] + s == s;
    var t := KeyThrough(h, root, l, w.addr, w.key);
    ComparedDecides(h, root, l, prefix, stack, rest, r);
    ContentsIsLookup(h, root, l, s);
    assert r.StringEnd? && s == prefix;
    var n, c, e := p.addr, p.key.value, EntryAt(h, p);
    var tail := Spell([], c, e.stem[..p.stemSize.value]);
    JoinSpell(l.at[n], c, e.stem[..p.stemSize.value], []);
    assert s == l.at[n] + tail;
    FindDescends(h, root, l, n, tail);
    FindEnters(h, n, tail);
    assert tail[0] == c;
    assert |Spell([], c, e.stem)| <= |tail|;
    assert e.stem[..p.stemSize.value] == e.stem;
    SlotIsFound(h, root, l, n, c);
  }

  // ----- one node's share of the comparison -----

  /** How much of a stem a string matches. */
  function MatchLen(stem: Str, s: Str): (m: nat)
    ensures m <= |stem| && m <= |s| && stem[..m] == s[..m]
    ensures m < |stem| && m < |s| ==> stem[m] != s[m]
  {
    if stem == [] || s == [] || stem[0] != s[0] then 0 else 1 + MatchLen(stem[1..], s[1..])
  }

  /** A common prefix that cannot be continued is all that matches. */
  lemma {:induction false} MatchLenIs(stem: Str, s: Str, m: nat)
    requires m <= |stem| && m <= |s| && stem[..m] == s[..m]
    requires m < |stem| && m < |s| ==> stem[m] != s[m]
    ensures m == MatchLen(stem, s)
  {
    if m > 0 {
      assert stem[0] == stem[..m][0] == s[..m][0] == s[0];
      assert stem[1..][..m - 1] == stem[..m][1..] == s[..m][1..] == s[1..][..m - 1];
      MatchLenIs(stem[1..], s[1..], m - 1);
    }
  }

  /** The outcome at one node, the stem size recorded, and how many bytes of the string were used up. */
  datatype Step = Step(r: StemCompare, size: Option<nat>, used: nat)

  function CompareStep(h: Heap, n: Addr, s: Str): (t: Step)
    requires s != []
    ensures 1 <= t.used <= |s| && (t.r == StemEnd ==> t.used < |s|)
  {
    var c := s[0];
    var e := if Has(h, n, c) then At(h, n, c) else Entry(None, [], None);
    if e.child.None? && e.value.None? then Step(NoEntry, None, 1)
    else if e.value.None? && |s| == 1 then Step(StringEnd, Some(0), 1)
    else
      var m := MatchLen(e.stem, s[1..]);
      var r :=
        if m < |e.stem| then (if m == |s| - 1 then StringEnd else Unequals)
        else if m < |s| - 1 then StemEnd
        else if e.value.None? then StringEnd
        else Equals;
      Step(r, Some(m), 1 + m)
  }

  /** The position recorded for that step. */
  function StepPosition(h: Heap, n: Addr, s: Str): Position
    requires s != []
  {
    var e := if Has(h, n, s[0]) then At(h, n, s[0]) else Entry(None, [], None);
    Position(n, Some(s[0]), CompareStep(h, n, s).size, e.child.Some?, e.value.Some?,
             if n in h then h[n].version else 0)
  }

  lemma StepCompares(h: Heap, root: Addr, l: Layout, prefix: Str, front: seq<Position>, n: Addr, s: Str)
    requires Tree(h, root, l) && LeadsTo(h, root, l, prefix, front, n) && n in h && s != []
    requires var t := CompareStep(h, n, s); !(t.r == StemEnd && StepPosition(h, n, s).hasChild)
    ensures var t := CompareStep(h, n, s);
      Compared(h, root, l, prefix + s[..t.used], front + [StepPosition(h, n, s)], s[t.used..], t.r)
  {
    var t, p := CompareStep(h, n, s), StepPosition(h, n, s);
    ArrivesAt(h, root, l, front, n);
    assert (front + [p])[..|front|] == front;
    if Has(h, n, s[0]) {
      assert EntryOk(h, root, l, n, s[0]);
      StepSpells(l.at[n], s, At(h, n, s[0]).stem, t.used - 1);
    } else {
      StepSpells(l.at[n], s, [], 0);
    }
  }

  lemma StepSpells(at: Str, s: Str, stem: Str, m: nat)
    requires s != [] && m < |s| && m <= |stem| && stem[..m] == s[1..][..m]
    ensures at + s[..1 + m] == Spell(at, s[0], stem[..m])
  {
    assert s[..1 + m] == [s[0]] + s[1..][..m];
  }

  /** When the string goes on past a stem with a child, the path goes on to the child. */
  lemma StepGoesOn(h: Heap, root: Addr, l: Layout, prefix: Str, front: seq<Position>, n: Addr, s: Str)
    requires Tree(h, root, l) && LeadsTo(h, root, l, prefix, front, n) && n in h && s != []
    requires var t := CompareStep(h, n, s); t.r == StemEnd && StepPosition(h, n, s).hasChild
    ensures var t := CompareStep(h, n, s); var b := At(h, n, s[0]).child.value;
      && s[t.used..] != [] && b in h
      && LeadsTo(h, root, l, prefix + s[..t.used], front + [StepPosition(h, n, s)], b)
  {
    var t, p := CompareStep(h, n, s), StepPosition(h, n, s);
    ArrivesAt(h, root, l, front, n);
    StepSpells(l.at[n], s, At(h, n, s[0]).stem, t.used - 1);
    assert At(h, n, s[0]).stem[..t.used - 1] == At(h, n, s[0]).stem;
    ChainExtend(h, root, front, p);
    assert EntryOk(h, root, l, n, s[0]);
  }

  /** Where `mismatch` ends: the prefix and stack of the iterator, what is left of the string, and the outcome. */
  datatype Walked = Walked(prefix: Str, stack: seq<Position>, rest: Str, r: StemCompare)

  /** The whole comparison, from node `n` on: `front` is the path to it and `prefix` its string. */
  function Walk(h: Heap, prefix: Str, front: seq<Position>, n: Addr, s: Str): (w: Walked)
    requires s != []
    ensures w.stack != []
    decreases |s|
  {
    var t := CompareStep(h, n, s);
    var stack := front + [StepPosition(h, n, s)];
    if t.r == StemEnd && Has(h, n, s[0]) && At(h, n, s[0]).child.Some?
    then Walk(h, prefix + s[..t.used], stack, At(h, n, s[0]).child.value, s[t.used..])
    else Walked(prefix + s[..t.used], stack, s[t.used..], t.r)
  }

  /** The node in which the comparison from the root stops. */
  function StopNode(h: Heap, root: Addr, s: Str): Addr
    requires s != []
  {
    var stack := Walk(h, [], [], root, s).stack;
    stack[|stack| - 1].addr
  }

  predicate MakesNode(h: Heap, p: Position, r: StemCompare)
  {
    r == StemEnd || r == Unequals || (r == StringEnd && EntryAt(h, p).stem != [])
  }

  /** A new key needs a node of its own below the entry where the comparison stops. */
  predicate NeedsNode(h: Heap, root: Addr, s: Str)
    requires s != []
  {
    var w := Walk(h, [], [], root, s);
    MakesNode(h, w.stack[|w.stack| - 1], w.r)
  }

  /** The comparison spells what it used up, and stops where `Compared` says. */
  lemma {:induction false} WalkCompares(h: Heap, root: Addr, l: Layout, prefix: Str, front: seq<Position>, n: Addr, s: Str)
    requires Tree(h, root, l) && LeadsTo(h, root, l, prefix, front, n) && s != []
    ensures var w := Walk(h, prefix, front, n, s);
      w.prefix + w.rest == prefix + s && Compared(h, root, l, w.prefix, w.stack, w.rest, w.r)
    decreases |s|
  {
    ArrivesAt(h, root, l, front, n);
    var t := CompareStep(h, n, s);
    assert s[..t.used] + s[t.used..] == s;
    if t.r == StemEnd && StepPosition(h, n, s).hasChild {
      StepGoesOn(h, root, l, prefix, front, n, s);
      WalkCompares(h, root, l, prefix + s[..t.used], front + [StepPosition(h, n, s)], At(h, n, s[0]).child.value, s[t.used..]);
    } else {
      StepCompares(h, root, l, prefix, front, n, s);
    }
  }

  /** An exact match puts the iterator on the stored key. */
  lemma EqualsIsOnKey(h: Heap, root: Addr, l: Layout, prefix: Str, stack: seq<Position>, rest: Str)
    requires Tree(h, root, l) && Compared(h, root, l, prefix, stack, rest, Equals)
    ensures OnKey(h, root, l, prefix, stack)
  {
    var m := |stack| - 1;
    var p := stack[m];
    var e := EntryAt(h, p);
    assert e.stem[..p.stemSize.value] == e.stem;
    ChainExtend(h, root, stack[..m], p);
    assert stack[..m] + [p] == stack;
  }

  /** `key` continues a stored key that no other stored key continues. */
  ghost predicate ExtendsLeaf(m: map<Str, Value>, key: Str)
  {
    exists t :: t in m && t <= key && t != key && Under(m, t) == {}
  }

  /** The comparison runs past a stem without a child exactly for the strings that extend a leaf. */
  lemma ComparedExtends(h: Heap, root: Addr, l: Layout, prefix: Str, stack: seq<Position>, rest: Str, r: StemCompare)
    requires Tree(h, root, l) && Compared(h, root, l, prefix, stack, rest, r)
    ensures r.StemEnd? <==> ExtendsLeaf(Contents(h, root, l), prefix + rest)
  {
    var m := Contents(h, root, l);
    var p := stack[|stack| - 1];
    var n, c := p.addr, p.key.value;
    if r.StemEnd? {
      assert EntryOk(h, root, l, n, c);
      NotStoredWithoutValue(h, root, l, n, c);
      assert prefix == Spell(l.at[n], c, At(h, n, c).stem);
      forall t | t in Under(m, prefix)
        ensures false
      {
        SpellAt(l.at[n], c, At(h, n, c).stem);
        Enters(h, root, l, n, t);
      }
      assert Under(m, prefix) == {};
      assert prefix <= prefix + rest;
    } else if ExtendsLeaf(m, prefix + rest) {
      var t :| t in m && t <= prefix + rest && t != prefix + rest && Under(m, t) == {};
      LeafIsPassed(h, root, l, prefix, stack, rest, r, t);
    }
  }

  lemma NotLeaf(m: map<Str, Value>, t: Str, u: Str)
    requires u in m && t <= u && t != u
    ensures Under(m, t) != {}
  {
    assert u in Under(m, t);
  }

  /** Something is stored below every node, so that no stored key that the node's string continues is a leaf. */
  lemma NoLeafAbove(h: Heap, root: Addr, l: Layout, n: Addr, t: Str)
    requires Tree(h, root, l) && n in h && n in l.at && t in Contents(h, root, l) && t <= l.at[n]
    ensures Under(Contents(h, root, l), t) != {}
  {
    ContentsIsLookup(h, root, l, t);
    assert n != root && !IsEmptyNode(h, n);
    var d :| d in h[n].entries;
    var u := KeyThrough(h, root, l, n, d);
    SpellAt(l.at[n], d, At(h, n, d).stem);
    NotLeaf(Contents(h, root, l), t, u);
  }

  lemma LeafIsPassed(h: Heap, root: Addr, l: Layout, prefix: Str, stack: seq<Position>, rest: Str, r: StemCompare, t: Str)
    requires Tree(h, root, l) && Compared(h, root, l, prefix, stack, rest, r)
    requires t in Contents(h, root, l) && t <= prefix + rest && t != prefix + rest && Under(Contents(h, root, l), t) == {}
    ensures r.StemEnd?
  {
    var p := stack[|stack| - 1];
    var n, c := p.addr, p.key.value;
    assert (prefix + rest)[|l.at[n]|] == prefix[|l.at[n]|] == c;
    assert l.at[n] <= prefix <= prefix + rest;
    if |t| <= |l.at[n]| {
      assert t <= l.at[n];
      NoLeafAbove(h, root, l, n, t);
    } else {
      assert l.at[n] <= t && t[|l.at[n]|] == c;
      assert rest != [] ==> (prefix + rest)[|prefix|] == rest[0];
      Enters(h, root, l, n, t);
      var e := At(h, n, c);
      var q := Spell(l.at[n], c, e.stem);
      assert q <= t && |t| < |prefix + rest|;
      assert |q| == |l.at[n]| + 1 + |e.stem| && |prefix| == |l.at[n]| + 1 + p.stemSize.value;
    }
  }

  /** The empty string is neither stored nor spelled by an entry; a string at a stem end without a value is not stored. */
  lemma StopsMeansAbsent(h: Heap, root: Addr, l: Layout, key: Str)
    requires Shape(h, root, l)
    ensures StopsAtStemEnd(h, root, key) ==> key !in Contents(h, root, l) && key != []
    ensures [] !in Contents(h, root, l)
  {
    ContentsIsLookup(h, root, l, key);
    ContentsIsLookup(h, root, l, []);
  }
}
