/** Where the stored keys lie in lexicographic order relative to the nodes and entries of the trie. */
module TrieOrder {
  import opened Common
  import opened Lex
  import opened TrieModel
  import opened TriePath

  /** `s` is the least element of `keys`. */
  ghost predicate Least(keys: set<Str>, s: Str)
  {
    s in keys && forall t | t in keys :: t == s || Less(s, t)
  }

  /** Stored keys above `k`; with `skip`, only those that do not continue `k`. */
  ghost function Above(m: map<Str, Value>, k: Str, skip: bool): set<Str>
  {
    set t | t in m && Less(k, t) && !(skip && k <= t)
  }

  /** Stored keys that properly continue `p`. */
  ghost function Under(m: map<Str, Value>, p: Str): set<Str>
  {
    set t | t in m && p <= t && t != p
  }

  /** `t` is above `p` and above everything that continues `p`. */
  ghost predicate Beyond(p: Str, t: Str)
  {
    !(p <= t) && Less(p, t)
  }

  lemma BeyondContinuation(p: Str, q: Str, t: Str)
    requires Beyond(p, t) && p <= q
    ensures Beyond(q, t)
  {
    LessLeavesPrefix(p, p, t, q);
  }

  /** A stored key that continues a node's string enters the node by its next byte, and matches that entry's stem. */
  lemma Enters(h: Heap, root: Addr, l: Layout, n: Addr, t: Str)
    requires Shape(h, root, l) && n in h && t in Contents(h, root, l)
    requires n in l.at && l.at[n] <= t && |l.at[n]| < |t|
    ensures var c := t[|l.at[n]|];
      && Has(h, n, c)
      && var q := Spell(l.at[n], c, At(h, n, c).stem);
      && q <= t
      && (t == q ==> At(h, n, c).value.Some?)
      && (t != q ==> At(h, n, c).child.Some?)
  {
    ContentsIsLookup(h, root, l, t);
    var rest := t[|l.at[n]|..];
    assert l.at[n] + rest == t;
    FindDescends(h, root, l, n, rest);
    FindEnters(h, n, rest);
    var e := At(h, n, rest[0]);
    JoinSpell(l.at[n], rest[0], e.stem, rest[1 + |e.stem|..]);
  }

  lemma SpellAt(p: Str, c: Atom, stem: Str)
    ensures p <= Spell(p, c, stem) && |p| < |Spell(p, c, stem)| && Spell(p, c, stem)[|p|] == c
  {
  }

  /** The byte by which a string continues `p`. */
  ghost predicate FirstIn(h: Heap, n: Addr, c: Atom, above: int)
  {
    Has(h, n, c) && above < c && forall d | Has(h, n, d) && above < d :: c <= d
  }

  /** A stored key inside node `n`, entered after byte `above`, runs through or lies beyond the first such entry. */
  lemma UnderFirst(h: Heap, root: Addr, l: Layout, n: Addr, c: Atom, above: int, t: Str)
    requires Shape(h, root, l) && n in h && t in Contents(h, root, l)
    requires n in l.at && l.at[n] <= t && |l.at[n]| < |t| && above < t[|l.at[n]|]
    requires FirstIn(h, n, c, above)
    ensures var q := Spell(l.at[n], c, At(h, n, c).stem); q <= t || Beyond(q, t)
  {
    Enters(h, root, l, n, t);
    var d := t[|l.at[n]|];
    var q := Spell(l.at[n], c, At(h, n, c).stem);
    SpellAt(l.at[n], c, At(h, n, c).stem);
    assert c <= d;
    if c < d {
      LessByNextByte(l.at[n], q, t);
      assert q[|l.at[n]|] != t[|l.at[n]|];
    }
  }

  // ----- descending to the first stored key -----

  /** While descending from a node that sits at `p`, every key below it runs through `q` or lies beyond it. */
  ghost predicate Funnel(m: map<Str, Value>, p: Str, q: Str)
  {
    p <= q && forall t | t in Under(m, p) :: q <= t || Beyond(q, t)
  }

  lemma FunnelStep(h: Heap, root: Addr, l: Layout, p: Str, n: Addr, c: Atom)
    requires Shape(h, root, l) && n in h && n in l.at && FirstIn(h, n, c, -1)
    requires Funnel(Contents(h, root, l), p, l.at[n])
    requires p == l.at[n] || l.at[n] !in Contents(h, root, l)
    ensures Funnel(Contents(h, root, l), p, Spell(l.at[n], c, At(h, n, c).stem))
  {
    var m := Contents(h, root, l);
    var q := Spell(l.at[n], c, At(h, n, c).stem);
    SpellAt(l.at[n], c, At(h, n, c).stem);
    forall t | t in Under(m, p)
      ensures q <= t || Beyond(q, t)
    {
      if l.at[n] <= t {
        assert t != l.at[n];
        UnderFirst(h, root, l, n, c, -1, t);
      } else {
        BeyondContinuation(l.at[n], q, t);
      }
    }
  }

  lemma FunnelEnds(m: map<Str, Value>, p: Str, q: Str)
    requires Funnel(m, p, q) && q in m && q != p
    ensures Least(Under(m, p), q)
  {
    forall t | t in Under(m, p)
      ensures t == q || Less(q, t)
    {
      if q <= t && t != q {
        LessExtension(q, t);
      }
    }
  }

  /** Nodes that sit deeper than `n`: shrinks on every step down. */
  function Deeper(l: Layout, n: Addr): set<Addr>
    requires n in l.at
  {
    set a | a in l.at && |l.at[a]| > |l.at[n]|
  }

  lemma ChildIsDeeper(h: Heap, root: Addr, l: Layout, n: Addr, c: Atom)
    requires Shape(h, root, l) && Has(h, n, c) && At(h, n, c).child.Some?
    ensures var b := At(h, n, c).child.value;
      && b in h && b in l.at && n in l.at && b != root
      && l.at[b] == Spell(l.at[n], c, At(h, n, c).stem)
      && Deeper(l, b) < Deeper(l, n)
  {
    var b := At(h, n, c).child.value;
    assert EntryOk(h, root, l, n, c);
    assert ParentOk(h, l, b);
    assert b in Deeper(l, n) && b !in Deeper(l, b);
  }

  // ----- leaving an entry to the right or upwards -----

  /** None of the keys still looked for continues `q`, the string of the entry the search stands at. */
  ghost predicate Passed(m: map<Str, Value>, k: Str, skip: bool, q: Str)
  {
    q <= k && forall t | t in Above(m, k, skip) :: !(q <= t)
  }

  lemma PassedAtStart(h: Heap, root: Addr, l: Layout, n: Addr, c: Atom, skip: bool)
    requires Shape(h, root, l) && Has(h, n, c) && n in l.at
    requires skip || At(h, n, c).child.None?
    ensures var q := Spell(l.at[n], c, At(h, n, c).stem); Passed(Contents(h, root, l), q, skip, q)
  {
    var m := Contents(h, root, l);
    var q := Spell(l.at[n], c, At(h, n, c).stem);
    SpellAt(l.at[n], c, At(h, n, c).stem);
    forall t | t in Above(m, q, skip)
      ensures !(q <= t)
    {
      if q <= t {
        LessIrreflexive(q);
        Enters(h, root, l, n, t);
        assert false;
      }
    }
  }

  /** Keys looked for either enter node `n` to the right of byte `c`, or lie beyond the whole node. */
  lemma PassedSplits(h: Heap, root: Addr, l: Layout, n: Addr, c: Atom, k: Str, skip: bool, t: Str)
    requires Shape(h, root, l) && Has(h, n, c) && n in l.at
    requires Passed(Contents(h, root, l), k, skip, Spell(l.at[n], c, At(h, n, c).stem))
    requires t in Above(Contents(h, root, l), k, skip)
    ensures if l.at[n] <= t then |l.at[n]| < |t| && c < t[|l.at[n]|] && Has(h, n, t[|l.at[n]|]) else Beyond(l.at[n], t)
  {
    var p := l.at[n];
    SpellAt(p, c, At(h, n, c).stem);
    assert p <= k && |p| < |k| && k[|p|] == c;
    if p <= t {
      if p == t {
        LessExtension(p, k);
        LessAsymmetric(p, k);
        assert false;
      }
      Enters(h, root, l, n, t);
      if t[|p|] < c {
        LessByNextByte(p, t, k);
        LessAsymmetric(t, k);
        assert false;
      }
    } else {
      LessLeavesPrefix(p, k, t, p);
    }
  }

  /** Nothing in node `n` lies to the right of byte `c`. */
  ghost predicate Rightmost(h: Heap, n: Addr, c: Atom)
  {
    forall d: Atom | Has(h, n, d) :: d <= c
  }

  lemma PassedUp(h: Heap, root: Addr, l: Layout, n: Addr, c: Atom, k: Str, skip: bool)
    requires Shape(h, root, l) && Has(h, n, c) && n in l.at
    requires Passed(Contents(h, root, l), k, skip, Spell(l.at[n], c, At(h, n, c).stem))
    requires Rightmost(h, n, c)
    ensures Passed(Contents(h, root, l), k, skip, l.at[n])
  {
    SpellAt(l.at[n], c, At(h, n, c).stem);
    forall t | t in Above(Contents(h, root, l), k, skip)
      ensures !(l.at[n] <= t)
    {
      PassedSplits(h, root, l, n, c, k, skip, t);
    }
  }

  lemma PassedEverything(m: map<Str, Value>, k: Str, skip: bool)
    requires Passed(m, k, skip, [])
    ensures Above(m, k, skip) == {}
  {
    if t :| t in Above(m, k, skip) {
      assert false;
    }
  }

  /** The keys looked for begin at `q`: each continues it or lies beyond it, and all that continues `q` is above `k`. */
  ghost predicate BeginsAt(m: map<Str, Value>, k: Str, skip: bool, q: Str)
  {
    && (forall t | t in Above(m, k, skip) :: q <= t || Beyond(q, t))
    && (forall e: Str | q <= e :: Less(k, e) && !(k <= e))
  }

  /** The entry to the right of `c` is where the keys looked for begin. */
  lemma StepRight(h: Heap, root: Addr, l: Layout, n: Addr, c: Atom, d: Atom, k: Str, skip: bool)
    requires Shape(h, root, l) && Has(h, n, c) && n in l.at && FirstIn(h, n, d, c)
    requires Passed(Contents(h, root, l), k, skip, Spell(l.at[n], c, At(h, n, c).stem))
    ensures BeginsAt(Contents(h, root, l), k, skip, Spell(l.at[n], d, At(h, n, d).stem))
  {
    var m := Contents(h, root, l);
    var q := Spell(l.at[n], d, At(h, n, d).stem);
    SpellAt(l.at[n], c, At(h, n, c).stem);
    SpellAt(l.at[n], d, At(h, n, d).stem);
    forall t | t in Above(m, k, skip)
      ensures q <= t || Beyond(q, t)
    {
      PassedSplits(h, root, l, n, c, k, skip, t);
      if l.at[n] <= t {
        UnderFirst(h, root, l, n, d, c, t);
      } else {
        BeyondContinuation(l.at[n], q, t);
      }
    }
    forall e: Str | q <= e
      ensures Less(k, e) && !(k <= e)
    {
      assert k[|l.at[n]|] == c && e[|l.at[n]|] == d;
      LessByNextByte(l.at[n], k, e);
    }
  }

  /** `r` is the first stored key at or below the entry that spells `q`. */
  ghost predicate FirstBelow(m: map<Str, Value>, q: Str, r: Str)
  {
    if q in m then r == q else Least(Under(m, q), r)
  }

  /** Landing on the first key of the entry to the right lands on the least key looked for. */
  lemma RightIsLeast(m: map<Str, Value>, k: Str, skip: bool, q: Str, r: Str)
    requires BeginsAt(m, k, skip, q)
    requires FirstBelow(m, q, r)
    ensures Least(Above(m, k, skip), r)
  {
    assert q <= r && Less(k, r);
    forall t | t in Above(m, k, skip)
      ensures t == r || Less(r, t)
    {
      if q <= t {
        if q in m && t != q {
          LessExtension(q, t);
        }
        assert q !in m ==> t in Under(m, q);
      } else {
        BeyondContinuation(q, r, t);
      }
    }
  }

  /** Going down from `k` is going to the least key above it. */
  lemma DownIsLeast(m: map<Str, Value>, k: Str, r: Str)
    requires Least(Under(m, k), r)
    ensures Least(Above(m, k, false), r)
  {
    LessExtension(k, r);
    forall t | t in Above(m, k, false)
      ensures t == r || Less(r, t)
    {
      if k <= t {
        LessIrreflexive(k);
        assert t in Under(m, k);
      } else {
        BeyondContinuation(k, r, t);
      }
    }
  }

  // ----- whole traversals -----

  /** What `begin` followed by `next` until the end visits, in that order. */
  ghost predicate Traversal(m: map<Str, Value>, visited: seq<Str>)
  {
    if visited == [] then m == map[]
    else
      && Least(m.Keys, visited[0])
      && (forall i | 0 < i < |visited| :: Least(Above(m, visited[i - 1], false), visited[i]))
      && Above(m, visited[|visited| - 1], false) == {}
  }

  lemma {:induction false} TraversalAscends(m: map<Str, Value>, visited: seq<Str>, i: nat, j: nat)
    requires Traversal(m, visited) && i < j < |visited|
    ensures Less(visited[i], visited[j])
    decreases j - i
  {
    assert Least(Above(m, visited[j - 1], false), visited[j]);
    if i < j - 1 {
      TraversalAscends(m, visited, i, j - 1);
      LessTransitive(visited[i], visited[j - 1], visited[j]);
    }
  }

  lemma {:induction false} TraversalReaches(m: map<Str, Value>, visited: seq<Str>, t: Str, i: nat)
    requires Traversal(m, visited) && t in m && i < |visited|
    requires t == visited[i] || Less(visited[i], t)
    ensures t in visited
    decreases |visited| - i
  {
    if t != visited[i] {
      assert t in Above(m, visited[i], false);
      assert Least(Above(m, visited[i], false), visited[i + 1]);
      TraversalReaches(m, visited, t, i + 1);
    }
  }

  /** A traversal that is still under way. */
  ghost predicate Ascent(m: map<Str, Value>, visited: seq<Str>)
  {
    && visited != [] && Least(m.Keys, visited[0])
    && forall i | 0 < i < |visited| :: Least(Above(m, visited[i - 1], false), visited[i])
  }

  /** One key further, and strictly fewer keys to go. */
  lemma AscentGrows(m: map<Str, Value>, visited: seq<Str>, k: Str)
    requires visited == [] ==> Least(m.Keys, k)
    requires visited != [] ==> Ascent(m, visited) && Above(m, visited[|visited| - 1], false) != {}
                               && Least(Above(m, visited[|visited| - 1], false), k)
    ensures Ascent(m, visited + [k]) && (visited + [k])[|visited|] == k
    ensures visited != [] ==> Above(m, k, false) < Above(m, visited[|visited| - 1], false)
    ensures visited == [] ==> Above(m, k, false) < m.Keys + {[]}
  {
    LessIrreflexive(k);
    if visited != [] {
      var last := visited[|visited| - 1];
      forall t | t in Above(m, k, false)
        ensures t in Above(m, last, false)
      {
        LessTransitive(last, k, t);
      }
      assert k in Above(m, last, false) && k !in Above(m, k, false);
    } else {
      assert k in m.Keys && k !in Above(m, k, false);
    }
  }

  lemma AscentEnds(m: map<Str, Value>, visited: seq<Str>)
    requires visited == [] ==> m == map[]
    requires visited != [] ==> Ascent(m, visited) && Above(m, visited[|visited| - 1], false) == {}
    ensures forall i, j | 0 <= i < j < |visited| :: Less(visited[i], visited[j]) && visited[i] != visited[j]
    ensures forall t :: t in visited <==> t in m
  {
    TraversalIsExact(m, visited);
  }

  /** A traversal visits every stored key exactly once, in strictly ascending order, and nothing else. */
  lemma TraversalIsExact(m: map<Str, Value>, visited: seq<Str>)
    requires Traversal(m, visited)
    ensures forall i, j | 0 <= i < j < |visited| :: Less(visited[i], visited[j]) && visited[i] != visited[j]
    ensures forall t :: t in visited <==> t in m
  {
    forall i, j | 0 <= i < j < |visited|
      ensures Less(visited[i], visited[j]) && visited[i] != visited[j]
    {
      TraversalAscends(m, visited, i, j);
      LessIrreflexive(visited[i]);
    }
    forall t
      ensures t in visited <==> t in m
    {
      if t in m {
        TraversalReaches(m, visited, t, 0);
      }
      if t in visited {
        var i :| 0 <= i < |visited| && visited[i] == t;
        assert i > 0 ==> Least(Above(m, visited[i - 1], false), visited[i]);
      }
    }
  }
}
