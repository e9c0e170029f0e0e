/** The list under the index: elements in order, cut into runs of equal spans, one run for each terminal. */
module SpanList {
  import opened Common
  import opened Zones
  import opened SpanTree

  /** A list node, which is what an iterator points to. */
  type Id = nat

  datatype Terminal = Terminal(first: Id, second: Id)

  function IndexOf(s: seq<Id>, x: Id): (k: nat)
    requires x in s
    ensures k < |s| && s[k] == x
  {
    if s[0] == x then 0 else 1 + IndexOf(s[1..], x)
  }

  lemma IndexIs(s: seq<Id>, k: nat)
    requires Distinct(s) && k < |s|
    ensures IndexOf(s, s[k]) == k
  {
  }

  function RemoveId(s: seq<Id>, k: nat): seq<Id>
    requires k < |s|
  {
    s[..k] + s[k + 1..]
  }

  function InsertId(s: seq<Id>, k: nat, x: Id): seq<Id>
    requires k <= |s|
  {
    s[..k] + [x] + s[k..]
  }

  /** The run of terminal `t` is exactly the stretch of the list from `f` to `s`. */
  ghost predicate RunAt(order: seq<Id>, owner: map<Id, Addr>, t: Addr, term: Terminal, f: nat, s: nat)
  {
    && f <= s < |order| && order[f] == term.first && order[s] == term.second
    && (forall k {:trigger order[k]} | 0 <= k < |order| :: order[k] in owner && (owner[order[k]] == t <==> f <= k <= s))
  }

  ghost predicate RunOk(order: seq<Id>, owner: map<Id, Addr>, t: Addr, term: Terminal)
  {
    exists f: nat, s: nat :: RunAt(order, owner, t, term, f, s)
  }

  /** Every element belongs to the run of one terminal, and has the span of the run's first element. */
  ghost predicate OwnerOk(terms: map<Addr, Terminal>, items: map<Id, Span>, owner: map<Id, Addr>, x: Id)
  {
    && x in items && x in owner && owner[x] in terms && terms[owner[x]].first in items
    && items[x] == items[terms[owner[x]].first] && items[x].count > 0
  }

  ghost predicate RunsOk(terms: map<Addr, Terminal>, order: seq<Id>, items: map<Id, Span>, owner: map<Id, Addr>)
  {
    && Distinct(order) && owner.Keys == items.Keys == (set x | x in order)
    && (forall t {:trigger RunOk(order, owner, t, terms[t])} | t in terms :: RunOk(order, owner, t, terms[t]))
    && (forall x {:trigger OwnerOk(terms, items, owner, x)} | x in items :: OwnerOk(terms, items, owner, x))
  }

  /** The span of each terminal: that of its first element. */
  function TermSpans(terms: map<Addr, Terminal>, items: map<Id, Span>): map<Addr, Span>
  {
    map t | t in terms :: if terms[t].first in items then items[terms[t].first] else NO_SPAN
  }

  lemma SameTerms(terms: map<Addr, Terminal>, items: map<Id, Span>)
    ensures TermSpans(terms, items).Keys == terms.Keys
  {
  }

  lemma RunEnds(terms: map<Addr, Terminal>, order: seq<Id>, items: map<Id, Span>, owner: map<Id, Addr>, t: Addr)
    requires RunsOk(terms, order, items, owner) && t in terms
    ensures terms[t].first in items && terms[t].second in items
    ensures owner[terms[t].first] == t == owner[terms[t].second]
    ensures TermSpans(terms, items)[t] == items[terms[t].first] && items[terms[t].first].count > 0
  {
    assert RunOk(order, owner, t, terms[t]);
    var f: nat, s: nat :| RunAt(order, owner, t, terms[t], f, s);
    assert order[f] in owner && order[s] in owner;
    assert OwnerOk(terms, items, owner, terms[t].first);
  }

  /** The span of what is in a slot, read through the terminal or the node. */
  lemma SlotKnown(h: Nodes, root: Addr, g: Family, terms: map<Addr, Terminal>, order: seq<Id>, items: map<Id, Span>,
                  owner: map<Id, Addr>, a: Addr, i: nat)
    requires RunsOk(terms, order, items, owner) && TreeShape(h, root, TermSpans(terms, items), g)
    requires a in h && i < |h[a].slots|
    ensures match h[a].slots[i]
      case Term(t) => t in terms && terms[t].first in items && SlotSpan(h, TermSpans(terms, items), Term(t)) == items[terms[t].first]
      case Sub(c) => c in h && SlotSpan(h, TermSpans(terms, items), Sub(c)) == h[c].span
  {
    hide RunsOk;
    assert NodeOk(h, root, TermSpans(terms, items), g, a);
    assert SlotOk(h, root, TermSpans(terms, items), g, a, h[a].slots[i]);
    if h[a].slots[i].Term? {
      RunEnds(terms, order, items, owner, h[a].slots[i].t);
    }
  }

  // ----- a new element at the front of the list, with a terminal of its own -----

  lemma NewRun(terms: map<Addr, Terminal>, order: seq<Id>, items: map<Id, Span>, owner: map<Id, Addr>, x: Id, p: Span, t: Addr)
    requires RunsOk(terms, order, items, owner) && x !in items && t !in terms && p.count > 0
    ensures RunsOk(terms[t := Terminal(x, x)], [x] + order, items[x := p], owner[x := t])
    ensures TermSpans(terms[t := Terminal(x, x)], items[x := p]) == TermSpans(terms, items)[t := p]
  {
    hide TermSpans, RunOk, OwnerOk;
    var terms', order', items', owner' := terms[t := Terminal(x, x)], [x] + order, items[x := p], owner[x := t];
    forall u | u in terms'
      ensures RunOk(order', owner', u, terms'[u])
    {
      NewRunOk(terms, order, items, owner, x, t, u);
    }
    forall y | y in items'
      ensures OwnerOk(terms', items', owner', y)
    {
      WithNewOwner(terms, order, items, owner, x, p, t, y);
    }
    InsertedOnce(order, 0, x);
    assert InsertId(order, 0, x) == order';
    SpansWithNew(terms, order, items, owner, x, p, t);
  }

  lemma NewRunOk(terms: map<Addr, Terminal>, order: seq<Id>, items: map<Id, Span>, owner: map<Id, Addr>, x: Id, t: Addr, u: Addr)
    requires RunsOk(terms, order, items, owner) && x !in items && t !in terms && (u in terms || u == t)
    ensures RunOk([x] + order, owner[x := t], u, if u == t then Terminal(x, x) else terms[u])
  {
    var order', owner' := [x] + order, owner[x := t];
    assert x !in order;
    assert forall k {:trigger order'[k]} | 0 < k < |order'| :: order'[k] == order[k - 1] && order[k - 1] in items;
    if u == t {
      assert forall k {:trigger order'[k]} | 0 < k < |order'| :: OwnerOk(terms, items, owner, order'[k]);
      assert RunAt(order', owner', t, Terminal(x, x), 0, 0);
    } else {
      assert RunOk(order, owner, u, terms[u]);
      var f: nat, s: nat :| RunAt(order, owner, u, terms[u], f, s);
      assert RunAt(order', owner', u, terms[u], f + 1, s + 1);
    }
  }

  lemma WithNewOwner(terms: map<Addr, Terminal>, order: seq<Id>, items: map<Id, Span>, owner: map<Id, Addr>, x: Id, p: Span, t: Addr,
                     y: Id)
    requires RunsOk(terms, order, items, owner) && x !in items && t !in terms && p.count > 0 && (y in items || y == x)
    ensures OwnerOk(terms[t := Terminal(x, x)], items[x := p], owner[x := t], y)
  {
    assert y != x ==> OwnerOk(terms, items, owner, y);
  }

  lemma SpansWithNew(terms: map<Addr, Terminal>, order: seq<Id>, items: map<Id, Span>, owner: map<Id, Addr>, x: Id, p: Span, t: Addr)
    requires RunsOk(terms, order, items, owner) && x !in items && t !in terms
    ensures TermSpans(terms[t := Terminal(x, x)], items[x := p]) == TermSpans(terms, items)[t := p]
  {
    forall u | u in terms
      ensures terms[u].first in items
    {
      RunEnds(terms, order, items, owner, u);
    }
  }

  // ----- an element put behind the last one of a run -----

  lemma RunExtended(terms: map<Addr, Terminal>, order: seq<Id>, items: map<Id, Span>, owner: map<Id, Addr>, x: Id, p: Span, t: Addr)
    requires RunsOk(terms, order, items, owner) && x !in items && t in terms && p == TermSpans(terms, items)[t]
    ensures terms[t].second in order
    ensures var terms' := terms[t := terms[t].(second := x)];
      var order' := InsertId(order, IndexOf(order, terms[t].second) + 1, x);
      RunsOk(terms', order', items[x := p], owner[x := t]) && TermSpans(terms', items[x := p]) == TermSpans(terms, items)
  {
    hide TermSpans, RunOk, OwnerOk;
    RunEnds(terms, order, items, owner, t);
    var c := IndexOf(order, terms[t].second) + 1;
    var terms', order', items', owner' :=
      terms[t := terms[t].(second := x)], InsertId(order, c, x), items[x := p], owner[x := t];
    assert x !in order;
    forall u | u in terms'
      ensures RunOk(order', owner', u, terms'[u])
    {
      RunParted(terms, order, items, owner, x, t, u);
    }
    forall y | y in items'
      ensures OwnerOk(terms', items', owner', y)
    {
      WithLongerRun(terms, order, items, owner, x, p, t, y);
    }
    InsertedOnce(order, c, x);
    SpansWithLonger(terms, order, items, owner, x, p, t);
  }

  lemma WithLongerRun(terms: map<Addr, Terminal>, order: seq<Id>, items: map<Id, Span>, owner: map<Id, Addr>, x: Id, p: Span, t: Addr,
                      y: Id)
    requires RunsOk(terms, order, items, owner) && x !in items && t in terms && p == TermSpans(terms, items)[t]
    requires y in items || y == x
    ensures OwnerOk(terms[t := terms[t].(second := x)], items[x := p], owner[x := t], y)
  {
    RunEnds(terms, order, items, owner, t);
    assert y != x ==> OwnerOk(terms, items, owner, y);
  }

  lemma InsertedOnce(s: seq<Id>, k: nat, x: Id)
    requires Distinct(s) && k <= |s| && x !in s
    ensures Distinct(InsertId(s, k, x)) && (set y | y in InsertId(s, k, x)) == (set y | y in s) + {x}
  {
    assert s == s[..k] + s[k..];
  }

  lemma SpansWithLonger(terms: map<Addr, Terminal>, order: seq<Id>, items: map<Id, Span>, owner: map<Id, Addr>, x: Id, p: Span, t: Addr)
    requires RunsOk(terms, order, items, owner) && x !in items && t in terms
    ensures TermSpans(terms[t := terms[t].(second := x)], items[x := p]) == TermSpans(terms, items)
  {
    forall u | u in terms
      ensures terms[u].first in items
    {
      RunEnds(terms, order, items, owner, u);
    }
  }

  lemma RunParted(terms: map<Addr, Terminal>, order: seq<Id>, items: map<Id, Span>, owner: map<Id, Addr>, x: Id, t: Addr, u: Addr)
    requires RunsOk(terms, order, items, owner) && x !in order && t in terms && u in terms
    ensures terms[t].second in order
    ensures RunOk(InsertId(order, IndexOf(order, terms[t].second) + 1, x), owner[x := t], u,
                  if u == t then terms[t].(second := x) else terms[u])
  {
    assert RunOk(order, owner, t, terms[t]) && RunOk(order, owner, u, terms[u]);
    var f: nat, s: nat :| RunAt(order, owner, t, terms[t], f, s);
    IndexIs(order, s);
    var d: nat, e: nat :| RunAt(order, owner, u, terms[u], d, e);
    if u == t {
      SameRun(order, owner, t, terms[t], f, s, d, e);
      RunGrown(order, owner, t, terms[t], f, s, x);
    } else {
      RunPushed(order, owner, t, u, terms[u], d, e, s, x);
    }
  }

  lemma SameRun(order: seq<Id>, owner: map<Id, Addr>, t: Addr, term: Terminal, f: nat, s: nat, d: nat, e: nat)
    requires RunAt(order, owner, t, term, f, s) && RunAt(order, owner, t, term, d, e)
    ensures f == d && s == e
  {
    assert order[f] in owner && order[d] in owner && order[s] in owner && order[e] in owner;
  }

  lemma RunGrown(order: seq<Id>, owner: map<Id, Addr>, t: Addr, term: Terminal, f: nat, s: nat, x: Id)
    requires RunAt(order, owner, t, term, f, s) && x !in order
    ensures RunAt(InsertId(order, s + 1, x), owner[x := t], t, term.(second := x), f, s + 1)
  {
    var order' := InsertId(order, s + 1, x);
    assert forall k | 0 <= k < |order'| :: order'[k] == if k <= s then order[k] else if k == s + 1 then x else order[k - 1];
  }

  lemma RunPushed(order: seq<Id>, owner: map<Id, Addr>, t: Addr, u: Addr, term: Terminal, f: nat, s: nat, c: nat, x: Id)
    requires RunAt(order, owner, u, term, f, s) && x !in order && t != u && c < |order| && !(f <= c <= s)
    ensures RunOk(InsertId(order, c + 1, x), owner[x := t], u, term)
  {
    var order' := InsertId(order, c + 1, x);
    assert forall k | 0 <= k < |order'| :: order'[k] == if k <= c then order[k] else if k == c + 1 then x else order[k - 1];
    var d := if s < c then 0 else 1;
    assert RunAt(order', owner[x := t], u, term, f + d, s + d);
  }

  // ----- taking an element out -----

  /** The ends of a run of two or more after its element `x`, at index `k` of the list, is gone. */
  function EndsWithout(term: Terminal, order': seq<Id>, k: nat, x: Id): Terminal
    requires term.second == x ==> 0 < k <= |order'|
    requires term.first == x ==> k < |order'|
  {
    if term.second == x then term.(second := order'[k - 1])
    else if term.first == x then term.(first := order'[k])
    else term
  }

  lemma RunAround(terms: map<Addr, Terminal>, order: seq<Id>, items: map<Id, Span>, owner: map<Id, Addr>, k: nat)
    returns (f: nat, s: nat)
    requires RunsOk(terms, order, items, owner) && k < |order|
    ensures order[k] in items && order[k] in owner && owner[order[k]] in terms
    ensures var t := owner[order[k]]; RunAt(order, owner, t, terms[t], f, s) && f <= k <= s
    ensures var term := terms[owner[order[k]]];
      && (term.first == term.second <==> f == s) && (term.first == order[k] <==> k == f) && (term.second == order[k] <==> k == s)
  {
    assert order[k] in items;
    assert OwnerOk(terms, items, owner, order[k]);
    var t := owner[order[k]];
    assert RunOk(order, owner, t, terms[t]);
    f, s :| RunAt(order, owner, t, terms[t], f, s);
  }

  lemma RemovedOnce(s: seq<Id>, k: nat)
    requires Distinct(s) && k < |s|
    ensures Distinct(RemoveId(s, k)) && (set y | y in RemoveId(s, k)) == (set y | y in s) - {s[k]}
    ensures forall i | 0 <= i < |s| - 1 :: RemoveId(s, k)[i] == s[if i < k then i else i + 1]
  {
    var r := RemoveId(s, k);
    assert forall i {:trigger r[i]} | 0 <= i < |r| :: r[i] == s[if i < k then i else i + 1];
    forall y | y in s && y != s[k]
      ensures y in r
    {
      var j :| 0 <= j < |s| && s[j] == y;
      assert r[if j < k then j else j - 1] == y;
    }
  }

  /** The other runs, and the rest of a longer run, stay runs. */
  lemma RunCut(order: seq<Id>, owner: map<Id, Addr>, k: nat, u: Addr, term: Terminal, f: nat, s: nat)
    requires Distinct(order) && k < |order| && RunAt(order, owner, u, term, f, s) && (f <= k <= s ==> f < s)
    ensures var order' := RemoveId(order, k);
      RunOk(order', owner - {order[k]}, u,
            if f <= k <= s then Terminal(order'[f], order'[s - 1]) else term)
  {
    RemovedOnce(order, k);
    var order' := RemoveId(order, k);
    var f' := if k < f then f - 1 else f;
    var s' := if k <= s then s - 1 else s;
    assert order[k] in owner;
    assert forall i | 0 <= i < |order'| :: order'[i] != order[k];
    assert RunAt(order', owner - {order[k]}, u, if f <= k <= s then Terminal(order'[f], order'[s - 1]) else term, f', s');
  }

  lemma RunShortened(terms: map<Addr, Terminal>, order: seq<Id>, items: map<Id, Span>, owner: map<Id, Addr>, k: nat)
    requires RunsOk(terms, order, items, owner) && k < |order|
    requires order[k] in owner && owner[order[k]] in terms
    requires var term := terms[owner[order[k]]]; term.first != term.second
    ensures var x := order[k]; var t := owner[x]; var order' := RemoveId(order, k);
      && (terms[t].second == x ==> 0 < k) && (terms[t].first == x ==> k < |order'|)
      && var terms' := terms[t := EndsWithout(terms[t], order', k, x)];
      && RunsOk(terms', order', items - {x}, owner - {x}) && TermSpans(terms', items - {x}) == TermSpans(terms, items)
  {
    hide TermSpans, OwnerOk;
    var f, s := RunAround(terms, order, items, owner, k);
    RemovedOnce(order, k);
    var x := order[k];
    var t, order' := owner[x], RemoveId(order, k);
    var term' := EndsWithout(terms[t], order', k, x);
    RunCut(order, owner, k, t, terms[t], f, s);
    assert term' == Terminal(order'[f], order'[s - 1]);
    var terms' := terms[t := term'];
    forall u | u in terms'
      ensures RunOk(order', owner - {x}, u, terms'[u])
    {
      if u != t {
        RunElsewhere(terms, order, items, owner, k, u);
      }
    }
    forall y | y in items - {x}
      ensures OwnerOk(terms', items - {x}, owner - {x}, y)
    {
      ShorterRunOwns(terms, order, items, owner, k, f, s, y);
    }
    ShorterRunSpans(terms, order, items, owner, k, f, s);
  }

  lemma RunElsewhere(terms: map<Addr, Terminal>, order: seq<Id>, items: map<Id, Span>, owner: map<Id, Addr>, k: nat, u: Addr)
    requires RunsOk(terms, order, items, owner) && k < |order|
    requires order[k] in owner && u in terms && u != owner[order[k]]
    ensures RunOk(RemoveId(order, k), owner - {order[k]}, u, terms[u])
  {
    assert RunOk(order, owner, u, terms[u]);
    var d: nat, e: nat :| RunAt(order, owner, u, terms[u], d, e);
    RunCut(order, owner, k, u, terms[u], d, e);
  }

  lemma ShorterRunOwns(terms: map<Addr, Terminal>, order: seq<Id>, items: map<Id, Span>, owner: map<Id, Addr>, k: nat,
                       f: nat, s: nat, y: Id)
    requires RunsOk(terms, order, items, owner) && k < |order| && y in items && y != order[k]
    requires order[k] in owner && owner[order[k]] in terms
    requires var t := owner[order[k]]; RunAt(order, owner, t, terms[t], f, s) && f <= k <= s && f < s
    ensures var order' := RemoveId(order, k);
      OwnerOk(terms[owner[order[k]] := Terminal(order'[f], order'[s - 1])], items - {order[k]}, owner - {order[k]}, y)
  {
    RemovedOnce(order, k);
    assert OwnerOk(terms, items, owner, y);
    var order' := RemoveId(order, k);
    assert order'[f] in items && OwnerOk(terms, items, owner, order'[f]) && order[k] in items;
    assert OwnerOk(terms, items, owner, order[k]);
    RunFirst(terms, order, items, owner, owner[y]);
    assert order[if f == k then f + 1 else f] in owner;
  }

  /** The first element of another run is not `order[k]`. */
  lemma RunFirst(terms: map<Addr, Terminal>, order: seq<Id>, items: map<Id, Span>, owner: map<Id, Addr>, u: Addr)
    requires RunsOk(terms, order, items, owner) && u in terms
    ensures terms[u].first in owner && owner[terms[u].first] == u
  {
    RunEnds(terms, order, items, owner, u);
  }

  lemma ShorterRunSpans(terms: map<Addr, Terminal>, order: seq<Id>, items: map<Id, Span>, owner: map<Id, Addr>, k: nat, f: nat, s: nat)
    requires RunsOk(terms, order, items, owner) && k < |order|
    requires order[k] in owner && owner[order[k]] in terms
    requires var t := owner[order[k]]; RunAt(order, owner, t, terms[t], f, s) && f <= k <= s && f < s
    ensures var order' := RemoveId(order, k);
      TermSpans(terms[owner[order[k]] := Terminal(order'[f], order'[s - 1])], items - {order[k]}) == TermSpans(terms, items)
  {
    RemovedOnce(order, k);
    var order', t := RemoveId(order, k), owner[order[k]];
    var y := order'[f];
    assert y in items && OwnerOk(terms, items, owner, y) && order[if f == k then f + 1 else f] in owner;
    forall u | u in terms
      ensures terms[u].first in items && (u != t ==> terms[u].first != order[k])
    {
      RunFirst(terms, order, items, owner, u);
    }
  }

  /** The last element of a run goes, and its terminal with it. */
  lemma RunGone(terms: map<Addr, Terminal>, order: seq<Id>, items: map<Id, Span>, owner: map<Id, Addr>, k: nat)
    requires RunsOk(terms, order, items, owner) && k < |order|
    requires order[k] in owner && owner[order[k]] in terms
    requires var term := terms[owner[order[k]]]; term.first == term.second
    ensures var x := order[k]; var t := owner[x]; var terms' := terms - {t};
      && RunsOk(terms', RemoveId(order, k), items - {x}, owner - {x}) && TermSpans(terms', items - {x}) == TermSpans(terms, items) - {t}
  {
    hide RunOk, OwnerOk;
    RemovedOnce(order, k);
    var x := order[k];
    var t, order' := owner[x], RemoveId(order, k);
    forall u | u in terms - {t}
      ensures RunOk(order', owner - {x}, u, terms[u]) && terms[u].first in items && terms[u].first != x
    {
      RunElsewhere(terms, order, items, owner, k, u);
      RunFirst(terms, order, items, owner, u);
    }
    forall y | y in items - {x}
      ensures OwnerOk(terms - {t}, items - {x}, owner - {x}, y)
    {
      GoneRunOwns(terms, order, items, owner, k, y);
    }
  }

  lemma GoneRunOwns(terms: map<Addr, Terminal>, order: seq<Id>, items: map<Id, Span>, owner: map<Id, Addr>, k: nat, y: Id)
    requires RunsOk(terms, order, items, owner) && k < |order| && y in items && y != order[k]
    requires order[k] in owner && owner[order[k]] in terms
    requires var term := terms[owner[order[k]]]; term.first == term.second
    ensures OwnerOk(terms - {owner[order[k]]}, items - {order[k]}, owner - {order[k]}, y)
  {
    var f, s := RunAround(terms, order, items, owner, k);
    assert OwnerOk(terms, items, owner, y);
    RunFirst(terms, order, items, owner, owner[y]);
    if owner[y] == owner[order[k]] {
      AloneInRun(order, owner, owner[y], terms[owner[y]], k, y);
    }
  }

  lemma AloneInRun(order: seq<Id>, owner: map<Id, Addr>, t: Addr, term: Terminal, k: nat, y: Id)
    requires RunAt(order, owner, t, term, k, k) && y in order && y in owner && owner[y] == t
    ensures y == order[k]
  {
  }

  // ----- walking along runs -----

  /** The elements of the run of terminal `t`, in list order. */
  ghost function RunOf(terms: map<Addr, Terminal>, order: seq<Id>, t: Addr): seq<Id>
  {
    if t in terms then RunFrom(terms, order, t, terms[t].first) else []
  }

  /** The rest of the run of `t` from element `x` on. */
  ghost function RunFrom(terms: map<Addr, Terminal>, order: seq<Id>, t: Addr, x: Id): seq<Id>
  {
    if t in terms && x in order && terms[t].second in order && IndexOf(order, x) <= IndexOf(order, terms[t].second)
    then order[IndexOf(order, x)..IndexOf(order, terms[t].second) + 1] else []
  }

  ghost function Runs(terms: map<Addr, Terminal>, order: seq<Id>, ts: seq<Addr>): seq<Id>
  {
    if ts == [] then [] else RunOf(terms, order, ts[0]) + Runs(terms, order, ts[1..])
  }

  lemma RunIsStretch(terms: map<Addr, Terminal>, order: seq<Id>, items: map<Id, Span>, owner: map<Id, Addr>, t: Addr)
    returns (f: nat, s: nat)
    requires RunsOk(terms, order, items, owner) && t in terms
    ensures RunAt(order, owner, t, terms[t], f, s) && Distinct(order) && owner.Keys == (set x | x in order)
    ensures terms[t].first in order && terms[t].second in order
    ensures IndexOf(order, terms[t].first) == f && IndexOf(order, terms[t].second) == s
  {
    hide OwnerOk;
    assert RunOk(order, owner, t, terms[t]);
    f, s :| RunAt(order, owner, t, terms[t], f, s);
    IndexIs(order, f);
    IndexIs(order, s);
  }

  lemma StretchIsExact(order: seq<Id>, owner: map<Id, Addr>, t: Addr, term: Terminal, f: nat, s: nat, x: Id)
    requires RunAt(order, owner, t, term, f, s) && owner.Keys == (set y | y in order)
    ensures x in order[f..s + 1] <==> x in owner && owner[x] == t
  {
    if x in owner && owner[x] == t {
      assert x in order;
      var k :| 0 <= k < |order| && order[k] == x;
      assert order[f..s + 1][k - f] == x;
    }
  }

  /** A run lists each of its elements once. */
  lemma RunIsExact(terms: map<Addr, Terminal>, order: seq<Id>, items: map<Id, Span>, owner: map<Id, Addr>, t: Addr)
    requires RunsOk(terms, order, items, owner) && t in terms
    ensures terms[t].first in order && Distinct(RunOf(terms, order, t))
    ensures forall x :: x in RunOf(terms, order, t) <==> x in owner && owner[x] == t
  {
    hide RunsOk, RunAt, IndexOf;
    var f, s := RunIsStretch(terms, order, items, owner, t);
    assert f <= s < |order| by { StretchBounds(order, owner, t, terms[t], f, s); }
    assert RunOf(terms, order, t) == order[f..s + 1];
    forall x
      ensures x in RunOf(terms, order, t) <==> x in owner && owner[x] == t
    {
      StretchIsExact(order, owner, t, terms[t], f, s, x);
    }
  }

  lemma StretchBounds(order: seq<Id>, owner: map<Id, Addr>, t: Addr, term: Terminal, f: nat, s: nat)
    requires RunAt(order, owner, t, term, f, s)
    ensures f <= s < |order| && order[s] == term.second
  {
  }

  /** Several runs list the elements of their terminals, each once. */
  lemma {:induction false} RunsAreExact(terms: map<Addr, Terminal>, order: seq<Id>, items: map<Id, Span>, owner: map<Id, Addr>,
                                        ts: seq<Addr>)
    requires RunsOk(terms, order, items, owner) && Distinct(ts) && forall t | t in ts :: t in terms
    ensures Distinct(Runs(terms, order, ts))
    ensures forall x :: x in Runs(terms, order, ts) <==> x in owner && owner[x] in ts
  {
    hide RunsOk, RunOf;
    if ts != [] {
      assert forall t | t in ts[1..] :: t in ts;
      RunIsExact(terms, order, items, owner, ts[0]);
      RunsAreExact(terms, order, items, owner, ts[1..]);
      assert ts == [ts[0]] + ts[1..];
      assert ts[0] !in ts[1..];
      DistinctJoin(RunOf(terms, order, ts[0]), Runs(terms, order, ts[1..]));
    }
  }

  lemma FirstOfRun(terms: map<Addr, Terminal>, order: seq<Id>, items: map<Id, Span>, owner: map<Id, Addr>, t: Addr)
    requires RunsOk(terms, order, items, owner) && t in terms
    ensures terms[t].first in owner && owner[terms[t].first] == t
    ensures RunOf(terms, order, t) == RunFrom(terms, order, t, terms[t].first)
  {
    RunEnds(terms, order, items, owner, t);
  }

  lemma NoRuns(terms: map<Addr, Terminal>, order: seq<Id>)
    ensures Runs(terms, order, []) == []
  {
  }

  lemma RunsFirst(terms: map<Addr, Terminal>, order: seq<Id>, t: Addr, rest: seq<Addr>)
    ensures Runs(terms, order, [t] + rest) == RunOf(terms, order, t) + Runs(terms, order, rest)
  {
    assert ([t] + rest)[1..] == rest;
  }

  lemma StretchStep(order: seq<Id>, owner: map<Id, Addr>, t: Addr, term: Terminal, f: nat, s: nat, k: nat)
    requires RunAt(order, owner, t, term, f, s) && Distinct(order) && k < |order|
    requires order[k] in owner && owner[order[k]] == t
    ensures k <= s && (k == s <==> order[k] == term.second)
    ensures k < s ==> order[k + 1] in owner && owner[order[k + 1]] == t && order[k..s + 1] == [order[k]] + order[k + 1..s + 1]
    ensures k == s ==> order[k..s + 1] == [order[k]]
  {
    assert k < s ==> order[k + 1] in owner;
  }

  lemma RunFromIs(terms: map<Addr, Terminal>, order: seq<Id>, t: Addr, k: nat, s: nat)
    requires t in terms && Distinct(order) && k <= s < |order| && order[s] == terms[t].second
    ensures RunFrom(terms, order, t, order[k]) == order[k..s + 1]
  {
    IndexIs(order, k);
    IndexIs(order, s);
  }

  /** One element further in a run: the next list node, or the end of the run. */
  lemma RunStep(terms: map<Addr, Terminal>, order: seq<Id>, items: map<Id, Span>, owner: map<Id, Addr>, t: Addr, x: Id)
    requires RunsOk(terms, order, items, owner) && t in terms && x in owner && owner[x] == t
    ensures x in order && terms[t].second in order
    ensures var k := IndexOf(order, x);
      if x == terms[t].second then RunFrom(terms, order, t, x) == [x]
      else k + 1 < |order| && order[k + 1] in owner && owner[order[k + 1]] == t
           && RunFrom(terms, order, t, x) == [x] + RunFrom(terms, order, t, order[k + 1])
  {
    hide RunsOk, RunFrom, IndexOf;
    var f, s := RunIsStretch(terms, order, items, owner, t);
    assert x in order;
    var k := IndexOf(order, x);
    StretchStep(order, owner, t, terms[t], f, s, k);
    StretchBounds(order, owner, t, terms[t], f, s);
    hide RunAt, Distinct;
    RunFromIs(terms, order, t, k, s);
    if x != terms[t].second {
      RunFromIs(terms, order, t, k + 1, s);
    }
  }
}
