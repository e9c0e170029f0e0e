/** What each operation of a trie node asks for and does to its entries and its version. `TrieNode` is proved to do
    exactly this on its presence sets and tables; `Trie` takes these steps on the nodes it addresses, and only when they
    can be taken. */
module NodeSteps {
  import opened Common
  import opened Lex
  import opened TrieModel

  const NewNode := Node(0, map[])

  /** `insert`: a new entry; growing the table on the way bumps the version more than once. */
  predicate Inserted(n: Node, n': Node, key: Atom, stem: Str, v: Value)
    requires key !in n.entries
  {
    n'.version > n.version && n'.entries == n.entries[key := Entry(None, stem, Some(v))]
  }

  /** `erase`: with `wipe` the value goes, and the entry with it unless it has a child. */
  function Erased(n: Node, key: Atom, wipe: bool): Node
    requires wipe ==> key in n.entries
  {
    var entries :=
      if !wipe then n.entries
      else if n.entries[key].child.Some? then n.entries[key := n.entries[key].(value := None)]
      else n.entries - {key};
    Node(n.version + 1, entries)
  }

  function ChildSet(n: Node, key: Atom, b: Addr): Node
    requires key in n.entries && n.entries[key].child.None?
  {
    Node(n.version + 1, n.entries[key := n.entries[key].(child := Some(b))])
  }

  /** `remove_child`: the entry goes unless it has a value. */
  function ChildRemoved(n: Node, key: Atom): Node
    requires key in n.entries && n.entries[key].child.Some?
  {
    Node(n.version + 1,
         if n.entries[key].value.Some? then n.entries[key := n.entries[key].(child := None)] else n.entries - {key})
  }

  function ValueSet(n: Node, key: Atom, v: Value): Node
    requires key in n.entries
  {
    Node(n.version + 1, n.entries[key := n.entries[key].(value := Some(v))])
  }

  /** `move_from_entry`, source side: the entry keeps `m` bytes of its stem and refers to the target node. */
  function MovedOut(n: Node, key: Atom, m: nat, target: Addr): Node
    requires key in n.entries && m < |n.entries[key].stem|
  {
    Node(n.version + 1, n.entries[key := Entry(Some(target), n.entries[key].stem[..m], None)])
  }

  /** `move_from_entry`, target side: what was cut off becomes the only entry of an empty node. */
  function MovedIn(t: Node, e: Entry, m: nat): Node
    requires m < |e.stem| && t.entries == map[]
  {
    Node(t.version + 1, t.entries[e.stem[m] := Entry(e.child, e.stem[m + 1..], e.value)])
  }

  /** `erase_all`: how many values the node had, and its children by ascending byte, for the caller to free. */
  ghost predicate AllErased(n: Node, slots: nat, children: seq<Addr>)
  {
    slots == ValuesFrom(n.entries, 0) && children == ChildrenFrom(n.entries, 0)
  }

  ghost function ValuesFrom(entries: map<Atom, Entry>, from: nat): nat
    decreases 256 - from
  {
    if from >= 256 then 0
    else (if from in entries && entries[from].value.Some? then 1 else 0) + ValuesFrom(entries, from + 1)
  }

  ghost function ChildrenFrom(entries: map<Atom, Entry>, from: nat): seq<Addr>
    decreases 256 - from
  {
    if from >= 256 then []
    else
      (if from in entries && entries[from].child.Some? then [entries[from].child.value] else []) + ChildrenFrom(entries, from + 1)
  }

  lemma {:induction false} EntriesSkip(entries: map<Atom, Entry>, from: nat, c: nat)
    requires from <= c <= 256 && forall k | k in entries && from <= k :: c <= k
    ensures ChildrenFrom(entries, from) == ChildrenFrom(entries, c)
    ensures ValuesFrom(entries, from) == ValuesFrom(entries, c)
    decreases c - from
  {
    if from < c {
      EntriesSkip(entries, from + 1, c);
    }
  }

  /** What the least entry from `from` on adds to the list and the count. */
  lemma EntriesStep(entries: map<Atom, Entry>, from: nat, c: Atom)
    requires from <= c && c in entries && forall k | k in entries && from <= k :: c <= k
    ensures ChildrenFrom(entries, from)
         == (if entries[c].child.Some? then [entries[c].child.value] else []) + ChildrenFrom(entries, c as int + 1)
    ensures ValuesFrom(entries, from) == (if entries[c].value.Some? then 1 else 0) + ValuesFrom(entries, c as int + 1)
  {
    EntriesSkip(entries, from, c);
  }

  lemma NoEntriesFrom(entries: map<Atom, Entry>, from: nat)
    requires from <= 256 && forall k | k in entries :: k < from
    ensures ChildrenFrom(entries, from) == [] && ValuesFrom(entries, from) == 0
  {
    EntriesSkip(entries, from, 256);
  }

  // ----- moving along the entries of a node -----

  /** The least key at or after `from`: `presence_first_set` and `presence_next_set`. */
  function KeyFrom(keys: set<Atom>, from: nat): (c: Option<Atom>)
    ensures c.Some? ==> c.value in keys && from <= c.value && forall d | d in keys && from <= d :: c.value <= d
    ensures c.None? ==> forall d | d in keys :: d < from
    decreases 256 - from
  {
    if from >= 256 then None else if from in keys then Some(from) else KeyFrom(keys, from + 1)
  }
}
