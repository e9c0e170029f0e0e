/** A trie node in memory: two presence sets, a version, and a table of entries that is a hash table up to capacity
    128 and a direct table of 256 cells beyond. Every operation is proved to take the step that the trie counts on. */
module TrieNodes {
  import opened Common
  import opened Lex
  import opened TrieModel
  import opened NodeSteps
  import opened Presences
  import opened HashTables

  const NIL_ENTRY := Entry(None, [], None)

  /** `grow_size`, which is asked only for capacities that a hash table has. */
  function GrowSize(capacity: nat): (c: nat)
    requires IsCapacity(capacity)
    ensures (IsCapacity(c) || c == 256) && capacity < c
    ensures forall d | (IsCapacity(d) || d == 256) && capacity < d :: c <= d
  {
    capacity * 2
  }

  /** The first capacity from `size` on into which all the keys fit; 256 cells take them all. */
  ghost function FirstFit(size: nat, keys: set<Atom>): (c: nat)
    requires IsCapacity(size) || size == 256
    ensures size <= c && (IsCapacity(c) || c == 256)
    decreases 256 - size
  {
    if size == 256 || FreshCopy(size, keys).Some? then size else FirstFit(GrowSize(size), keys)
  }

  /** The first capacity from `size` on into which all the keys fit and `key` after them. */
  ghost function CapacityFor(size: nat, keys: set<Atom>, key: Atom): (c: nat)
    requires IsCapacity(size) || size == 256
    decreases 256 - size
  {
    if size == 256 then 256
    else
      var v := FreshCopy(size, keys);
      if v.Some? && RoomFor(v.value, key).Some? then size else CapacityFor(GrowSize(size), keys, key)
  }

  /** Growing until the keys fit, and again until `key` has room as well, comes to the same. */
  lemma {:induction false} CapacityByFit(size: nat, keys: set<Atom>, key: Atom)
    requires IsCapacity(size) || size == 256
    ensures var c := FirstFit(size, keys);
      CapacityFor(size, keys, key) ==
        if c == 256 || RoomFor(FreshCopy(c, keys).value, key).Some? then c else CapacityFor(GrowSize(c), keys, key)
    ensures var c := FirstFit(size, keys); c == 256 || FreshCopy(c, keys).Some?
    decreases 256 - size
  {
    if size < 256 && FreshCopy(size, keys).None? {
      CapacityByFit(GrowSize(size), keys, key);
    }
  }

  /** The table of 256 cells: which of them are in use is known to the node only. */
  class AntiHashTable {
    const cells: array<Entry>

    constructor ()
      ensures fresh(cells) && cells.Length == 256
    {
      cells := new Entry[256](_ => NIL_ENTRY);
    }

    ghost function Contents(presence: set<Atom>): map<Atom, Entry>
      requires cells.Length == 256
      reads cells
    {
      map k | k in presence :: cells[k]
    }

    method Insert(key: Atom, e: Entry, ghost presence: set<Atom>)
      requires cells.Length == 256 && key !in presence
      modifies cells
      ensures Contents(presence + {key}) == old(Contents(presence))[key := e]
    {
      cells[key] := e;
    }

    method Get(key: Atom, info: Presence) returns (r: Option<Entry>)
      requires cells.Length == 256 && info.Valid()
      ensures r == if key in info.Keys() then Some(Contents(info.Keys())[key]) else None
    {
      var present := info.Get(key);
      return if present then Some(cells[key]) else None;
    }

    method Put(key: Atom, e: Entry, ghost presence: set<Atom>)
      requires cells.Length == 256 && key in presence
      modifies cells
      ensures Contents(presence) == old(Contents(presence))[key := e]
    {
      cells[key] := e;
    }

    /** `erase` destroys what the cell holds. */
    method Erase(key: Atom, ghost presence: set<Atom>)
      requires cells.Length == 256 && key in presence
      modifies cells
      ensures Contents(presence - {key}) == old(Contents(presence)) - {key}
    {
      cells[key] := NIL_ENTRY;
    }

    /** The copying part of `grow_from`: always succeeds. */
    method GrowFrom(from: HashTable<Entry>, info: Presence)
      requires cells.Length == 256 && from.Valid() && info.Valid() && info.Keys() == from.contents.Keys
      requires cells !in info.Repr()
      modifies cells
      ensures Contents(info.Keys()) == from.contents
    {
      hide HashTable.Valid, KeyFrom, Presence.Children, Presence.Values;
      ghost var presence := info.Keys();
      var i := info.FirstSet();
      ghost var next: nat := 0;
      while i.Some?
        invariant i == KeyFrom(presence, next) && info.Keys() == presence
        invariant forall k: Atom | k in presence && k < next :: cells[k] == from.contents[k]
        decreases 256 - next
      {
        var v := from.Get(i.value);
        cells[i.value] := v.value;
        next := i.value as int + 1;
        i := info.NextSet(i.value);
      }
    }
  }

  ghost predicate Coupled(child: set<Atom>, value: set<Atom>, table: map<Atom, Entry>)
  {
    && table.Keys == child + value
    && (forall k {:trigger table[k]} | k in table :: (k in child <==> table[k].child.Some?) && (k in value <==> table[k].value.Some?))
  }

  ghost function FromOn(keys: set<Atom>, from: nat): set<Atom>
  {
    set k | k in keys && from <= k
  }

  /** The state of `erase_all` when all bytes below `from` are done: what the presence sets still hold, how many values
      were counted and which children listed. */
  ghost predicate ClearedUpTo(child: set<Atom>, value: set<Atom>, entries: map<Atom, Entry>, from: nat,
                              child': set<Atom>, value': set<Atom>, slots: nat, children: seq<Addr>)
  {
    && child' == FromOn(child, from) && value' == FromOn(value, from) && slots + |value'| == |value|
    && slots + ValuesFrom(entries, from) == ValuesFrom(entries, 0)
    && children + ChildrenFrom(entries, from) == ChildrenFrom(entries, 0)
  }

  lemma NothingCleared(child: set<Atom>, value: set<Atom>, entries: map<Atom, Entry>)
    ensures ClearedUpTo(child, value, entries, 0, child, value, 0, [])
  {
  }

  /** One round of `erase_all` at byte `c`: it clears the bits of `c`, counts and lists what they stand for, and goes on to
      the same byte as if nothing had been cleared. */
  lemma ClearStep(child: set<Atom>, value: set<Atom>, entries: map<Atom, Entry>, from: nat, c: nat,
                  child': set<Atom>, value': set<Atom>, slots: nat, children: seq<Addr>)
    requires Coupled(child, value, entries) && c < 256 && KeyFrom(child + value, from) == Some(c)
    requires ClearedUpTo(child, value, entries, from, child', value', slots, children)
    ensures c in entries && c in child' + value' && (c in child' ==> entries[c].child.Some?)
    ensures KeyFrom((child' - {c}) + (value' - {c}), c + 1) == KeyFrom(child + value, c + 1)
    ensures ClearedUpTo(child, value, entries, c + 1, child' - {c}, value' - {c},
                        slots + if c in value' then 1 else 0,
                        children + if c in child' then [entries[c].child.value] else [])
  {
    hide FromOn, ChildrenFrom, ValuesFrom;
    FromOnStep(child, from, c);
    FromOnStep(value, from, c);
    NextAfter(child, value, c + 1);
    EntriesStep(entries, from, c);
  }

  lemma FromOnStep(keys: set<Atom>, from: nat, c: Atom)
    requires from <= c && forall k | k in keys && from <= k :: c <= k
    ensures FromOn(keys, c + 1) == FromOn(keys, from) - {c}
    ensures |FromOn(keys, from)| == |FromOn(keys, c + 1)| + (if c in keys then 1 else 0)
    ensures c in FromOn(keys, from) <==> c in keys
  {
    assert FromOn(keys, c + 1) == FromOn(keys, from) - {c};
  }

  /** Clearing bits that were passed does not change what comes next. */
  lemma NextAfter(child: set<Atom>, value: set<Atom>, from: nat)
    ensures KeyFrom(FromOn(child, from) + FromOn(value, from), from) == KeyFrom(child + value, from)
  {
    var next := KeyFrom(child + value, from);
    KeyFromIs(FromOn(child, from) + FromOn(value, from), from, next);
  }

  /** Nothing is left to clear. */
  lemma AllCleared(child: set<Atom>, value: set<Atom>, entries: map<Atom, Entry>, from: nat,
                   child': set<Atom>, value': set<Atom>, slots: nat, children: seq<Addr>)
    requires Coupled(child, value, entries) && KeyFrom(child + value, from).None? && from <= 256
    requires ClearedUpTo(child, value, entries, from, child', value', slots, children)
    ensures child' == {} && value' == {}
    ensures slots == |value| == ValuesFrom(entries, 0) && children == ChildrenFrom(entries, 0)
  {
    assert forall k | k in entries :: k in child + value;
    NoEntriesFrom(entries, from);
    assert children + [] == children;
  }

  /** An entry written or added, with the presence bits that go with it. */
  lemma CoupledWith(child: set<Atom>, value: set<Atom>, table: map<Atom, Entry>, key: Atom, e: Entry,
                    child': set<Atom>, value': set<Atom>)
    requires Coupled(child, value, table) && (e.child.Some? || e.value.Some?)
    requires child' == if e.child.Some? then child + {key} else child - {key}
    requires value' == if e.value.Some? then value + {key} else value - {key}
    ensures Coupled(child', value', table[key := e]) && child' + value' == child + value + {key}
    ensures table[key := e].Keys == child' + value' && (key in child + value ==> child' + value' == child + value)
  {
  }

  /** The only entry of a node, with its presence bits. */
  lemma CoupledAlone(key: Atom, e: Entry)
    requires e.child.Some? || e.value.Some?
    ensures var ch: set<Atom> := if e.child.Some? then {} + {key} else {} - {key};
      var dt: set<Atom> := if e.value.Some? then {} + {key} else {} - {key};
      Coupled(ch, dt, map[key := e]) && ch + dt == {key}
  {
  }

  lemma CoupledWithout(child: set<Atom>, value: set<Atom>, table: map<Atom, Entry>, key: Atom,
                       child': set<Atom>, value': set<Atom>)
    requires Coupled(child, value, table) && child' == child - {key} && value' == value - {key}
    ensures Coupled(child', value', table - {key}) && child' + value' == child + value - {key}
    ensures (table - {key}).Keys == child' + value'
  {
  }

  class TrieNode {
    /** `_child_presence` and `_value_presence`. */
    const info: Presence
    var version: nat
    var capacity: nat
    var hash: HashTable?<Entry>
    var direct: AntiHashTable?

    ghost function TableRepr(): set<object>
      reads this`hash, this`direct, hash, direct
    {
      (if hash != null then {hash, hash.slots} else {}) + (if direct != null then {direct, direct.cells} else {})
    }

    ghost function Repr(): set<object>
      reads this, hash, direct
    {
      {this} + info.Repr() + TableRepr()
    }

    /** The table fits the capacity, and is not where the presence sets are. */
    ghost predicate TableOk()
      reads this`hash, this`direct, this`capacity, TableRepr()
    {
      && info.Repr() !! TableRepr()
      && if capacity < 256 then hash != null && direct == null && hash.Valid() && hash.slots.Length == capacity
         else capacity == 256 && direct != null && hash == null && direct.cells.Length == 256
    }

    /** What the table holds for the keys `presence`. */
    ghost function Table(presence: set<Atom>): map<Atom, Entry>
      requires TableOk()
      reads this`hash, this`direct, this`capacity, TableRepr()
    {
      if capacity < 256 then hash.contents else direct.Contents(presence)
    }

    /** There is a free place for a new key. */
    ghost predicate HasRoom(key: Atom)
      requires TableOk()
      reads this`hash, this`direct, this`capacity, TableRepr()
    {
      capacity == 256 || RoomFor(Places(hash.slots[..]), key).Some?
    }

    /** The table holds its keys as a copy in ascending order leaves them. */
    ghost predicate IsFreshCopy(keys: set<Atom>)
      requires TableOk()
      reads this`hash, this`direct, this`capacity, TableRepr()
    {
      capacity == 256 || FreshCopy(capacity, keys) == Some(Places(hash.slots[..]))
    }

    ghost predicate Keyed()
      reads this, Repr()
    {
      info.Valid() && TableOk() && Table(info.Keys()).Keys == info.Keys()
    }

    /** A byte is a key of the table exactly if it is in one of the presence sets, and each set tells exactly which
        entries have a child and which have a value. */
    ghost predicate Valid()
      reads this, Repr()
    {
      Keyed() && Coupled(info.Children(), info.Values(), Table(info.Keys()))
    }

    /** The node as the trie sees it. */
    ghost function AsNode(): Node
      requires TableOk()
      reads this, info.Repr(), TableRepr()
    {
      Node(version, Table(info.Keys()))
    }

    /** An empty node: constructor and `create_interior`. The trie makes its root with 256 cells. */
    constructor (size: nat)
      requires IsCapacity(size) || size == 256
      ensures Valid() && AsNode() == NewNode && fresh(Repr()) && capacity == size
    {
      info := new Presence();
      version, capacity := 0, size;
      hash, direct := null, null;
      new;
      if size < 256 {
        hash := new HashTable(size, NIL_ENTRY);
      } else {
        direct := new AntiHashTable();
      }
    }

    // ----- the table behind `kv_container` -----

    method TableGet(key: Atom) returns (r: Option<Entry>)
      requires info.Valid() && TableOk()
      ensures r == if key in Table(info.Keys()) then Some(Table(info.Keys())[key]) else None
    {
      if capacity < 256 {
        r := hash.Get(key);
      } else {
        r := direct.Get(key, info);
      }
    }

    method TablePut(key: Atom, e: Entry)
      requires Keyed() && key in info.Keys()
      modifies TableRepr()
      ensures TableOk() && TableRepr() == old(TableRepr()) && Table(info.Keys()) == old(Table(info.Keys()))[key := e]
      ensures info.Children() == old(info.Children()) && info.Values() == old(info.Values())
    {
      if capacity < 256 {
        hash.Put(key, e);
      } else {
        direct.Put(key, e, info.Keys());
      }
    }

    method TableInsert(key: Atom, e: Entry) returns (added: bool)
      requires Keyed() && key !in info.Keys()
      modifies TableRepr()
      ensures TableOk() && TableRepr() == old(TableRepr())
      ensures info.Children() == old(info.Children()) && info.Values() == old(info.Values())
      ensures added ==> Table(info.Keys() + {key}) == old(Table(info.Keys()))[key := e]
      ensures !added ==> capacity < 256 && Table(info.Keys()) == old(Table(info.Keys()))
      ensures old(Table(info.Keys())) == map[] ==> added
      ensures added <==> old(HasRoom(key))
    {
      hide Represents, Crowded, RoomFor, Places, Presence.Children, Presence.Values;
      if capacity < 256 {
        added := hash.TryInsert(key, e);
      } else {
        direct.Insert(key, e, info.Keys());
        added := true;
      }
    }

    method TableErase(key: Atom)
      requires Keyed() && key in info.Keys()
      modifies TableRepr()
      ensures TableOk() && TableRepr() == old(TableRepr())
      ensures info.Children() == old(info.Children()) && info.Values() == old(info.Values())
      ensures Table(info.Keys() - {key}) == old(Table(info.Keys())) - {key}
    {
      if capacity < 256 {
        var erased := hash.Erase(key);
      } else {
        direct.Erase(key, info.Keys());
      }
    }

    /** A cell is the same whatever other keys are present. */
    lemma SameCell(p: set<Atom>, q: set<Atom>, key: Atom)
      requires TableOk() && key in p && key in Table(q)
      ensures key in Table(p) && Table(p)[key] == Table(q)[key]
    {
    }

    /** Writes an entry, and takes it out again if it is not to be kept. */
    method TableReplace(key: Atom, e: Entry, keep: bool)
      requires Keyed() && key in info.Keys()
      modifies TableRepr()
      ensures TableOk() && TableRepr() == old(TableRepr())
      ensures info.Children() == old(info.Children()) && info.Values() == old(info.Values())
      ensures keep ==> Table(info.Keys()) == old(Table(info.Keys()))[key := e]
      ensures !keep ==> Table(info.Keys() - {key}) == old(Table(info.Keys())) - {key}
    {
      hide Represents, Presence.Children, Presence.Values;
      ghost var table := Table(info.Keys());
      TablePut(key, e);
      if !keep {
        TableErase(key);
        assert table[key := e] - {key} == table - {key};
      }
    }

    // ----- the presence bits beside the table -----

    /** A change of a presence bit is no change of the table. */
    method MarkChild(key: Atom, present: bool)
      requires info.Valid() && TableOk()
      modifies info.child.presence
      ensures TableOk() && TableRepr() == old(TableRepr()) && info.Values() == old(info.Values())
      ensures info.Children() == if present then old(info.Children()) + {key} else old(info.Children()) - {key}
      ensures Table(info.Keys()) ==
        old(Table((if present then info.Children() + {key} else info.Children() - {key}) + info.Values()))
    {
      hide Represents, Presence.Children, Presence.Values;
      info.AssignChild(key, present);
    }

    method MarkValue(key: Atom, present: bool)
      requires info.Valid() && TableOk()
      modifies info.value.presence
      ensures TableOk() && TableRepr() == old(TableRepr()) && info.Children() == old(info.Children())
      ensures info.Values() == if present then old(info.Values()) + {key} else old(info.Values()) - {key}
      ensures Table(info.Keys()) ==
        old(Table(info.Children() + (if present then info.Values() + {key} else info.Values() - {key})))
    {
      hide Represents, Presence.Children, Presence.Values;
      info.AssignValue(key, present);
    }

    method MarkBoth(key: Atom, hasChild: bool, hasValue: bool)
      requires info.Valid() && TableOk()
      modifies info.Repr()
      ensures TableOk() && TableRepr() == old(TableRepr())
      ensures info.Children() == if hasChild then old(info.Children()) + {key} else old(info.Children()) - {key}
      ensures info.Values() == if hasValue then old(info.Values()) + {key} else old(info.Values()) - {key}
      ensures Table(info.Keys()) ==
        old(Table((if hasChild then info.Children() + {key} else info.Children() - {key})
                  + (if hasValue then info.Values() + {key} else info.Values() - {key})))
    {
      hide Represents, Presence.Children, Presence.Values;
      info.AssignChild(key, hasChild);
      info.AssignValue(key, hasValue);
    }

    // ----- growing -----

    /** `grow_from` into a new table of the given capacity, and the exchange of the tables if it succeeds. */
    method GrowTo(size: nat) returns (ok: bool)
      requires Valid() && IsCapacity(capacity) && (IsCapacity(size) || size == 256)
      modifies this`hash, this`direct, this`capacity
      ensures ok ==> Valid() && capacity == size && Table(info.Keys()) == old(Table(info.Keys()))
      ensures ok ==> fresh(TableRepr()) && IsFreshCopy(info.Keys())
      ensures !ok ==> size < 256 && unchanged(this)
      ensures ok <==> size == 256 || FreshCopy(size, info.Keys()).Some?
    {
      hide Represents, Crowded, FreshCopy, Places, RefusedAt, Below, Presence.Children, Presence.Values;
      if size < 256 {
        var t := new HashTable(size, NIL_ENTRY);
        ok := t.GrowFrom(hash, info);
        if ok {
          hash, capacity := t, size;
        }
      } else {
        var t := new AntiHashTable();
        t.GrowFrom(hash, info);
        hash, direct, capacity, ok := null, t, size, true;
      }
    }

    /** The loop of `grow`: tries ever larger tables; the last resort, 256 cells, takes every key. */
    method GrowTable()
      requires Valid() && capacity < 256
      modifies this`hash, this`direct, this`capacity
      ensures Valid() && capacity > old(capacity) && fresh(TableRepr())
      ensures Table(info.Keys()) == old(Table(info.Keys()))
      ensures IsFreshCopy(info.Keys()) && capacity == FirstFit(GrowSize(old(capacity)), info.Keys())
    {
      hide Represents, Coupled, FreshCopy, IsFreshCopy, Presence.Children, Presence.Values;
      ghost var keys := info.Keys();
      var size := GrowSize(capacity);
      var ok := GrowTo(size);
      while !ok
        invariant size > old(capacity) && (IsCapacity(size) || size == 256)
        invariant ok ==> Valid() && capacity == size && fresh(TableRepr()) && IsFreshCopy(info.Keys())
        invariant FirstFit(size, keys) == FirstFit(GrowSize(old(capacity)), keys) && info.Keys() == keys
        invariant ok <==> size == 256 || FreshCopy(size, keys).Some?
        invariant ok ==> Table(info.Keys()) == old(Table(info.Keys()))
        invariant !ok ==> unchanged(this) && size < 256
        decreases 256 - size, !ok
      {
        size := GrowSize(size);
        ok := GrowTo(size);
      }
    }

    method Grow()
      requires Valid() && capacity < 256
      modifies this`hash, this`direct, this`capacity, this`version
      ensures Valid() && capacity > old(capacity) && fresh(TableRepr())
      ensures version == old(version) + 1 && Table(info.Keys()) == old(Table(info.Keys()))
      ensures IsFreshCopy(info.Keys()) && capacity == FirstFit(GrowSize(old(capacity)), info.Keys())
    {
      hide Represents, Coupled, FreshCopy, IsFreshCopy, FirstFit, Presence.Children, Presence.Values;
      GrowTable();
      version := version + 1;
    }

    // ----- the operations -----

    /** The presence bits of a present key, as its entry tells them. */
    lemma KeptValue(key: Atom)
      requires Valid() && key in info.Keys()
      ensures Table(info.Keys())[key].child.Some? || Table(info.Keys())[key].value.Some?
      ensures var v := info.Values();
        && (Table(info.Keys())[key].value.Some? ==> v + {key} == v) && (Table(info.Keys())[key].value.None? ==> v - {key} == v)
        && (key in v <==> Table(info.Keys())[key].value.Some?)
    {
    }

    lemma NothingPresent()
      requires Valid() && AsNode().entries == map[]
      ensures info.Children() == {} && info.Values() == {} && Coupled({}, {}, map[])
    {
    }

    lemma KeptChild(key: Atom)
      requires Valid() && key in info.Keys()
      ensures var c := info.Children();
        && (Table(info.Keys())[key].child.Some? ==> c + {key} == c) && (Table(info.Keys())[key].child.None? ==> c - {key} == c)
        && (key in c <==> Table(info.Keys())[key].child.Some?)
    {
    }

    /** The presence bits that go with an entry whose child is dropped. */
    lemma WithoutChild(key: Atom)
      requires Valid() && key in info.Children()
      ensures var ch, dt, table := info.Children(), info.Values(), Table(info.Keys());
        && key in table && table[key].child.Some? && (key in dt <==> table[key].value.Some?)
        && if key in dt then Coupled(ch - {key}, dt, table[key := table[key].(child := None)]) && ch - {key} + dt == ch + dt
           else Coupled(ch - {key}, dt, table - {key}) && ch - {key} + dt == ch + dt - {key}
    {
      hide Represents, Coupled, Presence.Children, Presence.Values;
      var ch, dt, table := info.Children(), info.Values(), Table(info.Keys());
      KeptValue(key);
      KeptChild(key);
      if key in dt {
        CoupledWith(ch, dt, table, key, table[key].(child := None), ch - {key}, dt);
      } else {
        CoupledWithout(ch, dt, table, key, ch - {key}, dt);
      }
    }

    /** The presence bits that go with an entry that gets a child, or a value. */
    lemma WithChild(key: Atom, b: Addr)
      requires Valid() && key in info.Keys()
      ensures var ch, dt, table := info.Children(), info.Values(), Table(info.Keys());
        && key in table && (key in ch <==> table[key].child.Some?)
        && Coupled(ch + {key}, dt, table[key := table[key].(child := Some(b))]) && ch + {key} + dt == ch + dt
    {
      hide Represents, Coupled, Presence.Children, Presence.Values;
      KeptValue(key);
      KeptChild(key);
      var ch, dt, table := info.Children(), info.Values(), Table(info.Keys());
      CoupledWith(ch, dt, table, key, table[key].(child := Some(b)), ch + {key}, dt);
    }

    lemma WithValue(key: Atom, v: Value)
      requires Valid() && key in info.Keys()
      ensures var ch, dt, table := info.Children(), info.Values(), Table(info.Keys());
        && key in table
        && Coupled(ch, dt + {key}, table[key := table[key].(value := Some(v))]) && ch + (dt + {key}) == ch + dt
    {
      hide Represents, Coupled, Presence.Children, Presence.Values;
      KeptChild(key);
      var ch, dt, table := info.Children(), info.Values(), Table(info.Keys());
      CoupledWith(ch, dt, table, key, table[key].(value := Some(v)), ch, dt + {key});
    }

    /** The loop of `insert`: grows as often as it takes to find room for the key. */
    method InsertEntry(key: Atom, e: Entry)
      requires Valid() && key !in info.Keys()
      modifies this, TableRepr()
      ensures TableOk() && fresh(TableRepr() - old(TableRepr())) && capacity >= old(capacity) && version >= old(version)
      ensures info.Children() == old(info.Children()) && info.Values() == old(info.Values())
      ensures Table(info.Keys() + {key}) == old(Table(info.Keys()))[key := e]
      ensures capacity == if old(HasRoom(key)) then old(capacity)
                          else CapacityFor(GrowSize(old(capacity)), old(info.Keys()), key)
    {
      hide Represents, Coupled, FreshCopy, RoomFor, Places, Presence.Children, Presence.Values;
      ghost var ch, dt := info.Children(), info.Values();
      var added := TableInsert(key, e);
      while !added
        invariant TableOk() && version >= old(version) && capacity >= old(capacity)
        invariant info.Children() == ch && info.Values() == dt
        invariant added ==> Table(info.Keys() + {key}) == old(Table(info.Keys()))[key := e]
        invariant !added ==> Table(info.Keys()) == old(Table(info.Keys())) && capacity < 256
        invariant fresh(TableRepr() - old(TableRepr()))
        invariant added && !old(HasRoom(key)) ==> capacity == CapacityFor(GrowSize(old(capacity)), ch + dt, key)
        invariant !added ==> !old(HasRoom(key))
        invariant !added ==>
          CapacityFor(GrowSize(capacity), ch + dt, key) == CapacityFor(GrowSize(old(capacity)), ch + dt, key)
        invariant added && old(HasRoom(key)) ==> capacity == old(capacity)
        decreases 256 - capacity, !added
      {
        CapacityByFit(GrowSize(capacity), ch + dt, key);
        Grow();
        added := TableInsert(key, e);
      }
    }

    /** `insert`: a new key with a stem and a value. */
    method Insert(key: Atom, stem: Str, v: Value)
      requires Valid() && key !in info.Keys()
      modifies Repr()
      ensures Valid() && Inserted(old(AsNode()), AsNode(), key, stem, v)
      ensures fresh(Repr() - old(Repr())) && capacity >= old(capacity)
      ensures capacity == if old(HasRoom(key)) then old(capacity)
                          else CapacityFor(GrowSize(old(capacity)), old(info.Keys()), key)
    {
      hide Represents, Coupled, HasRoom, CapacityFor, Presence.Children, Presence.Values;
      var e := Entry(None, stem, Some(v));
      ghost var ch, dt := info.Children(), info.Values();
      CoupledWith(ch, dt, Table(info.Keys()), key, e, ch, dt + {key});
      InsertEntry(key, e);
      MarkValue(key, true);
      version := version + 1;
    }

    /** The part of `erase` under `erase_data`. */
    method EraseData(key: Atom)
      requires Valid() && key in info.Keys()
      modifies info.value.presence, TableRepr()
      ensures Valid() && Repr() == old(Repr())
      ensures Node(old(version) + 1, Table(info.Keys())) == Erased(old(AsNode()), key, true)
    {
      hide Represents, Coupled, Presence.Children, Presence.Values;
      var e := TableGet(key);
      KeptChild(key);
      ghost var table, ch, dt := Table(info.Keys()), info.Children(), info.Values();
      var hasChild := info.HasChild(key);
      if !hasChild {
        CoupledWithout(ch, dt, table, key, ch, dt - {key});
        TableErase(key);
      } else {
        var e' := e.value.(value := None);
        CoupledWith(ch, dt, table, key, e', ch, dt - {key});
        TablePut(key, e');
      }
      MarkValue(key, false);
    }

    /** `erase`: drops the value, and the entry with it unless it has a child. Returns whether the node is empty. */
    method Erase(key: Atom, eraseData: bool) returns (empty: bool)
      requires Valid() && (eraseData ==> key in info.Keys())
      modifies Repr()
      ensures Valid() && Repr() == old(Repr()) && AsNode() == Erased(old(AsNode()), key, eraseData)
      ensures empty <==> AsNode().entries == map[]
    {
      hide Represents, Coupled, Presence.Children, Presence.Values;
      version := version + 1;
      if eraseData {
        EraseData(key);
      }
      var present := info.Get(key);
      if present {
        assert key in AsNode().entries;
        return false;
      }
      var first := PresenceFirstSet();
      return first.None?;
    }

    /** One entry in `erase_all`; `table` is what the table held at first. */
    method EraseEntry(c: Atom, ghost keys: set<Atom>, ghost table: map<Atom, Entry>) returns (slots: nat, children: seq<Addr>)
      requires info.Valid() && TableOk() && Table(keys) == table && c in table && c in info.Keys()
      requires c in info.Children() ==> table[c].child.Some?
      modifies info.Repr()
      ensures TableOk() && Table(keys) == table
      ensures info.Children() == old(info.Children()) - {c} && info.Values() == old(info.Values()) - {c}
      ensures slots == if c in old(info.Values()) then 1 else 0
      ensures children == if c in old(info.Children()) then [table[c].child.value] else []
    {
      hide Represents, Presence.Children, Presence.Values;
      slots, children := 0, [];
      SameCell(info.Keys(), keys, c);
      var e := TableGet(c);
      var hasValue := info.HasValue(c);
      if hasValue {
        info.AssignValue(c, false);
        slots := 1;
      }
      var hasChild := info.HasChild(c);
      if hasChild {
        children := [e.value.child.value];
        info.AssignChild(c, false);
      }
    }

    /** The loop of `erase_all`. */
    method EraseEntries(ghost ch: set<Atom>, ghost dt: set<Atom>, ghost table: map<Atom, Entry>)
      returns (slots: nat, children: seq<Addr>)
      requires info.Valid() && TableOk() && Table(ch + dt) == table && Coupled(ch, dt, table)
      requires info.Children() == ch && info.Values() == dt
      modifies info.Repr()
      ensures TableOk() && info.Children() == {} && info.Values() == {}
      ensures slots == |dt| == ValuesFrom(table, 0) && children == ChildrenFrom(table, 0)
    {
      hide Coupled, HashTable.Valid, Presence.Children, Presence.Values, KeyFrom, ClearedUpTo, ChildrenFrom, ValuesFrom;
      ghost var next: nat := 0;
      slots, children := 0, [];
      var i := info.FirstSet();
      NothingCleared(ch, dt, table);
      while i.Some?
        invariant TableOk() && Table(ch + dt) == table && i == KeyFrom(ch + dt, next) && next <= 256
        invariant ClearedUpTo(ch, dt, table, next, info.Children(), info.Values(), slots, children)
        decreases 256 - next
      {
        var c: int := i.value;
        ClearStep(ch, dt, table, next, c, info.Children(), info.Values(), slots, children);
        var data, child := EraseEntry(c, ch + dt, table);
        slots, children := slots + data, children + child;
        next := c + 1;
        i := info.NextSet(c);
      }
      AllCleared(ch, dt, table, next, info.Children(), info.Values(), slots, children);
    }

    /** `erase_all`: clears both presence sets, counts the values and lists the children in byte order. What the table
        still holds is freed with it. */
    method EraseAll() returns (slots: nat, children: seq<Addr>)
      requires Valid()
      modifies info.Repr()
      ensures TableOk() && info.Keys() == {} && slots == |old(info.Values())|
      ensures AllErased(old(AsNode()), slots, children)
    {
      slots, children := EraseEntries(info.Children(), info.Values(), Table(info.Keys()));
    }

    method SetChild(key: Atom, b: Addr)
      requires Valid() && key in info.Keys() && key !in info.Children()
      modifies Repr()
      ensures Valid() && Repr() == old(Repr()) && AsNode() == ChildSet(old(AsNode()), key, b)
    {
      hide Represents, Coupled, Presence.Children, Presence.Values;
      var e := TableGet(key);
      WithChild(key, b);
      TablePut(key, e.value.(child := Some(b)));
      MarkChild(key, true);
      version := version + 1;
    }

    method RemoveChild(key: Atom)
      requires Valid() && key in info.Children()
      modifies Repr()
      ensures Valid() && Repr() == old(Repr()) && AsNode() == ChildRemoved(old(AsNode()), key)
    {
      hide Represents, Coupled, Presence.Children, Presence.Values;
      var e := TableGet(key);
      WithoutChild(key);
      var hasValue := info.HasValue(key);
      TableReplace(key, e.value.(child := None), hasValue);
      MarkChild(key, false);
      version := version + 1;
    }

    /** `set_value`, `set_raw_factory_value`. */
    method SetValue(key: Atom, v: Value)
      requires Valid() && key in info.Keys()
      modifies Repr()
      ensures Valid() && Repr() == old(Repr()) && AsNode() == ValueSet(old(AsNode()), key, v)
    {
      hide Represents, Coupled, Presence.Children, Presence.Values;
      var e := TableGet(key);
      WithValue(key, v);
      TablePut(key, e.value.(value := Some(v)));
      MarkValue(key, true);
      version := version + 1;
    }

    /** The first entry of an empty table. */
    method FillEmpty(key: Atom, e: Entry)
      requires Valid() && AsNode().entries == map[]
      modifies TableRepr()
      ensures TableOk() && TableRepr() == old(TableRepr()) && info.Children() == {} && info.Values() == {}
      ensures Table({key}) == map[key := e]
    {
      hide Represents, Coupled, Presence.Children, Presence.Values;
      NothingPresent();
      assert {} + {key} == {key} && info.Keys() == {};
      var added := TableInsert(key, e);
    }

    /** The target side of `move_from_entry`: an empty node takes over the entry. */
    method TakeOver(key: Atom, e: Entry, hasChild: bool, hasData: bool)
      requires Valid() && AsNode().entries == map[] && (e.child.Some? || e.value.Some?)
      requires hasChild == e.child.Some? && hasData == e.value.Some?
      modifies Repr()
      ensures Valid() && Repr() == old(Repr())
      ensures AsNode() == Node(old(version) + 1, old(AsNode()).entries[key := e])
    {
      hide Represents, Coupled, Presence.Children, Presence.Values;
      CoupledAlone(key, e);
      FillEmpty(key, e);
      MarkBoth(key, hasChild, hasData);
      version := version + 1;
    }

    /** The source side: the entry keeps the front of its stem and refers to the target. */
    method KeepFront(key: Atom, inStemPos: nat, e: Entry, address: Addr)
      requires Valid() && key in info.Keys() && e == AsNode().entries[key] && inStemPos < |e.stem|
      modifies Repr()
      ensures Valid() && Repr() == old(Repr()) && AsNode() == MovedOut(old(AsNode()), key, inStemPos, address)
    {
      hide Represents, Coupled, Presence.Children, Presence.Values;
      var e' := Entry(Some(address), e.stem[..inStemPos], None);
      ghost var ch, dt := info.Children(), info.Values();
      CoupledWith(ch, dt, Table(info.Keys()), key, e', ch + {key}, dt - {key});
      TablePut(key, e');
      MarkBoth(key, true, false);
      version := version + 1;
    }

    /** Each side leaves the other node as it is. */
    method TakeOverBeside(key: Atom, e: Entry, hasChild: bool, hasData: bool, ghost other: TrieNode)
      requires Valid() && AsNode().entries == map[] && (e.child.Some? || e.value.Some?)
      requires hasChild == e.child.Some? && hasData == e.value.Some?
      requires other.Valid() && other.Repr() !! Repr()
      modifies Repr()
      ensures Valid() && Repr() == old(Repr())
      ensures AsNode() == Node(old(version) + 1, old(AsNode()).entries[key := e])
      ensures other.Valid() && other.Repr() == old(other.Repr()) && other.AsNode() == old(other.AsNode())
    {
      hide Represents, Coupled, Presence.Children, Presence.Values;
      TakeOver(key, e, hasChild, hasData);
    }

    method KeepFrontBeside(key: Atom, inStemPos: nat, e: Entry, address: Addr, ghost other: TrieNode)
      requires Valid() && key in info.Keys() && e == AsNode().entries[key] && inStemPos < |e.stem|
      requires other.Valid() && other.Repr() !! Repr()
      modifies Repr()
      ensures Valid() && Repr() == old(Repr()) && AsNode() == MovedOut(old(AsNode()), key, inStemPos, address)
      ensures other.Valid() && other.Repr() == old(other.Repr()) && other.AsNode() == old(other.AsNode())
    {
      hide Represents, Coupled, Presence.Children, Presence.Values;
      KeepFront(key, inStemPos, e, address);
    }

    /** An entry, and what the presence sets say of it. */
    method EntryWithBits(key: Atom) returns (e: Entry, hasChild: bool, hasData: bool)
      requires Valid() && key in info.Keys()
      ensures e == AsNode().entries[key] && (hasChild || hasData)
      ensures hasChild == e.child.Some? && hasData == e.value.Some?
    {
      hide Represents, Coupled, Presence.Children, Presence.Values;
      var source := TableGet(key);
      KeptValue(key);
      KeptChild(key);
      hasChild := info.HasChild(key);
      hasData := info.HasValue(key);
      e := source.value;
    }

    /** `move_from_entry`: the stem of an entry is cut at `inStemPos`, and what comes after it moves into the empty
        node `target` at address `address`. */
    method MoveTo(key: Atom, inStemPos: nat, target: TrieNode, address: Addr)
      requires Valid() && target.Valid() && key in info.Keys() && Repr() !! target.Repr()
      requires inStemPos < |AsNode().entries[key].stem| && target.AsNode().entries == map[]
      modifies Repr(), target.Repr()
      ensures Valid() && Repr() == old(Repr()) && target.Valid() && target.Repr() == old(target.Repr())
      ensures AsNode() == MovedOut(old(AsNode()), key, inStemPos, address)
      ensures target.AsNode() == MovedIn(old(target.AsNode()), old(AsNode()).entries[key], inStemPos)
    {
      hide Represents, Coupled, Presence.Children, Presence.Values;
      var e, hasChild, hasData := EntryWithBits(key);
      target.TakeOverBeside(e.stem[inStemPos], Entry(e.child, e.stem[inStemPos + 1..], e.value), hasChild, hasData, this);
      KeepFrontBeside(key, inStemPos, e, address, target);
    }

    // ----- moving along the keys -----

    /** `presence_first_set`. */
    method PresenceFirstSet() returns (c: Option<Atom>)
      requires Valid()
      ensures c == KeyFrom(AsNode().entries.Keys, 0)
    {
      c := info.FirstSet();
    }

    /** `presence_next_set`. */
    method PresenceNextSet(previous: Atom) returns (c: Option<Atom>)
      requires Valid()
      ensures c == KeyFrom(AsNode().entries.Keys, previous as int + 1)
    {
      c := info.NextSet(previous);
    }
  }
}
