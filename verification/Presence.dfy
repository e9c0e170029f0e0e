/** What a node tells its tables: which bytes have a child and which have a value, in two bit sets of 256 bits. */
module Presences {
  import opened Common
  import opened Lex
  import opened NodeSteps
  import opened Bitsets

  const WORDS := 4

  /** The bytes in a bit set. */
  ghost function Bytes(members: set<nat>): set<Atom>
  {
    set c: Atom | c in members
  }

  /** The lesser of two optional bytes. */
  function Lesser(ch: Option<nat>, dt: Option<nat>): Option<nat>
  {
    if ch.None? then dt else if dt.None? then ch else if dt.value < ch.value then dt else ch
  }

  lemma KeyFromIs(keys: set<Atom>, from: nat, c: Option<Atom>)
    requires c.Some? ==> c.value in keys && from <= c.value && forall d | d in keys && from <= d :: c.value <= d
    requires c.None? ==> forall d | d in keys :: d < from
    ensures c == KeyFrom(keys, from)
  {
  }

  /** The lesser of the next bits of two sets is the next bit of their union. */
  lemma LesserIsNext(child: set<nat>, value: set<nat>, from: nat, ch: Option<nat>, dt: Option<nat>)
    requires LeastFrom(child, from, ch) && LeastFrom(value, from, dt)
    requires forall i | i in child + value :: i < 256
    ensures var c := Lesser(ch, dt); c.Some? ==> c.value < 256
    ensures var c := Lesser(ch, dt);
      KeyFrom(Bytes(child) + Bytes(value), from) == if c.None? then None else Some(c.value)
  {
    var c := Lesser(ch, dt);
    assert c.Some? ==> c.value in child + value;
    KeyFromIs(Bytes(child) + Bytes(value), from, if c.None? then None else Some(c.value));
  }

  /** The two bit sets of a node: what its tables know of it. */
  class Presence {
    const child: Bitset
    const value: Bitset

    ghost predicate Valid()
    {
      child.presence.Length == WORDS && value.presence.Length == WORDS && child.presence != value.presence
    }

    ghost function Repr(): set<object>
    {
      {child.presence, value.presence}
    }

    ghost function Children(): set<Atom>
      reads child.presence
    {
      Bytes(child.Members())
    }

    ghost function Values(): set<Atom>
      reads value.presence
    {
      Bytes(value.Members())
    }

    ghost function Keys(): set<Atom>
      reads Repr()
    {
      Children() + Values()
    }

    constructor ()
      ensures Valid() && fresh(Repr()) && Children() == {} && Values() == {}
    {
      child := new Bitset(WORDS);
      value := new Bitset(WORDS);
    }

    method HasChild(key: Atom) returns (b: bool)
      requires Valid()
      ensures b <==> key in Children()
    {
      b := child.Get(key);
    }

    method HasValue(key: Atom) returns (b: bool)
      requires Valid()
      ensures b <==> key in Values()
    {
      b := value.Get(key);
    }

    /** `presence`. */
    method Get(key: Atom) returns (b: bool)
      requires Valid()
      ensures b <==> key in Keys()
    {
      b := HasChild(key);
      if !b {
        b := HasValue(key);
      }
    }

    method AssignChild(key: Atom, present: bool)
      requires Valid()
      modifies child.presence
      ensures Children() == if present then old(Children()) + {key} else old(Children()) - {key}
    {
      child.Assign(key, present);
    }

    method AssignValue(key: Atom, present: bool)
      requires Valid()
      modifies value.presence
      ensures Values() == if present then old(Values()) + {key} else old(Values()) - {key}
    {
      value.Assign(key, present);
    }

    /** `presence_first_set`: the lesser of the first bits of the two sets. */
    method FirstSet() returns (c: Option<Atom>)
      requires Valid()
      ensures c == KeyFrom(Keys(), 0)
    {
      var ch := child.FirstSet();
      var dt := value.FirstSet();
      MembersBelow(child.presence[..]);
      MembersBelow(value.presence[..]);
      LesserIsNext(child.Members(), value.Members(), 0, ch, dt);
      var r := Lesser(ch, dt);
      return if r.None? then None else Some(r.value);
    }

    /** `presence_next_set`. */
    method NextSet(previous: Atom) returns (c: Option<Atom>)
      requires Valid()
      ensures c == KeyFrom(Keys(), previous as int + 1)
    {
      var ch := child.NextSet(previous);
      var dt := value.NextSet(previous);
      MembersBelow(child.presence[..]);
      MembersBelow(value.presence[..]);
      LesserIsNext(child.Members(), value.Members(), previous as int + 1, ch, dt);
      var r := Lesser(ch, dt);
      return if r.None? then None else Some(r.value);
    }
  }
}
