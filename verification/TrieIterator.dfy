/** The iterator object: the spelled prefix and the stack of positions, updated in step. */
module TrieIteration {
  import opened Common
  import opened Lex
  import opened TrieModel
  import opened TriePath

  /** `~node_version_t{}`, the version of a position that has not looked at its node. */
  const NO_VERSION: nat := 0xFFFF_FFFF

  class TrieIterator {
    var prefix: Str
    var stack: seq<Position>
    var version: nat

    /** The end iterator, with the given snapshot of the trie's version. */
    constructor (v: nat)
      ensures prefix == [] && stack == [] && version == v
    {
      prefix, stack, version := [], [], v;
    }

    constructor Copy(other: TrieIterator)
      ensures prefix == other.prefix && stack == other.stack && version == other.version
    {
      prefix, stack, version := other.prefix, other.stack, other.version;
    }

    predicate IsEnd()
      reads this
    {
      stack == []
    }

    function Back(): Position
      requires stack != []
      reads this
    {
      stack[|stack| - 1]
    }

    ghost function Front(): seq<Position>
      requires stack != []
      reads this
    {
      stack[..|stack| - 1]
    }

    method Clear()
      modifies this`prefix, this`stack
      ensures prefix == [] && stack == []
    {
      prefix, stack := [], [];
    }

    method SetBack(p: Position)
      requires stack != []
      modifies this`stack
      ensures stack == old(Front()) + [p]
    {
      stack := stack[..|stack| - 1] + [p];
    }

    /** `rat(key(c), stem_size(nil), terminality(..), node_version(..))`: naming a key spells it. */
    method SetKey(c: Atom, hasChild: bool, hasData: bool, v: nat)
      requires stack != [] && Back().stemSize.None?
      modifies this`prefix, this`stack
      ensures prefix == old(prefix) + [c]
      ensures stack == old(Front()) + [Position(old(Back()).addr, Some(c), None, hasChild, hasData, v)]
    {
      prefix := prefix + [c];
      SetBack(Position(Back().addr, Some(c), None, hasChild, hasData, v));
    }

    method UpdateStem(stem: Str)
      requires stack != [] && Back().stemSize.None?
      modifies this`prefix, this`stack
      ensures prefix == old(prefix) + stem
      ensures stack == old(Front()) + [old(Back()).(stemSize := Some(|stem|))]
    {
      SetBack(Back().(stemSize := Some(|stem|)));
      prefix := prefix + stem;
    }

    /** `push(address(a))`: a node to look into. */
    method Push(a: Addr)
      modifies this`stack
      ensures stack == old(stack) + [Position(a, None, None, false, false, NO_VERSION)]
    {
      stack := stack + [Position(a, None, None, false, false, NO_VERSION)];
    }

    /** `push(key(c), address(a))`. */
    method PushKey(a: Addr, c: Atom)
      modifies this`prefix, this`stack
      ensures prefix == old(prefix) + [c]
      ensures stack == old(stack) + [Position(a, Some(c), None, false, false, NO_VERSION)]
    {
      prefix := prefix + [c];
      stack := stack + [Position(a, Some(c), None, false, false, NO_VERSION)];
    }

    /** One more position, spelled with its key and stem. */
    method Emplace(p: Position, stem: Str)
      requires p.key.Some? && p.stemSize.None?
      modifies this`prefix, this`stack
      ensures prefix == old(prefix) + [p.key.value] + stem
      ensures stack == old(stack) + [p.(stemSize := Some(|stem|))]
    {
      prefix := prefix + [p.key.value];
      stack := stack + [p];
      UpdateStem(stem);
    }

    /** Replaces the last position: its key and stem are cut off the prefix first. */
    method UpdateBack(p: Position, stem: Str)
      requires p.key.Some? && p.stemSize.None?
      requires stack != [] && Back().stemSize.Some? && Back().stemSize.value + 1 <= |prefix|
      modifies this`prefix, this`stack
      ensures prefix == old(prefix[..|prefix| - (Back().stemSize.value + 1)]) + [p.key.value] + stem
      ensures stack == old(Front()) + [p.(stemSize := Some(|stem|))]
    {
      prefix := prefix[..|prefix| - (Back().stemSize.value + 1)];
      SetBack(p);
      prefix := prefix + [p.key.value];
      UpdateStem(stem);
    }

    method Pop()
      requires stack != [] && Back().stemSize.Some? && Back().stemSize.value + 1 <= |prefix|
      modifies this`prefix, this`stack
      ensures prefix == old(prefix[..|prefix| - (Back().stemSize.value + 1)])
      ensures stack == old(Front())
    {
      prefix := prefix[..|prefix| - (Back().stemSize.value + 1)];
      stack := stack[..|stack| - 1];
    }
  }
}
