/** The iterator over a trie: a trail of frames from the root to the current entry. */
module TrieIterator {
  import opened Bytes
  import opened Rlp
  import opened TrieNode
  import opened TrieItem
  import opened TrieOrder
  import opened TrieDb
  import opened TrieSeek
  import HexPrefix
  import Multisets

  /** `child` is the place in the node: `ENTERING`, then `VALUE`, then the slots 0 to 15, then `DONE`. */
  datatype Frame = Frame(item: Item, key: bytes, child: nat)

  const ENTERING: nat := 255
  const VALUE: nat := 16
  const DONE: nat := 17

  function Following(child: nat): nat {
    if child == VALUE then 0 else if child == 15 then DONE else child + 1
  }

  /** How far along a place is. */
  function Rank(child: nat): nat
    requires child <= DONE
  {
    if child == VALUE then 0 else if child == DONE then 17 else child + 1
  }

  /** The node a frame stands for and the path to it. */
  datatype Spot = Spot(node: Node, path: Nibbles, child: nat)

  ghost predicate InShape(s: Spot) {
    && Canonical(s.node) && WellFormed(s.node)
    && (s.child == ENTERING || (s.node.Branch? && s.child <= VALUE) || (s.node.Leaf? && s.child == 0))
  }

  /** The entries of a branch from a place on. */
  ghost function Todo(n: Node, p: Nibbles, child: nat): seq<Visit>
    requires WellFormed(n) && n.Branch? && child <= DONE
  {
    if child == DONE then [] else if child == VALUE then Entries(n, p) else EntriesFrom(n, child, p)
  }

  /** The entries that a frame still leads to, without the one it stands on. */
  ghost function Pending(s: Spot): seq<Visit>
    requires InShape(s)
  {
    if s.child == ENTERING then Entries(s.node, s.path)
    else if s.node.Branch? then Todo(s.node, s.path, Following(s.child))
    else []
  }

  /** A trail, its last frame on top. */
  datatype Spots = Bottom | Upon(top: Spot, base: Spots)

  ghost predicate AllInShape(spots: Spots) {
    spots.Upon? ==> InShape(spots.top) && AllInShape(spots.base)
  }

  /** The entries that a trail still leads to; its last frame comes first. */
  ghost function Rest(spots: Spots): seq<Visit>
    requires AllInShape(spots)
  {
    if spots.Bottom? then [] else Pending(spots.top) + Rest(spots.base)
  }

  // ------------------------------------------------------------ termination

  ghost function NodeWeight(n: Node): nat
    requires WellFormed(n)
    decreases n, 18
  {
    match n
    case Empty => 1
    case Leaf(_, _) => 2
    case Extension(_, c) => 1 + NodeWeight(c)
    case Branch(_, _) => 2 + SlotsWeight(n, 0)
  }

  ghost function SlotsWeight(n: Node, i: nat): nat
    requires WellFormed(n) && n.Branch? && i <= 17
    decreases n, 17 - i
  {
    if i >= 16 then 0 else 1 + NodeWeight(n.slots[i]) + SlotsWeight(n, i + 1)
  }

  ghost function SpotWeight(s: Spot): nat
    requires InShape(s)
  {
    if s.child == ENTERING then NodeWeight(s.node)
    else if s.node.Branch? then 1 + SlotsWeight(s.node, Following(s.child))
    else 1
  }

  ghost function Weight(spots: Spots): nat
    requires AllInShape(spots)
  {
    if spots.Bottom? then 0 else SpotWeight(spots.top) + Weight(spots.base)
  }

  /** Entering a slot at or behind a place of a branch costs less than the place. */
  lemma {:induction false} SlotCheaper(n: Node, i: nat, j: nat)
    requires WellFormed(n) && n.Branch? && i <= j < 16
    ensures NodeWeight(n.slots[j]) + SlotsWeight(n, j + 1) < SlotsWeight(n, i)
    decreases j - i
  {
    if i < j { SlotCheaper(n, i + 1, j); }
  }

  // ------------------------------------------------------------ one turn of the search

  /** The first place from `start` on that holds something. */
  ghost function Place(n: Node, start: nat): (child: nat)
    requires WellFormed(n) && n.Branch? && start <= DONE
    ensures child <= DONE && Rank(start) <= Rank(child)
    ensures child == VALUE ==> start == VALUE && n.value != []
    ensures child < 16 ==> n.slots[child] != Empty && (start < 16 ==> start <= child)
    ensures child != start && start < 16 ==> n.slots[start] == Empty
    decreases DONE - Rank(start)
  {
    if start == DONE || (if start == VALUE then n.value != [] else n.slots[start] != Empty) then start
    else Place(n, Following(start))
  }

  lemma {:induction false} PlaceSkipsNothing(n: Node, p: Nibbles, start: nat)
    requires WellFormed(n) && n.Branch? && start <= DONE
    ensures Todo(n, p, start) == Todo(n, p, Place(n, start))
    decreases DONE - Rank(start)
  {
    if Place(n, start) != start {
      PlaceSkipsNothing(n, p, Following(start));
      if start == VALUE {
        assert Entries(n, p) == [] + EntriesFrom(n, 0, p);
      } else {
        assert EntriesFrom(n, start, p) == [] + EntriesFrom(n, start + 1, p);
      }
    }
  }

  /**
   Searching for `k` at a node on path `p`, with `rest` to come behind it, leads to the
   first entry from `bound` on.
   */
  ghost predicate SeekAt(n: Node, p: Nibbles, k: Nibbles, rest: seq<Visit>, bound: Nibbles)
    requires WellFormed(n)
  {
    if k == [] then NotBefore(Entries(n, p) + rest, bound) else bound == p + k && NotBefore(rest, bound)
  }

  /** The same when the search goes on at a place of a branch. */
  ghost predicate SeekPlace(n: Node, p: Nibbles, start: nat, k: Nibbles, rest: seq<Visit>, bound: Nibbles)
    requires WellFormed(n) && n.Branch? && start <= DONE
  {
    if start < 16 && n.slots[start] != Empty then
      SeekAt(n.slots[start], p + [start], k, EntriesFrom(n, start + 1, p) + rest, bound)
    else
      NotBefore(Todo(n, p, start) + rest, bound)
  }

  /** The cases of a search that meets a pair. */
  lemma {:induction false} PairStep(n: Node, p: Nibbles, k: Nibbles, rest: seq<Visit>, bound: Nibbles)
    requires Canonical(n) && WellFormed(n) && (n.Leaf? || n.Extension?) && SeekAt(n, p, k, rest, bound)
    ensures !(n.key <= k) && !HexPrefix.Earlier(k, n.key) ==> Before(Entries(n, p), bound) && NotBefore(rest, bound)
    ensures !(n.key <= k) && HexPrefix.Earlier(k, n.key) ==> NotBefore(Entries(n, p) + rest, bound)
    ensures n.key <= k && n.Leaf? && k != n.key ==> Before(Entries(n, p), bound) && NotBefore(rest, bound)
    ensures n.key <= k && n.Leaf? && k == n.key ==> NotBefore(Entries(n, p) + rest, bound)
    ensures n.key <= k && n.Extension? ==> SeekAt(n.child, p + n.key, k[|n.key|..], rest, bound)
  {
    BelowConcat(Entries(n, p), rest, bound);
    if k == [] {
      EarlierNil(k, n.key);
    } else if n.key <= k {
      PairMatched(n, p, k, rest, bound);
    } else if HexPrefix.Earlier(k, n.key) {
      PairFrom(n, p, k);
    } else {
      PairBelow(n, p, k);
    }
  }

  lemma {:induction false} PairMatched(n: Node, p: Nibbles, k: Nibbles, rest: seq<Visit>, bound: Nibbles)
    requires WellFormed(n) && (n.Leaf? || n.Extension?) && n.key <= k && bound == p + k && NotBefore(rest, bound)
    ensures n.Leaf? && k != n.key ==> Before(Entries(n, p), bound)
    ensures n.Leaf? && k == n.key ==> NotBefore(Entries(n, p) + rest, bound)
    ensures n.Extension? ==> SeekAt(n.child, p + n.key, k[|n.key|..], rest, bound)
  {
    BelowConcat(Entries(n, p), rest, bound);
    if n.Leaf? {
      if k != n.key { LeafBelow(n, p, k); } else { NotEarlierSelf(bound); }
    } else {
      var x := k[|n.key|..];
      assert k == n.key + x;
      Assoc(p, n.key, x);
      if x == [] {
        assert bound == p + n.key;
        EntriesFromPath(n.child, p + n.key);
      }
    }
  }

  /** A search that meets a branch with a key left goes on in the slot of its first nibble. */
  lemma {:induction false} BranchStep(n: Node, p: Nibbles, k: Nibbles, rest: seq<Visit>, bound: Nibbles)
    requires WellFormed(n) && n.Branch? && k != [] && SeekAt(n, p, k, rest, bound)
    ensures Before(EntriesUpTo(n, k[0], p), bound)
    ensures Entries(n, p) == EntriesUpTo(n, k[0], p) + Todo(n, p, k[0])
    ensures SeekPlace(n, p, k[0], k[1..], rest, bound)
  {
    var j, x := k[0], k[1..];
    HeadTail(k);
    UpToBelow(n, j, p, j, x);
    LaterSlotsFrom(n, j, p, x);
    SplitAt(n, j, p);
    var later := EntriesFrom(n, j as int + 1, p);
    BelowConcat(later, rest, bound);
    assert p + [j] + x == bound;
    if n.slots[j] == Empty {
      assert Todo(n, p, j) == later;
    } else if x == [] {
      assert bound == p + [j];
      EntriesFromPath(n.slots[j], p + [j]);
      BelowConcat(Entries(n.slots[j], p + [j]), later + rest, bound);
    }
  }

  /** The frame for the slot that a frame has come to. */
  ghost function InSlot(s: Spot): Spot
    requires InShape(s) && s.node.Branch? && s.child < 16
  {
    Spot(s.node.slots[s.child], s.path + [s.child], ENTERING)
  }

  /** The search for `k` from the last frame on will stop at the first entry that is not before `bound`. */
  ghost predicate Seeks(spots: Spots, k: Nibbles, bound: Nibbles)
    requires AllInShape(spots)
  {
    if k == [] then NotBefore(Rest(spots), bound)
    else
      && spots.Upon? && spots.top.child == ENTERING
      && SeekAt(spots.top.node, spots.top.path, k, Rest(spots.base), bound)
  }

  /** A trail that stands on an entry. */
  ghost predicate OnEntry(spots: Spots) {
    spots.Upon? &&
    var s := spots.top;
    (s.node.Leaf? && s.child == 0) || (s.node.Branch? && s.child == VALUE && s.node.value != [])
  }

  /** The entries from the current one on. */
  ghost function FromEntry(spots: Spots): seq<Visit>
    requires AllInShape(spots) && OnEntry(spots)
  {
    [Visit(spots.top.path, spots.top.node.value)] + Rest(spots)
  }

  /** The outcome of a turn: the trail, whether it stands on an entry, and the key left to search for. */
  datatype Turn = Turn(spots: Spots, found: bool, k: Nibbles)

  /** The turn skips only entries before the bound and stops on none of these. */
  ghost predicate Correct(spots: Spots, t: Turn, skipped: seq<Visit>, bound: Nibbles)
    requires AllInShape(spots)
  {
    && AllInShape(t.spots) && Before(skipped, bound)
    && if t.found then
      && OnEntry(t.spots) && Rest(spots) == skipped + FromEntry(t.spots)
      && NotBefore(FromEntry(t.spots), bound)
    else
      && Rest(spots) == skipped + Rest(t.spots) && Seeks(t.spots, t.k, bound)
      && Weight(t.spots) < Weight(spots)
  }

  // ------------------------------------------------------------------- pairs

  ghost predicate AtPair(spots: Spots) {
    AllInShape(spots) && spots.Upon? && spots.top.child == ENTERING
      && (spots.top.node.Leaf? || spots.top.node.Extension?)
  }

  /** A turn at a node of one key and one value or child. */
  ghost function PairTurn(spots: Spots, k: Nibbles): Turn
    requires AtPair(spots)
  {
    var n, p, base := spots.top.node, spots.top.path, spots.base;
    var k1 := if n.key <= k then k[|n.key|..] else [];
    if !(n.key <= k) && !HexPrefix.Earlier(k, n.key) then Turn(base, false, [])
    else if n.Extension? then Turn(Upon(Spot(n.child, p + n.key, ENTERING), base), false, k1)
    else if k1 == [] then Turn(Upon(Spot(n, p + n.key, 0), base), true, [])
    else Turn(base, false, [])
  }

  lemma {:induction false} PairTurnCorrect(spots: Spots, k: Nibbles, bound: Nibbles) returns (skipped: seq<Visit>)
    requires AtPair(spots) && Seeks(spots, k, bound)
    ensures Correct(spots, PairTurn(spots, k), skipped, bound)
  {
    var n, p, base := spots.top.node, spots.top.path, spots.base;
    PairStep(n, p, k, Rest(base), bound);
    var k1 := if n.key <= k then k[|n.key|..] else [];
    assert n.key <= k && k1 == [] ==> k == n.key;
    if (!(n.key <= k) && !HexPrefix.Earlier(k, n.key)) || (n.Leaf? && k1 != []) {
      skipped := Entries(n, p);
      PairSkips(spots, bound);
    } else {
      skipped := [];
      if n.Leaf? { PairStops(spots, bound); } else { PairEnters(spots, k1, bound); }
    }
  }

  lemma {:induction false} PairSkips(spots: Spots, bound: Nibbles)
    requires AtPair(spots) && Before(Entries(spots.top.node, spots.top.path), bound)
      && NotBefore(Rest(spots.base), bound)
    ensures Correct(spots, Turn(spots.base, false, []), Entries(spots.top.node, spots.top.path), bound)
  {
  }

  lemma {:induction false} PairStops(spots: Spots, bound: Nibbles)
    requires AtPair(spots) && spots.top.node.Leaf?
    requires NotBefore(Entries(spots.top.node, spots.top.path) + Rest(spots.base), bound)
    ensures
      var s := spots.top;
      Correct(spots, Turn(Upon(Spot(s.node, s.path + s.node.key, 0), spots.base), true, []), [], bound)
  {
  }

  lemma {:induction false} PairEnters(spots: Spots, k: Nibbles, bound: Nibbles)
    requires AtPair(spots) && spots.top.node.Extension?
    requires SeekAt(spots.top.node.child, spots.top.path + spots.top.node.key, k, Rest(spots.base), bound)
    ensures
      var s := spots.top;
      Correct(spots, Turn(Upon(Spot(s.node.child, s.path + s.node.key, ENTERING), spots.base), false, k), [], bound)
  {
  }

  // ---------------------------------------------------------------- branches

  ghost predicate AtBranch(spots: Spots) {
    AllInShape(spots) && spots.Upon? && spots.top.node.Branch?
  }

  /** A turn that goes on at place `start` of a branch. */
  ghost function ScanTurn(spots: Spots, k: Nibbles, start: nat): Turn
    requires AtBranch(spots) && start <= DONE
  {
    var n, p, base := spots.top.node, spots.top.path, spots.base;
    var child := Place(n, start);
    var here := Spot(n, p, child);
    if child == DONE then Turn(base, false, [])
    else if child == VALUE then Turn(Upon(here, base), true, [])
    else Turn(Upon(InSlot(here), Upon(here, base)), false, if child == start then k else [])
  }

  /** After a slot is opened the search is where it was meant to go. */
  lemma {:induction false} Entered(base: Spots, t: Spot, start: nat, k: Nibbles, bound: Nibbles)
    requires AllInShape(base) && InShape(t) && t.node.Branch? && t.child < 16 && start <= DONE
    requires t.node.slots[t.child] != Empty && Todo(t.node, t.path, start) == Todo(t.node, t.path, t.child)
    requires t.child != start && start < 16 ==> t.node.slots[start] == Empty
    requires SeekPlace(t.node, t.path, start, k, Rest(base), bound)
    ensures
      var all := Upon(InSlot(t), Upon(t, base));
      && AllInShape(all) && Rest(all) == Todo(t.node, t.path, start) + Rest(base)
      && Seeks(all, if t.child == start then k else [], bound)
      && Weight(all) == 1 + NodeWeight(t.node.slots[t.child]) + SlotsWeight(t.node, t.child + 1) + Weight(base)
  {
    EnteredRest(base, t);
    if t.child == start { assert Rest(Upon(t, base)) == EntriesFrom(t.node, start + 1, t.path) + Rest(base); }
  }

  lemma {:induction false} EnteredRest(base: Spots, t: Spot)
    requires AllInShape(base) && InShape(t) && t.node.Branch? && t.child < 16
    ensures
      var all := Upon(InSlot(t), Upon(t, base));
      && AllInShape(all) && Rest(all) == Todo(t.node, t.path, t.child) + Rest(base)
      && Rest(Upon(t, base)) == Todo(t.node, t.path, Following(t.child)) + Rest(base)
      && Weight(all) == 1 + NodeWeight(t.node.slots[t.child]) + SlotsWeight(t.node, t.child + 1) + Weight(base)
  {
    Assoc(Entries(t.node.slots[t.child], t.path + [t.child]), EntriesFrom(t.node, t.child + 1, t.path), Rest(base));
  }

  lemma {:induction false} Moves(spots: Spots, t: Turn, skipped: seq<Visit>, todo: seq<Visit>, bound: Nibbles)
    requires AllInShape(spots) && spots.Upon? && Pending(spots.top) == skipped + todo && Before(skipped, bound)
    requires !t.found && AllInShape(t.spots) && Rest(t.spots) == todo + Rest(spots.base)
    requires Seeks(t.spots, t.k, bound) && Weight(t.spots) < SpotWeight(spots.top) + Weight(spots.base)
    ensures Correct(spots, t, skipped, bound)
  {
    Assoc(skipped, todo, Rest(spots.base));
  }

  lemma {:induction false} Stops(spots: Spots, t: Turn, skipped: seq<Visit>, todo: seq<Visit>, bound: Nibbles)
    requires AllInShape(spots) && spots.Upon? && Pending(spots.top) == skipped + todo && Before(skipped, bound)
    requires t.found && AllInShape(t.spots) && OnEntry(t.spots) && FromEntry(t.spots) == todo + Rest(spots.base)
    requires NotBefore(todo + Rest(spots.base), bound)
    ensures Correct(spots, t, skipped, bound)
  {
    Assoc(skipped, todo, Rest(spots.base));
  }

  lemma {:induction false} ScanIntoSlot(
    spots: Spots, k: Nibbles, start: nat, child: nat, least: nat, bound: Nibbles, skipped: seq<Visit>)
    requires AtBranch(spots) && start <= DONE && least <= child < 16 && spots.top.node.slots[child] != Empty
    requires child != start && start < 16 ==> spots.top.node.slots[start] == Empty
    requires Todo(spots.top.node, spots.top.path, start) == Todo(spots.top.node, spots.top.path, child)
    requires SeekPlace(spots.top.node, spots.top.path, start, k, Rest(spots.base), bound)
    requires Before(skipped, bound) && Pending(spots.top) == skipped + Todo(spots.top.node, spots.top.path, start)
    requires SpotWeight(spots.top) > SlotsWeight(spots.top.node, least)
    ensures
      var here := spots.top.(child := child);
      Correct(spots, Turn(Upon(InSlot(here), Upon(here, spots.base)), false, if child == start then k else []), skipped,
        bound)
  {
    var here, todo := spots.top.(child := child), Todo(spots.top.node, spots.top.path, start);
    var t := Turn(Upon(InSlot(here), Upon(here, spots.base)), false, if child == start then k else []);
    Entered(spots.base, here, start, k, bound);
    SlotCheaper(here.node, least, child);
    Moves(spots, t, skipped, todo, bound);
  }

  lemma {:induction false} ScanTurnCorrect(spots: Spots, k: Nibbles, start: nat, least: nat, bound: Nibbles,
                                           skipped: seq<Visit>)
    requires AtBranch(spots) && start <= DONE && least <= DONE
    requires SeekPlace(spots.top.node, spots.top.path, start, k, Rest(spots.base), bound)
    requires Before(skipped, bound) && Pending(spots.top) == skipped + Todo(spots.top.node, spots.top.path, start)
    requires SpotWeight(spots.top) > SlotsWeight(spots.top.node, least) && (start < 16 ==> least <= start)
      && (start == VALUE ==> least == 0)
    ensures Correct(spots, ScanTurn(spots, k, start), skipped, bound)
  {
    var n, p, base := spots.top.node, spots.top.path, spots.base;
    var child := Place(n, start);
    var t, todo := ScanTurn(spots, k, start), Todo(n, p, start);
    PlaceSkipsNothing(n, p, start);
    if child < 16 {
      ScanIntoSlot(spots, k, start, child, least, bound, skipped);
    } else if child == VALUE {
      StandsOnValue(base, n, p);
      Stops(spots, t, skipped, todo, bound);
    } else {
      assert todo == [];
      Moves(spots, t, skipped, todo, bound);
    }
  }

  /** A branch whose value is current leads on to its slots. */
  lemma {:induction false} StandsOnValue(base: Spots, n: Node, p: Nibbles)
    requires AllInShape(base) && InShape(Spot(n, p, VALUE)) && n.Branch? && n.value != []
    ensures
      var all := Upon(Spot(n, p, VALUE), base);
      AllInShape(all) && OnEntry(all) && FromEntry(all) == Todo(n, p, VALUE) + Rest(base)
  {
    Assoc([Visit(p, n.value)], EntriesFrom(n, 0, p), Rest(base));
  }

  lemma {:induction false} PlaceAfter(n: Node, p: Nibbles, start: nat, rest: seq<Visit>, bound: Nibbles)
    requires WellFormed(n) && n.Branch? && start <= DONE && NotBefore(Todo(n, p, start) + rest, bound)
    ensures SeekPlace(n, p, start, [], rest, bound)
  {
    if start < 16 {
      Assoc(Entries(n.slots[start], p + [start]), EntriesFrom(n, start + 1, p), rest);
    }
  }

  // ---------------------------------------------------------------- all turns

  ghost function TurnOf(spots: Spots, k: Nibbles): Turn
    requires AllInShape(spots) && spots.Upon?
  {
    var s := spots.top;
    if s.child != ENTERING then
      if s.node.Branch? then ScanTurn(spots, [], Following(s.child)) else Turn(spots.base, false, [])
    else if s.node == Empty then Turn(spots.base, false, [])
    else if s.node.Branch? then
      if k == [] then ScanTurn(spots, [], VALUE) else ScanTurn(spots, k[1..], k[0])
    else PairTurn(spots, k)
  }

  lemma {:induction false} TurnCorrect(spots: Spots, k: Nibbles, bound: Nibbles) returns (skipped: seq<Visit>)
    requires AllInShape(spots) && spots.Upon? && Seeks(spots, k, bound)
    ensures Correct(spots, TurnOf(spots, k), skipped, bound)
  {
    var s, base := spots.top, spots.base;
    skipped := [];
    if s.child != ENTERING {
      if s.node.Branch? {
        PlaceAfter(s.node, s.path, Following(s.child), Rest(base), bound);
        ScanTurnCorrect(spots, [], Following(s.child), Following(s.child), bound, []);
      }
    } else if s.node.Branch? {
      if k == [] {
        ScanTurnCorrect(spots, [], VALUE, 0, bound, []);
      } else {
        BranchStep(s.node, s.path, k, Rest(base), bound);
        skipped := EntriesUpTo(s.node, k[0], s.path);
        ScanTurnCorrect(spots, k[1..], k[0], 0, bound, skipped);
      }
    } else if s.node != Empty {
      skipped := PairTurnCorrect(spots, k, bound);
    }
  }

  // ------------------------------------------------------------- the iterator

  method FindPlace(ghost n: Node, ghost h: Hasher, here: Item, start: nat) returns (child: nat)
    requires CollisionFree(h) && WellFormed(n) && n.Branch? && here == ItemOf(n, h) && start <= DONE
    ensures child == Place(n, start)
  {
    child := start;
    while child != DONE && IsEmpty(here.items[child])
      invariant child <= DONE && Place(n, start) == Place(n, child)
      decreases DONE - Rank(child)
    {
      if child < 16 { RefNull(n.slots[child], h); }
      child := Following(child);
    }
    if child < 16 { RefNull(n.slots[child], h); }
  }

  class Iterator {
    const trie: Trie
    var trail: seq<Frame>
    ghost var spots: Spots

    ghost function FrameOf(s: Spot): Frame {
      Frame(ItemOf(s.node, trie.H()), HexPrefix.Encode(s.path, false), s.child)
    }

    ghost predicate CanRead(s: Spot)
      reads trie.db
    {
      trie.Readable(RefsBelow(s.node, trie.H()))
    }

    /** The frames stand for the spots, whose nodes can be read. */
    ghost predicate Matches(frames: seq<Frame>, spots: Spots)
      reads trie.db
    {
      if spots.Bottom? then frames == []
      else
        && frames != [] && frames[|frames| - 1] == FrameOf(spots.top) && CanRead(spots.top)
        && Matches(frames[..|frames| - 1], spots.base)
    }

    ghost predicate Valid()
      reads this, trie.db
    {
      trie.db.Valid() && AllInShape(spots) && Matches(trail, spots)
    }

    /** The trail stands on an entry, or has come to the end. */
    ghost predicate Stopped()
      reads this
    {
      spots.Bottom? || OnEntry(spots)
    }

    /** The entries from the current one on. */
    ghost function Remaining(): seq<Visit>
      requires AllInShape(spots) && Stopped()
      reads this
    {
      if spots.Bottom? then [] else FromEntry(spots)
    }

    method Pop()
      requires Valid() && trail != []
      modifies this
      ensures Valid() && spots == old(spots.base)
    {
      trail := trail[..|trail| - 1];
      spots := spots.base;
    }

    method Push(item: Item, key: bytes, child: nat, ghost s: Spot)
      requires Valid() && InShape(s) && CanRead(s) && Frame(item, key, child) == FrameOf(s)
      modifies this
      ensures Valid() && spots == Upon(s, old(spots))
    {
      SplitConcat(trail, [Frame(item, key, child)]);
      trail := trail + [Frame(item, key, child)];
      spots := Upon(s, spots);
    }

    method EnterPair(k: Nibbles) returns (found: bool, k2: Nibbles)
      requires Valid() && AtPair(spots)
      modifies this
      ensures Valid() && Turn(spots, found, k2) == PairTurn(old(spots), k)
    {
      var top := trail[|trail| - 1];
      ghost var n, p := spots.top.node, spots.top.path;
      assert CanRead(spots.top);
      PairShape(n, trie.H());
      HexPrefix.EncodeInverts(p, false);
      var kk := HexPrefix.KeyOf(top.item.items[0].payload);
      found, k2 := false, [];
      Pop();
      if !(kk <= k) && !HexPrefix.Earlier(k, kk) {
        return;
      }
      var k1 := if kk <= k then k[|kk|..] else [];
      var key := HexPrefix.Encode(HexPrefix.KeyOf(top.key) + kk, false);
      if !HexPrefix.IsLeaf(top.item.items[0].payload) {
        trie.ReadableParts(n.child);
        var it := trie.Deref(n.child, top.item.items[1]);
        Push(it, key, ENTERING, Spot(n.child, p + kk, ENTERING));
        k2 := k1;
      } else if k1 == [] {
        Push(top.item, key, 0, Spot(n, p + kk, 0));
        found := true;
      }
    }

    method Scan(k: Nibbles, start: nat) returns (found: bool, k2: Nibbles)
      requires Valid() && AtBranch(spots) && start <= DONE
      modifies this
      ensures Valid() && Turn(spots, found, k2) == ScanTurn(old(spots), k, start)
    {
      var top := trail[|trail| - 1];
      ghost var n, p := spots.top.node, spots.top.path;
      assert CanRead(spots.top);
      var child := FindPlace(n, trie.H(), top.item, start);
      found, k2 := child == VALUE, [];
      Pop();
      if child != DONE {
        Push(top.item, top.key, child, Spot(n, p, child));
        if child < 16 {
          EnterSlot(child);
          k2 := if child == start then k else [];
        }
      }
    }

    /** Opens the node in the slot that the last frame has come to. */
    method EnterSlot(child: nat)
      requires Valid() && AtBranch(spots) && spots.top.child == child < 16 && spots.top.node.slots[child] != Empty
      modifies this
      ensures Valid() && spots == Upon(InSlot(old(spots.top)), old(spots))
    {
      var top := trail[|trail| - 1];
      ghost var s := spots.top;
      var it := ReadSlot(top.item, child, s);
      HexPrefix.EncodeInverts(s.path, false);
      Push(it, HexPrefix.Encode(HexPrefix.KeyOf(top.key) + [child], false), ENTERING, InSlot(s));
    }

    method ReadSlot(here: Item, child: nat, ghost s: Spot) returns (it: Item)
      requires trie.db.Valid() && InShape(s) && CanRead(s) && s.node.Branch? && here == ItemOf(s.node, trie.H())
      requires s.child == child < 16 && s.node.slots[child] != Empty
      ensures it == ItemOf(InSlot(s).node, trie.H()) && CanRead(InSlot(s))
    {
      ghost var c := s.node.slots[child];
      RefNull(c, trie.H());
      RefsAllUpdate(s.node.slots, child, c, trie.H());
      trie.ReadableParts(c);
      it := trie.Deref(c, here.items[child]);
    }

    /** One turn of the search. */
    method Step(k: Nibbles) returns (found: bool, k2: Nibbles)
      requires Valid() && trail != []
      modifies this
      ensures Valid() && Turn(spots, found, k2) == TurnOf(old(spots), k)
    {
      var top := trail[|trail| - 1];
      ghost var s := spots.top;
      ItemCount(s.node, trie.H());
      found, k2 := false, [];
      if top.child != ENTERING {
        if |top.item.items| != 17 {
          Pop();
        } else {
          found, k2 := Scan([], Following(top.child));
        }
      } else if IsEmpty(top.item) {
        Pop();
      } else if |top.item.items| == 2 {
        found, k2 := EnterPair(k);
      } else if k != [] {
        found, k2 := Scan(k[1..], k[0]);
      } else {
        found, k2 := Scan([], VALUE);
      }
    }

    /** Goes on to the first entry that is not before `bound`. */
    method Seek(k: Nibbles, ghost bound: Nibbles) returns (ghost skipped: seq<Visit>)
      requires Valid() && Seeks(spots, k, bound)
      modifies this
      ensures Valid() && Stopped() && old(Rest(spots)) == skipped + Remaining()
      ensures Before(skipped, bound) && NotBefore(Remaining(), bound)
    {
      var found, key := false, k;
      skipped := [];
      ghost var all := Rest(spots);
      while trail != [] && !found
        invariant Valid() && Before(skipped, bound)
        invariant found ==> OnEntry(spots) && all == skipped + FromEntry(spots) && NotBefore(FromEntry(spots), bound)
        invariant !found ==> all == skipped + Rest(spots) && Seeks(spots, key, bound)
        decreases !found, Weight(spots)
      {
        ghost var more := TurnCorrect(spots, key, bound);
        found, key := Step(key);
        BelowConcat(skipped, more, bound);
        Assoc(skipped, more, if found then FromEntry(spots) else Rest(spots));
        skipped := skipped + more;
      }
    }

    /** Stands on the first entry. */
    constructor Begin(trie: Trie)
      requires trie.Valid()
      ensures Valid() && this.trie == trie && Stopped() && Remaining() == Entries(trie.node, [])
    {
      var it := trie.RootItem();
      this.trie := trie;
      trail, spots := [Frame(it, HexPrefix.Encode([], false), ENTERING)], Upon(Spot(trie.node, [], ENTERING), Bottom);
      new;
      ghost var skipped := SeekFromRoot([]);
      NothingBeforeNil(skipped);
    }

    /** Stands on the first entry whose key is not before `key`. */
    constructor LowerBound(trie: Trie, key: bytes)
      requires trie.Valid()
      ensures Valid() && this.trie == trie && Stopped()
      ensures
        var all, bound := Entries(trie.node, []), HexPrefix.AsNibbles(key);
        && |Remaining()| <= |all| && Remaining() == all[|all| - |Remaining()|..]
        && Before(all[..|all| - |Remaining()|], bound) && NotBefore(Remaining(), bound)
    {
      var it := trie.RootItem();
      this.trie := trie;
      trail, spots := [Frame(it, HexPrefix.Encode([], false), ENTERING)], Upon(Spot(trie.node, [], ENTERING), Bottom);
      new;
      ghost var skipped := SeekFromRoot(HexPrefix.AsNibbles(key));
      SplitConcat(skipped, Remaining());
    }

    method SeekFromRoot(bound: Nibbles) returns (ghost skipped: seq<Visit>)
      requires trie.Valid() && spots == Upon(Spot(trie.node, [], ENTERING), Bottom)
      requires |trail| == 1 && trail[0] == FrameOf(spots.top)
      modifies this
      ensures Valid() && Stopped() && Entries(trie.node, []) == skipped + Remaining()
      ensures Before(skipped, bound) && NotBefore(Remaining(), bound)
    {
      Multisets.Parts(RefsBelow(trie.node, trie.H()), multiset{trie.root}, trie.db.refs);
      assert Rest(spots) == Entries(trie.node, []);
      skipped := Seek(bound, bound);
    }

    /** Goes on to the next entry; at the end it stays there. */
    method Advance()
      requires Valid() && Stopped()
      modifies this
      ensures Valid() && Stopped()
      ensures Remaining() == if old(Remaining()) == [] then [] else old(Remaining())[1..]
    {
      NothingBeforeNil(Rest(spots));
      ghost var skipped := Seek([], []);
      NothingBeforeNil(skipped);
    }

    /** Key and value of the current entry; its key is a whole number of bytes. */
    method Current() returns (key: bytes, value: bytes)
      requires Valid() && Stopped() && trail != [] && |Remaining()[0].key| % 2 == 0
      ensures HexPrefix.AsNibbles(key) == Remaining()[0].key && value == Remaining()[0].value
    {
      var b := trail[|trail| - 1];
      ghost var s := spots.top;
      HexPrefix.PackInverts(s.path, |s.path| / 2);
      key := b.key[1..];
      value := b.item.items[if |b.item.items| == 2 then 1 else 16].payload;
    }
  }

  /** Keys and values are those of the first of some entries. */
  ghost predicate Yields(keys: seq<bytes>, values: seq<bytes>, es: seq<Visit>) {
    && |keys| == |values| <= |es|
    && forall i :: 0 <= i < |keys| ==> Visit(HexPrefix.AsNibbles(keys[i]), values[i]) == es[i]
  }

  ghost predicate WholeBytes(es: seq<Visit>) {
    forall i :: 0 <= i < |es| ==> |es[i].key| % 2 == 0
  }

  method VisitAll(trie: Trie) returns (keys: seq<bytes>, values: seq<bytes>)
    requires trie.Valid() && WholeBytes(Entries(trie.node, []))
    ensures |keys| == |Entries(trie.node, [])| && Yields(keys, values, Entries(trie.node, []))
  {
    ghost var all := Entries(trie.node, []);
    var it := new Iterator.Begin(trie);
    keys, values := [], [];
    while it.trail != []
      invariant it.Valid() && fresh(it) && it.Stopped() && Yields(keys, values, all) && it.Remaining() == all[|keys|..]
      decreases |all| - |keys|
    {
      keys, values := VisitOne(it, keys, values, all);
    }
  }

  /** The entry under the iterator, and on to the next. */
  method VisitOne(it: Iterator, keys: seq<bytes>, values: seq<bytes>, ghost all: seq<Visit>)
    returns (keys': seq<bytes>, values': seq<bytes>)
    requires it.Valid() && it.Stopped() && it.trail != [] && WholeBytes(all)
    requires Yields(keys, values, all) && it.Remaining() == all[|keys|..]
    modifies it
    ensures it.Valid() && it.Stopped() && |keys'| == |keys| + 1
    ensures Yields(keys', values', all) && it.Remaining() == all[|keys'|..]
  {
    DropStep(all, |keys|);
    var k, v := it.Current();
    it.Advance();
    YieldsOneMore(keys, values, all, k, v);
    keys', values' := keys + [k], values + [v];
  }

  lemma {:induction false} DropStep(es: seq<Visit>, i: nat)
    requires i < |es|
    ensures es[i..][0] == es[i] && es[i..][1..] == es[i + 1..]
  {
  }

  lemma {:induction false} YieldsOneMore(keys: seq<bytes>, values: seq<bytes>, es: seq<Visit>, k: bytes, v: bytes)
    requires Yields(keys, values, es) && |keys| < |es| && Visit(HexPrefix.AsNibbles(k), v) == es[|keys|]
    ensures Yields(keys + [k], values + [v], es)
  {
  }

  /** Iteration from the first entry to the end yields every stored pair once, in the order of the keys. */
  method Collect(trie: Trie) returns (keys: seq<bytes>, values: seq<bytes>)
    requires trie.Valid() && forall q :: Present(trie.node, q) ==> |q| % 2 == 0
    ensures |keys| == |Entries(trie.node, [])| && Yields(keys, values, Entries(trie.node, []))
    ensures Increasing(Entries(trie.node, []))
    ensures forall e :: e in Entries(trie.node, []) <==> e.value != [] && Lookup(trie.node, e.key) == e.value
  {
    ghost var all := Entries(trie.node, []);
    forall e ensures e in all <==> e.value != [] && Lookup(trie.node, e.key) == e.value { EntriesExact(trie.node, e); }
    forall i | 0 <= i < |all| ensures |all[i].key| % 2 == 0 {
      assert all[i] in all;
      assert Present(trie.node, all[i].key);
    }
    EntriesIncreasing(trie.node, []);
    keys, values := VisitAll(trie);
  }
}
