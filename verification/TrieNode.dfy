/**
 The Merkle Patricia trie as a value: nodes, canonical shape, lookup, insertion
 and deletion. Insertion and deletion take the same steps as the database code
 (split a pair, turn a pair into a branch, merge a branch, graft a pair), on a
 node unfolded into a tree instead of on stored bytes.
 */
module TrieNode {
  import opened Bytes

  /** An empty `value` in a branch means that no key ends there. */
  datatype Node =
    | Empty
    | Leaf(key: Nibbles, value: bytes)
    | Extension(key: Nibbles, child: Node)
    | Branch(slots: seq<Node>, value: bytes)

  /** Shape needed to walk a node: sixteen slots, and extensions that consume something. */
  ghost predicate WellFormed(n: Node) {
    match n
    case Empty => true
    case Leaf(_, _) => true
    case Extension(k, c) => k != [] && WellFormed(c)
    case Branch(slots, _) => |slots| == 16 && forall i :: 0 <= i < 16 ==> WellFormed(slots[i])
  }

  /** Slot `i` of a branch holds a node, or slot 16 a value. */
  predicate Used(slots: seq<Node>, value: bytes, i: int)
    requires |slots| == 16
  {
    (0 <= i < 16 && slots[i] != Empty) || (i == 16 && value != [])
  }

  ghost predicate TwoUsed(slots: seq<Node>, value: bytes)
    requires |slots| == 16
  {
    exists i, j :: 0 <= i < j && Used(slots, value, i) && Used(slots, value, j)
  }

  /**
   The shape every stored trie has: values are not empty, an extension has a
   non-empty key and leads to a branch, and a branch uses at least two slots.
   */
  ghost predicate Canonical(n: Node) {
    match n
    case Empty => true
    case Leaf(_, v) => v != []
    case Extension(k, c) => k != [] && c.Branch? && Canonical(c)
    case Branch(slots, v) =>
      |slots| == 16 && TwoUsed(slots, v) && forall i :: 0 <= i < 16 ==> Canonical(slots[i])
  }

  lemma {:induction false} CanonicalIsWellFormed(n: Node)
    requires Canonical(n)
    ensures WellFormed(n)
  {
    match n
    case Extension(_, c) => CanonicalIsWellFormed(c);
    case Branch(slots, _) => forall i | 0 <= i < 16 ensures WellFormed(slots[i]) { CanonicalIsWellFormed(slots[i]); }
    case _ =>
  }

  /** The value stored under `k`, empty when there is none. */
  function Lookup(n: Node, k: Nibbles): (v: bytes)
    requires WellFormed(n)
    decreases n
  {
    match n
    case Empty => []
    case Leaf(k0, v0) => if k == k0 then v0 else []
    case Extension(k0, c) => if k0 <= k then Lookup(c, k[|k0|..]) else []
    case Branch(slots, v0) => if k == [] then v0 else Lookup(slots[k[0]], k[1..])
  }

  ghost predicate Present(n: Node, k: Nibbles)
    requires WellFormed(n)
  {
    Lookup(n, k) != []
  }

  // ---------------------------------------------------------------- insertion

  const NO_SLOTS: seq<Node> :=
    [Empty, Empty, Empty, Empty, Empty, Empty, Empty, Empty, Empty, Empty, Empty, Empty, Empty, Empty, Empty, Empty]

  lemma {:induction false} NoSlotsAt(i: nat)
    requires i < 16
    ensures |NO_SLOTS| == 16 && NO_SLOTS[i] == Empty
  {
  }

  /** Splits a pair after `s` nibbles of its key. */
  function Cleve(n: Node, s: nat): (r: Node)
    requires n.Leaf? || n.Extension?
    requires s <= |n.key|
  {
    match n
    case Leaf(k0, v0) => Extension(k0[..s], Leaf(k0[s..], v0))
    case Extension(k0, c) => Extension(k0[..s], Extension(k0[s..], c))
  }

  /** Turns a pair into a branch with one used slot. */
  function BranchOf(n: Node): (r: Node)
    requires n.Leaf? || (n.Extension? && n.key != [])
  {
    if n.key == [] then Branch(NO_SLOTS, n.value)
    else Branch(NO_SLOTS[n.key[0] := Below(n)], [])
  }

  /** A pair without the first nibble of its key; an extension that becomes empty is its child. */
  function Below(n: Node): (r: Node)
    requires (n.Leaf? || n.Extension?) && n.key != []
  {
    match n
    case Leaf(k0, v0) => Leaf(k0[1..], v0)
    case Extension(k0, c) => if |k0| > 1 then Extension(k0[1..], c) else c
  }

  /** Nodes into which an insertion of `k` descends without reshaping them first. */
  predicate Admits(n: Node, k: Nibbles) {
    match n
    case Empty => true
    case Leaf(k0, _) => k0 == k
    case Extension(k0, _) => k0 <= k
    case Branch(_, _) => true
  }

  /** A pair that does not admit `k`, reshaped so that it does. */
  function Reshape(n: Node, k: Nibbles): (r: Node)
    requires WellFormed(n) && !Admits(n, k)
    ensures WellFormed(r) && Admits(r, k)
  {
    var s := Shared(k, n.key);
    if s > 0 then
      assert n.Extension? ==> s < |n.key|;
      Cleve(n, s)
    else BranchOf(n)
  }

  function Inserted(n: Node, k: Nibbles, v: bytes): (r: Node)
    requires WellFormed(n)
    ensures WellFormed(r)
    decreases |k|, if Admits(n, k) then 0 else 1
  {
    if !Admits(n, k) then Inserted(Reshape(n, k), k, v)
    else
      match n
      case Empty => Leaf(k, v)
      case Leaf(k0, v0) => Leaf(k, v)
      case Extension(k0, c) => Extension(k0, Inserted(c, k[|k0|..], v))
      case Branch(slots, v0) =>
        if k == [] then Branch(slots, v)
        else Branch(slots[k[0] := Inserted(slots[k[0]], k[1..], v)], v0)
  }

  // ----------------------------------------------------------------- deletion

  /** The only used slot of a branch, or 255 when there is none or more than one. */
  function UniqueInUse(slots: seq<Node>, value: bytes): (u: nat)
    requires |slots| == 16
    ensures u != 255 ==> u <= 16 && Used(slots, value, u) && forall j :: Used(slots, value, j) ==> j == u
    ensures u == 255 ==> TwoUsed(slots, value) || forall j :: !Used(slots, value, j)
  {
    ScanIsUnique(slots, value, 0, 255);
    UniqueFrom(slots, value, 0, 255)
  }

  /** The scan for a used slot from slot `i` on, having found `used` so far. */
  function UniqueFrom(slots: seq<Node>, value: bytes, i: nat, used: nat): (u: nat)
    requires |slots| == 16
    decreases 17 - i
  {
    if i >= 17 then used
    else if !Used(slots, value, i) then UniqueFrom(slots, value, i + 1, used)
    else if used == 255 then UniqueFrom(slots, value, i + 1, i)
    else 255
  }

  lemma {:induction false} ScanIsUnique(slots: seq<Node>, value: bytes, i: nat, used: nat)
    requires |slots| == 16 && i <= 17
    requires used != 255 ==> used < i && Used(slots, value, used)
    requires forall j :: Used(slots, value, j) && j < i ==> j == used
    ensures
      var u := UniqueFrom(slots, value, i, used);
      && (u != 255 ==> u <= 16 && Used(slots, value, u) && forall j :: Used(slots, value, j) ==> j == u)
      && (u == 255 ==> TwoUsed(slots, value) || forall j :: !Used(slots, value, j))
    decreases 17 - i
  {
    if i < 17 {
      if !Used(slots, value, i) { ScanIsUnique(slots, value, i + 1, used); }
      else if used == 255 { ScanIsUnique(slots, value, i + 1, i); }
    }
  }

  /** The pair of `k` and `c`, with `c` grafted onto it when `c` is a pair itself. */
  function Join(k: Nibbles, c: Node): (r: Node)
    requires c != Empty
  {
    match c
    case Leaf(k1, v1) => Leaf(k + k1, v1)
    case Extension(k1, c1) => Extension(k + k1, c1)
    case Branch(_, _) => Extension(k, c)
  }

  /**
   The outcome of a deletion. `Fault` stands for the places where the code reads
   a nibble past the end of the key or takes a value for the hash of a node.
   */
  datatype Deletion = Absent | Fault | Changed(node: Node)

  /** The values that are taken for the hash of a node. */
  type Hazard = iset<bytes>

  /** A branch after one of its slots was cleared or shrunk. */
  ghost function Rejig(slots: seq<Node>, value: bytes, hz: Hazard): (r: Deletion)
    requires |slots| == 16
  {
    var u := UniqueInUse(slots, value);
    if u == 255 then Changed(Branch(slots, value))
    else if u == 16 then (if value in hz then Fault else Changed(Leaf([], value)))
    else Changed(Join([u], slots[u]))
  }

  ghost function Delete(n: Node, k: Nibbles, hz: Hazard): (r: Deletion)
    requires WellFormed(n)
    decreases n
  {
    match n
    case Empty => Absent
    case Leaf(k0, v0) => if k0 == k then Changed(Empty) else if k0 <= k then Fault else Absent
    case Extension(k0, c) =>
      if k0 <= k then
        var d := Delete(c, k[|k0|..], hz);
        if d.Changed? then (if d.node == Empty then Fault else Changed(Join(k0, d.node))) else d
      else Absent
    case Branch(slots, v0) =>
      if k == [] then (if v0 != [] then Rejig(slots, [], hz) else Fault)
      else
        var d := Delete(slots[k[0]], k[1..], hz);
        if d.Changed? then Rejig(slots[k[0] := d.node], v0, hz) else d
  }
}
