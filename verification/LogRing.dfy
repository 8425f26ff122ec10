/**
 The ring of log entries of one thread. Room is kept back for the leave entry of
 every scope that has been entered, so that a leave never finds the ring full.
 */
module LogRing {
  import opened RingIndex
  import BigEndian

  const SIZE: nat := 2097152
  const WRAP: nat := 0x1_0000_0000
  const STACK_MAX: nat := 1200

  /** A difference of 32-bit numbers, taken modulo the ring's size. */
  function Distance(get: nat, next: nat): (d: nat)
    requires get < SIZE && next < SIZE
  {
    (if get >= next then get - next else get - next + WRAP) % SIZE
  }

  /** The ring's size divides the range of 32-bit numbers, so that wrapping around does no harm. */
  lemma {:induction false} DistanceIs(get: nat, next: nat)
    requires get < SIZE && next < SIZE
    ensures Distance(get, next) == if get >= next then get - next else get - next + SIZE
  {
    if get >= next {
      BigEndian.DivModUnique(get - next, SIZE, 0, get - next);
    } else {
      BigEndian.DivModUnique(get - next + WRAP, SIZE, 2047, get - next + SIZE);
    }
  }

  /** The distance is what is free besides the place that is always kept empty. */
  lemma {:induction false} DistanceIsFree(freed: nat, put: nat)
    requires freed <= put < freed + SIZE
    ensures Distance(Slot(freed, SIZE), Slot(Slot(put, SIZE) + 1, SIZE)) == freed + SIZE - 1 - put
  {
    SlotStep(put, 1, SIZE);
    SlotStep(0, Slot(put, SIZE), SIZE);
    SlotDistance(freed, put, SIZE);
    DistanceIs(Slot(freed, SIZE), Slot(Slot(put, SIZE) + 1, SIZE));
  }

  const OVERFLOW: nat := 100

  class LogRing {
    const log: array<nat>
    var put: nat
    var get: nat
    var stackPut: nat
    var overflow: nat

    /** All entries ever logged, and how many of them the consumer has given up. */
    ghost var entries: seq<nat>
    ghost var freed: nat

    /** How many entries can still be logged. */
    ghost function Free(): int
      reads this
    {
      freed + SIZE - 1 - |entries|
    }

    ghost function Abs(): Ledger
      reads this
    {
      Ledger(entries, freed, stackPut, false)
    }

    ghost predicate Valid()
      reads this, log
    {
      && log.Length == SIZE && freed <= |entries|
      && put == Slot(|entries|, SIZE) && get == Slot(freed, SIZE)
      && Free() >= stackPut + 1
      && forall j :: freed <= j < |entries| ==> log[Slot(j, SIZE)] == entries[j]
    }

    constructor ()
      ensures Valid() && fresh(log) && Abs() == START
    {
      log := new nat[SIZE];
      put, get, stackPut, overflow, entries, freed := 0, 0, 0, 0, [], 0;
    }

    /** An index that the logging thread has read since its last write; the consumer may have moved on. */
    ghost predicate Seen(g: nat, seen: nat)
      reads this
    {
      seen <= freed && g == Slot(seen, SIZE) && seen + SIZE - 1 - |entries| >= stackPut + 1
    }

    method LoadGet() returns (g: nat, ghost seen: nat)
      requires Valid()
      ensures Seen(g, seen) && seen == freed
    {
      g, seen := get, freed;
    }

    /** The consumer gives up `k` entries. */
    method Advance(k: nat)
      requires Valid() && freed + k <= |entries|
      modifies this`get, this`freed
      ensures Valid() && freed == old(freed) + k
      ensures forall g, s :: old(Seen(g, s)) ==> Seen(g, s)
    {
      SlotAdd(freed, k, SIZE);
      get := Position(get + k, SIZE);
      freed := freed + k;
    }

    method Store(entry: nat, next: nat)
      requires log.Length == SIZE && freed <= |entries| < freed + SIZE - 1 && put == Slot(|entries|, SIZE)
      requires next == Slot(put + 1, SIZE) && get == Slot(freed, SIZE) && Free() >= stackPut + 2
      requires forall j :: freed <= j < |entries| ==> log[Slot(j, SIZE)] == entries[j]
      modifies log, this`put, this`entries
      ensures Valid() && entries == old(entries) + [entry]
    {
      SlotAdd(|entries|, 1, SIZE);
      forall j | freed <= j < |entries| ensures Slot(j, SIZE) != put { SlotDistance(j, |entries|, SIZE); }
      log[put] := entry;
      put := next;
      entries := entries + [entry];
    }

    /** Logs an entry if the room kept back for leaves is not touched. */
    method Put(entry: nat, seenGet: nat, ghost seen: nat)
      requires Valid() && Seen(seenGet, seen)
      modifies this`put, this`overflow, this`entries, log
      ensures Valid()
      ensures entries == if seen + SIZE - 1 - |old(entries)| >= stackPut + 2 then old(entries) + [entry]
        else old(entries)
      ensures overflow == if entries == old(entries) then 100 else old(overflow)
    {
      DistanceIsFree(seen, |entries|);
      var next := Position(put + 1, SIZE);
      if Distance(seenGet, next) < stackPut + 2 {
        overflow := OVERFLOW;
      } else {
        Store(entry, next);
      }
    }

    /** Enters a scope if there is room for its two entries and for all leaves to come. */
    method Enter(entry: nat, seenGet: nat, ghost seen: nat) returns (entered: bool)
      requires Valid() && Seen(seenGet, seen)
      modifies this`put, this`overflow, this`entries, this`stackPut, log
      ensures Valid() && (entered <==> seen + SIZE - 1 - |old(entries)| >= old(stackPut) + 4)
      ensures stackPut == old(stackPut) + if entered then 1 else 0
      ensures entries == if entered then old(entries) + [entry] else old(entries)
      ensures overflow == if entered then old(overflow) else 100
    {
      DistanceIsFree(seen, |entries|);
      var next := Position(put + 1, SIZE);
      entered := Distance(seenGet, next) >= stackPut + 4;
      if entered {
        stackPut := stackPut + 1;
        Store(entry, next);
      } else {
        overflow := OVERFLOW;
      }
    }

    /** Leaves a scope: its entry is always logged. */
    method Leave(entry: nat, seenGet: nat, ghost seen: nat)
      requires Valid() && Seen(seenGet, seen) && 0 < stackPut <= STACK_MAX
      modifies this`put, this`entries, this`stackPut, log
      ensures Valid() && stackPut == old(stackPut) - 1 && entries == old(entries) + [entry]
    {
      DistanceIsFree(seen, |entries|);
      var next := Position(put + 1, SIZE);
      DistanceIs(seenGet, next);
      stackPut := stackPut - 1;
      assert stackPut < STACK_MAX;
      assert next != seenGet;
      Store(entry, next);
    }
  }

  // ---------------------------------------------------------------------- runs

  datatype Kind = LogEntry | EnterScope | LeaveScope

  /** A call of the logging thread, while which the consumer gives up to `consumed` entries. */
  datatype Call = Call(kind: Kind, entry: nat, consumed: nat)

  /** The entries logged and given up, the scopes entered, and whether a leave found the ring full. */
  datatype Ledger = Ledger(entries: seq<nat>, freed: nat, stackPut: nat, full: bool) {
    function Free(): int {
      freed + SIZE - 1 - |entries|
    }

    function Logged(entry: nat): Ledger {
      this.(entries := entries + [entry])
    }

    /** The consumer moves on, not past the last entry. */
    function Consumed(count: nat): Ledger
      requires freed <= |entries|
    {
      this.(freed := if freed + count < |entries| then freed + count else |entries|)
    }
  }

  const START: Ledger := Ledger([], 0, 0, false)

  /** What the program asserts of its callers: a leave has an enter, and no more than 1200 scopes are open. */
  predicate Asserted(l: Ledger, c: Call) {
    c.kind.LeaveScope? ==> 0 < l.stackPut <= STACK_MAX
  }

  /** A call decides by the free slots that it found before the consumer moved on. */
  function Called(l: Ledger, c: Call): Ledger
    requires l.freed <= |l.entries| && Asserted(l, c)
  {
    var free, m := l.Free(), l.Consumed(c.consumed);
    match c.kind
    case LogEntry => if free < l.stackPut + 2 then m else m.Logged(c.entry)
    case EnterScope => if free < l.stackPut + 4 then m else m.Logged(c.entry).(stackPut := l.stackPut + 1)
    case LeaveScope => if free == 0 then m.(full := true) else m.Logged(c.entry).(stackPut := l.stackPut - 1)
  }

  /** Room for the leaves to come, and one slot more. */
  predicate HasRoom(l: Ledger) {
    l.freed <= |l.entries| && l.Free() >= l.stackPut + 1 && !l.full
  }

  predicate AllAsserted(l: Ledger, cs: seq<Call>)
    requires HasRoom(l)
    decreases |cs|
  {
    cs == [] || (Asserted(l, cs[0]) && AllAsserted(Called(l, cs[0]), cs[1..]))
  }

  function CalledAll(l: Ledger, cs: seq<Call>): (r: Ledger)
    requires HasRoom(l) && AllAsserted(l, cs)
    ensures HasRoom(r)
    decreases |cs|
  {
    if cs == [] then l else CalledAll(Called(l, cs[0]), cs[1..])
  }

  /** An empty ring takes 2097150 entries, one for each of its slots but two. */
  lemma {:induction false} FirstEntries(cs: seq<Call>)
    requires |cs| <= 2097150 && forall i :: 0 <= i < |cs| ==> cs[i].kind == LogEntry && cs[i].consumed == 0
    ensures AllAsserted(START, cs) && |CalledAll(START, cs).entries| == |cs|
  {
    PutsAreLogged(START, cs);
  }

  lemma {:induction false} PutsAreLogged(l: Ledger, cs: seq<Call>)
    requires HasRoom(l) && l.freed == 0 && l.stackPut == 0 && |l.entries| + |cs| <= 2097150
    requires forall i :: 0 <= i < |cs| ==> cs[i].kind == LogEntry && cs[i].consumed == 0
    ensures AllAsserted(l, cs) && |CalledAll(l, cs).entries| == |l.entries| + |cs|
    decreases |cs|
  {
    if cs != [] { PutsAreLogged(Called(l, cs[0]), cs[1..]); }
  }

  /** The next one is refused, until the consumer gives up entries. */
  lemma {:induction false} FullRefuses(l: Ledger, entry: nat)
    requires l.freed == 0 && l.stackPut == 0 && |l.entries| == 2097150
    ensures Called(l, Call(LogEntry, entry, 0)) == l
  {
  }

  /** A leave that has an enter is logged, whatever came before it. */
  lemma {:induction false} LeaveLogs(cs: seq<Call>, leave: Call)
    requires leave.kind.LeaveScope? && AllAsserted(START, cs + [leave])
    ensures AllAsserted(START, cs)
    ensures CalledAll(START, cs + [leave]).entries == CalledAll(START, cs).entries + [leave.entry]
  {
    CalledConcat(START, cs, [leave]);
    var l := CalledAll(START, cs);
    assert [leave][1..] == [] && CalledAll(l, [leave]) == Called(l, leave);
  }

  lemma {:induction false} CalledConcat(l: Ledger, cs: seq<Call>, ds: seq<Call>)
    requires HasRoom(l) && AllAsserted(l, cs + ds)
    ensures AllAsserted(l, cs) && AllAsserted(CalledAll(l, cs), ds)
    ensures CalledAll(l, cs + ds) == CalledAll(CalledAll(l, cs), ds)
    decreases |cs|
  {
    if cs == [] {
      assert cs + ds == ds;
    } else {
      assert (cs + ds)[0] == cs[0] && (cs + ds)[1..] == cs[1..] + ds;
      CalledConcat(Called(l, cs[0]), cs[1..], ds);
    }
  }

  /** After every run of puts, enters, matched leaves and consumer steps the free slots exceed the open scopes. */
  lemma {:induction false} RoomThroughout(cs: seq<Call>, i: nat)
    requires i <= |cs| && AllAsserted(START, cs)
    ensures AllAsserted(START, cs[..i])
    ensures
      var l := CalledAll(START, cs[..i]);
      !l.full && l.Free() >= l.stackPut + 1
  {
    assert cs == cs[..i] + cs[i..];
    CalledConcat(START, cs[..i], cs[i..]);
  }

  /** The consumer gives up entries, as many as there are at most. */
  method Consume(ring: LogRing, count: nat)
    requires ring.Valid()
    modifies ring`get, ring`freed
    ensures ring.Valid() && ring.Abs() == old(ring.Abs()).Consumed(count)
    ensures forall g, s :: old(ring.Seen(g, s)) ==> ring.Seen(g, s)
  {
    SlotDistance(ring.freed, |ring.entries|, SIZE);
    var used := if ring.put >= ring.get then ring.put - ring.get else ring.put - ring.get + SIZE;
    ring.Advance(if count < used then count else used);
  }

  method PlayCall(ring: LogRing, c: Call)
    requires ring.Valid() && HasRoom(ring.Abs()) && Asserted(ring.Abs(), c)
    modifies ring, ring.log
    ensures ring.Valid() && ring.Abs() == Called(old(ring.Abs()), c)
  {
    var g, seen := ring.LoadGet();
    Consume(ring, c.consumed);
    match c.kind
    case LogEntry => ring.Put(c.entry, g, seen);
    case EnterScope => var _ := ring.Enter(c.entry, g, seen);
    case LeaveScope => ring.Leave(c.entry, g, seen);
  }

  /** The ring after a run has the entries and the open scopes of the run, and room for their leaves. */
  method Run(cs: seq<Call>) returns (ring: LogRing)
    requires AllAsserted(START, cs)
    ensures ring.Valid() && ring.Abs() == CalledAll(START, cs) && ring.Free() >= ring.stackPut + 1
  {
    ring := new LogRing();
    assert cs[0..] == cs;
    for i := 0 to |cs|
      invariant ring.Valid() && fresh(ring) && fresh(ring.log) && HasRoom(ring.Abs())
      invariant AllAsserted(ring.Abs(), cs[i..]) && CalledAll(ring.Abs(), cs[i..]) == CalledAll(START, cs)
    {
      assert cs[i..][0] == cs[i] && cs[i..][1..] == cs[i + 1..];
      PlayCall(ring, cs[i]);
    }
    assert cs[|cs|..] == [];
  }
}
