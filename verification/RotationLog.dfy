/**
 What a rotating database promises about its writes. The reference is a log of
 all writes, each with its age: the place of the piece that holds it, counted from
 the current one, or at least `n` once that piece is gone.
 */
module RotationLog {
  import opened Bytes

  /** Pieces, the current one first. */
  type View = seq<map<bytes, bytes>>

  /**
   What can happen. An operation with `power` dies after that many disk steps,
   unless it is done by then. A dead process does nothing until it is reopened.
   */
  datatype Event =
    | Put(key: bytes, value: bytes)
    | Kill(key: bytes, power: nat)
    | Turn(power: nat)
    | Crash
    | Reopen(power: nat)

  /** A rotation has a new current piece from this disk step on, and one more step to go. */
  const MARK_STEP: nat := 3

  /**
   The pieces of a database and of its archive, whether a process has it open,
   how many disk steps opening would take, and whether any piece is marked yet.
   */
  datatype State = State(view: View, archive: View, archiving: bool, alive: bool, need: nat, marked: bool)

  function Get(m: map<bytes, bytes>, key: bytes): bytes {
    if key in m then m[key] else []
  }

  /** The first value from piece `i` on that is not empty. */
  function Look(view: View, key: bytes, i: nat): bytes
    requires i <= |view|
    decreases |view| - i
  {
    if i == |view| then [] else if Get(view[i], key) != [] then Get(view[i], key) else Look(view, key, i + 1)
  }

  /** The first `power` pieces without the key. */
  function Killed(view: View, key: bytes, power: nat): (r: View)
    ensures |r| == |view|
    ensures forall i :: 0 <= i < |view| ==> r[i] == if i < power then view[i] - {key} else view[i]
  {
    if view == [] || power == 0 then view else [view[0] - {key}] + Killed(view[1..], key, power - 1)
  }

  function Turned(view: View, power: nat): (r: View)
    requires view != []
    ensures |r| == |view|
  {
    if power == 0 then view
    else if power < MARK_STEP then view[|view| - 1 := map[]]
    else [map[]] + view[..|view| - 1]
  }

  /** The steps that are left for the archive once the pieces are done with. */
  function Beyond(power: nat, n: nat): nat {
    if power < n then 0 else power - n
  }

  function After(s: State, e: Event): (r: State)
    requires s.view != []
    ensures |r.view| == |s.view| && r.archiving == s.archiving
  {
    if !s.alive then
      if !e.Reopen? then s
      else if e.power < s.need then s.(need := s.need - e.power)
      else s.(alive := true, need := 0)
    else
      var n := |s.view|;
      match e
      case Put(k, v) => s.(view := s.view[0 := s.view[0][k := v]])
      case Kill(k, power) =>
        s.(view := Killed(s.view, k, power), archive := Killed(s.archive, k, Beyond(power, n)),
          alive := power >= n + |s.archive|)
      case Turn(power) =>
        s.(view := Turned(s.view, power), alive := power > MARK_STEP, marked := s.marked || power >= MARK_STEP,
          archive := if s.archiving && power > 0 then s.archive + [s.view[n - 1]] else s.archive,
          need := if power == 1 || (power == MARK_STEP && s.marked) then 1 else 0)
      case Crash => s.(alive := false)
      case Reopen(_) => s
  }

  // --------------------------------------------------------------- reference

  datatype Entry = Entry(key: bytes, value: bytes, age: nat)

  datatype Log = Nil | Cons(newest: Entry, older: Log)

  /** How a turn ages an entry: an early crash loses the oldest piece, a later one makes all pieces older. */
  function NewAge(age: nat, power: nat, n: nat): nat {
    if power == 0 then age
    else if power < MARK_STEP then (if age + 1 == n then n else age)
    else age + 1
  }

  function Aged(log: Log, power: nat, n: nat): Log {
    match log
    case Nil => Nil
    case Cons(e, older) => Cons(e.(age := NewAge(e.age, power, n)), Aged(older, power, n))
  }

  /** A kill takes the writes of its key out of the pieces that it reaches. */
  function Unlogged(log: Log, key: bytes, power: nat): Log {
    match log
    case Nil => Nil
    case Cons(e, older) =>
      if e.key == key && e.age < power then Unlogged(older, key, power) else Cons(e, Unlogged(older, key, power))
  }

  function LogAfter(log: Log, s: State, e: Event): Log {
    if !s.alive then log
    else
      match e
      case Put(k, v) => Cons(Entry(k, v, 0), log)
      case Kill(k, power) => Unlogged(log, k, power)
      case Turn(power) => Aged(log, power, |s.view|)
      case _ => log
  }

  /** The value of the latest write, if its piece is still there; older writes do not count. */
  function Recall(log: Log, key: bytes, n: nat): bytes {
    match log
    case Nil => []
    case Cons(e, older) => if e.key == key then (if e.age < n then e.value else []) else Recall(older, key, n)
  }

  /** The value of the latest write of a given age. */
  function LatestAt(log: Log, key: bytes, age: nat): bytes {
    match log
    case Nil => []
    case Cons(e, older) => if e.key == key && e.age == age then e.value else LatestAt(older, key, age)
  }

  ghost predicate NoYounger(log: Log, age: nat) {
    log.Cons? ==> log.newest.age >= age && NoYounger(log.older, age)
  }

  /** Older writes are in older pieces, and no value is empty. */
  ghost predicate Ordered(log: Log) {
    log.Cons? ==> log.newest.value != [] && NoYounger(log.older, log.newest.age) && Ordered(log.older)
  }

  /** Each piece holds the latest writes of its age. */
  ghost predicate Represents(view: View, log: Log) {
    forall a: nat, k :: a < |view| ==> Get(view[a], k) == LatestAt(log, k, a)
  }

  // ------------------------------------------------------- events on the log

  lemma {:induction false} AgedOrder(log: Log, power: nat, n: nat, age: nat)
    requires NoYounger(log, age)
    ensures NoYounger(Aged(log, power, n), NewAge(age, power, n))
  {
    if log.Cons? { AgedOrder(log.older, power, n, age); }
  }

  lemma {:induction false} AgedOrdered(log: Log, power: nat, n: nat)
    requires Ordered(log)
    ensures Ordered(Aged(log, power, n))
  {
    if log.Cons? {
      AgedOrder(log.older, power, n, log.newest.age);
      AgedOrdered(log.older, power, n);
    }
  }

  lemma {:induction false} UnloggedOrdered(log: Log, key: bytes, power: nat, age: nat)
    ensures NoYounger(log, age) ==> NoYounger(Unlogged(log, key, power), age)
    ensures Ordered(log) ==> Ordered(Unlogged(log, key, power))
  {
    if log.Cons? {
      UnloggedOrdered(log.older, key, power, age);
      UnloggedOrdered(log.older, key, power, log.newest.age);
    }
  }

  lemma {:induction false} NoneYoungerThanNew(log: Log)
    ensures NoYounger(log, 0)
  {
    if log.Cons? { NoneYoungerThanNew(log.older); }
  }

  lemma {:induction false} AgedAt(log: Log, power: nat, n: nat, key: bytes, age: nat)
    requires age < n
    ensures
      LatestAt(Aged(log, power, n), key, age) ==
        if power == 0 then LatestAt(log, key, age)
        else if power < MARK_STEP then (if age == n - 1 then [] else LatestAt(log, key, age))
        else (if age == 0 then [] else LatestAt(log, key, age - 1))
  {
    if log.Cons? { AgedAt(log.older, power, n, key, age); }
  }

  lemma {:induction false} UnloggedAt(log: Log, killed: bytes, power: nat, key: bytes, age: nat)
    ensures LatestAt(Unlogged(log, killed, power), key, age) == if key == killed && age < power then []
      else LatestAt(log, key, age)
  {
    if log.Cons? { UnloggedAt(log.older, killed, power, key, age); }
  }

  lemma {:induction false} AfterRepresents(s: State, log: Log, e: Event)
    requires s.view != [] && Represents(s.view, log) && Ordered(log) && (e.Put? ==> e.value != [])
    ensures Represents(After(s, e).view, LogAfter(log, s, e)) && Ordered(LogAfter(log, s, e))
  {
    if s.alive {
      var view := s.view;
      match e
      case Put(_, _) => NoneYoungerThanNew(log);
      case Kill(key, power) =>
        UnloggedOrdered(log, key, power, 0);
        forall a: nat, k | a < |view|
          ensures Get(Killed(view, key, power)[a], k) == LatestAt(Unlogged(log, key, power), k, a)
        {
          UnloggedAt(log, key, power, k, a);
        }
      case Turn(power) =>
        AgedOrdered(log, power, |view|);
        forall a: nat, k | a < |view|
          ensures Get(Turned(view, power)[a], k) == LatestAt(Aged(log, power, |view|), k, a)
        {
          AgedAt(log, power, |view|, k, a);
        }
      case Crash =>
      case Reopen(_) =>
    }
  }

  // ------------------------------------------------------------------- lookup

  lemma {:induction false} LookSkips(view: View, key: bytes, i: nat, j: nat)
    requires i <= j <= |view| && forall a :: i <= a < j ==> Get(view[a], key) == []
    ensures Look(view, key, i) == Look(view, key, j)
    decreases j - i
  {
    if i < j { LookSkips(view, key, i + 1, j); }
  }

  /** Without a write younger than `age` there is none of a younger age. */
  lemma {:induction false} NoneAt(log: Log, key: bytes, age: nat, younger: nat)
    requires NoYounger(log, age) && younger < age
    ensures LatestAt(log, key, younger) == []
  {
    if log.Cons? { NoneAt(log.older, key, age, younger); }
  }

  /** The latest write of a key is the only one that counts for it: it is of the least age. */
  lemma {:induction false} LatestWrite(log: Log, key: bytes) returns (found: bool, w: Entry)
    requires Ordered(log)
    ensures !found ==> (forall a: nat :: LatestAt(log, key, a) == []) && forall n: nat :: Recall(log, key, n) == []
    ensures found ==> w.value != [] && LatestAt(log, key, w.age) == w.value
    ensures found ==> forall a: nat :: a < w.age ==> LatestAt(log, key, a) == []
    ensures found ==> forall n: nat :: Recall(log, key, n) == if w.age < n then w.value else []
  {
    match log
    case Nil => found, w := false, Entry(key, [], 0);
    case Cons(e, older) =>
      if e.key == key {
        found, w := true, e;
        forall a: nat | a < e.age ensures LatestAt(log, key, a) == [] { NoneAt(older, key, e.age, a); }
      } else {
        found, w := LatestWrite(older, key);
        forall a: nat ensures LatestAt(log, key, a) == LatestAt(older, key, a) {}
        forall n: nat ensures Recall(log, key, n) == Recall(older, key, n) {}
      }
  }

  /** Lookup through the pieces finds the latest write, or nothing once that is gone: no older value shows again. */
  lemma {:induction false} LookIsRecall(view: View, log: Log, key: bytes)
    requires Represents(view, log) && Ordered(log)
    ensures Look(view, key, 0) == Recall(log, key, |view|)
  {
    var found, w := LatestWrite(log, key);
    if found && w.age < |view| {
      LookSkips(view, key, 0, w.age);
    } else {
      LookSkips(view, key, 0, |view|);
    }
  }

  // --------------------------------------------------------------------- runs

  function Run(s: State, es: seq<Event>): (r: State)
    requires s.view != []
    ensures |r.view| == |s.view| && r.archiving == s.archiving
    decreases |es|
  {
    if es == [] then s else Run(After(s, es[0]), es[1..])
  }

  /** The log after a run, of which every event happens in the state that the run has come to. */
  function RunLog(log: Log, s: State, es: seq<Event>): Log
    requires s.view != []
    decreases |es|
  {
    if es == [] then log else RunLog(LogAfter(log, s, es[0]), After(s, es[0]), es[1..])
  }

  lemma {:induction false} RunConcat(s: State, es: seq<Event>, more: seq<Event>)
    requires s.view != []
    ensures Run(s, es + more) == Run(Run(s, es), more)
    decreases |es|
  {
    if es == [] {
      assert es + more == more;
    } else {
      assert (es + more)[0] == es[0] && (es + more)[1..] == es[1..] + more;
      RunConcat(After(s, es[0]), es[1..], more);
    }
  }

  ghost predicate NoEmptyPut(es: seq<Event>) {
    forall i :: 0 <= i < |es| && es[i].Put? ==> es[i].value != []
  }

  lemma {:induction false} RunRepresents(s: State, log: Log, es: seq<Event>)
    requires s.view != [] && Represents(s.view, log) && Ordered(log) && NoEmptyPut(es)
    ensures Represents(Run(s, es).view, RunLog(log, s, es)) && Ordered(RunLog(log, s, es))
    decreases |es|
  {
    if es != [] {
      AfterRepresents(s, log, es[0]);
      RunRepresents(After(s, es[0]), LogAfter(log, s, es[0]), es[1..]);
    }
  }

  function NoPairs(n: nat): (view: View)
    ensures |view| == n && forall i :: 0 <= i < n ==> view[i] == map[]
  {
    if n == 0 then [] else [map[]] + NoPairs(n - 1)
  }

  /** An empty directory. */
  function Fresh(n: nat, archiving: bool): State {
    State(NoPairs(n), [], archiving, false, n, false)
  }

  /** After every run, with crashes anywhere, a lookup gives the latest surviving write. */
  lemma {:induction false} RunLooksUpLatest(n: nat, archiving: bool, es: seq<Event>, key: bytes)
    requires n > 0 && NoEmptyPut(es)
    ensures Look(Run(Fresh(n, archiving), es).view, key, 0) == Recall(RunLog(Nil, Fresh(n, archiving), es), key, n)
  {
    var s := Fresh(n, archiving);
    RunRepresents(s, Nil, es);
    LookIsRecall(Run(s, es).view, RunLog(Nil, s, es), key);
  }

  // ------------------------------------------------------- how long a write stays

  /** A rotation begins with its first disk step. */
  predicate Begins(s: State, e: Event) {
    s.alive && e.Turn? && e.power > 0
  }

  /** The rotations that a run begins. */
  function Begun(s: State, es: seq<Event>): nat
    requires s.view != []
    decreases |es|
  {
    if es == [] then 0 else (if Begins(s, es[0]) then 1 else 0) + Begun(After(s, es[0]), es[1..])
  }

  predicate About(e: Event, key: bytes) {
    (e.Put? || e.Kill?) && e.key == key
  }

  ghost predicate NothingAbout(es: seq<Event>, key: bytes) {
    forall i :: 0 <= i < |es| ==> !About(es[i], key)
  }

  /** An entry for `key` of at most this age, and no later one. */
  ghost predicate HasRecent(log: Log, key: bytes, value: bytes, age: nat) {
    log.Cons? && if log.newest.key == key then log.newest.value == value && log.newest.age <= age
                 else HasRecent(log.older, key, value, age)
  }

  lemma {:induction false} RecentAged(log: Log, key: bytes, value: bytes, age: nat, power: nat, n: nat)
    requires HasRecent(log, key, value, age) && (power > 0 ==> age + 1 < n)
    ensures HasRecent(Aged(log, power, n), key, value, age + if power > 0 then 1 else 0)
  {
    if log.newest.key != key { RecentAged(log.older, key, value, age, power, n); }
  }

  lemma {:induction false} RecentUnlogged(log: Log, key: bytes, value: bytes, age: nat, killed: bytes, power: nat)
    requires HasRecent(log, key, value, age) && killed != key
    ensures HasRecent(Unlogged(log, killed, power), key, value, age)
  {
    if log.newest.key != key { RecentUnlogged(log.older, key, value, age, killed, power); }
  }

  lemma {:induction false} RecentStays(log: Log, s: State, key: bytes, value: bytes, age: nat, e: Event)
    requires s.view != [] && HasRecent(log, key, value, age) && !About(e, key)
    requires Begins(s, e) ==> age + 1 < |s.view|
    ensures HasRecent(LogAfter(log, s, e), key, value, age + if Begins(s, e) then 1 else 0)
  {
    if s.alive {
      match e
      case Kill(k, power) => RecentUnlogged(log, key, value, age, k, power);
      case Turn(power) => RecentAged(log, key, value, age, power, |s.view|);
      case _ =>
    }
  }

  lemma {:induction false} RecentRecalled(log: Log, key: bytes, value: bytes, age: nat, n: nat)
    requires HasRecent(log, key, value, age) && age < n
    ensures Recall(log, key, n) == value
  {
    if log.newest.key != key { RecentRecalled(log.older, key, value, age, n); }
  }

  lemma {:induction false} RecentRun(log: Log, s: State, key: bytes, value: bytes, age: nat, es: seq<Event>)
    requires s.view != [] && HasRecent(log, key, value, age) && age + Begun(s, es) < |s.view| && NothingAbout(es, key)
    ensures HasRecent(RunLog(log, s, es), key, value, age + Begun(s, es))
    decreases |es|
  {
    if es != [] {
      RecentStays(log, s, key, value, age, es[0]);
      RecentRun(LogAfter(log, s, es[0]), After(s, es[0]), key, value, age + (if Begins(s, es[0]) then 1 else 0),
        es[1..]);
    }
  }

  /** A write is found for as long as fewer than `n` rotations were begun after it, whatever crashed and when. */
  lemma {:induction false} WriteSurvives(s: State, log: Log, key: bytes, value: bytes, es: seq<Event>)
    requires s.view != [] && s.alive && Represents(s.view, log) && Ordered(log) && value != [] && NoEmptyPut(es)
    requires NothingAbout(es, key) && Begun(After(s, Put(key, value)), es) < |s.view|
    ensures Look(Run(After(s, Put(key, value)), es).view, key, 0) == value
  {
    var s', log' := After(s, Put(key, value)), LogAfter(log, s, Put(key, value));
    AfterRepresents(s, log, Put(key, value));
    RunRepresents(s', log', es);
    RecentRun(log', s', key, value, 0, es);
    RecentRecalled(RunLog(log', s', es), key, value, Begun(s', es), |s.view|);
    LookIsRecall(Run(s', es).view, RunLog(log', s', es), key);
  }

  // ------------------------------------------------------------- kills that die

  predicate Holds(view: View, key: bytes, i: nat) {
    i < |view| && Get(view[i], key) != []
  }

  /** The piece that answers for a key, or the number of pieces. */
  function Answerer(view: View, key: bytes, i: nat): (j: nat)
    requires i <= |view|
    ensures i <= j <= |view| && (j < |view| ==> Holds(view, key, j)) && forall k :: i <= k < j ==> !Holds(view, key, k)
    ensures Look(view, key, i) == if j < |view| then Get(view[j], key) else []
    decreases |view| - i
  {
    if i == |view| || Get(view[i], key) != [] then i else Answerer(view, key, i + 1)
  }

  /** The kill never lets an older piece answer: the piece that did answers still, or none does. */
  ghost predicate NeverStale(view: View, key: bytes) {
    forall power: nat :: Answerer(Killed(view, key, power), key, 0) in {Answerer(view, key, 0), |view|}
  }

  lemma {:induction false} AnswererAfterKill(view: View, key: bytes, power: nat, j: nat)
    requires j <= |view| && power <= j && (j < |view| ==> Holds(view, key, j))
    requires forall k :: power <= k < j ==> !Holds(view, key, k)
    ensures Answerer(Killed(view, key, power), key, 0) == j
  {
    var r := Killed(view, key, power);
    forall k | 0 <= k < j ensures !Holds(r, key, k) {
      if k >= power { assert r[k] == view[k] && !Holds(view, key, k); }
    }
    if j < |view| { assert Holds(r, key, j); }
  }

  /** No crash in a kill shows an older value exactly when at most one piece holds the key. */
  lemma {:induction false} NeverStaleExactly(view: View, key: bytes)
    ensures NeverStale(view, key) <==> forall i: nat, j: nat :: Holds(view, key, i) && Holds(view, key, j) ==> i == j
  {
    var a := Answerer(view, key, 0);
    if a == |view| {
      forall power: nat ensures Answerer(Killed(view, key, power), key, 0) == |view| {
        var r := Killed(view, key, power);
        var b := Answerer(r, key, 0);
        if b < |view| { assert Holds(view, key, b); }
      }
    } else {
      var b := Answerer(view, key, a + 1);
      if b < |view| {
        AnswererAfterKill(view, key, a + 1, b);
        assert Holds(view, key, a) && Holds(view, key, b);
      } else {
        OnlyOneHolds(view, key, a);
      }
    }
  }

  lemma {:induction false} OnlyOneHolds(view: View, key: bytes, a: nat)
    requires Holds(view, key, a) && forall k: nat :: Holds(view, key, k) ==> k == a
    ensures NeverStale(view, key)
  {
    AnswererIs(view, key, a);
    forall power: nat ensures Answerer(Killed(view, key, power), key, 0) in {a, |view|} {
      OnlyOneKilled(view, key, a, power);
    }
  }

  lemma {:induction false} AnswererIs(view: View, key: bytes, a: nat)
    requires Holds(view, key, a) && forall k: nat :: Holds(view, key, k) ==> k == a
    ensures Answerer(view, key, 0) == a
  {
    var c := Answerer(view, key, 0);
  }

  lemma {:induction false} OnlyOneKilled(view: View, key: bytes, a: nat, power: nat)
    requires Holds(view, key, a) && forall k: nat :: Holds(view, key, k) ==> k == a
    ensures Answerer(Killed(view, key, power), key, 0) in {a, |view|}
  {
    var b := Answerer(Killed(view, key, power), key, 0);
    if b < |view| { assert Holds(view, key, b); }
  }

  /** A kill that gets to its end leaves nothing, also after one that did not. */
  lemma {:induction false} KillDone(view: View, key: bytes, power: nat)
    requires power >= |view|
    ensures Look(Killed(view, key, power), key, 0) == []
  {
    var a := Answerer(Killed(view, key, power), key, 0);
  }

  /** A run in which it happens: a value that was overwritten after a rotation shows again. */
  lemma {:induction false} StaleExample(n: nat, key: bytes, older: bytes, newer: bytes)
    requires n >= 2 && older != [] && newer != []
    ensures
      var s := Fresh(n, false);
      Look(Run(s, [Reopen(n), Put(key, older), Turn(MARK_STEP + 1), Put(key, newer), Kill(key, 1), Reopen(0)]).view,
        key, 0) == older
  {
    var s0 := After(Fresh(n, false), Reopen(n));
    var s1 := After(s0, Put(key, older));
    var s2 := After(s1, Turn(MARK_STEP + 1));
    var s3 := After(s2, Put(key, newer));
    var s4 := After(s3, Kill(key, 1));
    assert s2.view[1] == s1.view[0] && s3.view[1] == s2.view[1] && s4.view[1] == s3.view[1];
    assert Get(s4.view[0], key) == [] && Get(s4.view[1], key) == older;
    assert Look(s4.view, key, 0) == Look(s4.view, key, 1) == older;
    RunSix(Fresh(n, false), Reopen(n), Put(key, older), Turn(MARK_STEP + 1), Put(key, newer), Kill(key, 1), Reopen(0));
  }

  lemma {:induction false} RunCons(s: State, e: Event, es: seq<Event>)
    requires s.view != []
    ensures Run(s, [e] + es) == Run(After(s, e), es)
  {
    assert ([e] + es)[1..] == es;
  }

  lemma {:induction false} RunSix(s: State, a: Event, b: Event, c: Event, d: Event, e: Event, f: Event)
    requires s.view != []
    ensures Run(s, [a, b, c, d, e, f]) == After(After(After(After(After(After(s, a), b), c), d), e), f)
  {
    var s1 := After(s, a);
    var s2 := After(s1, b);
    var s3 := After(s2, c);
    assert [a, b, c, d, e, f] == [a] + ([b] + ([c] + ([d] + ([e] + ([f] + [])))));
    RunCons(s, a, [b] + ([c] + ([d] + ([e] + ([f] + [])))));
    RunCons(s1, b, [c] + ([d] + ([e] + ([f] + []))));
    RunCons(s2, c, [d] + ([e] + ([f] + [])));
    RunCons(s3, d, [e] + ([f] + []));
    RunCons(After(s3, d), e, [f] + []);
    RunCons(After(After(s3, d), e), f, []);
  }

  // ------------------------------------------------------- when a write gets in

  /** Whatever is written next is found. */
  ghost predicate Writable(s: State)
    requires s.view != []
  {
    forall key, value :: value != [] ==> Look(After(s, Put(key, value)).view, key, 0) == value
  }

  lemma {:induction false} WritableWhenAlive(s: State)
    requires s.view != []
    ensures Writable(s) <==> s.alive
  {
    if !s.alive {
      var value := Look(s.view, [], 0) + [0];
      assert Look(After(s, Put([], value)).view, [], 0) != value;
    }
  }

  /** After a kill a write gets in exactly if the kill reached every piece and archive. */
  lemma {:induction false} WritableAfterKill(s: State, key: bytes, power: nat)
    requires s.view != [] && Writable(s)
    ensures Writable(After(s, Kill(key, power))) <==> power >= |s.view| + |s.archive|
  {
    WritableWhenAlive(s);
    WritableWhenAlive(After(s, Kill(key, power)));
  }

  /** After a rotation, exactly if it made all of its four disk steps. */
  lemma {:induction false} WritableAfterTurn(s: State, power: nat)
    requires s.view != [] && Writable(s)
    ensures Writable(After(s, Turn(power))) <==> power >= 4
  {
    WritableWhenAlive(s);
    WritableWhenAlive(After(s, Turn(power)));
  }

  /** After a write, and after opening what is open, it still does; after a crash it does not. */
  lemma {:induction false} WritableAfterOthers(s: State, key: bytes, value: bytes, power: nat)
    requires s.view != [] && Writable(s)
    ensures Writable(After(s, Put(key, value))) && Writable(After(s, Reopen(power))) && !Writable(After(s, Crash))
  {
    WritableWhenAlive(s);
    WritableWhenAlive(After(s, Put(key, value)));
    WritableWhenAlive(After(s, Reopen(power)));
    WritableWhenAlive(After(s, Crash));
  }

  /** When no write gets in, nothing changes any pair; only opening, with all steps it needs, makes an end of that. */
  lemma {:induction false} NothingGetsIn(s: State, e: Event)
    requires s.view != [] && !Writable(s)
    ensures After(s, e).view == s.view && After(s, e).archive == s.archive
    ensures Writable(After(s, e)) <==> e.Reopen? && e.power >= s.need
  {
    WritableWhenAlive(s);
    WritableWhenAlive(After(s, e));
  }

  /** A kill reaches the pieces and then the archives, as many as it has steps, and takes out the key only. */
  lemma {:induction false} KillReaches(s: State, key: bytes, power: nat, i: nat)
    requires s.view != [] && Writable(s) && i < |s.view| + |s.archive|
    ensures
      var s', all := After(s, Kill(key, power)), s.view + s.archive;
      && |s'.view + s'.archive| == |all|
      && (s'.view + s'.archive)[i] == if i < power then all[i] - {key} else all[i]
  {
    WritableWhenAlive(s);
  }

  /** One that gets to its end leaves no value of the key anywhere. */
  lemma {:induction false} KilledIsGone(s: State, key: bytes, power: nat, v: bytes)
    requires s.view != [] && Writable(s) && power >= |s.view| + |s.archive|
    ensures !Stored(After(s, Kill(key, power)), key, v)
  {
    WritableWhenAlive(s);
    var s' := After(s, Kill(key, power));
    if Stored(s', key, v) {
      var i := PlaceOf(s', key, v);
      KillReaches(s, key, power, i);
    }
  }

  // ------------------------------------------------------------------ archiving

  /** A pair is in some piece or in the archive. */
  ghost predicate Stored(s: State, k: bytes, v: bytes) {
    exists m :: m in s.view + s.archive && k in m && m[k] == v
  }

  lemma {:induction false} StoredAt(s: State, i: nat, k: bytes, v: bytes)
    requires if i < |s.view| then k in s.view[i] && s.view[i][k] == v
      else i - |s.view| < |s.archive| && k in s.archive[i - |s.view|] && s.archive[i - |s.view|][k] == v
    ensures Stored(s, k, v)
  {
    var m := if i < |s.view| then s.view[i] else s.archive[i - |s.view|];
    assert m in s.view + s.archive;
  }

  lemma {:induction false} PlaceOf(s: State, k: bytes, v: bytes) returns (i: nat)
    requires Stored(s, k, v)
    ensures if i < |s.view| then k in s.view[i] && s.view[i][k] == v
      else i - |s.view| < |s.archive| && k in s.archive[i - |s.view|] && s.archive[i - |s.view|][k] == v
  {
    var all := s.view + s.archive;
    var m :| m in all && k in m && m[k] == v;
    i :| i < |all| && all[i] == m;
  }

  lemma {:induction false} TurnKeeps(s: State, power: nat, k: bytes, v: bytes, i: nat)
    requires s.view != [] && s.archiving && s.alive && power > 0
    requires if i < |s.view| then k in s.view[i] && s.view[i][k] == v
      else i - |s.view| < |s.archive| && k in s.archive[i - |s.view|] && s.archive[i - |s.view|][k] == v
    ensures Stored(After(s, Turn(power)), k, v)
  {
    var n, s' := |s.view|, After(s, Turn(power));
    if i == n - 1 {
      assert s'.archive[|s.archive|] == s.view[i];
      StoredAt(s', n + |s.archive|, k, v);
    } else if i < n && power >= MARK_STEP {
      assert s'.view[i + 1] == s.view[i];
      StoredAt(s', i + 1, k, v);
    } else {
      StoredAt(s', i, k, v);
    }
  }

  lemma {:induction false} AfterKeeps(s: State, e: Event, k: bytes, v: bytes)
    requires s.view != [] && s.archiving && Stored(s, k, v) && !About(e, k)
    ensures Stored(After(s, e), k, v)
  {
    var i := PlaceOf(s, k, v);
    if Begins(s, e) {
      TurnKeeps(s, e.power, k, v, i);
    } else {
      QuietKeeps(s, e, k, v, i);
      StoredAt(After(s, e), i, k, v);
    }
  }

  /** Without a rotation a pair stays in its place. */
  lemma {:induction false} QuietKeeps(s: State, e: Event, k: bytes, v: bytes, i: nat)
    requires s.view != [] && !About(e, k) && !Begins(s, e)
    requires if i < |s.view| then k in s.view[i] && s.view[i][k] == v
      else i - |s.view| < |s.archive| && k in s.archive[i - |s.view|] && s.archive[i - |s.view|][k] == v
    ensures
      var s' := After(s, e);
      if i < |s.view| then k in s'.view[i] && s'.view[i][k] == v
      else i - |s.view| < |s'.archive| && k in s'.archive[i - |s.view|] && s'.archive[i - |s.view|][k] == v
  {
  }

  /** In archive mode no pair is lost over any run that does not write or kill its key. */
  lemma {:induction false} ArchiveKeeps(s: State, es: seq<Event>, k: bytes, v: bytes)
    requires s.view != [] && s.archiving && Stored(s, k, v) && NothingAbout(es, k)
    ensures Stored(Run(s, es), k, v)
    decreases |es|
  {
    if es != [] {
      AfterKeeps(s, es[0], k, v);
      ArchiveKeeps(After(s, es[0]), es[1..], k, v);
    }
  }
}
