/**
 The rotating database as a process over its files: opening, rotating, reading
 and writing. Methods that write to disk more than once take the number of disk
 steps after which the process dies; what memory held is lost then.
 */
module RotatingDb {
  import opened Bytes
  import opened Rotation
  import opened RotationLog
  import BigEndian

  /** An open database: one of the numbered files, or an archived one. */
  datatype Handle = File(no: nat) | Archive(no: nat)

  /** The number of the file at place `k`, counted from the current one. */
  function Place(n: nat, current: nat, k: nat): (i: nat)
    requires current < n && k < n
    ensures i < n
  {
    if current + k < n then current + k else current + k - n
  }

  lemma {:induction false} PlaceMod(n: nat, current: nat, k: nat)
    requires current < n && k < n
    ensures Place(n, current, k) == (current + k) % n
  {
    if current + k < n {
      BigEndian.DivModUnique(current + k, n, 0, current + k);
    } else {
      BigEndian.DivModUnique(current + k, n, 1, current + k - n);
    }
  }

  /** The pairs in the files from the current one on. */
  ghost function ViewOf(files: Files, n: nat, current: nat): (view: View)
    requires current < n
    ensures |view| == n && forall k :: 0 <= k < n ==> view[k] == Opened(files, Place(n, current, k)).data
  {
    seq(n, k requires 0 <= k < n => Opened(files, Place(n, current, k)).data)
  }

  ghost function ArchiveView(archives: seq<Piece>): (view: View)
    ensures |view| == |archives| && forall i :: 0 <= i < |archives| ==> view[i] == archives[i].data
  {
    seq(|archives|, i requires 0 <= i < |archives| => archives[i].data)
  }

  /** The open pieces: the files from the current one on, then the archives from the first one on. */
  ghost predicate InOrder(pieces: seq<Handle>, n: nat, current: nat, archived: nat)
    requires current < n
  {
    && |pieces| == n + archived
    && (forall k :: 0 <= k < n ==> pieces[k] == File(Place(n, current, k)))
    && (forall k :: 0 <= k < archived ==> pieces[n + k] == Archive(k))
  }

  /** Files with the same pairs, whether opened yet or not, give the same view. */
  lemma {:induction false} SameView(files: Files, files': Files, n: nat, current: nat)
    requires current < n && forall i :: 0 <= i < n ==> Opened(files', i).data == Opened(files, i).data
    ensures ViewOf(files', n, current) == ViewOf(files, n, current)
  {
  }

  lemma {:induction false} SameMarks(files: Files, files': Files, n: nat, current: nat)
    requires Marks(files, n, current) && forall i :: Marked(files', i) <==> Marked(files, i)
    ensures Marks(files', n, current)
  {
  }

  /** Marking the file in front of the only marked one. */
  lemma {:induction false} MarksNew(files: Files, files': Files, n: nat, current: nat)
    requires n >= 3 && Marks(files, n, current) && forall i :: Marked(files, i) ==> i == current
    requires forall i :: Marked(files', i) <==> Marked(files, i) || i == Prev(n, current)
    ensures Marks(files', n, Prev(n, current))
  {
    assert Next(n, Prev(n, current)) == current;
  }

  /** Taking the mark of the file that was current before. */
  lemma {:induction false} MarksDropped(files: Files, files': Files, n: nat, current: nat)
    requires n >= 3 && Marks(files, n, current) && Marked(files, current)
    requires forall i :: Marked(files', i) <==> Marked(files, i) && i != Next(n, current)
    ensures Marks(files', n, current) && forall i :: Marked(files', i) ==> i == current
  {
  }

  /** Of two neighbouring marks the second is that of the file which was current before. */
  lemma {:induction false} EnoughOrNothing(files: Files, n: nat, power: nat)
    requires RecoverSteps(files, n, 0) <= 1
    ensures RecoverPart(files, n, 0, power) == if power >= RecoverSteps(files, n, 0) then RecoverFrom(files, n, 0)
      else files
  {
    if power >= RecoverSteps(files, n, 0) { EnoughIsWhole(files, n, 0, power); } else { NoneIsNothing(files, n, 0); }
  }

  lemma {:induction false} AllMissing(n: nat, i: nat)
    requires i <= n
    ensures Missing(map[], n, i) == n - i
    decreases n - i
  {
    if i < n { AllMissing(n, i + 1); }
  }

  lemma {:induction false} OldestGone(files: Files, n: nat, current: nat)
    requires current < n
    ensures ViewOf(files - {Prev(n, current)}, n, current) == Turned(ViewOf(files, n, current), 1)
  {
  }

  lemma {:induction false} NewCurrent(files: Files, n: nat, current: nat)
    requires current < n && Opened(files, Prev(n, current)).data == map[]
    ensures ViewOf(files, n, Prev(n, current)) == Turned(ViewOf(files, n, current), MARK_STEP)
  {
    var a, b := ViewOf(files, n, Prev(n, current)), Turned(ViewOf(files, n, current), MARK_STEP);
    forall k | 0 <= k < n ensures a[k] == b[k] {
      if k > 0 { assert Place(n, Prev(n, current), k) == Place(n, current, k - 1); }
    }
  }

  /** The deque after a rotation: the oldest file went from its end to the front, and to the archives. */
  lemma {:induction false} PiecesTurned(pieces: seq<Handle>, n: nat, current: nat, archived: nat, archiveMode: bool)
    requires n >= 3 && current < n && InOrder(pieces, n, current, archived)
    ensures
      var kept := pieces[..n - 1] + pieces[n..];
      var turned := [File(Prev(n, current))] + (kept + if archiveMode then [Archive(archived)] else []);
      InOrder(turned, n, Prev(n, current), if archiveMode then archived + 1 else archived)
  {
    var kept := pieces[..n - 1] + pieces[n..];
    var turned := [File(Prev(n, current))] + (kept + if archiveMode then [Archive(archived)] else []);
    forall k | 0 <= k < n ensures turned[k] == File(Place(n, Prev(n, current), k)) {
      if k > 0 { assert turned[k] == pieces[k - 1]; }
    }
    forall k | 0 <= k < archived ensures turned[n + k] == Archive(k) {
      assert turned[n + k] == pieces[n + k];
    }
  }

  lemma {:induction false} ArchivedView(archives: seq<Piece>, archiveMode: bool, p: Piece)
    ensures ArchiveView(if archiveMode then archives + [p] else archives)
      == ArchiveView(archives) + if archiveMode then [p.data] else []
  {
  }

  /** The files after the first disk steps of a rotation. */
  function TurnedFiles(files: Files, oldest: nat, power: nat): Files {
    if power == 0 then files
    else if power == 1 then files - {oldest}
    else if power == 2 then files[oldest := NEW_PIECE]
    else files[oldest := Piece(map[], true)]
  }

  /** The steps one after the other. */
  lemma {:induction false} TurnsInSteps(view: View, files: Files, o: nat)
    requires view != []
    ensures Turned(Turned(view, 1), MARK_STEP) == Turned(view, MARK_STEP)
    ensures (files - {o})[o := NEW_PIECE] == files[o := NEW_PIECE]
    ensures files[o := NEW_PIECE][o := Piece(map[], true)] == files[o := Piece(map[], true)]
  {
    var v := Turned(view, 1);
    assert v[..|v| - 1] == view[..|view| - 1];
  }

  /** A rotation before its last step, by a process that is not done with it. */
  function Unfinished(s: State, power: nat): State
    requires s.view != [] && power > 0
  {
    s.(view := Turned(s.view, power), archive := if s.archiving then s.archive + [s.view[|s.view| - 1]] else s.archive,
      alive := false, need := if power == 1 || (power >= MARK_STEP && s.marked) then 1 else 0,
      marked := s.marked || power >= MARK_STEP)
  }

  lemma {:induction false} UnfinishedIs(s: State, power: nat, r: State)
    requires s.view != [] && power > 0 && r.view == Turned(s.view, power) && r.archiving == s.archiving && !r.alive
    requires r.archive == if s.archiving then s.archive + [s.view[|s.view| - 1]] else s.archive
    requires r.need == if power == 1 || (power >= MARK_STEP && s.marked) then 1 else 0
    requires r.marked <==> s.marked || power >= MARK_STEP
    ensures r == Unfinished(s, power)
  {
  }

  lemma {:induction false} FinishedIs(s: State, power: nat)
    requires s.view != [] && power > 0
    ensures After(s.(alive := true), Turn(power)) ==
      if power > MARK_STEP then Unfinished(s, power).(alive := true, need := 0) else Unfinished(s, power)
  {
  }

  /** What opening would have to repair after these steps. */
  lemma {:induction false} TurnedNeed(files: Files, n: nat, current: nat, power: nat)
    requires n >= 3 && Marks(files, n, current) && (forall i :: Marked(files, i) ==> i == current)
    requires (forall i :: 0 <= i < n ==> i in files)
    ensures
      var files', current' := TurnedFiles(files, Prev(n, current), power),
        if power < MARK_STEP then current else Prev(n, current);
      && Need(files', n, current') == (if power == 1 || (power >= MARK_STEP && Marked(files, current)) then 1 else 0)
      && (Marked(files', current') <==> Marked(files, current) || power >= MARK_STEP)
  {
    TurnedMissing(files, n, Prev(n, current), power);
    var o := Prev(n, current);
    var files' := TurnedFiles(files, o, power);
    assert Next(n, o) == current && o != current && Next(n, current) != current;
    forall i ensures Marked(files', i) <==> Marked(files, i) || (power >= MARK_STEP && i == o) {
      TurnedMarked(files, n, current, power, i);
    }
  }

  lemma {:induction false} TurnedMissing(files: Files, n: nat, o: nat, power: nat)
    requires o < n && (forall i :: 0 <= i < n ==> i in files)
    ensures Missing(TurnedFiles(files, o, power), n, 0) == if power == 1 then 1 else 0
  {
    var files' := TurnedFiles(files, o, power);
    MissingNone(files, n, 0);
    if power == 1 {
      assert files'[o := files[o]] == files;
      MissingAdd(files', n, 0, o, files[o]);
    } else {
      MissingNone(files', n, 0);
    }
  }

  lemma {:induction false} TurnedMarked(files: Files, n: nat, current: nat, power: nat, i: nat)
    requires n >= 3 && current < n && (forall i :: Marked(files, i) ==> i == current)
    ensures Marked(TurnedFiles(files, Prev(n, current), power), i) <==>
      Marked(files, i) || (power >= MARK_STEP && i == Prev(n, current))
  {
  }

  method PrevOf(n: nat, i: nat) returns (j: nat)
    requires i < n
    ensures j == Prev(n, i)
  {
    PrevMod(n, i);
    j := (i + n - 1) % n;
  }

  /** The loop of recovery, on any marks, dying before a mark is removed if there is no step left. */
  method RecoverPass(files0: Files, n: nat, power: nat) returns (ok: bool, files: Files)
    ensures files == RecoverPart(files0, n, 0, power) && (ok <==> power >= RecoverSteps(files0, n, 0))
  {
    files := files0;
    var left := power;
    for i := 0 to n
      invariant 0 <= left && RecoverPart(files, n, i, left) == RecoverPart(files0, n, 0, power)
      invariant left + RecoverSteps(files0, n, 0) == power + RecoverSteps(files, n, i)
    {
      var prev := PrevOf(n, i);
      if Marked(files, i) && Marked(files, prev) {
        if left == 0 {
          return false, files;
        }
        files := files[i := files[i].(mark := false)];
        left := left - 1;
      }
    }
    ok := true;
  }

  /** The loop of opening, dying before a file is created if there is no step left. */
  method OpenPass(files0: Files, n: nat, power: nat)
    returns (ok: bool, left: nat, files: Files, pieces: seq<Handle>)
    ensures forall i: nat :: Opened(files, i) == Opened(files0, i)
    ensures forall i: nat :: i in files ==> i in files0 || i < n
    ensures ok ==> |pieces| == n && forall i :: 0 <= i < n ==> pieces[i] == File(i) && i in files
    ensures
      var missing := Missing(files0, n, 0);
      && (ok <==> power >= missing) && Missing(files, n, 0) == (if ok then 0 else missing - power)
      && (ok ==> left == power - missing)
  {
    files, left, pieces := files0, power, [];
    for i := 0 to n
      invariant |pieces| == i && left <= power && forall j: nat :: j in files ==> j in files0 || j < n
      invariant Missing(files, n, 0) + power == Missing(files0, n, 0) + left
      invariant forall j :: 0 <= j < i ==> pieces[j] == File(j) && j in files
      invariant forall j: nat :: Opened(files, j) == Opened(files0, j)
    {
      if i !in files {
        if left == 0 {
          MissingNone(files, n, 0);
          return false, 0, files, pieces;
        }
        MissingAdd(files, n, 0, i, NEW_PIECE);
        files := files[i := NEW_PIECE];
        left := left - 1;
      }
      pieces := pieces + [File(i)];
    }
    MissingNone(files, n, 0);
    ok := true;
  }

  class RotatingDb {
    const n: nat
    const archiveMode: bool

    // on disk
    var files: Files
    var archives: seq<Piece>

    // in memory
    var alive: bool
    var pieces: seq<Handle>
    var current: nat

    /** The current file, also while no process runs. */
    ghost var chosen: nat

    ghost predicate Valid()
      reads this
    {
      && n >= 3 && Marks(files, n, chosen)
      && (forall i :: i in files ==> i < n)
      && (!archiveMode ==> archives == [])
      && (alive ==>
            && current == chosen && InOrder(pieces, n, current, |archives|)
            && (forall i :: 0 <= i < n ==> i in files)
            && (forall i :: Marked(files, i) ==> i == current))
    }

    ghost function Contents(): View
      requires Valid()
      reads this
    {
      ViewOf(files, n, chosen)
    }

    /** The database as the log sees it. */
    ghost function Abs(): (s: State)
      requires Valid()
      reads this
      ensures |s.view| == n
    {
      State(Contents(), ArchiveView(archives), archiveMode, alive, Need(files, n, chosen), Marked(files, chosen))
    }

    /** An open database needs no repair. */
    lemma NothingToRepair()
      requires Valid() && alive
      ensures Need(files, n, chosen) == 0
    {
      MissingNone(files, n, 0);
    }

    /** An empty directory. */
    constructor (n: nat, archiveMode: bool)
      requires n >= 3
      ensures Valid() && this.n == n && Abs() == Fresh(n, archiveMode)
    {
      this.n, this.archiveMode := n, archiveMode;
      files, archives, alive, pieces, current, chosen := map[], [], false, [], 0, 0;
      new;
      AllMissing(n, 0);
      assert Contents() == NoPairs(n);
    }

    /** The process dies between two operations. */
    method Crash()
      requires Valid()
      modifies this`alive
      ensures Valid() && Abs() == After(old(Abs()), RotationLog.Crash)
    {
      alive := false;
    }

    // ------------------------------------------------------------------ opening

    /** Opens the numbered files, creating those that are missing. */
    method OpenFiles(power: nat) returns (ok: bool, left: nat)
      requires Valid() && !alive
      modifies this`files, this`pieces
      ensures Valid() && Contents() == old(Contents())
      ensures forall i :: Marked(files, i) <==> Marked(old(files), i)
      ensures ok ==> |pieces| == n && forall i :: 0 <= i < n ==> pieces[i] == File(i) && i in files
      ensures
        var missing := Missing(old(files), n, 0);
        && (ok <==> power >= missing) && Missing(files, n, 0) == (if ok then 0 else missing - power)
        && (ok ==> left == power - missing)
    {
      ok, left, files, pieces := OpenPass(files, n, power);
      forall i: nat ensures Marked(files, i) <==> Marked(old(files), i) {
        assert Opened(files, i) == Opened(old(files), i);
      }
      SameMarks(old(files), files, n, chosen);
      SameView(old(files), files, n, chosen);
    }

    /** Removes the second of two neighbouring marks. */
    method Recover(power: nat) returns (ok: bool)
      requires Valid() && !alive
      modifies this`files
      ensures Valid() && Contents() == old(Contents()) && FewerMarks(old(files), files)
      ensures if ok then files == RecoverFrom(old(files), n, 0) else files == old(files)
      ensures ok <==> power > 0 || !Doubled(old(files), n, chosen)
    {
      RecoverTouches(files, n, 0);
      ChoosesCurrent(files, n, chosen);
      StepsOfMarks(files, n, chosen, 0);
      EnoughOrNothing(files, n, power);
      ok, files := RecoverPass(files, n, power);
      SameView(old(files), files, n, chosen);
    }

    method FindCurrent() returns (c: nat)
      requires Valid()
      ensures c == FirstMarked(files, n, 0)
    {
      var i := 0;
      while i < n
        invariant i <= n && FirstMarked(files, n, i) == FirstMarked(files, n, 0)
      {
        if Marked(files, i) {
          return i;
        }
        i := i + 1;
      }
      return 0;
    }

    /** Turns the deque until file `c` is in front. */
    method BringToFront(c: nat)
      requires c < n && |pieces| == n && forall i :: 0 <= i < n ==> pieces[i] == File(i)
      modifies this`pieces
      ensures InOrder(pieces, n, c, 0)
    {
      for i := 0 to c
        invariant InOrder(pieces, n, i, 0)
      {
        var turned := pieces[1..] + [pieces[0]];
        forall k | 0 <= k < n ensures turned[k] == File(Place(n, i + 1, k)) {
          if k + 1 < n { assert turned[k] == pieces[k + 1]; }
        }
        pieces := turned;
      }
    }

    method OpenArchives()
      requires current < n && InOrder(pieces, n, current, 0)
      modifies this`pieces
      ensures InOrder(pieces, n, current, |archives|)
    {
      for i := 0 to |archives|
        invariant InOrder(pieces, n, current, i)
      {
        pieces := pieces + [Archive(i)];
      }
    }

    method OpenPieces()
      requires Valid() && !alive && FirstMarked(files, n, 0) < n && |pieces| == n
      requires forall i :: 0 <= i < n ==> pieces[i] == File(i)
      modifies this`pieces, this`current
      ensures current == FirstMarked(files, n, 0) && InOrder(pieces, n, current, |archives|)
    {
      current := FindCurrent();
      BringToFront(current);
      OpenArchives();
    }

    /**
     A new process: the current file is found again, no pair is lost, and one mark
     is left at most. It takes as many disk steps as there is to repair.
     */
    method Reopen(power: nat)
      requires Valid() && !alive
      modifies this`files, this`pieces, this`current, this`alive
      ensures Valid() && Abs() == After(old(Abs()), RotationLog.Reopen(power))
    {
      ghost var s := Abs();
      var ok := Repair(power);
      assert Abs() == s.(need := if power < s.need then s.need - power else 0);
      if ok {
        OpenPieces();
        alive := true;
      }
    }

    /** What opening does on disk: all of it exactly with as many steps as there is to repair. */
    method Repair(power: nat) returns (ok: bool)
      requires Valid() && !alive
      modifies this`files, this`pieces
      ensures Valid() && Contents() == old(Contents()) && (Marked(files, chosen) <==> old(Marked(files, chosen)))
      ensures ok <==> power >= old(Need(files, n, chosen))
      ensures Need(files, n, chosen) == if ok then 0 else old(Need(files, n, chosen)) - power
      ensures ok ==>
        && FirstMarked(files, n, 0) == chosen && |pieces| == n && forall i :: Marked(files, i) ==> i == chosen
      ensures ok ==> forall i :: 0 <= i < n ==> pieces[i] == File(i) && i in files
    {
      var left;
      ok, left := OpenFiles(power);
      if !ok {
        return;
      }
      ghost var files1 := files;
      ok := Recover(left);
      MissingSame(files1, files, n, 0);
      ChoosesCurrent(files1, n, chosen);
    }

    // ----------------------------------------------------------------- rotation

    /** Step 1: the oldest file is archived or removed. */
    method RemoveOldest(oldest: nat)
      requires Valid() && !alive && oldest == Prev(n, chosen) && oldest in files
      modifies this`files, this`archives
      ensures Valid() && files == old(files) - {oldest} && Contents() == Turned(old(Contents()), 1)
      ensures |archives| == if archiveMode then |old(archives)| + 1 else |old(archives)|
      ensures ArchiveView(archives) ==
        if archiveMode then ArchiveView(old(archives)) + [old(Contents())[n - 1]] else ArchiveView(old(archives))
      ensures forall i :: Marked(files, i) <==> Marked(old(files), i)
    {
      OldestGone(files, n, chosen);
      SameMarks(files, files - {oldest}, n, chosen);
      ArchivedView(archives, archiveMode, files[oldest]);
      archives := if archiveMode then archives + [files[oldest]] else archives;
      files := files - {oldest};
    }

    /** Step 2: a new file takes its place. */
    method CreateNew(oldest: nat)
      requires Valid() && !alive && oldest < n && oldest !in files
      modifies this`files
      ensures Valid() && files == old(files)[oldest := NEW_PIECE] && Contents() == old(Contents())
      ensures forall i :: Marked(files, i) <==> Marked(old(files), i)
    {
      SameMarks(files, files[oldest := NEW_PIECE], n, chosen);
      SameView(files, files[oldest := NEW_PIECE], n, chosen);
      files := files[oldest := NEW_PIECE];
    }

    /** Step 3: the new file is marked, and is the current one from now on. */
    method MarkNew(newest: nat)
      requires Valid() && !alive && newest == Prev(n, chosen) && newest in files && files[newest] == NEW_PIECE
      requires forall i :: Marked(files, i) ==> i == chosen
      modifies this`files, this`chosen
      ensures Valid() && chosen == newest && files == old(files)[newest := Piece(map[], true)]
      ensures Contents() == Turned(old(Contents()), MARK_STEP)
    {
      MarksNew(files, files[newest := Piece(map[], true)], n, chosen);
      NewCurrent(files, n, chosen);
      SameView(files, files[newest := Piece(map[], true)], n, newest);
      files := files[newest := Piece(map[], true)];
      chosen := newest;
    }

    /** Steps 1 to 3 on disk, as far as they get. */
    method RotateFiles(oldest: nat, power: nat)
      requires Valid() && !alive && power > 0 && oldest == Prev(n, chosen) && oldest in files
      requires forall i :: Marked(files, i) ==> i == chosen
      modifies this`files, this`archives, this`chosen
      ensures Valid() && chosen == (if power < MARK_STEP then old(chosen) else oldest)
      ensures Contents() == Turned(old(Contents()), power)
      ensures |archives| == if archiveMode then |old(archives)| + 1 else |old(archives)|
      ensures ArchiveView(archives) ==
        if archiveMode then ArchiveView(old(archives)) + [old(Contents())[n - 1]] else ArchiveView(old(archives))
      ensures files == TurnedFiles(old(files), oldest, power)
    {
      TurnsInSteps(Contents(), files, oldest);
      RemoveOldest(oldest);
      if power == 1 {
        return;
      }
      CreateNew(oldest);
      if power == 2 {
        return;
      }
      MarkNew(oldest);
    }

    /** Step 4: the mark of the file that was current goes. */
    method UnmarkOld(no: nat)
      requires Valid() && !alive && no == Next(n, chosen) && no in files && Marked(files, chosen)
      modifies this`files
      ensures Valid() && Contents() == old(Contents()) && files == old(files)[no := old(files)[no].(mark := false)]
      ensures forall i :: Marked(files, i) ==> i == chosen
    {
      MarksDropped(files, files[no := files[no].(mark := false)], n, chosen);
      SameView(files, files[no := files[no].(mark := false)], n, chosen);
      files := files[no := files[no].(mark := false)];
    }

    /**
     A rotation that the process may not live through: it ends in the old state,
     in one without the oldest pairs, or in the new one.
     */
    method Rotate(power: nat)
      requires Valid() && alive
      modifies this
      ensures Valid() && Abs() == After(old(Abs()), Turn(power))
      ensures chosen == if power < MARK_STEP then old(chosen) else Prev(n, old(chosen))
    {
      NothingToRepair();
      alive := false;
      if power > 0 {
        TurnAll(power);
      }
    }

    method TurnAll(power: nat)
      requires Valid() && !alive && power > 0 && current == chosen && InOrder(pieces, n, current, |archives|)
      requires (forall i :: 0 <= i < n ==> i in files) && (forall i :: Marked(files, i) ==> i == current)
      modifies this
      ensures Valid() && Abs() == After(old(Abs()).(alive := true), Turn(power))
      ensures chosen == if power < MARK_STEP then old(chosen) else Prev(n, old(chosen))
    {
      FinishedIs(Abs(), power);
      TurnBoth(power);
      if power > MARK_STEP {
        EndRotation();
      }
    }

    /** The deque and the first three steps on the files. */
    method TurnBoth(power: nat)
      requires Valid() && !alive && power > 0 && current == chosen && InOrder(pieces, n, current, |archives|)
      requires (forall i :: 0 <= i < n ==> i in files) && (forall i :: Marked(files, i) ==> i == current)
      modifies this
      ensures Valid() && Abs() == Unfinished(old(Abs()), power)
      ensures chosen == if power < MARK_STEP then old(chosen) else Prev(n, old(chosen))
      ensures power >= MARK_STEP ==>
        current == chosen && InOrder(pieces, n, current, |archives|) && forall i :: 0 <= i < n ==> i in files
    {
      var oldest := if current == 0 then n - 1 else current - 1;
      TurnPieces(oldest, |archives|);
      TurnFiles(oldest, power);
    }

    method TurnFiles(oldest: nat, power: nat)
      requires Valid() && !alive && power > 0 && oldest == Prev(n, chosen)
      requires (forall i :: 0 <= i < n ==> i in files) && (forall i :: Marked(files, i) ==> i == chosen)
      modifies this`files, this`archives, this`chosen
      ensures Valid() && Abs() == Unfinished(old(Abs()), power)
      ensures chosen == if power < MARK_STEP then old(chosen) else oldest
      ensures |archives| == if archiveMode then |old(archives)| + 1 else |old(archives)|
      ensures power >= MARK_STEP ==> forall i :: 0 <= i < n ==> i in files
    {
      ghost var s := Abs();
      assert s.view[|s.view| - 1] == Contents()[n - 1];
      TurnDisk(oldest, power);
      assert Abs().archive == if s.archiving then s.archive + [s.view[|s.view| - 1]] else s.archive;
      UnfinishedIs(s, power, Abs());
    }

    method TurnDisk(oldest: nat, power: nat)
      requires Valid() && !alive && power > 0 && oldest == Prev(n, chosen)
      requires (forall i :: 0 <= i < n ==> i in files) && (forall i :: Marked(files, i) ==> i == chosen)
      modifies this`files, this`archives, this`chosen
      ensures Valid() && Contents() == Turned(old(Contents()), power)
      ensures chosen == if power < MARK_STEP then old(chosen) else oldest
      ensures |archives| == if archiveMode then |old(archives)| + 1 else |old(archives)|
      ensures ArchiveView(archives) ==
        if archiveMode then ArchiveView(old(archives)) + [old(Contents())[n - 1]] else ArchiveView(old(archives))
      ensures Need(files, n, chosen) == if power == 1 || (power >= MARK_STEP && old(Marked(files, chosen))) then 1
        else 0
      ensures Marked(files, chosen) <==> old(Marked(files, chosen)) || power >= MARK_STEP
      ensures power >= MARK_STEP ==> forall i :: 0 <= i < n ==> i in files
    {
      TurnedNeed(files, n, chosen, power);
      RotateFiles(oldest, power);
    }

    /** The deque: the oldest file leaves its place, goes to the archives, and a new one comes to the front. */
    method TurnPieces(oldest: nat, ghost archived: nat)
      requires Valid() && !alive && current < n && oldest == Prev(n, current) && InOrder(pieces, n, current, archived)
      modifies this`pieces, this`current
      ensures Valid() && Abs() == old(Abs())
      ensures current == oldest && InOrder(pieces, n, oldest, if archiveMode then archived + 1 else archived)
    {
      var archiveNo := |pieces| - n;
      PiecesTurned(pieces, n, current, archiveNo, archiveMode);
      pieces := pieces[..n - 1] + pieces[n..];
      pieces := [File(oldest)] + (pieces + if archiveMode then [Archive(archiveNo)] else []);
      current := oldest;
    }

    method EndRotation()
      requires Valid() && !alive && current == chosen && InOrder(pieces, n, current, |archives|)
      requires Marked(files, chosen) && (forall i :: 0 <= i < n ==> i in files)
      modifies this`files, this`alive
      ensures Valid() && Abs() == old(Abs()).(alive := true, need := 0)
    {
      UnmarkOld(pieces[1].no);
      alive := true;
      NothingToRepair();
    }

    // ----------------------------------------------------------- reads and writes

    /** All pieces in the order of the deque. */
    ghost function All(): (view: View)
      requires Valid()
      reads this
      ensures |view| == n + |archives|
    {
      Contents() + ArchiveView(archives)
    }

    function PieceOf(h: Handle): (p: Piece)
      requires Valid() && alive && (match h case File(i) => i < n case Archive(i) => i < |archives|)
      reads this
    {
      match h
      case File(i) => files[i]
      case Archive(i) => archives[i]
    }

    lemma HandleAt(i: nat)
      requires Valid() && alive && i < |pieces|
      ensures pieces[i] == if i < n then File(Place(n, current, i)) else Archive(i - n)
      ensures i >= n ==> i - n < |archives|
      ensures PieceOf(pieces[i]).data == All()[i]
    {
      if i >= n {
        var k := i - n;
        assert pieces[n + k] == Archive(k);
      }
    }

    method Lookup(key: bytes) returns (v: bytes)
      requires Valid() && alive
      ensures v == Look(All(), key, 0)
    {
      var i := 0;
      while i < |pieces|
        invariant i <= |pieces| && Look(All(), key, i) == Look(All(), key, 0)
      {
        HandleAt(i);
        v := Get(PieceOf(pieces[i]).data, key);
        if v != [] {
          return;
        }
        i := i + 1;
      }
      v := [];
    }

    method Exists(key: bytes) returns (b: bool)
      requires Valid() && alive
      ensures b <==> exists i :: 0 <= i < |All()| && key in All()[i]
    {
      var i := 0;
      while i < |pieces|
        invariant i <= |pieces| && forall j :: 0 <= j < i ==> key !in All()[j]
      {
        HandleAt(i);
        if key in PieceOf(pieces[i]).data {
          return true;
        }
        i := i + 1;
      }
      b := false;
    }

    /** Into the current piece. */
    method Insert(key: bytes, value: bytes)
      requires Valid() && alive
      modifies this`files
      ensures Valid() && Abs() == After(old(Abs()), Put(key, value))
    {
      NothingToRepair();
      var i := pieces[0].no;
      var files' := files[i := files[i].(data := files[i].data[key := value])];
      SameMarks(files, files', n, chosen);
      files := files';
      assert forall j :: Marked(files, j) <==> Marked(old(files), j);
      assert Contents() == old(Contents())[0 := old(Contents())[0][key := value]];
      NothingToRepair();
    }

    /** Out of every piece, from the current one on, as far as the process gets. */
    method Kill(key: bytes, power: nat)
      requires Valid() && alive
      modifies this`files, this`archives, this`alive
      ensures Valid() && Abs() == After(old(Abs()), RotationLog.Kill(key, power))
    {
      NothingToRepair();
      KillPieces(key, power);
      NothingToRepair();
      alive := power >= |pieces|;
    }

    method KillPieces(key: bytes, power: nat)
      requires Valid() && alive
      modifies this`files, this`archives
      ensures Valid() && |archives| == |old(archives)| && (Marked(files, chosen) <==> old(Marked(files, chosen)))
      ensures Contents() == Killed(old(Contents()), key, power)
      ensures ArchiveView(archives) == Killed(ArchiveView(old(archives)), key, Beyond(power, n))
    {
      KillFirst(key, if power < |pieces| then power else |pieces|);
      KilledParts(old(Contents()), ArchiveView(old(archives)), key, power);
      SplitConcat(Contents(), ArchiveView(archives));
    }

    method KillFirst(key: bytes, count: nat)
      requires Valid() && alive && count <= |pieces|
      modifies this`files, this`archives
      ensures Valid() && alive && |archives| == |old(archives)| && All() == Killed(old(All()), key, count)
      ensures Marked(files, chosen) <==> old(Marked(files, chosen))
    {
      ghost var all := All();
      for i := 0 to count
        invariant Valid() && alive && |archives| == |old(archives)|
        invariant All() == Killed(all, key, i) && (Marked(files, chosen) <==> Marked(old(files), chosen))
      {
        KilledOneMore(all, key, i);
        KillIn(i, key);
      }
    }

    method KillIn(i: nat, key: bytes)
      requires Valid() && alive && i < |pieces|
      modifies this`files, this`archives
      ensures Valid() && alive && |archives| == |old(archives)|
      ensures All() == old(All())[i := old(All())[i] - {key}] && (Marked(files, chosen) <==> Marked(old(files), chosen))
    {
      HandleAt(i);
      match pieces[i]
      case File(f) =>
        var files' := files[f := files[f].(data := files[f].data - {key})];
        SameMarks(files, files', n, chosen);
        files := files';
        assert forall j :: Marked(files, j) <==> Marked(old(files), j);
      case Archive(a) =>
        archives := archives[a := archives[a].(data := archives[a].data - {key})];
    }
  }

  lemma {:induction false} KilledOneMore(all: View, key: bytes, i: nat)
    requires i < |all|
    ensures
      var done := Killed(all, key, i);
      Killed(all, key, i + 1) == done[i := done[i] - {key}]
  {
  }

  /** Killing in pieces and archives one behind the other is killing in each. */
  lemma {:induction false} KilledParts(view: View, archive: View, key: bytes, power: nat)
    ensures
      var all := Killed(view + archive, key, if power < |view| + |archive| then power else |view| + |archive|);
      all[..|view|] == Killed(view, key, power) && all[|view|..] == Killed(archive, key, Beyond(power, |view|))
  {
  }

  // ---------------------------------------------------------------------- runs

  /** Plays an event; a process that is dead can only be reopened. */
  method Play(db: RotatingDb, e: Event)
    requires db.Valid()
    modifies db
    ensures db.Valid() && db.Abs() == After(old(db.Abs()), e)
  {
    if db.alive {
      match e
      case Put(k, v) => db.Insert(k, v);
      case Kill(k, power) => db.Kill(k, power);
      case Turn(power) => db.Rotate(power);
      case Crash => db.Crash();
      case Reopen(_) =>
    } else if e.Reopen? {
      db.Reopen(e.power);
    }
  }

  method PlayAll(n: nat, archiveMode: bool, es: seq<Event>) returns (db: RotatingDb)
    requires n >= 3
    ensures fresh(db) && db.Valid() && db.n == n && db.Abs() == Run(Fresh(n, archiveMode), es)
  {
    db := new RotatingDb(n, archiveMode);
    var i := 0;
    assert es[0..] == es;
    while i < |es|
      invariant i <= |es| && fresh(db) && db.Valid() && db.n == n
      invariant Run(db.Abs(), es[i..]) == Run(Fresh(n, archiveMode), es)
    {
      assert es[i..][0] == es[i] && es[i..][1..] == es[i + 1..];
      Play(db, es[i]);
      i := i + 1;
    }
    assert es[|es|..] == [];
  }

  /**
   After any run from an empty directory, with crashes in rotations, kills,
   reopenings and between them, a lookup gives the latest surviving write.
   */
  method LookupAfter(n: nat, es: seq<Event>, key: bytes) returns (up: bool, v: bytes)
    requires n >= 3 && NoEmptyPut(es)
    ensures up <==> Writable(Run(Fresh(n, false), es))
    ensures up ==> v == Recall(RunLog(Nil, Fresh(n, false), es), key, n)
  {
    var db := PlayAll(n, false, es);
    up, v := db.alive, [];
    WritableWhenAlive(Run(Fresh(n, false), es));
    if up {
      v := db.Lookup(key);
      assert db.All() == db.Contents();
      RunLooksUpLatest(n, false, es, key);
    }
  }

  /** In archive mode a pair stays stored over any further run of which no event is about its key. */
  method StoredAfter(n: nat, es: seq<Event>, more: seq<Event>, ghost k: bytes, ghost v: bytes) returns (db: RotatingDb)
    requires n >= 3 && Stored(Run(Fresh(n, true), es), k, v) && NothingAbout(more, k)
    ensures db.Valid() && db.Abs() == Run(Fresh(n, true), es + more) && Stored(db.Abs(), k, v)
  {
    db := PlayAll(n, true, es + more);
    RunConcat(Fresh(n, true), es, more);
    ArchiveKeeps(Run(Fresh(n, true), es), more, k, v);
  }
}
