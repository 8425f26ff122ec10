/**
 The files behind a rotating database and what recovery makes of them. Each of
 the `n` files is a database of its own; one of them is marked as current. A file
 that is not on disk is created empty when it is opened.
 */
module Rotation {
  import opened Bytes
  import BigEndian

  /** One database: its pairs, and whether it has the key that marks the current piece. */
  datatype Piece = Piece(data: map<bytes, bytes>, mark: bool)

  const NEW_PIECE: Piece := Piece(map[], false)

  /** The numbered files on disk. */
  type Files = map<nat, Piece>

  predicate Marked(files: Files, i: nat) {
    i in files && files[i].mark
  }

  /** What a file holds once it is opened. */
  function Opened(files: Files, i: nat): Piece {
    if i in files then files[i] else NEW_PIECE
  }

  function Prev(n: nat, i: nat): (j: nat)
    requires i < n
    ensures j < n
  {
    if i == 0 then n - 1 else i - 1
  }

  /** The file in front of `i`, as recovery computes it. */
  lemma {:induction false} PrevMod(n: nat, i: nat)
    requires i < n
    ensures (i + n - 1) % n == Prev(n, i)
  {
    if i == 0 {
      BigEndian.DivModUnique(n - 1, n, 0, n - 1);
    } else {
      BigEndian.DivModUnique(i + n - 1, n, 1, i - 1);
    }
  }

  function Next(n: nat, i: nat): (j: nat)
    requires i < n
    ensures j < n && Prev(n, j) == i
  {
    if i + 1 == n then 0 else i + 1
  }

  // ---------------------------------------------------------------- recovery

  /** One step of recovery: of two neighbouring marks the second one goes. */
  function RecoverAt(files: Files, n: nat, i: nat): Files
    requires i < n
  {
    if Neighbours(files, n, i) then files[i := files[i].(mark := false)] else files
  }

  /** Recovery from file `i` on. */
  function RecoverFrom(files: Files, n: nat, i: nat): Files
    requires i <= n
    decreases n - i
  {
    if i == n then files else RecoverFrom(RecoverAt(files, n, i), n, i + 1)
  }

  /** The same files with the same pairs, and no mark that was not there. */
  ghost predicate FewerMarks(files: Files, files': Files) {
    && files'.Keys == files.Keys
    && (forall i :: i in files ==> files'[i].data == files[i].data)
    && (forall i :: Marked(files', i) ==> Marked(files, i))
  }

  /** Recovery touches marks only, and from file `i` on only. */
  lemma {:induction false} RecoverTouches(files: Files, n: nat, i: nat)
    requires i <= n
    ensures FewerMarks(files, RecoverFrom(files, n, i))
    ensures forall j: nat :: j < i ==> Marked(RecoverFrom(files, n, i), j) == Marked(files, j)
    decreases n - i
  {
    if i < n { RecoverTouches(RecoverAt(files, n, i), n, i + 1); }
  }

  predicate Neighbours(files: Files, n: nat, i: nat)
    requires i < n
  {
    Marked(files, i) && Marked(files, Prev(n, i))
  }

  /** None of the first `i` files is marked together with the one before it. */
  ghost predicate Settled(files: Files, n: nat, i: nat)
    requires i <= n
  {
    forall j: nat :: j < i ==> !Neighbours(files, n, j)
  }

  ghost predicate NoNeighbours(files: Files, n: nat) {
    Settled(files, n, n)
  }

  lemma {:induction false} SettledStep(files: Files, n: nat, i: nat)
    requires i < n && Settled(files, n, i)
    ensures Settled(RecoverAt(files, n, i), n, i + 1)
  {
    var files' := RecoverAt(files, n, i);
    forall j: nat | j < i ensures !Neighbours(files', n, j) { assert !Neighbours(files, n, j); }
  }

  lemma {:induction false} RecoverSettles(files: Files, n: nat, i: nat)
    requires i <= n && Settled(files, n, i)
    ensures NoNeighbours(RecoverFrom(files, n, i), n)
    decreases n - i
  {
    if i < n {
      SettledStep(files, n, i);
      RecoverSettles(RecoverAt(files, n, i), n, i + 1);
    }
  }

  /** Recovery has nothing to do on files that are settled. */
  lemma {:induction false} SettledStays(files: Files, n: nat, i: nat, j: nat)
    requires i <= j <= n && Settled(files, n, j)
    ensures RecoverFrom(files, n, i) == RecoverFrom(files, n, j)
    decreases j - i
  {
    if i < j {
      assert !Neighbours(files, n, i);
      SettledStays(files, n, i + 1, j);
    }
  }

  /** Whatever the marks were, no two neighbours keep theirs, and a second recovery changes nothing. */
  lemma {:induction false} RecoverIdempotent(files: Files, n: nat)
    ensures NoNeighbours(RecoverFrom(files, n, 0), n)
    ensures RecoverFrom(RecoverFrom(files, n, 0), n, 0) == RecoverFrom(files, n, 0)
  {
    RecoverSettles(files, n, 0);
    SettledStays(RecoverFrom(files, n, 0), n, 0, n);
  }

  /** The number of marks that recovery removes. */
  function RecoverSteps(files: Files, n: nat, i: nat): nat
    requires i <= n
    decreases n - i
  {
    if i == n then 0
    else (if Neighbours(files, n, i) then 1 else 0) + RecoverSteps(RecoverAt(files, n, i), n, i + 1)
  }

  /** Recovery that dies before it would remove one mark more than `power`. */
  function RecoverPart(files: Files, n: nat, i: nat, power: nat): Files
    requires i <= n
    decreases n - i
  {
    if i == n then files
    else if !Neighbours(files, n, i) then RecoverPart(files, n, i + 1, power)
    else if power == 0 then files
    else RecoverPart(RecoverAt(files, n, i), n, i + 1, power - 1)
  }

  lemma {:induction false} EnoughIsWhole(files: Files, n: nat, i: nat, power: nat)
    requires i <= n && power >= RecoverSteps(files, n, i)
    ensures RecoverPart(files, n, i, power) == RecoverFrom(files, n, i)
    decreases n - i
  {
    if i < n {
      EnoughIsWhole(RecoverAt(files, n, i), n, i + 1, if Neighbours(files, n, i) then power - 1 else power);
    }
  }

  lemma {:induction false} NoneIsNothing(files: Files, n: nat, i: nat)
    requires i <= n
    ensures RecoverPart(files, n, i, 0) == files
    decreases n - i
  {
    if i < n && !Neighbours(files, n, i) { NoneIsNothing(files, n, i + 1); }
  }

  /** Whatever the marks, recovery that died anywhere and starts again ends as if it had not died. */
  lemma {:induction false} RecoverResumes(files: Files, n: nat, power: nat)
    ensures RecoverFrom(RecoverPart(files, n, 0, power), n, 0) == RecoverFrom(files, n, 0)
  {
    ResumesFrom(files, n, 0, power);
  }

  lemma {:induction false} ResumesFrom(files: Files, n: nat, i: nat, power: nat)
    requires i <= n && Settled(files, n, i)
    ensures RecoverFrom(RecoverPart(files, n, i, power), n, 0) == RecoverFrom(files, n, i)
    decreases n - i
  {
    SettledStays(files, n, 0, i);
    if i < n {
      SettledStep(files, n, i);
      if !Neighbours(files, n, i) {
        ResumesFrom(files, n, i + 1, power);
      } else if power > 0 {
        ResumesFrom(RecoverAt(files, n, i), n, i + 1, power - 1);
      }
    }
  }

  // ------------------------------------------------------- the current piece

  /** The first marked file from `i` on, or file 0 when there is none. */
  function FirstMarked(files: Files, n: nat, i: nat): nat
    requires i <= n
    decreases n - i
  {
    if i == n then 0 else if Marked(files, i) then i else FirstMarked(files, n, i + 1)
  }

  /** The file that opening the database makes current. */
  function Chosen(files: Files, n: nat): nat {
    FirstMarked(RecoverFrom(files, n, 0), n, 0)
  }

  /**
   The marks while `current` is the current file: its own, and possibly that of
   the file it replaced; or none, in a new database.
   */
  ghost predicate Marks(files: Files, n: nat, current: nat) {
    && current < n
    && (forall i :: Marked(files, i) ==> i == current || i == Next(n, current))
    && (Marked(files, current) || (current == 0 && forall i :: !Marked(files, i)))
  }

  lemma {:induction false} StepLeavesCurrent(files: Files, n: nat, current: nat, i: nat)
    requires n >= 3 && i < n && Marks(files, n, current)
    ensures Marks(RecoverAt(files, n, i), n, current)
    ensures Marked(RecoverAt(files, n, i), current) <==> Marked(files, current)
    ensures i == Next(n, current) ==> !Marked(RecoverAt(files, n, i), i)
  {
    var files' := RecoverAt(files, n, i);
    assert !Marked(files, Prev(n, current));
    forall j | Marked(files', j) ensures Marked(files, j) {}
  }

  lemma {:induction false} RecoverLeavesCurrent(files: Files, n: nat, current: nat, i: nat)
    requires n >= 3 && i <= n && Marks(files, n, current)
    ensures Marks(RecoverFrom(files, n, i), n, current)
    ensures Marked(RecoverFrom(files, n, i), current) <==> Marked(files, current)
    ensures i <= Next(n, current) ==> !Marked(RecoverFrom(files, n, i), Next(n, current))
    decreases n - i
  {
    if i < n {
      StepLeavesCurrent(files, n, current, i);
      RecoverLeavesCurrent(RecoverAt(files, n, i), n, current, i + 1);
      RecoverTouches(RecoverAt(files, n, i), n, i + 1);
    }
  }

  lemma {:induction false} FirstIsOnly(files: Files, n: nat, i: nat, current: nat)
    requires i <= current < n && Marked(files, current) && forall j :: Marked(files, j) ==> j == current
    ensures FirstMarked(files, n, i) == current
    decreases n - i
  {
    if i < current { FirstIsOnly(files, n, i + 1, current); }
  }

  lemma {:induction false} FirstOfNone(files: Files, n: nat, i: nat)
    requires i <= n && forall j :: !Marked(files, j)
    ensures FirstMarked(files, n, i) == 0
    decreases n - i
  {
    if i < n { FirstOfNone(files, n, i + 1); }
  }

  /** With three files or more the current file is found again, and is then the only one with a mark. */
  lemma {:induction false} ChoosesCurrent(files: Files, n: nat, current: nat)
    requires n >= 3 && Marks(files, n, current)
    ensures Chosen(files, n) == current
    ensures Marks(RecoverFrom(files, n, 0), n, current)
    ensures Marked(RecoverFrom(files, n, 0), current) <==> Marked(files, current)
    ensures forall i :: Marked(RecoverFrom(files, n, 0), i) ==> i == current
  {
    RecoverLeavesCurrent(files, n, current, 0);
    var files' := RecoverFrom(files, n, 0);
    if Marked(files', current) {
      FirstIsOnly(files', n, 0, current);
    } else {
      FirstOfNone(files', n, 0);
    }
  }

  /** Two files with both marks: the new one is chosen exactly when it is file 1. */
  lemma {:induction false} TwoFilesChooseOne(files: Files)
    requires forall i :: Marked(files, i) <==> i < 2
    ensures Chosen(files, 2) == 1
  {
    var once := RecoverAt(files, 2, 0);
    assert !Marked(once, 0) && Marked(once, 1);
    assert RecoverFrom(files, 2, 0) == RecoverFrom(once, 2, 1) == once;
  }

  /** When both marks are there, the new file is chosen except with two files and file 0 as the new one. */
  lemma {:induction false} NewChosenExactly(files: Files, n: nat, current: nat)
    requires n >= 2 && current < n
    requires forall i :: Marked(files, i) <==> i == current || i == Next(n, current)
    ensures Chosen(files, n) == current <==> n >= 3 || current == 1
  {
    if n >= 3 { ChoosesCurrent(files, n, current); } else { TwoFilesChooseOne(files); }
  }

  // ------------------------------------------------- what opening has to repair

  /** How many of the files from number `i` on are missing. */
  function Missing(files: Files, n: nat, i: nat): nat
    requires i <= n
    decreases n - i
  {
    if i == n then 0 else (if i in files then 0 else 1) + Missing(files, n, i + 1)
  }

  lemma {:induction false} MissingNone(files: Files, n: nat, i: nat)
    requires i <= n
    ensures Missing(files, n, i) == 0 <==> forall j :: i <= j < n ==> j in files
    decreases n - i
  {
    if i < n { MissingNone(files, n, i + 1); }
  }

  lemma {:induction false} MissingSame(files: Files, files': Files, n: nat, i: nat)
    requires i <= n && forall j :: i <= j < n ==> (j in files' <==> j in files)
    ensures Missing(files', n, i) == Missing(files, n, i)
    decreases n - i
  {
    if i < n { MissingSame(files, files', n, i + 1); }
  }

  lemma {:induction false} MissingAdd(files: Files, n: nat, i: nat, no: nat, p: Piece)
    requires i <= no < n && no !in files
    ensures Missing(files[no := p], n, i) == Missing(files, n, i) - 1
    decreases n - i
  {
    if i < no { MissingAdd(files, n, i + 1, no, p); } else { MissingSame(files, files[no := p], n, i + 1); }
  }

  /** The marks of the current file and of the one it replaced are both there. */
  predicate Doubled(files: Files, n: nat, current: nat)
    requires current < n
  {
    Marked(files, current) && Marked(files, Next(n, current))
  }

  /** With the marks of a database there is one to remove at most. */
  lemma {:induction false} StepsOfMarks(files: Files, n: nat, current: nat, i: nat)
    requires n >= 3 && i <= n && Marks(files, n, current)
    ensures RecoverSteps(files, n, i) == if i <= Next(n, current) && Doubled(files, n, current) then 1 else 0
    decreases n - i
  {
    if i < n {
      StepLeavesCurrent(files, n, current, i);
      StepsOfMarks(RecoverAt(files, n, i), n, current, i + 1);
      if Neighbours(files, n, i) { assert i == Next(n, current); }
    }
  }

  /** The number of disk steps that opening takes: missing files are created and a second mark goes. */
  function Need(files: Files, n: nat, current: nat): nat
    requires current < n
  {
    Missing(files, n, 0) + if Doubled(files, n, current) then 1 else 0
  }
}
