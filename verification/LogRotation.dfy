/**
  The rotating log: the current file 0 and its backups 1 to 3, each the list of the writes it received. File
  operations succeed, except that renaming a missing file does nothing.
 */
module LogRotation {
  const MAX_LOG_SIZE := 10 * 1024 * 1024
  const MAX_LOG_BACKUPS := 3

  type Files = map<int, seq<string>>

  datatype Log = Log(files: Files, size: nat)

  const EMPTY_LOG := Log(map[0 := []], 0)

  function Renamed(files: Files, i: int, j: int): Files {
    if i in files then (files - {i})[j := files[i]] else files
  }

  function Rotated(files: Files): Files {
    Renamed(Renamed(Renamed(files, 2, 3), 1, 2), 0, 1)[0 := []]
  }

  function Wrote(log: Log, p: string): Log
    requires 0 in log.files
  {
    var rotates := log.size + |p| > MAX_LOG_SIZE;
    var files := if rotates then Rotated(log.files) else log.files;
    Log(files[0 := files[0] + [p]], (if rotates then 0 else log.size) + |p|)
  }

  class RotatingWriter {
    var files: Files
    var size: nat

    constructor ()
      ensures State() == EMPTY_LOG
    {
      files, size := map[0 := []], 0;
    }

    ghost function State(): Log
      reads this
    {
      Log(files, size)
    }

    method Rename(i: int, j: int)
      modifies this`files
      ensures files == Renamed(old(files), i, j)
    {
      if i in files {
        files := (files - {i})[j := files[i]];
      }
    }

    method Rotate()
      modifies this
      ensures files == Rotated(old(files)) && size == 0
    {
      ghost var before := files;
      for i := MAX_LOG_BACKUPS downto 1
        invariant files == match i
                           case 3 => before
                           case 2 => Renamed(before, 2, 3)
                           case _ => Renamed(Renamed(before, 2, 3), 1, 2)
      {
        Rename(i, i + 1);
      }
      Rename(0, 1);
      files := files[0 := []];
      size := 0;
    }

    method Write(p: string)
      requires 0 in files
      modifies this
      ensures 0 in files && State() == Wrote(old(State()), p)
    {
      if size + |p| > MAX_LOG_SIZE {
        Rotate();
      }
      files := files[0 := files[0] + [p]];
      size := size + |p|;
    }
  }

  // ---------- whole runs ----------

  function After(writes: seq<string>): (log: Log)
    ensures 0 in log.files
  {
    if writes == [] then EMPTY_LOG else Wrote(After(writes[..|writes| - 1]), writes[|writes| - 1])
  }

  function Bytes(f: seq<string>): nat {
    if f == [] then 0 else Bytes(f[..|f| - 1]) + |f[|f| - 1]|
  }

  function File(log: Log, i: int): seq<string> {
    if i in log.files then log.files[i] else []
  }

  /** Everything still on disk, oldest first. */
  function Retained(log: Log): seq<string> {
    File(log, 3) + File(log, 2) + File(log, 1) + File(log, 0)
  }

  /** The backups are numbered from 1 without a gap, and there are at most three. */
  ghost predicate Numbered(log: Log)
    ensures Numbered(log) ==> 0 in log.files
  {
    && 0 in log.files
    && (2 in log.files ==> 1 in log.files)
    && (3 in log.files ==> 2 in log.files)
    && (forall i :: i in log.files ==> 0 <= i <= 3)
  }

  /** Backup i + 1 would have overflowed with the first write of the file that replaced it. */
  ghost predicate FullAt(log: Log, i: int) {
    i + 1 in log.files ==> File(log, i) != [] && Bytes(File(log, i + 1)) + |File(log, i)[0]| > MAX_LOG_SIZE
  }

  ghost predicate Full(log: Log) {
    FullAt(log, 0) && FullAt(log, 1) && FullAt(log, 2)
  }

  /** What is on disk is the tail of what was written; something is missing only when there are three backups. */
  ghost predicate KeepsTail(log: Log, writes: seq<string>) {
    && |Retained(log)| <= |writes|
    && writes[|writes| - |Retained(log)|..] == Retained(log)
    && (|Retained(log)| < |writes| ==> 3 in log.files)
  }

  ghost predicate Inv(log: Log, writes: seq<string>) {
    Numbered(log) && Full(log) && KeepsTail(log, writes) && log.size == Bytes(File(log, 0))
  }

  lemma {:induction false} BytesConcat(a: seq<string>, b: seq<string>)
    ensures Bytes(a + b) == Bytes(a) + Bytes(b)
    decreases |b|
  {
    if b == [] {
      assert a + b == a;
    } else {
      assert (a + b)[..|a + b| - 1] == a + b[..|b| - 1];
      BytesConcat(a, b[..|b| - 1]);
    }
  }

  lemma BytesAppend(f: seq<string>, p: string)
    ensures Bytes(f + [p]) == Bytes(f) + |p|
  {
    assert (f + [p])[..|f|] == f;
  }

  /** A rotation shifts every file by one and drops the oldest backup; then the write goes to the current file. */
  lemma WroteFiles(log: Log, p: string)
    requires Numbered(log)
    ensures Numbered(Wrote(log, p))
    ensures var t := Wrote(log, p);
      if log.size + |p| > 10_485_760
      then File(t, 0) == [p] && File(t, 1) == File(log, 0) && File(t, 2) == File(log, 1) && File(t, 3) == File(log, 2)
           && 1 in t.files && (2 in t.files <==> 1 in log.files) && (3 in t.files <==> 2 in log.files)
           && t.size == |p|
      else File(t, 0) == File(log, 0) + [p] && File(t, 1) == File(log, 1) && File(t, 2) == File(log, 2)
           && File(t, 3) == File(log, 3) && (3 in t.files <==> 3 in log.files) && (2 in t.files <==> 2 in log.files)
           && (1 in t.files <==> 1 in log.files) && t.size == log.size + |p|
  {
  }

  /** Dropping a front part and adding a write leaves a tail of the longer history. */
  lemma TailMoves(writes: seq<string>, front: seq<string>, kept: seq<string>, p: string)
    requires |front + kept| <= |writes| && writes[|writes| - |front + kept|..] == front + kept
    ensures (writes + [p])[|writes| - |kept|..] == kept + [p]
  {
    var n := |writes| - |front + kept|;
    assert writes == writes[..n] + (front + kept);
    assert writes + [p] == (writes[..n] + front) + (kept + [p]);
  }

  lemma WroteKeepsTail(log: Log, writes: seq<string>, p: string)
    requires Numbered(log) && KeepsTail(log, writes)
    ensures KeepsTail(Wrote(log, p), writes + [p])
  {
    hide Wrote, File, Numbered;
    var t := Wrote(log, p);
    WroteFiles(log, p);
    if log.size + |p| > MAX_LOG_SIZE {
      var oldest, kept := File(log, 3), File(log, 2) + File(log, 1) + File(log, 0);
      assert Retained(t) == kept + [p];
      Regroup(oldest, File(log, 2), File(log, 1), File(log, 0));
      NoThirdFile(log);
      hide Retained;
      TailMoves(writes, oldest, kept, p);
    } else {
      assert Retained(t) == Retained(log) + [p];
      assert [] + Retained(log) == Retained(log);
      hide Retained;
      TailMoves(writes, [], Retained(log), p);
    }
  }

  lemma Regroup(a: seq<string>, b: seq<string>, c: seq<string>, d: seq<string>)
    ensures a + b + c + d == a + (b + c + d)
  {
  }

  lemma NoThirdFile(log: Log)
    requires Numbered(log)
    ensures 2 !in log.files ==> 3 !in log.files && File(log, 3) == []
  {
  }

  lemma WroteFull(log: Log, p: string)
    requires Numbered(log) && Full(log) && log.size == Bytes(File(log, 0))
    ensures Full(Wrote(log, p)) && Wrote(log, p).size == Bytes(File(Wrote(log, p), 0))
  {
    hide Wrote, File, Numbered;
    WroteFiles(log, p);
    BytesAppend(File(log, 0), p);
    BytesAppend([], p);
    assert [] + [p] == [p] && Bytes([]) == 0;
    hide Bytes;
  }

  lemma WroteInv(log: Log, writes: seq<string>, p: string)
    requires Inv(log, writes)
    ensures Inv(Wrote(log, p), writes + [p])
  {
    assert Numbered(Wrote(log, p)) by { WroteFiles(log, p); }
    hide Full, KeepsTail, Numbered, Wrote, Bytes;
    WroteKeepsTail(log, writes, p);
    WroteFull(log, p);
  }

  /**
    After any sequence of writes: the backups, oldest first, and then the current file hold a tail of everything
    written, each write whole in one file; the size counter is the current file's length.
   */
  lemma {:induction false} LogHoldsTail(writes: seq<string>)
    ensures Inv(After(writes), writes)
  {
    if writes == [] {
    } else {
      var front, p := writes[..|writes| - 1], writes[|writes| - 1];
      LogHoldsTail(front);
      assert writes == front + [p];
      hide Inv, Wrote;
      WroteInv(After(front), front, p);
    }
  }

  /** If anything was ever dropped, more than 20 MB of the most recent output is still there. */
  lemma LossLeavesTwentyMegabytes(writes: seq<string>)
    ensures Retained(After(writes)) == writes || Bytes(Retained(After(writes))) > 20_971_520
  {
    LogHoldsTail(writes);
    var log := After(writes);
    if 3 in log.files {
      BytesConcat(File(log, 3) + File(log, 2) + File(log, 1), File(log, 0));
      BytesConcat(File(log, 3) + File(log, 2), File(log, 1));
      BytesConcat(File(log, 3), File(log, 2));
      FirstIsPart(File(log, 2));
      FirstIsPart(File(log, 0));
      assert FullAt(log, 2) && FullAt(log, 0);
    } else {
      assert writes[0..] == writes;
    }
  }

  lemma {:induction false} FirstIsPart(f: seq<string>)
    requires f != []
    ensures |f[0]| <= Bytes(f)
  {
    if |f| == 1 {
    } else {
      FirstIsPart(f[..|f| - 1]);
    }
  }

  ghost predicate Bounded(log: Log) {
    && Bytes(File(log, 0)) <= 10_485_760 && Bytes(File(log, 1)) <= 10_485_760
    && Bytes(File(log, 2)) <= 10_485_760 && Bytes(File(log, 3)) <= 10_485_760
  }

  lemma WroteBounded(log: Log, p: string)
    requires Numbered(log) && Bounded(log) && log.size == Bytes(File(log, 0)) && |p| <= MAX_LOG_SIZE
    ensures Bounded(Wrote(log, p))
  {
    hide Wrote, File, Numbered;
    WroteFiles(log, p);
    BytesAppend(File(log, 0), p);
    BytesAppend([], p);
    assert [] + [p] == [p] && Bytes([]) == 0;
    hide Bytes;
  }

  /** No file is larger than 10 MB when no single write is. */
  lemma {:induction false} FilesAreBounded(writes: seq<string>)
    requires forall k :: 0 <= k < |writes| ==> |writes[k]| <= 10_485_760
    ensures Bounded(After(writes))
    decreases |writes|
  {
    if writes == [] {
    } else {
      var front, p := writes[..|writes| - 1], writes[|writes| - 1];
      LogHoldsTail(front);
      FilesAreBounded(front);
      hide Wrote, Bounded, KeepsTail, Full;
      WroteBounded(After(front), p);
    }
  }
}
