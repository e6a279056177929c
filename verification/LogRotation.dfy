/** The rotating event log: one live file and numbered backups, 1 the most recent. */
module LogRotation {
  import opened Bytes

  /** A line without its newline. */
  type Line = bytes

  /** The files present, by number; 0 is the live file. */
  type Files = map<nat, seq<Line>>

  datatype Config = Config(backups: nat, maxBytes: nat) {
    predicate Valid() { maxBytes > 0 }
  }

  function Size(lines: seq<Line>): nat {
    if lines == [] then 0 else Size(lines[..|lines| - 1]) + |lines[|lines| - 1]| + 1
  }

  /** The bytes of a file: every line with its newline. */
  function Text(lines: seq<Line>): bytes {
    if lines == [] then [] else lines[0] + Ascii("\n") + Text(lines[1..])
  }

  lemma {:induction false} TextConcat(a: seq<Line>, b: seq<Line>)
    ensures Text(a + b) == Text(a) + Text(b)
  {
    if a == [] {
      assert a + b == b;
    } else {
      assert (a + b)[1..] == a[1..] + b;
      TextConcat(a[1..], b);
    }
  }

  /** The size that decides about rotation is the number of bytes on disk. */
  lemma {:induction false} SizeIsLength(lines: seq<Line>)
    ensures Size(lines) == |Text(lines)|
    decreases |lines|
  {
    if lines != [] {
      var n := |lines| - 1;
      SizeIsLength(lines[..n]);
      TextConcat(lines[..n], [lines[n]]);
      assert lines == lines[..n] + [lines[n]];
    }
  }

  function Content(files: Files, i: nat): seq<Line> {
    if i in files then files[i] else []
  }

  /** Backup `n` and everything newer, oldest first. */
  function Kept(files: Files, n: nat): seq<Line> {
    Content(files, n) + if n == 0 then [] else Kept(files, n - 1)
  }

  function Numbers(backups: nat): (r: set<nat>)
    ensures forall i: nat :: i in r <==> i <= backups
  {
    {backups} + if backups == 0 then {} else Numbers(backups - 1)
  }

  /** What rotation leaves: every file one number higher, the oldest backup gone. */
  function Rotated(files: Files, backups: nat): Files {
    map i | i in Numbers(backups) && i >= 1 && i - 1 in files :: files[i - 1]
  }

  /** One event: the line goes to the live file, which rotates once it is large enough. */
  function Logged(cfg: Config, files: Files, line: Line): Files {
    var live := Content(files, 0) + [line];
    var appended := files[0 := live];
    if Size(live) >= cfg.maxBytes && cfg.backups > 0 then Rotated(appended, cfg.backups) else appended
  }

  function LogAll(cfg: Config, lines: seq<Line>): Files {
    if lines == [] then map[] else Logged(cfg, LogAll(cfg, lines[..|lines| - 1]), lines[|lines| - 1])
  }

  // ---- What is kept ----

  /** Complete files only: no gaps, every backup reached the limit with its last line and not before. */
  ghost predicate WellFormed(cfg: Config, files: Files) {
    Backed(cfg, files) && (cfg.backups > 0 ==> Size(Content(files, 0)) < cfg.maxBytes)
  }

  ghost predicate Backed(cfg: Config, files: Files) {
    && (forall i :: i in files ==> i <= cfg.backups)
    && (forall i, j :: 1 <= i < j && j in files ==> i in files)
    && (forall i :: i in files && i >= 1 ==> Full(cfg, files[i]))
  }

  ghost predicate Full(cfg: Config, lines: seq<Line>) {
    lines != [] && Size(lines[..|lines| - 1]) < cfg.maxBytes <= Size(lines)
  }

  lemma {:induction false} KeptAppend(files: Files, line: Line, n: nat)
    ensures Kept(files[0 := Content(files, 0) + [line]], n) == Kept(files, n) + [line]
  {
    var files' := files[0 := Content(files, 0) + [line]];
    if n > 0 {
      KeptAppend(files, line, n - 1);
      assert Content(files', n) == Content(files, n);
    }
  }

  lemma {:induction false} KeptShift(files: Files, backups: nat, n: nat)
    requires 0 < n <= backups
    ensures Kept(Rotated(files, backups), n) == Kept(files, n - 1)
  {
    var r := Rotated(files, backups);
    assert Content(r, n) == Content(files, n - 1);
    if n == 1 {
      assert Content(r, 0) == [];
    } else {
      KeptShift(files, backups, n - 1);
    }
  }

  /** Rotation loses exactly the lines of the oldest backup. */
  lemma RotationDropsTheOldest(files: Files, backups: nat)
    requires backups > 0
    ensures Kept(files, backups) == Content(files, backups) + Kept(Rotated(files, backups), backups)
  {
    KeptShift(files, backups, backups);
  }

  /** What logging `line` loses. */
  function Lost(cfg: Config, files: Files, line: Line): seq<Line> {
    if Size(Content(files, 0) + [line]) >= cfg.maxBytes && cfg.backups > 0 then Content(files, cfg.backups) else []
  }

  function Dropped(cfg: Config, lines: seq<Line>): seq<Line> {
    if lines == [] then []
    else
      var before := lines[..|lines| - 1];
      Dropped(cfg, before) + Lost(cfg, LogAll(cfg, before), lines[|lines| - 1])
  }

  lemma RotatedBacked(cfg: Config, files: Files)
    requires cfg.backups > 0 && Backed(cfg, files) && 0 in files && Full(cfg, files[0])
    ensures Backed(cfg, Rotated(files, cfg.backups))
    ensures cfg.backups in files ==> cfg.backups in Rotated(files, cfg.backups)
  {
    hide Full;
    var r := Rotated(files, cfg.backups);
    forall i, j | 1 <= i < j && j in r ensures i in r {
      assert j - 1 in files && (i > 1 ==> i - 1 in files);
    }
  }

  lemma LoggedWellFormed(cfg: Config, files: Files, line: Line)
    requires cfg.Valid() && WellFormed(cfg, files)
    ensures WellFormed(cfg, Logged(cfg, files, line))
    ensures cfg.backups > 0 && cfg.backups in files ==> cfg.backups in Logged(cfg, files, line)
  {
    var live := Content(files, 0) + [line];
    var appended := files[0 := live];
    assert Backed(cfg, appended) by { hide Full, Size; }
    if Size(live) >= cfg.maxBytes && cfg.backups > 0 {
      assert Full(cfg, live) by { assert live[..|live| - 1] == Content(files, 0); }
      hide Full, Backed, Size;
      RotatedBacked(cfg, appended);
      assert Content(Rotated(appended, cfg.backups), 0) == [];
      assert Size([]) == 0 by { NoBytes(); }
    }
  }

  lemma NoBytes()
    ensures Size([]) == 0
  {
  }

  lemma LoggedKeeps(cfg: Config, files: Files, line: Line)
    requires cfg.Valid() && WellFormed(cfg, files)
    ensures Lost(cfg, files, line) + Kept(Logged(cfg, files, line), cfg.backups) == Kept(files, cfg.backups) + [line]
    ensures Lost(cfg, files, line) != [] ==> cfg.backups > 0 && cfg.backups in files
  {
    hide Size, Full, Backed, Rotated, Kept, WellFormed;
    var live := Content(files, 0) + [line];
    var appended := files[0 := live];
    KeptAppend(files, line, cfg.backups);
    if Size(live) >= cfg.maxBytes && cfg.backups > 0 {
      RotationDropsTheOldest(appended, cfg.backups);
      assert Content(appended, cfg.backups) == Content(files, cfg.backups);
    }
  }

  /** After any run from no files: what was dropped followed by what is on disk is everything written, in order;
      nothing is dropped without backups, and something is dropped only while every backup exists. */
  lemma {:induction false} DiskIsASuffix(cfg: Config, lines: seq<Line>)
    requires cfg.Valid()
    ensures Dropped(cfg, lines) + Kept(LogAll(cfg, lines), cfg.backups) == lines
    ensures WellFormed(cfg, LogAll(cfg, lines))
    ensures Dropped(cfg, lines) != [] ==> cfg.backups > 0 && cfg.backups in LogAll(cfg, lines)
    decreases |lines|
  {
    hide Kept, Logged, Lost, WellFormed;
    if lines == [] {
      NothingKept(cfg.backups);
      EmptyWellFormed(cfg);
    } else {
      var before, line := lines[..|lines| - 1], lines[|lines| - 1];
      DiskIsASuffix(cfg, before);
      LoggedKeeps(cfg, LogAll(cfg, before), line);
      LoggedWellFormed(cfg, LogAll(cfg, before), line);
      var gone, lost := Dropped(cfg, before), Lost(cfg, LogAll(cfg, before), line);
      var kept := Kept(LogAll(cfg, lines), cfg.backups);
      assert gone + lost + kept == gone + (lost + kept);
      assert lines == before + [line];
    }
  }

  lemma EmptyWellFormed(cfg: Config)
    requires cfg.Valid()
    ensures WellFormed(cfg, map[])
  {
  }

  lemma {:induction false} NothingKept(n: nat)
    ensures Kept(map[], n) == []
  {
    if n > 0 { NothingKept(n - 1); }
  }

  lemma {:induction false} SizeAdds(a: seq<Line>, b: seq<Line>)
    ensures Size(a + b) == Size(a) + Size(b)
    decreases |b|
  {
    if b == [] {
      assert a + b == a;
    } else {
      assert (a + b)[..|a + b| - 1] == a + b[..|b| - 1];
      SizeAdds(a, b[..|b| - 1]);
    }
  }

  lemma {:induction false} BackupsAreFull(cfg: Config, files: Files, n: nat)
    requires WellFormed(cfg, files) && n <= cfg.backups && (n > 0 ==> n in files)
    ensures Size(Kept(files, n)) >= n * cfg.maxBytes
  {
    hide Size;
    if n > 0 {
      assert n in files && n > 1 ==> n - 1 in files;
      BackupsAreFull(cfg, files, n - 1);
      SizeAdds(files[n], Kept(files, n - 1));
      assert n * cfg.maxBytes == (n - 1) * cfg.maxBytes + cfg.maxBytes;
    }
  }

  /** Retention: once anything has been dropped, the newest `backups * maxBytes` bytes at least are on disk. */
  lemma Retention(cfg: Config, lines: seq<Line>)
    requires cfg.Valid() && Dropped(cfg, lines) != []
    ensures Size(Kept(LogAll(cfg, lines), cfg.backups)) >= cfg.backups * cfg.maxBytes
  {
    DiskIsASuffix(cfg, lines);
    BackupsAreFull(cfg, LogAll(cfg, lines), cfg.backups);
  }

  // ---- The writer itself ----

  /** Between renames: files up to `index` are still in place, slot `index + 1` is free, the rest have moved up. */
  ghost function Moving(was: Files, backups: nat, index: nat): Files {
    map i | i in Numbers(backups) && (if i <= index then i in was else index + 2 <= i && i - 1 in was)
      :: if i <= index then was[i] else was[i - 1]
  }

  ghost predicate Bounded(files: Files, backups: nat) {
    forall i :: i in files ==> i <= backups
  }

  lemma MovingStarts(was: Files, backups: nat)
    requires Bounded(was, backups)
    ensures Moving(was, backups, backups) == was
  {
  }

  lemma MovingOldest(was: Files, backups: nat)
    requires backups > 0 && Bounded(was, backups)
    ensures was - {backups} == Moving(was, backups, backups - 1)
  {
  }

  lemma MovingNext(was: Files, backups: nat, index: nat)
    requires 0 < index < backups
    ensures index in Moving(was, backups, index) <==> index in was
    ensures index in was ==>
            Moving(was, backups, index)[index + 1 := was[index]] - {index} == Moving(was, backups, index - 1)
    ensures index !in was ==> Moving(was, backups, index) == Moving(was, backups, index - 1)
  {
  }

  lemma MovingAt(was: Files, backups: nat, index: nat)
    requires index in Moving(was, backups, index)
    ensures index in was && Moving(was, backups, index)[index] == was[index]
  {
  }

  lemma MovingEnds(was: Files, backups: nat)
    requires backups > 0 && 0 in was
    ensures 0 in Moving(was, backups, 0) && Moving(was, backups, 0)[0] == was[0]
    ensures Moving(was, backups, 0)[1 := was[0]] - {0} == Rotated(was, backups)
  {
  }

  class EventLog {
    const cfg: Config
    var files: Files
    ghost var written: seq<Line>

    ghost predicate Valid()
      reads this
    {
      cfg.Valid() && files == LogAll(cfg, written) && WellFormed(cfg, files)
    }

    constructor (cfg: Config)
      requires cfg.Valid()
      ensures Valid() && this.cfg == cfg && written == []
    {
      this.cfg, files, written := cfg, map[], [];
    }

    /** `_rotate`: delete the oldest backup, then rename the others from the highest number down. */
    method Rotate()
      requires Bounded(files, cfg.backups)
      modifies this`files
      ensures files == if 0 in old(files) && Size(old(files)[0]) >= cfg.maxBytes && cfg.backups > 0
                       then Rotated(old(files), cfg.backups) else old(files)
    {
      if 0 !in files || Size(files[0]) < cfg.maxBytes { return; }
      ghost var was := files;
      MovingStarts(was, cfg.backups);
      hide Moving, Rotated, Size;
      var index := cfg.backups;
      while index > 0
        invariant 0 <= index <= cfg.backups && files == Moving(was, cfg.backups, index)
      {
        if index == cfg.backups {
          MovingOldest(was, cfg.backups);
          files := files - {index};
        } else {
          MovingNext(was, cfg.backups, index);
          if index in files {
            assert files[index] == was[index] by { MovingAt(was, cfg.backups, index); }
            files := files[index + 1 := files[index]] - {index};
          }
        }
        index := index - 1;
      }
      if cfg.backups > 0 {
        MovingEnds(was, cfg.backups);
        files := files[1 := files[0]] - {0};
      }
    }

    method Append(line: Line)
      modifies this`files
      ensures files == old(files)[0 := Content(old(files), 0) + [line]]
    {
      var live := if 0 in files then files[0] else [];
      files := files[0 := live + [line]];
    }

    method Write(line: Line)
      requires Valid()
      modifies this
      ensures Valid() && written == old(written) + [line]
    {
      LoggedWellFormed(cfg, files, line);
      LogAllAppend(cfg, written, line);
      LoggedCases(cfg, files, line);
      assert Bounded(files, cfg.backups);
      hide Size, Content, Rotated, WellFormed, Backed, LogAll, Logged;
      Append(line);
      if Size(files[0]) >= cfg.maxBytes {
        Rotate();
      }
      written := written + [line];
    }
  }

  lemma LoggedCases(cfg: Config, files: Files, line: Line)
    ensures var appended := files[0 := Content(files, 0) + [line]];
            Logged(cfg, files, line) ==
            if Size(appended[0]) >= cfg.maxBytes && cfg.backups > 0 then Rotated(appended, cfg.backups) else appended
  {
  }

  lemma LogAllAppend(cfg: Config, lines: seq<Line>, line: Line)
    ensures LogAll(cfg, lines + [line]) == Logged(cfg, LogAll(cfg, lines), line)
  {
    assert (lines + [line])[..|lines|] == lines;
  }
}
