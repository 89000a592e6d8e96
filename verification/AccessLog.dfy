/** The rotating access log (crates/open-web-server-gateway/src/access_log.rs). The files on disk
    are compared with a log that archives without limit. */
module AccessLog {
  import opened Common

  newtype Byte = x: int | 0 <= x < 256

  type Line = seq<Byte>

  /** The files by generation: 0 is the current file, g > 0 the archive `.g.gz`. */
  type Files = map<nat, seq<Line>>

  datatype Config = Config(maxBytes: nat, maxBackups: nat)

  /** Length in bytes, every line with its newline. */
  function Size(lines: seq<Line>): nat
    decreases |lines|
  {
    if lines == [] then 0 else Size(lines[..|lines| - 1]) + |lines[|lines| - 1]| + 1
  }

  function Current(files: Files): seq<Line> {
    if 0 in files then files[0] else []
  }

  predicate MustRotate(cfg: Config, current: seq<Line>, line: Line) {
    Size(current) > 0 && Size(current) + |line| + 1 > cfg.maxBytes
  }

  /** Where generation `h` comes from once the generations from `g` up have been moved. */
  function Source(max: nat, g: nat, h: nat): Option<nat> {
    if h < g || h > max then Some(h) else if h == g then None else Some(h - 1)
  }

  ghost predicate Shifted(max: nat, before: Files, after: Files, g: nat) {
    && (forall h: nat :: h in after ==>
          Source(max, g, h).Some? && Source(max, g, h).value in before && after[h] == before[Source(max, g, h).value])
    && (forall h: nat :: Source(max, g, h).Some? && Source(max, g, h).value in before ==> h in after)
  }

  predicate HasYounger(files: Files, g: nat) {
    g > 0 && g - 1 in files
  }

  /** The generations present after a rotation. */
  function Rotated(max: nat, files: Files): (r: set<nat>)
    ensures forall g: nat :: g in r <==> if g <= max then HasYounger(files, g) else g in files
  {
    (set g | g in Below(max + 1) && HasYounger(files, g)) + (set g | g in files && g > max)
  }

  /** A complete rotation. */
  function RotateSpec(max: nat, files: Files): Files {
    if max == 0 then files - {0}
    else
      map g | g in Rotated(max, files) :: if g <= max then files[g - 1] else files[g]
  }

  function WriteSpec(cfg: Config, files: Files, line: Line): Files {
    var ready := if MustRotate(cfg, Current(files), line) then RotateSpec(cfg.maxBackups, files) else files;
    ready[0 := Current(ready) + [line]]
  }

  /** Every file but the oldest generation is still there, at most one generation older. */
  predicate Survives(max: nat, before: Files, after: Files) {
    forall g: nat :: g in before && g != max ==>
      (g in after && after[g] == before[g]) || (g + 1 in after && after[g + 1] == before[g])
  }

  lemma ShiftedSurvives(max: nat, before: Files, after: Files, g: nat)
    requires Shifted(max, before, after, g) && g <= max
    ensures Survives(max, before, after)
  {
    forall h: nat | h in before && h != max
      ensures (h in after && after[h] == before[h]) || (h + 1 in after && after[h + 1] == before[h])
    {
      if h < g || h > max {
        assert Source(max, g, h) == Some(h);
      } else {
        assert Source(max, g, h + 1) == Some(h);
      }
    }
  }

  lemma ShiftOne(max: nat, before: Files, after: Files, g: nat)
    requires Shifted(max, before, after, g + 1) && g < max
    ensures Shifted(max, before, if g in after then after[g + 1 := after[g]] - {g} else after, g)
  {
    var moved := if g in after then after[g + 1 := after[g]] - {g} else after;
    assert Source(max, g + 1, g) == Some(g) && Source(max, g, g).None? && Source(max, g + 1, g + 1).None?;
    assert g in after <==> g in before;
    forall h: nat | h in moved
      ensures Source(max, g, h).Some? && Source(max, g, h).value in before
      ensures moved[h] == before[Source(max, g, h).value]
    {
      if h != g + 1 { assert Source(max, g, h) == Source(max, g + 1, h); }
    }
    forall h: nat | Source(max, g, h).Some? && Source(max, g, h).value in before ensures h in moved {
      if h != g + 1 { assert Source(max, g, h) == Source(max, g + 1, h); }
    }
  }

  lemma ShiftedAll(max: nat, before: Files, after: Files)
    requires max > 0 && Shifted(max, before, after, 1) && 0 in before
    ensures 0 in after && after[0] == before[0] && 1 !in after
    ensures after[1 := after[0]] - {0} == RotateSpec(max, before)
  {
    assert Source(max, 1, 0) == Some(0) && Source(max, 1, 1).None?;
    var r, done := RotateSpec(max, before), after[1 := after[0]] - {0};
    forall h: nat ensures h in done <==> h in r {
      if h > 1 { assert h in after <==> Source(max, 1, h).value in before; }
    }
    forall h: nat | h in done ensures done[h] == r[h] {
    }
    assert done.Keys == r.Keys;
  }

  lemma FirstArchiveSurvives(max: nat, before: Files, after: Files, archive: seq<Line>)
    requires max > 0 && Shifted(max, before, after, 1)
    ensures Survives(max, before, after[1 := archive])
  {
    ShiftedSurvives(max, before, after, 1);
    forall h: nat | h in before && h != max
      ensures (h in after && h != 1 && after[h] == before[h]) || (h + 1 in after && h != 0 && after[h + 1] == before[h])
    {
      if 0 < h <= max { assert Source(max, 1, h + 1) == Some(h); } else { assert Source(max, 1, h) == Some(h); }
    }
  }

  class AccessLogger {
    const cfg: Config
    var files: Files

    constructor (cfg: Config)
      ensures this.cfg == cfg && files == map[]
    {
      this.cfg, files := cfg, map[];
    }

    /** Removes the oldest generation and moves the others up, oldest first. The first `disk`
        file operations succeed and the next one fails; `left` of them remain. */
    method ShiftGenerations(disk: nat) returns (ok: bool, left: nat, ghost at: nat)
      requires cfg.maxBackups > 0
      modifies this`files
      ensures left <= disk <= left + cfg.maxBackups
      ensures disk >= cfg.maxBackups ==> ok
      ensures at <= cfg.maxBackups && (ok ==> at == 1)
      ensures (!ok && files == old(files)) || Shifted(cfg.maxBackups, old(files), files, at)
    {
      left, at := disk, cfg.maxBackups;
      var g := cfg.maxBackups;
      if g in files {
        if left == 0 { return false, left, at; }
        files, left := files - {g}, left - 1;
      }
      while g > 1
        invariant 1 <= g <= cfg.maxBackups
        invariant Shifted(cfg.maxBackups, old(files), files, g)
        invariant left <= disk <= left + cfg.maxBackups - g + 1
      {
        at, g := g, g - 1;
        ShiftOne(cfg.maxBackups, old(files), files, g);
        if g in files {
          if left == 0 { return false, left, at; }
          files, left := files[g + 1 := files[g]] - {g}, left - 1;
        }
      }
      return true, left, 1;
    }

    /** `rotate`. A failing compression may leave `torn` behind as generation 1. */
    method Rotate(disk: nat, torn: Option<seq<Line>>) returns (ok: bool, left: nat)
      requires 0 in files
      modifies this`files
      ensures left <= disk <= left + cfg.maxBackups + 2
      ensures disk >= cfg.maxBackups + 2 ==> ok
      ensures ok && (cfg.maxBackups > 0 || disk > 0) ==> files == RotateSpec(cfg.maxBackups, old(files))
      ensures !ok ==> Survives(cfg.maxBackups, old(files), files)
      ensures cfg.maxBackups == 0 && disk == 0 ==> files == old(files)
    {
      if cfg.maxBackups == 0 {
        if disk == 0 { return true, 0; }
        files := files - {0};
        return true, disk - 1;
      }
      ghost var at;
      ok, left, at := ShiftGenerations(disk);
      if !ok {
        if files != old(files) { ShiftedSurvives(cfg.maxBackups, old(files), files, at); }
        return;
      }
      ghost var shifted := files;
      ShiftedAll(cfg.maxBackups, old(files), shifted);
      if left == 0 {
        if torn.Some? {
          files := files[1 := torn.value];
          FirstArchiveSurvives(cfg.maxBackups, old(files), shifted, torn.value);
        } else {
          ShiftedSurvives(cfg.maxBackups, old(files), shifted, 1);
        }
        return false, left;
      }
      files, left := files[1 := files[0]], left - 1;
      if left == 0 {
        FirstArchiveSurvives(cfg.maxBackups, old(files), shifted, shifted[0]);
        return false, left;
      }
      files, left := files - {0}, left - 1;
      return true, left;
    }

    /** `write_entry_blocking`: rotate if the line does not fit, then append it. */
    method WriteEntry(line: Line, disk: nat, torn: Option<seq<Line>>) returns (ok: bool)
      modifies this`files
      ensures disk >= cfg.maxBackups + 3 ==> ok
      ensures ok && cfg.maxBackups > 0 ==> files == WriteSpec(cfg, old(files), line)
      ensures disk >= cfg.maxBackups + 3 ==> files == WriteSpec(cfg, old(files), line)
      ensures !ok && cfg.maxBackups > 0 ==> Survives(cfg.maxBackups, old(files), files)
    {
      var left := disk;
      var current := if 0 in files then files[0] else [];
      if Size(current) > 0 && Size(current) + |line| + 1 > cfg.maxBytes {
        ok, left := Rotate(disk, torn);
        if !ok { return; }
      }
      if left == 0 {
        RotationSurvives(cfg.maxBackups, old(files));
        return false;
      }
      files := files[0 := (if 0 in files then files[0] else []) + [line]];
      return true;
    }
  }

  lemma RotationSurvives(max: nat, files: Files)
    ensures max > 0 ==> Survives(max, files, RotateSpec(max, files))
  {
    if max > 0 {
      var r := RotateSpec(max, files);
      forall g: nat | g in files && g != max
        ensures (g in r && r[g] == files[g]) || (g + 1 in r && r[g + 1] == files[g])
      {
        if g < max { assert g + 1 in r; } else { assert g in r; }
      }
    }
  }

  // ---------------------------------------------------------------- the log without a limit

  /** `archive` holds every file ever rotated away, oldest first. */
  datatype Ideal = Ideal(archive: seq<seq<Line>>, current: seq<Line>)

  function WriteIdeal(cfg: Config, w: Ideal, line: Line): Ideal {
    if MustRotate(cfg, w.current, line) then Ideal(w.archive + [w.current], [line])
    else w.(current := w.current + [line])
  }

  function Run(cfg: Config, lines: seq<Line>): Files
    decreases |lines|
  {
    if lines == [] then map[] else WriteSpec(cfg, Run(cfg, lines[..|lines| - 1]), lines[|lines| - 1])
  }

  function RunIdeal(cfg: Config, lines: seq<Line>): Ideal
    decreases |lines|
  {
    if lines == [] then Ideal([], []) else WriteIdeal(cfg, RunIdeal(cfg, lines[..|lines| - 1]), lines[|lines| - 1])
  }

  /** The number of generations on disk. */
  function Generations(cfg: Config, w: Ideal): nat {
    Min(|w.archive|, cfg.maxBackups)
  }

  /** The g-th youngest archived file. */
  function Archived(archive: seq<seq<Line>>, g: nat): seq<Line>
    requires 1 <= g <= |archive|
  {
    archive[|archive| - g]
  }

  ghost predicate Present(files: Files, hasCurrent: bool, k: nat) {
    forall g: nat :: g in files <==> if g == 0 then hasCurrent else g <= k
  }

  predicate ArchivesMatch(files: Files, archive: seq<seq<Line>>, k: nat)
    requires k <= |archive|
  {
    forall g: nat :: 1 <= g <= k ==> g in files && files[g] == Archived(archive, g)
  }

  /** Generation g is the g-th youngest archived file, and there are no others. */
  ghost predicate Represents(cfg: Config, files: Files, w: Ideal) {
    && Present(files, w.current != [], Generations(cfg, w))
    && ArchivesMatch(files, w.archive, Generations(cfg, w))
    && Current(files) == w.current
  }

  lemma RotatePresent(max: nat, files: Files, k: nat)
    requires Present(files, true, k) && k <= max
    ensures Present(RotateSpec(max, files), false, Min(k + 1, max))
  {
    forall g: nat ensures g in RotateSpec(max, files) <==> 1 <= g <= Min(k + 1, max) {
      if 1 <= g <= max { assert HasYounger(files, g) <==> g - 1 in files; }
    }
  }

  lemma RotateArchives(max: nat, files: Files, archive: seq<seq<Line>>, k: nat)
    requires k <= |archive| && k <= max && ArchivesMatch(files, archive, k) && 0 in files
    ensures ArchivesMatch(RotateSpec(max, files), archive + [files[0]], Min(k + 1, max))
  {
    var r := RotateSpec(max, files);
    forall g: nat | 1 <= g <= Min(k + 1, max) ensures g in r && r[g] == Archived(archive + [files[0]], g) {
      assert HasYounger(files, g) && r[g] == files[g - 1];
      if g > 1 { assert files[g - 1] == Archived(archive, g - 1); }
    }
  }

  lemma RotateRefines(cfg: Config, files: Files, w: Ideal)
    requires Represents(cfg, files, w) && w.current != []
    ensures Represents(cfg, RotateSpec(cfg.maxBackups, files), Ideal(w.archive + [w.current], []))
  {
    RotatePresent(cfg.maxBackups, files, Generations(cfg, w));
    RotateArchives(cfg.maxBackups, files, w.archive, Generations(cfg, w));
  }

  lemma AppendRefines(cfg: Config, files: Files, w: Ideal, line: Line)
    requires Represents(cfg, files, w)
    ensures Represents(cfg, files[0 := Current(files) + [line]], w.(current := w.current + [line]))
  {
  }

  lemma WriteRefines(cfg: Config, files: Files, w: Ideal, line: Line)
    requires Represents(cfg, files, w)
    ensures Represents(cfg, WriteSpec(cfg, files, line), WriteIdeal(cfg, w, line))
  {
    if MustRotate(cfg, w.current, line) {
      RotateRefines(cfg, files, w);
      AppendRefines(cfg, RotateSpec(cfg.maxBackups, files), Ideal(w.archive + [w.current], []), line);
    } else {
      AppendRefines(cfg, files, w, line);
    }
  }

  lemma {:induction false} RunRefines(cfg: Config, lines: seq<Line>)
    ensures Represents(cfg, Run(cfg, lines), RunIdeal(cfg, lines))
    decreases |lines|
  {
    if lines != [] {
      var n := |lines| - 1;
      RunRefines(cfg, lines[..n]);
      WriteRefines(cfg, Run(cfg, lines[..n]), RunIdeal(cfg, lines[..n]), lines[n]);
    }
  }

  // ---------------------------------------------------------------- conservation

  function Flatten(archive: seq<seq<Line>>): seq<Line>
    decreases |archive|
  {
    if archive == [] then [] else Flatten(archive[..|archive| - 1]) + archive[|archive| - 1]
  }

  lemma FlattenSnoc(archive: seq<seq<Line>>, file: seq<Line>)
    ensures Flatten(archive + [file]) == Flatten(archive) + file
  {
    assert (archive + [file])[..|archive|] == archive;
  }

  function Everything(w: Ideal): seq<Line> {
    Flatten(w.archive) + w.current
  }

  lemma WriteKeepsEverything(cfg: Config, w: Ideal, line: Line)
    ensures Everything(WriteIdeal(cfg, w, line)) == Everything(w) + [line]
  {
    if MustRotate(cfg, w.current, line) {
      FlattenSnoc(w.archive, w.current);
    } else {
      assert Flatten(w.archive) + (w.current + [line]) == (Flatten(w.archive) + w.current) + [line];
    }
  }

  lemma {:induction false} IdealKeepsEverything(cfg: Config, lines: seq<Line>)
    ensures Everything(RunIdeal(cfg, lines)) == lines
    decreases |lines|
  {
    if lines != [] {
      var n := |lines| - 1;
      IdealKeepsEverything(cfg, lines[..n]);
      WriteKeepsEverything(cfg, RunIdeal(cfg, lines[..n]), lines[n]);
      assert lines == lines[..n] + [lines[n]];
    }
  }

  /** What is found on disk, from generation `k` to the current file. */
  function ReadBack(files: Files, k: nat): seq<Line> {
    if k == 0 then Current(files) else (if k in files then files[k] else []) + ReadBack(files, k - 1)
  }

  lemma {:induction false} ReadBackIsTail(files: Files, archive: seq<seq<Line>>, k: nat)
    requires k <= |archive| && ArchivesMatch(files, archive, k)
    ensures Flatten(archive[..|archive| - k]) + ReadBack(files, k) == Flatten(archive) + Current(files)
    decreases k
  {
    if k == 0 {
      assert archive[..|archive|] == archive;
    } else {
      var front, file := archive[..|archive| - k], Archived(archive, k);
      ReadBackIsTail(files, archive, k - 1);
      FlattenSnoc(front, file);
      assert front + [file] == archive[..|archive| - (k - 1)];
      assert Flatten(front) + (file + ReadBack(files, k - 1)) == (Flatten(front) + file) + ReadBack(files, k - 1);
    }
  }

  function Rotations(cfg: Config, lines: seq<Line>): nat {
    |RunIdeal(cfg, lines).archive|
  }

  /** The generations on disk are exactly 1..k for some k <= max_backups. */
  lemma GenerationsAreContiguous(cfg: Config, lines: seq<Line>)
    ensures var k := Min(Rotations(cfg, lines), cfg.maxBackups);
      forall g: nat :: g in Run(cfg, lines) <==> if g == 0 then lines != [] else g <= k
  {
    RunRefines(cfg, lines);
    assert lines != [] ==> RunIdeal(cfg, lines).current != [];
  }

  lemma RepresentedTail(cfg: Config, files: Files, w: Ideal)
    requires Represents(cfg, files, w)
    ensures var k := Generations(cfg, w);
      Flatten(w.archive[..|w.archive| - k]) + ReadBack(files, k) == Flatten(w.archive) + w.current
  {
    ReadBackIsTail(files, w.archive, Generations(cfg, w));
  }

  /** Only whole old files are ever dropped: what is missing is the files rotated away before
      the last max_backups ones. */
  lemma LossIsWholeFiles(cfg: Config, lines: seq<Line>)
    ensures var w := RunIdeal(cfg, lines);
      var k := Generations(cfg, w);
      Flatten(w.archive[..|w.archive| - k]) + ReadBack(Run(cfg, lines), k) == lines
  {
    RunRefines(cfg, lines);
    IdealKeepsEverything(cfg, lines);
    RepresentedTail(cfg, Run(cfg, lines), RunIdeal(cfg, lines));
  }

  /** Rotation conserves history: read from the oldest generation to the current file, the log
      is a suffix of all lines ever written, and all of them as long as there were no more than
      max_backups rotations. */
  lemma DiskIsASuffixOfHistory(cfg: Config, lines: seq<Line>)
    ensures var kept := ReadBack(Run(cfg, lines), Min(Rotations(cfg, lines), cfg.maxBackups));
      && |kept| <= |lines| && kept == lines[|lines| - |kept|..]
      && (Rotations(cfg, lines) <= cfg.maxBackups ==> kept == lines)
  {
    LossIsWholeFiles(cfg, lines);
    var w := RunIdeal(cfg, lines);
    var lost := Flatten(w.archive[..|w.archive| - Generations(cfg, w)]);
    var kept := ReadBack(Run(cfg, lines), Generations(cfg, w));
    assert (lost + kept)[|lost|..] == kept;
  }

  predicate WithinLimit(cfg: Config, lines: seq<Line>) {
    |lines| == 1 || Size(lines) <= cfg.maxBytes
  }

  lemma SizeAppend(lines: seq<Line>, line: Line)
    ensures Size(lines + [line]) == Size(lines) + |line| + 1
    ensures lines != [] ==> Size(lines) > 0
    ensures Size([]) == 0
  {
    assert (lines + [line])[..|lines|] == lines;
  }

  lemma {:induction false} IdealFilesWithinLimit(cfg: Config, lines: seq<Line>)
    ensures var w := RunIdeal(cfg, lines);
      && (forall i :: 0 <= i < |w.archive| ==> w.archive[i] != [] && WithinLimit(cfg, w.archive[i]))
      && (w.current != [] ==> WithinLimit(cfg, w.current))
    decreases |lines|
  {
    if lines != [] {
      var n := |lines| - 1;
      IdealFilesWithinLimit(cfg, lines[..n]);
      SizeAppend(RunIdeal(cfg, lines[..n]).current, lines[n]);
    }
  }

  /** Every file is within max_bytes, or holds a single line. */
  lemma FilesWithinLimit(cfg: Config, lines: seq<Line>)
    ensures var files := Run(cfg, lines);
      forall g: nat :: g in files ==> files[g] != [] && WithinLimit(cfg, files[g])
  {
    RunRefines(cfg, lines);
    IdealFilesWithinLimit(cfg, lines);
  }

  /** The files of the log without a limit, oldest first. */
  function AllFiles(w: Ideal): seq<seq<Line>> {
    w.archive + [w.current]
  }

  /** File `i` was left because the first line of the next one did not fit any more. */
  predicate LeftFull(cfg: Config, files: seq<seq<Line>>, i: nat)
    requires i + 1 < |files|
  {
    files[i + 1] != [] && Size(files[i]) + |files[i + 1][0]| + 1 > cfg.maxBytes
  }

  ghost predicate AllLeftFull(cfg: Config, w: Ideal) {
    forall i :: 0 <= i < |w.archive| ==> LeftFull(cfg, AllFiles(w), i)
  }

  lemma WriteLeavesFull(cfg: Config, w: Ideal, line: Line)
    requires AllLeftFull(cfg, w)
    ensures AllLeftFull(cfg, WriteIdeal(cfg, w, line))
  {
    var u := WriteIdeal(cfg, w, line);
    var before, after := AllFiles(w), AllFiles(u);
    forall i | 0 <= i < |u.archive| ensures LeftFull(cfg, after, i) {
      if i < |w.archive| {
        assert LeftFull(cfg, before, i);
        assert after[i] == before[i] && before[i + 1] != [] && before[i + 1] <= after[i + 1];
      } else {
        assert after[i] == w.current && after[i + 1] == [line];
      }
    }
  }

  lemma {:induction false} IdealFilesAreFull(cfg: Config, lines: seq<Line>)
    ensures AllLeftFull(cfg, RunIdeal(cfg, lines))
    decreases |lines|
  {
    if lines != [] {
      var n := |lines| - 1;
      IdealFilesAreFull(cfg, lines[..n]);
      WriteLeavesFull(cfg, RunIdeal(cfg, lines[..n]), lines[n]);
    }
  }

  lemma RepresentedIsFull(cfg: Config, files: Files, w: Ideal, g: nat)
    requires Represents(cfg, files, w) && AllLeftFull(cfg, w) && g > 0 && g in files
    ensures g - 1 in files && files[g - 1] != [] && Size(files[g]) + |files[g - 1][0]| + 1 > cfg.maxBytes
  {
    var all, i := AllFiles(w), |w.archive| - g;
    assert LeftFull(cfg, all, i);
    assert files[g] == Archived(w.archive, g) == all[i];
    if g == 1 {
      assert all[i + 1] == w.current;
    } else {
      assert files[g - 1] == Archived(w.archive, g - 1) == all[i + 1];
    }
  }

  lemma RepresentedAreFull(cfg: Config, files: Files, w: Ideal)
    requires Represents(cfg, files, w) && AllLeftFull(cfg, w)
    ensures forall g: nat :: g > 0 && g in files ==>
      g - 1 in files && files[g - 1] != [] && Size(files[g]) + |files[g - 1][0]| + 1 > cfg.maxBytes
  {
    forall g: nat | g > 0 && g in files
      ensures g - 1 in files && files[g - 1] != [] && Size(files[g]) + |files[g - 1][0]| + 1 > cfg.maxBytes
    {
      RepresentedIsFull(cfg, files, w, g);
    }
  }

  /** Lines that fit together stay together: a file is only left when the next line would take it
      over the limit, so every archive with the first line of the next younger file exceeds it. */
  lemma FilesAreFull(cfg: Config, lines: seq<Line>)
    ensures var files := Run(cfg, lines);
      forall g: nat :: g > 0 && g in files ==>
        g - 1 in files && files[g - 1] != [] && Size(files[g]) + |files[g - 1][0]| + 1 > cfg.maxBytes
  {
    RunRefines(cfg, lines);
    IdealFilesAreFull(cfg, lines);
    RepresentedAreFull(cfg, Run(cfg, lines), RunIdeal(cfg, lines));
  }
}
