/** Rotating log files over a file system that maps names to contents. */
module Rotation {
  import opened FileNames

  type Files = map<string, string>

  datatype Content = Missing | Present(text: string)

  function File(files: Files, name: string): Content {
    if name in files then Present(files[name]) else Missing
  }

  function Numbered(files: Files, base: string, i: nat): Content {
    File(files, CalcFilename(base, i))
  }

  /** What file j holds once the file before it, if any, was moved onto it. */
  function Moved(initial: Files, base: string, max: nat, j: nat): Content
    requires 1 <= j <= max
  {
    if Numbered(initial, base, j - 1).Present? then Numbered(initial, base, j - 1)
    else if j == max then Numbered(initial, base, j)
    else Missing
  }

  ghost predicate OthersKept(initial: Files, now: Files, base: string, max: nat) {
    forall name | (forall j :: 0 <= j <= max ==> name != CalcFilename(base, j)) ::
      File(now, name) == File(initial, name)
  }

  /** The files after a rotation whose renames all succeeded. */
  ghost predicate Rotated(initial: Files, now: Files, base: string, max: nat) {
    && Numbered(now, base, 0) == Present("")
    && (forall j :: 1 <= j <= max ==> Numbered(now, base, j) == Moved(initial, base, max, j))
    && OthersKept(initial, now, base, max)
  }

  /** The files after a rotation that gave up when it could not rename file i - 1 to file i. */
  ghost predicate GaveUp(initial: Files, now: Files, base: string, max: nat, i: nat) {
    && 1 <= i <= max
    && Numbered(initial, base, i - 1).Present?
    && Numbered(now, base, 0) == Present("")
    && (forall j :: i < j <= max ==> Numbered(now, base, j) == Moved(initial, base, max, j))
    && (Numbered(now, base, i) == Missing || (i == max && Numbered(now, base, i) == Numbered(initial, base, i)))
    && (forall j :: 1 <= j < i ==> Numbered(now, base, j) == Numbered(initial, base, j))
    && OthersKept(initial, now, base, max)
  }

  /** Between two renames: the files above i are done, those below are untouched. */
  ghost predicate Halfway(initial: Files, now: Files, base: string, max: nat, i: nat) {
    && i <= max
    && (forall j :: i < j <= max ==> Numbered(now, base, j) == Moved(initial, base, max, j))
    && Numbered(now, base, i) == (if i == max then Numbered(initial, base, i) else Missing)
    && (forall j :: 0 <= j < i ==> Numbered(now, base, j) == Numbered(initial, base, j))
    && OthersKept(initial, now, base, max)
  }

  /** The files and the size that the sink keeps for the base file. */
  datatype Disk = Disk(files: Files, size: nat)

  /** A message went to the base file: behind its contents, or alone after a rotation beyond the limit. */
  ghost predicate Sunk(initial: Disk, now: Disk, base: string, maxSize: nat, max: nat, message: string) {
    && base in initial.files && base in now.files
    && if initial.size + |message| <= maxSize then
         now == Disk(initial.files[base := initial.files[base] + message], initial.size + |message|)
       else
         now.files[base] == message && now.size == |message| && Rotated(initial.files, now.files[base := ""], base, max)
  }

  class RotatingSink {
    const base: string
    const maxSize: nat
    const maxFiles: nat
    var files: Files
    var currentSize: nat

    /** The base file is open and never larger than the size that the sink keeps. */
    ghost predicate Valid()
      reads this
    {
      base in files && |files[base]| <= currentSize
    }

    /** Opens the base file for appending; `disk` is what the file system holds before. */
    constructor (base: string, maxSize: nat, maxFiles: nat, disk: Files)
      ensures Valid() && this.base == base && this.maxSize == maxSize && this.maxFiles == maxFiles
      ensures files == if base in disk then disk else disk[base := ""]
      ensures currentSize == |files[base]|
    {
      this.base := base;
      this.maxSize := maxSize;
      this.maxFiles := maxFiles;
      files := if base in disk then disk else disk[base := ""];
      currentSize := if base in disk then |disk[base]| else 0;
    }

    /** The rest of the original constructor: the size is not brought up to date by a rotation on opening. */
    method RotateOnOpen() returns (ok: bool)
      requires Valid()
      modifies this
      ensures Valid()
      ensures old(currentSize) == 0 ==> ok && files == old(files)
      ensures ok ==> currentSize == old(currentSize)
      ensures ok && old(currentSize) > 0 ==> Rotated(old(files), files, base, maxFiles)
      ensures !ok ==> exists i :: GaveUp(old(files), files, base, maxFiles, i)
    {
      ok := true;
      if currentSize > 0 {
        ok := Rotate();
      }
    }

    method SinkIt(formatted: string) returns (ok: bool)
      requires Valid()
      modifies this
      ensures Valid()
      ensures ok ==> |files[base]| <= if |formatted| > maxSize then |formatted| else maxSize
      ensures ok ==>
                Sunk(Disk(old(files), old(currentSize)), Disk(files, currentSize), base, maxSize, maxFiles, formatted)
      ensures old(currentSize) + |formatted| <= maxSize ==> ok
      ensures !ok ==> files[base] == "" && exists i :: GaveUp(old(files), files, base, maxFiles, i)
    {
      currentSize := currentSize + |formatted|;
      if currentSize > maxSize {
        ok := Rotate();
        if !ok {
          return;
        }
        currentSize := |formatted|;
      }
      ok := true;
      ghost var before := files;
      files := files[base := files[base] + formatted];
      assert before[base] == "" ==> files[base := ""] == before;
    }

    method Rotate() returns (ok: bool)
      requires base in files
      modifies this
      ensures base in files && files[base] == ""
      ensures ok ==> Rotated(old(files), files, base, maxFiles) && currentSize == old(currentSize)
      ensures !ok ==> currentSize == 0 && exists i :: GaveUp(old(files), files, base, maxFiles, i)
    {
      var i := maxFiles;
      while i > 0
        invariant Halfway(old(files), files, base, maxFiles, i)
        invariant currentSize == old(currentSize)
      {
        ghost var before := files;
        ok := MoveUp(i);
        if !ok {
          FailedStep(old(files), before, files, base, maxFiles, i);
          files := files[base := ""];
          currentSize := 0;
          return false;
        }
        MovingStep(old(files), before, files, base, maxFiles, i);
        i := i - 1;
      }
      LastStep(old(files), files, base, maxFiles);
      files := files[base := ""];
      return true;
    }

    /** Moves file i - 1, if there is one, onto file i; a failing rename is tried a second time. */
    method MoveUp(i: nat) returns (ok: bool)
      requires 0 < i <= maxFiles
      modifies this`files
      ensures OthersKept(old(files), files, base, maxFiles)
      ensures ok ==> Turned(old(files), files, base, i)
      ensures !ok ==> Numbered(old(files), base, i - 1).Present? && Dropped(old(files), files, base, i)
    {
      var src := CalcFilename(base, i - 1);
      if src !in files {
        return true;
      }
      var target := CalcFilename(base, i);
      CalcFilenameInjective(base, i - 1, i);
      ok := RenameFile(src, target);
      if !ok {
        ok := RenameFile(src, target);
      }
      if ok {
        TurnByRename(old(files), files, base, i);
      } else {
        DropByDelete(old(files), files, base, i);
      }
    }

    /** Deletes the target, if the system lets it, and renames, if the system lets it. */
    method RenameFile(src: string, target: string) returns (ok: bool)
      requires src in files && src != target
      modifies this`files
      ensures ok ==> Renamed(old(files), files, src, target)
      ensures !ok ==> files == old(files) || files == old(files) - {target}
    {
      var removed: bool := *;
      if removed {
        files := files - {target};
      }
      ok := *;
      if ok {
        var text := files[src];
        files := (files - {src})[target := text];
      }
    }
  }

  lemma NamesDiffer(base: string, i: nat)
    ensures forall j: nat :: j != i ==> CalcFilename(base, j) != CalcFilename(base, i)
  {
    forall j: nat | j != i
      ensures CalcFilename(base, j) != CalcFilename(base, i)
    {
      CalcFilenameInjective(base, i, j);
    }
  }

  /** The effect of one rename on every file. */
  ghost predicate Renamed(before: Files, now: Files, src: string, target: string) {
    forall name :: File(now, name) ==
      if name == target then File(before, src) else if name == src then Missing else File(before, name)
  }

  /** One turn of the loop, file by file. */
  ghost predicate Turned(before: Files, now: Files, base: string, i: nat)
    requires i > 0
  {
    forall j: nat :: Numbered(now, base, j) ==
      if Numbered(before, base, i - 1).Missing? then Numbered(before, base, j)
      else if j == i then Numbered(before, base, i - 1)
      else if j == i - 1 then Missing
      else Numbered(before, base, j)
  }

  lemma TurnByRename(before: Files, now: Files, base: string, i: nat)
    requires i > 0 && CalcFilename(base, i - 1) in before
    requires Renamed(before, now, CalcFilename(base, i - 1), CalcFilename(base, i))
    ensures Turned(before, now, base, i)
  {
    NamesDiffer(base, i);
    NamesDiffer(base, i - 1);
  }

  lemma MovingStep(initial: Files, before: Files, now: Files, base: string, max: nat, i: nat)
    requires 0 < i && Halfway(initial, before, base, max, i)
    requires Turned(before, now, base, i) && OthersKept(before, now, base, max)
    ensures Halfway(initial, now, base, max, i - 1)
  {
    assert Numbered(before, base, i - 1) == Numbered(initial, base, i - 1);
  }

  /** File i is as before or gone; every other file is as before. */
  ghost predicate Dropped(before: Files, now: Files, base: string, i: nat) {
    && (Numbered(now, base, i) == Numbered(before, base, i) || Numbered(now, base, i) == Missing)
    && forall j: nat :: j != i ==> Numbered(now, base, j) == Numbered(before, base, j)
  }

  lemma DropByDelete(before: Files, now: Files, base: string, i: nat)
    requires now == before || now == before - {CalcFilename(base, i)}
    ensures Dropped(before, now, base, i)
  {
    NamesDiffer(base, i);
  }

  lemma Truncated(before: Files, base: string)
    ensures Numbered(before[base := ""], base, 0) == Present("")
    ensures forall j: nat :: j > 0 ==> Numbered(before[base := ""], base, j) == Numbered(before, base, j)
  {
    NamesDiffer(base, 0);
  }

  lemma FailedStep(initial: Files, before: Files, now: Files, base: string, max: nat, i: nat)
    requires 0 < i && Halfway(initial, before, base, max, i) && Numbered(before, base, i - 1).Present?
    requires Dropped(before, now, base, i) && OthersKept(before, now, base, max)
    ensures GaveUp(initial, now[base := ""], base, max, i)
  {
    Truncated(now, base);
    assert base == CalcFilename(base, 0);
  }

  lemma LastStep(initial: Files, before: Files, base: string, max: nat)
    requires Halfway(initial, before, base, max, 0)
    ensures Rotated(initial, before[base := ""], base, max)
  {
    Truncated(before, base);
    assert base == CalcFilename(base, 0);
  }
}
