/** What survives of everything that was logged. */
module RotationHistory {
  import opened FileNames
  import opened Rotation

  function Text(c: Content): string {
    if c.Present? then c.text else ""
  }

  /** The contents of files n, n - 1, …, 0, oldest first. */
  function Log(files: Files, base: string, n: nat): string {
    if n == 0 then Text(Numbered(files, base, 0))
    else Text(Numbered(files, base, n)) + Log(files, base, n - 1)
  }

  /** What a rotation deletes: the oldest file, if its predecessor takes its place. */
  function Lost(initial: Files, base: string, max: nat): string {
    if max == 0 || Numbered(initial, base, max - 1).Present? then Text(Numbered(initial, base, max)) else ""
  }

  lemma {:induction false} LogMoves(initial: Files, now: Files, base: string, max: nat, n: nat)
    requires Rotated(initial, now, base, max) && 1 <= n < max
    ensures Log(now, base, n) == Log(initial, base, n - 1)
  {
    assert Numbered(now, base, n) == Moved(initial, base, max, n);
    if n > 1 {
      LogMoves(initial, now, base, max, n - 1);
    }
  }

  /** A successful rotation loses the oldest file and nothing else, and keeps the order. */
  lemma RotationLosesOldest(initial: Files, now: Files, base: string, max: nat)
    requires Rotated(initial, now, base, max)
    ensures Log(initial, base, max) == Lost(initial, base, max) + Log(now, base, max)
  {
    if max == 0 {
      assert Log(initial, base, 0) + Log(now, base, 0) == Log(initial, base, 0);
    } else if Numbered(initial, base, max - 1).Missing? {
      NothingTakesItsPlace(initial, now, base, max);
      NothingLost(Log(initial, base, max), Log(now, base, max));
    } else {
      OldestReplaced(initial, now, base, max);
    }
  }

  lemma NothingLost(before: string, after: string)
    requires before == after
    ensures before == "" + after
  {
  }

  lemma OldestReplaced(initial: Files, now: Files, base: string, max: nat)
    requires Rotated(initial, now, base, max) && max > 0 && Numbered(initial, base, max - 1).Present?
    ensures Log(now, base, max) == Log(initial, base, max - 1)
  {
    assert Numbered(now, base, max) == Moved(initial, base, max, max);
    if max > 1 {
      LogMoves(initial, now, base, max, max - 1);
    }
  }

  lemma NothingTakesItsPlace(initial: Files, now: Files, base: string, max: nat)
    requires Rotated(initial, now, base, max) && max > 0 && Numbered(initial, base, max - 1).Missing?
    ensures Log(now, base, max) == Log(initial, base, max)
  {
    assert Numbered(now, base, max) == Moved(initial, base, max, max);
    if max > 1 {
      LogMoves(initial, now, base, max, max - 1);
      assert "" + Log(initial, base, max - 2) == Log(initial, base, max - 2);
    }
  }

  lemma {:induction false} MessageAppended(files: Files, base: string, n: nat, message: string)
    requires base in files
    ensures Log(files[base := files[base] + message], base, n) == Log(files, base, n) + message
  {
    if n > 0 {
      CalcFilenameInjective(base, n, 0);
      MessageAppended(files, base, n - 1, message);
    }
  }

  lemma RotatedLoses(initial: Files, mid: Files, now: Files, base: string, max: nat, message: string)
    requires Rotated(initial, mid, base, max) && base in mid && now == mid[base := mid[base] + message]
    ensures Log(initial, base, max) + message == Lost(initial, base, max) + Log(now, base, max)
  {
    MessageAppended(mid, base, max, message);
    RotationLosesOldest(initial, mid, base, max);
    Regrouped(Lost(initial, base, max), Log(mid, base, max), message);
  }

  lemma Regrouped(a: string, b: string, c: string)
    ensures (a + b) + c == a + (b + c)
  {
  }

  predicate Rotates(s: Disk, maxSize: nat, message: string) {
    s.size + |message| > maxSize
  }

  /** What one write deletes. */
  function LostByWrite(s: Disk, base: string, maxSize: nat, max: nat, message: string): string {
    if Rotates(s, maxSize, message) then Lost(s.files, base, max) else ""
  }

  lemma WriteLoses(initial: Disk, now: Disk, base: string, maxSize: nat, max: nat, message: string)
    requires Sunk(initial, now, base, maxSize, max, message)
    ensures Log(initial.files, base, max) + message
         == LostByWrite(initial, base, maxSize, max, message) + Log(now.files, base, max)
  {
    assert "" + message == message;
    if Rotates(initial, maxSize, message) {
      var mid := now.files[base := ""];
      assert now.files == mid[base := mid[base] + message];
      RotatedLoses(initial.files, mid, now.files, base, max, message);
    } else {
      MessageAppended(initial.files, base, max, message);
      assert "" + Log(now.files, base, max) == Log(now.files, base, max);
    }
  }

  function Concat(messages: seq<string>): string {
    if messages == [] then "" else Concat(messages[..|messages| - 1]) + messages[|messages| - 1]
  }

  /** Consecutive successful writes. */
  ghost predicate Run(states: seq<Disk>, messages: seq<string>, base: string, maxSize: nat, max: nat) {
    && |states| == |messages| + 1
    && forall k :: 0 <= k < |messages| ==> Sunk(states[k], states[k + 1], base, maxSize, max, messages[k])
  }

  /** What the rotations of a run delete, in order. */
  function LostByRun(states: seq<Disk>, messages: seq<string>, base: string, maxSize: nat, max: nat): string
    requires |states| == |messages| + 1
    decreases |messages|
  {
    var n := |messages|;
    if n == 0 then ""
    else
      LostByRun(states[..n], messages[..n - 1], base, maxSize, max)
      + LostByWrite(states[n - 1], base, maxSize, max, messages[n - 1])
  }

  /**
   * Over every run of writes without a failed rotation: what the files held at the start and all messages since are
   * what the rotations deleted and what the files hold, oldest first, in order and without a gap.
   */
  lemma {:induction false} FilesHoldTail(
    states: seq<Disk>, messages: seq<string>, base: string, maxSize: nat, max: nat)
    requires Run(states, messages, base, maxSize, max)
    ensures Log(states[0].files, base, max) + Concat(messages)
         == LostByRun(states, messages, base, maxSize, max) + Log(states[|messages|].files, base, max)
    decreases |messages|
  {
    var n, start := |messages|, Log(states[0].files, base, max);
    if n == 0 {
      assert start + "" == start == "" + start;
    } else {
      FilesHoldTail(states[..n], messages[..n - 1], base, maxSize, max);
      WriteLoses(states[n - 1], states[n], base, maxSize, max, messages[n - 1]);
      Chained(start, Concat(messages[..n - 1]), LostByRun(states[..n], messages[..n - 1], base, maxSize, max),
              Log(states[n - 1].files, base, max), messages[n - 1],
              LostByWrite(states[n - 1], base, maxSize, max, messages[n - 1]), Log(states[n].files, base, max));
    }
  }

  lemma Chained(start: string, logged: string, lost: string, held: string, more: string, last: string, now: string)
    requires start + logged == lost + held && held + more == last + now
    ensures start + (logged + more) == (lost + last) + now
  {
    Regrouped(start, logged, more);
    Regrouped(lost, held, more);
    Regrouped(lost, last, now);
  }

  /** No file of the set is larger than m. */
  ghost predicate Bounded(files: Files, base: string, max: nat, m: nat) {
    forall j :: 0 <= j <= max ==> |Text(Numbered(files, base, j))| <= m
  }

  /** The kept size is no smaller than the base file. */
  ghost predicate SizeKept(s: Disk, base: string) {
    base in s.files && |s.files[base]| <= s.size
  }

  /** One write keeps a bound that is no smaller than the limit and the message. */
  lemma WriteKeepsBound(initial: Disk, now: Disk, base: string, maxSize: nat, max: nat, message: string, m: nat)
    requires Sunk(initial, now, base, maxSize, max, message) && SizeKept(initial, base)
    requires Bounded(initial.files, base, max, m) && maxSize <= m && |message| <= m
    ensures Bounded(now.files, base, max, m) && SizeKept(now, base)
  {
    var mid := if initial.size + |message| > maxSize then now.files[base := ""] else initial.files;
    forall j | 0 <= j <= max
      ensures |Text(Numbered(now.files, base, j))| <= m
    {
      if j > 0 {
        CalcFilenameInjective(base, j, 0);
        assert Numbered(now.files, base, j) == Numbered(mid, base, j);
        assert mid != initial.files ==> Numbered(mid, base, j) == Moved(initial.files, base, max, j);
      }
    }
  }

  /**
   * Over every run from a sink whose kept size is right: no file of the set ever grows beyond the largest of the
   * limit, the longest message and the files at the start.
   */
  lemma {:induction false} FilesStayBounded(
    states: seq<Disk>, messages: seq<string>, base: string, maxSize: nat, max: nat, m: nat)
    requires Run(states, messages, base, maxSize, max) && SizeKept(states[0], base)
    requires Bounded(states[0].files, base, max, m) && maxSize <= m
    requires forall k :: 0 <= k < |messages| ==> |messages[k]| <= m
    ensures forall k :: 0 <= k <= |messages| ==> Bounded(states[k].files, base, max, m) && SizeKept(states[k], base)
  {
    var n := |messages|;
    if n > 0 {
      FilesStayBounded(states[..n], messages[..n - 1], base, maxSize, max, m);
      assert states[..n][n - 1] == states[n - 1];
      WriteKeepsBound(states[n - 1], states[n], base, maxSize, max, messages[n - 1], m);
      forall k | 0 <= k <= n
        ensures Bounded(states[k].files, base, max, m) && SizeKept(states[k], base)
      {
        assert k < n ==> states[..n][k] == states[k];
      }
    }
  }
}
