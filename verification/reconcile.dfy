/** One tick of the re-glob loop: expand every pattern of the `-w` flag, then
    add each matched file that the watcher does not watch yet, announcing it
    with a "watching" line. A glob error or a failed `Add` ends the process. */
module Reconcile {
  import opened Base
  import Fields

  /** What the glob matcher (doublestar's `FilepathGlob`) returns for one pattern. */
  datatype GlobResult = Matches(paths: seq<Path>) | GlobError(message: string)

  /** Glob expansion of all patterns, or the first pattern that failed. */
  datatype Expansion = Expanded(filenames: seq<Path>) | ExpandFailed(pattern: string, message: string)

  /** Why the process exits with status 1. */
  datatype Fatal = GlobFailed(pattern: string, message: string) | AddFailed(path: Path)

  /** The state after a pass: the watch list, the paths announced with a
      "watching" line (in order), and, if the process exited, why. */
  datatype Pass =
    | Completed(watched: seq<Path>, announced: seq<Path>)
    | Exited(watched: seq<Path>, announced: seq<Path>, reason: Fatal)

  /** The matches of all patterns, concatenated in pattern order; the first
      pattern whose glob fails stops the expansion. */
  function Expand(patterns: seq<string>, glob: string -> GlobResult): (r: Expansion)
    ensures r.Expanded? <==> forall i :: 0 <= i < |patterns| ==> glob(patterns[i]).Matches?
    ensures r.Expanded? ==>
      forall p :: p in r.filenames <==> exists i :: 0 <= i < |patterns| && p in glob(patterns[i]).paths
    ensures r.ExpandFailed? ==>
      exists i :: 0 <= i < |patterns| && patterns[i] == r.pattern && glob(patterns[i]) == GlobError(r.message)
                  && forall j :: 0 <= j < i ==> glob(patterns[j]).Matches?
    ensures |patterns| == 1 && glob(patterns[0]).Matches? ==> r == Expanded(glob(patterns[0]).paths)
    decreases |patterns|
  {
    if |patterns| == 0 then Expanded([])
    else
      match glob(patterns[0])
      case GlobError(m) => ExpandFailed(patterns[0], m)
      case Matches(ms) =>
        var rest := Expand(patterns[1..], glob);
        if rest.ExpandFailed? then
          assert forall i :: 0 <= i < |patterns| - 1 ==> patterns[1..][i] == patterns[i + 1];
          rest
        else
          assert forall i :: 0 <= i < |patterns| - 1 ==> patterns[1..][i] == patterns[i + 1];
          Expanded(ms + rest.filenames)
  }

  /** Expansion distributes over concatenation of pattern lists: the file
      sequence is the matches of each pattern, in pattern order. */
  lemma {:induction false} ExpandConcat(p1: seq<string>, p2: seq<string>, glob: string -> GlobResult)
    requires Expand(p1, glob).Expanded? && Expand(p2, glob).Expanded?
    ensures Expand(p1 + p2, glob) == Expanded(Expand(p1, glob).filenames + Expand(p2, glob).filenames)
    decreases |p1|
  {
    if |p1| == 0 {
      assert p1 + p2 == p2;
    } else {
      assert (p1 + p2)[0] == p1[0];
      assert (p1 + p2)[1..] == p1[1..] + p2;
      ExpandConcat(p1[1..], p2, glob);
    }
  }

  /** The membership facts of `Expand`, stated over the patterns themselves. */
  lemma ExpandedMembership(patterns: seq<string>, glob: string -> GlobResult)
    requires Expand(patterns, glob).Expanded?
    ensures forall pat :: pat in patterns ==> glob(pat).Matches?
    ensures forall f :: f in Expand(patterns, glob).filenames <==>
      exists pat :: pat in patterns && glob(pat).Matches? && f in glob(pat).paths
  {
    var fs := Expand(patterns, glob).filenames;
    forall f | f in fs
      ensures exists pat :: pat in patterns && glob(pat).Matches? && f in glob(pat).paths
    {
      var i :| 0 <= i < |patterns| && f in glob(patterns[i]).paths;
      assert patterns[i] in patterns;
    }
    forall pat, f | pat in patterns && glob(pat).Matches? && f in glob(pat).paths
      ensures f in fs
    {
      var i :| 0 <= i < |patterns| && patterns[i] == pat;
    }
  }

  /** Puts `f` in front of the announced paths of a pass. */
  function Announce(f: Path, r: Pass): Pass {
    match r
    case Completed(w, a) => Completed(w, [f] + a)
    case Exited(w, a, e) => Exited(w, [f] + a, e)
  }

  /** The add loop: each filename that is not watched yet is announced and
      added; the first `Add` that fails ends the process (its "watching" line
      was already printed). `canAdd` is the filesystem's answer to `Add`. */
  function AddNew(watched: seq<Path>, filenames: seq<Path>, canAdd: Path -> bool): (r: Pass)
    requires NoDuplicates(watched)
    ensures NoDuplicates(r.watched)
    ensures watched <= r.watched
    ensures forall p :: p in r.watched ==> p in watched || p in filenames
    ensures forall p :: p in r.watched && p !in watched ==> canAdd(p)
    ensures r.Completed? <==> forall f :: f in filenames && f !in watched ==> canAdd(f)
    ensures r.Completed? ==> r.watched == watched + r.announced
    ensures r.Completed? ==> forall f :: f in filenames ==> f in r.watched
    ensures r.Exited? ==>
      && r.reason.AddFailed?
      && r.reason.path in filenames && r.reason.path !in r.watched && !canAdd(r.reason.path)
      && r.watched + [r.reason.path] == watched + r.announced
    decreases |filenames|
  {
    if |filenames| == 0 then Completed(watched, [])
    else
      var f := filenames[0];
      assert forall g :: g in filenames <==> g == f || g in filenames[1..];
      if f in watched then AddNew(watched, filenames[1..], canAdd)
      else if canAdd(f) then
        var r := AddNew(Watch(watched, f), filenames[1..], canAdd);
        assert Watch(watched, f) == watched + [f];
        Announce(f, r)
      else Exited(watched, [f], AddFailed(f))
  }

  /** One tick of the re-glob loop over the `-w` flag. */
  function Tick(watched: seq<Path>, flag: string, glob: string -> GlobResult, canAdd: Path -> bool): (r: Pass)
    requires NoDuplicates(watched)
    ensures NoDuplicates(r.watched)
    ensures watched <= r.watched
    ensures r.Completed? ==>
      forall pat, f :: pat in Fields.Fields(flag) && glob(pat).Matches? && f in glob(pat).paths ==> f in r.watched
    ensures r.Completed? ==> r.watched == watched + r.announced && NoDuplicates(r.announced)
    ensures forall p :: p in r.announced ==> p !in watched
    ensures r.Completed? <==>
      && (forall pat :: pat in Fields.Fields(flag) ==> glob(pat).Matches?)
      && (forall pat, f :: pat in Fields.Fields(flag) && glob(pat).Matches? && f in glob(pat).paths && f !in watched ==> canAdd(f))
    ensures r.Exited? && r.reason.GlobFailed? ==>
      && r.watched == watched && r.announced == []
      && r.reason.pattern in Fields.Fields(flag)
      && glob(r.reason.pattern) == GlobError(r.reason.message)
    ensures (exists pat :: pat in Fields.Fields(flag) && glob(pat).GlobError?) ==>
      r.Exited? && r.reason.GlobFailed? && r.watched == watched && r.announced == []
    ensures r.Exited? && r.reason.GlobFailed? ==>
      exists i :: 0 <= i < |Fields.Fields(flag)| && Fields.Fields(flag)[i] == r.reason.pattern
                  && forall j :: 0 <= j < i ==> glob(Fields.Fields(flag)[j]).Matches?
    ensures forall p :: p in r.watched && p !in watched ==> canAdd(p)
    ensures r.Exited? && r.reason.AddFailed? ==>
      && r.watched + [r.reason.path] == watched + r.announced
      && r.reason.path !in r.watched
      && !canAdd(r.reason.path)
      && exists pat :: pat in Fields.Fields(flag) && glob(pat).Matches? && r.reason.path in glob(pat).paths
    ensures forall p :: p in r.watched ==>
      p in watched || exists pat :: pat in Fields.Fields(flag) && glob(pat).Matches? && p in glob(pat).paths
  {
    var patterns := Fields.Fields(flag);
    match Expand(patterns, glob)
    case ExpandFailed(p, m) => Exited(watched, [], GlobFailed(p, m))
    case Expanded(fs) =>
      var r := AddNew(watched, fs, canAdd);
      ExpandedMembership(patterns, glob);
      if r.Completed? then
        NoDuplicatesSplit(watched, r.announced);
        r
      else
        NoDuplicatesSplit(r.watched, [r.reason.path]);
        NoDuplicatesSplit(watched, r.announced);
        r
  }

  /** The pass `r` is the completed pass `pre` followed by the "watching"
      line of `path`, whose `Add` failed. */
  predicate FailsAfter(r: Pass, pre: Pass, path: Path) {
    && r.Exited? && r.reason == AddFailed(path)
    && |r.announced| > 0 && r.announced[|r.announced| - 1] == path
    && pre == Completed(r.watched, r.announced[..|r.announced| - 1])
  }

  /** The pass `r` is the loop completed over `filenames[..k]`, followed by
      the "watching" line of `filenames[k]`, whose `Add` failed. */
  predicate ExitsAfterPrefix(watched: seq<Path>, filenames: seq<Path>, canAdd: Path -> bool, r: Pass, k: int)
    requires NoDuplicates(watched)
  {
    0 <= k < |filenames| && FailsAfter(r, AddNew(watched, filenames[..k], canAdd), filenames[k])
  }

  /** A failed `Add` ends the loop at the first filename that fails: the pass
      is the loop completed over the filenames before it, followed by that
      path's "watching" line, and the path itself is not added. */
  lemma {:induction false} AddNewStopsAtFirstFailure(watched: seq<Path>, filenames: seq<Path>, canAdd: Path -> bool)
    requires NoDuplicates(watched)
    ensures AddNew(watched, filenames, canAdd).Exited? ==>
      exists k :: ExitsAfterPrefix(watched, filenames, canAdd, AddNew(watched, filenames, canAdd), k)
    decreases |filenames|
  {
    if |filenames| > 0 && AddNew(watched, filenames, canAdd).Exited? {
      var f := filenames[0];
      if f in watched {
        AddNewStopsAtFirstFailure(watched, filenames[1..], canAdd);
        var k :| ExitsAfterPrefix(watched, filenames[1..], canAdd, AddNew(watched, filenames[1..], canAdd), k);
        ExitAfterWatchedHead(watched, filenames, canAdd, k);
      } else if canAdd(f) {
        AddNewStopsAtFirstFailure(Watch(watched, f), filenames[1..], canAdd);
        var k :| ExitsAfterPrefix(Watch(watched, f), filenames[1..], canAdd, AddNew(Watch(watched, f), filenames[1..], canAdd), k);
        ExitAfterAddedHead(watched, filenames, canAdd, k);
      } else {
        assert filenames[..0] == [];
        assert ExitsAfterPrefix(watched, filenames, canAdd, AddNew(watched, filenames, canAdd), 0);
      }
    }
  }

  lemma ExitAfterWatchedHead(watched: seq<Path>, filenames: seq<Path>, canAdd: Path -> bool, k: int)
    requires NoDuplicates(watched) && |filenames| > 0 && filenames[0] in watched
    requires ExitsAfterPrefix(watched, filenames[1..], canAdd, AddNew(watched, filenames[1..], canAdd), k)
    ensures ExitsAfterPrefix(watched, filenames, canAdd, AddNew(watched, filenames, canAdd), k + 1)
  {
    SkipWatchedHead(watched, filenames, k + 1, canAdd);
  }

  lemma ExitAfterAddedHead(watched: seq<Path>, filenames: seq<Path>, canAdd: Path -> bool, k: int)
    requires NoDuplicates(watched) && |filenames| > 0 && filenames[0] !in watched && canAdd(filenames[0])
    requires ExitsAfterPrefix(Watch(watched, filenames[0]), filenames[1..], canAdd,
                              AddNew(Watch(watched, filenames[0]), filenames[1..], canAdd), k)
    ensures ExitsAfterPrefix(watched, filenames, canAdd, AddNew(watched, filenames, canAdd), k + 1)
  {
    var f := filenames[0];
    var r' := AddNew(Watch(watched, f), filenames[1..], canAdd);
    var pre' := AddNew(Watch(watched, f), filenames[1..][..k], canAdd);
    assert AddNew(watched, filenames, canAdd) == Announce(f, r');
    AddHead(watched, filenames, k + 1, canAdd);
    assert filenames[k + 1] == filenames[1..][k];
    AnnounceFailsAfter(f, r', pre', filenames[k + 1]);
  }

  /** Announcing one more path in front of both passes keeps `FailsAfter`. */
  lemma AnnounceFailsAfter(f: Path, r: Pass, pre: Pass, path: Path)
    requires FailsAfter(r, pre, path)
    ensures FailsAfter(Announce(f, r), Announce(f, pre), path)
  {
    var r2 := Announce(f, r);
    assert r2.announced[..|r2.announced| - 1] == [f] + r.announced[..|r.announced| - 1];
  }

  /** The loop over a prefix that starts with a watched filename skips it. */
  lemma SkipWatchedHead(watched: seq<Path>, filenames: seq<Path>, k: nat, canAdd: Path -> bool)
    requires NoDuplicates(watched)
    requires 0 < k <= |filenames| && filenames[0] in watched
    ensures AddNew(watched, filenames[..k], canAdd) == AddNew(watched, filenames[1..][..k - 1], canAdd)
  {
    assert filenames[..k][0] == filenames[0];
    assert filenames[..k][1..] == filenames[1..][..k - 1];
  }

  /** The loop over a prefix that starts with an addable filename announces
      and adds it, then goes on. */
  lemma AddHead(watched: seq<Path>, filenames: seq<Path>, k: nat, canAdd: Path -> bool)
    requires NoDuplicates(watched)
    requires 0 < k <= |filenames| && filenames[0] !in watched && canAdd(filenames[0])
    ensures AddNew(watched, filenames[..k], canAdd)
         == Announce(filenames[0], AddNew(Watch(watched, filenames[0]), filenames[1..][..k - 1], canAdd))
  {
    assert filenames[..k][0] == filenames[0];
    assert filenames[..k][1..] == filenames[1..][..k - 1];
  }

  /** A tick that exits on a failed `Add` has globbed every pattern, and stops
      at the first matched file whose `Add` fails, after completing the add
      loop over the matches before it. */
  lemma TickStopsAtFirstFailure(watched: seq<Path>, flag: string, glob: string -> GlobResult, canAdd: Path -> bool)
    requires NoDuplicates(watched)
    ensures var r := Tick(watched, flag, glob, canAdd);
      r.Exited? && r.reason.AddFailed? ==>
        && Expand(Fields.Fields(flag), glob).Expanded?
        && exists k :: ExitsAfterPrefix(watched, Expand(Fields.Fields(flag), glob).filenames, canAdd, r, k)
  {
    var e := Expand(Fields.Fields(flag), glob);
    if e.Expanded? {
      AddNewStopsAtFirstFailure(watched, e.filenames, canAdd);
    }
  }

  /** A pass over filenames that are all watched already changes nothing and
      announces nothing. */
  lemma {:induction false} AddNewAllWatched(watched: seq<Path>, filenames: seq<Path>, canAdd: Path -> bool)
    requires NoDuplicates(watched)
    requires forall f :: f in filenames ==> f in watched
    ensures AddNew(watched, filenames, canAdd) == Completed(watched, [])
    decreases |filenames|
  {
    if |filenames| > 0 {
      assert filenames[0] in filenames;
      assert forall g :: g in filenames[1..] ==> g in filenames;
      AddNewAllWatched(watched, filenames[1..], canAdd);
    }
  }

  /** The add loop is idempotent: after it completes, running it again over
      the same filenames adds nothing and announces nothing. */
  lemma AddNewIdempotent(watched: seq<Path>, filenames: seq<Path>, canAdd: Path -> bool)
    requires NoDuplicates(watched)
    requires AddNew(watched, filenames, canAdd).Completed?
    ensures var w := AddNew(watched, filenames, canAdd).watched;
            AddNew(w, filenames, canAdd) == Completed(w, [])
  {
    AddNewAllWatched(AddNew(watched, filenames, canAdd).watched, filenames, canAdd);
  }

  /** Reconciliation is idempotent: after a pass that completes, a second pass
      with the same glob results adds nothing and prints no "watching" line. */
  lemma TickIdempotent(watched: seq<Path>, flag: string, glob: string -> GlobResult, canAdd: Path -> bool)
    requires NoDuplicates(watched)
    requires Tick(watched, flag, glob, canAdd).Completed?
    ensures var w := Tick(watched, flag, glob, canAdd).watched;
            Tick(w, flag, glob, canAdd) == Completed(w, [])
  {
    var w := Tick(watched, flag, glob, canAdd).watched;
    var fs := Expand(Fields.Fields(flag), glob).filenames;
    AddNewAllWatched(w, fs, canAdd);
  }
}
