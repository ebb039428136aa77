/** The archive as a protocol: `archive_command` and `restore_command` of
    src/domain/policies/postgres.rs, with retention deleting beside them.

    Postgres runs one archive command at a time for a finished segment `%f`:

        test ! -f A/%f.gz && gzip -1 < %p > A/%f.gz.tmp && mv A/%f.gz.tmp A/%f.gz

    Each step of it, each write of `gzip`, each deletion by a retention pass and
    a crash of the command at any moment is an action here, and the results are
    about every sequence of actions. `gzip` and `gunzip` are an inverse pair of
    functions; a finished segment never changes.
 */
module WalArchive {
  import opened Text
  import Wal

  type Bytes = seq<bv8>

  datatype Codec = Codec(gzip: Bytes -> Bytes, gunzip: Bytes -> Option<Bytes>)

  ghost predicate Inverse(z: Codec) {
    forall b: Bytes :: z.gunzip(z.gzip(b)) == Some(b)
  }

  /** How far the running archive command has come. */
  datatype Attempt =
    | Idle
    | Tested(segment: string)
    | Writing(segment: string, done: nat)
    | Written(segment: string)
    | Renamed(segment: string)

  /** The archive directory, the command that is running, the segments whose
      command succeeded, and those that a retention pass took out. */
  datatype State = State(files: map<string, Bytes>, attempt: Attempt, reported: set<string>, pruned: set<string>)

  datatype Action =
    | Test(segment: string)
    | Open
    | Write(count: nat)
    | Close
    | Rename
    | Report
    | Crash
    | Prune(file: string, oldest: string)

  function Final(segment: string): string { segment + ".gz" }

  function Temporary(segment: string): string { segment + ".gz.tmp" }

  const Empty := State(map[], Idle, {}, {})

  /** One action; an action that cannot happen changes nothing. `content` is
      what Postgres wrote in each segment. */
  function Step(z: Codec, content: string -> Bytes, s: State, a: Action): State {
    match (a, s.attempt)
    case (Test(f), Idle) =>
      // `test ! -f`: a command that fails has changed nothing.
      if Final(f) in s.files then s else s.(attempt := Tested(f))
    case (Open, Tested(f)) =>
      // The shell truncates the target before gzip starts.
      s.(files := s.files[Temporary(f) := []], attempt := Writing(f, 0))
    case (Write(n), Writing(f, done)) =>
      var zipped := z.gzip(content(f));
      if done <= n <= |zipped| then s.(files := s.files[Temporary(f) := zipped[..n]], attempt := Writing(f, n)) else s
    case (Close, Writing(f, done)) =>
      if done == |z.gzip(content(f))| then s.(attempt := Written(f)) else s
    case (Rename, Written(f)) =>
      if Temporary(f) in s.files then
        s.(files := (s.files - {Temporary(f)})[Final(f) := s.files[Temporary(f)]], attempt := Renamed(f))
      else s
    case (Report, Renamed(f)) => s.(attempt := Idle, reported := s.reported + {f})
    case (Crash, _) => s.(attempt := Idle)
    case (Prune(file, oldest), _) =>
      if file in s.files && Wal.MayDelete(file, oldest) then
        s.(files := s.files - {file}, pruned := s.pruned + {file})
      else s
    case _ => s
  }

  function Run(z: Codec, content: string -> Bytes, s: State, actions: seq<Action>): State
    decreases |actions|
  {
    if actions == [] then s else Run(z, content, Step(z, content, s, actions[0]), actions[1..])
  }

  /** `restore_command`: what the recovering server is given for a segment. */
  function Restore(z: Codec, s: State, segment: string): Option<Bytes> {
    if Final(segment) in s.files then z.gunzip(s.files[Final(segment)]) else None
  }

  // ---------- file names ----------

  lemma NamesApart(f: string, g: string)
    ensures Final(f) != Temporary(g)
    ensures Final(f) == Final(g) ==> f == g
  {
    assert Final(f)[|Final(f)| - 1] == 'z' && Temporary(g)[|Temporary(g)| - 1] == 'p';
    assert Final(f)[..|f|] == f && Final(g)[..|g|] == g;
  }

  /** A leftover temporary file is never taken for a segment and never deleted. */
  lemma TemporaryIsKept(f: string, oldest: string)
    ensures !Wal.IsSegmentName(WithoutSuffix(Temporary(f), ".gz"))
    ensures !Wal.MayDelete(Temporary(f), oldest)
  {
    var t := Temporary(f);
    assert t[|t| - 1] == 'p' && t[|t| - 3..][2] == t[|t| - 1];
    assert !Wal.IsHex(t[|t| - 1]);
  }

  // ---------- what every action keeps ----------

  /** Every file under a final name is the whole segment compressed, and the
      temporary file of the running command holds what has been written. */
  ghost predicate Sound(z: Codec, content: string -> Bytes, s: State) {
    && (forall f :: Final(f) in s.files ==> s.files[Final(f)] == z.gzip(content(f)))
    && (forall f :: f in s.reported ==> Final(f) in s.files || Final(f) in s.pruned)
    && match s.attempt
       case Idle => true
       case Tested(f) => Final(f) !in s.files
       case Writing(f, done) =>
         Final(f) !in s.files && done <= |z.gzip(content(f))|
         && Temporary(f) in s.files && s.files[Temporary(f)] == z.gzip(content(f))[..done]
       case Written(f) =>
         Final(f) !in s.files && Temporary(f) in s.files && s.files[Temporary(f)] == z.gzip(content(f))
       case Renamed(f) => Final(f) in s.files || Final(f) in s.pruned
  }

  lemma StepKeepsSound(z: Codec, content: string -> Bytes, s: State, a: Action)
    requires Sound(z, content, s)
    ensures Sound(z, content, Step(z, content, s, a))
  {
    var t := Step(z, content, s, a);
    forall f
      ensures Final(f) in t.files ==> t.files[Final(f)] == z.gzip(content(f))
    {
      match (a, s.attempt)
      case (Open, Tested(g)) => NamesApart(f, g);
      case (Write(_), Writing(g, _)) => NamesApart(f, g);
      case (Rename, Written(g)) => NamesApart(f, g);
      case _ =>
    }
    forall f | f in t.reported
      ensures Final(f) in t.files || Final(f) in t.pruned
    {
      match (a, s.attempt)
      case (Open, Tested(g)) => NamesApart(f, g);
      case (Write(_), Writing(g, _)) => NamesApart(f, g);
      case (Rename, Written(g)) => NamesApart(f, g);
      case _ =>
    }
    match (a, s.attempt)
    case (Open, Tested(g)) => NamesApart(g, g);
    case (Write(_), Writing(g, _)) => NamesApart(g, g);
    case (Close, Writing(g, done)) =>
      var zipped := z.gzip(content(g));
      assert done == |zipped| ==> zipped[..done] == zipped;
    case (Prune(file, oldest), Writing(g, _)) => TemporaryIsKept(g, oldest);
    case (Prune(file, oldest), Written(g)) => TemporaryIsKept(g, oldest);
    case _ =>
  }

  lemma {:induction false} RunKeepsSound(z: Codec, content: string -> Bytes, s: State, actions: seq<Action>)
    requires Sound(z, content, s)
    ensures Sound(z, content, Run(z, content, s, actions))
    decreases |actions|
  {
    if actions != [] {
      StepKeepsSound(z, content, s, actions[0]);
      RunKeepsSound(z, content, Step(z, content, s, actions[0]), actions[1..]);
    }
  }

  // ---------- what a restore reads ----------

  /** Over every run, from an empty archive: what is there under its final name
      restores to the original bytes, and what was reported archived is there
      unless retention deleted it. */
  lemma ArchiveRestoresOriginals(z: Codec, content: string -> Bytes, actions: seq<Action>, segment: string)
    requires Inverse(z)
    ensures var s := Run(z, content, Empty, actions);
            && (Final(segment) in s.files ==> Restore(z, s, segment) == Some(content(segment)))
            && (segment in s.reported && Final(segment) !in s.pruned ==>
                  Restore(z, s, segment) == Some(content(segment)))
  {
    RunKeepsSound(z, content, Empty, actions);
  }

  /** Present once, never changed: at any two moments of a run at which a file
      is there under a final name, it is the same file. */
  lemma FinalFilesNeverChange(z: Codec, content: string -> Bytes, before: seq<Action>, more: seq<Action>,
      segment: string)
    ensures var s := Run(z, content, Empty, before); var t := Run(z, content, Empty, before + more);
            Final(segment) in s.files && Final(segment) in t.files ==>
              s.files[Final(segment)] == t.files[Final(segment)]
  {
    RunKeepsSound(z, content, Empty, before);
    RunKeepsSound(z, content, Empty, before + more);
  }

  /** Retention aside, what is present stays present. */
  lemma {:induction false} OnlyRetentionDeletes(z: Codec, content: string -> Bytes, s: State, actions: seq<Action>,
      segment: string)
    requires Final(segment) in s.files
    ensures var t := Run(z, content, s, actions); Final(segment) in t.files || Final(segment) in t.pruned
    decreases |actions|
  {
    if actions != [] {
      var next := Step(z, content, s, actions[0]);
      match s.attempt {
        case Idle =>
        case Tested(g) => NamesApart(segment, g);
        case Writing(g, _) => NamesApart(segment, g);
        case Written(g) => NamesApart(segment, g);
        case Renamed(g) => NamesApart(segment, g);
      }
      if Final(segment) in next.files {
        OnlyRetentionDeletes(z, content, next, actions[1..], segment);
      } else {
        PrunedForEver(z, content, next, actions[1..], Final(segment));
      }
    }
  }

  lemma {:induction false} PrunedForEver(z: Codec, content: string -> Bytes, s: State, actions: seq<Action>,
      file: string)
    requires file in s.pruned
    ensures file in Run(z, content, s, actions).pruned
    decreases |actions|
  {
    if actions != [] {
      PrunedForEver(z, content, Step(z, content, s, actions[0]), actions[1..], file);
    }
  }

  // ---------- what retention takes ----------

  /** A canonical segment, by its numbers. */
  predicate Numbered(timeline: nat, segment: nat) {
    timeline < Wal.U32 && segment * Wal.SEGMENT_BYTES < Wal.U64
  }

  function NameOf(timeline: nat, segment: nat): string
    requires Numbered(timeline, segment)
  {
    Wal.SegmentName(timeline, segment * Wal.SEGMENT_BYTES)
  }

  /** An earlier timeline, or an earlier segment of the anchor's own. */
  predicate Precedes(timeline: nat, segment: nat, anchor: Wal.Start) {
    timeline < anchor.timeline || (timeline == anchor.timeline && segment < anchor.lsn / Wal.SEGMENT_BYTES)
  }

  /** A pass measures against the name of the segment that a backup starts in. */
  ghost predicate HasAnchor(a: Action, anchor: Wal.Start) {
    a.Prune? && Wal.ValidStart(anchor) && a.oldest == Wal.SegmentName(anchor.timeline, anchor.lsn)
  }

  ghost predicate Anchored(actions: seq<Action>) {
    forall k :: 0 <= k < |actions| && actions[k].Prune? ==> exists anchor :: HasAnchor(actions[k], anchor)
  }

  /** A pass reaches the file of a segment that is before its anchor. */
  ghost predicate Takes(a: Action, timeline: nat, segment: nat)
    requires Numbered(timeline, segment)
  {
    && a.Prune? && a.file == Final(NameOf(timeline, segment))
    && exists anchor :: HasAnchor(a, anchor) && Precedes(timeline, segment, anchor)
  }

  lemma PruneMeasures(timeline: nat, segment: nat, a: Action, anchor: Wal.Start)
    requires Numbered(timeline, segment) && HasAnchor(a, anchor)
    ensures Wal.MayDelete(Final(NameOf(timeline, segment)), a.oldest) <==> Precedes(timeline, segment, anchor)
  {
    Wal.DeletableIsEarlier(timeline, segment, anchor);
  }

  /** What one action does to a segment that is there: a pass with a later
      anchor takes it out, and nothing else does. */
  lemma StepOnSegment(z: Codec, content: string -> Bytes, s: State, a: Action, timeline: nat, segment: nat)
    requires Numbered(timeline, segment) && Final(NameOf(timeline, segment)) in s.files
    requires a.Prune? ==> exists anchor :: HasAnchor(a, anchor)
    ensures var file := Final(NameOf(timeline, segment)); var t := Step(z, content, s, a);
            && (file in t.files <==> !Takes(a, timeline, segment))
            && (file in t.pruned <==> file in s.pruned || Takes(a, timeline, segment))
  {
    var name := NameOf(timeline, segment);
    if a.Prune? {
      var anchor :| HasAnchor(a, anchor);
      PruneMeasures(timeline, segment, a, anchor);
      forall other | HasAnchor(a, other) && Precedes(timeline, segment, other)
        ensures Wal.MayDelete(Final(name), a.oldest)
      {
        PruneMeasures(timeline, segment, a, other);
      }
    } else {
      match s.attempt
      case Idle =>
      case Tested(g) => NamesApart(name, g);
      case Writing(g, _) => NamesApart(name, g);
      case Written(g) => NamesApart(name, g);
      case Renamed(g) => NamesApart(name, g);
    }
  }

  /** Over every run: a segment that is there at some moment is there at the end
      if no later pass measures against an anchor that comes after it, and has
      been taken out by the end exactly if one that reaches it does. */
  lemma {:induction false} TakenExactlyIfEarlier(z: Codec, content: string -> Bytes, s: State,
      actions: seq<Action>, timeline: nat, segment: nat)
    requires Numbered(timeline, segment) && Anchored(actions)
    requires Final(NameOf(timeline, segment)) in s.files && Final(NameOf(timeline, segment)) !in s.pruned
    ensures var file := Final(NameOf(timeline, segment)); var t := Run(z, content, s, actions);
            && (file in t.pruned <==> exists k :: 0 <= k < |actions| && Takes(actions[k], timeline, segment))
            && (file !in t.pruned ==> file in t.files)
    decreases |actions|
  {
    var file := Final(NameOf(timeline, segment));
    if actions != [] {
      var next := Step(z, content, s, actions[0]);
      StepOnSegment(z, content, s, actions[0], timeline, segment);
      if Takes(actions[0], timeline, segment) {
        PrunedForEver(z, content, next, actions[1..], file);
      } else {
        TakenExactlyIfEarlier(z, content, next, actions[1..], timeline, segment);
        if k :| 0 <= k < |actions| && Takes(actions[k], timeline, segment) {
          assert actions[k] == actions[1..][k - 1];
        }
        if k :| 0 <= k < |actions[1..]| && Takes(actions[1..][k], timeline, segment) {
          assert actions[1..][k] == actions[k + 1];
        }
      }
    }
  }

  /** Every pass leaves this segment to whoever needs it. */
  ghost predicate Spares(actions: seq<Action>, timeline: nat, segment: nat) {
    forall k :: 0 <= k < |actions| && actions[k].Prune? ==>
      exists anchor :: HasAnchor(actions[k], anchor) && !Precedes(timeline, segment, anchor)
  }

  lemma {:induction false} SparedStays(z: Codec, content: string -> Bytes, s: State, actions: seq<Action>,
      timeline: nat, segment: nat)
    requires Numbered(timeline, segment) && Spares(actions, timeline, segment)
    requires Final(NameOf(timeline, segment)) in s.files
    ensures Final(NameOf(timeline, segment)) in Run(z, content, s, actions).files
    decreases |actions|
  {
    if actions != [] {
      var a := actions[0];
      if a.Prune? {
        var anchor :| HasAnchor(a, anchor) && !Precedes(timeline, segment, anchor);
        forall other | HasAnchor(a, other)
          ensures !Precedes(timeline, segment, other)
        {
          PruneMeasures(timeline, segment, a, anchor);
          PruneMeasures(timeline, segment, a, other);
        }
      }
      StepOnSegment(z, content, s, a, timeline, segment);
      SparedStays(z, content, Step(z, content, s, a), actions[1..], timeline, segment);
    }
  }

  lemma {:induction false} RunFurther(z: Codec, content: string -> Bytes, s: State, before: seq<Action>,
      more: seq<Action>)
    ensures Run(z, content, s, before + more) == Run(z, content, Run(z, content, s, before), more)
    decreases |before|
  {
    if before == [] {
      assert before + more == more;
    } else {
      assert (before + more)[1..] == before[1..] + more;
      RunFurther(z, content, Step(z, content, s, before[0]), before[1..], more);
    }
  }

  /** What a kept backup needs stays. Over every run from an empty archive, a
      segment that is there at some moment, and at or after the anchor of every
      pass that comes later, is there at the end and restores to its bytes. */
  lemma NeededSegmentsRestore(z: Codec, content: string -> Bytes, before: seq<Action>, more: seq<Action>,
      timeline: nat, segment: nat)
    requires Inverse(z) && Numbered(timeline, segment) && Spares(more, timeline, segment)
    requires Final(NameOf(timeline, segment)) in Run(z, content, Empty, before).files
    ensures Restore(z, Run(z, content, Empty, before + more), NameOf(timeline, segment))
            == Some(content(NameOf(timeline, segment)))
  {
    SparedStays(z, content, Run(z, content, Empty, before), more, timeline, segment);
    RunFurther(z, content, Empty, before, more);
    ArchiveRestoresOriginals(z, content, before + more, NameOf(timeline, segment));
  }

  /** Reported to Postgres as archived, and needed by every pass of the run: it
      restores at every moment from then on. */
  lemma ReportedAndNeededRestores(z: Codec, content: string -> Bytes, actions: seq<Action>,
      timeline: nat, segment: nat)
    requires Inverse(z) && Numbered(timeline, segment) && Spares(actions, timeline, segment)
    requires NameOf(timeline, segment) in Run(z, content, Empty, actions).reported
    ensures Restore(z, Run(z, content, Empty, actions), NameOf(timeline, segment))
            == Some(content(NameOf(timeline, segment)))
  {
    ArchiveRestoresOriginals(z, content, actions, NameOf(timeline, segment));
    SparedIsNeverPruned(z, content, Empty, actions, timeline, segment);
  }

  lemma {:induction false} SparedIsNeverPruned(z: Codec, content: string -> Bytes, s: State, actions: seq<Action>,
      timeline: nat, segment: nat)
    requires Numbered(timeline, segment) && Spares(actions, timeline, segment)
    requires Final(NameOf(timeline, segment)) !in s.pruned
    ensures Final(NameOf(timeline, segment)) !in Run(z, content, s, actions).pruned
    decreases |actions|
  {
    if actions != [] {
      var a := actions[0];
      if a.Prune? {
        var anchor :| HasAnchor(a, anchor) && !Precedes(timeline, segment, anchor);
        PruneMeasures(timeline, segment, a, anchor);
      }
      SparedIsNeverPruned(z, content, Step(z, content, s, a), actions[1..], timeline, segment);
    }
  }

  /** A file that is no segment name, with its suffix or without, is out of every
      pass's reach: a history file, a temporary one, or anything left there. */
  ghost predicate Unnamed(file: string) {
    forall name :: file == name || file == name + ".gz" ==>
      |name| != 24 || exists i :: 0 <= i < |name| && !Wal.Digit16(name[i])
  }

  lemma UnnamedIsNeverPruned(z: Codec, content: string -> Bytes, s: State, pruned: string, oldest: string,
      file: string)
    requires Unnamed(file) && file in s.files
    ensures var t := Step(z, content, s, Prune(pruned, oldest));
            file in t.files && t.files[file] == s.files[file] && (file in t.pruned <==> file in s.pruned)
  {
    Wal.DeletableExactly(file, oldest);
  }

  /** Only whole segments and their temporary files come and go: over every run,
      whatever else is in the directory is as it was. */
  lemma {:induction false} StrangersStay(z: Codec, content: string -> Bytes, s: State, actions: seq<Action>,
      file: string)
    requires Unnamed(file) && file in s.files && !EndsWith(file, ".gz") && !EndsWith(file, ".gz.tmp")
    ensures var t := Run(z, content, s, actions); file in t.files && t.files[file] == s.files[file]
    decreases |actions|
  {
    if actions != [] {
      var a := actions[0];
      if a.Prune? {
        UnnamedIsNeverPruned(z, content, s, a.file, a.oldest, file);
      } else if s.attempt != Idle {
        assert EndsWith(Final(s.attempt.segment), ".gz") && EndsWith(Temporary(s.attempt.segment), ".gz.tmp");
      }
      StrangersStay(z, content, Step(z, content, s, a), actions[1..], file);
    }
  }

  /** A pass over a listing of the directory, one file after the other. */
  function Pass(listing: seq<string>, oldest: string): seq<Action> {
    seq(|listing|, i requires 0 <= i < |listing| => Prune(listing[i], oldest))
  }

  /** An undisturbed pass over everything that is there leaves exactly what
      `Wal.Sweep` keeps, each file as it was, and says what it took. */
  lemma PassIsSweep(z: Codec, content: string -> Bytes, s: State, listing: seq<string>, anchor: Wal.Start)
    requires Wal.ValidStart(anchor) && forall f :: f in s.files ==> f in listing
    ensures var t := Run(z, content, s, Pass(listing, Wal.StartName(anchor)));
            && t.files.Keys == Wal.Sweep(s.files.Keys, Some(anchor))
            && t.pruned == s.pruned + (s.files.Keys - Wal.Sweep(s.files.Keys, Some(anchor)))
            && (forall f :: f in t.files ==> t.files[f] == s.files[f])
            && t.attempt == s.attempt && t.reported == s.reported
  {
    PassTakes(z, content, s, listing, Wal.StartName(anchor));
    var t := Run(z, content, s, Pass(listing, Wal.StartName(anchor)));
    forall f | f in s.files
      ensures f in t.files <==> f in Wal.Sweep(s.files.Keys, Some(anchor))
    {
    }
    assert t.files.Keys == Wal.Sweep(s.files.Keys, Some(anchor));
  }

  lemma {:induction false} PassTakes(z: Codec, content: string -> Bytes, s: State, listing: seq<string>,
      oldest: string)
    ensures var t := Run(z, content, s, Pass(listing, oldest));
            && t.files.Keys <= s.files.Keys
            && (forall f :: f in s.files ==> (f in t.files <==> !(f in listing && Wal.MayDelete(f, oldest))))
            && (forall f :: f in t.files ==> t.files[f] == s.files[f])
            && t.pruned == s.pruned + (s.files.Keys - t.files.Keys)
            && t.attempt == s.attempt && t.reported == s.reported
    decreases |listing|
  {
    if listing != [] {
      hide Wal.MayDelete;
      var a := Prune(listing[0], oldest);
      var next := Step(z, content, s, a);
      assert Pass(listing, oldest)[1..] == Pass(listing[1..], oldest);
      assert listing == [listing[0]] + listing[1..];
      PassTakes(z, content, next, listing[1..], oldest);
    }
  }

  // ---------- when an attempt succeeds ----------

  /** The command run through without a crash. */
  function Attempted(z: Codec, content: string -> Bytes, segment: string): seq<Action> {
    [Test(segment), Open, Write(|z.gzip(content(segment))|), Close, Rename, Report]
  }

  /** An undisturbed command for a segment not yet reported reports it exactly
      when its file is not there: a leftover temporary file is no obstacle, and
      neither is anything else. */
  lemma AttemptSucceedsUnlessPresent(z: Codec, content: string -> Bytes, s: State, segment: string)
    requires Sound(z, content, s) && s.attempt == Idle && segment !in s.reported
    ensures var t := Run(z, content, s, Attempted(z, content, segment));
            && (segment in t.reported <==> Final(segment) !in s.files)
            && (Final(segment) in s.files ==> t == s)
            && Final(segment) in t.files
  {
    var n := |z.gzip(content(segment))|;
    NamesApart(segment, segment);
    var s1 := Step(z, content, s, Test(segment));
    var s2 := Step(z, content, s1, Open);
    var s3 := Step(z, content, s2, Write(n));
    var s4 := Step(z, content, s3, Close);
    var s5 := Step(z, content, s4, Rename);
    var s6 := Step(z, content, s5, Report);
    RunSix(z, content, s, Test(segment), Open, Write(n), Close, Rename, Report);
  }

  lemma RunFirst(z: Codec, content: string -> Bytes, s: State, a: Action, rest: seq<Action>)
    ensures Run(z, content, s, [a] + rest) == Run(z, content, Step(z, content, s, a), rest)
  {
    assert ([a] + rest)[1..] == rest;
  }

  lemma RunSix(z: Codec, content: string -> Bytes, s: State, a: Action, b: Action, c: Action, d: Action, e: Action,
      f: Action)
    ensures Run(z, content, s, [a, b, c, d, e, f]) ==
            var t := Step(z, content, Step(z, content, Step(z, content, s, a), b), c);
            Step(z, content, Step(z, content, Step(z, content, t, d), e), f)
  {
    var s1 := Step(z, content, s, a);
    var s2 := Step(z, content, s1, b);
    var s3 := Step(z, content, s2, c);
    var s4 := Step(z, content, s3, d);
    var s5 := Step(z, content, s4, e);
    RunFirst(z, content, s, a, [b, c, d, e, f]);
    RunFirst(z, content, s1, b, [c, d, e, f]);
    RunFirst(z, content, s2, c, [d, e, f]);
    RunFirst(z, content, s3, d, [e, f]);
    RunFirst(z, content, s4, e, [f]);
    RunFirst(z, content, s5, f, []);
  }

  predicate NoPrune(actions: seq<Action>) {
    forall k :: 0 <= k < |actions| ==> !actions[k].Prune?
  }

  /** The price of refusing to overwrite: after a crash between the rename and
      the report, no run of retries ever reports the segment, until its file is
      deleted. Its bytes are safe, but Postgres waits for ever. */
  lemma {:induction false} CrashBeforeReportSticks(z: Codec, content: string -> Bytes, s: State,
      actions: seq<Action>, segment: string)
    requires Final(segment) in s.files && segment !in s.reported && NoPrune(actions)
    requires s.attempt == Idle || s.attempt.segment != segment
    ensures var t := Run(z, content, s, actions); segment !in t.reported && Final(segment) in t.files
    decreases |actions|
  {
    if actions != [] {
      var next := Step(z, content, s, actions[0]);
      if s.attempt != Idle { NamesApart(segment, s.attempt.segment); }
      assert !actions[0].Prune?;
      CrashBeforeReportSticks(z, content, next, actions[1..], segment);
    }
  }

  /** And such a state is reached. */
  lemma StuckStateIsReachable(z: Codec, content: string -> Bytes, segment: string)
    ensures var actions := [Test(segment), Open, Write(|z.gzip(content(segment))|), Close, Rename, Crash];
            var s := Run(z, content, Empty, actions);
            Final(segment) in s.files && segment !in s.reported && s.attempt == Idle
  {
    var n := |z.gzip(content(segment))|;
    NamesApart(segment, segment);
    RunSix(z, content, Empty, Test(segment), Open, Write(n), Close, Rename, Crash);
  }
}
