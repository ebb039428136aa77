/** src/cli/log_writer.rs: two threads read a container's streams into one
    channel, and the main thread writes what it receives to a file.

    The rule of the program is that it never stops reading. Here every thread
    moves by atomic steps, a step of any thread may come next, and opening the
    file or any write may fail; the results are about every interleaving.

    A stream is the text that arrives before its end or before a read error, and
    a time stamp is any 20 characters without a newline.
 */
module LogWriter {
  import opened Text

  const STAMP_WIDTH := 20
  const WORD_WIDTH := 6
  const PREFIX_BYTES := 28

  datatype Stream = Stdout | Stderr

  function WordOf(s: Stream): (w: string)
    ensures |w| == WORD_WIDTH && '\n' !in w
  {
    match s
    case Stdout => "stdout"
    case Stderr => "stderr"
  }

  predicate IsStamp(stamp: string) { |stamp| == STAMP_WIDTH && '\n' !in stamp }

  // ---------- what a reader reads ----------

  /** `BufRead::split` on the newline: a last part without one counts. */
  function SplitLf(data: string): (ls: seq<string>)
    ensures forall l :: l in ls ==> '\n' !in l
  {
    if data == "" then [] else
      var n := Find(data, '\n');
      if n == |data| then [data] else [data[..n]] + SplitLf(data[n + 1..])
  }

  /** The parts that end in a newline. */
  function CompleteLf(data: string): (ls: seq<string>)
    ensures forall l :: l in ls ==> '\n' !in l
  {
    var n := Find(data, '\n');
    if n == |data| then [] else [data[..n]] + CompleteLf(data[n + 1..])
  }

  /** What arrives on a descriptor, and whether a read error ends it. */
  datatype Input = Input(data: string, broken: bool)

  /** The lines of a stream: a read error loses the part that was being read. */
  function LinesOf(input: Input): (ls: seq<string>)
    ensures forall l :: l in ls ==> '\n' !in l
  {
    if input.broken then CompleteLf(input.data) else SplitLf(input.data)
  }

  /** What comes through of a stream, character by character: all of it, with a newline
      put after a last line that has none; or, if a read error ends it, all of it up to
      the last newline. */
  predicate IsTranscript(text: string, input: Input) {
    var data := input.data;
    if !input.broken then text == if data == "" || data[|data| - 1] == '\n' then data else data + "\n"
    else text <= data && (text == "" || text[|text| - 1] == '\n') && '\n' !in data[|text|..]
  }

  lemma TranscriptMore(line: string, rest: string, text: string)
    requires IsTranscript(text, Input(rest, false))
    ensures IsTranscript(line + "\n" + text, Input(line + "\n" + rest, false))
  {
    var data := line + "\n" + rest;
    assert rest != "" ==> rest[|rest| - 1] == data[|data| - 1];
    ConcatAssociates(line + "\n", rest, "\n");
  }

  lemma {:induction false} SplitIsWhole(data: string)
    ensures IsTranscript(Unlines(SplitLf(data)), Input(data, false))
  {
    if data != "" {
      hide IsTranscript, Unlines;
      var n := Find(data, '\n');
      if n == |data| {
        OneLineIsWhole(data);
      } else {
        CutAt(data, n);
        SplitIsWhole(data[n + 1..]);
        UnlinesFirst(data[..n], SplitLf(data[n + 1..]));
        TranscriptMore(data[..n], data[n + 1..], Unlines(SplitLf(data[n + 1..])));
      }
    }
  }

  lemma OneLineIsWhole(data: string)
    requires data != "" && '\n' !in data
    ensures IsTranscript(Unlines([data]), Input(data, false))
  {
    assert Unlines([data]) == data + "\n" + "" == data + "\n";
  }

  lemma UnlinesFirst(line: string, lines: seq<string>)
    ensures Unlines([line] + lines) == line + "\n" + Unlines(lines)
  {
    assert ([line] + lines)[1..] == lines;
  }

  lemma BrokenTranscriptMore(line: string, rest: string, text: string)
    requires IsTranscript(text, Input(rest, true))
    ensures IsTranscript(line + "\n" + text, Input(line + "\n" + rest, true))
  {
    var first := line + "\n";
    assert rest == text + rest[|text|..];
    assert first + rest == first + text + rest[|text|..];
    assert (first + rest)[|first + text|..] == rest[|text|..];
  }

  lemma {:induction false} CompleteIsWhole(data: string)
    ensures IsTranscript(Unlines(CompleteLf(data)), Input(data, true))
  {
    var n := Find(data, '\n');
    if n == |data| {
      assert data[0..] == data;
    } else {
      hide IsTranscript, Unlines;
      CutAt(data, n);
      CompleteIsWhole(data[n + 1..]);
      UnlinesFirst(data[..n], CompleteLf(data[n + 1..]));
      BrokenTranscriptMore(data[..n], data[n + 1..], Unlines(CompleteLf(data[n + 1..])));
    }
  }

  /** The lines of a stream are its data: no character is lost, added or moved. */
  lemma LinesAreTheData(input: Input)
    ensures IsTranscript(Unlines(LinesOf(input)), input)
  {
    if input.broken { CompleteIsWhole(input.data); } else { SplitIsWhole(input.data); }
  }

  // ---------- the process ----------

  /** A line on its way to the file. */
  datatype Entry = Entry(stamp: string, stream: Stream, line: string)

  predicate IsEntry(e: Entry) { IsStamp(e.stamp) && '\n' !in e.line }

  /** The text that is sent for it. */
  function Format(e: Entry): string {
    e.stamp + " " + WordOf(e.stream) + " " + e.line + "\n"
  }

  /** A reader: not yet spawned, reading, or returned. It holds a line between
      reading it and sending it. */
  datatype Reader = Reader(spawned: bool, unread: seq<string>, holding: Option<Entry>, returned: bool)

  datatype Main = SpawnStdout | SpawnStderr | DropSender | OpenFile | Receive | Exited

  /** `file`: `None` once opening or a write failed. */
  datatype Handle = Unopened | Opened | Gone

  datatype State = State(
    main: Main, stdout: Reader, stderr: Reader, queue: seq<Entry>,
    file: Handle, text: string,
    written: seq<Entry>, discarded: seq<Entry>)

  datatype Action =
    | Spawn
    | Drop
    | Open(ok: bool)
    | Read(stream: Stream, stamp: string)
    | Send(stream: Stream)
    | Return(stream: Stream)
    | WriteAll
    | WriteFails(partly: nat)
    | Exit

  function ReaderOf(s: State, stream: Stream): Reader {
    match stream case Stdout => s.stdout case Stderr => s.stderr
  }

  function WithReader(s: State, stream: Stream, r: Reader): State {
    match stream case Stdout => s.(stdout := r) case Stderr => s.(stderr := r)
  }

  predicate Running(r: Reader) { r.spawned && !r.returned }

  /** The channel is closed when the original sender and both clones are gone. */
  predicate SendersGone(s: State) {
    (s.main == OpenFile || s.main == Receive || s.main == Exited) && s.stdout.returned && s.stderr.returned
  }

  /** When a thread may take a step. A reader asks nothing of the writer. */
  predicate Enabled(s: State, a: Action) {
    match a
    case Spawn => s.main == SpawnStdout || s.main == SpawnStderr
    case Drop => s.main == DropSender
    case Open(_) => s.main == OpenFile
    case Read(stream, stamp) =>
      var r := ReaderOf(s, stream);
      Running(r) && r.holding == None && r.unread != [] && IsStamp(stamp)
    case Send(stream) => Running(ReaderOf(s, stream)) && ReaderOf(s, stream).holding.Some?
    case Return(stream) =>
      var r := ReaderOf(s, stream);
      Running(r) && r.holding == None && r.unread == []
    case WriteAll => s.main == Receive && s.queue != []
    case WriteFails(partly) =>
      s.main == Receive && s.queue != [] && s.file == Opened && partly < |Format(s.queue[0])|
    case Exit => s.main == Receive && s.queue == [] && SendersGone(s)
  }

  /** `send` fails when the receiver is gone, which is when main has returned. */
  predicate SendFails(s: State) { s.main == Exited }

  function Step(s: State, a: Action): State
    requires Enabled(s, a)
  {
    match a
    case Spawn =>
      if s.main == SpawnStdout then s.(main := SpawnStderr, stdout := s.stdout.(spawned := true))
      else s.(main := DropSender, stderr := s.stderr.(spawned := true))
    case Drop => s.(main := OpenFile)
    case Open(ok) => s.(main := Receive, file := if ok then Opened else Gone)
    case Read(stream, stamp) =>
      var r := ReaderOf(s, stream);
      WithReader(s, stream, r.(unread := r.unread[1..], holding := Some(Entry(stamp, stream, r.unread[0]))))
    case Send(stream) =>
      var r := ReaderOf(s, stream);
      if SendFails(s) then WithReader(s, stream, r.(returned := true))
      else WithReader(s.(queue := s.queue + [r.holding.value]), stream, r.(holding := None))
    case Return(stream) => WithReader(s, stream, ReaderOf(s, stream).(returned := true))
    case WriteAll =>
      var e := s.queue[0];
      if s.file == Opened then s.(queue := s.queue[1..], text := s.text + Format(e), written := s.written + [e])
      else s.(queue := s.queue[1..], discarded := s.discarded + [e])
    case WriteFails(partly) =>
      var e := s.queue[0];
      s.(queue := s.queue[1..], text := s.text + Format(e)[..partly], file := Gone, discarded := s.discarded + [e])
    case Exit => s.(main := Exited)
  }

  function Start(out: Input, err: Input, text: string): State {
    State(SpawnStdout, Reader(false, LinesOf(out), None, false), Reader(false, LinesOf(err), None, false),
          [], Unopened, text, [], [])
  }

  ghost predicate Runs(s: State, actions: seq<Action>, t: State)
    decreases |actions|
  {
    if actions == [] then s == t
    else Enabled(s, actions[0]) && Runs(Step(s, actions[0]), actions[1..], t)
  }

  // ---------- what every step keeps ----------

  /** The lines of one stream among some entries, in order. */
  function LinesFrom(entries: seq<Entry>, stream: Stream): seq<string> {
    if entries == [] then [] else
      (if entries[0].stream == stream then [entries[0].line] else []) + LinesFrom(entries[1..], stream)
  }

  function Held(r: Reader): seq<Entry> {
    match r.holding case None => [] case Some(e) => [e]
  }

  function Concat(entries: seq<Entry>): string {
    if entries == [] then "" else Format(entries[0]) + Concat(entries[1..])
  }

  /** Everything a reader has read is written, discarded, queued or in its hand,
      in the order it was read. */
  predicate Accounted(s: State, stream: Stream, lines: seq<string>) {
    var r := ReaderOf(s, stream);
    LinesFrom(s.written, stream) + LinesFrom(s.discarded, stream) + LinesFrom(s.queue, stream)
    + LinesFrom(Held(r), stream) + r.unread == lines
  }

  predicate AllEntries(entries: seq<Entry>) { forall k :: 0 <= k < |entries| ==> IsEntry(entries[k]) }

  predicate ReaderOk(s: State, stream: Stream) {
    var r := ReaderOf(s, stream);
    && (r.holding.Some? ==> r.holding.value.stream == stream && IsEntry(r.holding.value))
    && (r.returned ==> r.spawned && r.unread == [] && r.holding == None)
    && (forall l :: l in r.unread ==> '\n' !in l)
    && (r.spawned <==> match stream case Stdout => s.main != SpawnStdout
                                    case Stderr => s.main != SpawnStdout && s.main != SpawnStderr)
  }

  /** The file is what was in it, then the written lines whole, then at most one
      torn line, which is the first one discarded. */
  ghost predicate FileOk(s: State, initial: string) {
    exists torn :: TornFile(s, initial, torn)
  }

  predicate TornFile(s: State, initial: string, torn: string) {
    && s.text == initial + Concat(s.written) + torn
    && (torn != "" ==> s.file == Gone && s.discarded != [] && |torn| < |Format(s.discarded[0])|
                       && torn == Format(s.discarded[0])[..|torn|])
  }

  predicate Phases(s: State) {
    && AllEntries(s.written) && AllEntries(s.discarded) && AllEntries(s.queue)
    && (s.discarded != [] ==> s.file == Gone)
    && (s.file == Unopened <==> s.main != Receive && s.main != Exited)
    && (s.file == Unopened ==> s.written == [])
    && (s.main == Exited ==> s.queue == [] && s.stdout.returned && s.stderr.returned)
  }

  ghost predicate Inv(s: State, out: Input, err: Input, initial: string) {
    && ReaderOk(s, Stdout) && ReaderOk(s, Stderr)
    && Accounted(s, Stdout, LinesOf(out)) && Accounted(s, Stderr, LinesOf(err))
    && FileOk(s, initial)
    && Phases(s)
  }

  lemma {:induction false} LinesFromConcat(a: seq<Entry>, b: seq<Entry>, stream: Stream)
    ensures LinesFrom(a + b, stream) == LinesFrom(a, stream) + LinesFrom(b, stream)
  {
    if a == [] {
      assert a + b == b;
    } else {
      assert (a + b)[1..] == a[1..] + b;
      LinesFromConcat(a[1..], b, stream);
    }
  }

  lemma {:induction false} ConcatAppend(a: seq<Entry>, e: Entry)
    ensures Concat(a + [e]) == Concat(a) + Format(e)
  {
    if a == [] {
      assert a + [e] == [e];
      assert Concat([e]) == Format(e) + "";
    } else {
      assert (a + [e])[1..] == a[1..] + [e];
      ConcatAppend(a[1..], e);
    }
  }

  lemma StartIsInv(out: Input, err: Input, initial: string)
    ensures Inv(Start(out, err, initial), out, err, initial)
  {
    var s := Start(out, err, initial);
    assert TornFile(s, initial, "");
  }

  lemma MoveRead(w: seq<string>, d: seq<string>, q: seq<string>, u: seq<string>)
    requires u != []
    ensures w + d + q + [] + u == w + d + q + [u[0]] + u[1..]
  {
  }

  lemma MoveSend(w: seq<string>, d: seq<string>, q: seq<string>, h: seq<string>, u: seq<string>)
    ensures w + d + q + h + u == w + d + (q + h) + [] + u
  {
  }

  lemma MoveWrite(w: seq<string>, x: seq<string>, q: seq<string>, h: seq<string>, u: seq<string>)
    ensures w + [] + (x + q) + h + u == (w + x) + [] + q + h + u
  {
  }

  lemma MoveDiscard(w: seq<string>, d: seq<string>, x: seq<string>, q: seq<string>, h: seq<string>, u: seq<string>)
    ensures w + d + (x + q) + h + u == w + (d + x) + q + h + u
  {
    assert w + d + (x + q) == w + (d + x) + q;
  }

  lemma LinesFromOne(e: Entry, stream: Stream)
    ensures LinesFrom([e], stream) == if e.stream == stream then [e.line] else []
  {
    assert [e][1..] == [];
  }

  lemma ReadKeeps(s: State, stream: Stream, stamp: string, other: Stream, lines: seq<string>)
    requires Enabled(s, Read(stream, stamp)) && Accounted(s, other, lines)
    ensures Accounted(Step(s, Read(stream, stamp)), other, lines)
  {
    if other == stream {
      var r := ReaderOf(s, stream);
      LinesFromOne(Entry(stamp, stream, r.unread[0]), stream);
      MoveRead(LinesFrom(s.written, stream), LinesFrom(s.discarded, stream), LinesFrom(s.queue, stream), r.unread);
    }
  }

  lemma SendKeeps(s: State, stream: Stream, other: Stream, lines: seq<string>)
    requires Enabled(s, Send(stream)) && !SendFails(s) && Accounted(s, other, lines)
    requires ReaderOf(s, stream).holding.value.stream == stream
    ensures Accounted(Step(s, Send(stream)), other, lines)
  {
    var e := ReaderOf(s, stream).holding.value;
    LinesFromConcat(s.queue, [e], other);
    LinesFromOne(e, other);
    if other == stream {
      MoveSend(LinesFrom(s.written, other), LinesFrom(s.discarded, other), LinesFrom(s.queue, other), [e.line],
               ReaderOf(s, stream).unread);
    } else {
      assert LinesFrom(s.queue, other) + [] == LinesFrom(s.queue, other);
    }
  }

  lemma QueueHead(queue: seq<Entry>, stream: Stream)
    requires queue != []
    ensures LinesFrom(queue, stream) == LinesFrom([queue[0]], stream) + LinesFrom(queue[1..], stream)
  {
    LinesFromOne(queue[0], stream);
  }

  /** The head of the queue is written, or it is discarded after a failure. */
  lemma ReceiveKeeps(s: State, a: Action, other: Stream, lines: seq<string>)
    requires Enabled(s, a) && (a == WriteAll || a.WriteFails?) && Accounted(s, other, lines)
    requires s.file == Opened ==> s.discarded == []
    ensures Accounted(Step(s, a), other, lines)
  {
    var e, r := s.queue[0], ReaderOf(s, other);
    QueueHead(s.queue, other);
    var w, d := LinesFrom(s.written, other), LinesFrom(s.discarded, other);
    var x, q, h := LinesFrom([e], other), LinesFrom(s.queue[1..], other), LinesFrom(Held(r), other);
    if a == WriteAll && s.file == Opened {
      LinesFromConcat(s.written, [e], other);
      MoveWrite(w, x, q, h, r.unread);
    } else {
      LinesFromConcat(s.discarded, [e], other);
      MoveDiscard(w, d, x, q, h, r.unread);
    }
  }

  lemma StepKeepsAccounts(s: State, a: Action, out: Input, err: Input, initial: string, stream: Stream)
    requires Inv(s, out, err, initial) && Enabled(s, a)
    ensures Accounted(Step(s, a), stream, if stream == Stdout then LinesOf(out) else LinesOf(err))
  {
    var lines := if stream == Stdout then LinesOf(out) else LinesOf(err);
    match a
    case Read(x, stamp) => ReadKeeps(s, x, stamp, stream, lines);
    case Send(x) => SendKeeps(s, x, stream, lines);
    case WriteAll => ReceiveKeeps(s, a, stream, lines);
    case WriteFails(_) => ReceiveKeeps(s, a, stream, lines);
    case _ =>
  }

  lemma WriteKeepsFile(s: State, initial: string, torn: string)
    requires Enabled(s, WriteAll) && TornFile(s, initial, torn)
    ensures FileOk(Step(s, WriteAll), initial)
  {
    var t, e := Step(s, WriteAll), s.queue[0];
    if s.file == Opened {
      ConcatAppend(s.written, e);
      ConcatAssociates(initial, Concat(s.written), Format(e));
      assert TornFile(t, initial, "");
    } else {
      assert TornFile(t, initial, torn);
    }
  }

  lemma FailureTearsFile(s: State, partly: nat, initial: string, torn: string)
    requires Enabled(s, WriteFails(partly)) && TornFile(s, initial, torn) && s.discarded == []
    ensures FileOk(Step(s, WriteFails(partly)), initial)
  {
    assert TornFile(Step(s, WriteFails(partly)), initial, Format(s.queue[0])[..partly]);
  }

  lemma StepKeepsFile(s: State, a: Action, out: Input, err: Input, initial: string)
    requires Inv(s, out, err, initial) && Enabled(s, a)
    ensures FileOk(Step(s, a), initial)
  {
    var torn :| TornFile(s, initial, torn);
    if a == WriteAll {
      WriteKeepsFile(s, initial, torn);
    } else if a.WriteFails? {
      FailureTearsFile(s, a.partly, initial, torn);
    } else {
      assert TornFile(Step(s, a), initial, torn);
    }
  }

  lemma StepKeepsReader(s: State, a: Action, stream: Stream)
    requires Phases(s) && ReaderOk(s, Stdout) && ReaderOk(s, Stderr) && Enabled(s, a)
    ensures ReaderOk(Step(s, a), stream)
  {
  }

  lemma StepKeepsPhases(s: State, a: Action)
    requires Phases(s) && ReaderOk(s, Stdout) && ReaderOk(s, Stderr) && Enabled(s, a)
    ensures Phases(Step(s, a))
  {
  }

  lemma StepKeepsInv(s: State, a: Action, out: Input, err: Input, initial: string)
    requires Inv(s, out, err, initial) && Enabled(s, a)
    ensures Inv(Step(s, a), out, err, initial)
  {
    StepKeepsReader(s, a, Stdout);
    StepKeepsReader(s, a, Stderr);
    StepKeepsAccounts(s, a, out, err, initial, Stdout);
    StepKeepsAccounts(s, a, out, err, initial, Stderr);
    StepKeepsFile(s, a, out, err, initial);
    StepKeepsPhases(s, a);
  }

  lemma {:induction false} RunKeepsInv(s: State, actions: seq<Action>, t: State, out: Input, err: Input,
      initial: string)
    requires Inv(s, out, err, initial) && Runs(s, actions, t)
    ensures Inv(t, out, err, initial)
    decreases |actions|
  {
    if actions != [] {
      StepKeepsInv(s, actions[0], out, err, initial);
      RunKeepsInv(Step(s, actions[0]), actions[1..], t, out, err, initial);
    }
  }

  // ---------- never stop reading ----------

  /** How much is left to do; every step takes some of it. */
  function Work(r: Reader): nat {
    (if r.spawned then 0 else 1) + 3 * |r.unread| + (if r.holding.Some? then 2 else 0) + if r.returned then 0 else 1
  }

  function Left(s: State): nat {
    Work(s.stdout) + Work(s.stderr) + |s.queue| +
    match s.main
    case SpawnStdout => 5 case SpawnStderr => 4 case DropSender => 3
    case OpenFile => 2 case Receive => 1 case Exited => 0
  }

  /** Every run ends: whatever fails, no step can be taken for ever. */
  lemma EveryStepTakesWork(s: State, a: Action)
    requires Enabled(s, a) && !(a.Send? && SendFails(s))
    ensures Left(Step(s, a)) < Left(s)
  {
  }

  /** `send` never fails while a reader lives: the receiver outlives them both. */
  lemma SendNeverFails(s: State, stream: Stream, out: Input, err: Input, initial: string)
    requires Inv(s, out, err, initial) && Running(ReaderOf(s, stream))
    ensures !SendFails(s)
  {
  }

  /** A reader that has not returned can always take its next step, whatever has
      become of the file and whatever the main thread is doing, and that step
      brings it nearer to the end of its stream. */
  lemma ReaderNeverWaits(s: State, stream: Stream, stamp: string, out: Input, err: Input, initial: string)
    returns (a: Action)
    requires Inv(s, out, err, initial) && Running(ReaderOf(s, stream)) && IsStamp(stamp)
    ensures Enabled(s, a)
    ensures Work(ReaderOf(Step(s, a), stream)) < Work(ReaderOf(s, stream))
    ensures Step(s, a).text == s.text && Step(s, a).file == s.file && Step(s, a).main == s.main
  {
    var r := ReaderOf(s, stream);
    a := if r.holding.Some? then Send(stream) else if r.unread != [] then Read(stream, stamp) else Return(stream);
  }

  /** And the whole process is never stuck before it has exited. */
  lemma NeverStuck(s: State, stamp: string, out: Input, err: Input, initial: string) returns (a: Action)
    requires Inv(s, out, err, initial) && s.main != Exited && IsStamp(stamp)
    ensures Enabled(s, a) && !(a.Send? && SendFails(s))
  {
    if s.main == SpawnStdout || s.main == SpawnStderr {
      a := Spawn;
    } else if s.main == DropSender {
      a := Drop;
    } else if s.main == OpenFile {
      a := Open(true);
    } else if s.queue != [] {
      a := WriteAll;
    } else if Running(s.stdout) {
      a := ReaderNeverWaits(s, Stdout, stamp, out, err, initial);
    } else if Running(s.stderr) {
      a := ReaderNeverWaits(s, Stderr, stamp, out, err, initial);
    } else {
      a := Exit;
    }
  }

  /** After the first failure nothing is ever appended. */
  lemma {:induction false} NothingAfterFailure(s: State, actions: seq<Action>, t: State)
    requires s.file == Gone && s.main == Receive && Runs(s, actions, t)
    ensures t.text == s.text && t.file == Gone && t.written == s.written
    decreases |actions|
  {
    if actions != [] {
      var next := Step(s, actions[0]);
      if next.main == Receive {
        NothingAfterFailure(next, actions[1..], t);
      } else {
        NothingAfterExit(next, actions[1..], t);
      }
    }
  }

  lemma {:induction false} NothingAfterExit(s: State, actions: seq<Action>, t: State)
    requires s.main == Exited && Runs(s, actions, t)
    ensures t.text == s.text && t.file == s.file && t.written == s.written && t.main == Exited
    decreases |actions|
  {
    if actions != [] { NothingAfterExit(Step(s, actions[0]), actions[1..], t); }
  }

  // ---------- the end of a run ----------

  /** When the process has exited, both streams were read to their end and every
      line was written or discarded, in order; the file is what it was, the
      written lines whole, and at most one torn line. */
  lemma ExitAccountsForEverything(out: Input, err: Input, initial: string, actions: seq<Action>, t: State)
    requires Runs(Start(out, err, initial), actions, t) && t.main == Exited
    ensures LinesFrom(t.written, Stdout) + LinesFrom(t.discarded, Stdout) == LinesOf(out)
    ensures LinesFrom(t.written, Stderr) + LinesFrom(t.discarded, Stderr) == LinesOf(err)
    ensures IsTranscript(Unlines(LinesFrom(t.written, Stdout) + LinesFrom(t.discarded, Stdout)), out)
    ensures IsTranscript(Unlines(LinesFrom(t.written, Stderr) + LinesFrom(t.discarded, Stderr)), err)
    ensures FileOk(t, initial)
    ensures t.file == Opened ==> t.discarded == [] && t.text == initial + Concat(t.written)
  {
    StartIsInv(out, err, initial);
    RunKeepsInv(Start(out, err, initial), actions, t, out, err, initial);
    Settled(t, Stdout, LinesOf(out));
    Settled(t, Stderr, LinesOf(err));
    LinesAreTheData(out);
    LinesAreTheData(err);
    var torn :| TornFile(t, initial, torn);
    assert torn == "" ==> t.text == initial + Concat(t.written);
  }

  lemma Settled(s: State, stream: Stream, lines: seq<string>)
    requires Accounted(s, stream, lines) && s.queue == []
    requires ReaderOf(s, stream).holding == None && ReaderOf(s, stream).unread == []
    ensures LinesFrom(s.written, stream) + LinesFrom(s.discarded, stream) == lines
  {
  }

  // ---------- telling the streams apart again ----------

  /** The lines of a file that carry one stream's word, without their prefix. */
  function Select(lines: seq<string>, stream: Stream): seq<string> {
    if lines == [] then [] else
      var l := lines[0];
      (if |l| >= PREFIX_BYTES && l[STAMP_WIDTH + 1..PREFIX_BYTES - 1] == WordOf(stream)
       then [l[PREFIX_BYTES..]] else [])
      + Select(lines[1..], stream)
  }

  /** A line in the file costs its prefix and nothing else. */
  lemma PrefixWidth(e: Entry)
    requires IsEntry(e)
    ensures |Format(e)| == PREFIX_BYTES + |e.line| + 1
    ensures Format(e)[PREFIX_BYTES..|Format(e)| - 1] == e.line
    ensures Format(e)[STAMP_WIDTH + 1..PREFIX_BYTES - 1] == WordOf(e.stream)
    ensures Find(Format(e), '\n') == |Format(e)| - 1
    ensures Format(e) == e.stamp + (if e.stream == Stdout then " stdout " else " stderr ") + e.line + "\n"
  {
    var f, word := Format(e), WordOf(e.stream);
    assert f == (e.stamp + " " + word + " " + e.line) + ['\n'] + "";
    FindIs(e.stamp + " " + word + " " + e.line, '\n', "");
  }

  lemma WordsDiffer(a: Stream, b: Stream)
    ensures WordOf(a) == WordOf(b) <==> a == b
  {
    assert "stdout"[3] != "stderr"[3];
  }

  lemma CompleteOfOne(e: Entry, rest: string)
    requires IsEntry(e)
    ensures var f := Format(e); CompleteLf(f + rest) == [f[..|f| - 1]] + CompleteLf(rest)
  {
    hide Format, Find;
    PrefixWidth(e);
    var f := Format(e);
    var body := f[..|f| - 1];
    assert f == body + ['\n'];
    assert '\n' !in body;
    FindIs(body, '\n', rest);
    assert f + rest == body + ['\n'] + rest;
    assert (f + rest)[..|body|] == body && (f + rest)[|body| + 1..] == rest;
  }

  /** Selecting one word from a file gives that stream's written lines back, in
      order and whole, whatever the other stream wrote between them and whatever
      torn end follows. */
  lemma {:induction false} StreamsComeApart(entries: seq<Entry>, torn: string, stream: Stream)
    requires AllEntries(entries) && '\n' !in torn
    ensures Select(CompleteLf(Concat(entries) + torn), stream) == LinesFrom(entries, stream)
  {
    if entries == [] {
      assert Concat(entries) + torn == torn;
      assert CompleteLf(torn) == [];
    } else {
      var e, f := entries[0], Format(entries[0]);
      var rest := Concat(entries[1..]) + torn;
      ConcatAssociates(f, Concat(entries[1..]), torn);
      CompleteOfOne(e, rest);
      StreamsComeApart(entries[1..], torn, stream);
      SelectFirst(e, CompleteLf(rest), stream);
    }
  }

  lemma SelectFirst(e: Entry, more: seq<string>, stream: Stream)
    requires IsEntry(e)
    ensures var f := Format(e);
            Select([f[..|f| - 1]] + more, stream)
            == (if e.stream == stream then [e.line] else []) + Select(more, stream)
  {
    hide Format, Find;
    PrefixWidth(e);
    WordsDiffer(e.stream, stream);
    hide WordOf;
    var f := Format(e);
    var l := f[..|f| - 1];
    assert ([l] + more)[1..] == more;
    assert l[STAMP_WIDTH + 1..PREFIX_BYTES - 1] == f[STAMP_WIDTH + 1..PREFIX_BYTES - 1];
    assert l[PREFIX_BYTES..] == f[PREFIX_BYTES..|f| - 1];
  }

  lemma TornHasNoNewline(s: State, initial: string, torn: string)
    requires TornFile(s, initial, torn) && AllEntries(s.discarded)
    ensures '\n' !in torn
  {
    if torn != "" { PrefixWidth(s.discarded[0]); }
  }

  lemma ShownIsPrefix(out: Input, err: Input, actions: seq<Action>, t: State, stream: Stream)
    requires Runs(Start(out, err, ""), actions, t)
    ensures var lines := if stream == Stdout then LinesOf(out) else LinesOf(err);
            var shown := Select(CompleteLf(t.text), stream);
            && shown <= lines
            && (t.main == Exited && t.file == Opened ==> shown == lines)
  {
    StartIsInv(out, err, "");
    RunKeepsInv(Start(out, err, ""), actions, t, out, err, "");
    var torn :| TornFile(t, "", torn);
    ShownIsWritten(t, torn, stream);
    var lines := if stream == Stdout then LinesOf(out) else LinesOf(err);
    WrittenIsPrefix(t, stream, lines);
    if t.main == Exited && t.file == Opened {
      Settled(t, stream, lines);
      assert LinesFrom(t.discarded, stream) == [];
    }
  }

  /** From container to file and back. At any moment of any run on a new file,
      what the file shows of a stream is a prefix of that stream's lines, in
      order, and character by character a prefix of its data; and when no write has
      failed, at the end it is all of them, and all of the data that comes through. */
  lemma FileShowsEachStream(out: Input, err: Input, actions: seq<Action>, t: State, stream: Stream)
    requires Runs(Start(out, err, ""), actions, t)
    ensures var lines := if stream == Stdout then LinesOf(out) else LinesOf(err);
            var shown := Select(CompleteLf(t.text), stream);
            && shown <= lines
            && (t.main == Exited && t.file == Opened ==> shown == lines)
    ensures var input := if stream == Stdout then out else err;
            var shown := Select(CompleteLf(t.text), stream);
            && Unlines(shown) <= input.data + "\n"
            && (t.main == Exited && t.file == Opened ==> IsTranscript(Unlines(shown), input))
  {
    hide Select, LinesFrom, Unlines, LinesOf, IsTranscript, Inv, TornFile;
    var input := if stream == Stdout then out else err;
    var shown := Select(CompleteLf(t.text), stream);
    ShownIsPrefix(out, err, actions, t, stream);
    LinesAreTheData(input);
    UnlinesPrefix(shown, LinesOf(input));
    PrefixOfTranscript(Unlines(LinesOf(input)), input);
  }

  lemma UnlinesPrefix(a: seq<string>, b: seq<string>)
    requires a <= b
    ensures Unlines(a) <= Unlines(b)
  {
    assert b == a + b[|a|..];
    UnlinesConcat(a, b[|a|..]);
  }

  lemma PrefixOfTranscript(text: string, input: Input)
    requires IsTranscript(text, input)
    ensures text <= input.data + "\n"
  {
  }

  lemma ShownIsWritten(s: State, torn: string, stream: Stream)
    requires TornFile(s, "", torn) && Phases(s)
    ensures Select(CompleteLf(s.text), stream) == LinesFrom(s.written, stream)
  {
    TornHasNoNewline(s, "", torn);
    assert s.text == Concat(s.written) + torn;
    StreamsComeApart(s.written, torn, stream);
  }

  lemma WrittenIsPrefix(s: State, stream: Stream, lines: seq<string>)
    requires Accounted(s, stream, lines)
    ensures LinesFrom(s.written, stream) <= lines
  {
  }

  // ---------- the process itself ----------

  lemma {:induction false} OneStepMore(s: State, actions: seq<Action>, t: State, a: Action)
    requires Runs(s, actions, t) && Enabled(t, a)
    ensures Runs(s, actions + [a], Step(t, a))
    decreases |actions|
  {
    if actions == [] {
      assert ([] + [a])[1..] == [];
    } else {
      assert (actions + [a])[1..] == actions[1..] + [a];
      OneStepMore(Step(s, actions[0]), actions[1..], t, a);
    }
  }

  /** The process, its fields what the threads share. */
  class Process {
    var main: Main
    var stdout: Reader
    var stderr: Reader
    var queue: seq<Entry>
    var file: Handle
    var text: string
    ghost var written: seq<Entry>
    ghost var discarded: seq<Entry>

    constructor (out: Input, err: Input, initial: string)
      ensures View() == Start(out, err, initial)
    {
      main := SpawnStdout;
      stdout, stderr := Reader(false, LinesOf(out), None, false), Reader(false, LinesOf(err), None, false);
      queue, file, text := [], Unopened, initial;
      written, discarded := [], [];
    }

    ghost function View(): State
      reads this
    {
      State(main, stdout, stderr, queue, file, text, written, discarded)
    }

    /** The main thread up to its loop: spawn a reader, spawn the other, drop the
        original sender, open the file. */
    method Prepare(opens: bool) returns (ghost a: Action)
      requires main != Receive && main != Exited
      modifies this
      ensures old(Enabled(View(), a)) && View() == old(Step(View(), a)) && !a.Send?
    {
      match main
      case SpawnStdout =>
        a := Spawn;
        stdout, main := stdout.(spawned := true), SpawnStderr;
      case SpawnStderr =>
        a := Spawn;
        stderr, main := stderr.(spawned := true), DropSender;
      case DropSender =>
        a := Drop;
        main := OpenFile;
      case OpenFile =>
        a := Open(opens);
        file, main := if opens then Opened else Gone, Receive;
    }

    /** One turn of the main thread's loop: a line is written, or written in part
        by a write that fails, or dropped because a write failed before. */
    method ReceiveLine(fails: bool, partly: nat) returns (ghost a: Action)
      requires main == Receive && queue != [] && partly < |Format(queue[0])|
      modifies this
      ensures old(Enabled(View(), a)) && View() == old(Step(View(), a)) && !a.Send?
    {
      var e := queue[0];
      queue := queue[1..];
      if file != Opened {
        a := WriteAll;
        discarded := discarded + [e];
      } else if fails {
        a := WriteFails(partly);
        text := text + Format(e)[..partly];
        file := Gone;
        discarded := discarded + [e];
      } else {
        a := WriteAll;
        text := text + Format(e);
        written := written + [e];
      }
    }

    method SetReader(stream: Stream, r: Reader)
      modifies this
      ensures View() == old(WithReader(View(), stream, r))
    {
      match stream
      case Stdout => stdout := r;
      case Stderr => stderr := r;
    }

    /** The next step of a reader's thread. */
    method Drain(stream: Stream, stamp: string) returns (ghost a: Action)
      requires Running(ReaderOf(View(), stream)) && IsStamp(stamp) && main != Exited
      modifies this
      ensures old(Enabled(View(), a)) && View() == old(Step(View(), a))
    {
      var r := match stream case Stdout => stdout case Stderr => stderr;
      if r.holding.Some? {
        a := Send(stream);
        queue := queue + [r.holding.value];
        SetReader(stream, r.(holding := None));
      } else if r.unread != [] {
        a := Read(stream, stamp);
        SetReader(stream, r.(unread := r.unread[1..], holding := Some(Entry(stamp, stream, r.unread[0]))));
      } else {
        a := Return(stream);
        SetReader(stream, r.(returned := true));
      }
    }

    /** Whichever thread the scheduler picks takes its next step; there always is
        one that can. */
    method Turn(fails: bool, partly: nat, stamp: string) returns (ghost a: Action)
      requires main != Exited && IsStamp(stamp)
      requires Phases(View()) && ReaderOk(View(), Stdout) && ReaderOk(View(), Stderr)
      modifies this
      ensures old(Enabled(View(), a)) && View() == old(Step(View(), a))
    {
      if
      case main != Receive => a := Prepare(fails);
      case main == Receive && queue != [] =>
        a := ReceiveLine(fails, partly % |Format(queue[0])|);
      case Running(stdout) => a := Drain(Stdout, stamp);
      case Running(stderr) => a := Drain(Stderr, stamp);
      case main == Receive && queue == [] && stdout.returned && stderr.returned =>
        a := Exit;
        main := Exited;
    }

    /** The three threads under any scheduler, any clock and any failures: the
        process always finishes, with every line of both streams accounted for. */
    method Run(clock: nat -> string, ghost out: Input, ghost err: Input, ghost initial: string)
      requires View() == Start(out, err, initial)
      requires forall i :: IsStamp(clock(i))
      modifies this
      ensures main == Exited
      ensures exists actions :: Runs(Start(out, err, initial), actions, View())
      ensures LinesFrom(written, Stdout) + LinesFrom(discarded, Stdout) == LinesOf(out)
      ensures LinesFrom(written, Stderr) + LinesFrom(discarded, Stderr) == LinesOf(err)
      ensures IsTranscript(Unlines(LinesFrom(written, Stdout) + LinesFrom(discarded, Stdout)), out)
      ensures IsTranscript(Unlines(LinesFrom(written, Stderr) + LinesFrom(discarded, Stderr)), err)
      ensures FileOk(View(), initial)
    {
      ghost var actions: seq<Action> := [];
      var tick := 0;
      StartIsInv(out, err, initial);
      while main != Exited
        invariant Reached(View(), actions, out, err, initial)
        decreases Left(View())
      {
        ghost var before := View();
        var fails: bool := *;
        var partly: nat := *;
        ghost var a := Turn(fails, partly, clock(tick));
        ReachedOneMore(before, actions, a, out, err, initial);
        actions := actions + [a];
        tick := tick + 1;
      }
      ExitAccountsForEverything(out, err, initial, actions, View());
    }
  }

  ghost predicate Reached(s: State, actions: seq<Action>, out: Input, err: Input, initial: string) {
    Runs(Start(out, err, initial), actions, s) && Inv(s, out, err, initial)
  }

  lemma ReachedOneMore(s: State, actions: seq<Action>, a: Action, out: Input, err: Input, initial: string)
    requires Reached(s, actions, out, err, initial) && s.main != Exited && Enabled(s, a)
    ensures Reached(Step(s, a), actions + [a], out, err, initial)
    ensures Left(Step(s, a)) < Left(s)
  {
    EveryStepTakesWork(s, a);
    OneStepMore(Start(out, err, initial), actions, s, a);
    StepKeepsInv(s, a, out, err, initial);
  }
}
