/** What whole runs of the logger leave in the file, and that they go on. */
module LoggerRuns {
  import opened Sequences
  import opened Options
  import opened LogFile
  import opened LogLines
  import opened Logger

  // ---- The file, line by line ----

  /** line is the record's time stamp, two spaces, and its text. */
  predicate IsLineOf(line: string, r: Record) {
    match r
    case FromQueue(stamp, entry) => line == stamp + [' ', ' '] + entry
    case Direct(stamp, message) => line == stamp + [' ', ' '] + message
  }

  predicate OneLiner(r: Record) {
    match r
    case FromQueue(stamp, entry) => OneLine(stamp) && OneLine(entry)
    case Direct(stamp, message) => OneLine(stamp) && OneLine(message)
  }

  predicate AreLinesOf(lines: seq<string>, rs: seq<Record>) {
    |lines| == |rs| && forall i :: 0 <= i < |rs| ==> IsLineOf(lines[i], rs[i])
  }

  lemma LineOfRecord(r: Record)
    requires OneLiner(r)
    ensures |Lines(Line(r))| == 1 && IsLineOf(Lines(Line(r))[0], r)
  {
    match r
    case FromQueue(stamp, entry) => LinesOfLine(stamp + "  " + entry);
    case Direct(stamp, message) => LinesOfLine(stamp + "  " + message);
  }

  lemma AreLinesSnoc(lines: seq<string>, rs: seq<Record>, line: string, r: Record)
    requires AreLinesOf(lines, rs) && IsLineOf(line, r)
    ensures AreLinesOf(lines + [line], rs + [r])
  {
  }

  predicate Printable(journal: seq<Record>) {
    forall r :: r in journal ==> OneLiner(r) && RecordNulFree(r)
  }

  predicate Use(i: nat) { true }

  /** all is a text whose lines are those of the journal; to be used only where Use is mentioned. */
  ghost predicate LineLaw(journal: seq<Record>, all: string) {
    forall i: nat {:trigger Use(i)} :: i == 0 ==> AreLinesOf(Lines(all), journal) && Text(all)
  }

  lemma NoLines()
    ensures LineLaw([], "")
  {
    assert Lines("") == [] && Text("");
    assert AreLinesOf(Lines(""), []);
  }

  lemma PrintableFront(journal: seq<Record>)
    requires Printable(journal) && journal != []
    ensures Printable(journal[..|journal| - 1])
    ensures OneLiner(journal[|journal| - 1]) && RecordNulFree(journal[|journal| - 1])
  {
  }

  lemma {:induction false} LinesOfJournal(journal: seq<Record>)
    requires Printable(journal)
    ensures LineLaw(journal, Render(journal))
  {
    if journal == [] {
      NoLines();
    } else {
      var front, r := journal[..|journal| - 1], journal[|journal| - 1];
      PrintableFront(journal);
      LinesOfJournal(front);
      OneMoreLine(front, Render(front), r);
      assert journal == front + [r];
    }
  }

  lemma OneMoreLine(front: seq<Record>, all: string, r: Record)
    requires LineLaw(front, all) && OneLiner(r) && RecordNulFree(r)
    ensures LineLaw(front + [r], all + Line(r))
  {
    assert Use(0);
    LinesConcat(all, Line(r));
    LineOfRecord(r);
    LineIsText(r);
    TextConcat(all, Line(r));
    var l := Lines(Line(r));
    assert l == [l[0]];
    AreLinesSnoc(Lines(all), front, l[0], r);
  }

  lemma TextConcat(a: string, b: string)
    requires Text(a) && Text(b)
    ensures Text(a + b)
  {
    if b != [] {
      assert (a + b)[|a + b| - 1] == b[|b| - 1];
    }
  }

  ghost predicate NulFreeJournal(s: State) {
    forall r :: r in s.journal ==> RecordNulFree(r)
  }

  /** The record that a step adds to the file, if any. */
  function Added(s: State, e: Step): Option<Record>
    requires Enabled(s, e)
  {
    match e
    case InLog(t, l) => None
    case InConsumer(c) => if c.WriteFront? then Some(FromQueue(c.stamp, s.queue[0])) else None
    case InDestructor(d) => None
    case OnFile(f) => if f.AppendDirect? then Some(Direct(f.stamp, f.message)) else None
  }

  /** What a step does to the file and the journal. */
  predicate FileFrame(s: State, e: Step, n: State)
    requires Enabled(s, e)
  {
    match Added(s, e)
    case Some(r) => n.journal == s.journal + [r] && n.file == s.file + Line(r)
    case None =>
      && n.journal == s.journal
      && (if e == InConsumer(CheckSize) || e == OnFile(CheckSizeDirect) then Some(n.file) == CheckedSize(s.file, s.maxSize)
          else n.file == s.file)
  }

  lemma LogFrame(s: State, t: ThreadId, l: LogStep)
    requires LogEnabled(s, t, l)
    ensures FileFrame(s, InLog(t, l), LogDo(s, t, l))
  {
  }

  lemma ConsumerFrame(s: State, c: ConsumerStep)
    requires ConsumerEnabled(s, c)
    ensures FileFrame(s, InConsumer(c), ConsumerDo(s, c))
  {
  }

  lemma StepFrame(s: State, e: Step)
    requires Enabled(s, e)
    ensures FileFrame(s, e, Do(s, e))
  {
    match e
    case InLog(t, l) => LogFrame(s, t, l);
    case InConsumer(c) => ConsumerFrame(s, c);
    case InDestructor(d) =>
    case OnFile(f) =>
  }

  lemma AddedIsNulFree(s: State, e: Step)
    requires Entries(s) && Enabled(s, e) && Added(s, e).Some?
    ensures RecordNulFree(Added(s, e).value)
  {
    match e
    case InLog(t, l) => assert false;
    case InConsumer(c) => assert s.queue[0] in s.queue;
    case InDestructor(d) => assert false;
    case OnFile(f) =>
  }

  lemma JournalStep(s: State, e: Step)
    requires Entries(s) && NulFreeJournal(s) && Enabled(s, e)
    ensures NulFreeJournal(Do(s, e))
  {
    StepFrame(s, e);
    if Added(s, e).Some? {
      AddedIsNulFree(s, e);
    }
  }

  lemma {:induction false} JournalOnRun(s: State, steps: seq<Step>)
    requires Inv(s) && NulFreeJournal(s) && Run(s, steps).Some?
    ensures NulFreeJournal(Run(s, steps).value)
    decreases |steps|
  {
    if steps != [] {
      InvKept(s, steps[0]);
      JournalStep(s, steps[0]);
      JournalOnRun(Do(s, steps[0]), steps[1..]);
    }
  }

  /**
   Split at its newlines, the file of a reachable state is one line for each of the last records: time
   stamp, two spaces, text. dropped records have been cut off by shrinking.
   */
  lemma {:induction false} FileShowsLastRecords(steps: seq<Step>)
    requires Run(Initial, steps).Some?
    requires forall r :: r in Run(Initial, steps).value.journal ==> OneLiner(r)
    ensures var s := Run(Initial, steps).value;
            exists dropped: nat :: dropped <= |s.journal| && AreLinesOf(Lines(s.file), s.journal[dropped..])
  {
    JournalIsNulFree(steps);
    FileShows(Run(Initial, steps).value);
  }

  lemma JournalIsNulFree(steps: seq<Step>)
    requires Run(Initial, steps).Some?
    ensures var s := Run(Initial, steps).value; NulFreeJournal(s) && FileIsSuffix(s)
  {
    InitialInv();
    Reachable(steps);
    JournalOnRun(Initial, steps);
  }

  lemma LastLines(file: string, all: string, journal: seq<Record>)
    requires LineLaw(journal, all) && Text(file) && LineSuffix(file, all)
    ensures exists dropped: nat :: dropped <= |journal| && AreLinesOf(Lines(file), journal[dropped..])
  {
    assert Use(0);
    var dropped := LinesOfSuffix(file, all);
    assert AreLinesOf(Lines(file), journal[dropped..]);
  }

  lemma FileShows(s: State)
    requires FileIsSuffix(s) && NulFreeJournal(s) && forall r :: r in s.journal ==> OneLiner(r)
    ensures exists dropped: nat :: dropped <= |s.journal| && AreLinesOf(Lines(s.file), s.journal[dropped..])
  {
    LinesOfJournal(s.journal);
    assert LookAt(s.file);
    LastLines(s.file, Render(s.journal), s.journal);
  }

  lemma InitialInv()
    ensures Inv(Initial)
  {
    Reachable([]);
    assert Run(Initial, []) == Some(Initial);
  }

  // ---- Runs that never shrink the file ----

  /** No size check of the run finds the file too long, and nothing is written but queue entries. */
  predicate Plain(s: State, steps: seq<Step>)
    requires Run(s, steps).Some?
    decreases |steps|
  {
    steps != [] ==>
      && ((steps[0] == InConsumer(CheckSize) || steps[0] == OnFile(CheckSizeDirect)) ==> !TooLong(|s.file|, s.maxSize))
      && !(steps[0].OnFile? && steps[0].f.AppendDirect?)
      && Plain(Do(s, steps[0]), steps[1..])
  }

  predicate AllInFile(s: State) {
    s.file == Render(s.journal) && forall r :: r in s.journal ==> r.FromQueue?
  }

  lemma AllInFileStep(s: State, e: Step)
    requires AllInFile(s) && Enabled(s, e)
    requires (e == InConsumer(CheckSize) || e == OnFile(CheckSizeDirect)) ==> !TooLong(|s.file|, s.maxSize)
    requires !(e.OnFile? && e.f.AppendDirect?)
    ensures AllInFile(Do(s, e))
  {
    StepFrame(s, e);
    if Added(s, e).Some? {
      RecordAdded(s, Added(s, e).value);
    }
  }

  lemma {:induction false} AllInFileOnRun(s: State, steps: seq<Step>)
    requires AllInFile(s) && Run(s, steps).Some? && Plain(s, steps)
    ensures AllInFile(Run(s, steps).value)
    decreases |steps|
  {
    if steps != [] {
      AllInFileStep(s, steps[0]);
      AllInFileOnRun(Do(s, steps[0]), steps[1..]);
    }
  }

  lemma {:induction false} WrittenOfQueue(journal: seq<Record>)
    requires forall r :: r in journal ==> r.FromQueue?
    ensures |Written(journal)| == |journal|
    ensures forall i :: 0 <= i < |journal| ==> Written(journal)[i] == journal[i].entry
  {
    if journal != [] {
      WrittenOfQueue(journal[..|journal| - 1]);
    }
  }

  ghost predicate EndsIn(line: string, entry: string) {
    exists stamp: string :: line == stamp + [' ', ' '] + entry
  }

  lemma LineEndsInEntry(line: string, r: Record)
    requires r.FromQueue? && IsLineOf(line, r)
    ensures EndsIn(line, r.entry)
  {
    assert line == r.stamp + [' ', ' '] + r.entry;
  }

  lemma LinesEndInEntries(lines: seq<string>, journal: seq<Record>)
    requires AreLinesOf(lines, journal) && forall r :: r in journal ==> r.FromQueue?
    ensures |Written(journal)| == |lines| && forall i :: 0 <= i < |lines| ==> EndsIn(lines[i], Written(journal)[i])
  {
    WrittenOfQueue(journal);
    forall i | 0 <= i < |lines|
      ensures EndsIn(lines[i], Written(journal)[i])
    {
      LineEndsInEntry(lines[i], journal[i]);
    }
  }

  /** The lines, each without its time stamp, are the first of the entries; rest are the others. */
  ghost predicate Shows(lines: seq<string>, entries: seq<string>, rest: seq<string>) {
    && |entries| == |lines| + |rest| && entries[|lines|..] == rest
    && forall i :: 0 <= i < |lines| ==> EndsIn(lines[i], entries[i])
  }

  lemma ShowsWritten(lines: seq<string>, written: seq<string>, rest: seq<string>)
    requires |written| == |lines| && forall i :: 0 <= i < |lines| ==> EndsIn(lines[i], written[i])
    ensures Shows(lines, written + rest, rest)
  {
  }

  /**
   Then the lines of the file, each without its time stamp, are the accepted entries in the order of the
   lock, up to those not yet written.
   */
  lemma {:induction false} FileShowsAcceptedEntries(steps: seq<Step>)
    requires Run(Initial, steps).Some? && Plain(Initial, steps)
    requires forall r :: r in Run(Initial, steps).value.journal ==> OneLiner(r)
    ensures var s := Run(Initial, steps).value; Shows(Lines(s.file), s.accepted, Unwritten(s))
  {
    var s := Run(Initial, steps).value;
    EntriesConserved(steps);
    JournalIsNulFree(steps);
    AllInFileOnRun(Initial, steps);
    AllShown(s, s.accepted, Unwritten(s));
  }

  lemma AllShown(s: State, entries: seq<string>, rest: seq<string>)
    requires AllInFile(s) && NulFreeJournal(s) && forall r :: r in s.journal ==> OneLiner(r)
    requires entries == Written(s.journal) + rest
    ensures Shows(Lines(s.file), entries, rest)
  {
    LinesOfJournal(s.journal);
    assert Use(0);
    LinesEndInEntries(Lines(s.file), s.journal);
    ShowsWritten(Lines(s.file), Written(s.journal), rest);
  }

  // ---- The text of a call ----

  predicate IsFormat(e: Step) { e.InLog? && e.l.Format? }

  lemma BufferStep(s: State, e: Step)
    requires Enabled(s, e) && !IsFormat(e)
    ensures Do(s, e).lineBuffer == s.lineBuffer
  {
  }

  lemma {:induction false} BufferOnRun(s: State, steps: seq<Step>)
    requires Run(s, steps).Some? && forall e :: e in steps ==> !IsFormat(e)
    ensures Run(s, steps).value.lineBuffer == s.lineBuffer
    decreases |steps|
  {
    if steps != [] {
      BufferStep(s, steps[0]);
      BufferOnRun(Do(s, steps[0]), steps[1..]);
    }
  }

  /** A text formatted by t is what is queued next, unless another thread formats in between. */
  lemma {:induction false} UndisturbedTextIsQueued(s: State, t: ThreadId, text: string, steps: seq<Step>, u: ThreadId)
    requires Enabled(s, InLog(t, Format(text))) && Run(Do(s, InLog(t, Format(text))), steps).Some?
    requires forall e :: e in steps ==> !IsFormat(e)
    requires LogEnabled(Run(Do(s, InLog(t, Format(text))), steps).value, u, Emplace)
    ensures var m := Run(Do(s, InLog(t, Format(text))), steps).value;
            var n := LogDo(m, u, Emplace);
            n.queue == m.queue + [text] && n.accepted == m.accepted + [text]
  {
    BufferOnRun(Do(s, InLog(t, Format(text))), steps);
  }

  // ---- Entries get written ----

  function ConsumerSteps(steps: seq<Step>): nat {
    if steps == [] then 0 else (if steps[0].InConsumer? then 1 else 0) + ConsumerSteps(steps[1..])
  }

  predicate NoShutdown(steps: seq<Step>) {
    forall e :: e in steps ==> e != InDestructor(SetExit)
  }

  /** Consumer steps to the next write, if there is something to write and no shutdown. */
  function Distance(s: State): nat {
    match s.consumer
    case InnerHold => 1
    case InnerLock => 2
    case InnerTest => 3
    case HoldRelease => 4
    case Popped => 4
    case HoldCheck => 5
    case Wrote => 5
    case Woken => 5
    case AtTop => 6
    case Waiting => 6
    case ExitTest => 7
    case HoldWait => 7
    case Closing => 8
    case Done => 0
  }

  /** The consumer has work to do. */
  ghost predicate Busy(s: State) {
    Inv(s) && s.shutdown == Running && s.consumer != Done && Unwritten(s) != []
  }

  lemma ConsumerAdvances(s: State, c: ConsumerStep)
    requires s.shutdown == Running && s.consumer != Done && s.queue != [] && ConsumerEnabled(s, c)
    ensures ConsumerDo(s, c).consumer != Done
    ensures !c.WriteFront? ==> Distance(ConsumerDo(s, c)) < Distance(s)
  {
  }

  lemma ConsumerKeepsShutdown(s: State, c: ConsumerStep)
    requires ConsumerEnabled(s, c)
    ensures ConsumerDo(s, c).shutdown == s.shutdown
  {
  }

  lemma OthersDoNotDelay(s: State, e: Step)
    requires s.shutdown == Running && s.consumer != Done && Enabled(s, e) && !e.InConsumer? && e != InDestructor(SetExit)
    ensures var n := Do(s, e);
            n.shutdown == Running && n.consumer != Done && Distance(n) <= Distance(s)
  {
  }

  lemma WrittenCount(journal: seq<Record>, r: Record)
    ensures |Written(journal + [r])| == |Written(journal)| + if r.FromQueue? then 1 else 0
  {
    assert (journal + [r])[..|journal|] == journal;
  }

  /** How many entries have been written after a step. */
  lemma WrittenStep(s: State, e: Step)
    requires Enabled(s, e)
    ensures |Written(Do(s, e).journal)| == |Written(s.journal)| + if e.InConsumer? && e.c.WriteFront? then 1 else 0
  {
    StepFrame(s, e);
    if Added(s, e).Some? {
      WrittenCount(s.journal, Added(s, e).value);
    }
  }

  lemma AcceptedGrows(s: State, e: Step)
    requires Enabled(s, e)
    ensures |s.accepted| <= |Do(s, e).accepted| && Do(s, e).accepted[..|s.accepted|] == s.accepted
  {
  }

  lemma {:induction false} RunGrows(s: State, steps: seq<Step>)
    requires Run(s, steps).Some?
    ensures var n := Run(s, steps).value;
            && |s.accepted| <= |n.accepted| && n.accepted[..|s.accepted|] == s.accepted
            && |Written(s.journal)| <= |Written(n.journal)|
    decreases |steps|
  {
    if steps != [] {
      var m := Do(s, steps[0]);
      AcceptedGrows(s, steps[0]);
      WrittenStep(s, steps[0]);
      RunGrows(m, steps[1..]);
      var n := Run(s, steps).value;
      assert n.accepted[..|m.accepted|][..|s.accepted|] == n.accepted[..|s.accepted|];
    }
  }

  lemma UnwrittenCount(s: State)
    requires Conserved(s)
    ensures |Unwritten(s)| == |s.accepted| - |Written(s.journal)|
  {
  }

  /** The invariant of a running logger, to be used only where Use is mentioned. */
  ghost predicate Live(s: State) {
    forall i: nat {:trigger Use(i)} :: i == 0 ==> Inv(s) && s.shutdown == Running && s.consumer != Done
  }

  function Backlog(s: State): int { |s.accepted| - |Written(s.journal)| }

  lemma LiveQueue(s: State)
    requires Live(s) && Backlog(s) > 0
    ensures s.queue != [] && s.shutdown == Running && s.consumer != Done
  {
    assert Use(0);
    UnwrittenCount(s);
  }

  lemma LiveKept(s: State, e: Step)
    requires Live(s) && Enabled(s, e) && Do(s, e).shutdown == Running && Do(s, e).consumer != Done
    ensures Live(Do(s, e))
  {
    assert Use(0);
    InvKept(s, e);
  }

  lemma Progress(s: State, e: Step)
    requires s.shutdown == Running && s.consumer != Done && s.queue != []
    requires Enabled(s, e) && e != InDestructor(SetExit)
    ensures var n := Do(s, e);
            && n.shutdown == Running && n.consumer != Done && Distance(n) <= 8
            && (!e.InConsumer? ==> Distance(n) <= Distance(s))
            && (e.InConsumer? && !e.c.WriteFront? ==> Distance(n) < Distance(s))
  {
    DistanceAtMost8(Do(s, e));
    if e.InConsumer? {
      ConsumerKeepsShutdown(s, e.c);
      ConsumerAdvances(s, e.c);
    } else {
      OthersDoNotDelay(s, e);
    }
  }

  /** Of a live state with something to write, what one step does to the counts. */
  lemma LiveStep(s: State, e: Step)
    requires Live(s) && Backlog(s) > 0 && Enabled(s, e) && e != InDestructor(SetExit)
    ensures var n := Do(s, e);
            var w := |Written(n.journal)| - |Written(s.journal)|;
            && Live(n) && |s.accepted| <= |n.accepted|
            && (w == 0 || (w == 1 && e.InConsumer? && Distance(n) <= 8))
            && (w == 0 ==> if e.InConsumer? then Distance(n) < Distance(s) else Distance(n) <= Distance(s))
  {
    LiveQueue(s);
    Progress(s, e);
    LiveKept(s, e);
    WrittenStep(s, e);
    AcceptedGrows(s, e);
  }

  lemma DistanceIsPositive(s: State)
    requires s.consumer != Done
    ensures Distance(s) > 0
  {
  }

  lemma LiveIsFar(s: State)
    requires Live(s)
    ensures Distance(s) > 0
  {
    assert Use(0);
    DistanceIsPositive(s);
  }

  lemma NoShutdownRest(steps: seq<Step>)
    requires NoShutdown(steps) && steps != []
    ensures steps[0] != InDestructor(SetExit) && NoShutdown(steps[1..])
  {
    assert steps[0] in steps;
    assert forall e :: e in steps[1..] ==> e in steps;
  }

  /** Without a shutdown, k entries that wait are written within 8*k steps of the consumer. */
  lemma {:induction false} WrittenWithin(s: State, steps: seq<Step>, k: nat)
    requires Live(s) && 1 <= k <= Backlog(s)
    requires Run(s, steps).Some? && NoShutdown(steps) && ConsumerSteps(steps) >= Distance(s) + 8 * (k - 1)
    ensures |Written(Run(s, steps).value.journal)| >= |Written(s.journal)| + k
    decreases |steps|
  {
    if steps == [] {
      LiveIsFar(s);
    } else {
      var n := Do(s, steps[0]);
      NoShutdownRest(steps);
      LiveStep(s, steps[0]);
      if |Written(n.journal)| == |Written(s.journal)| {
        WrittenWithin(n, steps[1..], k);
      } else if k > 1 {
        WrittenWithin(n, steps[1..], k - 1);
      } else {
        RunGrows(n, steps[1..]);
      }
    }
  }

  lemma ConsumerDoneOnlyAfterExit(s: State, c: ConsumerStep)
    requires ConsumerEnabled(s, c)
    ensures ConsumerDo(s, c).shutdown == s.shutdown && (ConsumerDo(s, c).consumer == Done ==> s.Exit())
  {
  }

  lemma DoneOnlyAfterExit(s: State, e: Step)
    requires Enabled(s, e) && (s.consumer == Done ==> s.Exit())
    ensures Do(s, e).consumer == Done ==> Do(s, e).Exit()
  {
    match e
    case InLog(t, l) =>
    case InConsumer(c) => ConsumerDoneOnlyAfterExit(s, c);
    case InDestructor(d) =>
    case OnFile(f) =>
  }

  lemma {:induction false} DoneOnlyAfterExitOnRun(s: State, steps: seq<Step>)
    requires Run(s, steps).Some? && (s.consumer == Done ==> s.Exit())
    ensures var n := Run(s, steps).value; n.consumer == Done ==> n.Exit()
    decreases |steps|
  {
    if steps != [] {
      DoneOnlyAfterExit(s, steps[0]);
      DoneOnlyAfterExitOnRun(Do(s, steps[0]), steps[1..]);
    }
  }

  /** Everything accepted in a reachable state gets written, in any continuation that lets the consumer work. */
  lemma {:induction false} AcceptedEntriesGetWritten(steps: seq<Step>, more: seq<Step>)
    requires Run(Initial, steps).Some? && Run(Initial, steps).value.shutdown == Running
    requires Run(Run(Initial, steps).value, more).Some? && NoShutdown(more)
    requires ConsumerSteps(more) >= 8 * |Unwritten(Run(Initial, steps).value)|
    ensures var s := Run(Initial, steps).value;
            var w := Written(Run(s, more).value.journal);
            |w| >= |s.accepted| && w[..|s.accepted|] == s.accepted
  {
    ReachableIsLive(steps);
    GetWritten(Run(Initial, steps).value, more);
  }

  lemma ReachableIsLive(steps: seq<Step>)
    requires Run(Initial, steps).Some? && Run(Initial, steps).value.shutdown == Running
    ensures Live(Run(Initial, steps).value)
  {
    Reachable(steps);
    DoneOnlyAfterExitOnRun(Initial, steps);
  }

  lemma LiveCounts(s: State, more: seq<Step>)
    requires Live(s) && Run(s, more).Some?
    ensures |Unwritten(s)| == Backlog(s)
    ensures var n := Run(s, more).value; n.accepted == Written(n.journal) + Unwritten(n)
  {
    assert Use(0);
    UnwrittenCount(s);
    InvOnRun(s, more);
  }

  lemma GetWritten(s: State, more: seq<Step>)
    requires Live(s) && Run(s, more).Some? && NoShutdown(more) && ConsumerSteps(more) >= 8 * |Unwritten(s)|
    ensures var w := Written(Run(s, more).value.journal); |w| >= |s.accepted| && w[..|s.accepted|] == s.accepted
  {
    var n := Run(s, more).value;
    LiveCounts(s, more);
    RunGrows(s, more);
    if Backlog(s) > 0 {
      DistanceAtMost8(s);
      WrittenWithin(s, more, Backlog(s));
    }
    WrittenIsPrefix(s.accepted, n.accepted, Written(n.journal), Unwritten(n));
  }

  lemma DistanceAtMost8(s: State)
    ensures Distance(s) <= 8
  {
  }

  lemma WrittenIsPrefix(a: seq<string>, b: seq<string>, w: seq<string>, u: seq<string>)
    requires |a| <= |b| && b[..|a|] == a && b == w + u && |w| >= |a|
    ensures w[..|a|] == a
  {
  }

  // ---- Nobody is blocked while there is something to write ----

  lemma MutexHolderCanMove(s: State, t: ThreadId)
    requires s.ProducerHolds(t)
    ensures exists l :: LogEnabled(s, t, l)
  {
    assert LogEnabled(s, t, Emplace) || LogEnabled(s, t, Unlock);
  }

  lemma NotifierCanMove(s: State, t: ThreadId)
    requires s.WillNotify(t)
    ensures LogEnabled(s, t, Unlock) || LogEnabled(s, t, NotifyOne)
  {
  }

  ghost predicate ConsumerCanMove(s: State) {
    exists c :: c != SpuriousWake && ConsumerEnabled(s, c)
  }

  lemma ConsumerIsFree(s: State)
    requires Busy(s) && s.consumer != Waiting && (s.mutex == NoOne || s.mutex == ByConsumer)
    ensures ConsumerCanMove(s)
  {
    SizeCheckOfInv(s);
    match s.consumer
    case AtTop => assert ConsumerEnabled(s, LockTop);
    case HoldCheck => assert ConsumerEnabled(s, Check);
    case HoldWait => assert false;
    case Woken => assert ConsumerEnabled(s, Reacquire);
    case HoldRelease => assert ConsumerEnabled(s, Release);
    case InnerTest => assert ConsumerEnabled(s, TestExit);
    case InnerLock => assert ConsumerEnabled(s, LockInner);
    case InnerHold => assert ConsumerEnabled(s, WriteFront(""));
    case Wrote => assert ConsumerEnabled(s, Pop);
    case Popped => assert ConsumerEnabled(s, ReleaseInner);
    case Closing => assert ConsumerEnabled(s, CheckSize);
    case ExitTest => assert ConsumerEnabled(s, TestExitEnd);
  }

  /**
   In every reachable state with something to write and no shutdown, the consumer can move, or a producer
   that holds the mutex can, or the consumer waits and a producer is about to wake it.
   */
  lemma {:induction false} SomebodyMoves(steps: seq<Step>)
    requires Run(Initial, steps).Some? && Busy(Run(Initial, steps).value)
    ensures var s := Run(Initial, steps).value;
            || ConsumerCanMove(s)
            || (exists t: ThreadId, l :: s.mutex == ByProducer(t) && LogEnabled(s, t, l))
            || (s.consumer == Waiting && exists t: ThreadId :: LogEnabled(s, t, Unlock) || LogEnabled(s, t, NotifyOne))
  {
    var s := Run(Initial, steps).value;
    if s.consumer == Waiting {
      var t: ThreadId :| s.WillNotify(t);
      NotifierCanMove(s, t);
    } else if s.mutex.ByProducer? {
      MutexHolderCanMove(s, s.mutex.t);
    } else {
      ConsumerIsFree(s);
    }
  }

  /** notify_one ends the wait. */
  lemma NotificationWakes(s: State, t: ThreadId)
    requires LogEnabled(s, t, NotifyOne) && s.consumer == Waiting
    ensures LogDo(s, t, NotifyOne).consumer == Woken
  {
  }

  // ---- One message from the call to the file ----

  /** Some run from the start leads to s. */
  ghost predicate Reached(s: State) {
    exists steps :: Run(Initial, steps) == Some(s)
  }

  lemma {:induction false} RunSnoc(s: State, steps: seq<Step>, e: Step)
    requires Run(s, steps).Some? && Enabled(Run(s, steps).value, e)
    ensures Run(s, steps + [e]) == Some(Do(Run(s, steps).value, e))
    decreases |steps|
  {
    if steps == [] {
      assert [] + [e] == [e] && [e][1..] == [];
    } else {
      RunSnoc(Do(s, steps[0]), steps[1..], e);
      HeadTail(steps, [e]);
    }
  }

  lemma Via(s: State, e: Step, n: State)
    requires Reached(s) && Enabled(s, e) && n == Do(s, e)
    ensures Reached(n)
  {
    var steps :| Run(Initial, steps) == Some(s);
    RunSnoc(Initial, steps, e);
    assert Run(Initial, steps + [e]) == Some(n);
  }

  /** log(text) called by t from start to end while nobody else moves. */
  lemma CallGoesThrough(s: State, t: ThreadId, text: string) returns (n: State)
    requires Reached(s) && s.Pc(t) == Idle && s.mutex == NoOne && NulFree(text)
    ensures Reached(n) && n == s.(lineBuffer := text, queue := s.queue + [text], accepted := s.accepted + [text],
                                  producers := n.producers, consumer := n.consumer)
    ensures n.Pc(t) == Idle && n.consumer == if s.consumer == Waiting then Woken else s.consumer
  {
    var s1 := s.Move(t, Formatting);
    Via(s, InLog(t, CallLog), s1);
    var s2 := s1.(lineBuffer := text);
    Via(s1, InLog(t, Format(text)), s2);
    var s3 := s2.Move(t, Formatted);
    Via(s2, InLog(t, FormatDone), s3);
    var s4 := s3.Move(t, HasLock).(mutex := ByProducer(t));
    Via(s3, InLog(t, Lock), s4);
    var s5 := s4.Move(t, HasQueued).(queue := s4.queue + [text], accepted := s4.accepted + [text]);
    Via(s4, InLog(t, Emplace), s5);
    var s6 := s5.Move(t, Unlocked).(mutex := NoOne);
    Via(s5, InLog(t, Unlock), s6);
    n := s6.Move(t, Idle).Wake();
    Via(s6, InLog(t, NotifyOne), n);
  }

  /** The consumer from the top of its loop to the lock in the inner loop while nobody else moves. */
  lemma ConsumerGetsReady(s: State) returns (n: State)
    requires Reached(s) && s.consumer == AtTop && s.mutex == NoOne && s.shutdown == Running && s.queue != []
    ensures Reached(n) && n == s.(consumer := InnerHold, mutex := ByConsumer)
  {
    var s1 := s.(consumer := HoldCheck, mutex := ByConsumer);
    Via(s, InConsumer(LockTop), s1);
    var s2 := s1.(consumer := HoldRelease);
    Via(s1, InConsumer(Check), s2);
    var s3 := s2.(consumer := InnerTest, mutex := NoOne);
    Via(s2, InConsumer(Release), s3);
    var s4 := s3.(consumer := InnerLock);
    Via(s3, InConsumer(TestExit), s4);
    n := s4.(consumer := InnerHold, mutex := ByConsumer);
    Via(s4, InConsumer(LockInner), n);
  }

  lemma ConsumerWrites(s: State, stamp: string) returns (n: State)
    requires Reached(s) && s.consumer == InnerHold && s.shutdown == Running && s.queue != [] && NulFree(stamp)
    ensures Reached(n) && n.file == s.file + (stamp + [' ', ' '] + s.queue[0] + ['\n']) && n.shutdown == Running
  {
    n := Do(s, InConsumer(WriteFront(stamp)));
    Via(s, InConsumer(WriteFront(stamp)), n);
  }

  /** Whatever is logged first can stand in the file, behind its time stamp. */
  lemma FirstMessageReachesFile(t: ThreadId, text: string, stamp: string)
    requires NulFree(text) && NulFree(stamp)
    ensures exists s :: Reached(s) && s.shutdown == Running && s.file == stamp + [' ', ' '] + text + ['\n']
  {
    assert Run(Initial, []) == Some(Initial);
    var s := CallGoesThrough(Initial, t, text);
    var r := ConsumerGetsReady(s);
    var n := ConsumerWrites(r, stamp);
    Empty(stamp + [' ', ' '] + text + ['\n']);
  }
}
