/**
 The asynchronous logger Mylog as a step machine: any number of threads in log(), the consumer thread in
 processEntries(), the destructor, and direct file operations, interleaved in any order.
 */
module Logger {
  import opened LogFile
  import opened Options

  type ThreadId = nat

  // ---- State ----

  /** Where a thread is in log(). */
  datatype Producer = Idle | Formatting | Formatted | HasLock | HasQueued | Unlocked

  /** Where the consumer is in processEntries(). The states Hold... and Wrote, Popped own the mutex. */
  datatype Consumer =
    | AtTop | HoldCheck | HoldWait | Waiting | Woken | HoldRelease
    | InnerTest | InnerLock | InnerHold | Wrote | Popped | Closing | ExitTest | Done

  /** Where the destructor is. */
  datatype Owner = NoOne | ByProducer(t: ThreadId) | ByConsumer

  datatype Shutdown = Running | FlagSet | Notified | Joined

  /** One addition to the file: an entry from the queue under its time stamp, or a direct message. */
  datatype Record = FromQueue(stamp: string, entry: string) | Direct(stamp: string, message: string)

  datatype State = State(
    mutex: Owner,
    producers: map<ThreadId, Producer>,
    lineBuffer: string,
    queue: seq<string>,
    consumer: Consumer,
    shutdown: Shutdown,
    maxSize: int,
    file: string,
    accepted: seq<string>,  // the strings put into the queue, in the order of the lock
    journal: seq<Record>)   // the additions to the file, in order
  {
    function Pc(t: ThreadId): Producer { if t in producers then producers[t] else Idle }

    function Move(t: ThreadId, p: Producer): State { this.(producers := producers[t := p]) }

    predicate Exit() { shutdown != Running }

    predicate ProducerHolds(t: ThreadId) { Pc(t).HasLock? || Pc(t).HasQueued? }

    predicate WillNotify(t: ThreadId) { Pc(t).HasQueued? || Pc(t).Unlocked? }

    predicate ConsumerHolds() {
      || consumer.HoldCheck? || consumer.HoldWait? || consumer.HoldRelease?
      || consumer.InnerHold? || consumer.Wrote? || consumer.Popped?
    }

    /** A wake-up from the condition variable, on which only the consumer ever waits. */
    function Wake(): State { if consumer == Waiting then this.(consumer := Woken) else this }
  }

  const Initial := State(NoOne, map[], "", [], AtTop, Running, 204800000, "", [], [])

  function Line(r: Record): string {
    match r
    case FromQueue(stamp, entry) => stamp + "  " + entry + "\n"
    case Direct(stamp, message) => stamp + "  " + message + "\n"
  }

  function Render(journal: seq<Record>): string {
    if journal == [] then [] else Render(journal[..|journal| - 1]) + Line(journal[|journal| - 1])
  }

  /** The queue entries among the additions to the file. */
  function Written(journal: seq<Record>): seq<string> {
    if journal == [] then []
    else
      var last := journal[|journal| - 1];
      Written(journal[..|journal| - 1]) + if last.FromQueue? then [last.entry] else []
  }

  // ---- Steps ----

  /** log(): the shared buffer may be overwritten by any thread that is formatting, at any time. */
  datatype LogStep = CallLog | Format(text: string) | FormatDone | Lock | Emplace | Unlock | NotifyOne

  /** processEntries() */
  datatype ConsumerStep =
    | LockTop | Check | Wait | SpuriousWake | Reacquire | Release
    | TestExit | LockInner | WriteFront(stamp: string) | Pop | ReleaseInner | BreakInner | CheckSize | TestExitEnd

  /** ~Mylog() */
  datatype DestructorStep = SetExit | NotifyAll | Join

  /** Calls from outside that reach the file or its limit: the two halves of logException, and setMaxFileSize. */
  datatype FileStep = AppendDirect(stamp: string, message: string) | CheckSizeDirect | SetMax(n: int)

  datatype Step =
    | InLog(t: ThreadId, l: LogStep)
    | InConsumer(c: ConsumerStep)
    | InDestructor(d: DestructorStep)
    | OnFile(f: FileStep)

  predicate NulFree(s: string) { '\0' !in s }

  predicate LogEnabled(s: State, t: ThreadId, l: LogStep) {
    match l
    case CallLog => s.Pc(t) == Idle
    case Format(text) => s.Pc(t) == Formatting && NulFree(text)
    case FormatDone => s.Pc(t) == Formatting
    case Lock => s.Pc(t) == Formatted && s.mutex == NoOne
    case Emplace => s.Pc(t) == HasLock
    case Unlock => s.Pc(t) == HasQueued
    case NotifyOne => s.Pc(t) == Unlocked
  }

  function LogDo(s: State, t: ThreadId, l: LogStep): State {
    match l
    case CallLog => s.Move(t, Formatting)
    case Format(text) => s.(lineBuffer := text)
    case FormatDone => s.Move(t, Formatted)
    case Lock => s.Move(t, HasLock).(mutex := ByProducer(t))
    case Emplace => s.Move(t, HasQueued).(queue := s.queue + [s.lineBuffer], accepted := s.accepted + [s.lineBuffer])
    case Unlock => s.Move(t, Unlocked).(mutex := NoOne)
    case NotifyOne => s.Move(t, Idle).Wake()
  }

  predicate ConsumerEnabled(s: State, c: ConsumerStep) {
    match c
    case LockTop => s.consumer == AtTop && s.mutex == NoOne
    case Check => s.consumer == HoldCheck
    case Wait => s.consumer == HoldWait
    case SpuriousWake => s.consumer == Waiting
    case Reacquire => s.consumer == Woken && s.mutex == NoOne
    case Release => s.consumer == HoldRelease
    case TestExit => s.consumer == InnerTest
    case LockInner => s.consumer == InnerLock && s.mutex == NoOne
    case WriteFront(stamp) => s.consumer == InnerHold && s.queue != [] && NulFree(stamp)
    case Pop => s.consumer == Wrote && s.queue != []
    case ReleaseInner => s.consumer == Popped
    case BreakInner => s.consumer == InnerHold && s.queue == []
    case CheckSize => s.consumer == Closing && CheckedSize(s.file, s.maxSize).Some?
    case TestExitEnd => s.consumer == ExitTest
  }

  function ConsumerDo(s: State, c: ConsumerStep): State
    requires ConsumerEnabled(s, c)
  {
    match c
    case LockTop => s.(consumer := HoldCheck, mutex := ByConsumer)
    case Check => s.(consumer := if !s.Exit() && s.queue == [] then HoldWait else HoldRelease)
    case Wait => s.(consumer := Waiting, mutex := NoOne)
    case SpuriousWake => s.(consumer := Woken)
    case Reacquire => s.(consumer := HoldRelease, mutex := ByConsumer)
    case Release => s.(consumer := InnerTest, mutex := NoOne)
    case TestExit => s.(consumer := if s.Exit() then Closing else InnerLock)
    case LockInner => s.(consumer := InnerHold, mutex := ByConsumer)
    case WriteFront(stamp) => AddRecord(s, FromQueue(stamp, s.queue[0])).(consumer := Wrote)
    case Pop => s.(consumer := Popped, queue := s.queue[1..])
    case ReleaseInner => s.(consumer := InnerTest, mutex := NoOne)
    case BreakInner => s.(consumer := Closing, mutex := NoOne)
    case CheckSize => s.(consumer := ExitTest, file := CheckedSize(s.file, s.maxSize).value)
    case TestExitEnd => s.(consumer := if s.Exit() then Done else AtTop)
  }

  predicate DestructorEnabled(s: State, d: DestructorStep) {
    match d
    case SetExit => s.shutdown == Running
    case NotifyAll => s.shutdown == FlagSet
    case Join => s.shutdown == Notified && s.consumer == Done
  }

  function DestructorDo(s: State, d: DestructorStep): State {
    match d
    case SetExit => s.(shutdown := FlagSet)
    case NotifyAll => s.(shutdown := Notified).Wake()
    case Join => s.(shutdown := Joined)
  }

  predicate FileEnabled(s: State, f: FileStep) {
    match f
    case AppendDirect(stamp, message) => NulFree(stamp) && NulFree(message)
    case CheckSizeDirect => CheckedSize(s.file, s.maxSize).Some?
    case SetMax(n) => n >= 0
  }

  function FileDo(s: State, f: FileStep): State
    requires FileEnabled(s, f)
  {
    match f
    case AppendDirect(stamp, message) => AddRecord(s, Direct(stamp, message))
    case CheckSizeDirect => s.(file := CheckedSize(s.file, s.maxSize).value)
    case SetMax(n) => s.(maxSize := n)
  }

  function AddRecord(s: State, r: Record): State {
    s.(file := s.file + Line(r), journal := s.journal + [r])
  }

  predicate Enabled(s: State, e: Step) {
    match e
    case InLog(t, l) => LogEnabled(s, t, l)
    case InConsumer(c) => ConsumerEnabled(s, c)
    case InDestructor(d) => DestructorEnabled(s, d)
    case OnFile(f) => FileEnabled(s, f)
  }

  function Do(s: State, e: Step): State
    requires Enabled(s, e)
  {
    match e
    case InLog(t, l) => LogDo(s, t, l)
    case InConsumer(c) => ConsumerDo(s, c)
    case InDestructor(d) => DestructorDo(s, d)
    case OnFile(f) => FileDo(s, f)
  }

  /** The state after a sequence of steps from s, if each is enabled in turn. */
  function Run(s: State, steps: seq<Step>): Option<State>
    decreases |steps|
  {
    if steps == [] then Some(s)
    else if Enabled(s, steps[0]) then Run(Do(s, steps[0]), steps[1..])
    else None
  }

  // ---- Invariants ----

  /** The mutex excludes: its owner is exactly the thread that is between lock and unlock. */
  ghost predicate Exclusive(s: State) {
    && (forall t: ThreadId :: s.ProducerHolds(t) <==> s.mutex == ByProducer(t))
    && (s.ConsumerHolds() <==> s.mutex == ByConsumer)
  }

  /** Entries the consumer has not written yet. */
  function Unwritten(s: State): seq<string> {
    if s.consumer == Wrote && s.queue != [] then s.queue[1..] else s.queue
  }

  /** Nothing is lost, duplicated or reordered on the way from the lock to the file. */
  ghost predicate Conserved(s: State) {
    && s.accepted == Written(s.journal) + Unwritten(s)
    && (s.consumer == Wrote ==> s.queue != [])
  }

  ghost predicate SomeoneWillNotify(s: State) {
    exists t: ThreadId :: s.WillNotify(t)
  }

  /** A waiting consumer with a non-empty queue has a notification coming. */
  ghost predicate NoLostWakeup(s: State) {
    && (s.consumer == HoldWait ==> s.queue == [])
    && (s.consumer == Waiting && s.queue != [] ==> SomeoneWillNotify(s))
  }

  ghost predicate Entries(s: State) {
    && NulFree(s.lineBuffer) && s.maxSize >= 0
    && (forall e :: e in s.queue ==> NulFree(e))
  }

  predicate LookAt(file: string) { true }

  /** The file holds the last lines of everything ever written; to be used only where LookAt is mentioned. */
  ghost predicate FileIsSuffix(s: State) {
    forall file: string {:trigger LookAt(file)} ::
      file == s.file ==> Text(file) && LineSuffix(file, Render(s.journal))
  }

  ghost predicate Inv(s: State) {
    Exclusive(s) && Conserved(s) && NoLostWakeup(s) && Entries(s) && FileIsSuffix(s)
  }

  lemma RecordAdded(s: State, r: Record)
    ensures Written(s.journal + [r]) == Written(s.journal) + if r.FromQueue? then [r.entry] else []
    ensures Render(s.journal + [r]) == Render(s.journal) + Line(r)
  {
    assert (s.journal + [r])[..|s.journal|] == s.journal;
  }

  // ---- What keeps each part of the invariant ----

  lemma SameData(s: State, n: State)
    requires n.queue == s.queue && n.accepted == s.accepted && Written(n.journal) == Written(s.journal)
    requires n.consumer == Wrote <==> s.consumer == Wrote
    requires Conserved(s)
    ensures Conserved(n)
  {
  }

  lemma SameTexts(s: State, n: State)
    requires n.queue == s.queue && n.lineBuffer == s.lineBuffer && n.maxSize == s.maxSize && Entries(s)
    ensures Entries(n)
  {
  }

  lemma SameFile(s: State, n: State)
    requires n.file == s.file && n.journal == s.journal && FileIsSuffix(s)
    ensures FileIsSuffix(n)
  {
    assert LookAt(n.file);
  }

  // ---- Steps in log() ----

  lemma SomeoneStays(s: State, n: State)
    requires SomeoneWillNotify(s)
    requires forall t: ThreadId :: s.WillNotify(t) ==> n.WillNotify(t)
    ensures SomeoneWillNotify(n)
  {
    var t: ThreadId :| s.WillNotify(t);
    assert n.WillNotify(t);
  }

  lemma LogKeepsExclusive(s: State, t: ThreadId, l: LogStep)
    requires Exclusive(s) && LogEnabled(s, t, l)
    ensures Exclusive(LogDo(s, t, l))
  {
    var n := LogDo(s, t, l);
    assert s.ProducerHolds(t) <==> s.mutex == ByProducer(t);
    forall u: ThreadId
      ensures n.ProducerHolds(u) <==> n.mutex == ByProducer(u)
    {
      assert u != t ==> n.Pc(u) == s.Pc(u);
      assert s.ProducerHolds(u) <==> s.mutex == ByProducer(u);
    }
  }

  lemma LogKeepsEntries(s: State, t: ThreadId, l: LogStep)
    requires Conserved(s) && Exclusive(s) && NoLostWakeup(s) && Entries(s) && LogEnabled(s, t, l)
    ensures var n := LogDo(s, t, l); Conserved(n) && NoLostWakeup(n) && Entries(n)
  {
    var n := LogDo(s, t, l);
    if l.Emplace? {
      assert s.ProducerHolds(t) && n.WillNotify(t);
      var w, q, x := Written(s.journal), s.queue, [s.lineBuffer];
      assert (w + q) + x == w + (q + x);
    } else if s.consumer == Waiting && s.queue != [] && !l.NotifyOne? {
      SomeoneStays(s, n);
    }
  }

  // ---- Steps in processEntries() ----

  lemma ConsumerKeepsExclusive(s: State, c: ConsumerStep)
    requires Exclusive(s) && ConsumerEnabled(s, c)
    ensures Exclusive(ConsumerDo(s, c))
  {
    var n := ConsumerDo(s, c);
    forall u: ThreadId
      ensures n.ProducerHolds(u) <==> n.mutex == ByProducer(u)
    {
      assert n.Pc(u) == s.Pc(u);
      assert s.ProducerHolds(u) <==> s.mutex == ByProducer(u);
    }
  }

  lemma MoveFront(w: seq<string>, q: seq<string>)
    requires q != []
    ensures w + q == (w + [q[0]]) + q[1..]
  {
  }

  lemma WriteKeepsConserved(s: State, n: State, stamp: string)
    requires Conserved(s) && s.consumer != Wrote && s.queue != []
    requires n.consumer == Wrote && n.queue == s.queue && n.accepted == s.accepted
    requires n.journal == s.journal + [FromQueue(stamp, s.queue[0])]
    ensures Conserved(n)
  {
    RecordAdded(s, FromQueue(stamp, s.queue[0]));
    MoveFront(Written(s.journal), s.queue);
  }

  lemma ConsumerKeepsConserved(s: State, c: ConsumerStep)
    requires Conserved(s) && ConsumerEnabled(s, c)
    ensures Conserved(ConsumerDo(s, c))
  {
    var n := ConsumerDo(s, c);
    if c.WriteFront? {
      WriteKeepsConserved(s, n, c.stamp);
    } else if !c.Pop? {
      SameData(s, n);
    }
  }

  lemma ConsumerKeepsWakeup(s: State, c: ConsumerStep)
    requires NoLostWakeup(s) && ConsumerEnabled(s, c)
    ensures NoLostWakeup(ConsumerDo(s, c))
  {
  }

  lemma ConsumerKeepsTexts(s: State, c: ConsumerStep)
    requires Entries(s) && ConsumerEnabled(s, c)
    ensures Entries(ConsumerDo(s, c))
  {
  }

  // ---- The file ----

  predicate RecordNulFree(r: Record) {
    match r
    case FromQueue(stamp, entry) => NulFree(stamp) && NulFree(entry)
    case Direct(stamp, message) => NulFree(stamp) && NulFree(message)
  }

  lemma Terminated(s: string)
    requires NulFree(s)
    ensures Text(s + "\n")
  {
    var t := s + "\n";
    assert t[|t| - 1] == '\n';
  }

  lemma LineIsText(r: Record)
    requires RecordNulFree(r)
    ensures Text(Line(r))
  {
    match r
    case FromQueue(stamp, entry) =>
      assert NulFree(stamp + "  " + entry);
      Terminated(stamp + "  " + entry);
    case Direct(stamp, message) =>
      assert NulFree(stamp + "  " + message);
      Terminated(stamp + "  " + message);
  }

  lemma RecordKept(s: State, r: Record)
    requires FileIsSuffix(s) && RecordNulFree(r)
    ensures FileIsSuffix(AddRecord(s, r))
  {
    assert LookAt(s.file);
    RecordAdded(s, r);
    LineIsText(r);
    AppendedText(s.file, Render(s.journal), Line(r));
    assert LookAt(s.file + Line(r));
  }

  lemma CheckKeptFile(s: State, n: State)
    requires FileIsSuffix(s) && s.maxSize >= 0
    requires Some(n.file) == CheckedSize(s.file, s.maxSize) && n.journal == s.journal
    ensures FileIsSuffix(n)
  {
    assert LookAt(s.file) && LookAt(n.file);
    CheckedText(s.file, Render(s.journal), s.maxSize);
  }

  lemma ConsumerLeavesFile(s: State, c: ConsumerStep)
    requires ConsumerEnabled(s, c) && !c.WriteFront? && !c.CheckSize?
    ensures ConsumerDo(s, c).file == s.file && ConsumerDo(s, c).journal == s.journal
  {
  }

  lemma ConsumerKeepsFile(s: State, c: ConsumerStep)
    requires FileIsSuffix(s) && Entries(s) && ConsumerEnabled(s, c)
    ensures FileIsSuffix(ConsumerDo(s, c))
  {
    if c.WriteFront? {
      var n := AddRecord(s, FromQueue(c.stamp, s.queue[0]));
      RecordKept(s, FromQueue(c.stamp, s.queue[0]));
      SameFile(n, ConsumerDo(s, c));
    } else if c.CheckSize? {
      CheckKeptFile(s, ConsumerDo(s, c));
    } else {
      ConsumerLeavesFile(s, c);
      SameFile(s, ConsumerDo(s, c));
    }
  }

  lemma SameThreads(s: State, n: State)
    requires n.producers == s.producers && n.mutex == s.mutex && (n.ConsumerHolds() <==> s.ConsumerHolds())
    ensures Exclusive(s) ==> Exclusive(n)
    ensures SomeoneWillNotify(s) ==> SomeoneWillNotify(n)
  {
    assert forall u: ThreadId :: n.Pc(u) == s.Pc(u);
    if SomeoneWillNotify(s) {
      SomeoneStays(s, n);
    }
    if Exclusive(s) {
      forall u: ThreadId
        ensures n.ProducerHolds(u) <==> n.mutex == ByProducer(u)
      {
        assert s.ProducerHolds(u) <==> s.mutex == ByProducer(u);
      }
    }
  }

  /** No call from outside changes the entries, and a direct message is none. */
  lemma FileStepFrame(s: State, f: FileStep)
    requires FileEnabled(s, f)
    ensures var n := FileDo(s, f);
            n.queue == s.queue && n.accepted == s.accepted && n.consumer == s.consumer
            && n.journal == if f.AppendDirect? then s.journal + [Direct(f.stamp, f.message)] else s.journal
  {
  }

  lemma FileStepKeepsConserved(s: State, f: FileStep)
    requires Conserved(s) && FileEnabled(s, f)
    ensures Conserved(FileDo(s, f))
  {
    FileStepFrame(s, f);
    if f.AppendDirect? {
      RecordAdded(s, Direct(f.stamp, f.message));
    }
    SameData(s, FileDo(s, f));
  }

  lemma FileStepKeepsTexts(s: State, f: FileStep)
    requires Entries(s) && FileEnabled(s, f)
    ensures Entries(FileDo(s, f))
  {
  }

  lemma FileStepKeepsThreads(s: State, f: FileStep)
    requires Exclusive(s) && NoLostWakeup(s) && FileEnabled(s, f)
    ensures Exclusive(FileDo(s, f)) && NoLostWakeup(FileDo(s, f))
  {
    SameThreads(s, FileDo(s, f));
  }

  lemma FileStepKeepsFile(s: State, f: FileStep)
    requires FileIsSuffix(s) && Entries(s) && FileEnabled(s, f)
    ensures FileIsSuffix(FileDo(s, f))
  {
    if f.AppendDirect? {
      RecordKept(s, Direct(f.stamp, f.message));
    } else if f.CheckSizeDirect? {
      CheckKeptFile(s, FileDo(s, f));
    } else {
      SameFile(s, FileDo(s, f));
    }
  }

  /** The destructor changes the flag and may wake the consumer, and nothing else. */
  lemma DestructorFrame(s: State, d: DestructorStep)
    requires DestructorEnabled(s, d)
    ensures var n := DestructorDo(s, d);
            && n.queue == s.queue && n.accepted == s.accepted && n.journal == s.journal && n.file == s.file
            && n.lineBuffer == s.lineBuffer && n.maxSize == s.maxSize
            && (n.consumer == Wrote <==> s.consumer == Wrote)
  {
  }

  lemma DestructorKeepsEntries(s: State, d: DestructorStep)
    requires Conserved(s) && Entries(s) && FileIsSuffix(s) && DestructorEnabled(s, d)
    ensures var n := DestructorDo(s, d); Conserved(n) && Entries(n) && FileIsSuffix(n)
  {
    var n := DestructorDo(s, d);
    DestructorFrame(s, d);
    SameData(s, n);
    SameTexts(s, n);
    SameFile(s, n);
  }

  // ---- Every run ----

  lemma LogKeepsInv(s: State, t: ThreadId, l: LogStep)
    requires Inv(s) && LogEnabled(s, t, l)
    ensures Inv(LogDo(s, t, l))
  {
    LogKeepsExclusive(s, t, l);
    LogKeepsEntries(s, t, l);
    SameFile(s, LogDo(s, t, l));
  }

  lemma ConsumerKeepsInv(s: State, c: ConsumerStep)
    requires Inv(s) && ConsumerEnabled(s, c)
    ensures Inv(ConsumerDo(s, c))
  {
    ConsumerKeepsExclusive(s, c);
    ConsumerKeepsConserved(s, c);
    ConsumerKeepsWakeup(s, c);
    ConsumerKeepsTexts(s, c);
    ConsumerKeepsFile(s, c);
  }

  lemma DestructorKeepsInv(s: State, d: DestructorStep)
    requires Inv(s) && DestructorEnabled(s, d)
    ensures Inv(DestructorDo(s, d))
  {
    SameThreads(s, DestructorDo(s, d));
    DestructorKeepsEntries(s, d);
  }

  lemma FileStepKeepsInv(s: State, f: FileStep)
    requires Inv(s) && FileEnabled(s, f)
    ensures Inv(FileDo(s, f))
  {
    FileStepKeepsThreads(s, f);
    FileStepKeepsConserved(s, f);
    FileStepKeepsTexts(s, f);
    FileStepKeepsFile(s, f);
  }

  /** Every step of every thread keeps the whole invariant. */
  lemma InvKept(s: State, e: Step)
    requires Inv(s) && Enabled(s, e)
    ensures Inv(Do(s, e))
  {
    match e
    case InLog(t, l) => LogKeepsInv(s, t, l);
    case InConsumer(c) => ConsumerKeepsInv(s, c);
    case InDestructor(d) => DestructorKeepsInv(s, d);
    case OnFile(f) => FileStepKeepsInv(s, f);
  }

  lemma {:induction false} InvOnRun(s: State, steps: seq<Step>)
    requires Inv(s) && Run(s, steps).Some?
    ensures Inv(Run(s, steps).value)
    decreases |steps|
  {
    if steps != [] {
      InvKept(s, steps[0]);
      InvOnRun(Do(s, steps[0]), steps[1..]);
    }
  }

  lemma Reachable(steps: seq<Step>)
    requires Run(Initial, steps).Some?
    ensures Inv(Run(Initial, steps).value)
  {
    assert forall t: ThreadId :: Initial.Pc(t) == Idle;
    assert LookAt(Initial.file);
    InvOnRun(Initial, steps);
  }

  /** In every reachable state: written entries, then unwritten ones, are the accepted entries in lock order. */
  lemma EntriesConserved(steps: seq<Step>)
    requires Run(Initial, steps).Some?
    ensures var s := Run(Initial, steps).value;
            && s.accepted == Written(s.journal) + Unwritten(s)
            && (s.consumer == Done ==> Unwritten(s) == s.queue)
  {
    Reachable(steps);
  }

  /** No entry is stranded: while the consumer waits beside a non-empty queue, a notify_one is still to come. */
  lemma NoEntryStranded(steps: seq<Step>)
    requires Run(Initial, steps).Some?
    ensures var s := Run(Initial, steps).value;
            s.consumer == Waiting && s.queue != [] ==>
              exists t: ThreadId :: s.WillNotify(t) && (s.mutex == NoOne ==> s.Pc(t) == Unlocked)
  {
    Reachable(steps);
    var s := Run(Initial, steps).value;
    if s.consumer == Waiting && s.queue != [] {
      var t: ThreadId :| s.WillNotify(t);
      assert s.ProducerHolds(t) <==> s.mutex == ByProducer(t);
    }
  }

  /** The file is always the last lines of all that was written, and a size check leaves it short. */
  lemma FileHoldsLastLines(steps: seq<Step>)
    requires Run(Initial, steps).Some?
    ensures var s := Run(Initial, steps).value;
            Text(s.file) && LineSuffix(s.file, Render(s.journal)) && SizeCheckWorks(s)
  {
    Reachable(steps);
    assert LookAt(Run(Initial, steps).value.file);
    SizeCheckOfInv(Run(Initial, steps).value);
  }

  /** checkSize does not crash, and leaves at most max(1.2 * maxSize, 2046) bytes. */
  predicate SizeCheckWorks(s: State) {
    var r := CheckedSize(s.file, s.maxSize);
    r.Some? && (|r.value| as real <= 1.2 * s.maxSize as real || |r.value| <= 2046)
  }

  lemma SizeCheckOfInv(s: State)
    requires FileIsSuffix(s) && Entries(s)
    ensures SizeCheckWorks(s)
  {
    assert LookAt(s.file);
    CheckedText(s.file, Render(s.journal), s.maxSize);
  }

  /** At most one thread is between lock and unlock. */
  lemma MutualExclusion(steps: seq<Step>, t: ThreadId, u: ThreadId)
    requires Run(Initial, steps).Some?
    ensures var s := Run(Initial, steps).value;
            s.ProducerHolds(t) ==> !s.ConsumerHolds() && (s.ProducerHolds(u) ==> t == u)
  {
    Reachable(steps);
    var s := Run(Initial, steps).value;
    assert s.ProducerHolds(t) <==> s.mutex == ByProducer(t);
    assert s.ProducerHolds(u) <==> s.mutex == ByProducer(u);
  }

  // ---- Shutdown ----

  /** The consumer neither waits nor is about to, and the flag keeps it so. */
  predicate Awake(s: State) { s.Exit() && s.consumer != HoldWait && s.consumer != Waiting }

  lemma {:induction false} AwakeOnRun(s: State, steps: seq<Step>)
    requires Awake(s) && Run(s, steps).Some?
    ensures Awake(Run(s, steps).value)
    decreases |steps|
  {
    if steps != [] {
      assert Awake(Do(s, steps[0]));
      AwakeOnRun(Do(s, steps[0]), steps[1..]);
    }
  }

  predicate CanWaitAfter(s: State, steps: seq<Step>) {
    Run(s, steps).Some? && Run(s, steps).value.consumer == Waiting
  }

  /**
   The flag is set and notify_all called without the mutex, so the notification can be lost. That happens
   exactly when notify_all runs while the consumer is between its test and its wait.
   */
  lemma ShutdownCanBeMissedIff(s: State)
    requires s.shutdown == FlagSet
    ensures var n := Do(s, InDestructor(NotifyAll));
            (exists steps :: CanWaitAfter(n, steps)) <==> s.consumer == HoldWait
  {
    var n := Do(s, InDestructor(NotifyAll));
    if s.consumer == HoldWait {
      var w := Do(n, InConsumer(Wait));
      assert Run(w, []) == Some(w);
      var steps := [InConsumer(Wait)];
      assert steps[1..] == [];
      assert CanWaitAfter(n, steps);
    } else {
      forall steps | Run(n, steps).Some?
        ensures !CanWaitAfter(n, steps)
      {
        AwakeOnRun(n, steps);
      }
    }
  }

  predicate Missed(s: State) { s.consumer == Waiting && s.shutdown == Notified }

  lemma MissedInLog(s: State, t: ThreadId, l: LogStep)
    requires Missed(s) && LogEnabled(s, t, l) && l != NotifyOne
    ensures Missed(LogDo(s, t, l))
  {
  }

  lemma MissedInConsumer(s: State, c: ConsumerStep)
    requires Missed(s) && ConsumerEnabled(s, c)
    ensures c == SpuriousWake
  {
  }

  /** A consumer that missed the notification stays blocked, and join with it, until a spurious or a late log wake-up. */
  lemma MissedShutdownBlocks(s: State, e: Step)
    requires Missed(s) && Enabled(s, e)
    requires e != InConsumer(SpuriousWake) && !(e.InLog? && e.l == NotifyOne)
    ensures Missed(Do(s, e))
  {
    match e
    case InLog(t, l) => MissedInLog(s, t, l);
    case InConsumer(c) => MissedInConsumer(s, c);
    case InDestructor(d) =>
    case OnFile(f) =>
  }

  predicate MissedAfter(s: State, steps: seq<Step>) {
    Run(s, steps).Some? && Missed(Run(s, steps).value)
  }

  lemma MissedBefore(s: State, e: Step, steps: seq<Step>)
    requires Enabled(s, e) && MissedAfter(Do(s, e), steps)
    ensures MissedAfter(s, [e] + steps)
  {
    assert ([e] + steps)[1..] == steps;
  }

  /** Such a state is reachable: the destructor runs between the test and the wait. */
  lemma MissedShutdownExample()
    ensures exists steps :: MissedAfter(Initial, steps)
  {
    var s1 := Initial.(consumer := HoldCheck, mutex := ByConsumer);
    var s2 := s1.(consumer := HoldWait);
    var s3 := s2.(shutdown := FlagSet);
    var s4 := s3.(shutdown := Notified);
    var s5 := s4.(consumer := Waiting, mutex := NoOne);
    assert MissedAfter(s5, []);
    MissedVia(s4, InConsumer(Wait), s5, []);
    var r4 := [InConsumer(Wait)] + [];
    MissedVia(s3, InDestructor(NotifyAll), s4, r4);
    var r3 := [InDestructor(NotifyAll)] + r4;
    MissedVia(s2, InDestructor(SetExit), s3, r3);
    var r2 := [InDestructor(SetExit)] + r3;
    MissedVia(s1, InConsumer(Check), s2, r2);
    MissedVia(Initial, InConsumer(LockTop), s1, [InConsumer(Check)] + r2);
  }

  lemma MissedVia(s: State, e: Step, n: State, steps: seq<Step>)
    requires Enabled(s, e) && n == Do(s, e) && MissedAfter(n, steps)
    ensures MissedAfter(s, [e] + steps)
  {
    MissedBefore(s, e, steps);
  }
}
