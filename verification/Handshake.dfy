/**
 Two threads that take turns through two semaphores. Neither loop ever increments its count, so both run
 on while count < g_count holds at the start: every run, of any length, is a list of steps.
 */
module Handshake {

  datatype Party = Thread | MainLoop

  /** Where a loop stands. A loop that is Waiting blocks while its semaphore is 0. */
  datatype Place = Waiting | Printing | Releasing | Sleeping

  const SEM1_MAX := 1
  const SEM2_MAX := 1

  datatype State = State(sem1: int, sem2: int, thread: Place, main: Place, output: seq<Party>, failedReleases: nat)

  const Init := State(1, 0, Waiting, Waiting, [], 0)

  /** One step of one loop; None where WaitForSingleObject blocks. */
  datatype Outcome = Blocked | Moved(next: State)

  function ThreadStep(s: State): Outcome {
    match s.thread
    case Waiting => if s.sem1 == 0 then Blocked else Moved(s.(sem1 := s.sem1 - 1, thread := Printing))
    case Printing => Moved(s.(output := s.output + [Thread], thread := Releasing))
    case Releasing =>
      // ReleaseSemaphore fails and changes nothing when the count would pass its maximum
      if s.sem2 + 1 > SEM2_MAX then Moved(s.(failedReleases := s.failedReleases + 1, thread := Sleeping))
      else Moved(s.(sem2 := s.sem2 + 1, thread := Sleeping))
    case Sleeping => Moved(s.(thread := Waiting))
  }

  function MainStep(s: State): Outcome {
    match s.main
    case Waiting => if s.sem2 == 0 then Blocked else Moved(s.(sem2 := s.sem2 - 1, main := Printing))
    case Printing => Moved(s.(output := s.output + [MainLoop], main := Releasing))
    case Releasing =>
      if s.sem1 + 1 > SEM1_MAX then Moved(s.(failedReleases := s.failedReleases + 1, main := Sleeping))
      else Moved(s.(sem1 := s.sem1 + 1, main := Sleeping))
    case Sleeping => Moved(s.(main := Waiting))
  }

  function Step(s: State, p: Party): Outcome {
    if p == Thread then ThreadStep(s) else MainStep(s)
  }

  /** A blocked party stays where it is. */
  function Next(s: State, p: Party): State {
    match Step(s, p)
    case Blocked => s
    case Moved(t) => t
  }

  function Exec(s: State, schedule: seq<Party>): State
    decreases |schedule|
  {
    if schedule == [] then s else Exec(Next(s, schedule[0]), schedule[1..])
  }

  function Run(schedule: seq<Party>): State {
    Exec(Init, schedule)
  }

  function Holds(p: Place): int {
    if p.Printing? || p.Releasing? then 1 else 0
  }

  function Tokens(s: State): int {
    s.sem1 + s.sem2 + Holds(s.thread) + Holds(s.main)
  }

  predicate Alternates(output: seq<Party>) {
    forall i :: 0 <= i < |output| ==> output[i] == if i % 2 == 0 then Thread else MainLoop
  }

  /** It is the thread's turn from sem1's token up to the print, the main loop's from then to its own print. */
  predicate ThreadsTurn(s: State) {
    s.sem1 == 1 || s.thread == Printing || s.main == Releasing
  }

  predicate Inv(s: State) {
    && s.sem1 >= 0 && s.sem2 >= 0
    && Tokens(s) == 1
    && s.failedReleases == 0
    && Alternates(s.output)
    && (ThreadsTurn(s) <==> |s.output| % 2 == 0)
  }

  lemma InvStep(s: State, p: Party)
    requires Inv(s)
    ensures Inv(Next(s, p))
  {
  }

  lemma {:induction false} InvExec(s: State, schedule: seq<Party>)
    requires Inv(s)
    ensures Inv(Exec(s, schedule))
    decreases |schedule|
  {
    if schedule != [] {
      InvStep(s, schedule[0]);
      InvExec(Next(s, schedule[0]), schedule[1..]);
    }
  }

  lemma Reachable(schedule: seq<Party>)
    ensures Inv(Run(schedule))
  {
    InvExec(Init, schedule);
  }

  /** One token in every reachable state: no release fails, and no two prints are ever open at once. */
  lemma {:induction false} OneToken(schedule: seq<Party>)
    ensures var s := Run(schedule);
            && Tokens(s) == 1
            && 0 <= s.sem1 <= SEM1_MAX && 0 <= s.sem2 <= SEM2_MAX
            && s.failedReleases == 0
            && (s.thread == Releasing ==> s.sem2 + 1 <= SEM2_MAX)
            && (s.main == Releasing ==> s.sem1 + 1 <= SEM1_MAX)
            && !(Holds(s.thread) == 1 && Holds(s.main) == 1)
  {
    Reachable(schedule);
  }

  lemma {:induction false} StrictAlternation(schedule: seq<Party>)
    ensures Alternates(Run(schedule).output)
  {
    Reachable(schedule);
  }

  /** Somebody can always move. */
  lemma {:induction false} NoDeadlock(schedule: seq<Party>)
    ensures exists p :: Step(Run(schedule), p).Moved?
  {
    Reachable(schedule);
    var s := Run(schedule);
    if ThreadStep(s) == Blocked {
      assert Step(s, MainLoop).Moved?;
    } else {
      assert Step(s, Thread).Moved?;
    }
  }

  // ---- Fair schedules keep printing ----

  /** Moves of the party whose turn it is until the next line: at most four. */
  function Distance(s: State): nat {
    if s.thread == Printing || s.main == Printing then 1
    else if s.thread == Releasing then 3 + ToWaiting(s.main)
    else if s.main == Releasing then 3 + ToWaiting(s.thread)
    else if s.sem1 == 1 then 2 + ToWaiting(s.thread)
    else 2 + ToWaiting(s.main)
  }

  function ToWaiting(p: Place): nat {
    if p == Sleeping then 1 else 0
  }

  /** The party whose move brings the next line closer. */
  function Useful(s: State): Party {
    if Holds(s.thread) == 1 || s.sem1 == 1 then Thread else MainLoop
  }

  function Advance(s: State): int {
    4 * |s.output| - Distance(s)
  }

  lemma AdvanceStep(s: State, p: Party)
    requires Inv(s)
    ensures Advance(Next(s, p)) >= Advance(s)
    ensures p == Useful(s) ==> Advance(Next(s, p)) > Advance(s)
    ensures p != Useful(s) ==> Useful(Next(s, p)) == Useful(s)
  {
  }

  lemma {:induction false} AdvanceExec(s: State, schedule: seq<Party>)
    requires Inv(s)
    ensures Advance(Exec(s, schedule)) >= Advance(s)
    ensures Useful(s) in schedule ==> Advance(Exec(s, schedule)) > Advance(s)
    decreases |schedule|
  {
    if schedule != [] {
      AdvanceStep(s, schedule[0]);
      InvStep(s, schedule[0]);
      AdvanceExec(Next(s, schedule[0]), schedule[1..]);
      if Useful(s) in schedule && schedule[0] != Useful(s) {
        assert Useful(s) in schedule[1..];
      }
    }
  }

  /** Rounds in which each party is scheduled at least once, in any order and any number of times. */
  function ExecRounds(s: State, rounds: seq<seq<Party>>): State
    decreases |rounds|
  {
    if rounds == [] then s else ExecRounds(Exec(s, rounds[0]), rounds[1..])
  }

  lemma {:induction false} AdvanceRounds(s: State, rounds: seq<seq<Party>>)
    requires Inv(s)
    requires forall r :: r in rounds ==> Thread in r && MainLoop in r
    ensures Advance(ExecRounds(s, rounds)) >= Advance(s) + |rounds|
    ensures Inv(ExecRounds(s, rounds))
    decreases |rounds|
  {
    if rounds != [] {
      assert rounds[0] in rounds;
      AdvanceExec(s, rounds[0]);
      InvExec(s, rounds[0]);
      AdvanceRounds(Exec(s, rounds[0]), rounds[1..]);
    }
  }

  /** However fairly or unfairly a run began, every four further fair rounds print at least one more line. */
  lemma {:induction false} FairRunsKeepPrinting(schedule: seq<Party>, rounds: seq<seq<Party>>)
    requires forall r :: r in rounds ==> Thread in r && MainLoop in r
    ensures |ExecRounds(Run(schedule), rounds).output| >= |Run(schedule).output| + |rounds| / 4
    ensures Alternates(ExecRounds(Run(schedule), rounds).output)
  {
    Reachable(schedule);
    AdvanceRounds(Run(schedule), rounds);
  }
}
