/** The two real-time threads: Src/thread/pruThread.cpp, Src/thread/timer.cpp. The base
    thread runs inside its timer interrupt; the servo thread's interrupt only sets a flag
    that the main loop polls. */
module Scheduler {

  // ----- One thread, a statement at a time -----

  // Where a call of run() stands.
  datatype Pc =
    | Outside
    | Test                 // if(!execute) return
    | Spin                 // while (semaphore == true);
    | Enter                // semaphore = true
    | Modules(next: nat)   // the loop over vThread
    | Posts(next: nat)     // the loop over vThreadPost
    | ClearExecute
    | ClearSemaphore

  // A call that run() makes, by the number of the module.
  datatype Call = RunModule(id: nat) | RunModulePost(id: nat)

  // What happens to the flag `execute`: the timer sets it, the end of a run clears it.
  datatype Mark = Ticked | Finished

  // `calls` and `marks` are histories.
  datatype Thread = Thread(
    vThread: seq<nat>, vThreadPost: seq<nat>, hasThreadPost: bool,
    execute: bool, semaphore: bool, pc: Pc,
    calls: seq<Call>, marks: seq<Mark>)

  function Tick(t: Thread): (r: Thread) {
    t.(execute := true, marks := t.marks + [Ticked])
  }

  function Step(t: Thread): (r: Thread) {
    match t.pc
    case Outside => t
    case Test => t.(pc := if t.execute then Spin else Outside)
    case Spin => if t.semaphore then t else t.(pc := Enter)
    case Enter => t.(semaphore := true, pc := Modules(0))
    case Modules(i) =>
      if i < |t.vThread| then t.(calls := t.calls + [RunModule(t.vThread[i])], pc := Modules(i + 1))
      else t.(pc := if t.hasThreadPost then Posts(0) else ClearExecute)
    case Posts(i) =>
      if i < |t.vThreadPost| then t.(calls := t.calls + [RunModulePost(t.vThreadPost[i])], pc := Posts(i + 1))
      else t.(pc := ClearExecute)
    case ClearExecute => t.(execute := false, marks := t.marks + [Finished], pc := ClearSemaphore)
    case ClearSemaphore => t.(semaphore := false, pc := Outside)
  }

  // ----- What one run is for -----

  // Every registered module once, in order of registration, the post modules last.
  function Schedule(t: Thread): (r: seq<Call>) {
    seq(|t.vThread|, i requires 0 <= i < |t.vThread| => RunModule(t.vThread[i]))
    + seq(|t.vThreadPost|, i requires 0 <= i < |t.vThreadPost| => RunModulePost(t.vThreadPost[i]))
  }

  // The schedule does not depend on where the thread stands.
  lemma SameSchedule(t: Thread, u: Thread)
    requires t.vThread == u.vThread && t.vThreadPost == u.vThreadPost
    ensures Schedule(t) == Schedule(u)
    ensures |Schedule(t)| == |t.vThread| + |t.vThreadPost|
  {
  }

  function Repeat(n: nat, s: seq<Call>): (r: seq<Call>) {
    if n == 0 then [] else Repeat(n - 1, s) + s
  }

  function CountMarks(marks: seq<Mark>, mark: Mark): (r: nat) {
    if marks == [] then 0
    else CountMarks(marks[..|marks| - 1], mark) + (if marks[|marks| - 1] == mark then 1 else 0)
  }

  predicate Requested(marks: seq<Mark>) {
    marks != [] && marks[|marks| - 1] == Ticked
  }

  // A tick is dropped when it finds the request of an earlier tick still standing.
  function Dropped(marks: seq<Mark>): (r: nat) {
    if marks == [] then 0
    else
      var front := marks[..|marks| - 1];
      Dropped(front) + (if Requested(marks) && Requested(front) then 1 else 0)
  }

  // No run without a tick of its own: each run ends on a request made since the last end.
  predicate RunsAreRequested(marks: seq<Mark>) {
    forall i | 0 <= i < |marks| && marks[i] == Finished :: i > 0 && marks[i - 1] == Ticked
  }

  // How much of the schedule the run in progress has called.
  function Progress(t: Thread): (r: nat) {
    match t.pc
    case Modules(i) => i
    case Posts(i) => |t.vThread| + i
    case ClearExecute => |t.vThread| + |t.vThreadPost|
    case _ => 0
  }

  // ----- The invariant of one thread -----

  // `hasThreadPost` is not set by the constructor; all that matters is that registering a
  // post module sets it.
  predicate Registered(t: Thread) {
    t.vThreadPost != [] ==> t.hasThreadPost
  }

  ghost predicate Inv(t: Thread) {
    && Registered(t)
    && t.execute == Requested(t.marks)
    && RunsAreRequested(t.marks)
    && (t.semaphore <==> t.pc.Modules? || t.pc.Posts? || t.pc.ClearExecute? || t.pc.ClearSemaphore?)
    && (t.pc.Spin? || t.pc.Enter? || t.pc.Modules? || t.pc.Posts? || t.pc.ClearExecute? ==> t.execute)
    && (t.pc.Modules? ==> t.pc.next <= |t.vThread|)
    && (t.pc.Posts? ==> t.pc.next <= |t.vThreadPost|)
    && t.calls == Repeat(CountMarks(t.marks, Finished), Schedule(t)) + Schedule(t)[..Progress(t)]
  }

  lemma CountAppend(marks: seq<Mark>, last: Mark, mark: Mark)
    ensures CountMarks(marks + [last], mark) == CountMarks(marks, mark) + (if last == mark then 1 else 0)
    ensures Dropped(marks + [last]) == Dropped(marks) + (if last == Ticked && Requested(marks) then 1 else 0)
    ensures Requested(marks + [last]) <==> last == Ticked
  {
    assert (marks + [last])[..|marks|] == marks;
  }

  lemma TickKeepsInv(t: Thread)
    requires Inv(t)
    ensures Inv(Tick(t))
  {
    hide Schedule, Repeat, CountMarks, Dropped;
    CountAppend(t.marks, Ticked, Finished);
    SameSchedule(t, Tick(t));
  }

  predicate Calling(t: Thread) {
    (t.pc.Modules? && t.pc.next < |t.vThread|) || (t.pc.Posts? && t.pc.next < |t.vThreadPost|)
  }

  lemma CallKeepsInv(t: Thread)
    requires Inv(t)
    requires Calling(t)
    ensures Inv(Step(t))
  {
    hide Repeat, CountMarks, RunsAreRequested;
    var s, k := Schedule(t), Progress(t);
    assert Schedule(Step(t)) == s;
    assert s[..k + 1] == s[..k] + [s[k]];
    var done := Repeat(CountMarks(t.marks, Finished), s);
    assert (done + s[..k]) + [s[k]] == done + s[..k + 1];
  }

  lemma FinishKeepsInv(t: Thread)
    requires Inv(t) && t.pc.ClearExecute?
    ensures Inv(Step(t))
  {
    var s, n := Schedule(t), CountMarks(t.marks, Finished);
    CountAppend(t.marks, Finished, Finished);
    hide CountMarks, Dropped;
    assert Schedule(Step(t)) == s;
    assert s[..|s|] == s && s[..0] == [];
    assert Repeat(n + 1, s) == Repeat(n, s) + s;
    hide Repeat;
    assert Repeat(n + 1, s) + [] == Repeat(n + 1, s);
  }

  lemma StepKeepsInv(t: Thread)
    requires Inv(t)
    ensures Inv(Step(t))
  {
    if Calling(t) {
      CallKeepsInv(t);
    } else if t.pc.ClearExecute? {
      FinishKeepsInv(t);
    } else {
      hide Repeat, CountMarks, RunsAreRequested;
      assert Schedule(Step(t)) == Schedule(t);
    }
  }

  // Every tick is a run that ended, the request now standing, or dropped.
  lemma {:induction false} TicksAccounted(marks: seq<Mark>)
    requires RunsAreRequested(marks)
    ensures CountMarks(marks, Ticked)
            == CountMarks(marks, Finished) + Dropped(marks) + (if Requested(marks) then 1 else 0)
  {
    if marks != [] {
      var front := marks[..|marks| - 1];
      TicksAccounted(front);
      assert marks == front + [marks[|marks| - 1]];
      assert Requested(marks) || Requested(front);
    }
  }

  // ----- Two threads and two timers -----

  datatype Machine = Machine(base: Thread, servo: Thread)

  datatype Event =
    | BaseTick      // the base timer's interrupt: timerTick calls run() itself
    | ServoTick     // the servo timer's interrupt: timerTick only sets execute
    | Poll          // the main loop calls servoThread->run()
    | BaseStep      // the base interrupt's next statement
    | ServoStep     // the main context's next statement

  // The base interrupt has the highest priority: nothing else moves until it returns.
  predicate Enabled(m: Machine, e: Event) {
    match e
    case BaseStep => !m.base.pc.Outside?
    case BaseTick => m.base.pc.Outside?
    case ServoTick => m.base.pc.Outside?
    case Poll => m.base.pc.Outside? && m.servo.pc.Outside?
    case ServoStep => m.base.pc.Outside? && !m.servo.pc.Outside?
  }

  function Next(m: Machine, e: Event): (r: Machine) {
    match e
    case BaseTick => m.(base := Tick(m.base).(pc := Test))
    case ServoTick => m.(servo := Tick(m.servo))
    case Poll => m.(servo := m.servo.(pc := Test))
    case BaseStep => m.(base := Step(m.base))
    case ServoStep => m.(servo := Step(m.servo))
  }

  function Run(m: Machine, events: seq<Event>): (r: Machine)
    decreases events
  {
    if events == [] then m else Run(Next(m, events[0]), events[1..])
  }

  predicate Legal(m: Machine, events: seq<Event>)
    decreases events
  {
    events == [] || (Enabled(m, events[0]) && Legal(Next(m, events[0]), events[1..]))
  }

  // A thread as registration leaves it; `hasThreadPost` may hold anything if there is no post module.
  predicate Fresh(t: Thread) {
    Registered(t) && !t.execute && !t.semaphore && t.pc.Outside? && t.calls == [] && t.marks == []
  }

  ghost predicate MachineInv(m: Machine) {
    && Inv(m.base) && Inv(m.servo)
    && Dropped(m.base.marks) == 0
    && (m.base.pc.Outside? || m.base.pc.ClearSemaphore? <==> !m.base.execute)
  }

  lemma NextKeepsInv(m: Machine, e: Event)
    requires MachineInv(m) && Enabled(m, e)
    ensures MachineInv(Next(m, e))
  {
    hide Repeat, CountMarks, Dropped, RunsAreRequested, Schedule;
    match e
    case BaseTick =>
      TickKeepsInv(m.base);
      CountAppend(m.base.marks, Ticked, Ticked);
      PcOnly(Tick(m.base), Test);
    case ServoTick =>
      TickKeepsInv(m.servo);
    case Poll =>
      PcOnly(m.servo, Test);
    case BaseStep =>
      StepKeepsInv(m.base);
      CountAppend(m.base.marks, Finished, Finished);
    case ServoStep =>
      StepKeepsInv(m.servo);
  }

  lemma PcOnly(t: Thread, pc: Pc)
    requires Inv(t) && t.pc.Outside? && pc == Test
    ensures Inv(t.(pc := pc))
  {
    assert Schedule(t.(pc := pc)) == Schedule(t);
  }

  lemma {:induction false} RunKeepsInv(m: Machine, events: seq<Event>)
    requires MachineInv(m) && Legal(m, events)
    ensures MachineInv(Run(m, events))
    decreases events
  {
    if events != [] {
      NextKeepsInv(m, events[0]);
      RunKeepsInv(Next(m, events[0]), events[1..]);
    }
  }

  function CountEvents(events: seq<Event>, e: Event): (r: nat) {
    if events == [] then 0 else (if events[0] == e then 1 else 0) + CountEvents(events[1..], e)
  }

  function Ticks(t: Thread): (r: nat) {
    CountMarks(t.marks, Ticked)
  }

  lemma ThreadTicks(t: Thread)
    ensures Ticks(Tick(t)) == Ticks(t) + 1 && Schedule(Tick(t)) == Schedule(t)
    ensures Ticks(Step(t)) == Ticks(t) && Schedule(Step(t)) == Schedule(t)
  {
    hide Schedule, CountMarks;
    SameSchedule(t, Tick(t));
    SameSchedule(t, Step(t));
    CountAppend(t.marks, Ticked, Ticked);
    if t.pc.ClearExecute? {
      CountAppend(t.marks, Finished, Ticked);
    }
  }

  lemma NextTicks(m: Machine, e: Event)
    ensures var n := Next(m, e);
            && Ticks(n.base) == Ticks(m.base) + CountEvents([e], BaseTick)
            && Ticks(n.servo) == Ticks(m.servo) + CountEvents([e], ServoTick)
            && Schedule(n.base) == Schedule(m.base) && Schedule(n.servo) == Schedule(m.servo)
  {
    hide CountMarks, Step;
    ThreadTicks(m.base);
    ThreadTicks(m.servo);
    assert Schedule(Next(m, e).base) == Schedule(m.base) && Schedule(Next(m, e).servo) == Schedule(m.servo);
  }

  lemma {:induction false} TicksAreMarks(m: Machine, events: seq<Event>)
    ensures var r := Run(m, events);
            && Ticks(r.base) == Ticks(m.base) + CountEvents(events, BaseTick)
            && Ticks(r.servo) == Ticks(m.servo) + CountEvents(events, ServoTick)
            && Schedule(r.base) == Schedule(m.base) && Schedule(r.servo) == Schedule(m.servo)
    decreases events
  {
    if events != [] {
      hide Ticks, Schedule, Next;
      NextTicks(m, events[0]);
      TicksAreMarks(Next(m, events[0]), events[1..]);
    }
  }

  // A servo tick is dropped exactly when it finds `execute` set.
  lemma TickDroppedExact(m: Machine)
    requires MachineInv(m) && Enabled(m, ServoTick)
    ensures Dropped(Next(m, ServoTick).servo.marks) == Dropped(m.servo.marks) + (if m.servo.execute then 1 else 0)
  {
    CountAppend(m.servo.marks, Ticked, Ticked);
  }

  // The servo ticks of a run that come from the tick that requests a run up to the statement
  // that clears `execute`.
  function LateTicks(m: Machine, events: seq<Event>): (n: nat)
    decreases events
  {
    if events == [] then 0
    else (if events[0] == ServoTick && m.servo.execute then 1 else 0) + LateTicks(Next(m, events[0]), events[1..])
  }

  lemma OtherDropsNothing(m: Machine, e: Event)
    requires MachineInv(m) && Enabled(m, e) && e != ServoTick
    ensures Dropped(Next(m, e).servo.marks) == Dropped(m.servo.marks)
  {
    hide CountMarks, Repeat, RunsAreRequested;
    if e == ServoStep && m.servo.pc.ClearExecute? {
      CountAppend(m.servo.marks, Finished, Finished);
    }
  }

  lemma {:induction false} DroppedAreLate(m: Machine, events: seq<Event>)
    requires MachineInv(m) && Legal(m, events)
    ensures Dropped(Run(m, events).servo.marks) == Dropped(m.servo.marks) + LateTicks(m, events)
    decreases events
  {
    if events != [] {
      hide MachineInv, Dropped, Next, Enabled;
      NextKeepsInv(m, events[0]);
      if events[0] == ServoTick {
        TickDroppedExact(m);
      } else {
        OtherDropsNothing(m, events[0]);
      }
      DroppedAreLate(Next(m, events[0]), events[1..]);
    }
  }

  // It does happen: the second of two ticks before the main loop polls.
  lemma SecondTickIsDropped(m: Machine)
    requires Fresh(m.base) && Fresh(m.servo)
    ensures Legal(m, [ServoTick, ServoTick])
    ensures Dropped(Run(m, [ServoTick, ServoTick]).servo.marks) == 1
  {
    var events, n := [ServoTick, ServoTick], Next(m, ServoTick);
    assert events[1..] == [ServoTick] && [ServoTick][1..] == [];
    assert Legal(Next(n, ServoTick), []) && Legal(n, [ServoTick]);
    FreshInv(m.base);
    FreshInv(m.servo);
    DroppedAreLate(m, events);
    assert LateTicks(Next(n, ServoTick), []) == 0 && LateTicks(n, [ServoTick]) == 1;
  }

  // Over every interleaving: the spin on the semaphore never waits; outside the base
  // interrupt there has been exactly one complete base run a base tick; a servo tick is
  // served, pending, or dropped because an earlier one was still pending or being served,
  // and no run starts without a tick since the last; and each complete run has called every
  // module once, in order.
  lemma SchedulerOverRuns(m: Machine, events: seq<Event>)
    requires Fresh(m.base) && Fresh(m.servo) && Legal(m, events)
    ensures var r := Run(m, events);
            var baseRuns, servoRuns := CountMarks(r.base.marks, Finished), CountMarks(r.servo.marks, Finished);
            && (r.base.pc.Spin? ==> !r.base.semaphore)
            && (r.servo.pc.Spin? ==> !r.servo.semaphore)
            && (r.base.pc.Outside? ==> !r.base.semaphore && baseRuns == CountEvents(events, BaseTick))
            && servoRuns + LateTicks(m, events) + (if r.servo.execute then 1 else 0) == CountEvents(events, ServoTick)
            && RunsAreRequested(r.servo.marks)
            && (r.base.pc.Outside? ==> r.base.calls == Repeat(baseRuns, Schedule(m.base)))
            && (r.servo.pc.Outside? ==> r.servo.calls == Repeat(servoRuns, Schedule(m.servo)))
  {
    FreshInv(m.base);
    FreshInv(m.servo);
    RunKeepsInv(m, events);
    TicksAreMarks(m, events);
    DroppedAreLate(m, events);
    hide Run, Legal, Schedule, Repeat;
    var r := Run(m, events);
    TicksAccounted(r.base.marks);
    TicksAccounted(r.servo.marks);
    assert Schedule(r.base)[..0] == [] && Schedule(r.servo)[..0] == [];
  }

  lemma FreshInv(t: Thread)
    requires Fresh(t)
    ensures Inv(t) && CountMarks(t.marks, Ticked) == 0 && Dropped(t.marks) == 0
  {
    assert Repeat(0, Schedule(t)) + Schedule(t)[..0] == [];
  }

  // ----- A run as one operation -----

  function Steps(t: Thread, n: nat): (r: Thread)
    decreases n
  {
    if n == 0 then t else Steps(Step(t), n - 1)
  }

  // What a requested run leaves behind.
  function Ran(t: Thread): (r: Thread) {
    t.(pc := Outside, execute := false, calls := t.calls + Schedule(t), marks := t.marks + [Finished])
  }

  function RunLength(t: Thread): (r: nat) {
    3 + |t.vThread| + 1 + (if t.hasThreadPost then |t.vThreadPost| + 1 else 0) + 2
  }

  lemma {:induction false} StepsConcat(t: Thread, a: nat, b: nat)
    ensures Steps(t, a + b) == Steps(Steps(t, a), b)
    decreases a
  {
    if a > 0 {
      hide Step;
      StepsConcat(Step(t), a - 1, b);
    }
  }

  lemma {:induction false} ModuleSteps(t: Thread, i: nat)
    requires t.pc == Modules(i) && i <= |t.vThread|
    ensures Steps(t, |t.vThread| - i) == t.(pc := Modules(|t.vThread|), calls := t.calls + Schedule(t)[i..|t.vThread|])
    decreases |t.vThread| - i
  {
    var v, s := |t.vThread|, Schedule(t);
    if i == v {
      assert t.calls + s[v..v] == t.calls;
    } else {
      ModuleSteps(Step(t), i + 1);
      assert s[i..v] == [s[i]] + s[i + 1..v];
      assert (t.calls + [s[i]]) + s[i + 1..v] == t.calls + s[i..v];
    }
  }

  lemma {:induction false} PostSteps(t: Thread, i: nat)
    requires t.pc == Posts(i) && i <= |t.vThreadPost|
    ensures Steps(t, |t.vThreadPost| - i)
            == t.(pc := Posts(|t.vThreadPost|), calls := t.calls + Schedule(t)[|t.vThread| + i..])
    decreases |t.vThreadPost| - i
  {
    var v, s := |t.vThread|, Schedule(t);
    if i == |t.vThreadPost| {
      assert t.calls + s[v + i..] == t.calls;
    } else {
      PostSteps(Step(t), i + 1);
      assert s[v + i..] == [s[v + i]] + s[v + i + 1..];
      assert (t.calls + [s[v + i]]) + s[v + i + 1..] == t.calls + s[v + i..];
    }
  }

  lemma PrologueSteps(t: Thread)
    requires t.pc.Test? && t.execute && !t.semaphore
    ensures Steps(t, 3) == t.(semaphore := true, pc := Modules(0))
  {
    var spin, enter := t.(pc := Spin), t.(pc := Enter);
    assert Step(t) == spin && Step(spin) == enter;
    assert Steps(t, 3) == Steps(spin, 2) == Steps(enter, 1) == Step(enter);
  }

  lemma EpilogueSteps(t: Thread)
    requires t.pc.ClearExecute?
    ensures Steps(t, 2) == t.(execute := false, semaphore := false, marks := t.marks + [Finished], pc := Outside)
  {
    assert Steps(t, 2) == Steps(Step(t), 1);
  }

  // From the end of the first loop to the end of the second.
  lemma MiddleSteps(t: Thread)
    requires t.pc == Modules(|t.vThread|) && Registered(t)
    ensures Steps(t, 1 + if t.hasThreadPost then |t.vThreadPost| + 1 else 0)
            == t.(pc := ClearExecute, calls := t.calls + Schedule(t)[|t.vThread|..])
  {
    hide Schedule;
    SameSchedule(t, t);
    var v := |t.vThread|;
    if t.hasThreadPost {
      var u := t.(pc := Posts(0));
      SameSchedule(t, u);
      PostSteps(u, 0);
      StepsConcat(u, |t.vThreadPost|, 1);
      assert Step(t) == u;
      var w := u.(pc := Posts(|t.vThreadPost|), calls := t.calls + Schedule(t)[v..]);
      assert Steps(w, 1) == Step(w);
    } else {
      assert t.calls + Schedule(t)[v..] == t.calls;
      assert Steps(t, 1) == Step(t);
    }
  }

  // The statements of one requested run, uninterrupted, have the effect of Ran: so the base
  // interrupt, which nothing can interrupt, is one operation.
  lemma RequestedRun(t: Thread)
    requires Inv(t) && t.pc.Test? && t.execute
    ensures Steps(t, RunLength(t)) == Ran(t)
  {
    hide Steps, Step, Schedule, Repeat, CountMarks, RunsAreRequested;
    var u := t.(semaphore := true, pc := Modules(0));
    PrologueSteps(t);
    StepsConcat(t, 3, RunLength(t) - 3);
    BodySteps(u);
    SameSchedule(t, u);
  }

  lemma BodySteps(t: Thread)
    requires t.pc == Modules(0) && Registered(t)
    ensures Steps(t, RunLength(t) - 3) == Ran(t).(semaphore := false)
  {
    hide Steps, Step, Schedule;
    var v, s := |t.vThread|, Schedule(t);
    SameSchedule(t, t);
    ModuleSteps(t, 0);
    var w := t.(pc := Modules(v), calls := t.calls + s[0..v]);
    SameSchedule(t, w);
    StepsConcat(t, v, RunLength(t) - 3 - v);
    TailSteps(w);
    Rejoin(t.calls, s, v);
  }

  lemma Rejoin(x: seq<Call>, s: seq<Call>, v: nat)
    requires v <= |s|
    ensures (x + s[0..v]) + s[v..] == x + s
  {
    assert s[0..v] + s[v..] == s;
    assert (x + s[0..v]) + s[v..] == x + (s[0..v] + s[v..]);
  }

  lemma TailSteps(t: Thread)
    requires t.pc == Modules(|t.vThread|) && Registered(t)
    ensures |Schedule(t)| >= |t.vThread|
    ensures Steps(t, RunLength(t) - 3 - |t.vThread|)
            == t.(pc := Outside, execute := false, semaphore := false,
                  calls := t.calls + Schedule(t)[|t.vThread|..], marks := t.marks + [Finished])
  {
    hide Steps, Step, Schedule;
    SameSchedule(t, t);
    MiddleSteps(t);
    var middle := 1 + if t.hasThreadPost then |t.vThreadPost| + 1 else 0;
    StepsConcat(t, middle, 2);
    EpilogueSteps(t.(pc := ClearExecute, calls := t.calls + Schedule(t)[|t.vThread|..]));
  }

  // ----- How often each module runs -----

  function CountCalls(calls: seq<Call>, c: Call): (r: nat) {
    if calls == [] then 0
    else CountCalls(calls[..|calls| - 1], c) + (if calls[|calls| - 1] == c then 1 else 0)
  }

  lemma {:induction false} CountCallsConcat(x: seq<Call>, y: seq<Call>, c: Call)
    ensures CountCalls(x + y, c) == CountCalls(x, c) + CountCalls(y, c)
    decreases y
  {
    if y == [] {
      assert x + y == x;
    } else {
      var front := y[..|y| - 1];
      CountCallsConcat(x, front, c);
      assert (x + y)[..|x + y| - 1] == x + front;
    }
  }

  lemma {:induction false} CountRepeated(n: nat, s: seq<Call>, c: Call)
    ensures CountCalls(Repeat(n, s), c) == n * CountCalls(s, c)
  {
    if n > 0 {
      CountRepeated(n - 1, s, c);
      CountCallsConcat(Repeat(n - 1, s), s, c);
      hide CountCalls;
      assert Repeat(n, s) == Repeat(n - 1, s) + s;
      var k := CountCalls(s, c);
      assert (n - 1) * k + k == n * k;
    }
  }

  // A module of the base thread has run once for each base tick and each registration.
  lemma CallsPerTick(m: Machine, events: seq<Event>, c: Call)
    requires Fresh(m.base) && Fresh(m.servo) && Legal(m, events)
    requires Run(m, events).base.pc.Outside?
    ensures CountCalls(Run(m, events).base.calls, c)
            == CountEvents(events, BaseTick) * CountCalls(Schedule(m.base), c)
  {
    hide Schedule, Run, Legal;
    SchedulerOverRuns(m, events);
    CountRepeated(CountEvents(events, BaseTick), Schedule(m.base), c);
  }

  // ----- The same code as methods -----

  class PruThread {
    var vThread: seq<nat>
    var vThreadPost: seq<nat>
    var hasThreadPost: bool
    var execute: bool
    var semaphore: bool
    ghost var calls: seq<Call>
    ghost var marks: seq<Mark>

    ghost function View(): (r: Thread)
      reads this
    {
      Thread(vThread, vThreadPost, hasThreadPost, execute, semaphore, Outside, calls, marks)
    }

    ghost predicate Valid()
      reads this
    {
      Inv(View())
    }

    // `garbage` is what hasThreadPost happens to hold: the constructor does not set it.
    constructor (garbage: bool)
      ensures Valid() && Fresh(View()) && vThread == vThreadPost == []
    {
      vThread, vThreadPost, hasThreadPost := [], [], garbage;
      execute, semaphore := false, false;
      calls, marks := [], [];
      new;
      FreshInv(View());
    }

    method RegisterModule(id: nat)
      requires Fresh(View())
      modifies `vThread
      ensures Valid() && Fresh(View()) && vThread == old(vThread) + [id]
    {
      vThread := vThread + [id];
      FreshInv(View());
    }

    method RegisterModulePost(id: nat)
      requires Fresh(View())
      modifies `vThreadPost, `hasThreadPost
      ensures Valid() && Fresh(View()) && vThreadPost == old(vThreadPost) + [id]
    {
      vThreadPost := vThreadPost + [id];
      hasThreadPost := true;
      FreshInv(View());
    }

    // The two loops of run().
    method RunModules(ghost t: Thread)
      requires t.vThread == vThread && t.vThreadPost == vThreadPost && calls == t.calls
      modifies `calls
      ensures calls == t.calls + Schedule(t)[..|vThread|]
    {
      hide Schedule;
      SameSchedule(t, t);
      var i := 0;
      while i < |vThread|
        invariant i <= |vThread| && calls == t.calls + Schedule(t)[..i]
      {
        CallAppended(t, i);
        calls := calls + [RunModule(vThread[i])];
        i := i + 1;
      }
    }

    method RunPosts(ghost t: Thread)
      requires t.vThread == vThread && t.vThreadPost == vThreadPost
      requires |Schedule(t)| >= |vThread| && calls == t.calls + Schedule(t)[..|vThread|]
      modifies `calls
      ensures calls == t.calls + Schedule(t)
    {
      hide Schedule;
      SameSchedule(t, t);
      var i := 0;
      while i < |vThreadPost|
        invariant i <= |vThreadPost| && calls == t.calls + Schedule(t)[..|vThread| + i]
      {
        CallAppended(t, |vThread| + i);
        calls := calls + [RunModulePost(vThreadPost[i])];
        i := i + 1;
      }
      assert Schedule(t)[..|Schedule(t)|] == Schedule(t);
    }

    method Run()
      requires Valid()
      modifies `execute, `semaphore, `calls, `marks
      ensures Valid()
      ensures View() == if old(execute) then Ran(old(View())) else old(View())
    {
      if !execute {
        return;
      }
      ghost var t := View();
      AtRest(t);
      hide Inv, Schedule;
      SameSchedule(t, t);
      assert !semaphore;  // so the spin falls through
      semaphore := true;
      RunModules(t);
      if hasThreadPost {
        RunPosts(t);
      }
      assert Schedule(t)[..|Schedule(t)|] == Schedule(t);
      execute := false;
      marks := marks + [Finished];
      semaphore := false;
      RanKeepsInv(t);
    }
  }

  lemma AtRest(t: Thread)
    requires Inv(t) && t.pc.Outside?
    ensures !t.semaphore && Registered(t)
  {
  }

  lemma CallAppended(t: Thread, i: nat)
    requires i < |t.vThread| + |t.vThreadPost|
    ensures i < |Schedule(t)|
    ensures t.calls + Schedule(t)[..i + 1] == (t.calls + Schedule(t)[..i]) + [CallAt(t, i)]
  {
    var s := Schedule(t);
    assert s[..i + 1] == s[..i] + [s[i]];
    assert t.calls + (s[..i] + [s[i]]) == (t.calls + s[..i]) + [s[i]];
  }

  function CallAt(t: Thread, i: nat): (r: Call)
    requires i < |t.vThread| + |t.vThreadPost|
  {
    if i < |t.vThread| then RunModule(t.vThread[i]) else RunModulePost(t.vThreadPost[i - |t.vThread|])
  }

  lemma RanKeepsInv(t: Thread)
    requires Inv(t) && t.pc.Outside? && t.execute
    ensures Inv(Ran(t))
  {
    var s, n := Schedule(t), CountMarks(t.marks, Finished);
    CountAppend(t.marks, Finished, Finished);
    hide CountMarks, Dropped;
    SameSchedule(t, Ran(t));
    assert Repeat(n + 1, s) == Repeat(n, s) + s;
    hide Repeat;
    assert Repeat(n, s) + s[..0] == Repeat(n, s);
    assert Repeat(n + 1, s) + s[..0] == Repeat(n + 1, s);
  }

  class PruTimer {
    const slice: nat
    const timerOwner: PruThread

    constructor (slice: nat, owner: PruThread)
      ensures this.slice == slice && timerOwner == owner
    {
      this.slice, timerOwner := slice, owner;
    }

    // The base timer, slice 0, runs its thread at once; the servo timer leaves a request.
    method TimerTick()
      requires timerOwner.Valid()
      modifies timerOwner`execute, timerOwner`semaphore, timerOwner`calls, timerOwner`marks
      ensures timerOwner.Valid()
      ensures timerOwner.View() ==
              if slice == 0 then Ran(Tick(old(timerOwner.View()))) else Tick(old(timerOwner.View()))
    {
      TickKeepsInv(timerOwner.View());
      timerOwner.execute := true;
      timerOwner.marks := timerOwner.marks + [Ticked];
      if slice == 0 {
        timerOwner.Run();
      }
    }
  }
}
