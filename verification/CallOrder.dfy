/** The calls that the threads of module Scheduler make, one by one: Src/thread/pruThread.cpp. */
module CallOrder {
  import opened Scheduler

  // Every module once, in the order of registration, and then the post modules.
  ghost predicate IsRun(t: Thread, calls: seq<Call>) {
    var v := |t.vThread|;
    && |calls| == v + |t.vThreadPost|
    && (forall i | 0 <= i < v :: calls[i] == RunModule(t.vThread[i]))
    && (forall i | 0 <= i < |t.vThreadPost| :: calls[v + i] == RunModulePost(t.vThreadPost[i]))
  }

  // The calls are those of n runs, one after the other.
  ghost predicate InOrder(t: Thread, calls: seq<Call>, n: nat)
    decreases n
  {
    var start := |calls| - |t.vThread| - |t.vThreadPost|;
    if n == 0 then calls == []
    else start >= 0 && IsRun(t, calls[start..]) && InOrder(t, calls[..start], n - 1)
  }

  lemma ScheduleIsRun(t: Thread)
    ensures IsRun(t, Schedule(t))
  {
  }

  lemma OneRunMore(t: Thread, before: seq<Call>, run: seq<Call>, n: nat)
    requires InOrder(t, before, n) && IsRun(t, run)
    ensures InOrder(t, before + run, n + 1)
  {
    assert |run| == |t.vThread| + |t.vThreadPost|;
    hide IsRun;
    assert (before + run)[..|before|] == before && (before + run)[|before|..] == run;
  }

  lemma NoRuns(t: Thread)
    ensures InOrder(t, [], 0)
  {
  }

  lemma {:induction false} RepeatIsInOrder(t: Thread, s: seq<Call>, n: nat)
    requires IsRun(t, s)
    ensures InOrder(t, Repeat(n, s), n)
    decreases n
  {
    hide IsRun, InOrder;
    if n == 0 {
      NoRuns(t);
    } else {
      RepeatIsInOrder(t, s, n - 1);
      OneRunMore(t, Repeat(n - 1, s), s, n - 1);
    }
  }

  // Call by call: whenever a thread is not running, its calls are those of its complete runs,
  // of which the base thread has had one a base tick.
  lemma CallsInOrder(m: Machine, events: seq<Event>)
    requires Fresh(m.base) && Fresh(m.servo) && Legal(m, events)
    ensures var r := Run(m, events);
            && (r.base.pc.Outside? ==> InOrder(m.base, r.base.calls, CountEvents(events, BaseTick)))
            && (r.servo.pc.Outside? ==> InOrder(m.servo, r.servo.calls, CountMarks(r.servo.marks, Finished)))
  {
    SchedulerOverRuns(m, events);
    hide Run, Legal, Schedule, Repeat, CountMarks, InOrder;
    ScheduleIsRun(m.base);
    ScheduleIsRun(m.servo);
    hide IsRun;
    RepeatIsInOrder(m.base, Schedule(m.base), CountEvents(events, BaseTick));
    RepeatIsInOrder(m.servo, Schedule(m.servo), CountMarks(Run(m, events).servo.marks, Finished));
  }
}
