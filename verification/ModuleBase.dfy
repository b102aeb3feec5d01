/** The base class of the modules and its rate divider: Src/modules/module.cpp. */
module ModuleBase {
  import opened Scheduler

  const MAX_INT32: int := 0x7FFF_FFFF

  datatype Update = SlowUpdate | FastUpdate

  // How many calls apart the slow updates are.
  function Period(updateCount: int): (p: nat)
    ensures p >= 1
  {
    if updateCount > 1 then updateCount else 1
  }

  // The updates that the n-th call makes, and those of the first n calls: a slow update
  // leads every p-th call.
  function NthCall(n: nat, p: nat): (r: seq<Update>)
    requires p >= 1
  {
    if SlowDue(n, p) then [SlowUpdate, FastUpdate] else [FastUpdate]
  }

  predicate SlowDue(n: nat, p: nat)
    requires p >= 1
  {
    n % p == 0
  }

  function Updates(n: nat, p: nat): (r: seq<Update>)
    requires p >= 1
  {
    if n == 0 then [] else Updates(n - 1, p) + NthCall(n, p)
  }

  function Count(updates: seq<Update>, u: Update): (r: nat) {
    if updates == [] then 0
    else Count(updates[..|updates| - 1], u) + (if updates[|updates| - 1] == u then 1 else 0)
  }

  lemma CountNth(front: seq<Update>, n: nat, p: nat)
    requires p >= 1
    ensures Count(front + NthCall(n, p), FastUpdate) == Count(front, FastUpdate) + 1
    ensures Count(front + NthCall(n, p), SlowUpdate) == Count(front, SlowUpdate) + (if SlowDue(n, p) then 1 else 0)
  {
    assert (front + [FastUpdate])[..|front|] == front;
    var both := front + [SlowUpdate, FastUpdate];
    assert both[..|front| + 1] == front + [SlowUpdate];
    assert (front + [SlowUpdate])[..|front|] == front;
  }

  // The full periods in n calls.
  function Periods(n: nat, p: nat): (r: nat)
    requires p >= 1
  {
    n / p
  }

  lemma QuotientStep(n: nat, p: nat)
    requires n >= 1 && p >= 1
    ensures Periods(n, p) == Periods(n - 1, p) + (if SlowDue(n, p) then 1 else 0)
  {
    var q, r := (n - 1) / p, (n - 1) % p;
    assert n == q * p + r + 1;
    if r + 1 == p {
      assert n == (q + 1) * p;
      Quotient(n, p, q + 1, 0);
    } else {
      Quotient(n, p, q, r + 1);
    }
  }

  lemma Quotient(n: nat, p: nat, q: nat, r: nat)
    requires p >= 1 && r < p && n == q * p + r
    ensures n / p == q && n % p == r
  {
    var d := n / p - q;
    assert d * p == r - n % p;
    Scaled(d, 1, p);
    Scaled(-d, 1, p);
  }

  lemma Scaled(d: int, least: int, p: nat)
    ensures d >= least ==> d * p >= least * p
  {
    if d >= least {
      assert (d - least) * p >= 0;
    }
  }

  lemma NoCalls(p: nat)
    requires p >= 1
    ensures Count(Updates(0, p), FastUpdate) == Count(Updates(0, p), SlowUpdate) == 0 == Periods(0, p)
  {
    Quotient(0, p, 0, 0);
  }

  // After n calls: n updates, and a slow one for each full period.
  lemma {:induction false} UpdateCounts(n: nat, p: nat)
    requires p >= 1
    ensures Count(Updates(n, p), FastUpdate) == n
    ensures Count(Updates(n, p), SlowUpdate) == Periods(n, p)
  {
    hide Count, NthCall, Periods, SlowDue;
    if n == 0 {
      NoCalls(p);
    } else {
      UpdateCounts(n - 1, p);
      CountNth(Updates(n - 1, p), n, p);
      QuotientStep(n, p);
    }
  }

  // The last update of every call is a fast one, and a slow one stands right before it in
  // every p-th call and in no other.
  lemma SlowLeads(n: nat, p: nat)
    requires n >= 1 && p >= 1
    ensures var us := Updates(n, p);
            && us != [] && us[|us| - 1] == FastUpdate
            && (|us| >= 2 && us[|us| - 2] == SlowUpdate <==> n % p == 0)
  {
    if n >= 2 {
      var front := Updates(n - 1, p);
      assert front[|front| - 1] == FastUpdate by {
        assert front == Updates(n - 2, p) + NthCall(n - 1, p);
      }
    }
  }

  lemma QuotientRate(f: nat, s: nat)
    requires 1 <= s <= f
    ensures f / s >= 1 && f / (f / s) >= s
    ensures f / (f / s) == s <==> f % s < f / s
  {
    var q, r := f / s, f % s;
    assert f == q * s + r;
    assert q >= 1;
    if r < q {
      Quotient(f, q, s, r);
    } else {
      var k := f / q;
      assert f == k * q + f % q;
      assert (s + 1) * q == s * q + q;
      Scaled(s, k, q);
      Scaled(s + 1, k, q);
    }
  }

  function Quot(x: nat, y: nat): (q: nat)
    requires y >= 1
    ensures q <= x
    ensures y >= 2 ==> 2 * q <= x
  {
    var q := x / y;
    assert x == q * y + x % y;
    Scaled(y, 1, q);
    Scaled(y, 2, q);
    q
  }

  // C++ division truncates toward zero.
  function TruncatedQuotient(a: int, b: int): (r: int)
    requires b != 0
  {
    var q: int := Quot(if a < 0 then -a else a, if b < 0 then -b else b);
    if (a < 0) == (b < 0) then q else -q
  }

  // The quotient of C++: what is left over is smaller than the divisor and has the sign of
  // the dividend.
  lemma TruncationExact(a: int, b: int)
    requires b != 0
    ensures var r := a - TruncatedQuotient(a, b) * b;
            && Abs(r) < Abs(b)
            && (r != 0 ==> (r < 0 <==> a < 0))
  {
    var x: int, y: int := Abs(a), Abs(b);
    var q: int := Quot(x, y);
    QuotExact(x, y);
    hide Quot;
    Signs(q, y);
  }

  lemma Signs(q: int, y: int)
    ensures (-q) * (-y) == q * y && (-q) * y == -(q * y) && q * (-y) == -(q * y)
  {
  }

  function Abs(a: int): (r: nat) {
    if a < 0 then -a else a
  }

  lemma QuotExact(x: nat, y: nat)
    requires y >= 1
    ensures 0 <= x - Quot(x, y) * y < y
  {
    assert x == (x / y) * y + x % y;
  }

  // A module asked for s slow updates in f calls makes at least s of them, and exactly s if
  // and only if the remainder of f by s is less than the quotient.
  lemma SlowRate(f: nat, s: nat)
    requires 1 <= s <= f
    ensures var p := Period(TruncatedQuotient(f, s));
            && Count(Updates(f, p), SlowUpdate) >= s
            && (Count(Updates(f, p), SlowUpdate) == s <==> f % s < f / s)
  {
    var p := Period(TruncatedQuotient(f, s));
    QuotientRate(f, s);
    assert p == f / s;
    UpdateCounts(f, p);
    hide Updates, Count;
    assert Periods(f, p) == f / (f / s);
  }

  // Three slow updates in five calls cannot be had: there are five.
  lemma RateMissed()
    ensures Count(Updates(5, Period(TruncatedQuotient(5, 3))), SlowUpdate) == 5
  {
    UpdateCounts(5, Period(TruncatedQuotient(5, 3)));
  }

  class Module {
    var updateCount: int
    var counter: int
    // Histories: how often runModule has been called, and the virtual calls it has made.
    ghost var runs: nat
    ghost var updates: seq<Update>

    ghost predicate Valid()
      reads this
    {
      && updateCount <= MAX_INT32
      && counter == runs % Period(updateCount)
      && updates == Updates(runs, Period(updateCount))
    }

    constructor ()
      ensures Valid() && updateCount == 1 && runs == 0
    {
      counter, updateCount, runs, updates := 0, 1, 0, [];
    }

    // The quotient -2^31 / -1 and the divisor 0 have no value in C++.
    constructor Slow(threadFreq: int, slowUpdateFreq: int)
      requires -MAX_INT32 - 1 <= threadFreq <= MAX_INT32 && -MAX_INT32 - 1 <= slowUpdateFreq <= MAX_INT32
      requires slowUpdateFreq != 0
      requires !(threadFreq == -MAX_INT32 - 1 && slowUpdateFreq == -1)
      ensures Valid() && runs == 0
      ensures updateCount == TruncatedQuotient(threadFreq, slowUpdateFreq)
    {
      QuotientFits(threadFreq, slowUpdateFreq);
      hide TruncatedQuotient;
      Quotient(0, Period(TruncatedQuotient(threadFreq, slowUpdateFreq)), 0, 0);
      counter, updateCount, runs, updates := 0, TruncatedQuotient(threadFreq, slowUpdateFreq), 0, [];
    }

    // The counter never overflows: it stays below the period.
    method RunModule()
      requires Valid()
      modifies `counter, `runs, `updates
      ensures Valid() && runs == old(runs) + 1
      ensures updates == old(updates) + NthCall(runs, Period(updateCount))
    {
      NextRemainder(runs, Period(updateCount));
      counter := counter + 1;
      assert counter <= MAX_INT32;
      if counter >= updateCount {
        updates := updates + [SlowUpdate];
        counter := 0;
      }
      updates := updates + [FastUpdate];
      runs := runs + 1;
    }
  }

  lemma QuotientFits(a: int, b: int)
    requires -MAX_INT32 - 1 <= a <= MAX_INT32 && b != 0
    requires !(a == -MAX_INT32 - 1 && b == -1)
    ensures -MAX_INT32 - 1 <= TruncatedQuotient(a, b) <= MAX_INT32
  {
    hide Quot;
  }

  lemma NextRemainder(n: nat, p: nat)
    requires p >= 1
    ensures n % p < p
    ensures (n + 1) % p == if n % p + 1 == p then 0 else n % p + 1
  {
    var q := n / p;
    assert n + 1 == q * p + n % p + 1;
    if n % p + 1 == p {
      assert n + 1 == (q + 1) * p;
      Quotient(n + 1, p, q + 1, 0);
    } else {
      Quotient(n + 1, p, q, n % p + 1);
    }
  }

  // Interrupts and divider together: outside the base interrupt, a module registered with
  // the base thread has had one update for each base tick and registration, and a slow
  // update for each full period of those.
  lemma SlowUpdatesPerTick(m: Machine, events: seq<Event>, id: nat, updateCount: int)
    requires Fresh(m.base) && Fresh(m.servo) && Legal(m, events)
    requires Run(m, events).base.pc.Outside?
    ensures var runs := CountCalls(Run(m, events).base.calls, RunModule(id));
            var due := CountEvents(events, BaseTick) * CountCalls(Schedule(m.base), RunModule(id));
            && Count(Updates(runs, Period(updateCount)), FastUpdate) == due
            && Count(Updates(runs, Period(updateCount)), SlowUpdate) == Periods(due, Period(updateCount))
  {
    hide Run, Legal, Schedule, Updates, Count, CountCalls, Periods;
    CallsPerTick(m, events, RunModule(id));
    UpdateCounts(CountCalls(Run(m, events).base.calls, RunModule(id)), Period(updateCount));
  }
}
