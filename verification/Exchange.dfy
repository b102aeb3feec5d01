/** The ping-pong exchange between the network callback, the main state machine and the
    base-thread interrupt: Src/remora.cpp. */
module Exchange {
  import opened LittleEndian
  import opened Wrappers

  const BUFFER_SIZE: nat := 64
  const PRU_DATA: nat := 0x64617461
  const PRU_READ: nat := 0x72656164
  const PRU_WRITE: nat := 0x77726974
  const PRU_ACKNOWLEDGE: nat := 0x61636b6e

  // rxData_t and txData_t: 64 bytes, the first four of them the header word.
  type Frame = f: seq<bv8> | |f| == BUFFER_SIZE witness seq(BUFFER_SIZE, _ => 0)

  function Header(f: Frame): (r: nat) {
    Value32(f[..4])
  }

  function WithHeader(f: Frame, code: nat): (r: Frame)
    ensures r[4..] == f[4..]
  {
    Bytes32(code) + f[4..]
  }

  function ZeroFrame(): (r: Frame) {
    seq(BUFFER_SIZE, _ => 0)
  }

  // ----- What the exchange is for: atomic requests -----

  // `command` is what the base thread obeys, `feedback` what it reports, `previous` the
  // report buffer that is not in use; `replies` are the datagrams sent, `requests` the
  // datagrams served.
  datatype Atomic = Atomic(
    command: Frame, feedback: Frame, previous: Frame,
    readCount: nat, writeCount: nat,
    requests: seq<Frame>, replies: seq<seq<bv8>>)

  datatype Op =
    | Request(payload: Frame)
    | Report(feedback: Frame)
    | Reset

  function Answer(a: Atomic, payload: Frame): (r: seq<bv8>) {
    if Header(payload) == PRU_READ then WithHeader(a.feedback, PRU_DATA)
    else if Header(payload) == PRU_WRITE then WithHeader(a.feedback, PRU_ACKNOWLEDGE)
    else []
  }

  function Apply(a: Atomic, op: Op): (r: Atomic) {
    match op
    case Report(f) => a.(feedback := f)
    case Reset => a.(command := ZeroFrame())
    case Request(p) =>
      var b := a.(requests := a.requests + [p], replies := a.replies + [Answer(a, p)]);
      if Header(p) == PRU_READ then
        b.(feedback := a.previous, previous := WithHeader(a.feedback, PRU_DATA), readCount := a.readCount + 1)
      else if Header(p) == PRU_WRITE then
        b.(command := p, feedback := a.previous, previous := WithHeader(a.feedback, PRU_ACKNOWLEDGE),
           writeCount := a.writeCount + 1)
      else b
  }

  function ApplyAll(a: Atomic, ops: seq<Op>): (r: Atomic)
    decreases ops
  {
    if ops == [] then a else ApplyAll(Apply(a, ops[0]), ops[1..])
  }

  const BOOT: Atomic := Atomic(ZeroFrame(), ZeroFrame(), ZeroFrame(), 0, 0, [], [])

  // ----- The machine: one statement at a time -----

  datatype State = ST_SETUP | ST_START | ST_IDLE | ST_RUNNING | ST_STOP | ST_RESET | ST_WDRESET

  // Where the main context stands. `rx` and `tx` are the buffer pointers that
  // udp_data_callback has latched, as indices.
  datatype Pc =
    | MainLoop
    | Copying(rx: nat, tx: nat, payload: Frame, done: nat)   // memcpy, byte by byte
    | Branching(rx: nat, tx: nat, payload: Frame)            // the header tests
    | SwappingTx(tx: nat, payload: Frame)                    // __disable_irq(); swapTxBuffers
    | SwappingRx(tx: nat, payload: Frame)                    // swapRxBuffers; __enable_irq()
    | SettingHeader(tx: nat, code: nat)
    | Taking(tx: nat, length: nat, taken: seq<bv8>)          // pbuf_take, byte by byte
    | Zeroing(left: nat, was: Frame)                         // the loop of ST_RESET

  datatype Machine = Machine(
    rxBuffers: seq<Frame>, txBuffers: seq<Frame>,
    currentRxBuffer: nat, currentTxBuffer: nat,
    state: State, threadsRunning: bool,
    pc: Pc, sent: seq<seq<bv8>>)

  datatype Event =
    | RunThreads(status: bool, feedback: Frame)   // one call outside ST_RESET's loop
    | Arrive(payload: Frame)                      // udp_data_callback is entered
    | Statement                                   // the main context's next statement
    | BaseTick(feedback: Frame)                   // the base-thread interrupt

  ghost predicate WellFormed(m: Machine) {
    |m.rxBuffers| == |m.txBuffers| == 2 && m.currentRxBuffer <= 1 && m.currentTxBuffer <= 1
  }

  predicate IrqDisabled(pc: Pc) {
    pc.SwappingRx?
  }

  predicate Enabled(m: Machine, e: Event) {
    match e
    case RunThreads(_, _) => m.pc.MainLoop?
    case Arrive(_) => m.pc.MainLoop?
    case Statement => !m.pc.MainLoop?
    case BaseTick(_) => m.threadsRunning && !IrqDisabled(m.pc)
  }

  function Overwrite(m: Machine, feedback: Frame): (r: Machine)
    requires WellFormed(m)
  {
    m.(txBuffers := m.txBuffers[m.currentTxBuffer := feedback])
  }

  function Start(m: Machine, payload: Frame): (r: Machine)
    requires WellFormed(m)
  {
    m.(pc := Copying(1 - m.currentRxBuffer, m.currentTxBuffer, payload, 0))
  }

  // One pass through the switch of runThreads; the servo thread's modules may rewrite
  // the current report.
  function RunState(m: Machine, status: bool, feedback: Frame): (r: Machine)
    requires WellFormed(m)
  {
    match m.state
    case ST_SETUP => m.(state := ST_START)
    case ST_START => m.(threadsRunning := true, state := ST_IDLE)
    case ST_IDLE => Overwrite(m, feedback).(state := if status then ST_RUNNING else ST_IDLE)
    case ST_RUNNING => Overwrite(m, feedback).(state := if status then ST_RUNNING else ST_RESET)
    case ST_STOP => Overwrite(m, feedback)
    case ST_RESET => m.(pc := Zeroing(BUFFER_SIZE, m.rxBuffers[m.currentRxBuffer]))
    case ST_WDRESET => m
  }

  // The same transitions as those of the method RunThreads below; ST_RESET is left by the loop
  // that it enters.
  lemma RunStateTable(m: Machine, status: bool, feedback: Frame)
    requires WellFormed(m)
    ensures RunState(m, status, feedback).state ==
            match m.state
            case ST_SETUP => ST_START
            case ST_START => ST_IDLE
            case ST_IDLE => (if status then ST_RUNNING else ST_IDLE)
            case ST_RUNNING => (if status then ST_RUNNING else ST_RESET)
            case ST_STOP => ST_STOP
            case ST_RESET => ST_RESET
            case ST_WDRESET => ST_WDRESET
    ensures RunState(m, status, feedback).threadsRunning == (m.threadsRunning || m.state == ST_START)
    ensures RunState(m, status, feedback).pc.Zeroing? <==> m.state == ST_RESET || m.pc.Zeroing?
  {
  }

  // The latched pointers are valid, and the copies stay inside the buffers.
  ghost predicate PcInRange(pc: Pc) {
    match pc
    case MainLoop => true
    case Copying(rx, tx, _, done) => rx <= 1 && tx <= 1 && done <= BUFFER_SIZE
    case Branching(rx, tx, _) => rx <= 1 && tx <= 1
    case SwappingTx(tx, _) => tx <= 1
    case SwappingRx(tx, _) => tx <= 1
    case SettingHeader(tx, _) => tx <= 1
    case Taking(tx, length, taken) => tx <= 1 && |taken| <= length <= BUFFER_SIZE
    case Zeroing(left, _) => left <= BUFFER_SIZE
  }

  function DoStatement(m: Machine): (r: Machine)
    requires WellFormed(m) && PcInRange(m.pc)
  {
    match m.pc
    case MainLoop => m
    case Copying(rx, tx, payload, done) =>
      if done < BUFFER_SIZE then
        m.(rxBuffers := m.rxBuffers[rx := m.rxBuffers[rx][done := payload[done]]],
           pc := Copying(rx, tx, payload, done + 1))
      else m.(pc := Branching(rx, tx, payload))
    case Branching(rx, tx, payload) =>
      if Header(m.rxBuffers[rx]) == PRU_READ || Header(m.rxBuffers[rx]) == PRU_WRITE
      then m.(pc := SwappingTx(tx, m.rxBuffers[rx]))
      else m.(pc := Taking(tx, 0, []))
    case SwappingTx(tx, request) =>
      var swapped := m.(currentTxBuffer := 1 - m.currentTxBuffer);
      if Header(request) == PRU_READ then swapped.(pc := SettingHeader(tx, PRU_DATA))
      else swapped.(pc := SwappingRx(tx, request))
    case SwappingRx(tx, request) =>
      m.(currentRxBuffer := 1 - m.currentRxBuffer, pc := SettingHeader(tx, PRU_ACKNOWLEDGE))
    case SettingHeader(tx, code) =>
      m.(txBuffers := m.txBuffers[tx := WithHeader(m.txBuffers[tx], code)], pc := Taking(tx, BUFFER_SIZE, []))
    case Taking(tx, length, taken) =>
      if |taken| < length then m.(pc := Taking(tx, length, taken + [m.txBuffers[tx][|taken|]]))
      else m.(pc := MainLoop, sent := m.sent + [taken])
    case Zeroing(left, was) =>
      if left > 0 then
        var rx := m.currentRxBuffer;
        m.(rxBuffers := m.rxBuffers[rx := m.rxBuffers[rx][left - 1 := 0]], pc := Zeroing(left - 1, was))
      else m.(pc := MainLoop, state := ST_IDLE)
  }

  function Next(m: Machine, e: Event): (r: Machine)
    requires WellFormed(m) && PcInRange(m.pc)
  {
    match e
    case RunThreads(status, feedback) => RunState(m, status, feedback)
    case Arrive(payload) => Start(m, payload)
    case Statement => DoStatement(m)
    case BaseTick(feedback) => Overwrite(m, feedback)
  }

  const POWER_ON: Machine :=
    Machine([ZeroFrame(), ZeroFrame()], [ZeroFrame(), ZeroFrame()], 0, 0, ST_SETUP, false, MainLoop, [])

  // ----- Refinement: where in its statements each request takes effect -----

  // The operation that event e completes, if any: a read at the swap of the TX buffers, a
  // write at the swap of the RX buffers, any other datagram at the header test, a reset
  // when the zeroing loop ends.
  function Effect(m: Machine, e: Event): (r: seq<Op>)
    requires WellFormed(m) && PcInRange(m.pc)
  {
    match e
    case BaseTick(f) => [Report(f)]
    case Arrive(_) => []
    case RunThreads(_, f) => if m.state in {ST_IDLE, ST_RUNNING, ST_STOP} then [Report(f)] else []
    case Statement =>
      match m.pc
      case Branching(rx, _, _) =>
        if Header(m.rxBuffers[rx]) == PRU_READ || Header(m.rxBuffers[rx]) == PRU_WRITE then []
        else [Request(m.rxBuffers[rx])]
      case SwappingTx(_, request) => if Header(request) == PRU_READ then [Request(request)] else []
      case SwappingRx(_, request) => [Request(request)]
      case Zeroing(left, _) => if left == 0 then [Reset] else []
      case _ => []
  }

  // The datagram that has arrived but not yet taken effect.
  function Pending(pc: Pc): (r: seq<Frame>) {
    match pc
    case Copying(_, _, payload, _) => [payload]
    case Branching(_, _, payload) => [payload]
    case SwappingTx(_, payload) => [payload]
    case SwappingRx(_, payload) => [payload]
    case _ => []
  }

  // Simulation: what the buffers mean, statement by statement.
  ghost predicate Sim(m: Machine, a: Atomic) {
    && WellFormed(m) && PcInRange(m.pc)
    && m.currentRxBuffer == a.writeCount % 2
    && var current, other := m.txBuffers[m.currentTxBuffer], m.txBuffers[1 - m.currentTxBuffer];
       match m.pc
       case MainLoop => Quiet(m, a)
       case Copying(rx, tx, payload, done) =>
         && Quiet(m, a) && rx == 1 - m.currentRxBuffer && tx == m.currentTxBuffer
         && m.rxBuffers[rx][..done] == payload[..done]
       case Branching(rx, tx, payload) =>
         Quiet(m, a) && rx == 1 - m.currentRxBuffer && tx == m.currentTxBuffer && m.rxBuffers[rx] == payload
       case SwappingTx(tx, payload) =>
         Quiet(m, a) && tx == m.currentTxBuffer && m.rxBuffers[1 - m.currentRxBuffer] == payload
         && (Header(payload) == PRU_READ || Header(payload) == PRU_WRITE)
       case SwappingRx(tx, payload) =>
         && tx == 1 - m.currentTxBuffer && m.rxBuffers[1 - m.currentRxBuffer] == payload
         && Header(payload) == PRU_WRITE
         && m.currentTxBuffer == (a.readCount + a.writeCount + 1) % 2
         && a.command == m.rxBuffers[m.currentRxBuffer]
         && a.feedback == other && a.previous == current && a.replies == m.sent
       case SettingHeader(tx, code) =>
         && tx == 1 - m.currentTxBuffer
         && m.currentTxBuffer == (a.readCount + a.writeCount) % 2
         && a.command == m.rxBuffers[m.currentRxBuffer]
         && a.feedback == current && a.previous == WithHeader(other, code)
         && a.replies == m.sent + [WithHeader(m.txBuffers[tx], code)]
       case Taking(tx, length, taken) =>
         && (if length == 0 then tx == m.currentTxBuffer && a.replies == m.sent + [[]]
             else length == BUFFER_SIZE && tx == 1 - m.currentTxBuffer && a.replies == m.sent + [m.txBuffers[tx]])
         && taken == m.txBuffers[tx][..|taken|]
         && m.currentTxBuffer == (a.readCount + a.writeCount) % 2
         && a.command == m.rxBuffers[m.currentRxBuffer] && a.feedback == current && a.previous == other
       case Zeroing(left, was) =>
         && m.state == ST_RESET
         && m.currentTxBuffer == (a.readCount + a.writeCount) % 2
         && a.command == was
         && m.rxBuffers[m.currentRxBuffer] == was[..left] + ZeroFrame()[left..]
         && a.feedback == current && a.previous == other && a.replies == m.sent
  }

  // Between requests the buffers are what their names say.
  ghost predicate Quiet(m: Machine, a: Atomic)
    requires WellFormed(m)
  {
    && m.currentTxBuffer == (a.readCount + a.writeCount) % 2
    && a.command == m.rxBuffers[m.currentRxBuffer]
    && a.feedback == m.txBuffers[m.currentTxBuffer]
    && a.previous == m.txBuffers[1 - m.currentTxBuffer]
    && a.replies == m.sent
  }

  lemma ApplyNone(a: Atomic)
    ensures ApplyAll(a, []) == a
  {
  }

  lemma ApplyOne(a: Atomic, op: Op)
    ensures ApplyAll(a, [op]) == Apply(a, op)
  {
    assert [op][1..] == [];
  }

  lemma TickKeepsSim(m: Machine, a: Atomic, f: Frame)
    requires Sim(m, a) && Enabled(m, BaseTick(f))
    ensures Sim(Next(m, BaseTick(f)), Apply(a, Report(f)))
  {
  }

  lemma RunThreadsKeepsSim(m: Machine, a: Atomic, status: bool, f: Frame)
    requires Sim(m, a) && Enabled(m, RunThreads(status, f))
    ensures Sim(Next(m, RunThreads(status, f)), ApplyAll(a, Effect(m, RunThreads(status, f))))
  {
    if m.state == ST_RESET {
      var c := m.rxBuffers[m.currentRxBuffer];
      assert c == c[..BUFFER_SIZE] + ZeroFrame()[BUFFER_SIZE..];
    }
  }

  lemma ArriveKeepsSim(m: Machine, a: Atomic, p: Frame)
    requires Sim(m, a) && Enabled(m, Arrive(p))
    ensures Sim(Next(m, Arrive(p)), a)
  {
  }

  lemma CopyKeepsSim(m: Machine, a: Atomic)
    requires Sim(m, a) && m.pc.Copying?
    ensures Sim(DoStatement(m), a)
  {
    var k := m.pc.done;
    if k < BUFFER_SIZE {
      var c := m.rxBuffers[m.pc.rx];
      assert c[k := m.pc.payload[k]][..k + 1] == c[..k] + [m.pc.payload[k]];
      assert m.pc.payload[..k + 1] == m.pc.payload[..k] + [m.pc.payload[k]];
    } else {
      assert m.rxBuffers[m.pc.rx][..k] == m.rxBuffers[m.pc.rx];
      assert m.pc.payload[..k] == m.pc.payload;
    }
  }

  lemma BranchKeepsSim(m: Machine, a: Atomic)
    requires Sim(m, a) && m.pc.Branching?
    ensures Sim(DoStatement(m), ApplyAll(a, Effect(m, Statement)))
  {
    assert m.txBuffers[m.pc.tx][..0] == [];
  }

  lemma SwapTxKeepsSim(m: Machine, a: Atomic)
    requires Sim(m, a) && m.pc.SwappingTx?
    ensures Sim(DoStatement(m), ApplyAll(a, Effect(m, Statement)))
  {
    hide Header, WithHeader, ApplyAll;
    ApplyNone(a);
    ApplyOne(a, Request(m.pc.payload));
  }

  lemma SwapRxKeepsSim(m: Machine, a: Atomic)
    requires Sim(m, a) && m.pc.SwappingRx?
    ensures Sim(DoStatement(m), ApplyAll(a, Effect(m, Statement)))
  {
    hide Header, WithHeader, ApplyAll;
    ApplyNone(a);
    ApplyOne(a, Request(m.pc.payload));
  }

  lemma HeaderKeepsSim(m: Machine, a: Atomic)
    requires Sim(m, a) && m.pc.SettingHeader?
    ensures Sim(DoStatement(m), a)
  {
    assert DoStatement(m).txBuffers[m.pc.tx][..0] == [];
  }

  lemma TakeKeepsSim(m: Machine, a: Atomic)
    requires Sim(m, a) && m.pc.Taking?
    ensures Sim(DoStatement(m), a)
  {
    var t := m.txBuffers[m.pc.tx];
    var k := |m.pc.taken|;
    if k < m.pc.length {
      assert t[..k + 1] == t[..k] + [t[k]];
    } else {
      assert k == BUFFER_SIZE ==> t[..k] == t;
    }
  }

  lemma ZeroKeepsSim(m: Machine, a: Atomic)
    requires Sim(m, a) && m.pc.Zeroing?
    ensures Sim(DoStatement(m), ApplyAll(a, Effect(m, Statement)))
  {
    var n, was := m.pc.left, m.pc.was;
    if n > 0 {
      var c := m.rxBuffers[m.currentRxBuffer];
      assert c[n - 1 := 0] == was[..n - 1] + ZeroFrame()[n - 1..];
    } else {
      assert was[..0] + ZeroFrame()[0..] == ZeroFrame();
    }
  }

  lemma StepKeepsSim(m: Machine, a: Atomic, e: Event)
    requires Sim(m, a) && Enabled(m, e)
    ensures Sim(Next(m, e), ApplyAll(a, Effect(m, e)))
  {
    hide Sim, DoStatement, Apply;
    match e
    case BaseTick(f) => TickKeepsSim(m, a, f);
    case Arrive(p) => ArriveKeepsSim(m, a, p);
    case RunThreads(status, f) => RunThreadsKeepsSim(m, a, status, f);
    case Statement =>
      match m.pc
      case Copying(_, _, _, _) => CopyKeepsSim(m, a);
      case Branching(_, _, _) => BranchKeepsSim(m, a);
      case SwappingTx(_, _) => SwapTxKeepsSim(m, a);
      case SwappingRx(_, _) => SwapRxKeepsSim(m, a);
      case SettingHeader(_, _) => HeaderKeepsSim(m, a);
      case Taking(_, _, _) => TakeKeepsSim(m, a);
      case Zeroing(_, _) => ZeroKeepsSim(m, a);
  }

  // ----- Runs -----

  ghost predicate Legal(m: Machine, events: seq<Event>)
    decreases events
  {
    WellFormed(m) && PcInRange(m.pc)
    && (events == [] || (Enabled(m, events[0]) && Legal(Next(m, events[0]), events[1..])))
  }

  ghost function Run(m: Machine, events: seq<Event>): (r: Machine)
    requires Legal(m, events)
    decreases events
  {
    if events == [] then m else Run(Next(m, events[0]), events[1..])
  }

  ghost function Effects(m: Machine, events: seq<Event>): (r: seq<Op>)
    requires Legal(m, events)
    decreases events
  {
    if events == [] then [] else Effect(m, events[0]) + Effects(Next(m, events[0]), events[1..])
  }

  function Arrival(e: Event): (r: seq<Frame>) {
    if e.Arrive? then [e.payload] else []
  }

  function Arrivals(events: seq<Event>): (r: seq<Frame>) {
    if events == [] then [] else Arrival(events[0]) + Arrivals(events[1..])
  }

  lemma {:induction false} ApplyConcat(a: Atomic, x: seq<Op>, y: seq<Op>)
    ensures ApplyAll(a, x + y) == ApplyAll(ApplyAll(a, x), y)
    decreases x
  {
    if x == [] {
      assert x + y == y;
    } else {
      hide Apply;
      assert (x + y)[1..] == x[1..] + y;
      ApplyConcat(Apply(a, x[0]), x[1..], y);
    }
  }

  // Every interleaving of statements, interrupts and datagrams has the same outcome as its
  // requests, reports and resets done atomically, one after the other.
  lemma {:induction false} RunRefines(m: Machine, a: Atomic, events: seq<Event>)
    requires Sim(m, a) && Legal(m, events)
    ensures Sim(Run(m, events), ApplyAll(a, Effects(m, events)))
    decreases events
  {
    if events != [] {
      hide Sim, Next, Effect, Enabled, WellFormed, PcInRange;
      var e, rest := events[0], events[1..];
      StepKeepsSim(m, a, e);
      RunRefines(Next(m, e), ApplyAll(a, Effect(m, e)), rest);
      ApplyConcat(a, Effect(m, e), Effects(Next(m, e), rest));
    }
  }

  lemma PowerOnSim()
    ensures Sim(POWER_ON, BOOT)
  {
  }

  // Nothing but an event's own condition can make it illegal.
  lemma EnabledIsLegal(events: seq<Event>, e: Event)
    requires Legal(POWER_ON, events) && Enabled(Run(POWER_ON, events), e)
    ensures Legal(Run(POWER_ON, events), [e])
  {
    PowerOnSim();
    RunRefines(POWER_ON, BOOT, events);
    StepKeepsSim(Run(POWER_ON, events), ApplyAll(BOOT, Effects(POWER_ON, events)), e);
    assert [e][1..] == [];
  }

  // ----- Requests take effect once each, in the order of their arrival -----

  function Requested(ops: seq<Op>): (r: seq<Frame>) {
    if ops == [] then []
    else (if ops[0].Request? then [ops[0].payload] else []) + Requested(ops[1..])
  }

  lemma {:induction false} RequestedConcat(x: seq<Op>, y: seq<Op>)
    ensures Requested(x + y) == Requested(x) + Requested(y)
  {
    if x == [] {
      assert x + y == y;
    } else {
      var z, first := x + y, if x[0].Request? then [x[0].payload] else [];
      assert z[0] == x[0] && z[1..] == x[1..] + y;
      RequestedConcat(x[1..], y);
      assert first + (Requested(x[1..]) + Requested(y)) == (first + Requested(x[1..])) + Requested(y);
    }
  }

  lemma RequestedOne(op: Op)
    ensures Requested([op]) == if op.Request? then [op.payload] else []
  {
    assert [op][1..] == [];
  }

  lemma RequestedNone()
    ensures Requested([]) == []
  {
  }

  lemma StatementServes(m: Machine)
    requires WellFormed(m) && PcInRange(m.pc) && !m.pc.MainLoop?
    requires m.pc.Branching? ==> m.rxBuffers[m.pc.rx] == m.pc.payload
    ensures Requested(Effect(m, Statement)) + Pending(DoStatement(m).pc) == Pending(m.pc)
  {
    hide Header, WithHeader, Requested;
    RequestedNone();
    RequestedOne(Reset);
    match m.pc
    case Branching(_, _, p) => RequestedOne(Request(p));
    case SwappingTx(_, p) => RequestedOne(Request(p));
    case SwappingRx(_, p) => RequestedOne(Request(p));
    case _ =>
  }

  lemma OtherServes(m: Machine, e: Event)
    requires WellFormed(m) && PcInRange(m.pc) && Enabled(m, e) && e != Statement
    ensures Requested(Effect(m, e)) + Pending(Next(m, e).pc) == Pending(m.pc) + Arrival(e)
  {
    hide Requested;
    RequestedNone();
    match e
    case RunThreads(_, f) => RequestedOne(Report(f));
    case BaseTick(f) => RequestedOne(Report(f));
    case Arrive(_) =>
  }

  lemma BranchHoldsPayload(m: Machine, a: Atomic)
    requires Sim(m, a)
    ensures WellFormed(m) && PcInRange(m.pc)
    ensures m.pc.Branching? ==> m.rxBuffers[m.pc.rx] == m.pc.payload
  {
  }

  // A datagram is pending from its arrival until it takes effect.
  lemma StepServes(m: Machine, a: Atomic, e: Event)
    requires Sim(m, a) && Enabled(m, e)
    ensures Requested(Effect(m, e)) + Pending(Next(m, e).pc) == Pending(m.pc) + Arrival(e)
  {
    BranchHoldsPayload(m, a);
    hide Requested, Effect, DoStatement, Sim, Pending;
    if e == Statement {
      StatementServes(m);
    } else {
      OtherServes(m, e);
    }
  }

  lemma Chain(a1: seq<Frame>, p1: seq<Frame>, p0: seq<Frame>, x: seq<Frame>,
              a2: seq<Frame>, p2: seq<Frame>, y: seq<Frame>)
    requires a1 + p1 == p0 + x && a2 + p2 == p1 + y
    ensures (a1 + a2) + p2 == p0 + (x + y)
  {
    assert (a1 + a2) + p2 == a1 + (a2 + p2);
    assert a1 + (p1 + y) == (a1 + p1) + y;
    assert (p0 + x) + y == p0 + (x + y);
  }

  lemma {:induction false} RunServes(m: Machine, a: Atomic, events: seq<Event>)
    requires Sim(m, a) && Legal(m, events)
    ensures Requested(Effects(m, events)) + Pending(Run(m, events).pc) == Pending(m.pc) + Arrivals(events)
    decreases events
  {
    if events == [] {
      assert [] + Pending(m.pc) == Pending(m.pc) + [];
    } else {
      hide Sim, Next, Effect, Enabled, WellFormed, PcInRange, Pending;
      var e, rest := events[0], events[1..];
      var n := Next(m, e);
      StepKeepsSim(m, a, e);
      StepServes(m, a, e);
      RunServes(n, ApplyAll(a, Effect(m, e)), rest);
      RequestedConcat(Effect(m, e), Effects(n, rest));
      hide Requested;
      Chain(Requested(Effect(m, e)), Pending(n.pc), Pending(m.pc), Arrival(e),
            Requested(Effects(n, rest)), Pending(Run(n, rest).pc), Arrivals(rest));
    }
  }

  // ----- What the base thread obeys -----

  // The payload of the last write, or zeros if start-up or a reset came after it.
  function LastCommand(ops: seq<Op>): (r: Frame) {
    if ops == [] then ZeroFrame()
    else
      var last := ops[|ops| - 1];
      if last.Reset? then ZeroFrame()
      else if last.Request? && Header(last.payload) == PRU_WRITE then last.payload
      else LastCommand(ops[..|ops| - 1])
  }

  function CountRequests(ops: seq<Op>, code: nat): (r: nat) {
    if ops == [] then 0
    else CountRequests(ops[..|ops| - 1], code)
         + (var last := ops[|ops| - 1]; if last.Request? && Header(last.payload) == code then 1 else 0)
  }

  lemma ApplyOutcome(a: Atomic, op: Op)
    ensures var b, code := Apply(a, op), if op.Request? then Header(op.payload) else 0;
            && b.command == (if op.Reset? then ZeroFrame() else if code == PRU_WRITE then op.payload else a.command)
            && b.readCount == a.readCount + (if code == PRU_READ then 1 else 0)
            && b.writeCount == a.writeCount + (if code == PRU_WRITE then 1 else 0)
            && b.requests == a.requests + (if op.Request? then [op.payload] else [])
  {
    hide Header, WithHeader, ZeroFrame;
  }

  lemma {:induction false} OutcomeOfOps(ops: seq<Op>)
    ensures var a := ApplyAll(BOOT, ops);
            && a.command == LastCommand(ops)
            && a.readCount == CountRequests(ops, PRU_READ)
            && a.writeCount == CountRequests(ops, PRU_WRITE)
            && a.requests == Requested(ops)
  {
    if ops != [] {
      var front, last := ops[..|ops| - 1], ops[|ops| - 1];
      OutcomeOfOps(front);
      assert ops == front + [last];
      ApplyConcat(BOOT, front, [last]);
      ApplyOne(ApplyAll(BOOT, front), last);
      ApplyOutcome(ApplyAll(BOOT, front), last);
      RequestedConcat(front, [last]);
      RequestedOne(last);
      hide ApplyAll, Apply, Header, Requested, ZeroFrame;
    }
  }

  // ----- What the host gets -----

  // A datagram that begins with the letters of "read" gets those of "data" and the rest of
  // the report, one that begins with those of "writ" gets "ackn" and the rest of the report,
  // each word with its last letter first; any other gets an empty reply.
  predicate Answers(reply: seq<bv8>, payload: Frame, report: Frame) {
    if payload[..4] == [0x64, 0x61, 0x65, 0x72] then
      |reply| == 64 && reply[..4] == [0x61, 0x74, 0x61, 0x64] && reply[4..] == report[4..]
    else if payload[..4] == [0x74, 0x69, 0x72, 0x77] then
      |reply| == 64 && reply[..4] == [0x6E, 0x6B, 0x63, 0x61] && reply[4..] == report[4..]
    else reply == []
  }

  lemma HeaderOfWithHeader(f: Frame, code: nat)
    requires code < 0x1_0000_0000
    ensures WithHeader(f, code)[..4] == Bytes32(code)
    ensures Header(WithHeader(f, code)) == code
  {
    hide Bytes32, Value32;
    Value32OfBytes32(code);
    assert WithHeader(f, code)[..4] == Bytes32(code);
  }

  lemma CodeBytes()
    ensures Bytes32(PRU_READ) == [0x64, 0x61, 0x65, 0x72]
    ensures Bytes32(PRU_WRITE) == [0x74, 0x69, 0x72, 0x77]
    ensures Bytes32(PRU_DATA) == [0x61, 0x74, 0x61, 0x64]
    ensures Bytes32(PRU_ACKNOWLEDGE) == [0x6E, 0x6B, 0x63, 0x61]
  {
    hide Bytes32;
    ReadBytes();
    WriteBytes();
    DataBytes();
    AcknowledgeBytes();
  }

  lemma ReadBytes()
    ensures Bytes32(PRU_READ) == [0x64, 0x61, 0x65, 0x72]
  {
    hide Bytes32;
    BytesOf(0x64, 0x61, 0x65, 0x72);
  }

  lemma WriteBytes()
    ensures Bytes32(PRU_WRITE) == [0x74, 0x69, 0x72, 0x77]
  {
    hide Bytes32;
    BytesOf(0x74, 0x69, 0x72, 0x77);
  }

  lemma DataBytes()
    ensures Bytes32(PRU_DATA) == [0x61, 0x74, 0x61, 0x64]
  {
    hide Bytes32;
    BytesOf(0x61, 0x74, 0x61, 0x64);
  }

  lemma AcknowledgeBytes()
    ensures Bytes32(PRU_ACKNOWLEDGE) == [0x6E, 0x6B, 0x63, 0x61]
  {
    hide Bytes32;
    BytesOf(0x6E, 0x6B, 0x63, 0x61);
  }

  lemma HeaderExact(f: Frame, code: nat)
    requires code < 0x1_0000_0000
    ensures Header(f) == code <==> f[..4] == Bytes32(code)
  {
    hide Bytes32, Value32;
    Value32OfBytes32(code);
    Bytes32OfValue32(f[..4]);
  }

  lemma AnswerAnswers(a: Atomic, payload: Frame)
    ensures Answers(Answer(a, payload), payload, a.feedback)
  {
    hide Bytes32, Header, WithHeader;
    CodeBytes();
    HeaderExact(payload, PRU_READ);
    HeaderExact(payload, PRU_WRITE);
    HeaderOfWithHeader(a.feedback, PRU_DATA);
    HeaderOfWithHeader(a.feedback, PRU_ACKNOWLEDGE);
  }

  // The report that stands when each request is served.
  function ReportsAt(a: Atomic, ops: seq<Op>): (reports: seq<Frame>)
    decreases ops
  {
    if ops == [] then []
    else (if ops[0].Request? then [a.feedback] else []) + ReportsAt(Apply(a, ops[0]), ops[1..])
  }

  // Reply by reply, the requests are answered with those reports.
  ghost predicate AllAnswered(replies: seq<seq<bv8>>, requests: seq<Frame>, reports: seq<Frame>) {
    && |replies| == |requests| == |reports|
    && forall k | 0 <= k < |replies| :: Answers(replies[k], requests[k], reports[k])
  }

  lemma {:induction false} RepliesAnswer(a: Atomic, ops: seq<Op>)
    ensures a.replies <= ApplyAll(a, ops).replies
    ensures AllAnswered(ApplyAll(a, ops).replies[|a.replies|..], Requested(ops), ReportsAt(a, ops))
    decreases ops
  {
    if ops != [] {
      var b := Apply(a, ops[0]);
      RepliesAnswer(b, ops[1..]);
      var final := ApplyAll(a, ops).replies;
      if ops[0].Request? {
        AnswerAnswers(a, ops[0].payload);
        hide Apply, ApplyAll, Answers, Requested, ReportsAt, Answer;
        assert b.replies == a.replies + [Answer(a, ops[0].payload)] by { RequestReplies(a, ops[0].payload); }
        OneMore(a.replies, Answer(a, ops[0].payload), final, ops[0].payload, Requested(ops[1..]),
                a.feedback, ReportsAt(b, ops[1..]));
        RequestedFirst(a, ops);
      } else {
        RequestedFirst(a, ops);
      }
    }
  }

  lemma RequestReplies(a: Atomic, p: Frame)
    ensures Apply(a, Request(p)).replies == a.replies + [Answer(a, p)]
  {
    hide Header, WithHeader, Answer;
  }

  lemma RequestedFirst(a: Atomic, ops: seq<Op>)
    requires ops != []
    ensures Requested(ops) == (if ops[0].Request? then [ops[0].payload] else []) + Requested(ops[1..])
    ensures ReportsAt(a, ops) == (if ops[0].Request? then [a.feedback] else []) + ReportsAt(Apply(a, ops[0]), ops[1..])
    ensures !ops[0].Request? ==> Apply(a, ops[0]).replies == a.replies
    ensures !ops[0].Request? ==> Requested(ops) == Requested(ops[1..])
    ensures !ops[0].Request? ==> ReportsAt(a, ops) == ReportsAt(Apply(a, ops[0]), ops[1..])
  {
    hide Header, WithHeader, Answer;
  }

  lemma OneMore(before: seq<seq<bv8>>, reply: seq<bv8>, final: seq<seq<bv8>>,
                request: Frame, requests: seq<Frame>, report: Frame, reports: seq<Frame>)
    requires before + [reply] <= final && Answers(reply, request, report)
    requires AllAnswered(final[|before| + 1..], requests, reports)
    ensures before <= final
    ensures AllAnswered(final[|before|..], [request] + requests, [report] + reports)
  {
    hide Answers;
    assert final[|before|] == reply;
    assert final[|before|..] == [reply] + final[|before| + 1..];
  }

  // The report made last, if no request has swapped the buffers since.
  function FreshReport(ops: seq<Op>): (r: Option<Frame>) {
    if ops == [] then None
    else
      var last := ops[|ops| - 1];
      if last.Report? then Some(last.feedback)
      else if last.Request? && (Header(last.payload) == PRU_READ || Header(last.payload) == PRU_WRITE) then None
      else FreshReport(ops[..|ops| - 1])
  }

  // A request served while such a report stands is answered with it.
  lemma {:induction false} FreshReportStands(ops: seq<Op>)
    requires FreshReport(ops).Some?
    ensures ApplyAll(BOOT, ops).feedback == FreshReport(ops).value
  {
    var front, last := ops[..|ops| - 1], ops[|ops| - 1];
    assert ops == front + [last];
    ApplyConcat(BOOT, front, [last]);
    ApplyOne(ApplyAll(BOOT, front), last);
    if !last.Report? {
      FreshReportStands(front);
    }
  }

  // What a base tick at this moment would read.
  function Observed(m: Machine): (r: Frame)
    requires WellFormed(m)
  {
    m.rxBuffers[m.currentRxBuffer]
  }

  // What it must be. Only while ST_RESET is zeroing the buffer in place can the interrupt see
  // a mixture: the old command up to `left`, zeros from there.
  function ShouldObserve(pc: Pc, command: Frame): (r: Frame)
    requires PcInRange(pc)
  {
    if pc.Zeroing? then command[..pc.left] + ZeroFrame()[pc.left..] else command
  }

  lemma SimObserves(m: Machine, a: Atomic)
    requires Sim(m, a)
    ensures Observed(m) == ShouldObserve(m.pc, a.command)
    ensures m.currentRxBuffer == a.writeCount % 2
    ensures !IrqDisabled(m.pc) ==> m.currentTxBuffer == (a.readCount + a.writeCount) % 2
    ensures m.pc.MainLoop? ==> m.sent == a.replies
    ensures m.sent <= a.replies
  {
  }

  // Over every run: the base thread obeys the last write in the order of arrival, or zeros
  // after start-up or a reset; wherever the interrupt may fire, the two buffer indices are
  // the parities of the writes and of the requests served, so it never pairs the new
  // command buffer with the old report buffer; every reply sent answers its datagram, in the
  // order of arrival, with the report that stood at its swap; and between callbacks every
  // datagram has been answered.
  lemma ExchangeOverRuns(events: seq<Event>)
    requires Legal(POWER_ON, events)
    ensures var m, ops := Run(POWER_ON, events), Effects(POWER_ON, events);
            && WellFormed(m) && PcInRange(m.pc)
            && Requested(ops) + Pending(m.pc) == Arrivals(events)
            && Observed(m) == ShouldObserve(m.pc, LastCommand(ops))
            && m.currentRxBuffer == CountRequests(ops, PRU_WRITE) % 2
            && (!IrqDisabled(m.pc) ==>
                  m.currentTxBuffer == (CountRequests(ops, PRU_READ) + CountRequests(ops, PRU_WRITE)) % 2)
            && (m.pc.MainLoop? ==> m.sent == ApplyAll(BOOT, ops).replies)
            && |m.sent| <= |Requested(ops)| == |ReportsAt(BOOT, ops)|
            && (m.pc.MainLoop? ==> |m.sent| == |Arrivals(events)|)
            && forall k | 0 <= k < |m.sent| :: Answers(m.sent[k], Requested(ops)[k], ReportsAt(BOOT, ops)[k])
  {
    PowerOnSim();
    hide Run, Effects, Legal, Sim;
    var m, ops := Run(POWER_ON, events), Effects(POWER_ON, events);
    RunRefines(POWER_ON, BOOT, events);
    RunServes(POWER_ON, BOOT, events);
    assert Pending(POWER_ON.pc) + Arrivals(events) == Arrivals(events);
    SimAfter(m, ops);
    RepliesAnswer(BOOT, ops);
    hide ApplyAll, Requested, ReportsAt, Answers, LastCommand, CountRequests;
    var replies := ApplyAll(BOOT, ops).replies;
    assert replies[0..] == replies;
  }

  lemma SimAfter(m: Machine, ops: seq<Op>)
    requires Sim(m, ApplyAll(BOOT, ops))
    ensures WellFormed(m) && PcInRange(m.pc)
    ensures Observed(m) == ShouldObserve(m.pc, LastCommand(ops))
    ensures m.currentRxBuffer == CountRequests(ops, PRU_WRITE) % 2
    ensures !IrqDisabled(m.pc) ==>
              m.currentTxBuffer == (CountRequests(ops, PRU_READ) + CountRequests(ops, PRU_WRITE)) % 2
    ensures m.pc.MainLoop? ==> m.sent == ApplyAll(BOOT, ops).replies
    ensures m.sent <= ApplyAll(BOOT, ops).replies
  {
    BranchHoldsPayload(m, ApplyAll(BOOT, ops));
    OutcomeOfOps(ops);
    hide Sim, ApplyAll, LastCommand, CountRequests, ShouldObserve;
    SimObserves(m, ApplyAll(BOOT, ops));
  }

  // The interrupt sees the last command unless it fires inside the zeroing loop after a
  // non-zero byte has been cleared.
  lemma WholeCommandExact(events: seq<Event>)
    requires Legal(POWER_ON, events)
    ensures var m, command := Run(POWER_ON, events), LastCommand(Effects(POWER_ON, events));
            && WellFormed(m) && PcInRange(m.pc)
            && (Observed(m) == command
                <==> (m.pc.Zeroing? ==> forall i | m.pc.left <= i < BUFFER_SIZE :: command[i] == 0))
  {
    ExchangeOverRuns(events);
    var m, command := Run(POWER_ON, events), LastCommand(Effects(POWER_ON, events));
    hide Run, Effects, Legal, LastCommand;
    if m.pc.Zeroing? {
      var left := m.pc.left;
      var mixed := command[..left] + ZeroFrame()[left..];
      assert forall i | left <= i < BUFFER_SIZE :: mixed[i] == 0;
      assert forall i | 0 <= i < left :: mixed[i] == command[i];
      if forall i | left <= i < BUFFER_SIZE :: command[i] == 0 {
        assert mixed == command;
      }
    }
  }

  // A command is all zeros or begins with the low byte of PRU_WRITE.
  lemma {:induction false} CommandKinds(ops: seq<Op>)
    ensures LastCommand(ops) == ZeroFrame() || LastCommand(ops)[0] != 0
  {
    if ops != [] {
      var last := ops[|ops| - 1];
      if last.Request? && Header(last.payload) == PRU_WRITE {
        WriteBeginsNonZero(last.payload);
      } else {
        CommandKinds(ops[..|ops| - 1]);
      }
    }
  }

  lemma WriteBeginsNonZero(f: Frame)
    requires Header(f) == PRU_WRITE
    ensures f[0] != 0
  {
    assert f[..4][0] == f[0];
    assert PRU_WRITE % 256 == 0x74;
  }

  // What the interrupt sees is one whole buffer, the last command or the zeros of a completed
  // reset, unless the zeroing loop has cleared a non-zero byte and has others still to clear.
  lemma WholeBufferExact(events: seq<Event>)
    requires Legal(POWER_ON, events)
    ensures var m, command := Run(POWER_ON, events), LastCommand(Effects(POWER_ON, events));
            && WellFormed(m) && PcInRange(m.pc)
            && (Observed(m) == command || Observed(m) == ZeroFrame()
                <==> (m.pc.Zeroing? && m.pc.left > 0 ==> forall i | m.pc.left <= i < BUFFER_SIZE :: command[i] == 0))
  {
    WholeCommandExact(events);
    ExchangeOverRuns(events);
    CommandKinds(Effects(POWER_ON, events));
    var m, command := Run(POWER_ON, events), LastCommand(Effects(POWER_ON, events));
    hide Run, Effects, Legal, LastCommand;
    if m.pc.Zeroing? {
      var left := m.pc.left;
      var mixed := command[..left] + ZeroFrame()[left..];
      if left == 0 {
        assert mixed == ZeroFrame();
      } else {
        assert mixed[0] == command[0];
      }
    }
  }

  // ----- A run in which the interrupt does see a mixture -----

  lemma {:induction false} LegalConcat(m: Machine, x: seq<Event>, y: seq<Event>)
    requires Legal(m, x) && Legal(Run(m, x), y)
    ensures Legal(m, x + y)
    ensures Run(m, x + y) == Run(Run(m, x), y)
    ensures Effects(m, x + y) == Effects(m, x) + Effects(Run(m, x), y)
    decreases x
  {
    if x == [] {
      assert x + y == y;
    } else {
      hide Enabled, Next, Effect, WellFormed, PcInRange;
      assert (x + y)[1..] == x[1..] + y;
      LegalConcat(Next(m, x[0]), x[1..], y);
      Regrouped(Effect(m, x[0]), Effects(Next(m, x[0]), x[1..]), Effects(Run(m, x), y));
    }
  }

  lemma Regrouped(x: seq<Op>, y: seq<Op>, z: seq<Op>)
    ensures x + (y + z) == (x + y) + z
  {
  }

  lemma OneEvent(m: Machine, a: Atomic, e: Event)
    requires Sim(m, a) && Enabled(m, e)
    ensures Legal(m, [e]) && Run(m, [e]) == Next(m, e) && Effects(m, [e]) == Effect(m, e)
    ensures Sim(Next(m, e), ApplyAll(a, Effect(m, e)))
  {
    BranchHoldsPayload(m, a);
    StepKeepsSim(m, a, e);
    BranchHoldsPayload(Next(m, e), ApplyAll(a, Effect(m, e)));
    hide Sim, Next, Effect, ApplyAll;
    assert [e][1..] == [];
    assert Legal(Next(m, e), []);
    assert Effect(m, e) + [] == Effect(m, e);
  }

  // The statements that udp_data_callback has at most left.
  function StatementsLeft(pc: Pc): (n: nat)
    requires PcInRange(pc)
  {
    match pc
    case Copying(_, _, _, done) => 70 + 2 * BUFFER_SIZE - done
    case Branching(_, _, _) => 69 + BUFFER_SIZE
    case SwappingTx(_, _) => 68 + BUFFER_SIZE
    case SwappingRx(_, _) => 67 + BUFFER_SIZE
    case SettingHeader(_, _) => 66 + BUFFER_SIZE
    case Taking(_, length, taken) => 1 + length - |taken|
    case _ => 0
  }

  lemma CallbackStep(m: Machine, a: Atomic)
    requires Sim(m, a) && !m.pc.MainLoop? && !m.pc.Zeroing?
    ensures PcInRange(m.pc) && PcInRange(DoStatement(m).pc)
    ensures StatementsLeft(DoStatement(m).pc) < StatementsLeft(m.pc)
    ensures DoStatement(m).state == m.state && DoStatement(m).threadsRunning == m.threadsRunning
    ensures !DoStatement(m).pc.Zeroing?
    ensures Effect(m, Statement) == []
         || (Pending(DoStatement(m).pc) == [] && exists p :: Effect(m, Statement) == [Request(p)])
  {
    hide Header, WithHeader;
  }

  function AsRequests(frames: seq<Frame>): (ops: seq<Op>) {
    seq(|frames|, i requires 0 <= i < |frames| => Request(frames[i]))
  }

  // The events take the machine back to the main loop, serving just the pending datagram.
  ghost predicate ReturnsBy(m: Machine, events: seq<Event>) {
    && Legal(m, events)
    && Effects(m, events) == AsRequests(Pending(m.pc))
    && var r := Run(m, events);
       r.pc.MainLoop? && r.state == m.state && r.threadsRunning == m.threadsRunning
  }

  lemma ServedOnce(effect: seq<Op>, later: seq<Frame>, now: seq<Frame>)
    requires effect == [] || (later == [] && exists p :: effect == [Request(p)])
    requires Requested(effect) + later == now
    ensures effect + AsRequests(later) == AsRequests(now)
  {
    if effect == [] {
      RequestedNone();
      assert [] + later == later;
    } else {
      var p :| effect == [Request(p)];
      RequestedOne(Request(p));
      assert now == [p];
    }
  }

  lemma ReturnsLater(m: Machine, a: Atomic, rest: seq<Event>)
    requires Sim(m, a) && !m.pc.MainLoop? && !m.pc.Zeroing?
    requires ReturnsBy(Next(m, Statement), rest)
    ensures ReturnsBy(m, [Statement] + rest)
  {
    CallbackStep(m, a);
    OneEvent(m, a, Statement);
    StepServes(m, a, Statement);
    assert Next(m, Statement) == DoStatement(m);
    hide Sim, DoStatement, Next, Effect, ApplyAll, Pending, AsRequests, Requested;
    LegalConcat(m, [Statement], rest);
    assert Arrival(Statement) == [];
    assert Pending(m.pc) + [] == Pending(m.pc);
    ServedOnce(Effect(m, Statement), Pending(DoStatement(m).pc), Pending(m.pc));
  }

  // Left alone, the callback returns, having served the pending datagram and nothing else.
  lemma {:induction false} CallbackReturns(m: Machine, a: Atomic, left: nat) returns (events: seq<Event>)
    requires Sim(m, a) && !m.pc.Zeroing? && PcInRange(m.pc) && StatementsLeft(m.pc) <= left
    ensures ReturnsBy(m, events)
    decreases left
  {
    BranchHoldsPayload(m, a);
    if m.pc.MainLoop? {
      events := [];
    } else {
      CallbackStep(m, a);
      OneEvent(m, a, Statement);
      assert Next(m, Statement) == DoStatement(m);
      hide Sim, DoStatement, Next, Effect, ApplyAll, Pending, StatementsLeft, ReturnsBy;
      var rest := CallbackReturns(Next(m, Statement), ApplyAll(a, Effect(m, Statement)), left - 1);
      ReturnsLater(m, a, rest);
      events := [Statement] + rest;
    }
  }

  // One more event at the end of a run.
  lemma RunMore(events: seq<Event>, e: Event)
    requires Legal(POWER_ON, events) && Enabled(Run(POWER_ON, events), e)
    ensures WellFormed(Run(POWER_ON, events)) && PcInRange(Run(POWER_ON, events).pc)
    ensures Legal(POWER_ON, events + [e])
    ensures Run(POWER_ON, events + [e]) == Next(Run(POWER_ON, events), e)
    ensures Effects(POWER_ON, events + [e]) == Effects(POWER_ON, events) + Effect(Run(POWER_ON, events), e)
  {
    PowerOnSim();
    RunRefines(POWER_ON, BOOT, events);
    BranchHoldsPayload(Run(POWER_ON, events), ApplyAll(BOOT, Effects(POWER_ON, events)));
    hide Sim, Next, Effect, Enabled, Legal, Run, Effects;
    OneEvent(Run(POWER_ON, events), ApplyAll(BOOT, Effects(POWER_ON, events)), e);
    LegalConcat(POWER_ON, events, [e]);
  }

  // A write with a non-zero last byte.
  function FullCommand(): (f: Frame)
    ensures f[32] == f[63] == 1
  {
    var ones: Frame := seq(BUFFER_SIZE, _ => 1);
    WithHeader(ones, PRU_WRITE)
  }

  // Start-up, and the arrival of that command.
  lemma StartUp() returns (events: seq<Event>)
    ensures Legal(POWER_ON, events)
    ensures var m := Run(POWER_ON, events);
            m.state == ST_IDLE && m.threadsRunning && PcInRange(m.pc) && m.pc.Copying? && m.pc.payload == FullCommand()
    ensures Effects(POWER_ON, events) == []
  {
    var z := ZeroFrame();
    hide FullCommand, ZeroFrame;
    assert Legal(POWER_ON, []);
    RunMore([], RunThreads(false, z));
    var one := [] + [RunThreads(false, z)];
    RunMore(one, RunThreads(false, z));
    var two := one + [RunThreads(false, z)];
    RunMore(two, Arrive(FullCommand()));
    events := two + [Arrive(FullCommand())];
  }

  // One more event that leaves the command alone.
  lemma CommandKept(events: seq<Event>, e: Event, f: Frame)
    requires Legal(POWER_ON, events) && Enabled(Run(POWER_ON, events), e)
    requires PcInRange(Run(POWER_ON, events).pc) && WellFormed(Run(POWER_ON, events))
    requires Effect(Run(POWER_ON, events), e) == [] || Effect(Run(POWER_ON, events), e) == [Report(f)]
    ensures Legal(POWER_ON, events + [e])
    ensures Run(POWER_ON, events + [e]) == Next(Run(POWER_ON, events), e)
    ensures LastCommand(Effects(POWER_ON, events + [e])) == LastCommand(Effects(POWER_ON, events))
  {
    hide Next, Run, Effects, Legal, LastCommand, Enabled;
    RunMore(events, e);
    var ops := Effects(POWER_ON, events);
    assert ops + [] == ops;
    ReportsKeepCommand(ops, f);
  }

  lemma ReportsKeepCommand(ops: seq<Op>, f: Frame)
    ensures LastCommand(ops + [Report(f)]) == LastCommand(ops)
  {
    assert (ops + [Report(f)])[..|ops|] == ops;
  }

  // Back in the main loop, the machine runs, is reset, and clears its first byte.
  lemma ResetBegins(events: seq<Event>) returns (more: seq<Event>)
    requires Legal(POWER_ON, events)
    requires var m := Run(POWER_ON, events); m.pc.MainLoop? && m.state == ST_IDLE && m.threadsRunning
    ensures Legal(POWER_ON, more)
    ensures var m := Run(POWER_ON, more);
            PcInRange(m.pc) && m.pc.Zeroing? && m.pc.left == 63 && m.threadsRunning
    ensures LastCommand(Effects(POWER_ON, more)) == LastCommand(Effects(POWER_ON, events))
  {
    var z := ZeroFrame();
    hide ZeroFrame, Run, Effects, Legal, LastCommand;
    RunMore(events, RunThreads(true, z));
    CommandKept(events, RunThreads(true, z), z);
    var one := events + [RunThreads(true, z)];
    CommandKept(one, RunThreads(false, z), z);
    var two := one + [RunThreads(false, z)];
    CommandKept(two, RunThreads(false, z), z);
    var three := two + [RunThreads(false, z)];
    CommandKept(three, Statement, z);
    more := three + [Statement];
  }

  lemma CommandServed() returns (events: seq<Event>)
    ensures Legal(POWER_ON, events)
    ensures var m := Run(POWER_ON, events); m.pc.MainLoop? && m.state == ST_IDLE && m.threadsRunning
    ensures LastCommand(Effects(POWER_ON, events)) == FullCommand()
  {
    var start := StartUp();
    PowerOnSim();
    RunRefines(POWER_ON, BOOT, start);
    var s := Run(POWER_ON, start);
    ApplyNone(BOOT);
    assert Pending(s.pc) == [FullCommand()];
    FullCommandIsWrite();
    hide Sim, FullCommand, StatementsLeft, Run, Effects, Legal, LastCommand, Pending, ApplyAll;
    var served := CallbackReturns(s, BOOT, StatementsLeft(s.pc));
    LegalConcat(POWER_ON, start, served);
    assert AsRequests([FullCommand()]) == [Request(FullCommand())];
    events := start + served;
  }

  // It does happen: a base tick may find a command whose last byte has been cleared.
  lemma HalfClearedSeen() returns (events: seq<Event>, m: Machine)
    ensures Legal(POWER_ON, events) && m == Run(POWER_ON, events) && WellFormed(m)
    ensures Enabled(m, BaseTick(ZeroFrame()))
    ensures Observed(m) != LastCommand(Effects(POWER_ON, events)) == FullCommand()
    ensures Observed(m) != ZeroFrame()
  {
    hide Run, Effects, Legal, LastCommand, FullCommand;
    var served := CommandServed();
    events := ResetBegins(served);
    m := Run(POWER_ON, events);
    ExchangeOverRuns(events);
    var seen := FullCommand()[..63] + ZeroFrame()[63..];
    assert seen[32] == 1 && seen[63] == 0;
  }

  lemma FullCommandIsWrite()
    ensures Header(FullCommand()) == PRU_WRITE
    ensures LastCommand([Request(FullCommand())]) == FullCommand()
  {
    Value32OfBytes32(PRU_WRITE);
    var ones: Frame := seq(BUFFER_SIZE, _ => 1);
    assert FullCommand()[..4] == Bytes32(PRU_WRITE);
  }

  lemma QuietIsSim(m: Machine, a: Atomic)
    requires m.pc.MainLoop?
    ensures Sim(m, a) <==> WellFormed(m) && m.currentRxBuffer == a.writeCount % 2 && Quiet(m, a)
  {
  }

  // Between callbacks the meaning of the buffers does not depend on the state.
  lemma StateIrrelevant(m: Machine, a: Atomic, state: State, threadsRunning: bool)
    requires Sim(m, a) && m.pc.MainLoop?
    ensures Sim(m.(state := state, threadsRunning := threadsRunning), a)
  {
  }

  // ----- The same code as methods, run without interruption -----

  class PingPong {
    var rxBuffers: seq<Frame>
    var txBuffers: seq<Frame>
    var currentRxBuffer: nat
    var currentTxBuffer: nat
    var currentState: State
    var threadsRunning: bool
    ghost var history: Atomic

    ghost function View(): (r: Machine)
      reads this
    {
      Machine(rxBuffers, txBuffers, currentRxBuffer, currentTxBuffer, currentState, threadsRunning,
              MainLoop, history.replies)
    }

    ghost predicate Valid()
      reads this
    {
      Sim(View(), history)
    }

    constructor ()
      ensures Valid() && history == BOOT && currentState == ST_SETUP && !threadsRunning
    {
      rxBuffers, txBuffers := [ZeroFrame(), ZeroFrame()], [ZeroFrame(), ZeroFrame()];
      currentRxBuffer, currentTxBuffer := 0, 0;
      currentState, threadsRunning := ST_SETUP, false;
      history := BOOT;
    }

    method SwapRxBuffers()
      requires currentRxBuffer <= 1
      modifies this`currentRxBuffer
      ensures currentRxBuffer == 1 - old(currentRxBuffer)
    {
      currentRxBuffer := 1 - currentRxBuffer;
    }

    method SwapTxBuffers()
      requires currentTxBuffer <= 1
      modifies this`currentTxBuffer
      ensures currentTxBuffer == 1 - old(currentTxBuffer)
    {
      currentTxBuffer := 1 - currentTxBuffer;
    }

    method UdpDataCallback(payload: Frame) returns (reply: seq<bv8>)
      requires Valid()
      modifies `rxBuffers, `txBuffers, `currentRxBuffer, `currentTxBuffer, `history
      ensures Valid()
      ensures reply == Answer(old(history), payload)
      ensures Answers(reply, payload, old(history).feedback)
      ensures history == Apply(old(history), Request(payload))
    {
      AnswerAnswers(history, payload);
      hide Header, WithHeader, Sim, Answers;
      QuietIsSim(View(), history);
      var rx, tx := 1 - currentRxBuffer, currentTxBuffer;
      var txlen := 0;
      rxBuffers := rxBuffers[rx := payload];
      if Header(rxBuffers[rx]) == PRU_READ || Header(rxBuffers[rx]) == PRU_WRITE {
        if Header(rxBuffers[rx]) == PRU_READ {
          SwapTxBuffers();
          txBuffers := txBuffers[tx := WithHeader(txBuffers[tx], PRU_DATA)];
          txlen := BUFFER_SIZE;
        } else if Header(rxBuffers[rx]) == PRU_WRITE {
          SwapTxBuffers();
          SwapRxBuffers();
          txBuffers := txBuffers[tx := WithHeader(txBuffers[tx], PRU_ACKNOWLEDGE)];
          txlen := BUFFER_SIZE;
        }
      }
      reply := txBuffers[tx][..txlen];
      history := Apply(history, Request(payload));
      QuietIsSim(View(), history);
    }

    // `status` is what comms->getStatus() returns, `feedback` what the servo modules leave
    // in the current report.
    method RunThreads(status: bool, feedback: Frame)
      requires Valid()
      modifies `rxBuffers, `txBuffers, `currentState, `threadsRunning, `history
      ensures Valid()
      ensures currentState ==
              match old(currentState)
              case ST_SETUP => ST_START
              case ST_START => ST_IDLE
              case ST_IDLE => (if status then ST_RUNNING else ST_IDLE)
              case ST_RUNNING => (if status then ST_RUNNING else ST_RESET)
              case ST_RESET => ST_IDLE
              case ST_STOP => ST_STOP
              case ST_WDRESET => ST_WDRESET
      ensures threadsRunning == (old(threadsRunning) || old(currentState) == ST_START)
      ensures history ==
              match old(currentState)
              case ST_IDLE => Apply(old(history), Report(feedback))
              case ST_RUNNING => Apply(old(history), Report(feedback))
              case ST_STOP => Apply(old(history), Report(feedback))
              case ST_RESET => Apply(old(history), Reset)
              case _ => old(history)
    {
      hide Apply, Sim;
      ghost var before := currentState;
      match currentState {
        case ST_SETUP =>
          currentState := ST_START;
        case ST_START =>
          if !threadsRunning {
            threadsRunning := true;
          }
          currentState := ST_IDLE;
        case ST_IDLE =>
          RunServo(feedback);
          currentState := if status then ST_RUNNING else ST_IDLE;
        case ST_RUNNING =>
          RunServo(feedback);
          currentState := if status then ST_RUNNING else ST_RESET;
        case ST_STOP =>
          RunServo(feedback);
        case ST_RESET =>
          ZeroCommand();
          currentState := ST_IDLE;
        case ST_WDRESET =>
      }
      ghost var m := Machine(rxBuffers, txBuffers, currentRxBuffer, currentTxBuffer, before, old(threadsRunning),
                             MainLoop, history.replies);
      StateIrrelevant(m, history, currentState, threadsRunning);
    }

    method RunServo(feedback: Frame)
      requires Valid()
      modifies `txBuffers, `history
      ensures Valid() && history == Apply(old(history), Report(feedback))
    {
      txBuffers := txBuffers[currentTxBuffer := feedback];
      history := Apply(history, Report(feedback));
    }

    method ZeroCommand()
      requires Valid()
      modifies `rxBuffers, `history
      ensures Valid() && history == Apply(old(history), Reset)
    {
      var rx, n := currentRxBuffer, BUFFER_SIZE;
      ghost var was := rxBuffers[rx];
      assert was == was[..n] + ZeroFrame()[n..];
      while n > 0
        modifies `rxBuffers
        invariant n <= BUFFER_SIZE && |rxBuffers| == 2 && rx <= 1
        invariant rxBuffers[1 - rx] == old(rxBuffers[1 - rx])
        invariant rxBuffers[rx] == was[..n] + ZeroFrame()[n..]
      {
        n := n - 1;
        var cleared: Frame := rxBuffers[rx][n := 0];
        assert cleared == was[..n] + ZeroFrame()[n..];
        rxBuffers := rxBuffers[rx := cleared];
      }
      assert rxBuffers[rx] == ZeroFrame();
      history := Apply(history, Reset);
    }
  }
}
