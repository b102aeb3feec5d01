/** Ethernet frames between lwIP and the network chip: Src/w5x00_lwip.c. */
module Frames {
  import opened LittleEndian
  import opened Wrappers

  const TX_FRAME_SIZE: nat := 1542
  const SHORTEST: nat := 60

  // ----- Sending: a packet gathered from its chain of buffers -----

  datatype Pbuf = Pbuf(payload: seq<bv8>, totLen: nat)

  function Flatten(chain: seq<Pbuf>): (r: seq<bv8>) {
    if chain == [] then [] else chain[0].payload + Flatten(chain[1..])
  }

  // lwIP's rule: tot_len counts this buffer and those after it in the same packet.
  ghost predicate IsPacket(chain: seq<Pbuf>) {
    forall i | 0 <= i < |chain| :: chain[i].totLen == |Flatten(chain[i..])|
  }

  function Padded(s: seq<bv8>): (r: seq<bv8>)
    ensures s <= r && |r| >= SHORTEST
  {
    if |s| < SHORTEST then s + ZeroBytes(SHORTEST - |s|) else s
  }

  lemma {:induction false} FlattenSplit(chain: seq<Pbuf>, k: nat)
    requires k <= |chain|
    ensures Flatten(chain) == Flatten(chain[..k]) + Flatten(chain[k..])
    decreases k
  {
    if k == 0 {
      assert chain[..0] == [] && chain[0..] == chain;
    } else {
      FlattenSplit(chain[1..], k - 1);
      assert chain[..k][1..] == chain[1..][..k - 1] && chain[1..][k - 1..] == chain[k..];
      var head, a, b := chain[0].payload, Flatten(chain[1..][..k - 1]), Flatten(chain[k..]);
      assert head + (a + b) == (head + a) + b;
    }
  }

  lemma FlattenOne(chain: seq<Pbuf>, k: nat)
    requires k < |chain|
    ensures Flatten(chain[..k + 1]) == Flatten(chain[..k]) + chain[k].payload
    ensures Flatten(chain) == Flatten(chain[..k + 1]) + Flatten(chain[k + 1..])
    ensures |Flatten(chain[k..])| == |chain[k].payload| + |Flatten(chain[k + 1..])|
  {
    FlattenSplit(chain, k + 1);
    var c := chain[..k + 1];
    FlattenSplit(c, k);
    assert c[..k] == chain[..k] && c[k..] == [chain[k]];
    assert Flatten([chain[k]]) == chain[k].payload + Flatten([chain[k]][1..]);
    assert chain[k..][1..] == chain[k + 1..];
  }

  // tx_frame with s at the front and zeros behind.
  function FrameOf(s: seq<bv8>): (f: seq<bv8>)
    requires |s| <= TX_FRAME_SIZE
    ensures |f| == TX_FRAME_SIZE && s <= f
  {
    s + ZeroBytes(TX_FRAME_SIZE - |s|)
  }

  lemma FrameGrows(s: seq<bv8>, more: seq<bv8>)
    requires |s + more| <= TX_FRAME_SIZE
    ensures FrameOf(s)[..|s|] + more + FrameOf(s)[|s + more|..] == FrameOf(s + more)
  {
  }

  // memcpy into the frame.
  method CopyIn(txFrame: array<bv8>, at: nat, payload: seq<bv8>)
    requires at + |payload| <= txFrame.Length
    modifies txFrame
    ensures txFrame[..] == old(txFrame[..at]) + payload + old(txFrame[at + |payload|..])
  {
    forall i | 0 <= i < |payload| {
      txFrame[at + i] := payload[i];
    }
  }

  // Where the loop stops, the rest of the packet holds no bytes; where it goes on, there is more.
  lemma StopsAtEnd(packet: seq<Pbuf>, q: nat)
    requires IsPacket(packet) && q < |packet|
    ensures Flatten(packet[..q + 1]) == Flatten(packet[..q]) + packet[q].payload
    ensures |Flatten(packet[..q + 1])| <= |Flatten(packet)|
    ensures |packet[q].payload| == packet[q].totLen ==> Flatten(packet[..q + 1]) == Flatten(packet)
    ensures |packet[q].payload| != packet[q].totLen ==> q + 1 < |packet|
  {
    FlattenOne(packet, q);
  }

  // The frame sent is the first packet of the queue, whole and alone, padded with zeros;
  // what happens to be queued behind it does not matter.
  method NetifOutput(txFrame: array<bv8>, queue: seq<Pbuf>, ghost packet: seq<Pbuf>) returns (frame: seq<bv8>)
    requires txFrame.Length == TX_FRAME_SIZE
    requires packet != [] && packet <= queue && IsPacket(packet)
    requires |Flatten(packet)| <= TX_FRAME_SIZE
    modifies txFrame
    ensures frame == Padded(Flatten(packet))
    ensures |frame| == if |Flatten(packet)| < 60 then 60 else |Flatten(packet)|
    ensures frame[..|Flatten(packet)|] == Flatten(packet)
    ensures forall i | |Flatten(packet)| <= i < |frame| :: frame[i] == 0
  {
    hide Flatten, IsPacket;
    forall i | 0 <= i < txFrame.Length {
      txFrame[i] := 0;
    }
    var totLen, q := 0, 0;
    NoneYet(packet);
    assert txFrame[..] == FrameOf([]);
    while q < |queue|
      invariant q < |packet|
      invariant totLen == |Flatten(packet[..q])| <= TX_FRAME_SIZE
      invariant txFrame[..] == FrameOf(Flatten(packet[..q]))
    {
      StopsAtEnd(packet, q);
      FrameGrows(Flatten(packet[..q]), packet[q].payload);
      CopyIn(txFrame, totLen, queue[q].payload);
      totLen := totLen + |queue[q].payload|;
      if |queue[q].payload| == queue[q].totLen {
        break;
      }
      q := q + 1;
    }
    assert txFrame[..] == FrameOf(Flatten(packet));
    if totLen < SHORTEST {
      totLen := SHORTEST;
    }
    frame := txFrame[..totLen];
  }

  lemma NoneYet(packet: seq<Pbuf>)
    ensures Flatten(packet[..0]) == []
  {
  }

  // ----- Receiving: frames from the chip's byte stream -----

  // The chip puts a big-endian count of itself and the frame, 16 bits, before each frame.
  type Payload = f: seq<bv8> | |f| + 2 < 0x10000 witness []

  const ETHERNET_MTU: nat := 1500

  function LengthHeader(n: nat): (h: seq<bv8>)
    requires n < 0x10000
    ensures |h| == 2
  {
    [(n / 256) as bv8, (n % 256) as bv8]
  }

  function HeaderLength(h: seq<bv8>): (n: nat)
    requires |h| == 2
  {
    h[0] as nat * 256 + h[1] as nat
  }

  function OnWire(f: Payload): (w: seq<bv8>)
    ensures |w| == |f| + 2
  {
    LengthHeader(|f| + 2) + f
  }

  function Wire(frames: seq<Payload>): (w: seq<bv8>) {
    if frames == [] then [] else OnWire(frames[0]) + Wire(frames[1..])
  }

  // A byte stream that begins with a whole frame, if it is not empty.
  predicate Framed(stream: seq<bv8>) {
    stream == [] || (|stream| >= 2 && 2 <= HeaderLength(stream[..2]) <= |stream|)
  }

  // pack_len after the subtraction, and the stream behind that frame.
  function FrontLength(stream: seq<bv8>): (n: nat)
    requires stream != [] && Framed(stream)
    ensures 2 + n <= |stream|
  {
    HeaderLength(stream[..2]) - 2
  }

  lemma HeaderReads(n: nat)
    requires n < 0x10000
    ensures HeaderLength(LengthHeader(n)) == n
  {
    ByteValue(n / 256);
    ByteValue(n % 256);
  }

  // The chip's count, most significant byte first, covers itself.
  lemma OnWireLayout(f: Payload)
    ensures 256 * (OnWire(f)[0] as int) + (OnWire(f)[1] as int) == |f| + 2
    ensures OnWire(f)[2..] == f
  {
    ByteValue((|f| + 2) / 256);
    ByteValue((|f| + 2) % 256);
  }

  // The pieces of the stream that one call takes.
  lemma WireParts(frames: seq<Payload>)
    ensures frames == [] <==> Wire(frames) == []
    ensures Framed(Wire(frames))
    ensures frames != [] ==>
              && FrontLength(Wire(frames)) == |frames[0]|
              && Wire(frames)[2..][..|frames[0]|] == frames[0]
              && Wire(frames)[2..][|frames[0]|..] == Wire(frames[1..])
  {
    if frames != [] {
      HeaderReads(|frames[0]| + 2);
      hide LengthHeader, HeaderLength;
      Pieces(LengthHeader(|frames[0]| + 2), frames[0], Wire(frames[1..]));
    }
  }

  lemma Pieces(h: seq<bv8>, f: seq<bv8>, w: seq<bv8>)
    requires |h| == 2
    ensures var all := h + f + w; all[..2] == h && all[2..][..|f|] == f && all[2..][|f|..] == w
  {
    var all := h + f + w;
    assert all == h + (f + w);
    assert all[2..] == f + w;
  }

  lemma {:induction false} WireAppend(frames: seq<Payload>, f: Payload)
    ensures Wire(frames + [f]) == Wire(frames) + OnWire(f)
  {
    hide OnWire;
    if frames == [] {
      assert [f][1..] == [];
      assert Wire([f]) == OnWire(f) + Wire([]);
    } else {
      WireAppend(frames[1..], f);
      assert (frames + [f])[1..] == frames[1..] + [f];
      var a, b, c := OnWire(frames[0]), Wire(frames[1..]), OnWire(f);
      assert a + (b + c) == (a + b) + c;
    }
  }

  class Chip {
    var received: seq<bv8>

    // wiz_recv_data and wiz_recv_ignore: take bytes from the front.
    method Take(n: nat) returns (bytes: seq<bv8>)
      requires n <= |received|
      modifies this
      ensures bytes == old(received)[..n] && received == old(received)[n..]
    {
      bytes := received[..n];
      received := received[n..];
    }

    // Each call consumes one whole frame: it delivers the payload, or drops it when it is
    // longer than `len`; so the chip always stands at the start of a frame. `len` may exceed
    // the buffer: what must fit there is the frame.
    method RecvLwip(buf: array<bv8>, len: nat, ghost frames: seq<Payload>) returns (count: nat)
      requires len < 0x10000
      requires received == Wire(frames) && |received| < 0x10000
      requires frames != [] && |frames[0]| <= len ==> |frames[0]| <= buf.Length
      modifies this, buf
      ensures frames == [] ==> count == 0 && received == [] && buf[..] == old(buf[..])
      ensures frames != [] ==> received == Wire(frames[1..])
      ensures frames != [] && |frames[0]| <= len ==> count == |frames[0]| && buf[..] == frames[0] + old(buf[count..])
      ensures frames != [] && |frames[0]| > len ==> count == 0 && buf[..] == old(buf[..])
      ensures Framed(old(received))
      ensures received == Next(Link(old(received), 0, []), Recv(len)).stream
      ensures count == BytesWritten(Link(old(received), 0, []), len)
    {
      WireParts(frames);
      hide Wire, HeaderLength;
      var packLen: int := |received|;
      if packLen > 0 {
        var head := Take(2);
        packLen := HeaderLength(head) - 2;
        if packLen > len {
          var ignored := Take(packLen);
          return 0;
        }
        var bytes := Take(packLen);
        forall i | 0 <= i < packLen {
          buf[i] := bytes[i];
        }
      }
      count := packLen;
    }
  }

  // One pass of the network task: it asks how many bytes wait and receives with that number
  // as the limit. The first waiting frame is handed on whole, whatever waits behind it.
  method EthernetTasks(chip: Chip, pack: array<bv8>, ghost frames: seq<Payload>) returns (packet: Option<seq<bv8>>)
    requires pack.Length == ETHERNET_MTU
    requires chip.received == Wire(frames) && |chip.received| < 0x10000
    requires frames != [] ==> |frames[0]| <= ETHERNET_MTU
    modifies chip, pack
    ensures frames == [] ==> packet == None && chip.received == []
    ensures frames != [] ==> chip.received == Wire(frames[1..])
    ensures frames != [] ==> packet == if frames[0] == [] then None else Some(frames[0])
  {
    WireParts(frames);
    hide Wire, HeaderLength;
    packet := None;
    var packLen := |chip.received|;
    if packLen > 0 {
      packLen := chip.RecvLwip(pack, packLen, frames);
      if packLen > 0 {
        packet := Some(pack[..packLen]);
      }
    }
  }

  // ----- Runs: frames that arrive between calls -----

  // `waiting` is what the network task was last told; 0 once it has used it.
  datatype Link = Link(stream: seq<bv8>, waiting: nat, delivered: seq<seq<bv8>>)

  datatype Event = Arrive(frame: Payload) | Ask | Recv(len: nat)

  // The chip takes a frame if its memory has room; that is never more than 16 bits can count.
  predicate Enabled(l: Link, e: Event) {
    match e
    case Arrive(f) => |l.stream| + |f| + 2 < 0x10000
    case Ask => true
    case Recv(len) => Framed(l.stream)
  }

  function Next(l: Link, e: Event): (r: Link)
    requires Enabled(l, e)
  {
    match e
    case Arrive(f) => l.(stream := l.stream + OnWire(f))
    case Ask => l.(waiting := |l.stream|)
    case Recv(len) =>
      if l.stream == [] then l.(waiting := 0)
      else
        var n := FrontLength(l.stream);
        var rest := l.stream[2..][n..];
        if n > len then Link(rest, 0, l.delivered)
        else Link(rest, 0, l.delivered + [l.stream[2..][..n]])
  }

  // What a call writes into the buffer.
  function BytesWritten(l: Link, len: nat): (n: nat)
    requires Framed(l.stream)
  {
    if l.stream == [] || FrontLength(l.stream) > len then 0 else FrontLength(l.stream)
  }

  // The same in terms of frames: those that wait, and what became of the others.
  datatype Fate = Fate(frame: Payload, delivered: bool)

  datatype Queue = Queue(pending: seq<Payload>, fates: seq<Fate>)

  function QueueNext(q: Queue, e: Event): (r: Queue) {
    match e
    case Arrive(f) => q.(pending := q.pending + [f])
    case Ask => q
    case Recv(len) =>
      if q.pending == [] then q
      else Queue(q.pending[1..], q.fates + [Fate(q.pending[0], |q.pending[0]| <= len)])
  }

  function Consumed(fates: seq<Fate>): (frames: seq<seq<bv8>>) {
    seq(|fates|, i requires 0 <= i < |fates| => fates[i].frame)
  }

  function Delivered(fates: seq<Fate>): (frames: seq<seq<bv8>>) {
    if fates == [] then []
    else
      var last := fates[|fates| - 1];
      Delivered(fates[..|fates| - 1]) + (if last.delivered then [last.frame] else [])
  }

  function Arrivals(events: seq<Event>): (frames: seq<seq<bv8>>) {
    if events == [] then []
    else (if events[0].Arrive? then [events[0].frame] else []) + Arrivals(events[1..])
  }

  predicate Legal(l: Link, events: seq<Event>)
    decreases events
  {
    events == [] || (Enabled(l, events[0]) && Legal(Next(l, events[0]), events[1..]))
  }

  function Run(l: Link, events: seq<Event>): (r: Link)
    requires Legal(l, events)
    decreases events
  {
    if events == [] then l else Run(Next(l, events[0]), events[1..])
  }

  function RunQueue(q: Queue, events: seq<Event>): (r: Queue)
    decreases events
  {
    if events == [] then q else RunQueue(QueueNext(q, events[0]), events[1..])
  }

  // The network task never receives without having been told of bytes, and passes their number.
  predicate ByCaller(l: Link, events: seq<Event>)
    requires Legal(l, events)
    decreases events
  {
    events == [] ||
    ((events[0].Recv? ==> l.waiting > 0 && events[0].len == l.waiting) && ByCaller(Next(l, events[0]), events[1..]))
  }

  const QUIET: Link := Link([], 0, [])
  const NOTHING: Queue := Queue([], [])

  ghost predicate Sim(l: Link, q: Queue) {
    && l.stream == Wire(q.pending)
    && l.delivered == Delivered(q.fates)
    && (l.waiting > 0 ==> q.pending != [] && |q.pending[0]| + 2 <= l.waiting)
  }

  lemma FateAppend(fates: seq<Fate>, f: Fate)
    ensures Delivered(fates + [f]) == Delivered(fates) + (if f.delivered then [f.frame] else [])
    ensures Consumed(fates + [f]) == Consumed(fates) + [f.frame]
  {
    assert (fates + [f])[..|fates|] == fates;
  }

  lemma WireFirst(frames: seq<Payload>)
    requires frames != []
    ensures |Wire(frames)| >= |frames[0]| + 2
  {
  }

  // Frames consumed and waiting, together: what has arrived.
  function Seen(q: Queue): (frames: seq<seq<bv8>>) {
    Consumed(q.fates) + q.pending
  }

  lemma SeenGrows(q: Queue, e: Event)
    ensures Seen(QueueNext(q, e)) == Seen(q) + Arrivals([e])
  {
    hide Delivered;
    assert [e][1..] == [];
    match e
    case Arrive(f) =>
      assert Arrivals([e]) == [f];
    case Ask =>
    case Recv(len) =>
      if q.pending != [] {
        FateAppend(q.fates, Fate(q.pending[0], |q.pending[0]| <= len));
        hide Consumed;
        assert q.pending == [q.pending[0]] + q.pending[1..];
      }
  }

  lemma NextKeepsSim(l: Link, q: Queue, e: Event)
    requires Sim(l, q) && Enabled(l, e)
    ensures Sim(Next(l, e), QueueNext(q, e))
  {
    hide OnWire, Delivered;
    WireParts(q.pending);
    match e
    case Arrive(f) =>
      hide Framed;
      WireAppend(q.pending, f);
    case Ask =>
      if q.pending != [] {
        WireFirst(q.pending);
      }
    case Recv(len) =>
      hide Wire, HeaderLength;
      if q.pending != [] {
        FateAppend(q.fates, Fate(q.pending[0], |q.pending[0]| <= len));
      }
  }

  // No call is ever blocked: the chip always stands at the start of a frame.
  lemma SimIsFramed(l: Link, q: Queue)
    requires Sim(l, q)
    ensures Framed(l.stream)
  {
    WireParts(q.pending);
  }

  lemma {:induction false} RunKeepsSim(l: Link, q: Queue, events: seq<Event>)
    requires Sim(l, q) && Legal(l, events)
    ensures Sim(Run(l, events), RunQueue(q, events))
    ensures Seen(RunQueue(q, events)) == Seen(q) + Arrivals(events)
    decreases events
  {
    if events != [] {
      hide Sim, Next, QueueNext, Seen, Enabled;
      var e, rest := events[0], events[1..];
      NextKeepsSim(l, q, e);
      SeenGrows(q, e);
      RunKeepsSim(Next(l, e), QueueNext(q, e), rest);
      ArrivalsFirst(events);
      Joined(Seen(q), Arrivals([e]), Arrivals(rest));
    }
  }

  lemma ArrivalsFirst(events: seq<Event>)
    requires events != []
    ensures Arrivals(events) == Arrivals([events[0]]) + Arrivals(events[1..])
  {
    assert [events[0]][1..] == [];
  }

  lemma Joined(x: seq<seq<bv8>>, y: seq<seq<bv8>>, z: seq<seq<bv8>>)
    ensures (x + y) + z == x + (y + z)
  {
  }

  // Over every run of arrivals and calls, with any limits: the chip stands at the first frame
  // not yet consumed, each frame has been consumed once, in order of arrival, and those
  // delivered are the ones that were not longer than the limit of their call.
  lemma LinkOverRuns(events: seq<Event>)
    requires Legal(QUIET, events)
    ensures var l, q := Run(QUIET, events), RunQueue(NOTHING, events);
            && l.stream == Wire(q.pending) && Framed(l.stream)
            && Consumed(q.fates) + q.pending == Arrivals(events)
            && l.delivered == Delivered(q.fates)
  {
    assert Sim(QUIET, NOTHING);
    RunKeepsSim(QUIET, NOTHING, events);
    SimIsFramed(Run(QUIET, events), RunQueue(NOTHING, events));
    assert Seen(NOTHING) + Arrivals(events) == Arrivals(events);
  }

  ghost predicate AllDelivered(q: Queue) {
    forall i | 0 <= i < |q.fates| :: q.fates[i].delivered
  }

  lemma NextDelivers(l: Link, q: Queue, e: Event)
    requires Sim(l, q) && Enabled(l, e) && AllDelivered(q)
    requires e.Recv? ==> l.waiting > 0 && e.len == l.waiting
    ensures AllDelivered(QueueNext(q, e))
  {
    hide Wire, Delivered, OnWire;
  }

  lemma {:induction false} CallerDelivers(l: Link, q: Queue, events: seq<Event>)
    requires Sim(l, q) && Legal(l, events) && ByCaller(l, events) && AllDelivered(q)
    ensures AllDelivered(RunQueue(q, events))
    decreases events
  {
    if events != [] {
      hide Sim, Next, QueueNext, Enabled, AllDelivered;
      NextKeepsSim(l, q, events[0]);
      NextDelivers(l, q, events[0]);
      CallerDelivers(Next(l, events[0]), QueueNext(q, events[0]), events[1..]);
    }
  }

  lemma {:induction false} DeliveredAll(q: Queue)
    requires AllDelivered(q)
    ensures Delivered(q.fates) == Consumed(q.fates)
    decreases |q.fates|
  {
    if q.fates != [] {
      var n := |q.fates| - 1;
      DeliveredAll(q.(fates := q.fates[..n]));
      assert q.fates == q.fates[..n] + [q.fates[n]];
      FateAppend(q.fates[..n], q.fates[n]);
    }
  }

  // Called by the network task, however many frames arrive in between: none is ever dropped,
  // and the next call writes exactly the first waiting frame, so it stays inside a buffer of
  // ETHERNET_MTU bytes if and only if that frame does.
  lemma CallerLosesNothing(events: seq<Event>)
    requires Legal(QUIET, events) && ByCaller(QUIET, events)
    ensures var l, q := Run(QUIET, events), RunQueue(NOTHING, events);
            && l.delivered + q.pending == Arrivals(events)
            && Framed(l.stream)
            && (l.waiting > 0 ==>
                 && q.pending != []
                 && BytesWritten(l, l.waiting) == |q.pending[0]|
                 && (BytesWritten(l, l.waiting) <= ETHERNET_MTU <==> |q.pending[0]| <= ETHERNET_MTU)
                 && Next(l, Recv(l.waiting)).delivered == l.delivered + [q.pending[0]])
  {
    assert Sim(QUIET, NOTHING);
    RunKeepsSim(QUIET, NOTHING, events);
    CallerDelivers(QUIET, NOTHING, events);
    var l, q := Run(QUIET, events), RunQueue(NOTHING, events);
    DeliveredAll(q);
    LinkOverRuns(events);
    hide Wire, Run, RunQueue, Consumed, Delivered, HeaderLength, Legal, ByCaller;
    WireParts(q.pending);
  }

  // A frame of 1501 bytes or more, with its 14 bytes of Ethernet header, does not fit.
  lemma LongFrameDoesNotFit(f: Payload)
    requires ETHERNET_MTU < |f|
    ensures var events := [Arrive(f), Ask];
            && Legal(QUIET, events) && ByCaller(QUIET, events)
            && var l := Run(QUIET, events);
               l.waiting > 0 && Framed(l.stream) && BytesWritten(l, l.waiting) > ETHERNET_MTU
  {
    hide OnWire, HeaderLength, LengthHeader;
    var events := [Arrive(f), Ask];
    var l1, l2 := Link(OnWire(f), 0, []), Link(OnWire(f), |f| + 2, []);
    assert events[1..] == [Ask] && [Ask][1..] == [];
    assert [] + OnWire(f) == OnWire(f);
    assert Next(QUIET, Arrive(f)) == l1 && Next(l1, Ask) == l2;
    assert Legal(l2, []) && ByCaller(l2, []) && Run(l2, []) == l2;
    assert Legal(l1, [Ask]) && ByCaller(l1, [Ask]) && Run(l1, [Ask]) == l2;
    assert Wire([f]) == OnWire(f) by {
      assert [f][1..] == [];
      assert OnWire(f) + [] == OnWire(f);
    }
    WireParts([f]);
  }
}
