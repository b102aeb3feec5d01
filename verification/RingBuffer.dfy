/** The receive ring of the USB console: Src/usb_serial.c. The interrupt fills it with
    usbBufferInput; a reader that takes data[tail] and then advances tail empties it. */
module RingBuffer {

  // ----- The mask -----

  function Pow2(k: nat): (p: nat)
    ensures p >= 1
  {
    if k == 0 then 1 else 2 * Pow2(k - 1)
  }

  // The operator & on unsigned numbers, bit by bit.
  function BitAnd(x: nat, y: nat): (r: nat) {
    if x == 0 || y == 0 then 0 else 2 * BitAnd(x / 2, y / 2) + (if x % 2 == 1 && y % 2 == 1 then 1 else 0)
  }

  function BufNext(ptr: nat, size: nat): (r: nat)
    requires size >= 1
  {
    BitAnd(ptr + 1, size - 1)
  }

  function BufCount(head: nat, tail: nat, size: nat): (r: int) {
    if head >= tail then head - tail else size - tail + head
  }

  // The next index round a ring of n cells.
  function Round(i: nat, n: nat): (r: nat) {
    if i < n then i else i - n
  }

  lemma {:induction false} MaskKeeps(x: nat, k: nat)
    requires x < Pow2(k)
    ensures BitAnd(x, Pow2(k) - 1) == x
    decreases k
  {
    if k > 0 {
      MaskKeeps(x / 2, k - 1);
      assert (Pow2(k) - 1) / 2 == Pow2(k - 1) - 1;
      assert BitAnd(0, Pow2(k - 1) - 1) == 0;
    }
  }

  lemma {:induction false} MaskClears(k: nat)
    ensures BitAnd(Pow2(k), Pow2(k) - 1) == 0
  {
    if k > 0 {
      MaskClears(k - 1);
      assert Pow2(k) / 2 == Pow2(k - 1) && (Pow2(k) - 1) / 2 == Pow2(k - 1) - 1;
    }
  }

  ghost predicate IsPow2(n: nat) {
    exists k: nat :: n == Pow2(k)
  }

  ghost predicate StepsRound(n: nat)
    requires n >= 1
  {
    forall i: nat | i < n :: BufNext(i, n) == Round(i + 1, n)
  }

  lemma PowerStepsRound(n: nat, i: nat)
    requires n >= 1 && IsPow2(n) && i < n
    ensures BufNext(i, n) == Round(i + 1, n)
  {
    var k: nat :| n == Pow2(k);
    if i + 1 < n {
      MaskKeeps(i + 1, k);
    } else {
      MaskClears(k);
    }
  }

  // If the mask m keeps every number up to m, then m + 1 is a power of two.
  lemma {:induction false} AllKept(m: nat)
    requires forall x: nat | x <= m :: BitAnd(x, m) == x
    ensures IsPow2(m + 1)
  {
    if m == 0 {
      assert Pow2(0) == 1;
    } else {
      assert BitAnd(1, m) == 1;
      assert BitAnd(0, m / 2) == 0;
      assert m % 2 == 1;
      forall x: nat | x <= m / 2
        ensures BitAnd(x, m / 2) == x
      {
        assert BitAnd(2 * x, m) == 2 * x;
        if x > 0 {
          assert (2 * x) / 2 == x;
        }
      }
      AllKept(m / 2);
      var k: nat :| m / 2 + 1 == Pow2(k);
      assert Pow2(k + 1) == m + 1;
    }
  }

  // BUFNEXT goes round a buffer of n cells if and only if n is a power of two.
  lemma StepsRoundExact(n: nat)
    requires n >= 1
    ensures StepsRound(n) <==> IsPow2(n)
  {
    if IsPow2(n) {
      forall i: nat | i < n
        ensures BufNext(i, n) == Round(i + 1, n)
      {
        PowerStepsRound(n, i);
      }
    }
    if StepsRound(n) {
      var mask := n - 1;
      forall x: nat | x <= mask
        ensures BitAnd(x, mask) == x
      {
        if x > 0 {
          assert BufNext(x - 1, n) == Round(x, n);
        }
      }
      AllKept(mask);
    }
  }

  // ----- The ring, a statement at a time -----

  // Where usbBufferInput stands; `rest` are the bytes it has still to deal with.
  datatype Writer =
    | Away
    | Loop(rest: seq<bv8>)
    | Compare(rest: seq<bv8>, next: nat)
    | Flag(rest: seq<bv8>)
    | Store(rest: seq<bv8>, next: nat)
    | Publish(rest: seq<bv8>, next: nat)

  datatype Reader = Ready | Holding(byte: bv8)

  // A byte that usbBufferInput has dealt with.
  datatype Fate = Fate(byte: bv8, kept: bool)

  datatype Ring = Ring(
    data: seq<bv8>, head: nat, tail: nat, overflow: bool,
    writer: Writer, reader: Reader,
    offered: seq<bv8>, fates: seq<Fate>, taken: seq<bv8>)

  datatype Event = Input(bytes: seq<bv8>) | WriterStep | Take | Advance

  predicate Enabled(r: Ring, e: Event) {
    match e
    case Input(_) => r.writer.Away?
    case WriterStep => !r.writer.Away?
    case Take => r.reader.Ready? && r.head != r.tail
    case Advance => r.reader.Holding?
  }

  predicate WellFormed(r: Ring) {
    && r.head < |r.data| && r.tail < |r.data|
    && (r.writer.Compare? || r.writer.Flag? || r.writer.Store? || r.writer.Publish? ==> r.writer.rest != [])
  }

  function WriterNext(r: Ring): (result: Ring)
    requires WellFormed(r)
  {
    match r.writer
    case Away => r
    case Loop(rest) =>
      if rest == [] then r.(writer := Away) else r.(writer := Compare(rest, BufNext(r.head, |r.data|)))
    case Compare(rest, next) =>
      if next == r.tail then r.(writer := Flag(rest), fates := r.fates + [Fate(rest[0], false)])
      else r.(writer := Store(rest, next))
    case Flag(rest) => r.(overflow := true, writer := Loop(rest[1..]))
    case Store(rest, next) => r.(data := r.data[r.head := rest[0]], writer := Publish(rest, next))
    case Publish(rest, next) =>
      r.(head := next, writer := Loop(rest[1..]), fates := r.fates + [Fate(rest[0], true)])
  }

  function Next(r: Ring, e: Event): (result: Ring)
    requires WellFormed(r)
  {
    match e
    case Input(bytes) => r.(writer := Loop(bytes), offered := r.offered + bytes)
    case WriterStep => WriterNext(r)
    case Take => r.(reader := Holding(r.data[r.tail]))
    case Advance =>
      if r.reader.Holding? then
        r.(tail := BufNext(r.tail, |r.data|), reader := Ready, taken := r.taken + [r.reader.byte])
      else r
  }

  // ----- What the ring means -----

  function Contents(data: seq<bv8>, head: nat, tail: nat): (s: seq<bv8>)
    requires head < |data| && tail < |data|
    ensures |s| == BufCount(head, tail, |data|)
    ensures forall i | 0 <= i < |s| :: s[i] == data[Round(tail + i, |data|)]
  {
    seq(BufCount(head, tail, |data|), i requires 0 <= i < BufCount(head, tail, |data|) => data[Round(tail + i, |data|)])
  }

  function Queue(r: Ring): (result: seq<bv8>)
    requires WellFormed(r)
  {
    Contents(r.data, r.head, r.tail)
  }

  function Kept(fates: seq<Fate>): (r: seq<bv8>) {
    if fates == [] then []
    else
      var last := fates[|fates| - 1];
      Kept(fates[..|fates| - 1]) + (if last.kept then [last.byte] else [])
  }

  function Bytes(fates: seq<Fate>): (r: seq<bv8>) {
    seq(|fates|, i requires 0 <= i < |fates| => fates[i].byte)
  }

  // The bytes of the current call that have no fate yet.
  function Undecided(w: Writer): (r: seq<bv8>)
    requires w.Flag? ==> w.rest != []
  {
    match w
    case Away => []
    case Flag(rest) => rest[1..]
    case Loop(rest) => rest
    case Compare(rest, _) => rest
    case Store(rest, _) => rest
    case Publish(rest, _) => rest
  }

  ghost predicate Lost(fates: seq<Fate>) {
    exists i | 0 <= i < |fates| :: !fates[i].kept
  }

  ghost predicate Inv(r: Ring) {
    && |r.data| >= 1 && IsPow2(|r.data|)
    && WellFormed(r)
    && r.taken + Queue(r) == Kept(r.fates)
    && r.offered == Bytes(r.fates) + Undecided(r.writer)
    && (r.overflow || r.writer.Flag? <==> Lost(r.fates))
    && (r.writer.Compare? || r.writer.Store? || r.writer.Publish? ==> r.writer.next == Round(r.head + 1, |r.data|))
    && (r.writer.Store? || r.writer.Publish? ==> |Queue(r)| < |r.data| - 1)
    && (r.writer.Publish? ==> r.data[r.head] == r.writer.rest[0])
    && (r.reader.Holding? ==> |Queue(r)| > 0 && r.reader.byte == r.data[r.tail])
  }

  // ----- The two moves of the queue -----

  lemma FullExact(head: nat, tail: nat, n: nat)
    requires head < n && tail < n
    ensures 0 <= BufCount(head, tail, n) <= n - 1
    ensures Round(head + 1, n) == tail <==> BufCount(head, tail, n) == n - 1
    ensures head == tail <==> BufCount(head, tail, n) == 0
  {
  }

  lemma PushContents(data: seq<bv8>, head: nat, tail: nat)
    requires head < |data| && tail < |data| && BufCount(head, tail, |data|) < |data| - 1
    ensures Contents(data, Round(head + 1, |data|), tail) == Contents(data, head, tail) + [data[head]]
  {
  }

  lemma PopContents(data: seq<bv8>, head: nat, tail: nat)
    requires head < |data| && tail < |data| && head != tail
    ensures [data[tail]] + Contents(data, head, Round(tail + 1, |data|)) == Contents(data, head, tail)
  {
  }

  // The cell at head is not part of the queue.
  lemma StoreContents(data: seq<bv8>, head: nat, tail: nat, b: bv8)
    requires head < |data| && tail < |data|
    ensures Contents(data[head := b], head, tail) == Contents(data, head, tail)
  {
  }

  lemma FateAppend(fates: seq<Fate>, f: Fate)
    ensures Kept(fates + [f]) == Kept(fates) + (if f.kept then [f.byte] else [])
    ensures Bytes(fates + [f]) == Bytes(fates) + [f.byte]
    ensures Lost(fates + [f]) <==> Lost(fates) || !f.kept
  {
    assert (fates + [f])[..|fates|] == fates;
    if Lost(fates) {
      var i :| 0 <= i < |fates| && !fates[i].kept;
      assert !(fates + [f])[i].kept;
    }
    if !f.kept {
      assert !(fates + [f])[|fates|].kept;
    }
  }

  // ----- Every statement keeps the invariant -----

  lemma LoopKeepsInv(r: Ring)
    requires Inv(r) && (r.writer.Loop? || r.writer.Flag?)
    ensures Inv(WriterNext(r))
  {
    hide IsPow2, Lost, Contents, Kept, Bytes, BufNext;
    PowerStepsRound(|r.data|, r.head);
  }

  lemma CompareKeepsInv(r: Ring)
    requires Inv(r) && r.writer.Compare?
    ensures Inv(WriterNext(r))
  {
    hide IsPow2, Contents, Kept, Bytes, Lost, BufNext;
    var rest := r.writer.rest;
    FullExact(r.head, r.tail, |r.data|);
    FateAppend(r.fates, Fate(rest[0], false));
    Regroup(Bytes(r.fates), rest);
  }

  lemma StoreKeepsInv(r: Ring)
    requires Inv(r) && r.writer.Store?
    ensures Inv(WriterNext(r))
  {
    hide IsPow2, Contents, Kept, Bytes, Lost, BufNext;
    StoreContents(r.data, r.head, r.tail, r.writer.rest[0]);
    FullExact(r.head, r.tail, |r.data|);
  }

  lemma PublishKeepsInv(r: Ring)
    requires Inv(r) && r.writer.Publish?
    ensures Inv(WriterNext(r))
  {
    hide IsPow2, Contents, Kept, Bytes, Lost, BufNext;
    var rest := r.writer.rest;
    PushContents(r.data, r.head, r.tail);
    FateAppend(r.fates, Fate(rest[0], true));
    Regroup(Bytes(r.fates), rest);
    assert r.taken + (Queue(r) + [rest[0]]) == (r.taken + Queue(r)) + [rest[0]];
  }

  lemma Regroup(x: seq<bv8>, rest: seq<bv8>)
    requires rest != []
    ensures x + rest == (x + [rest[0]]) + rest[1..]
  {
    assert rest == [rest[0]] + rest[1..];
    assert x + ([rest[0]] + rest[1..]) == (x + [rest[0]]) + rest[1..];
  }

  lemma AdvanceKeepsInv(r: Ring)
    requires Inv(r) && r.reader.Holding?
    ensures Inv(Next(r, Advance))
  {
    hide IsPow2, Contents, Kept, Bytes, Lost, BufNext;
    FullExact(r.head, r.tail, |r.data|);
    PowerStepsRound(|r.data|, r.tail);
    PopContents(r.data, r.head, r.tail);
    var b := r.data[r.tail];
    var after := Contents(r.data, r.head, Round(r.tail + 1, |r.data|));
    MoveOver(r.taken, b, after);
  }

  lemma MoveOver(x: seq<bv8>, b: bv8, y: seq<bv8>)
    ensures x + ([b] + y) == (x + [b]) + y
  {
  }

  lemma InputKeepsInv(r: Ring, bytes: seq<bv8>)
    requires Inv(r) && r.writer.Away?
    ensures Inv(Next(r, Input(bytes)))
  {
    hide IsPow2, Contents, Kept, Bytes, Lost, BufNext;
    assert r.offered == Bytes(r.fates);
  }

  lemma TakeKeepsInv(r: Ring)
    requires Inv(r) && Enabled(r, Take)
    ensures Inv(Next(r, Take))
  {
    hide IsPow2, Kept, Bytes, Lost, BufNext;
    FullExact(r.head, r.tail, |r.data|);
  }

  lemma NextKeepsInv(r: Ring, e: Event)
    requires Inv(r) && Enabled(r, e)
    ensures Inv(Next(r, e))
  {
    match e
    case Input(bytes) => InputKeepsInv(r, bytes);
    case Take => TakeKeepsInv(r);
    case Advance => AdvanceKeepsInv(r);
    case WriterStep =>
      match r.writer {
        case Loop(_) => LoopKeepsInv(r);
        case Flag(_) => LoopKeepsInv(r);
        case Compare(_, _) => CompareKeepsInv(r);
        case Store(_, _) => StoreKeepsInv(r);
        case Publish(_, _) => PublishKeepsInv(r);
      }
  }

  // A byte is dropped exactly when it finds size - 1 bytes in the queue, and kept bytes
  // never exceed that.
  lemma DropExact(r: Ring)
    requires Inv(r) && r.writer.Compare?
    ensures |Queue(r)| <= |r.data| - 1
    ensures WriterNext(r).fates == r.fates + [Fate(r.writer.rest[0], false)] <==> |Queue(r)| == |r.data| - 1
    ensures WriterNext(r).writer == Store(r.writer.rest, r.writer.next) <==> |Queue(r)| < |r.data| - 1
  {
    FullExact(r.head, r.tail, |r.data|);
  }

  // ----- Whole runs -----

  predicate Legal(r: Ring, events: seq<Event>)
    requires WellFormed(r)
    decreases events
  {
    events == [] ||
    (Enabled(r, events[0]) && WellFormed(Next(r, events[0])) && Legal(Next(r, events[0]), events[1..]))
  }

  function Run(r: Ring, events: seq<Event>): (result: Ring)
    requires WellFormed(r) && Legal(r, events)
    decreases events
  {
    if events == [] then r else Run(Next(r, events[0]), events[1..])
  }

  function Empty(data: seq<bv8>): (r: Ring) {
    Ring(data, 0, 0, false, Away, Ready, [], [], [])
  }

  lemma {:induction false} RunKeepsInv(r: Ring, events: seq<Event>)
    requires Inv(r) && Legal(r, events)
    ensures Inv(Run(r, events))
    decreases events
  {
    if events != [] {
      NextKeepsInv(r, events[0]);
      RunKeepsInv(Next(r, events[0]), events[1..]);
    }
  }

  // Over every interleaving of the interrupt with the reader: the reader has taken, and
  // the ring holds, exactly the kept bytes in the order they were offered; at most
  // size - 1 are held, as many as BUFCOUNT says; and between calls `overflow` is set if
  // and only if some byte was dropped.
  lemma RingIsFifo(data: seq<bv8>, events: seq<Event>)
    requires |data| >= 1 && IsPow2(|data|) && Legal(Empty(data), events)
    ensures var r := Run(Empty(data), events);
            && WellFormed(r)
            && r.taken + Queue(r) == Kept(r.fates)
            && r.offered == Bytes(r.fates) + Undecided(r.writer)
            && |Queue(r)| == BufCount(r.head, r.tail, |r.data|) <= |r.data| - 1
            && (r.writer.Away? ==> (r.overflow <==> Lost(r.fates)))
  {
    assert Inv(Empty(data));
    RunKeepsInv(Empty(data), events);
  }

  // ----- The same code as a method, run without interruption -----

  class RxBuffer {
    var head: nat
    var tail: nat
    var overflow: bool
    const data: array<bv8>

    ghost predicate Valid()
      reads this, data
    {
      data.Length >= 1 && IsPow2(data.Length) && head < data.Length && tail < data.Length
    }

    ghost function Held(): (r: seq<bv8>)
      reads this, data
      requires Valid()
    {
      Contents(data[..], head, tail)
    }

    constructor (size: nat)
      requires size >= 1 && IsPow2(size)
      ensures Valid() && fresh(data) && data.Length == size && Held() == [] && !overflow
    {
      head, tail, overflow := 0, 0, false;
      data := new bv8[size](_ => 0);
    }

    // One pass of the loop.
    method Offer(b: bv8)
      requires Valid()
      modifies `head, `overflow, data
      ensures Valid()
      ensures |old(Held())| <= data.Length - 1
      ensures Held() == old(Held()) + (if |old(Held())| < data.Length - 1 then [b] else [])
      ensures overflow == (old(overflow) || |old(Held())| == data.Length - 1)
    {
      hide IsPow2, BufNext, Contents;
      PowerStepsRound(data.Length, head);
      FullExact(head, tail, data.Length);
      var nextHead := BufNext(head, data.Length);
      if nextHead == tail {
        overflow := true;
      } else {
        StoreContents(data[..], head, tail, b);
        ghost var stored := data[..][head := b];
        PushContents(stored, head, tail);
        data[head] := b;
        assert data[..] == stored;
        head := nextHead;
      }
    }

    // Keeps the longest prefix of the input that fits in size - 1 bytes, and flags the rest.
    method UsbBufferInput(input: seq<bv8>)
      requires Valid()
      modifies `head, `overflow, data
      ensures Valid()
      ensures var free := data.Length - 1 - |old(Held())|;
              && free >= 0
              && Held() == old(Held()) + (if |input| <= free then input else input[..free])
              && overflow == (old(overflow) || |input| > free)
    {
      hide IsPow2, Contents;
      ghost var before := Held();
      FullExact(head, tail, data.Length);
      ghost var free := data.Length - 1 - |before|;
      hide BufCount, Round;
      var i := 0;
      assert before + input[..0] == before;
      while i < |input|
        invariant i <= |input| && Valid()
        invariant Held() == before + Fitting(input[..i], free)
        invariant overflow == (old(overflow) || i > free)
      {
        FitOne(before, input, i, free);
        Offer(input[i]);
        i := i + 1;
      }
      assert input[..|input|] == input;
    }
  }

  function Fitting(s: seq<bv8>, free: nat): (r: seq<bv8>)
    ensures |r| == if |s| <= free then |s| else free
  {
    if |s| <= free then s else s[..free]
  }

  lemma FitOne(x: seq<bv8>, input: seq<bv8>, i: nat, free: nat)
    requires i < |input|
    ensures x + Fitting(input[..i + 1], free)
            == (x + Fitting(input[..i], free)) + (if i < free then [input[i]] else [])
  {
    var more := if i < free then [input[i]] else [];
    assert input[..i + 1] == input[..i] + [input[i]];
    if i >= free {
      assert input[..i + 1][..free] == input[..i][..free] == input[..free];
    }
    assert Fitting(input[..i + 1], free) == Fitting(input[..i], free) + more;
    assert x + (Fitting(input[..i], free) + more) == (x + Fitting(input[..i], free)) + more;
  }
}
