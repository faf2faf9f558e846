// The one-slot channel: the socket branches of the read and write system calls, the sync requests
// 216 and 217, and sys_sleep_if_socket_is_empty. Each call is one step.
module SocketChannel {
  import opened Bytes
  import opened FileStream

  const FALSE: int := 0
  const TRUE: int := 1

  // How a call ends: it returns, or it panics: reading an empty socket that is set to block,
  // or reaching the end of a socket branch.
  datatype End = Returns | BlockedPanic | UnexpectedPanic

  datatype Answer = Answer(end: End, n: int, after: FileState, bytes: seq<byte>)

  // ---------------------------------------------------------------- one step

  // __read_imp on a socket
  function SocketRead(s: FileState, count: int, block: bool): Answer
    requires Readable(s)
  {
    if count < 0 then Answer(Returns, -EINVAL, s, [])
    else if count == 0 then Answer(Returns, 0, s, [])
    else if !s.canRead || s.flags & SRD == 0 then Answer(Returns, -1, s, [])
    else if s.full == FALSE then
      Answer(if block then BlockedPanic else Returns, -1, s.(flags := SWR), [])
    else if s.full == TRUE then
      var result := ReadBuffer(s, count);
      if result.n <= 0 then Answer(Returns, -1, result.after, [])
      else Answer(Returns, result.n, result.after.(full := FALSE, flags := (result.after.flags & !SRD) | SWR), result.bytes)
    else Answer(UnexpectedPanic, -1, s, [])
  }

  // __write_imp on a socket
  function SocketWrite(s: FileState, bytes: seq<byte>): Answer
    requires WriteFits(s, |bytes|) && s.lbfsize <= |s.data|
  {
    if |bytes| == 0 then Answer(Returns, 0, s, [])
    else if !s.canWrite || 0 <= s.slot <= 2 || s.flags & SWR == 0 then Answer(Returns, -1, s, [])
    else if s.full == TRUE then Answer(Returns, -1, s.(flags := SRD), [])
    else if s.full == FALSE then
      var result := WriteBuffer(s.(flags := 0), bytes, |bytes|);
      if result.n <= 0 then Answer(Returns, -1, result.after, [])
      else Answer(Returns, result.n, result.after.(full := TRUE, flags := (result.after.flags & !SWR) | SRD), [])
    else Answer(UnexpectedPanic, -1, s, [])
  }

  // sys_sleep_if_socket_is_empty
  function SleepIfEmpty(s: FileState): Answer {
    if !s.live || s.kind != Socket then Answer(Returns, -1, s, [])
    else if s.full == FALSE then Answer(Returns, FALSE, s.(flags := s.flags | SWR), [])
    else if s.full == TRUE then Answer(Returns, TRUE, s.(flags := s.flags | SRD), [])
    else Answer(Returns, -1, s, [])
  }

  datatype Call =
    | ReadCall(count: int)
    | WriteCall(bytes: seq<byte>)
    | Reset216
    | Reset217
    | Sleep

  // The channel invariant: a full buffer can only be read.
  ghost predicate ChannelInv(s: FileState) {
    && s.kind == Socket
    && BUFSIZ <= |s.data| && s.lbfsize <= |s.data| && s.w <= |s.data|
    && (s.full == FALSE || s.full == TRUE)
    && (s.full == TRUE ==> s.flags == SRD)
  }

  function Step(s: FileState, call: Call, block: bool): Answer
    requires ChannelInv(s)
  {
    match call
    case ReadCall(count) => SocketRead(s, count, block)
    case WriteCall(bytes) => SocketWrite(s, bytes)
    case Reset216 => Answer(Returns, 0, FileStream.Reset216(s), [])
    case Reset217 => Answer(Returns, 0, s.(flags := SRD), [])
    case Sleep => SleepIfEmpty(s)
  }

  // ---------------------------------------------------------------- the calls

  method ReadSocket(f: File, buffer: array<byte>, count: int, block: bool) returns (n: int, end: End)
    requires f.kind == Socket && Readable(f.S()) && buffer != f.base && ReadBuffer(f.S(), count).n <= buffer.Length
    modifies f, buffer
    ensures old(SocketRead(f.S(), count, block)) == Answer(end, n, f.S(), old(SocketRead(f.S(), count, block)).bytes)
    ensures n > 0 ==> buffer[..n] == old(SocketRead(f.S(), count, block)).bytes && buffer[n..] == old(buffer[..])[n..]
    ensures n <= 0 ==> buffer[..] == old(buffer[..])
  {
    n, end := -1, Returns;
    if count < 0 {
      n := -EINVAL;
    } else if count == 0 {
      n := 0;
    } else if !f.canRead || f.flags & SRD == 0 {
    } else if f.full == FALSE {
      f.flags := 0;
      f.flags := f.flags | SWR;
      if block {
        end := BlockedPanic;
      }
    } else if f.full == TRUE {
      var m := f.FileReadBuffer(buffer, count);
      if m > 0 {
        f.full := FALSE;
        f.flags := f.flags & !SRD;
        f.flags := f.flags | SWR;
        n := m;
      }
    } else {
      end := UnexpectedPanic;
    }
  }

  method WriteSocket(f: File, bytes: seq<byte>) returns (n: int, end: End)
    requires f.kind == Socket && WriteFits(f.S(), |bytes|) && f.lbfsize <= f.base.Length
    modifies f, f.base
    ensures old(SocketWrite(f.S(), bytes)) == Answer(end, n, f.S(), [])
  {
    n, end := -1, Returns;
    if |bytes| == 0 {
      n := 0;
    } else if !f.canWrite || 0 <= f.slot <= 2 || f.flags & SWR == 0 {
    } else if f.full == TRUE {
      f.flags := 0;
      f.flags := f.flags | SRD;
    } else if f.full == FALSE {
      f.flags := 0;
      var m := f.FileWriteBuffer(bytes, |bytes|);
      if m > 0 {
        f.full := TRUE;
        f.flags := f.flags & !SWR;
        f.flags := f.flags | SRD;
        n := m;
      }
    } else {
      end := UnexpectedPanic;
    }
  }

  method SleepIfSocketIsEmpty(f: File) returns (n: int)
    modifies f
    ensures n == old(SleepIfEmpty(f.S())).n && f.S() == old(SleepIfEmpty(f.S())).after
  {
    if !f.live || f.kind != Socket {
      n := -1;
    } else if f.full == FALSE {
      f.Allow(SWR);
      n := FALSE;
    } else if f.full == TRUE {
      f.Allow(SRD);
      n := TRUE;
    } else {
      n := -1;
    }
  }

  // ---------------------------------------------------------------- the invariant

  lemma FlagArithmetic(flags: bv16)
    ensures SRD & SWR == 0 && SRD & SRD != 0 && SWR & SRD == 0
    ensures ((SRD | SWR) & !SRD) | SWR == SWR && (0 & !SWR) | SRD == SRD && SRD | SRD == SRD
  {
  }

  lemma ReadKeepsInvariant(s: FileState, count: int, block: bool)
    requires ChannelInv(s)
    ensures var a := SocketRead(s, count, block);
            && ChannelInv(a.after) && a.end != UnexpectedPanic
            && (a.end == BlockedPanic <==> count > 0 && s.canRead && s.flags & SRD != 0 && s.full == FALSE && block)
  {
    FlagArithmetic(s.flags);
  }

  lemma WriteKeepsInvariant(s: FileState, bytes: seq<byte>)
    requires ChannelInv(s)
    ensures ChannelInv(SocketWrite(s, bytes).after) && SocketWrite(s, bytes).end == Returns
  {
    FlagArithmetic(s.flags);
  }

  // The invariant holds after every step; no step reaches the end of a socket branch;
  // a step panics exactly when a blocking reader meets an empty buffer it may read.
  lemma StepKeepsInvariant(s: FileState, call: Call, block: bool)
    requires ChannelInv(s)
    ensures Step(s, call, block).end != UnexpectedPanic
    ensures ChannelInv(Step(s, call, block).after)
    ensures Step(s, call, block).end == BlockedPanic <==>
              call.ReadCall? && call.count > 0 && s.canRead && s.flags & SRD != 0 && s.full == FALSE && block
  {
    hide SocketRead, SocketWrite;
    FlagArithmetic(s.flags);
    match call
    case ReadCall(count) => ReadKeepsInvariant(s, count, block);
    case WriteCall(bytes) => WriteKeepsInvariant(s, bytes);
    case Reset216 =>
    case Reset217 =>
    case Sleep =>
  }

  // ---------------------------------------------------------------- messages

  // What a step means to the two ends.
  datatype Event = Accept(message: seq<byte>) | Deliver(bytes: seq<byte>) | Discard | Idle

  function EventOf(call: Call, a: Answer): Event {
    match call
    case ReadCall(count) => if a.n > 0 then Deliver(a.bytes) else Idle
    case WriteCall(bytes) => if a.n > 0 then Accept(bytes) else Idle
    case Reset216 => Discard
    case Reset217 => Idle
    case Sleep => Idle
  }

  // A channel with room for one message.
  datatype Slot = Vacant | Holds(message: seq<byte>)

  // Bytes read for a message: they agree with it as far as both go.
  ghost predicate Agree(bytes: seq<byte>, message: seq<byte>) {
    forall i :: 0 <= i < |bytes| && i < |message| ==> bytes[i] == message[i]
  }

  ghost predicate Legal(slot: Slot, e: Event) {
    match e
    case Accept(m) => slot.Vacant?
    case Deliver(b) => slot.Holds? && Agree(b, slot.message)
    case Discard => true
    case Idle => true
  }

  function Next(slot: Slot, e: Event): Slot {
    match e
    case Accept(m) => Holds(m)
    case Deliver(b) => Vacant
    case Discard => Vacant
    case Idle => slot
  }

  // The buffer implements the slot.
  ghost predicate Implements(s: FileState, slot: Slot) {
    && (s.full == TRUE <==> slot.Holds?)
    && (slot.Holds? ==> |slot.message| <= |s.data| && slot.message == s.data[..|slot.message|])
  }

  lemma ReadImplements(s: FileState, slot: Slot, count: int, block: bool)
    requires ChannelInv(s) && Implements(s, slot) && SocketRead(s, count, block).end == Returns
    ensures var a := SocketRead(s, count, block);
            && (a.n > 0 ==> slot.Holds? && Agree(a.bytes, slot.message) && a.after.full == FALSE)
            && (a.n <= 0 ==> Implements(a.after, slot))
  {
  }

  lemma WriteImplements(s: FileState, slot: Slot, bytes: seq<byte>)
    requires ChannelInv(s) && Implements(s, slot)
    ensures var a := SocketWrite(s, bytes);
            && a.end == Returns
            && (a.n > 0 ==> slot.Vacant? && Implements(a.after, Holds(bytes)))
            && (a.n <= 0 ==> Implements(a.after, slot))
  {
    FlagArithmetic(s.flags);
    if 0 < |bytes| < BUFSIZ {
      assert Patch(s.data, 0, bytes[..|bytes|])[..|bytes|] == bytes;
    }
  }

  // Each step of the socket is a legal step of the one-slot channel.
  lemma StepRefinesSlot(s: FileState, slot: Slot, call: Call, block: bool)
    requires ChannelInv(s) && Implements(s, slot) && Step(s, call, block).end == Returns
    ensures Legal(slot, EventOf(call, Step(s, call, block)))
    ensures Implements(Step(s, call, block).after, Next(slot, EventOf(call, Step(s, call, block))))
  {
    hide SocketRead, SocketWrite;
    match call
    case ReadCall(count) => ReadImplements(s, slot, count, block);
    case WriteCall(bytes) => WriteImplements(s, slot, bytes);
    case Reset216 =>
    case Reset217 =>
    case Sleep =>
  }

  // The events of a run; a panic ends it.
  function Events(s: FileState, calls: seq<Call>, block: bool): seq<Event>
    requires ChannelInv(s)
    decreases |calls|
  {
    if calls == [] then []
    else
      var a := Step(s, calls[0], block);
      StepKeepsInvariant(s, calls[0], block);
      if a.end == Returns then [EventOf(calls[0], a)] + Events(a.after, calls[1..], block) else []
  }

  ghost predicate LegalRun(slot: Slot, events: seq<Event>)
    decreases |events|
  {
    events == [] || (Legal(slot, events[0]) && LegalRun(Next(slot, events[0]), events[1..]))
  }

  lemma {:induction false} EveryRunIsLegal(s: FileState, slot: Slot, calls: seq<Call>, block: bool)
    requires ChannelInv(s) && Implements(s, slot)
    ensures LegalRun(slot, Events(s, calls, block))
    decreases |calls|
  {
    if calls != [] {
      var a := Step(s, calls[0], block);
      StepKeepsInvariant(s, calls[0], block);
      if a.end == Returns {
        StepRefinesSlot(s, slot, calls[0], block);
        EveryRunIsLegal(a.after, Next(slot, EventOf(calls[0], a)), calls[1..], block);
        var events := Events(s, calls, block);
        assert events[1..] == Events(a.after, calls[1..], block);
      }
    }
  }

  // The file object of a socket that has just been created.
  function NewSocket(slot: int, data: seq<byte>): FileState {
    FileState(Socket, true, slot, 0, 0, BUFSIZ, 0, BUFSIZ, SWR, true, true, FALSE, data)
  }

  // So every run on a created socket is a run of the one-slot channel, starting with the slot vacant.
  lemma NewSocketRuns(slot: int, data: seq<byte>, calls: seq<Call>, block: bool)
    requires |data| == BUFSIZ
    ensures ChannelInv(NewSocket(slot, data))
    ensures LegalRun(Vacant, Events(NewSocket(slot, data), calls, block))
  {
    EveryRunIsLegal(NewSocket(slot, data), Vacant, calls, block);
  }

  // The blocking panic does happen: a reader that request 217 allows to read a new socket.
  lemma BlockingReaderPanics(slot: int, data: seq<byte>)
    requires |data| == BUFSIZ
    ensures ChannelInv(NewSocket(slot, data))
    ensures var allowed := Step(NewSocket(slot, data), Reset217, true);
            && allowed.end == Returns && ChannelInv(allowed.after)
            && Step(allowed.after, ReadCall(1), true).end == BlockedPanic
  {
    FlagArithmetic(0);
  }

  // Without blocking readers no call panics: the run has one event per call.
  lemma {:induction false} NonBlockingRunsToTheEnd(s: FileState, calls: seq<Call>)
    requires ChannelInv(s)
    ensures |Events(s, calls, false)| == |calls|
    decreases |calls|
  {
    if calls != [] {
      StepKeepsInvariant(s, calls[0], false);
      NonBlockingRunsToTheEnd(Step(s, calls[0], false).after, calls[1..]);
    }
  }

  // ---------------------------------------------------------------- what legal runs guarantee

  predicate Empties(e: Event) {
    e.Deliver? || e.Discard?
  }

  // An accepted message is never overwritten: before the next one is accepted, it is read or discarded.
  lemma {:induction false} NoOverwrite(slot: Slot, events: seq<Event>, i: nat, j: nat)
    requires LegalRun(slot, events) && i < j < |events| && events[i].Accept? && events[j].Accept?
    ensures exists k :: i < k < j && Empties(events[k])
    decreases |events|
  {
    if i > 0 {
      NoOverwrite(Next(slot, events[0]), events[1..], i - 1, j - 1);
      var k :| i - 1 < k < j - 1 && Empties(events[1..][k]);
      assert Empties(events[k + 1]);
    } else {
      var k := Emptied(Next(slot, events[0]), events[1..], j - 1);
      assert Empties(events[k + 1]);
    }
  }

  // While a message is held, nothing is accepted until it is read or discarded.
  lemma {:induction false} Emptied(slot: Slot, events: seq<Event>, j: nat) returns (k: nat)
    requires LegalRun(slot, events) && slot.Holds? && j < |events| && events[j].Accept?
    ensures k < j && Empties(events[k])
    decreases |events|
  {
    if Empties(events[0]) {
      k := 0;
    } else {
      k := Emptied(Next(slot, events[0]), events[1..], j - 1);
      k := k + 1;
    }
  }

  // Each delivery belongs to one accepted message, agrees with it, and nothing happened in between:
  // so no message is read twice.
  lemma {:induction false} DeliveryHasMessage(slot: Slot, events: seq<Event>, j: nat) returns (i: int)
    requires LegalRun(slot, events) && j < |events| && events[j].Deliver?
    ensures -1 <= i < j && (forall k :: i < k < j ==> events[k].Idle?)
    ensures i >= 0 ==> events[i].Accept? && Agree(events[j].bytes, events[i].message)
    ensures i == -1 ==> slot.Holds? && Agree(events[j].bytes, slot.message)
    decreases |events|
  {
    if j == 0 {
      i := -1;
    } else {
      i := DeliveryHasMessage(Next(slot, events[0]), events[1..], j - 1);
      forall k | i + 1 < k < j
        ensures events[k].Idle?
      {
        assert events[k] == events[1..][k - 1];
      }
      if i >= 0 {
        i := i + 1;
      } else {
        i := if events[0].Accept? then 0 else -1;
      }
    }
  }

  function Messages(events: seq<Event>): seq<seq<byte>>
    decreases |events|
  {
    if events == [] then []
    else (if events[0].Accept? then [events[0].message] else []) + Messages(events[1..])
  }

  function Deliveries(events: seq<Event>): seq<seq<byte>>
    decreases |events|
  {
    if events == [] then []
    else (if events[0].Deliver? then [events[0].bytes] else []) + Deliveries(events[1..])
  }

  // Without discards, the deliveries are the messages, in order, and at most one is outstanding.
  lemma {:induction false} InOrder(slot: Slot, events: seq<Event>)
    requires LegalRun(slot, events) && forall i :: 0 <= i < |events| ==> events[i] != Discard
    ensures var sent := (if slot.Holds? then [slot.message] else []) + Messages(events);
            var got := Deliveries(events);
            && |got| <= |sent| <= |got| + 1
            && forall i :: 0 <= i < |got| ==> Agree(got[i], sent[i])
    decreases |events|
  {
    if events != [] {
      InOrder(Next(slot, events[0]), events[1..]);
      var sent := (if slot.Holds? then [slot.message] else []) + Messages(events);
      var got := Deliveries(events);
      var sent' := (if Next(slot, events[0]).Holds? then [Next(slot, events[0]).message] else []) + Messages(events[1..]);
      var got' := Deliveries(events[1..]);
      if events[0].Deliver? {
        assert sent == [slot.message] + sent' && got == [events[0].bytes] + got';
      } else {
        assert sent == sent' && got == got';
      }
    }
  }
}
