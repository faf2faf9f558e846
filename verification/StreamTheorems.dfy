// What every run of reads and writes on a buffered file keeps.
module StreamTheorems {
  import opened Bytes
  import opened FileStream

  // ---------------------------------------------------------------- bounds

  // Every operation that moves the offsets; 216 and 217 are requests of sys_set_file_sync.
  datatype Op =
    | BufferRead(count: int)
    | BufferWrite(bytes: seq<byte>)
    | SysRead(count: int)
    | SysWrite(bytes: seq<byte>)
    | Request216
    | Request217
    | SeekClear

  // The offsets allow every copy: none of them leaves the buffer.
  lemma CopiesStayInside(s: FileState, len: int)
    requires InBounds(s) && Streamed(s.kind)
    ensures Readable(s) && WriteFits(s, len)
  {
  }

  function Apply(s: FileState, op: Op): FileState
    requires InBounds(s) && Streamed(s.kind)
  {
    match op
    case BufferRead(count) => ReadBuffer(s, count).after
    case BufferWrite(bytes) => WriteBuffer(s, bytes, |bytes|).after
    case SysRead(count) => ReadCall(s, count).after
    case SysWrite(bytes) => WriteCall(s, bytes).after
    case Request216 => Reset216(s)
    case Request217 => s.(flags := SRD)
    case SeekClear => Cleared(s)
  }

  lemma ReadKeepsBounds(s: FileState, count: int)
    requires InBounds(s) && Streamed(s.kind)
    ensures InBounds(ReadBuffer(s, count).after) && ReadBuffer(s, count).after.kind == s.kind
  {
  }

  lemma ClippedKeepsBounds(s: FileState, bytes: seq<byte>, len: int)
    requires InBounds(s) && len <= |bytes| && |bytes| < BUFSIZ
    ensures InBounds(ClippedWrite(s, bytes, len).after) && ClippedWrite(s, bytes, len).after.kind == s.kind
  {
  }

  lemma WriteKeepsBounds(s: FileState, bytes: seq<byte>)
    requires InBounds(s) && Streamed(s.kind)
    ensures InBounds(WriteBuffer(s, bytes, |bytes|).after) && WriteBuffer(s, bytes, |bytes|).after.kind == s.kind
  {
    hide ClippedWrite;
    if |bytes| < BUFSIZ {
      ClippedKeepsBounds(s, bytes, |bytes|);
    }
  }

  lemma ApplyKeepsBounds(s: FileState, op: Op)
    requires InBounds(s) && Streamed(s.kind)
    ensures InBounds(Apply(s, op)) && Apply(s, op).kind == s.kind
  {
    hide ReadBuffer, WriteBuffer;
    match op
    case BufferRead(count) => ReadKeepsBounds(s, count);
    case BufferWrite(bytes) => WriteKeepsBounds(s, bytes);
    case SysRead(count) => ReadKeepsBounds(s, count);
    case SysWrite(bytes) => WriteKeepsBounds(s, bytes);
    case Request216 =>
    case Request217 =>
    case SeekClear =>
  }

  // Bounds hold after every run, so no step of a run copies outside the buffer.
  function RunOps(s: FileState, ops: seq<Op>): (t: FileState)
    requires InBounds(s) && Streamed(s.kind)
    ensures InBounds(t) && t.kind == s.kind
    decreases |ops|
  {
    if ops == [] then s
    else
      var before := RunOps(s, ops[..|ops| - 1]);
      ApplyKeepsBounds(before, ops[|ops| - 1]);
      Apply(before, ops[|ops| - 1])
  }

  // ---------------------------------------------------------------- the stream

  // Offsets that account for the whole buffer.
  ghost predicate Settled(s: FileState) {
    InBounds(s) && s.live && Streamed(s.kind) && s.w + s.cnt == BUFSIZ
  }

  // What has been written and not yet read.
  function Pending(s: FileState): seq<byte>
    requires 0 <= s.r <= s.w <= |s.data|
  {
    s.data[s.r..s.w]
  }

  // The bytes a step hands out, and those it takes in.
  function Delivered(s: FileState, op: Op): seq<byte>
    requires Settled(s)
  {
    match op
    case BufferRead(count) => ReadBuffer(s, count).bytes
    case SysRead(count) => ReadCall(s, count).bytes
    case _ => []
  }

  function Accepted(s: FileState, op: Op): seq<byte>
    requires Settled(s)
  {
    match op
    case BufferWrite(bytes) =>
      var n := WriteBuffer(s, bytes, |bytes|).n;
      if 0 < n <= |bytes| then bytes[..n] else []
    case SysWrite(bytes) =>
      var n := WriteCall(s, bytes).n;
      if 0 < n <= |bytes| then bytes[..n] else []
    case _ => []
  }

  predicate IsTransfer(op: Op) {
    op.BufferRead? || op.BufferWrite? || op.SysRead? || op.SysWrite?
  }

  lemma ReadIsStreamed(s: FileState, count: int)
    requires Settled(s) && 1 <= count <= BUFSIZ
    ensures ReadBuffer(s, count) == StreamedRead(s, count)
  {
    hide StreamedRead;
  }

  // A read returns as much as is pending and asked for; the object stays settled.
  lemma ReadAmount(s: FileState, count: int)
    requires Settled(s) && 1 <= count <= BUFSIZ
    ensures var n := if count > s.w - s.r then s.w - s.r else count;
            && ReadBuffer(s, count).n == n
            && ReadBuffer(s, count).bytes == Pending(s)[..n]
            && ReadBuffer(s, count).after.r == s.r + n
  {
    hide ReadBuffer;
    ReadIsStreamed(s, count);
    var n := if count > s.w - s.r then s.w - s.r else count;
    assert Pending(s)[..n] == s.data[s.r..s.r + n];
  }

  // A write accepts the longest prefix that fits, and nothing at all from BUFSIZ bytes on.
  lemma WriteAmount(s: FileState, bytes: seq<byte>)
    requires Settled(s)
    ensures WriteBuffer(s, bytes, |bytes|).n == (
              if |bytes| >= BUFSIZ || s.w >= BUFSIZ then EOF
              else if |bytes| > BUFSIZ - s.w then BUFSIZ - s.w
              else |bytes|)
    ensures WriteBuffer(s, bytes, |bytes|).n > 0
        ==> Pending(WriteBuffer(s, bytes, |bytes|).after) == Pending(s) + bytes[..WriteBuffer(s, bytes, |bytes|).n]
  {
    var result := WriteBuffer(s, bytes, |bytes|);
    if result.n > 0 {
      AppendPending(s, bytes[..result.n]);
    }
  }

  lemma AppendPending(s: FileState, bytes: seq<byte>)
    requires InBounds(s) && |bytes| <= s.cnt
    ensures Pending(Appended(s, bytes).after) == Pending(s) + bytes
  {
  }

  // What a transfer hands out plus what is then pending is what was pending plus what it took in.
  ghost predicate Conserves(s: FileState, op: Op)
    requires Settled(s)
  {
    Settled(Apply(s, op)) && Delivered(s, op) + Pending(Apply(s, op)) == Pending(s) + Accepted(s, op)
  }

  lemma BufferReadConserves(s: FileState, count: int)
    requires Settled(s)
    ensures Conserves(s, BufferRead(count))
  {
    hide ReadBuffer;
    ReadConserves(s, count);
    assert Pending(s) + [] == Pending(s);
  }

  lemma SysReadConserves(s: FileState, count: int)
    requires Settled(s)
    ensures Conserves(s, SysRead(count))
  {
    hide ReadBuffer;
    ReadConserves(s, count);
    assert Pending(s) + [] == Pending(s) == [] + Pending(s);
  }

  lemma BufferWriteConserves(s: FileState, bytes: seq<byte>)
    requires Settled(s)
    ensures Conserves(s, BufferWrite(bytes))
  {
    hide WriteBuffer;
    WriteConserves(s, bytes);
    assert Pending(s) + [] == Pending(s);
    var after := Apply(s, BufferWrite(bytes));
    assert [] + Pending(after) == Pending(after);
  }

  lemma SysWriteConserves(s: FileState, bytes: seq<byte>)
    requires Settled(s)
    ensures Conserves(s, SysWrite(bytes))
  {
    hide WriteBuffer;
    WriteConserves(s, bytes);
    assert Pending(s) + [] == Pending(s);
    var after := Apply(s, SysWrite(bytes));
    assert [] + Pending(after) == Pending(after);
  }

  lemma TransferConserves(s: FileState, op: Op)
    requires Settled(s) && IsTransfer(op)
    ensures Conserves(s, op)
  {
    hide Conserves;
    match op
    case BufferRead(count) => BufferReadConserves(s, count);
    case SysRead(count) => SysReadConserves(s, count);
    case BufferWrite(bytes) => BufferWriteConserves(s, bytes);
    case SysWrite(bytes) => SysWriteConserves(s, bytes);
  }

  // With room left, as much as fits is appended.
  lemma ClippedConserves(s: FileState, bytes: seq<byte>)
    requires Settled(s) && |bytes| < BUFSIZ && s.w < BUFSIZ
    ensures var result := ClippedWrite(s, bytes, |bytes|);
            && Settled(result.after) && 0 <= result.n <= |bytes|
            && Pending(result.after) == Pending(s) + bytes[..result.n]
  {
    AppendPending(s, bytes[..if |bytes| > s.cnt then s.cnt else |bytes|]);
  }

  lemma WriteConserves(s: FileState, bytes: seq<byte>)
    requires Settled(s)
    ensures var result := WriteBuffer(s, bytes, |bytes|);
            && Settled(result.after) && result.n <= |bytes|
            && (result.n > 0 ==> Pending(result.after) == Pending(s) + bytes[..result.n])
            && (result.n <= 0 ==> Pending(result.after) == Pending(s))
  {
    hide ClippedWrite;
    if |bytes| < BUFSIZ && s.w < BUFSIZ {
      ClippedConserves(s, bytes);
    }
  }

  lemma ReadConserves(s: FileState, count: int)
    requires Settled(s)
    ensures var result := ReadBuffer(s, count);
            && Settled(result.after)
            && result.bytes + Pending(result.after) == Pending(s)
            && (result.n <= 0 ==> result.bytes == [] && result.after == s)
  {
    var c := count % 0x1_0000;
    if 1 <= c <= BUFSIZ {
      StreamedConserves(s, c);
    }
    hide StreamedRead;
  }

  lemma StreamedConserves(s: FileState, count: int)
    requires Settled(s) && 1 <= count <= BUFSIZ
    ensures var result := StreamedRead(s, count);
            && Settled(result.after)
            && result.bytes + Pending(result.after) == Pending(s)
            && (result.n <= 0 ==> result.bytes == [] && result.after == s)
  {
    var n := if count > s.w - s.r then s.w - s.r else count;
    assert s.data[s.r..s.r + n] + s.data[s.r + n..s.w] == s.data[s.r..s.w];
  }

  // The whole of what a run of transfers hands out and takes in.
  datatype Traffic = Traffic(after: FileState, delivered: seq<byte>, accepted: seq<byte>)

  function RunTransfers(s: FileState, ops: seq<Op>): (t: Traffic)
    requires Settled(s) && forall i :: 0 <= i < |ops| ==> IsTransfer(ops[i])
    ensures Settled(t.after)
    decreases |ops|
  {
    if ops == [] then Traffic(s, [], [])
    else
      var before := RunTransfers(s, ops[..|ops| - 1]);
      var op := ops[|ops| - 1];
      TransferConserves(before.after, op);
      Traffic(Apply(before.after, op),
              before.delivered + Delivered(before.after, op),
              before.accepted + Accepted(before.after, op))
  }

  // The stream: over any run the bytes read, followed by the bytes still pending,
  // are the initial contents followed by the accepted bytes.
  lemma {:induction false} StreamRefinement(s: FileState, ops: seq<Op>)
    requires Settled(s) && forall i :: 0 <= i < |ops| ==> IsTransfer(ops[i])
    ensures var t := RunTransfers(s, ops);
            && t.delivered + Pending(t.after) == Pending(s) + t.accepted
            && t.delivered <= Pending(s) + t.accepted
    decreases |ops|
  {
    if ops == [] {
    } else {
      var front, op := ops[..|ops| - 1], ops[|ops| - 1];
      StreamRefinement(s, front);
      var before := RunTransfers(s, front);
      TransferConserves(before.after, op);
      var d, a, p, p' := Delivered(before.after, op), Accepted(before.after, op),
        Pending(before.after), Pending(Apply(before.after, op));
      Reassociate(before.delivered, d, p, p', Pending(s), before.accepted, a);
    }
  }

  lemma Reassociate(x: seq<byte>, d: seq<byte>, p: seq<byte>, p': seq<byte>, s: seq<byte>, y: seq<byte>, a: seq<byte>)
    requires x + p == s + y && d + p' == p + a
    ensures (x + d) + p' == s + (y + a)
    ensures x + d <= s + (y + a)
  {
    assert (x + d) + p' == x + (d + p') == x + (p + a) == (x + p) + a == (s + y) + a == s + (y + a);
  }
}
