// The buffered file object: file_read_buffer, file_write_buffer and the read and write system calls
// on a regular file.
module FileStream {
  import opened Bytes

  const BUFSIZ: int := 1024
  const READ_LIMIT: int := 8192
  const EOF: int := -1
  const EINVAL: int := 22
  const SRD: bv16 := 4    // __SRD
  const SWR: bv16 := 8    // __SWR

  datatype Kind = Regular | Tty | IoBuffer | Socket | Pipe | Unknown

  // The fields of a file object; `pos` is _p - _base and `data` the buffer behind _base.
  datatype FileState = FileState(
    kind: Kind, live: bool, slot: int,
    r: int, w: int, cnt: int, pos: int, lbfsize: int,
    flags: bv16, canRead: bool, canWrite: bool, full: int, data: seq<byte>)

  predicate Streamed(kind: Kind) {
    kind == Regular || kind == Tty || kind == IoBuffer
  }

  // Every copy that a read or write makes stays inside the buffer.
  ghost predicate InBounds(s: FileState) {
    && 0 <= s.r <= s.w
    && 0 <= s.cnt
    && s.w + s.cnt <= s.lbfsize == BUFSIZ
    && |s.data| == BUFSIZ
  }

  // What the kernel must have set up before the copies are safe.
  ghost predicate Readable(s: FileState) {
    s.lbfsize <= |s.data| && s.w <= |s.data|
  }

  // ---------------------------------------------------------------- reading

  // The result of a call, the object afterwards, and the bytes copied out.
  datatype ReadResult = ReadResult(n: int, after: FileState, bytes: seq<byte>)

  // The part of file_read_buffer that respects the offsets, for 0 < count <= _lbfsize.
  function StreamedRead(s: FileState, count: int): ReadResult
    requires Readable(s) && count > 0
  {
    if s.lbfsize <= 0 || s.lbfsize > READ_LIMIT then ReadResult(EOF, s, [])
    else if s.r < 0 then ReadResult(EOF, s.(r := 0), [])
    else if s.r > s.lbfsize then ReadResult(EOF, s, [])
    else if s.r > s.w then ReadResult(0, s.(r := s.w), [])
    else if s.r == s.w then ReadResult(0, s, [])
    else
      var n := if count > s.w - s.r then s.w - s.r else count;
      ReadResult(n, s.(r := s.r + n, pos := s.r + n, flags := s.flags | SWR, canWrite := true), s.data[s.r..s.r + n])
  }

  // file_read_buffer
  function ReadBuffer(s: FileState, len: int): ReadResult
    requires Readable(s)
  {
    var count := len % 0x1_0000;
    if !s.live || count == 0 || count > s.lbfsize then ReadResult(EOF, s, [])
    else if s.kind == Socket || s.kind == Pipe then
      ReadResult(count, s.(flags := s.flags | SWR), s.data[..count])
    else if Streamed(s.kind) then StreamedRead(s, count)
    else ReadResult(EOF, s, [])
  }

  // __read_imp on a regular file
  function ReadCall(s: FileState, count: int): ReadResult
    requires Readable(s)
  {
    if count < 0 then ReadResult(-EINVAL, s, [])
    else if count == 0 then ReadResult(0, s, [])
    else if !s.canRead || s.flags & SRD == 0 then ReadResult(-1, s, [])
    else
      var result := ReadBuffer(s, count);
      if result.n <= 0 then ReadResult(-1, result.after, [])
      else result.(after := result.after.(flags := result.after.flags | SWR, canWrite := true))
  }

  // ---------------------------------------------------------------- writing

  datatype WriteResult = WriteResult(n: int, after: FileState)

  // The offsets of a streamed file after the corrections that precede the copy.
  function Corrected(s: FileState): FileState {
    if s.cnt > s.lbfsize then s.(cnt := s.lbfsize, pos := 0, w := 0, r := 0) else s
  }

  // The write offset never lags behind the read offset.
  function Advanced(s: FileState): FileState {
    if s.w < s.r then s.(w := s.r, cnt := s.lbfsize - s.r) else s
  }

  // The copy fits: what file_write_buffer relies on without checking it.
  predicate WriteFits(s: FileState, len: int) {
    if s.kind == Socket || s.kind == Pipe then len >= BUFSIZ || 0 <= len <= |s.data|
    else
      || s.lbfsize > BUFSIZ || s.cnt > s.lbfsize || s.cnt < 0 || s.w < 0 || s.w >= BUFSIZ
      || (if s.w < s.r then s.r else s.w) + (if len > s.cnt then s.cnt else len) <= |s.data|
  }

  // The part of file_write_buffer that respects the offsets, for len < BUFSIZ.
  function StreamedWrite(s: FileState, bytes: seq<byte>, len: int): WriteResult
    requires len <= |bytes| && Streamed(s.kind) && WriteFits(s, len) && s.lbfsize <= |s.data|
  {
    if s.lbfsize > BUFSIZ then WriteResult(EOF, s)
    else if s.w < 0 then WriteResult(EOF, s.(pos := 0, w := 0, r := 0, cnt := s.lbfsize))
    else if s.w >= BUFSIZ then WriteResult(EOF, s.(w := BUFSIZ, cnt := 0))
    else if s.cnt < 0 then WriteResult(EOF, s.(cnt := 0, w := s.lbfsize, r := s.lbfsize, pos := s.lbfsize))
    else
      ClippedWrite(Corrected(s), bytes, len)
  }

  // The copy of as much as _cnt allows.
  function ClippedWrite(s: FileState, bytes: seq<byte>, len: int): WriteResult
    requires len <= |bytes| && 0 <= s.w
    requires (if s.w < s.r then s.r else s.w) + (if len > s.cnt then s.cnt else len) <= |s.data|
  {
    if len < 0 then WriteResult(-1, s)
    else if len > s.cnt && s.cnt <= 0 then
      WriteResult(-1, s.(w := s.lbfsize, r := s.lbfsize, pos := s.lbfsize, cnt := 0))
    else
      Appended(Advanced(s), bytes[..if len > s.cnt then s.cnt else len])
  }

  // file_write_buffer
  function WriteBuffer(s: FileState, bytes: seq<byte>, len: int): WriteResult
    requires len <= |bytes| && WriteFits(s, len) && s.lbfsize <= |s.data|
  {
    if len >= BUFSIZ then WriteResult(EOF, s)
    else if s.kind == Socket || s.kind == Pipe then
      WriteResult(len, s.(data := Patch(s.data, 0, bytes[..len])))
    else if Streamed(s.kind) then StreamedWrite(s, bytes, len)
    else WriteResult(EOF, s)
  }

  // Copying at the write offset.
  function Appended(s: FileState, bytes: seq<byte>): WriteResult
    requires 0 <= s.w && s.w + |bytes| <= |s.data|
  {
    WriteResult(|bytes|, s.(data := Patch(s.data, s.w, bytes), pos := s.w + |bytes|, w := s.w + |bytes|,
                            cnt := s.cnt - |bytes|, flags := SRD, canRead := true))
  }

  // __write_imp on a regular file
  function WriteCall(s: FileState, bytes: seq<byte>): WriteResult
    requires WriteFits(s, |bytes|) && s.lbfsize <= |s.data|
  {
    if |bytes| == 0 then WriteResult(0, s)
    else if !s.canWrite then WriteResult(-1, s)
    else if s.flags & SWR == 0 then WriteResult(0, s)
    else
      var result := WriteBuffer(s, bytes, |bytes|);
      if result.n > 0 then result.(after := result.after.(flags := SRD, canRead := true))
      else result.(n := 0)
  }

  // ---------------------------------------------------------------- the object

  class File {
    var kind: Kind
    var live: bool          // used == TRUE and magic == 1234
    var slot: int           // _file
    var r: int
    var w: int
    var cnt: int
    var pos: int
    var lbfsize: int
    var flags: bv16
    var canRead: bool
    var canWrite: bool
    var full: int           // socket_buffer_full
    const base: array<byte>

    constructor (base: array<byte>, kind: Kind, slot: int)
      ensures S() == FileState(kind, true, slot, 0, 0, base.Length, 0, base.Length, 0, true, true, 0, base[..])
      ensures this.base == base
    {
      this.base := base;
      this.kind, live, this.slot := kind, true, slot;
      r, w, cnt, pos, lbfsize := 0, 0, base.Length, 0, base.Length;
      flags, canRead, canWrite, full := 0, true, true, 0;
    }

    ghost function Data(): seq<byte>
      reads base
    {
      base[..]
    }

    ghost function S(): FileState
      reads this, base
    {
      FileState(kind, live, slot, r, w, cnt, pos, lbfsize, flags, canRead, canWrite, full, Data())
    }

    // memcpy out of the buffer, byte by byte
    method CopyOut(target: array<byte>, from: nat, count: nat)
      requires from + count <= base.Length && count <= target.Length && target != base
      modifies target
      ensures target[..count] == Data()[from..from + count]
      ensures target[count..] == old(target[..])[count..]
    {
      var i := 0;
      while i < count
        invariant 0 <= i <= count
        invariant forall j :: 0 <= j < i ==> target[j] == base[from + j]
        invariant forall j :: i <= j < target.Length ==> target[j] == old(target[j])
      {
        target[i] := base[from + i];
        i := i + 1;
      }
    }

    // memcpy into the buffer, byte by byte
    method CopyIn(at: nat, bytes: seq<byte>)
      requires at + |bytes| <= base.Length
      modifies base
      ensures Data() == Patch(old(Data()), at, bytes)
    {
      var i := 0;
      while i < |bytes|
        invariant 0 <= i <= |bytes|
        invariant forall j :: 0 <= j < i ==> base[at + j] == bytes[j]
        invariant forall j :: 0 <= j < base.Length && !(at <= j < at + i) ==> base[j] == old(base[j])
      {
        base[at + i] := bytes[i];
        i := i + 1;
      }
      forall j | 0 <= j < base.Length
        ensures base[j] == Patch(old(base[..]), at, bytes)[j]
      {
        if at <= j < at + |bytes| {
          assert base[at + (j - at)] == bytes[j - at];
        }
      }
    }

    // file_read_buffer
    method FileReadBuffer(buffer: array<byte>, len: int) returns (n: int)
      requires Readable(S()) && buffer != base && ReadBuffer(S(), len).n <= buffer.Length
      modifies this, buffer
      ensures n == old(ReadBuffer(S(), len)).n && S() == old(ReadBuffer(S(), len)).after
      ensures n > 0 ==> buffer[..n] == old(ReadBuffer(S(), len)).bytes && buffer[n..] == old(buffer[..])[n..]
      ensures n <= 0 ==> buffer[..] == old(buffer[..])
    {
      var count := len % 0x1_0000;
      if !live || count <= 0 || count > lbfsize {
        n := EOF;
      } else if kind == Socket || kind == Pipe {
        CopyOut(buffer, 0, count);
        flags := flags | SWR;
        n := count;
      } else if kind == Regular || kind == Tty || kind == IoBuffer {
        n := ReadStreamed(buffer, count);
      } else {
        n := EOF;
      }
    }

    // The branch of file_read_buffer that respects the offsets.
    method ReadStreamed(buffer: array<byte>, len: int) returns (n: int)
      requires Readable(S()) && buffer != base && 0 < len && StreamedRead(S(), len).n <= buffer.Length
      modifies this, buffer
      ensures n == old(StreamedRead(S(), len)).n && S() == old(StreamedRead(S(), len)).after
      ensures n > 0 ==> buffer[..n] == old(StreamedRead(S(), len)).bytes && buffer[n..] == old(buffer[..])[n..]
      ensures n <= 0 ==> buffer[..] == old(buffer[..])
    {
      var count := len;
      if lbfsize <= 0 || lbfsize > READ_LIMIT {
        n := EOF;
      } else if r < 0 {
        r := 0;
        n := EOF;
      } else if r > lbfsize {
        n := EOF;
      } else if r > w {
        r := w;
        n := 0;
      } else if w - r == 0 {
        n := 0;
      } else {
        var delta := w - r;
        if count > delta {
          count := delta;
        }
        pos := r;
        CopyOut(buffer, pos, count);
        pos := pos + count;
        r := r + count;
        if r > w {
          r := w;
        }
        flags := flags | SWR;
        canWrite := true;
        n := count;
      }
    }

    // file_write_buffer
    method FileWriteBuffer(bytes: seq<byte>, len: int) returns (n: int)
      requires len <= |bytes| && WriteFits(S(), len) && lbfsize <= base.Length
      modifies this, base
      ensures n == old(WriteBuffer(S(), bytes, len)).n && S() == old(WriteBuffer(S(), bytes, len)).after
    {
      if len >= BUFSIZ {
        n := EOF;
      } else if kind == Socket || kind == Pipe {
        CopyIn(0, bytes[..len]);
        n := len;
      } else if kind == Regular || kind == Tty || kind == IoBuffer {
        n := WriteStreamed(bytes, len);
      } else {
        n := EOF;
      }
    }

    // The branch of file_write_buffer that respects the offsets.
    method WriteStreamed(bytes: seq<byte>, length: int) returns (n: int)
      requires length <= |bytes| && WriteFits(S(), length) && lbfsize <= base.Length && Streamed(kind)
      modifies this, base
      ensures n == old(StreamedWrite(S(), bytes, length)).n && S() == old(StreamedWrite(S(), bytes, length)).after
    {
      var len := length;
      if lbfsize > BUFSIZ {
        n := EOF;
      } else if w < 0 {
        pos, w, r, cnt := 0, 0, 0, lbfsize;
        n := EOF;
      } else if w >= BUFSIZ {
        w, cnt := BUFSIZ, 0;
        n := EOF;
      } else if cnt < 0 {
        cnt, w, r := 0, lbfsize, lbfsize;
        pos := w;
        n := EOF;
      } else {
        if cnt > lbfsize {
          cnt, pos, w, r := lbfsize, 0, 0, 0;
        }
        if len < 0 {
          n := -1;
        } else if len > cnt && cnt <= 0 {
          w, r, pos, cnt := lbfsize, lbfsize, lbfsize, 0;
          n := -1;
        } else {
          if len > cnt {
            len := cnt;
          }
          if w < r {
            w := r;
            cnt := lbfsize - w;
          }
          n := len;
          Append(bytes[..len]);
        }
      }
    }

    // The copy at the write offset.
    method Append(bytes: seq<byte>)
      requires 0 <= w && w + |bytes| <= base.Length
      modifies this, base
      ensures S() == Appended(old(S()), bytes).after
    {
      pos := w;
      CopyIn(pos, bytes);
      pos := pos + |bytes|;
      w := w + |bytes|;
      cnt := cnt - |bytes|;
      flags := SRD;
      canRead := true;
    }

    // __read_imp, regular-file branch
    method Read(buffer: array<byte>, count: int) returns (n: int)
      requires kind == Regular && Readable(S()) && buffer != base && ReadCall(S(), count).n <= buffer.Length
      modifies this, buffer
      ensures n == old(ReadCall(S(), count)).n && S() == old(ReadCall(S(), count)).after
      ensures n > 0 ==> buffer[..n] == old(ReadCall(S(), count)).bytes && buffer[n..] == old(buffer[..])[n..]
      ensures n <= 0 ==> buffer[..] == old(buffer[..])
    {
      if count < 0 {
        n := -EINVAL;
      } else if count == 0 {
        n := 0;
      } else if !canRead {
        n := -1;
      } else if flags & SRD == 0 {
        n := -1;
      } else {
        n := FileReadBuffer(buffer, count);
        if n <= 0 {
          n := -1;
        } else {
          flags := flags | SWR;
          canWrite := true;
        }
      }
    }

    // __write_imp, regular-file branch
    method Write(bytes: seq<byte>) returns (n: int)
      requires kind == Regular && WriteFits(S(), |bytes|) && lbfsize <= base.Length
      modifies this, base
      ensures n == old(WriteCall(S(), bytes)).n && S() == old(WriteCall(S(), bytes)).after
    {
      if |bytes| == 0 {
        n := 0;
      } else if !canWrite {
        n := -1;
      } else if flags & SWR == 0 {
        n := 0;
      } else {
        n := FileWriteBuffer(bytes, |bytes|);
        if n > 0 {
          flags := SRD;
          canRead := true;
        } else {
          n := 0;
        }
      }
    }

    // one of the permissions SRD and SWR is granted
    method Allow(permission: bv16)
      modifies this
      ensures S() == old(S()).(flags := old(flags) | permission)
    {
      flags := flags | permission;
    }

    // sys_set_file_sync, request 216
    method ResetForWriting()
      modifies this
      ensures S() == Reset216(old(S()))
    {
      flags := SWR;
      pos := 0;
      r := 0;
      w := 0;
      full := 0;
    }

    // sys_set_file_sync, request 217
    method ResetForReading()
      modifies this
      ensures S() == old(S()).(flags := SRD)
    {
      flags := SRD;
    }

    // k_fseek with GRAMADO_SEEK_CLEAR
    method SeekClear()
      requires BUFSIZ <= base.Length
      modifies this, base
      ensures S() == Cleared(old(S()))
    {
      var i := 0;
      while i < BUFSIZ
        invariant 0 <= i <= BUFSIZ
        invariant forall j :: 0 <= j < i ==> base[j] == 0
        invariant forall j :: i <= j < base.Length ==> base[j] == old(base[j])
        modifies base
      {
        base[i] := 0;
        i := i + 1;
      }
      pos, r, w := 0, 0, 0;
      cnt := lbfsize;
      forall j | 0 <= j < base.Length
        ensures base[j] == Cleared(old(S())).data[j]
      {
      }
      assert Data() == Cleared(old(S())).data;
    }
  }

  function Reset216(s: FileState): FileState {
    s.(flags := SWR, pos := 0, r := 0, w := 0, full := 0)
  }

  function Cleared(s: FileState): FileState {
    s.(data := seq(|s.data|, i requires 0 <= i < |s.data| => if i < BUFSIZ then 0 else s.data[i]),
       pos := 0, r := 0, w := 0, cnt := s.lbfsize)
  }
}
