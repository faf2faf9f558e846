// The kernel heap: __init_kernel_heap, heapAllocateMemory and heapFreeMemory.
module Heap {

  const TRUE: int := 1
  const IN_USE: int := 1234     // Magic of a live block
  const STOCK: int := 4321      // Magic of a block marked as reusable
  const WORD: int := 0x1_0000_0000_0000_0000

  // `unsigned long`
  type word = w: int | 0 <= w < 0x1_0000_0000_0000_0000

  function Wrap(x: int): word {
    x % WORD
  }

  // KERNEL_HEAP_START, KERNEL_HEAP_END, sizeof(struct mmblock_d), MMBLOCK_COUNT_MAX
  datatype Config = Config(start: word, end: word, header: word, maxBlocks: nat) {
    predicate Sane() {
      0 < start < end && 0 < header && end + header < WORD && 0 < maxBlocks
    }
  }

  // struct mmblock_d
  datatype Block = Block(header: word, headerSize: word, userArea: word, userareaSize: word, footer: word,
                         id: int, used: int, magic: int, free: int)

  // The globals, with the block headers that lie in the heap by address.
  datatype State = State(pointer: word, available: word, count: nat, list: seq<word>, blocks: map<word, Block>)

  // ---------------------------------------------------------------- allocation

  datatype Answer =
    | Granted(address: word)
    | Denied         // 0
    | Panicked

  function Requested(size: word): word {
    if size == 0 then 8 else size
  }

  function NewBlock(c: Config, s: State, bytes: word): Block {
    Block(s.pointer, c.header, Wrap(s.pointer + c.header), bytes,
          Wrap(Wrap(s.pointer + c.header) + bytes), s.count + 1, TRUE, IN_USE, 0)
  }

  // One more block at the heap pointer.
  function WithBlock(c: Config, s: State, bytes: word): State
    requires s.count + 1 < |s.list|
  {
    var b := NewBlock(c, s, bytes);
    State(b.footer, Wrap(s.available - Wrap(b.footer - b.header)), s.count + 1,
          s.list[s.count + 1 := s.pointer], s.blocks[s.pointer := b])
  }

  function AllocAnswer(c: Config, s: State, size: word): Answer {
    if s.available == 0 then Denied
    else if Requested(size) >= s.available then Denied
    else if s.count + 1 >= c.maxBlocks then Panicked
    else if s.pointer < c.start || s.pointer >= c.end then Panicked
    else Granted(Wrap(s.pointer + c.header))
  }

  function Allocated(c: Config, s: State, size: word): State
    requires |s.list| == c.maxBlocks
  {
    match AllocAnswer(c, s, size)
    case Denied => s
    case Panicked => s.(count := s.count + 1)
    case Granted(_) => WithBlock(c, s, Requested(size))
  }

  // ---------------------------------------------------------------- release

  // A pointer that kfree accepts: null, outside the heap, or one that an allocation returned.
  predicate Freeable(c: Config, s: State, ptr: word) {
    ptr == 0 || ptr < c.start || ptr >= c.end || (ptr >= c.header && ptr - c.header in s.blocks)
  }

  function Freed(c: Config, s: State, ptr: word): State
    requires Freeable(c, s, ptr)
  {
    if ptr == 0 || ptr < c.start || ptr >= c.end then s
    else
      var b := s.blocks[ptr - c.header];
      if b.used != TRUE || b.magic != IN_USE then s
      else s.(blocks := s.blocks[ptr - c.header := b.(used := TRUE, magic := STOCK)])
  }

  // ---------------------------------------------------------------- the code

  class KernelHeap {
    const c: Config
    var pointer: word                // g_heap_pointer
    var available: word              // g_available_heap
    var count: nat                   // mmblockCount
    const list: array<word>          // mmblockList
    var blocks: map<word, Block>

    ghost function S(): State
      reads this, list
    {
      State(pointer, available, count, list[..], blocks)
    }

    // __init_kernel_heap
    constructor (c: Config)
      requires c.Sane()
      ensures this.c == c && fresh(list) && list.Length == c.maxBlocks
      ensures S() == Initial(c)
    {
      this.c := c;
      pointer := c.start;
      available := c.end - c.start;
      count := 0;
      list := new word[c.maxBlocks](i => 0);
      blocks := map[];
      new;
      assert list[..] == Initial(c).list;
    }

    // heapAllocateMemory: 0 is returned for no memory.
    method AllocateMemory(size: word) returns (address: word, panicked: bool)
      requires c.Sane() && list.Length == c.maxBlocks
      modifies this, list
      ensures S() == old(Allocated(c, S(), size))
      ensures match old(AllocAnswer(c, S(), size))
              case Granted(a) => address == a && !panicked
              case Denied => address == 0 && !panicked
              case Panicked => panicked
    {
      var userAreaInBytes: word := size;
      if userAreaInBytes == 0 {
        userAreaInBytes := 8;
      }
      address, panicked := 0, false;
      if available == 0 {
      } else if userAreaInBytes >= available {
      } else {
        count := count + 1;
        if count >= c.maxBlocks || pointer < c.start || pointer >= c.end {
          panicked := true;
        } else {
          address := MakeBlock(userAreaInBytes);
        }
      }
    }

    // The block at the heap pointer, once the request is accepted and counted.
    method MakeBlock(userAreaInBytes: word) returns (userAreaBase: word)
      requires list.Length == c.maxBlocks && 0 < count < list.Length
      modifies this, list
      ensures var s := old(S()).(count := old(count) - 1);
              && S() == WithBlock(c, s, userAreaInBytes)
              && userAreaBase == Wrap(s.pointer + c.header)
    {
      var headerBase := pointer;
      userAreaBase := Wrap(headerBase + c.header);
      var footer := Wrap(userAreaBase + userAreaInBytes);
      var total := Wrap(footer - headerBase);
      available := Wrap(available - total);
      pointer := footer;
      blocks := blocks[headerBase :=
        Block(headerBase, c.header, userAreaBase, userAreaInBytes, footer, count, TRUE, IN_USE, 0)];
      list[count] := headerBase;
    }

    // heapFreeMemory
    method FreeMemory(ptr: word)
      requires c.Sane() && Freeable(c, S(), ptr)
      modifies this`blocks
      ensures S() == Freed(c, old(S()), ptr)
    {
      if ptr == 0 {
        return;
      }
      if ptr < c.start || ptr >= c.end {
        return;
      }
      var header := ptr - c.header;
      var b := blocks[header];
      if b.used != TRUE || b.magic != IN_USE {
        return;
      }
      blocks := blocks[header := b.(used := TRUE, magic := STOCK)];
    }

    // kmalloc, for a signed 32-bit size
    method Kmalloc(size: int) returns (address: word, panicked: bool)
      requires c.Sane() && list.Length == c.maxBlocks && -0x8000_0000 <= size < 0x8000_0000
      modifies this, list
      ensures size < 0 ==> address == 0 && !panicked && S() == old(S())
      ensures size >= 0 ==> S() == old(Allocated(c, S(), if size == 0 then 1 else size))
      ensures size >= 0 ==> (panicked <==> old(AllocAnswer(c, S(), if size == 0 then 1 else size)) == Panicked)
      ensures size >= 0 && !panicked ==>
                match old(AllocAnswer(c, S(), if size == 0 then 1 else size))
                case Granted(a) => address == a
                case Denied => address == 0
                case Panicked => false
    {
      if size < 0 {
        return 0, false;
      }
      var lsize := size;
      if lsize == 0 {
        lsize := 1;
      }
      address, panicked := AllocateMemory(lsize);
    }
  }

  function Initial(c: Config): State
    requires c.Sane()
  {
    State(c.start, c.end - c.start, 0, seq(c.maxBlocks, i => 0), map[])
  }
}
