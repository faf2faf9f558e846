// What every run of allocations and releases keeps.
module HeapTheorems {
  import opened Heap

  // ---------------------------------------------------------------- the tiling

  // Block i, counted from 1 as in mmblockList.
  function BlockOf(s: State, i: nat): Block
    requires i < |s.list| && s.list[i] in s.blocks
  {
    s.blocks[s.list[i]]
  }

  // A block is its header followed by its user area.
  ghost predicate Shaped(c: Config, s: State, i: nat) {
    && i < |s.list| && s.list[i] in s.blocks
    && var b := BlockOf(s, i);
    && b.header == s.list[i] && b.headerSize == c.header && b.userArea == b.header + c.header
    && 0 < b.userareaSize && b.footer == b.userArea + b.userareaSize
    && b.id == i && b.used == TRUE && (b.magic == IN_USE || b.magic == STOCK)
  }

  // Where block i ends; 0 stands for the start of the heap.
  function Edge(c: Config, s: State, i: nat): int {
    if i == 0 || i >= |s.list| || s.list[i] !in s.blocks then c.start else BlockOf(s, i).footer
  }

  // Block i starts where its predecessor ends.
  ghost predicate Placed(c: Config, s: State, i: nat) {
    i > 0 && Shaped(c, s, i) && s.list[i] == Edge(c, s, i - 1)
  }

  ghost predicate IsHeader(s: State, a: word) {
    exists i :: 1 <= i <= s.count && i < |s.list| && s.list[i] == a
  }

  // The blocks tile [START, g_heap_pointer), and every header belongs to one of them.
  ghost predicate Tiled(c: Config, s: State) {
    && |s.list| == c.maxBlocks && s.count < c.maxBlocks
    && (forall i :: 1 <= i <= s.count ==> Placed(c, s, i))
    && (forall a :: a in s.blocks ==> IsHeader(s, a))
    && s.pointer == Edge(c, s, s.count)
  }

  // The available space is what is left of [START, END), wrapped; only the last block may pass END,
  // and its header starts inside.
  ghost predicate HeapInv(c: Config, s: State) {
    && c.Sane()
    && Tiled(c, s)
    && s.pointer < c.end + c.header
    && s.available == Wrap(c.end - s.pointer)
    && (s.count > 0 ==> s.list[s.count] < c.end)
  }

  lemma WrapFacts(x: int)
    ensures 0 <= x < WORD ==> Wrap(x) == x
    ensures -WORD <= x < 0 ==> Wrap(x) == x + WORD
  {
  }

  lemma InitialInv(c: Config)
    requires c.Sane()
    ensures HeapInv(c, Initial(c))
  {
    WrapFacts(c.end - c.start);
  }

  // Blocks follow one another in address order.
  lemma {:induction false} EdgesAscend(c: Config, s: State, i: nat, j: nat)
    requires Tiled(c, s) && i <= j <= s.count
    ensures c.start <= Edge(c, s, i) <= Edge(c, s, j)
    ensures i < j ==> Edge(c, s, i) < Edge(c, s, j)
    decreases j
  {
    if j > 0 {
      assert Placed(c, s, j);
      if i < j {
        EdgesAscend(c, s, i, j - 1);
      } else {
        EdgesAscend(c, s, i - 1, j - 1);
      }
    }
  }

  // The next header is at an address no block has.
  lemma PointerIsFresh(c: Config, s: State)
    requires Tiled(c, s)
    ensures s.pointer !in s.blocks
    ensures forall i :: 1 <= i <= s.count ==> s.list[i] != s.pointer
  {
    forall i | 1 <= i <= s.count
      ensures s.list[i] != s.pointer
    {
      assert Placed(c, s, i);
      EdgesAscend(c, s, i - 1, s.count);
    }
  }

  // ---------------------------------------------------------------- steps

  // A granted request, without the wrap-around: none of its sums wraps.
  lemma GrantedExactly(c: Config, s: State, size: word)
    requires HeapInv(c, s) && AllocAnswer(c, s, size).Granted?
    ensures s.pointer < c.end && s.available == c.end - s.pointer
    ensures var b, s' := NewBlock(c, s, Requested(size)), Allocated(c, s, size);
            && b.userArea == s.pointer + c.header
            && b.footer == s.pointer + c.header + Requested(size) == s'.pointer
            && s'.pointer < c.end + c.header
            && s'.available == Wrap(c.end - s'.pointer)
            && AllocAnswer(c, s, size).address == b.userArea
  {
    WrapFacts(c.end - s.pointer);
    WrapFacts(s.pointer + c.header);
    WrapFacts(s.pointer + c.header + Requested(size));
    WrapFacts(c.header + Requested(size));
    WrapFacts(s.available - (c.header + Requested(size)));
    WrapFacts(c.end - (s.pointer + c.header + Requested(size)));
  }

  lemma AllocKeepsPlaced(c: Config, s: State, size: word, i: nat)
    requires HeapInv(c, s) && AllocAnswer(c, s, size).Granted?
    requires 1 <= i <= s.count + 1
    ensures Placed(c, Allocated(c, s, size), i)
    ensures i <= s.count ==> BlockOf(Allocated(c, s, size), i) == BlockOf(s, i)
  {
    GrantedExactly(c, s, size);
    PointerIsFresh(c, s);
    var s' := Allocated(c, s, size);
    assert i <= s.count ==> Placed(c, s, i);
    if i > 1 {
      assert Placed(c, s, i - 1);
      assert Edge(c, s', i - 1) == Edge(c, s, i - 1);
    }
  }

  lemma AllocKeepsInv(c: Config, s: State, size: word)
    requires HeapInv(c, s) && AllocAnswer(c, s, size) != Panicked
    ensures HeapInv(c, Allocated(c, s, size))
  {
    if AllocAnswer(c, s, size).Granted? {
      GrantedExactly(c, s, size);
      var s' := Allocated(c, s, size);
      forall i | 1 <= i <= s'.count
        ensures Placed(c, s', i)
      {
        AllocKeepsPlaced(c, s, size, i);
      }
      forall a | a in s'.blocks
        ensures IsHeader(s', a)
      {
        if a == s.pointer {
          assert s'.list[s'.count] == a;
        } else {
          assert IsHeader(s, a);
          var i :| 1 <= i <= s.count && s.list[i] == a;
          assert s'.list[i] == a;
        }
      }
      AllocKeepsPlaced(c, s, size, s'.count);
    }
  }

  lemma FreeKeepsInv(c: Config, s: State, ptr: word)
    requires HeapInv(c, s) && Freeable(c, s, ptr)
    ensures HeapInv(c, Freed(c, s, ptr))
  {
    var s' := Freed(c, s, ptr);
    forall i | 1 <= i <= s.count
      ensures Placed(c, s', i)
    {
      assert Placed(c, s, i);
      if i > 1 {
        assert Placed(c, s, i - 1);
      }
      assert Edge(c, s', i - 1) == Edge(c, s, i - 1);
    }
    forall a | a in s'.blocks
      ensures IsHeader(s', a)
    {
      assert IsHeader(s, a);
      var i :| 1 <= i <= s.count && s.list[i] == a;
      assert s'.list[i] == a;
    }
  }

  // ---------------------------------------------------------------- runs

  datatype Op = Allocate(size: word) | Release(ptr: word)

  // A panic ends a run; releases are of pointers that kfree accepts.
  ghost predicate Step(c: Config, s: State, op: Op, s': State) {
    match op
    case Allocate(size) => |s.list| == c.maxBlocks && AllocAnswer(c, s, size) != Panicked && s' == Allocated(c, s, size)
    case Release(ptr) => Freeable(c, s, ptr) && s' == Freed(c, s, ptr)
  }

  ghost predicate Run(c: Config, ss: seq<State>, ops: seq<Op>) {
    && |ss| == |ops| + 1
    && forall i :: 0 <= i < |ops| ==> Step(c, ss[i], ops[i], ss[i + 1])
  }

  lemma StepKeepsInv(c: Config, s: State, op: Op, s': State)
    requires HeapInv(c, s) && Step(c, s, op, s')
    ensures HeapInv(c, s')
  {
    match op
    case Allocate(size) => AllocKeepsInv(c, s, size);
    case Release(ptr) => FreeKeepsInv(c, s, ptr);
  }

  // Every reachable heap is tiled and accounts for its space.
  lemma {:induction false} RunKeepsInv(c: Config, ss: seq<State>, ops: seq<Op>, n: nat)
    requires c.Sane() && Run(c, ss, ops) && n <= |ops| && ss[0] == Initial(c)
    ensures HeapInv(c, ss[n])
  {
    if n == 0 {
      InitialInv(c);
    } else {
      RunKeepsInv(c, ss, ops, n - 1);
      assert Step(c, ss[n - 1], ops[n - 1], ss[n]);
      StepKeepsInv(c, ss[n - 1], ops[n - 1], ss[n]);
    }
  }

  // ---------------------------------------------------------------- what the invariant says

  // Headers and user areas of different blocks do not overlap.
  lemma BlocksDisjoint(c: Config, s: State, i: nat, j: nat)
    requires HeapInv(c, s) && 1 <= i < j <= s.count
    ensures Shaped(c, s, i) && Shaped(c, s, j)
    ensures BlockOf(s, i).userArea + BlockOf(s, i).userareaSize <= BlockOf(s, j).header < BlockOf(s, j).userArea
  {
    assert Placed(c, s, i) && Placed(c, s, j);
    EdgesAscend(c, s, i, j - 1);
  }

  // The total of one quantity over the first n blocks.
  function Sum(s: State, n: nat, quantity: Block -> int): int {
    if n == 0 || n >= |s.list| || s.list[n] !in s.blocks then 0
    else Sum(s, n - 1, quantity) + quantity(BlockOf(s, n))
  }

  function HeaderBytes(b: Block): int { b.headerSize }

  function LiveBytes(b: Block): int { if b.magic == IN_USE then b.userareaSize else 0 }

  function StockBytes(b: Block): int { if b.magic == STOCK then b.userareaSize else 0 }

  function Used(s: State, n: nat): int {
    Sum(s, n, HeaderBytes) + Sum(s, n, LiveBytes) + Sum(s, n, StockBytes)
  }

  lemma {:induction false} UsedUpTo(c: Config, s: State, n: nat)
    requires Tiled(c, s) && n <= s.count
    ensures Used(s, n) == Edge(c, s, n) - c.start
  {
    if n > 0 {
      UsedUpTo(c, s, n - 1);
      assert Placed(c, s, n);
    }
  }

  // Conservation: headers, live areas, stock and available space add up to the heap,
  // exactly as long as the pointer has not passed END.
  lemma Conservation(c: Config, s: State)
    requires HeapInv(c, s)
    ensures Used(s, s.count) == s.pointer - c.start
    ensures Used(s, s.count) + s.available == c.end - c.start <==> s.pointer <= c.end
  {
    UsedUpTo(c, s, s.count);
    EdgesAscend(c, s, 0, s.count);
    WrapFacts(c.end - s.pointer);
  }

  // ---------------------------------------------------------------- the end of the heap

  // A granted request stays inside exactly when it fits together with its header:
  // the test of the code leaves the header out.
  lemma StaysInsideIff(c: Config, s: State, size: word)
    requires HeapInv(c, s) && AllocAnswer(c, s, size).Granted?
    ensures Allocated(c, s, size).pointer <= c.end <==> Requested(size) + c.header <= s.available
  {
    GrantedExactly(c, s, size);
  }

  // Only the last block passes END, by fewer bytes than a header has, and then no request is granted.
  lemma Overshoot(c: Config, s: State, size: word)
    requires HeapInv(c, s) && s.pointer > c.end
    ensures s.count > 0 && Placed(c, s, s.count)
    ensures s.pointer - c.end < c.header && BlockOf(s, s.count).footer == s.pointer
    ensures forall i :: 1 <= i < s.count ==> Shaped(c, s, i) && BlockOf(s, i).footer <= c.end
    ensures !AllocAnswer(c, s, size).Granted?
  {
    assert s.count > 0 ==> Placed(c, s, s.count);
    forall i | 1 <= i < s.count
      ensures Shaped(c, s, i) && BlockOf(s, i).footer <= c.end
    {
      assert Placed(c, s, i);
      EdgesAscend(c, s, i, s.count - 1);
    }
  }

  // It does happen: the largest request that a new heap grants ends header - 1 bytes behind END.
  lemma LargestRequestPassesEnd(c: Config)
    requires c.Sane() && c.header > 1 && c.maxBlocks > 1 && c.end - c.start >= 2
    ensures var size := c.end - c.start - 1;
            && AllocAnswer(c, Initial(c), size) == Granted(c.start + c.header)
            && Allocated(c, Initial(c), size).pointer == c.end + c.header - 1
  {
    InitialInv(c);
    WrapFacts(c.end - c.start);
    WrapFacts(c.start + c.header);
    GrantedExactly(c, Initial(c), c.end - c.start - 1);
  }

  // Once past END the heap stays so: no later allocation of the run returns an address.
  lemma {:induction false} NothingAfterOvershoot(c: Config, ss: seq<State>, ops: seq<Op>, m: nat, n: nat)
    requires c.Sane() && Run(c, ss, ops) && ss[0] == Initial(c)
    requires m <= n < |ops| && ss[m].pointer > c.end && ops[n].Allocate?
    ensures AllocAnswer(c, ss[n], ops[n].size) == Denied
    ensures ss[n].pointer == ss[m].pointer
  {
    PointerStays(c, ss, ops, m, n);
    RunKeepsInv(c, ss, ops, n);
    assert Step(c, ss[n], ops[n], ss[n + 1]);
    Overshoot(c, ss[n], ops[n].size);
  }

  lemma {:induction false} PointerStays(c: Config, ss: seq<State>, ops: seq<Op>, m: nat, n: nat)
    requires c.Sane() && Run(c, ss, ops) && ss[0] == Initial(c)
    requires m <= n <= |ops| && ss[m].pointer > c.end
    ensures ss[n].pointer == ss[m].pointer
  {
    if m < n {
      PointerStays(c, ss, ops, m, n - 1);
      RunKeepsInv(c, ss, ops, n - 1);
      assert Step(c, ss[n - 1], ops[n - 1], ss[n]);
      if ops[n - 1].Allocate? {
        Overshoot(c, ss[n - 1], ops[n - 1].size);
      }
    }
  }

  // While every granted request fits with its header, the heap stays inside [START, END).
  lemma {:induction false} FittingRunStaysInside(c: Config, ss: seq<State>, ops: seq<Op>, n: nat)
    requires c.Sane() && Run(c, ss, ops) && ss[0] == Initial(c) && n <= |ops|
    requires forall i :: 0 <= i < n && ops[i].Allocate? && AllocAnswer(c, ss[i], ops[i].size).Granted?
               ==> Requested(ops[i].size) + c.header <= ss[i].available
    ensures ss[n].pointer <= c.end
    ensures Used(ss[n], ss[n].count) + ss[n].available == c.end - c.start
  {
    RunKeepsInv(c, ss, ops, n);
    if n > 0 {
      FittingRunStaysInside(c, ss, ops, n - 1);
      RunKeepsInv(c, ss, ops, n - 1);
      assert Step(c, ss[n - 1], ops[n - 1], ss[n]);
      if ops[n - 1].Allocate? && AllocAnswer(c, ss[n - 1], ops[n - 1].size).Granted? {
        StaysInsideIff(c, ss[n - 1], ops[n - 1].size);
      }
    }
    Conservation(c, ss[n]);
  }

  // ---------------------------------------------------------------- addresses

  // A granted address starts an area of the requested size behind all earlier blocks,
  // and may be released from then on.
  lemma GrantedArea(c: Config, s: State, size: word)
    requires HeapInv(c, s) && AllocAnswer(c, s, size).Granted?
    ensures var a, s' := AllocAnswer(c, s, size).address, Allocated(c, s, size);
            && a >= c.header && a - c.header in s'.blocks && Freeable(c, s', a)
            && s'.blocks[a - c.header].userArea == a
            && s'.blocks[a - c.header].userareaSize == Requested(size)
            && forall i :: 1 <= i <= s.count ==> Shaped(c, s, i) && BlockOf(s, i).footer <= a - c.header
  {
    GrantedExactly(c, s, size);
    forall i | 1 <= i <= s.count
      ensures Shaped(c, s, i) && BlockOf(s, i).footer <= AllocAnswer(c, s, size).address - c.header
    {
      assert Placed(c, s, i);
      EdgesAscend(c, s, i, s.count);
    }
  }

  lemma {:induction false} AddressStaysFreeable(c: Config, ss: seq<State>, ops: seq<Op>, m: nat, n: nat, a: word)
    requires Run(c, ss, ops) && m <= n <= |ops| && Freeable(c, ss[m], a)
    ensures Freeable(c, ss[n], a)
  {
    if m < n {
      AddressStaysFreeable(c, ss, ops, m, n - 1, a);
      assert Step(c, ss[n - 1], ops[n - 1], ss[n]);
    }
  }

  // Releasing touches nothing but one Magic, and a second release does nothing.
  lemma FreeFlipsMagicOnly(c: Config, s: State, ptr: word)
    requires HeapInv(c, s) && Freeable(c, s, ptr)
    ensures var s' := Freed(c, s, ptr);
            && s'.pointer == s.pointer && s'.available == s.available && s'.count == s.count && s'.list == s.list
            && s'.blocks.Keys == s.blocks.Keys
            && (forall a :: a in s.blocks && a != ptr - c.header ==> s'.blocks[a] == s.blocks[a])
            && (ptr - c.header in s.blocks ==>
                  s'.blocks[ptr - c.header] == s.blocks[ptr - c.header].(magic := s'.blocks[ptr - c.header].magic))
            && Freeable(c, s', ptr) && Freed(c, s', ptr) == s'
  {
    if ptr - c.header in s.blocks {
      assert IsHeader(s, ptr - c.header);
      var i :| 1 <= i <= s.count && s.list[i] == ptr - c.header;
      assert Placed(c, s, i);
    }
  }

  // A block becomes stock exactly when its area starts inside the heap: the area of a block
  // that passes END may start behind END, and then its release is ignored.
  lemma FreeTakesEffectIff(c: Config, s: State, i: nat)
    requires HeapInv(c, s) && 1 <= i <= s.count
    ensures Shaped(c, s, i) && Freeable(c, s, BlockOf(s, i).userArea)
    ensures BlockOf(s, i).magic == IN_USE ==>
              (BlockOf(Freed(c, s, BlockOf(s, i).userArea), i).magic == STOCK <==> BlockOf(s, i).userArea < c.end)
    ensures i < s.count ==> BlockOf(s, i).userArea < c.end
  {
    assert Placed(c, s, i);
    EdgesAscend(c, s, 0, i - 1);
    if i < s.count {
      assert Placed(c, s, s.count);
      EdgesAscend(c, s, i, s.count - 1);
    }
  }

  // It happens: leave one header of space, then request one byte. The area starts at END, and its release is ignored.
  lemma LastBlockIsNotFreed(c: Config)
    requires c.Sane() && c.header > 1 && c.maxBlocks > 2 && c.end - c.start > 2 * c.header
    ensures var size := c.end - c.start - 2 * c.header;
            var one := Allocated(c, Initial(c), size);
            var two := Allocated(c, one, 1);
            && Run(c, [Initial(c), one, two, two], [Allocate(size), Allocate(1), Release(c.end)])
            && AllocAnswer(c, one, 1) == Granted(c.end)
            && c.end - c.header in two.blocks && two.blocks[c.end - c.header].magic == IN_USE
  {
    hide Allocated, AllocAnswer, Step;
    AllButOneHeader(c, c.end - c.start - 2 * c.header);
    LastByte(c, Allocated(c, Initial(c), c.end - c.start - 2 * c.header));
    ReleaseAtEnd(c, Allocated(c, Allocated(c, Initial(c), c.end - c.start - 2 * c.header), 1));
  }

  lemma AllButOneHeader(c: Config, size: word)
    requires c.Sane() && c.header > 1 && c.maxBlocks > 2 && 0 < size == c.end - c.start - 2 * c.header
    ensures var one := Allocated(c, Initial(c), size);
            && Step(c, Initial(c), Allocate(size), one)
            && HeapInv(c, one) && one.pointer == c.end - c.header && one.count == 1
  {
    InitialInv(c);
    WrapFacts(c.end - c.start);
    GrantedExactly(c, Initial(c), size);
    AllocKeepsInv(c, Initial(c), size);
  }

  lemma LastByte(c: Config, s: State)
    requires HeapInv(c, s) && s.pointer == c.end - c.header && c.header > 1 && s.count + 1 < c.maxBlocks
    ensures var t := Allocated(c, s, 1);
            && Step(c, s, Allocate(1), t) && AllocAnswer(c, s, 1) == Granted(c.end)
            && c.end - c.header in t.blocks && t.blocks[c.end - c.header].magic == IN_USE
  {
    EdgesAscend(c, s, 0, s.count);
    WrapFacts(c.end - s.pointer);
    GrantedExactly(c, s, 1);
  }

  lemma ReleaseAtEnd(c: Config, s: State)
    ensures Step(c, s, Release(c.end), s)
  {
  }
}
