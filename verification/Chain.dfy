/**
  The descriptor chain in memory: how the driver lays it out (xdma_desc_alloc, transfer_perf,
  the adjacent counts) and how the hardware walks it, by next pointers or by prefetched blocks.
 */
module Chain {
  import opened Words
  import opened Descriptors

  /** DESC_STOPPED | DESC_COMPLETED | DESC_EOP. */
  const LAST_FLAGS: bv8 := 0x13

  // ----- the walk by next pointers -----

  type Memory = map<nat, Desc>

  /** The hardware, started at addr, executes exactly the descriptors of trace. */
  ghost predicate Runs(mem: Memory, addr: nat, trace: seq<Desc>)
    decreases |trace|
  {
    && trace != [] && addr in mem && trace[0] == mem[addr]
    && if trace[0].Stops() then |trace| == 1 else Runs(mem, trace[0].next, trace[1..])
  }

  /** A memory and a start address leave the hardware no choice. */
  lemma {:induction false} RunsDeterministic(mem: Memory, addr: nat, t: seq<Desc>, u: seq<Desc>)
    requires Runs(mem, addr, t) && Runs(mem, addr, u)
    ensures t == u
    decreases |t|
  {
    if !t[0].Stops() {
      RunsDeterministic(mem, t[0].next, t[1..], u[1..]);
      assert t == [t[0]] + t[1..] && u == [u[0]] + u[1..];
    }
  }

  /** The hardware as a loop, for any memory in which the walk from addr comes to a stop. */
  method Execute(mem: Memory, start: nat, ghost trace: seq<Desc>) returns (executed: seq<Desc>)
    requires Runs(mem, start, trace)
    ensures executed == trace
  {
    var addr := start;
    executed := [];
    ghost var rest := trace;
    while true
      invariant Runs(mem, addr, rest) && executed + rest == trace
      decreases |rest|
    {
      var d := mem[addr];
      executed := executed + [d];
      if d.Stops() {
        return;
      }
      rest := rest[1..];
      addr := d.next;
    }
  }

  // ----- the walk by prefetched blocks -----

  predicate Holds(mem: Memory, addr: nat, d: Desc) {
    addr in mem && mem[addr] == d
  }

  /** The first n descriptors of the block lie at addr, back to back. */
  predicate FetchedTo(mem: Memory, addr: nat, block: seq<Desc>, n: nat) {
    forall k :: 0 <= k < n <= |block| ==> Holds(mem, addr + 32 * k, block[k])
  }

  predicate Fetched(mem: Memory, addr: nat, block: seq<Desc>) {
    FetchedTo(mem, addr, block, |block|)
  }

  /** The hardware fetches extra + 1 descriptors at addr, and then what the last of them says. */
  ghost predicate Fetches(mem: Memory, addr: nat, extra: nat, blocks: seq<seq<Desc>>)
    decreases |blocks|
  {
    && blocks != [] && |blocks[0]| == extra + 1 && Fetched(mem, addr, blocks[0])
    && var last := blocks[0][extra];
       if last.Stops() then |blocks| == 1 else Fetches(mem, last.next, last.control.extraAdj, blocks[1..])
  }

  function Concat(blocks: seq<seq<Desc>>): seq<Desc> {
    if blocks == [] then [] else blocks[0] + Concat(blocks[1..])
  }

  /** n descriptors at addr stay within one 4 KB page. */
  predicate InPage(addr: nat, n: nat) {
    addr % 4096 + 32 * n <= 4096
  }

  /** Blocks that lie back to back from addr on: at most 16 descriptors, within one 4 KB page. */
  predicate FitPages(addr: nat, blocks: seq<seq<Desc>>)
    decreases |blocks|
  {
    blocks == []
    || (&& 1 <= |blocks[0]| <= 15 + 1
        && InPage(addr, |blocks[0]|)
        && FitPages(addr + 32 * |blocks[0]|, blocks[1..]))
  }

  // ----- the chain the driver builds -----

  /** descs lie at bus, the first num of them form the chain, all carry the magic. */
  ghost predicate Shape(descs: seq<Desc>, bus: nat, num: nat) {
    && 1 <= num <= |descs|
    && (forall i :: 0 <= i < |descs| ==> descs[i].control.magic == MAGIC && descs[i].control.reserved == 0)
    && (forall i :: 0 <= i < num ==> ShapeAt(descs[i], bus, num, i))
  }

  ghost predicate ShapeAt(d: Desc, bus: nat, num: nat, i: nat) {
    && d.next == (if i + 1 < num then bus + 32 * (i + 1) else 0)
    && d.control.flags == (if i + 1 < num then 0 else LAST_FLAGS)
    && d.control.extraAdj == ExtraFor(AddrLow(d.next), num - i - 1)
  }

  /** What engine_start writes to first_desc_adjacent. */
  function FirstExtra(descAdjacent: int): (extra: nat)
    ensures descAdjacent <= 0 ==> extra == 0
    ensures descAdjacent > 0 ==>
              extra <= descAdjacent - 1 && extra <= 15 && (extra == 15 || extra == descAdjacent - 1)
  {
    if descAdjacent <= 0 then 0
    else if descAdjacent - 1 > 15 then 15
    else descAdjacent - 1
  }

  /** The prefetch count that is in force for a block that begins at descriptor j. */
  function ExtraAt(bus: nat, num: nat, j: nat): nat
    requires j < num
  {
    if j == 0 then FirstExtra(num)
    else ExtraFor(AddrLow(bus + 32 * j), num - j)
  }

  /** Descriptor i stops the engine if it is the last, and else tells where the next ones are. */
  lemma AfterDesc(descs: seq<Desc>, bus: nat, num: nat, i: nat)
    requires Shape(descs, bus, num) && i < num
    ensures descs[i].Stops() <==> i + 1 == num
    ensures i + 1 < num ==> && descs[i].next == bus + 32 * (i + 1)
                            && descs[i].control.extraAdj == ExtraAt(bus, num, i + 1)
  {
    assert ShapeAt(descs[i], bus, num, i);
  }

  /** Following next pointers from bus executes the num descriptors of the chain, in order,
      and no descriptor behind them. */
  lemma {:induction false} ChainRuns(mem: Memory, bus: nat, descs: seq<Desc>, num: nat, i: nat)
    requires Shape(descs, bus, num) && Fetched(mem, bus, descs) && i < num
    ensures Runs(mem, bus + 32 * i, descs[i..num])
    decreases num - i
  {
    var trace := descs[i..num];
    assert trace[0] == descs[i];
    AfterDesc(descs, bus, num, i);
    if i + 1 < num {
      ChainRuns(mem, bus, descs, num, i + 1);
      assert trace[1..] == descs[i + 1..num];
    }
  }

  lemma ExtraAtBounds(bus: nat, num: nat, j: nat)
    requires j < num && bus % 4096 == 0
    ensures j + ExtraAt(bus, num, j) < num && ExtraAt(bus, num, j) <= 15
    ensures InPage(bus + 32 * j, ExtraAt(bus, num, j) + 1)
  {
    hide ExtraFor, AddrLow;
    LowAlignment(bus, j);
  }

  lemma LowAlignment(bus: nat, j: nat)
    requires bus % 4096 == 0
    ensures var a := bus + 32 * j; AddrLow(a) % 4096 == a % 4096 && AddrLow(a) % 4096 + 32 <= 4096
  {
    var a := bus + 32 * j;
    LowPageOffset(a);
    MultipleOf32(a, 128 * (bus / 4096) + j);
  }

  lemma LowPageOffset(a: nat)
    ensures AddrLow(a) % 4096 == a % 4096
  {
    var (q, r) := (a / 0x1_0000_0000, a % 0x1_0000_0000);
    assert a == r + 4096 * (0x10_0000 * q);
    DropPages(r, 0x10_0000 * q);
  }

  lemma DropPages(r: nat, k: nat)
    ensures (r + 4096 * k) % 4096 == r % 4096
  {
  }

  lemma MultipleOf32(a: nat, k: nat)
    requires a == 32 * k
    ensures a % 4096 + 32 <= 4096
  {
  }

  /** Prefetching visits exactly what the pointer walk visits, and every block fits its page. */
  lemma {:induction false} PrefetchVisits(mem: Memory, bus: nat, descs: seq<Desc>, num: nat, j: nat,
                                          blocks: seq<seq<Desc>>)
    requires Shape(descs, bus, num) && Fetched(mem, bus, descs) && j < num && bus % 4096 == 0
    requires Fetches(mem, bus + 32 * j, ExtraAt(bus, num, j), blocks)
    ensures Concat(blocks) == descs[j..num] && FitPages(bus + 32 * j, blocks)
    decreases num - j
  {
    hide ExtraAt, ShapeAt, InPage, Fetched, Fetches, Concat;
    var (addr, extra) := (bus + 32 * j, ExtraAt(bus, num, j));
    FetchesHead(mem, addr, extra, blocks);
    ConcatHead(blocks);
    ExtraAtBounds(bus, num, j);
    var next := j + extra + 1;
    BlockIs(mem, bus, descs, num, j, blocks[0]);
    AfterDesc(descs, bus, num, next - 1);
    if next < num {
      PrefetchVisits(mem, bus, descs, num, next, blocks[1..]);
      SliceJoin(descs, j, next, num);
    }
  }

  lemma ConcatHead(blocks: seq<seq<Desc>>)
    requires blocks != []
    ensures Concat(blocks) == if blocks[1..] == [] then blocks[0] else blocks[0] + Concat(blocks[1..])
  {
  }

  lemma FetchesHead(mem: Memory, addr: nat, extra: nat, blocks: seq<seq<Desc>>)
    requires Fetches(mem, addr, extra, blocks)
    ensures blocks != [] && |blocks[0]| == extra + 1 && Fetched(mem, addr, blocks[0])
    ensures var last := blocks[0][extra];
            if last.Stops() then blocks[1..] == [] else Fetches(mem, last.next, last.control.extraAdj, blocks[1..])
  {
  }

  lemma SliceJoin(descs: seq<Desc>, a: nat, b: nat, c: nat)
    requires a <= b <= c <= |descs|
    ensures descs[a..b] + descs[b..c] == descs[a..c]
  {
  }

  lemma BlockIs(mem: Memory, bus: nat, descs: seq<Desc>, num: nat, j: nat, block: seq<Desc>)
    requires Fetched(mem, bus, descs) && j + |block| <= num <= |descs|
    requires Fetched(mem, bus + 32 * j, block)
    ensures block == descs[j..j + |block|]
  {
    forall k | 0 <= k < |block|
      ensures block[k] == descs[j + k]
    {
      assert bus + 32 * j + 32 * k == bus + 32 * (j + k);
    }
  }

  /** The prefetch walk exists: it never runs into memory that holds no descriptor. */
  lemma {:induction false} PrefetchExists(mem: Memory, bus: nat, descs: seq<Desc>, num: nat, j: nat)
    returns (blocks: seq<seq<Desc>>)
    requires Shape(descs, bus, num) && Fetched(mem, bus, descs) && j < num && bus % 4096 == 0
    ensures Fetches(mem, bus + 32 * j, ExtraAt(bus, num, j), blocks)
    decreases num - j
  {
    hide ExtraAt, ShapeAt, InPage, Fetched;
    ExtraAtBounds(bus, num, j);
    var next := j + ExtraAt(bus, num, j) + 1;
    var block := descs[j..next];
    SliceFetched(mem, bus, descs, j, next);
    AfterDesc(descs, bus, num, next - 1);
    if next < num {
      var rest := PrefetchExists(mem, bus, descs, num, next);
      blocks := [block] + rest;
      assert blocks[1..] == rest;
    } else {
      blocks := [block];
    }
  }

  lemma SliceFetched(mem: Memory, bus: nat, descs: seq<Desc>, a: nat, b: nat)
    requires Fetched(mem, bus, descs) && a <= b <= |descs|
    ensures Fetched(mem, bus + 32 * a, descs[a..b])
  {
    forall k | 0 <= k < b - a
      ensures Holds(mem, bus + 32 * a + 32 * k, descs[a..b][k])
    {
      assert bus + 32 * a + 32 * k == bus + 32 * (a + k);
      assert descs[a..b][k] == descs[a + k];
    }
  }

  /** Started as engine_start starts it, a prefetching engine executes what a walk along the next
      pointers executes: the chain. */
  lemma PrefetchEqualsPointers(mem: Memory, bus: nat, descs: seq<Desc>, num: nat, blocks: seq<seq<Desc>>)
    requires Shape(descs, bus, num) && Fetched(mem, bus, descs) && bus % 4096 == 0
    requires Fetches(mem, bus, FirstExtra(num), blocks)
    ensures Runs(mem, bus, Concat(blocks)) && Concat(blocks) == descs[..num] && FitPages(bus, blocks)
  {
    hide Runs, Fetches, FitPages, Concat, Fetched, ShapeAt;
    PrefetchVisits(mem, bus, descs, num, 0, blocks);
    ChainRuns(mem, bus, descs, num, 0);
    assert descs[0..num] == descs[..num];
  }

  // ----- laying out the chain -----

  /** What xdma_desc_alloc leaves behind. */
  ghost predicate Allocated(descs: seq<Desc>, bus: nat) {
    forall i :: 0 <= i < |descs| ==>
      && descs[i].next == (if i + 1 < |descs| then bus + 32 * (i + 1) else 0)
      && descs[i].control.magic == MAGIC && descs[i].control.reserved == 0 && descs[i].control.flags == 0
  }

  method DescAlloc(number: nat, descBus: nat) returns (descs: array<Desc>)
    requires !(number < 1)                               // BUG_ON
    ensures fresh(descs) && descs.Length == number && Allocated(descs[..], descBus)
    ensures forall i :: 0 <= i < number ==>
              && descs[i].bytes == 0
              && descs[i].control.extraAdj == (if i + 1 >= number then 0
                                               else if number - 2 - i > 15 then 15
                                               else number - 2 - i)
  {
    descs := new Desc[number];
    var bus, adj, i := descBus, number - 1, 0;
    while i < number - 1
      invariant 0 <= i <= number - 1 && adj == number - 1 - i && bus == descBus + 32 * i
      invariant forall k :: 0 <= k < i ==>
                  && descs[k].next == descBus + 32 * (k + 1) && descs[k].bytes == 0
                  && descs[k].control == Control(MAGIC, 0, if number - 2 - k > 15 then 15
                                                           else number - 2 - k, 0)
    {
      bus := bus + 32;
      var extraAdj := 0;
      if adj > 0 {
        extraAdj := adj - 1;
        if extraAdj > 15 {
          extraAdj := 15;
        }
        adj := adj - 1;
      }
      descs[i] := descs[i].(next := bus, bytes := 0, control := Control(MAGIC, 0, extraAdj, 0));
      i := i + 1;
    }
    descs[i] := descs[i].(next := 0, bytes := 0, control := Control(MAGIC, 0, 0, 0));
  }

  /** Same descriptors up to control words and next pointers. */
  ghost predicate SamePayloads(now: seq<Desc>, was: seq<Desc>) {
    && |now| == |was|
    && forall i :: 0 <= i < |now| ==>
         now[i].bytes == was[i].bytes && now[i].src == was[i].src && now[i].dst == was[i].dst
  }

  /** transfer_perf (or its twin for kernel buffers) and the loop over xdma_desc_adjacent. */
  method CloseChain(descs: array<Desc>, last: nat, ghost bus: nat)
    requires last < descs.Length && Allocated(descs[..], bus)
    modifies descs
    ensures Shape(descs[..], bus, last + 1) && SamePayloads(descs[..], old(descs[..]))
  {
    descs[last] := Link(descs[last], None);
    descs[last] := SetControl(descs[last], DESC_STOPPED | DESC_EOP | DESC_COMPLETED);
    var descNum, i := last + 1, 0;
    while i < descNum
      invariant 0 <= i <= descNum
      invariant forall k :: 0 <= k < descs.Length ==>
                  && descs[k].bytes == old(descs[k]).bytes && descs[k].src == old(descs[k]).src
                  && descs[k].dst == old(descs[k]).dst
                  && descs[k].control.magic == MAGIC && descs[k].control.reserved == 0
      invariant forall k :: 0 <= k < i ==> ShapeAt(descs[k], bus, descNum, k)
      invariant forall k :: i <= k < descNum ==>
                  && descs[k].next == (if k + 1 < descNum then bus + 32 * (k + 1) else 0)
                  && descs[k].control.flags == (if k + 1 < descNum then 0 else LAST_FLAGS)
    {
      descs[i] := Adjacent(descs[i], descNum - i - 1);
      i := i + 1;
    }
  }
}
