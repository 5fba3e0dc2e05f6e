/**
  transfer_build: a mapped scatterlist becomes a list of descriptors, one for each maximal block
  of entries that are contiguous in bus address and fit under the descriptor size limit.
 */
module Coalesce {
  import opened Words
  import opened Descriptors

  /** A mapped scatterlist entry, or a block of several contiguous ones. */
  datatype Seg = Seg(addr: nat, len: nat)

  /** The number of bytes in the first n segments. */
  function Sum(segs: seq<Seg>, n: nat): nat
    requires n <= |segs|
  {
    if n == 0 then 0 else Sum(segs, n - 1) + segs[n - 1].len
  }

  /** The bus address of every byte of the first n segments, in order. */
  function Expand(segs: seq<Seg>, n: nat): (bytes: seq<nat>)
    requires n <= |segs|
    ensures |bytes| == Sum(segs, n)
  {
    if n == 0 then [] else Expand(segs, n - 1) + Run(segs[n - 1].addr, segs[n - 1].len)
  }

  /** Only the first n segments matter. */
  lemma {:induction false} PrefixOnly(a: seq<Seg>, b: seq<Seg>, n: nat)
    requires n <= |a| && n <= |b| && forall i :: 0 <= i < n ==> a[i] == b[i]
    ensures Sum(a, n) == Sum(b, n) && Expand(a, n) == Expand(b, n)
  {
    if n > 0 {
      PrefixOnly(a, b, n - 1);
    }
  }

  // ----- the blocks -----

  /** The end-point address of block j: start plus the bytes before it, or constant. */
  function EpAt(blocks: seq<Seg>, j: nat, ep: nat, incr: bool): nat
    requires j <= |blocks|
  {
    if incr then ep + Sum(blocks, j) else ep
  }

  /** Whether an entry at bus address next starts a new block after cur. */
  predicate Splits(cur: Seg, next: nat, force: bool) {
    force || next != cur.addr + cur.len || cur.len > 262143 - 4096
  }

  /** One more entry starts a new block or joins the last one. */
  function Append(rest: seq<Seg>, cur: Seg, s: Seg, force: bool): (r: seq<Seg>)
    ensures |rest| + 1 <= |r| <= |rest| + 2
  {
    if Splits(cur, s.addr, force) then rest + [cur] + [s] else rest + [Seg(cur.addr, cur.len + s.len)]
  }

  /** The blocks of the first n entries. */
  function Blocks(segs: seq<Seg>, n: nat, force: bool): (blocks: seq<Seg>)
    requires 1 <= n <= |segs|
    ensures 1 <= |blocks| <= n
    ensures n == 1 ==> blocks == [segs[0]]
  {
    if n == 1 then [segs[0]]
    else
      var before := Blocks(segs, n - 1, force);
      Append(before[..|before| - 1], before[|before| - 1], segs[n - 1], force)
  }

  lemma BlocksAppend(segs: seq<Seg>, n: nat, force: bool)
    requires 1 < n <= |segs|
    ensures var before := Blocks(segs, n - 1, force);
            Blocks(segs, n, force) == Append(before[..|before| - 1], before[|before| - 1], segs[n - 1], force)
  {
  }

  /** What one more entry does to the last block, to the blocks before it and to the end point. */
  lemma BlocksNext(segs: seq<Seg>, n: nat, force: bool, ep: nat, incr: bool)
    requires 1 <= n < |segs|
    ensures var (before, after, s) := (Blocks(segs, n, force), Blocks(segs, n + 1, force), segs[n]);
            var (m, cur) := (|before| - 1, before[|before| - 1]);
            && (forall k :: 0 <= k < m ==> after[k] == before[k])
            && EpAt(after, m, ep, incr) == EpAt(before, m, ep, incr)
            && if Splits(cur, s.addr, force)
               then |after| == m + 2 && after[m] == cur && after[m + 1] == s
                    && EpAt(after, m + 1, ep, incr) == EpAt(before, m, ep, incr) + (if incr then cur.len else 0)
               else |after| == m + 1 && after[m] == Seg(cur.addr, cur.len + s.len)
  {
    hide Blocks;
    BlocksAppend(segs, n + 1, force);
    var (before, after) := (Blocks(segs, n, force), Blocks(segs, n + 1, force));
    PrefixOnly(after, before, |before| - 1);
  }

  lemma ExpandSnoc(segs: seq<Seg>, s: Seg)
    ensures Expand(segs + [s], |segs| + 1) == Expand(segs, |segs|) + Run(s.addr, s.len)
    ensures Sum(segs + [s], |segs| + 1) == Sum(segs, |segs|) + s.len
  {
    PrefixOnly(segs + [s], segs, |segs|);
  }

  /** Joining a contiguous entry to the block before it changes no byte address. */
  lemma AppendExpand(rest: seq<Seg>, cur: Seg, s: Seg, force: bool)
    ensures var r := Append(rest, cur, s, force);
            Expand(r, |r|) == Expand(rest, |rest|) + Run(cur.addr, cur.len) + Run(s.addr, s.len)
  {
    hide Expand, Run;
    var (bytes, a, b) := (Expand(rest, |rest|), Run(cur.addr, cur.len), Run(s.addr, s.len));
    if Splits(cur, s.addr, force) {
      ExpandSnoc(rest, cur);
      ExpandSnoc(rest + [cur], s);
    } else {
      RunSplit(cur.addr, cur.len, s.len);
      ExpandSnoc(rest, Seg(cur.addr, cur.len + s.len));
      assert bytes + (a + b) == bytes + a + b;
    }
  }

  /** Coalescing keeps every byte address, in order. */
  lemma {:induction false} BlocksExpand(segs: seq<Seg>, n: nat, force: bool)
    requires 1 <= n <= |segs|
    ensures var blocks := Blocks(segs, n, force);
            Expand(blocks, |blocks|) == Expand(segs, n)
  {
    hide Blocks, Append, Run;
    if n > 1 {
      BlocksExpand(segs, n - 1, force);
      BlocksAppend(segs, n, force);
      var before := Blocks(segs, n - 1, force);
      LastExpand(before);
      AppendExpand(before[..|before| - 1], before[|before| - 1], segs[n - 1], force);
    } else {
      assert Blocks(segs, 1, force) == segs[..1];
      PrefixOnly(segs[..1], segs, 1);
    }
  }

  lemma LastExpand(blocks: seq<Seg>)
    requires blocks != []
    ensures var (rest, cur) := (blocks[..|blocks| - 1], blocks[|blocks| - 1]);
            Expand(blocks, |blocks|) == Expand(rest, |rest|) + Run(cur.addr, cur.len)
  {
    PrefixOnly(blocks, blocks[..|blocks| - 1], |blocks| - 1);
  }

  /** Blocks are non-empty and at most one entry longer than the merge limit. */
  lemma {:induction false} BlocksBound(segs: seq<Seg>, n: nat, force: bool, entryMax: nat)
    requires 1 <= n <= |segs| && forall i :: 0 <= i < n ==> 1 <= segs[i].len <= entryMax
    ensures forall j :: 0 <= j < |Blocks(segs, n, force)| ==>
              1 <= Blocks(segs, n, force)[j].len <= 262143 - 4096 + entryMax
  {
    if n > 1 {
      BlocksBound(segs, n - 1, force, entryMax);
    }
  }

  lemma {:induction false} BlocksSplit(segs: seq<Seg>, n: nat, force: bool)
    requires 1 <= n <= |segs|
    ensures forall j :: 0 < j < |Blocks(segs, n, force)| ==>
              Splits(Blocks(segs, n, force)[j - 1], Blocks(segs, n, force)[j].addr, force)
  {
    if n > 1 {
      BlocksSplit(segs, n - 1, force);
    }
  }

  /** Merging is maximal: two blocks in a row are apart because there is a gap between them, because the first is
      too long for one more page, or because every entry is to be a block. */
  lemma BlocksMaximal(segs: seq<Seg>, n: nat, force: bool, j: nat)
    requires 1 <= n <= |segs| && 0 < j < |Blocks(segs, n, force)|
    ensures var (a, b) := (Blocks(segs, n, force)[j - 1], Blocks(segs, n, force)[j]);
            a.addr + a.len != b.addr || a.len > 258047 || force
  {
    hide Blocks;
    BlocksSplit(segs, n, force);
  }

  /** With force_new_desc every entry keeps its own block. */
  lemma {:induction false} BlocksForced(segs: seq<Seg>, n: nat)
    requires 1 <= n <= |segs|
    ensures Blocks(segs, n, true) == segs[..n]
  {
    if n > 1 {
      BlocksForced(segs, n - 1);
    }
  }

  // ----- the size limit -----

  /** The blocks of the whole scatterlist. */
  function AllBlocks(segs: seq<Seg>, force: bool): (blocks: seq<Seg>)
    requires segs != []
  {
    Blocks(segs, |segs|, force)
  }

  predicate EntriesUpTo(segs: seq<Seg>, entryMax: nat) {
    segs != [] && forall i :: 0 <= i < |segs| ==> 1 <= segs[i].len <= entryMax
  }

  ghost predicate WithinLimit(entryMax: nat) {
    forall segs: seq<Seg> | EntriesUpTo(segs, entryMax) ::
      forall j :: 0 <= j < |AllBlocks(segs, false)| ==> AllBlocks(segs, false)[j].len <= 262143
  }

  /** No descriptor exceeds 262143 bytes, for all scatterlists, exactly when the mapping never
      makes entries longer than a page. */
  lemma LimitIffPageEntries(entryMax: nat)
    requires entryMax >= 1
    ensures WithinLimit(entryMax) <==> entryMax <= 4096
  {
    hide Blocks, Sum;
    if entryMax <= 4096 {
      forall segs: seq<Seg> | EntriesUpTo(segs, entryMax)
        ensures forall j :: 0 <= j < |AllBlocks(segs, false)| ==> AllBlocks(segs, false)[j].len <= 262143
      {
        BlocksBound(segs, |segs|, false, entryMax);
      }
    } else {
      var segs := Pages(63) + [Seg(63 * 4096, entryMax)];
      PagesMerge(segs, 63);
      BlocksNext(segs, 63, false, 0, false);
      assert EntriesUpTo(segs, entryMax);
      assert AllBlocks(segs, false)[0].len > 262143;
    }
  }

  /** n consecutive pages, the first from its byte 1 on. */
  function Pages(n: nat): (segs: seq<Seg>)
    requires n <= 64
    ensures |segs| == n && forall i :: 0 <= i < n ==> segs[i] == PageSeg(i)
  {
    seq(n, i requires 0 <= i < n => PageSeg(i))
  }

  function PageSeg(i: nat): (s: Seg)
    requires i <= 64
    ensures 1 <= s.len <= 4096
  {
    if i == 0 then Seg(1, 4096 - 1) else Seg(i * 4096, 4096)
  }

  lemma {:induction false} PagesMerge(segs: seq<Seg>, n: nat)
    requires 1 <= n <= 64 && n <= |segs| && forall i :: 0 <= i < n ==> segs[i] == PageSeg(i)
    ensures |Blocks(segs, n, false)| == 1 && Blocks(segs, n, false)[0] == Seg(1, n * 4096 - 1)
  {
    if n > 1 {
      PagesMerge(segs, n - 1);
      PageJoins(n - 1);
      BlocksNext(segs, n - 1, false, 0, false);
    }
  }

  lemma PageJoins(i: nat)
    requires 1 <= i < 64
    ensures !Splits(Seg(1, i * 4096 - 1), PageSeg(i).addr, false)
  {
  }

  /** The bound is attained by 64 pages of which the first starts one byte late. */
  lemma LimitAttained(n: nat)
    requires n == 64
    ensures EntriesUpTo(Pages(n), 4096) && AllBlocks(Pages(n), false) == [Seg(1, 262143)]
  {
    PagesMerge(Pages(n), n);
  }

  // ----- descriptors for the blocks -----

  /** d moves block b to or from end-point address ep. */
  predicate Moves(d: Desc, b: Seg, ep: nat, toDev: bool) {
    && d.bytes == b.len
    && (if toDev then d.src == b.addr && d.dst == ep else d.src == ep && d.dst == b.addr)
  }

  /** The first n descriptors move the first n blocks, one each. */
  ghost predicate PlacedTo(descs: seq<Desc>, blocks: seq<Seg>, n: nat, ep: nat, incr: bool, toDev: bool) {
    && n <= |blocks| && n <= |descs|
    && forall j {:trigger descs[j]} :: 0 <= j < n ==> Moves(descs[j], blocks[j], EpAt(blocks, j, ep, incr), toDev)
  }

  ghost predicate Placed(descs: seq<Desc>, blocks: seq<Seg>, ep: nat, incr: bool, toDev: bool) {
    PlacedTo(descs, blocks, |blocks|, ep, incr, toDev)
  }

  /** Descriptors below n keep control word and next pointer, those from n on keep everything. */
  ghost predicate LinksKept(now: seq<Desc>, was: seq<Desc>, n: nat) {
    && |now| == |was|
    && (forall k :: 0 <= k < n <= |now| ==> now[k].control == was[k].control && now[k].next == was[k].next)
    && (forall k :: n <= k < |now| ==> now[k] == was[k])
  }

  method TransferBuild(descs: array<Desc>, sgl: seq<Seg>, epAddr: nat, toDev: bool, nonIncr: bool,
                       forceNewDesc: bool, userspace: bool) returns (last: nat)
    requires sgl != [] && |sgl| <= descs.Length
    modifies descs
    ensures last + 1 == |AllBlocks(sgl, forceNewDesc && !userspace)|
    ensures Placed(descs[..], AllBlocks(sgl, forceNewDesc && !userspace), epAddr, !(userspace && nonIncr), toDev)
    ensures LinksKept(descs[..], old(descs[..]), last + 1)
  {
    hide Blocks;
    ghost var was := descs[..];
    ghost var force := forceNewDesc && !userspace;
    ghost var incr := !(userspace && nonIncr);
    var ep, j := epAddr, 0;
    var addr := sgl[0].addr;
    var contAddr: nat, contLen: nat := addr, 0;
    var i := 0;
    ghost var blocks := Blocks(sgl, 1, force);
    while i < |sgl| - 1
      invariant 0 <= i < |sgl| && addr == sgl[i].addr == contAddr + contLen
      invariant blocks == Blocks(sgl, i + 1, force) && |blocks| == j + 1 <= i + 1
      invariant blocks[j] == Seg(contAddr, contLen + sgl[i].len) && ep == EpAt(blocks, j, epAddr, incr)
      invariant PlacedTo(descs[..], blocks, j, epAddr, incr, toDev) && LinksKept(descs[..], was, j)
    {
      var next, len := sgl[i + 1].addr, sgl[i].len;
      contLen := contLen + len;
      var newDesc := false;
      if next != addr + len {
        newDesc := true;
      } else if contLen > 262143 - 4096 {
        newDesc := true;
      }
      if forceNewDesc && !userspace {
        newDesc := true;
      }
      assert newDesc == Splits(blocks[j], next, force);
      if newDesc {
        SetDesc(descs, j, contAddr, ep, contLen, toDev, was, blocks, epAddr, incr);
        if userspace {
          if !nonIncr {
            ep := ep + contLen;
          }
        } else {
          ep := ep + contLen;
        }
        contAddr, contLen := next, 0;
        j := j + 1;
      }
      BlocksNext(sgl, i + 1, force, epAddr, incr);
      PlacedStays(descs[..], blocks, Blocks(sgl, i + 2, force), j, epAddr, incr, toDev);
      blocks := Blocks(sgl, i + 2, force);
      addr := next;
      i := i + 1;
    }
    contLen := contLen + sgl[i].len;
    assert !(j > |sgl|);                                 // BUG_ON
    SetDesc(descs, j, contAddr, ep, contLen, toDev, was, blocks, epAddr, incr);
    return j;
  }

  /** xdma_desc_set on descriptor j, which places block j. */
  method SetDesc(descs: array<Desc>, j: nat, rcBus: nat, ep: nat, len: nat, toDev: bool,
                 ghost was: seq<Desc>, ghost blocks: seq<Seg>, ghost start: nat, ghost incr: bool)
    requires j < |blocks| && j < descs.Length
    requires blocks[j] == Seg(rcBus, len) && ep == EpAt(blocks, j, start, incr)
    requires PlacedTo(descs[..], blocks, j, start, incr, toDev) && LinksKept(descs[..], was, j)
    modifies descs
    ensures PlacedTo(descs[..], blocks, j + 1, start, incr, toDev) && LinksKept(descs[..], was, j + 1)
  {
    descs[j] := Fill(descs[j], rcBus, ep, len, toDev);
  }

  /** Blocks already finished stay as they are when an entry is added. */
  lemma PlacedStays(descs: seq<Desc>, before: seq<Seg>, after: seq<Seg>, n: nat, ep: nat, incr: bool, toDev: bool)
    requires PlacedTo(descs, before, n, ep, incr, toDev) && n <= |after|
    requires forall k :: 0 <= k < n ==> after[k] == before[k]
    ensures PlacedTo(descs, after, n, ep, incr, toDev)
  {
    forall k | 0 <= k < n
      ensures Moves(descs[k], after[k], EpAt(after, k, ep, incr), toDev)
    {
      PrefixOnly(after, before, k);
    }
  }
}
