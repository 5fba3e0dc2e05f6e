/**
  xdma-sgm.c: a virtual buffer is cut into page fragments, and the pages are pinned while a
  mapper refers to them. The page table is the parameter `frame`, from virtual page numbers to
  page frames; how many pages the kernel manages to pin is the parameter `granted`.
 */
module SgMapper {
  import opened Errno
  import opened Words

  /** nr_pages is a C int; every caller asks for far fewer bytes than this. */
  const MAX_COUNT: nat := 0x7FFF_FFF0 * 4096

  datatype PageRef = Null | Page(frame: nat)
  datatype SgEntry = SgEntry(page: PageRef, offset: nat, length: nat)

  type PageTable = nat -> nat

  // ----- what the scatterlist must be -----

  function PageOf(a: nat): nat {
    a / 4096
  }

  function PageCount(start: u64, count: nat): (n: nat)
    requires count >= 1
    ensures n >= 1
  {
    PageOf(start + count - 1) - PageOf(start) + 1
  }

  /** The frames behind the first n pages of a buffer. */
  function Frames(frame: PageTable, start: u64, n: nat): (fs: seq<nat>)
    ensures |fs| == n
  {
    seq<nat>(n, i requires 0 <= i < n => frame(PageOf(start) + i))
  }

  /** The frame that holds the byte at an address. */
  function FrameAt(frame: PageTable, a: nat): nat {
    frame(PageOf(a))
  }

  /** The frames that hold the first n bytes from start on. */
  function Touched(frame: PageTable, start: nat, n: nat): set<nat> {
    set a | start <= a < start + n :: FrameAt(frame, a)
  }

  /** The frames behind the pages of a buffer are those of its bytes. */
  lemma FramesTouched(frame: PageTable, start: u64, count: nat)
    requires count >= 1
    ensures (set f | f in Frames(frame, start, PageCount(start, count))) == Touched(frame, start, count)
  {
    hide PageOf, PageCount;
    var (n, fs) := (PageCount(start, count), Frames(frame, start, PageCount(start, count)));
    forall i: nat | i < n
      ensures fs[i] in Touched(frame, start, count)
    {
      var k := ByteOfPage(start, count, i);
      assert FrameAt(frame, start + k) == fs[i];
    }
    forall a | start <= a < start + count
      ensures FrameAt(frame, a) in fs
    {
      PageOfByte(start, count, a - start);
      assert fs[PageOf(a) - PageOf(start)] == FrameAt(frame, a);
    }
  }

  lemma ByteOfPage(start: u64, count: nat, i: nat) returns (k: nat)
    requires count >= 1 && i < PageCount(start, count)
    ensures k < count && PageOf(start + k) == PageOf(start) + i
  {
    k := if i == 0 then 0 else (PageOf(start) + i) * 4096 - start;
  }

  lemma PageOfByte(start: u64, count: nat, k: nat)
    requires k < count
    ensures 0 <= PageOf(start + k) - PageOf(start) < PageCount(start, count)
  {
  }

  /** The intersection of the buffer with its i-th page. */
  function Fragment(frame: PageTable, start: u64, count: nat, i: nat): SgEntry
    requires count >= 1 && i < PageCount(start, count)
  {
    var pageStart := (PageOf(start) + i) * 4096;
    var lo := if pageStart < start then start else pageStart;
    var hi := if start + count < pageStart + 4096 then start + count else pageStart + 4096;
    SgEntry(Page(frame(PageOf(start) + i)), lo - pageStart, hi - lo)
  }

  function Fragments(frame: PageTable, start: u64, count: nat): (es: seq<SgEntry>)
    requires count >= 1
    ensures |es| == PageCount(start, count)
  {
    seq(PageCount(start, count), i requires 0 <= i < PageCount(start, count) => Fragment(frame, start, count, i))
  }

  function TotalLength(es: seq<SgEntry>): nat {
    if es == [] then 0 else TotalLength(es[..|es| - 1]) + es[|es| - 1].length
  }

  /** How much of the buffer lies before its n-th page. */
  function Before(start: u64, count: nat, n: nat): (b: nat)
    requires count >= 1 && n <= PageCount(start, count)
    ensures b <= count
    ensures n == 0 ==> b == 0
    ensures n == PageCount(start, count) ==> b == count
  {
    if n == 0 then 0
    else if n == PageCount(start, count) then count
    else (PageOf(start) + n) * 4096 - start
  }

  /** Fragment i is a non-empty part of one page and starts where the i fragments before it end. */
  lemma FragmentBounds(frame: PageTable, start: u64, count: nat, i: nat)
    requires count >= 1 && i < PageCount(start, count)
    ensures var e := Fragment(frame, start, count, i);
            && e.page == Page(frame(PageOf(start) + i))
            && 1 <= e.length && e.offset + e.length <= 4096 && (i > 0 ==> e.offset == 0)
            && (PageOf(start) + i) * 4096 + e.offset == start + Before(start, count, i)
            && Before(start, count, i + 1) == Before(start, count, i) + e.length
  {
  }

  /** The fragments partition [start, start + count) in page order. */
  lemma {:induction false} FragmentsPartition(frame: PageTable, start: u64, count: nat, n: nat)
    requires count >= 1 && n <= PageCount(start, count)
    ensures TotalLength(Fragments(frame, start, count)[..n]) == Before(start, count, n)
  {
    if n > 0 {
      FragmentsPartition(frame, start, count, n - 1);
      FragmentBounds(frame, start, count, n - 1);
      var es := Fragments(frame, start, count);
      assert es[..n][..n - 1] == es[..n - 1];
    }
  }

  /** A mapper for max_len bytes has room for every buffer of at most max_len bytes. */
  lemma PageBound(start: u64, count: nat, maxLen: nat)
    requires 1 <= count <= maxLen
    ensures 1 <= PageCount(start, count) <= maxLen / 4096 + 2
  {
  }

  // ----- kernel pages -----

  /** The n kernel pages from page first on all have a frame. */
  predicate AllResident(resident: nat -> PageRef, first: nat, n: nat) {
    forall p :: first <= p < first + n ==> resident(p).Page?
  }

  /** No page that the loop over them looks at lies in high memory; it stops at the first without a frame. */
  predicate NoHighMem(resident: nat -> PageRef, highMem: nat -> bool, first: nat, n: nat) {
    forall p :: first <= p < first + n && AllResident(resident, first, p + 1 - first) ==> !highMem(resident(p).frame)
  }

  // ----- pinned pages -----

  /** The first n pages of the buffer are pinned once more and stand in the array; nothing else changed. */
  ghost predicate Pinned(frame: PageTable, start: u64, pins0: multiset<nat>, pages0: seq<PageRef>, n: nat,
                         pins: multiset<nat>, pages: seq<PageRef>) {
    && n <= |pages| == |pages0| && pins == pins0 + multiset(Frames(frame, start, n))
    && (forall i :: 0 <= i < n ==> pages[i] == Page(frame(PageOf(start) + i)))
    && (forall i :: n <= i < |pages| ==> pages[i] == pages0[i])
  }

  lemma PinnedNone(frame: PageTable, start: u64, pins: multiset<nat>, pages: seq<PageRef>)
    ensures Pinned(frame, start, pins, pages, 0, pins, pages)
  {
    assert Frames(frame, start, 0) == [];
  }

  lemma PinnedOne(frame: PageTable, start: u64, pins0: multiset<nat>, pages0: seq<PageRef>, n: nat,
                  pins: multiset<nat>, pages: seq<PageRef>)
    requires Pinned(frame, start, pins0, pages0, n, pins, pages) && n < |pages|
    ensures var f := frame(PageOf(start) + n);
            Pinned(frame, start, pins0, pages0, n + 1, pins + multiset{f}, pages[n := Page(f)])
  {
    hide PageOf;
    assert Frames(frame, start, n + 1) == Frames(frame, start, n) + [frame(PageOf(start) + n)];
  }

  /** The references left when the first n of fs are given back. */
  ghost function Left(pins: multiset<nat>, fs: seq<nat>, n: nat): multiset<nat>
    requires n <= |fs|
  {
    pins - multiset(fs[..n])
  }

  lemma LeftEnds(pins: multiset<nat>, fs: seq<nat>)
    ensures Left(pins, fs, 0) == pins && Left(pins, fs, |fs|) == pins - multiset(fs)
  {
    assert fs[..|fs|] == fs;
  }

  lemma LeftStep(pins: multiset<nat>, fs: seq<nat>, n: nat)
    requires n < |fs| && multiset(fs) <= pins
    ensures fs[n] in Left(pins, fs, n) && Left(pins, fs, n + 1) == Left(pins, fs, n) - multiset{fs[n]}
  {
    assert fs == fs[..n + 1] + fs[n + 1..];
    assert fs[..n + 1] == fs[..n] + [fs[n]];
  }

  /** One element of pins for every reference that get_user_pages_fast took. */
  class PinTable {
    var pins: multiset<nat>
    var dirty: set<nat>

    constructor ()
      ensures pins == multiset{} && dirty == {}
    {
      pins, dirty := multiset{}, {};
    }

    method GetUserPagesFast(frame: PageTable, start: u64, nrPages: nat, granted: int, pages: array<PageRef>)
      returns (rc: int)
      requires nrPages <= pages.Length && granted <= nrPages
      modifies this`pins, pages
      ensures rc == granted
      ensures var n := if granted > 0 then granted else 0;
              Pinned(frame, start, old(pins), old(pages[..]), n, pins, pages[..])
    {
      hide PageOf, Frames, Pinned;
      var i: nat := 0;
      PinnedNone(frame, start, pins, pages[..]);
      while i < granted
        invariant (granted >= 0 ==> i <= granted) && (granted < 0 ==> i == 0)
        invariant Pinned(frame, start, old(pins), old(pages[..]), i, pins, pages[..])
      {
        ghost var before := pages[..];
        PinnedOne(frame, start, old(pins), old(pages[..]), i, pins, before);
        pages[i] := Page(frame(PageOf(start) + i));
        assert pages[..] == before[i := Page(frame(PageOf(start) + i))];
        pins := pins + multiset{frame(PageOf(start) + i)};
        i := i + 1;
      }
      rc := granted;
    }

    method PutPage(page: PageRef)
      requires page.Page? && page.frame in pins
      modifies this`pins
      ensures pins == old(pins) - multiset{page.frame}
    {
      pins := pins - multiset{page.frame};
    }

    /** Releases the first n pages of an array, once each. */
    method PutPages(pages: array<PageRef>, n: nat, ghost fs: seq<nat>)
      requires n == |fs| <= pages.Length && multiset(fs) <= pins
      requires forall i :: 0 <= i < n ==> pages[i] == Page(fs[i])
      modifies this`pins
      ensures pins == old(pins) - multiset(fs)
    {
      hide Left;
      var i: nat := 0;
      LeftEnds(pins, fs);
      while i < n
        invariant i <= n && pins == Left(old(pins), fs, i)
      {
        LeftStep(old(pins), fs, i);
        PutPage(pages[i]);
        i := i + 1;
      }
    }
  }

  // ----- the mapper -----

  /** An unsigned long stored in an int. */
  function Cut(x: int): int {
    (x + 0x8000_0000) % 0x1_0000_0000 - 0x8000_0000
  }

  lemma CutKeeps(x: int)
    ensures -0x8000_0000 <= x < 0x8000_0000 ==> Cut(x) == x
  {
  }

  lemma SpanBound(start: u64, count: nat)
    requires count <= MAX_COUNT
    ensures var span := PageOf((start + count - 1) % 0x1_0000_0000_0000_0000) - PageOf(start) + 1;
      && (1 <= count <= 0x1_0000_0000_0000_0000 - start ==> span == PageCount(start, count) < 0x8000_0000)
      && (count == 0 && start > 0 ==> 0 <= span <= 1)
      && (count == 0 && start == 0 ==> span == 0x10_0000_0000_0000)
  {
  }

  class Mapper {
    const pages: array<PageRef>
    const sgl: array<SgEntry>
    const maxPages: nat
    var mappedPages: nat

    ghost predicate Valid()
      reads this
    {
      pages.Length == maxPages == sgl.Length && mappedPages <= maxPages && maxPages >= 2
    }

    /** The mapper holds the page fragments of this buffer. */
    ghost predicate Maps(frame: PageTable, start: u64, count: nat)
      requires count >= 1
      reads this, pages, sgl
    {
      && Valid() && mappedPages == PageCount(start, count)
      && sgl[..mappedPages] == Fragments(frame, start, count)
      && forall i :: 0 <= i < mappedPages ==> pages[i] == Page(frame(PageOf(start) + i))
    }

    /** sg_create_mapper; the NULL result for max_len == 0 is the caller's BUG_ON. */
    constructor (maxLen: nat)
      requires maxLen >= 1
      ensures Valid() && fresh(this) && fresh(pages) && fresh(sgl)
      ensures mappedPages == 0 && maxPages == maxLen / 4096 + 2
    {
      var n := maxLen / 4096 + 2;
      pages := new PageRef[n](_ => Null);
      sgl := new SgEntry[n](_ => SgEntry(Null, 0, 0));
      maxPages, mappedPages := n, 0;
    }

    /** The part that both variants share: from the page array to the scatterlist. */
    method Populate(frame: PageTable, start: u64, total: nat, nrPages: nat)
      requires Valid() && total >= 1 && nrPages == PageCount(start, total) == mappedPages
      requires forall i :: 0 <= i < nrPages ==> pages[i] == Page(frame(PageOf(start) + i))
      modifies sgl
      ensures Maps(frame, start, total)
    {
      var count := total;
      ghost var es := Fragments(frame, start, total);
      sgl[0] := SgEntry(pages[0], start % 4096, 0);
      if nrPages > 1 {
        sgl[0] := sgl[0].(length := 4096 - sgl[0].offset);
        count := count - sgl[0].length;
        var i := 1;
        while i < nrPages - 1
          invariant 1 <= i <= nrPages - 1
          invariant count == start + total - (PageOf(start) + i) * 4096
          invariant forall k :: 0 <= k < i ==> sgl[k] == es[k]
        {
          assert !(count < 4096);                  // BUG_ON
          sgl[i] := SgEntry(pages[i], 0, 4096);
          count := count - 4096;
          i := i + 1;
        }
        assert !(count > 4096);                    // BUG_ON
        sgl[i] := SgEntry(pages[i], 0, count);
      } else {
        sgl[0] := sgl[0].(length := count);
      }
      assert sgl[..nrPages] == es;
    }

    /** The page count as the C code computes it: unsigned long arithmetic, cut to an int. */
    function NrPages(start: u64, count: nat): (nr: int)
      requires count <= MAX_COUNT
      ensures 1 <= count <= 0x1_0000_0000_0000_0000 - start ==> nr == PageCount(start, count)
      ensures count == 0 ==> 0 <= nr <= 1
    {
      var span := PageOf((start + count - 1) % 0x1_0000_0000_0000_0000) - PageOf(start) + 1;
      SpanBound(start, count);
      CutKeeps(span);
      Cut(span)
    }

    /** Pins nrPages pages or none: a short pin is undone and reported as -ENOMEM. */
    method Pin(pt: PinTable, frame: PageTable, start: u64, nrPages: nat, granted: int) returns (rc: int)
      requires Valid() && mappedPages == 0 && 1 <= nrPages <= maxPages && granted <= nrPages
      modifies this`mappedPages, pages, pt`pins
      ensures Valid()
      ensures rc == if granted < nrPages then -ENOMEM else nrPages
      ensures rc <= 0 ==> mappedPages == 0 && pt.pins == old(pt.pins)
      ensures rc > 0 ==> mappedPages == nrPages && pt.pins == old(pt.pins) + multiset(Frames(frame, start, nrPages))
                         && forall i :: 0 <= i < nrPages ==> pages[i] == Page(frame(PageOf(start) + i))
    {
      hide PageOf, Frames;
      ClearPages(nrPages - 1);
      rc := pt.GetUserPagesFast(frame, start, nrPages, granted, pages);
      if rc < nrPages {
        if rc > 0 { mappedPages := rc; }
        Unpin(pt, frame, start, old(pt.pins));
        return -ENOMEM;
      }
      mappedPages := rc;
    }

    method ClearPages(n: nat)
      requires Valid() && n <= maxPages
      modifies pages
      ensures forall i :: 0 <= i < pages.Length ==> pages[i] == if i < n then Null else old(pages[i])
    {
      var i := 0;
      while i < n
        invariant 0 <= i <= n
        invariant forall k :: 0 <= k < pages.Length ==> pages[k] == if k < i then Null else old(pages[k])
      {
        pages[i] := Null;
        i := i + 1;
      }
    }

    /** out_unmap: the pages that were pinned after all are put. */
    method Unpin(pt: PinTable, frame: PageTable, start: u64, ghost pins: multiset<nat>)
      requires Valid() && pt.pins == pins + multiset(Frames(frame, start, mappedPages))
      requires forall i :: 0 <= i < mappedPages ==> pages[i] == Page(frame(PageOf(start) + i))
      modifies this`mappedPages, pt`pins
      ensures Valid() && mappedPages == 0 && pt.pins == pins
    {
      hide PageOf;
      pt.PutPages(pages, mappedPages, Frames(frame, start, mappedPages));
      mappedPages := 0;
    }

    method GetUserPages(pt: PinTable, frame: PageTable, start: u64, count: nat, granted: int) returns (rc: int)
      requires Valid() && count <= MAX_COUNT
      requires mappedPages == 0                          // BUG_ON
      requires count >= 1 ==> granted <= PageCount(start, count)
      modifies this, pages, sgl, pt`pins
      ensures Valid()
      ensures start + count >= 0x1_0000_0000_0000_0000 && count >= 1 ==> rc == -EINVAL
      ensures count == 0 ==> rc == 0
      ensures 1 <= count < 0x1_0000_0000_0000_0000 - start ==>
                rc == if PageCount(start, count) > maxPages then -EINVAL
                      else if granted < PageCount(start, count) then -ENOMEM else PageCount(start, count)
      ensures rc <= 0 ==> mappedPages == 0 && pt.pins == old(pt.pins)
      ensures rc > 0 ==> Maps(frame, start, count) && pt.pins == old(pt.pins) + multiset(Frames(frame, start, rc))
    {
      hide PageOf, NrPages, PageCount;
      var nrPages := NrPages(start, count);
      if (start + count) % 0x1_0000_0000_0000_0000 < start { return -EINVAL; }
      if nrPages > maxPages { return -EINVAL; }
      if count == 0 { return 0; }
      rc := Pin(pt, frame, start, nrPages, granted);
      if rc > 0 {
        Populate(frame, start, count, nrPages);
      }
    }

    /** vmalloc_to_page is the parameter resident, PageHighMem the parameter highMem; kernel pages are not
        pinned. */
    method KernelPages(resident: nat -> PageRef, highMem: nat -> bool, frame: PageTable, start: u64, count: nat)
      returns (rc: int)
      requires Valid() && count <= MAX_COUNT
      requires mappedPages == 0                          // BUG_ON
      requires 1 <= count < 0x1_0000_0000_0000_0000 - start && PageCount(start, count) <= maxPages ==>
                 NoHighMem(resident, highMem, PageOf(start), PageCount(start, count))   // BUG_ON
      requires forall p :: resident(p).Page? ==> resident(p).frame == frame(p)
      modifies this, pages, sgl
      ensures Valid()
      ensures start + count >= 0x1_0000_0000_0000_0000 && count >= 1 ==> rc == -EINVAL
      ensures count == 0 ==> rc == 0
      ensures 1 <= count < 0x1_0000_0000_0000_0000 - start ==>
                rc == if PageCount(start, count) > maxPages then -EINVAL
                      else if !AllResident(resident, PageOf(start), PageCount(start, count)) then -ENOMEM
                      else PageCount(start, count)
      ensures rc <= 0 ==> mappedPages == 0
      ensures rc > 0 ==> Maps(frame, start, count)
    {
      hide PageOf, NrPages, PageCount, AllResident, NoHighMem, Fragments;
      var nrPages := NrPages(start, count);
      if (start + count) % 0x1_0000_0000_0000_0000 < start { return -EINVAL; }
      if nrPages > maxPages { return -EINVAL; }
      if count == 0 { return 0; }
      var ok := FindPages(resident, highMem, frame, PageOf(start), nrPages);
      if !ok {
        mappedPages := 0;
        return -ENOMEM;
      }
      mappedPages := nrPages;
      Populate(frame, start, count, nrPages);
      return nrPages;
    }

    /** The loop that looks up the pages of vmalloc()ed space. */
    method FindPages(resident: nat -> PageRef, highMem: nat -> bool, frame: PageTable, first: nat, n: nat)
      returns (ok: bool)
      requires Valid() && n <= maxPages && NoHighMem(resident, highMem, first, n)
      requires forall p :: resident(p).Page? ==> resident(p).frame == frame(p)
      modifies pages
      ensures ok <==> AllResident(resident, first, n)
      ensures ok ==> forall i :: 0 <= i < n ==> pages[i] == Page(frame(first + i))
    {
      var i: nat := 0;
      while i < n
        invariant i <= n && AllResident(resident, first, i)
        invariant forall k :: 0 <= k < i ==> pages[k] == Page(frame(first + k))
      {
        pages[i] := resident(first + i);
        if pages[i].Null? {
          return false;
        }
        assert AllResident(resident, first, first + i + 1 - first);
        assert !highMem(pages[i].frame);                 // BUG_ON
        i := i + 1;
      }
      return true;
    }

    method PutUserPages(pt: PinTable, dirtied: bool, ghost fs: seq<nat>)
      requires Valid() && |fs| == mappedPages && multiset(fs) <= pt.pins
      requires forall i :: 0 <= i < mappedPages ==> pages[i] == Page(fs[i])
      modifies this`mappedPages, pt
      ensures Valid() && mappedPages == 0 && pt.pins == old(pt.pins) - multiset(fs)
      ensures pt.dirty == if dirtied then old(pt.dirty) + (set p | p in fs) else old(pt.dirty)
    {
      if dirtied {
        DirtyPages(pt, fs);
      }
      pt.PutPages(pages, mappedPages, fs);
      mappedPages := 0;
    }

    method DirtyPages(pt: PinTable, ghost fs: seq<nat>)
      requires Valid() && |fs| == mappedPages
      requires forall i :: 0 <= i < mappedPages ==> pages[i] == Page(fs[i])
      modifies pt`dirty
      ensures pt.dirty == old(pt.dirty) + (set p | p in fs)
    {
      var i := 0;
      while i < mappedPages
        invariant 0 <= i <= mappedPages && pt.dirty == old(pt.dirty) + (set p | p in fs[..i])
      {
        pt.dirty := pt.dirty + {pages[i].frame};
        i := i + 1;
      }
      assert fs[..mappedPages] == fs;
    }

    /** sg_destroy_mapper: only its BUG_ON matters here. */
    method Destroy()
      requires mappedPages == 0                          // BUG_ON
    {
    }
  }
}
