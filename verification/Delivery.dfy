/**
  What copy_cyclic_to_user delivers, against what the hardware produced: it cuts the packet length into
  4096-byte pages and never looks at the length of a single result again.
 */
module Delivery {
  import opened RingModel

  // ----- where the bytes lie -----

  /** A byte of the ring: the page, counted from the first of the call, and the offset in it. */
  datatype Place = Place(page: nat, offset: nat)

  /** The places the copy reads for a packet of len bytes. */
  function Cut(len: nat): (places: seq<Place>)
    ensures |places| == len
  {
    seq(len, k requires 0 <= k < len => Place(k / 4096, k % 4096))
  }

  function Sum(lens: seq<nat>, n: nat): nat
    requires n <= |lens|
  {
    if n == 0 then 0 else Sum(lens, n - 1) + lens[n - 1]
  }

  /** The places the hardware filled for results of the given lengths. */
  function Filled(lens: seq<nat>, n: nat): (places: seq<Place>)
    requires n <= |lens|
    ensures |places| == Sum(lens, n)
  {
    if n == 0 then [] else Filled(lens, n - 1) + seq(lens[n - 1], o requires 0 <= o < lens[n - 1] => Place(n - 1, o))
  }

  lemma CutPage(n: nat, m: nat)
    requires m <= 4096
    ensures Cut(4096 * n + m) == Cut(4096 * n) + seq(m, o requires 0 <= o < m => Place(n, o))
  {
    var places := Cut(4096 * n + m);
    forall k | 4096 * n <= k < 4096 * n + m
      ensures places[k] == Place(n, k - 4096 * n)
    {
    }
  }

  lemma {:induction false} FullIsCut(lens: seq<nat>, n: nat)
    requires n <= |lens| && forall j :: 0 <= j < n ==> lens[j] <= 4096
    requires forall j :: 0 <= j < n - 1 ==> lens[j] == 4096
    ensures Filled(lens, n) == Cut(Sum(lens, n))
    ensures n > 0 ==> Sum(lens, n - 1) == 4096 * (n - 1)
  {
    if n > 0 {
      FullIsCut(lens, n - 1);
      CutPage(n - 1, lens[n - 1]);
    }
  }

  lemma {:induction false} FilledAt(lens: seq<nat>, n: nat, j: nat, o: nat)
    requires j < n <= |lens| && o < lens[j]
    ensures Sum(lens, j) + o < Sum(lens, n) && Filled(lens, n)[Sum(lens, j) + o] == Place(j, o)
  {
    if j < n - 1 {
      FilledAt(lens, n - 1, j, o);
    }
  }

  /** The first result that does not fill its page, with another after it, throws the copy off. */
  lemma {:induction false} ShortIsNotCut(lens: seq<nat>, n: nat, j: nat)
    requires j + 1 < n <= |lens| && lens[j] < 4096 && lens[j + 1] > 0
    requires forall i :: 0 <= i < j ==> lens[i] == 4096
    ensures Filled(lens, n) != Cut(Sum(lens, n))
  {
    FullIsCut(lens, j + 1);
    FilledAt(lens, n, j + 1, 0);
    assert Sum(lens, j + 1) == 4096 * j + lens[j];
    assert Cut(Sum(lens, n))[Sum(lens, j + 1)].page == j;
  }

  /** Main result: the copy reads exactly the filled bytes, in order, if and only if every result of the
      call but the last fills its page. */
  lemma CutIffFull(lens: seq<nat>, n: nat)
    requires n <= |lens| && forall j :: 0 <= j < n ==> 0 < lens[j] <= 4096
    ensures Filled(lens, n) == Cut(Sum(lens, n)) <==> forall j :: 0 <= j < n - 1 ==> lens[j] == 4096
  {
    if forall j :: 0 <= j < n - 1 ==> lens[j] == 4096 {
      FullIsCut(lens, n);
    } else {
      var j := FirstShort(lens, n - 1, 0);
      ShortIsNotCut(lens, n, j);
    }
  }

  lemma {:induction false} FirstShort(lens: seq<nat>, n: nat, i: nat) returns (j: nat)
    requires i <= n <= |lens| && (forall k :: 0 <= k < i ==> lens[k] == 4096)
    requires exists k :: 0 <= k < n && lens[k] != 4096
    ensures j < n && lens[j] != 4096 && forall k :: 0 <= k < j ==> lens[k] == 4096
    decreases n - i
  {
    if lens[i] != 4096 {
      j := i;
    } else {
      j := FirstShort(lens, n, i + 1);
    }
  }

  // ----- the bytes -----

  type Page = p: seq<bv8> | |p| == 4096 witness seq(4096, i => 0)

  function PageAt(pages: seq<Page>, p: nat, j: nat): Page
    requires |pages| == 256
  {
    pages[Ix(p + j)]
  }

  /** The delivered bytes: len of them, from the page at position p on, page by page. */
  function Delivered(pages: seq<Page>, p: nat, len: nat): (bytes: seq<bv8>)
    requires |pages| == 256
    ensures |bytes| == len
  {
    seq(len, k requires 0 <= k < len => PageAt(pages, p, k / 4096)[k % 4096])
  }

  /** The data of the first n results, one after the other. */
  function Flat(data: seq<seq<bv8>>, n: nat): (bytes: seq<bv8>)
    requires n <= |data|
  {
    if n == 0 then [] else Flat(data, n - 1) + data[n - 1]
  }

  lemma {:induction false} FlatSplit(data: seq<seq<bv8>>, m: nat, n: nat)
    requires m <= n <= |data|
    ensures Flat(data, n) == Flat(data, m) + Flat(data[m..], n - m)
  {
    if m < n {
      FlatSplit(data, m, n - 1);
      assert data[m..][n - 1 - m] == data[n - 1];
    }
  }

  lemma {:induction false} FlatSnoc(data: seq<seq<bv8>>, d: seq<bv8>, n: nat)
    requires n <= |data|
    ensures Flat(data + [d], n) == Flat(data, n)
    ensures n == |data| ==> Flat(data + [d], n + 1) == Flat(data, n) + d
  {
    if n > 0 {
      FlatSnoc(data, d, n - 1);
    }
  }

  lemma DeliveredPage(pages: seq<Page>, p: nat, n: nat, m: nat)
    requires |pages| == 256 && m <= 4096
    ensures Delivered(pages, p, 4096 * n + m) == Delivered(pages, p, 4096 * n) + PageAt(pages, p, n)[..m]
  {
    var a := Delivered(pages, p, 4096 * n + m);
    forall k | 4096 * n <= k < 4096 * n + m
      ensures a[k] == PageAt(pages, p, n)[k - 4096 * n]
    {
    }
  }

  /** Where results 0..n-1 lie at the start of their pages and all but the last fill theirs, the delivery
      is the data, one result after the other. */
  lemma {:induction false} FullDelivers(data: seq<seq<bv8>>, pages: seq<Page>, p: nat, n: nat)
    requires |pages| == 256 && n <= |data|
    requires forall j :: 0 <= j < n ==> |data[j]| <= 4096 && PageAt(pages, p, j)[..|data[j]|] == data[j]
    requires forall j :: 0 <= j < n - 1 ==> |data[j]| == 4096
    ensures Delivered(pages, p, |Flat(data, n)|) == Flat(data, n)
    ensures n > 0 ==> |Flat(data, n - 1)| == 4096 * (n - 1)
  {
    if n > 0 {
      FullDelivers(data, pages, p, n - 1);
      DeliveredPage(pages, p, n - 1, |data[n - 1]|);
    }
  }

  /** The delivery from the front: the first page, then the rest. */
  lemma DeliveredFront(pages: seq<Page>, p: nat, len: nat)
    requires |pages| == 256
    ensures var m := if len < 4096 then len else 4096;
            Delivered(pages, p, len) == PageAt(pages, p, 0)[..m] + Delivered(pages, p + 1, len - m)
  {
    var m := if len < 4096 then len else 4096;
    var a, b := Delivered(pages, p, len), Delivered(pages, p + 1, len - m);
    forall k | 0 <= k < len - m
      ensures a[m + k] == b[k]
    {
      assert (4096 + k) / 4096 == k / 4096 + 1;
    }
  }

  ghost predicate SamePages(pages: seq<Page>, pages': seq<Page>, p: nat, n: nat)
    requires |pages| == |pages'| == 256
  {
    forall j {:trigger PageAt(pages, p, j)} :: 0 <= j < n ==> PageAt(pages, p, j) == PageAt(pages', p, j)
  }

  /** Only the pages under the delivery matter. */
  lemma DeliveredSame(pages: seq<Page>, pages': seq<Page>, p: nat, len: nat, n: nat)
    requires |pages| == |pages'| == 256 && len <= 4096 * n && SamePages(pages, pages', p, n)
    ensures Delivered(pages, p, len) == Delivered(pages', p, len)
  {
    var a, b := Delivered(pages, p, len), Delivered(pages', p, len);
    forall k | 0 <= k < len
      ensures a[k] == b[k]
    {
      assert PageAt(pages, p, k / 4096) == PageAt(pages', p, k / 4096);
    }
  }
}
