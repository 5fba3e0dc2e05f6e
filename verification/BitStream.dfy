/**
  Downloading a bitstream: the words behind the header go to the ICAP FIFO in bursts that fit its
  vacancy, or to the MCAP data register; from memory in one piece or in 1024-byte pieces, or from user
  space through a bounce buffer of 1024 bytes.
 */
module BitStream {
  import opened BitHeader
  import opened Errno
  import opened Words

  /** What the registers answer: the k-th vacancy read, whether the burst after it was taken, and whether
      the FPGA is done when k vacancies have been read. */
  datatype Env = Env(vacancy: nat -> int, taken: nat -> bool, done: nat -> bool)

  // ----- words -----

  /** Word i: four bytes, most significant first. */
  function WordAt(bytes: seq<byte>, i: nat): nat
    requires 4 * i + 4 <= |bytes|
  {
    Pair(Pair(Pair(bytes[4 * i], bytes[4 * i + 1]), bytes[4 * i + 2]), bytes[4 * i + 3])
  }

  /** n words from word i on. */
  function WordsAt(bytes: seq<byte>, i: nat, n: nat): (ws: seq<nat>)
    requires 4 * (i + n) <= |bytes|
    ensures |ws| == n
  {
    seq<nat>(n, j requires 0 <= j < n => WordAt(bytes, i + j))
  }

  lemma WordsSplit(bytes: seq<byte>, i: nat, m: nat, n: nat)
    requires 4 * (i + m + n) <= |bytes|
    ensures WordsAt(bytes, i, m + n) == WordsAt(bytes, i, m) + WordsAt(bytes, i + m, n)
  {
  }

  /** The words of a copied piece are those of the original. */
  lemma WordsCopied(piece: seq<byte>, bytes: seq<byte>, i: nat, n: nat)
    requires 4 * n <= |piece| && 4 * (i + n) <= |bytes|
    requires forall k :: 0 <= k < 4 * n ==> piece[k] == bytes[4 * i + k]
    ensures WordsAt(piece, 0, n) == WordsAt(bytes, i, n)
  {
    forall j | 0 <= j < n
      ensures WordAt(piece, j) == WordAt(bytes, i + j)
    {
      assert piece[4 * j] == bytes[4 * i + 4 * j] && piece[4 * j + 1] == bytes[4 * i + (4 * j + 1)];
      assert piece[4 * j + 2] == bytes[4 * i + (4 * j + 2)] && piece[4 * j + 3] == bytes[4 * i + (4 * j + 3)];
    }
  }

  // ----- words are the inverse of the written form -----

  function Encoded(ws: seq<nat>, n: nat): (bytes: seq<byte>)
    requires n <= |ws| && forall i :: 0 <= i < |ws| ==> ws[i] < 0x1_0000_0000
    ensures |bytes| == 4 * n
  {
    if n == 0 then [] else Encoded(ws, n - 1) + U32(ws[n - 1])
  }

  /** A word written at a multiple of four bytes is read back, whatever stands around it. */
  lemma WordOfWritten(pre: seq<byte>, v: nat, rest: seq<byte>)
    requires v < 0x1_0000_0000 && |pre| % 4 == 0
    ensures WordAt(pre + U32(v) + rest, |pre| / 4) == v
  {
    var bytes := pre + U32(v) + rest;
    assert bytes[|pre|..|pre| + 4] == U32(v);
    U32Inverse(bytes, |pre|, v);
  }

  /** The words of a file that is their written form, and anything behind it. */
  lemma {:induction false} EncodedWords(ws: seq<nat>, n: nat, rest: seq<byte>)
    requires n <= |ws| && forall i :: 0 <= i < |ws| ==> ws[i] < 0x1_0000_0000
    ensures WordsAt(Encoded(ws, n) + rest, 0, n) == ws[..n]
  {
    hide WordAt;
    if n > 0 {
      EncodedWords(ws, n - 1, U32(ws[n - 1]) + rest);
      WordOfWritten(Encoded(ws, n - 1), ws[n - 1], rest);
      assert Encoded(ws, n) + rest == Encoded(ws, n - 1) + (U32(ws[n - 1]) + rest);
      assert ws[..n] == ws[..n - 1] + [ws[n - 1]];
    }
  }

  // ----- feeding the FIFO -----

  /** The outcome of feeding words: whether all went, how many, and the vacancies read by then. */
  datatype Fed = Fed(ok: bool, n: nat, k: nat)

  function Min(a: nat, b: nat): nat { if a < b then a else b }

  /** bitstream_icap_helper with remain words to go. */
  function Feed(env: Env, k: nat, remain: nat): (f: Fed)
    ensures f.n <= remain && (f.ok ==> f.n == remain)
    decreases remain
  {
    if remain == 0 then Fed(true, 0, k)
    else if env.vacancy(k) <= 0 then Fed(false, 0, k + 1)
    else
      var n := Min(env.vacancy(k), remain);
      if !env.taken(k) then Fed(false, n, k + 1)
      else
        var rest := Feed(env, k + 1, remain - n);
        Fed(rest.ok, n + rest.n, rest.k)
  }

  /** The loop over 1024-byte pieces with left bytes to go. */
  function Pieces(env: Env, k: nat, left: nat): (f: Fed)
    ensures f.n <= left / 4 && (f.ok ==> f.n == left / 4)
    decreases left
  {
    if left == 0 then Fed(true, 0, k)
    else
      var m := Min(left, 1024);
      var first := Feed(env, k, m / 4);
      if !first.ok then first
      else
        var rest := Pieces(env, first.k, left - m);
        Fed(rest.ok, first.n + rest.n, rest.k)
  }

  /** Every vacancy read from k to n was positive, and every burst was taken. */
  ghost predicate Smooth(env: Env, k: nat, n: nat) {
    forall i :: k <= i < n ==> env.vacancy(i) > 0 && env.taken(i)
  }

  lemma {:induction false} FeedIff(env: Env, k: nat, remain: nat)
    ensures k <= Feed(env, k, remain).k <= k + remain
    ensures Feed(env, k, remain).ok <==> Smooth(env, k, Feed(env, k, remain).k)
    decreases remain
  {
    if remain > 0 && env.vacancy(k) > 0 && env.taken(k) {
      FeedIff(env, k + 1, remain - Min(env.vacancy(k), remain));
    }
  }

  /** The whole stream is sent exactly when no vacancy read on the way was zero or negative and every burst
      was taken; there is at most one read a word. */
  lemma {:induction false} PiecesIff(env: Env, k: nat, left: nat)
    ensures k <= Pieces(env, k, left).k <= k + left / 4
    ensures Pieces(env, k, left).ok <==> Smooth(env, k, Pieces(env, k, left).k)
    decreases left
  {
    if left > 0 {
      var m := Min(left, 1024);
      FeedIff(env, k, m / 4);
      var first := Feed(env, k, m / 4);
      if first.ok {
        PiecesIff(env, first.k, left - m);
      }
    }
  }

  // ----- the downloader -----

  /** A burst: which vacancy was read just before it, and how many words were written. */
  datatype Burst = Burst(poll: nat, words: nat)

  function Total(bursts: seq<Burst>, n: nat): nat
    requires n <= |bursts|
  {
    if n == 0 then 0 else Total(bursts, n - 1) + bursts[n - 1].words
  }

  /** All words went in bursts, each behind a vacancy of its own that it fits. */
  ghost predicate Metered(env: Env, bursts: seq<Burst>, polls: nat, words: nat) {
    && Total(bursts, |bursts|) == words
    && (forall i :: 0 <= i < |bursts| ==> 0 < bursts[i].words <= env.vacancy(bursts[i].poll) && bursts[i].poll < polls)
    && (forall i, j :: 0 <= i < j < |bursts| ==> bursts[i].poll < bursts[j].poll)
  }

  /** length bytes are promised behind the pointer; the header, and the bitstream if the length check lets it
      pass, are really there. */
  predicate Readable(memory: seq<byte>, length: nat) {
    && |memory| < 0xFFFF_FFFF && Parse(memory) != OutOfBounds
    && (Parse(memory).Accepted? && LengthOk(Parse(memory).header, length) ==> Complete(memory, Parse(memory).header))
  }

  /** The sum is an unsigned int. */
  predicate LengthOk(h: Header, length: nat) {
    (h.headerLength + h.bitstreamLength) % 0x1_0000_0000 <= length
  }

  /** How many bytes memory has behind the header. */
  function Avail(memory: seq<byte>, h: Header): nat {
    if |memory| <= h.headerLength then 0 else |memory| - h.headerLength
  }

  /** The whole bitstream is in memory. */
  predicate Complete(memory: seq<byte>, h: Header) {
    h.bitstreamLength <= Avail(memory, h)
  }

  /** A piece of 1024 bytes, or the last one, is read as a whole or not at all. */
  function Sendable(total: nat, avail: nat): (n: nat)
    ensures n <= total && n <= avail
    ensures n == total <==> total <= avail
  {
    if total <= avail then total else avail / 1024 * 1024
  }

  /** The bytes behind the header that can be sent: all, if memory holds them. */
  function Payload(memory: seq<byte>, h: Header): (bytes: seq<byte>)
    ensures |bytes| == Sendable(h.bitstreamLength, Avail(memory, h))
  {
    var at := Min(h.headerLength, |memory|);
    memory[at..at + Sendable(h.bitstreamLength, Avail(memory, h))]
  }

  /** What a download does: the words it sends, what it returns, the vacancies read by then. */
  datatype Outcome = Outcome(words: seq<nat>, err: int, k: nat)

  /** The download of the bitstream behind header h: a failed helper ends it and is reported as success; the
      end of memory is reported if it comes first. */
  function Download(memory: seq<byte>, h: Header, env: Env, k: nat): (d: Outcome)
    ensures d.err == 0 || d.err == -EFAULT || d.err == -EIO
  {
    var bytes := Payload(memory, h);
    var f := Pieces(env, k, |bytes|);
    Outcome(WordsAt(bytes, 0, f.n),
            if !f.ok then 0 else if !Complete(memory, h) then -EFAULT else if env.done(f.k) then 0 else -EIO, f.k)
  }

  /** Parsing, the length check and the download. */
  function Load(memory: seq<byte>, length: nat, env: Env, k: nat): Outcome {
    var r := Parse(memory);
    if r.Accepted? && LengthOk(r.header, length) then Download(memory, r.header, env, k) else Outcome([], -EINVAL, k)
  }

  /** -EINVAL is returned exactly for data that is no bitstream or longer than was promised, and nothing is sent. */
  ghost predicate Refused(memory: seq<byte>, length: nat, err: int, idle: bool) {
    && (err == -EINVAL <==>
          !(&& Parse(memory).Accepted?
            && var h := Parse(memory).header; (h.headerLength + h.bitstreamLength) % 0x1_0000_0000 <= length))
    && (err == -EINVAL ==> idle)
  }

  lemma {:induction false} TotalSnoc(bursts: seq<Burst>, b: Burst, n: nat)
    requires n <= |bursts|
    ensures Total(bursts + [b], n) == Total(bursts, n)
  {
    if n > 0 {
      TotalSnoc(bursts, b, n - 1);
    }
  }

  lemma MeteredStep(env: Env, bursts: seq<Burst>, polls: nat, words: nat, n: nat)
    requires Metered(env, bursts, polls, words)
    ensures Metered(env, bursts, polls + 1, words)
    ensures 0 < n <= env.vacancy(polls) ==> Metered(env, bursts + [Burst(polls, n)], polls + 1, words + n)
  {
    TotalSnoc(bursts, Burst(polls, n), |bursts|);
  }

  // The loops, iteration by iteration.

  /** sent of count words are written, k vacancies read: what is left decides the outcome. */
  ghost predicate Feeding(env: Env, k0: nat, count: nat, sent: nat, k: nat) {
    && sent <= count
    && Feed(env, k0, count) == (var rest := Feed(env, k, count - sent); Fed(rest.ok, sent + rest.n, rest.k))
  }

  lemma FeedStarts(env: Env, k: nat, count: nat)
    ensures Feeding(env, k, count, 0, k)
  {
  }

  lemma FeedStep(env: Env, k0: nat, count: nat, sent: nat, k: nat)
    requires Feeding(env, k0, count, sent, k) && sent < count
    ensures env.vacancy(k) <= 0 ==> Feed(env, k0, count) == Fed(false, sent, k + 1)
    ensures env.vacancy(k) > 0 ==>
      var n := sent + Min(env.vacancy(k), count - sent);
      && sent < n <= count
      && (env.taken(k) ==> Feeding(env, k0, count, n, k + 1))
      && (!env.taken(k) ==> Feed(env, k0, count) == Fed(false, n, k + 1))
  {
  }

  lemma FeedEnds(env: Env, k0: nat, count: nat, k: nat)
    requires Feeding(env, k0, count, count, k)
    ensures Feed(env, k0, count) == Fed(true, count, k)
  {
  }

  /** read of total bytes are sent, k vacancies read: what is left decides the outcome. */
  ghost predicate Sending(env: Env, k0: nat, total: nat, read: nat, k: nat) {
    && read <= total && (read < total ==> read % 1024 == 0)
    && Pieces(env, k0, total) == (var rest := Pieces(env, k, total - read); Fed(rest.ok, read / 4 + rest.n, rest.k))
  }

  lemma SendStep(env: Env, k0: nat, total: nat, read: nat, k: nat)
    requires Sending(env, k0, total, read, k) && read < total
    ensures var m := Min(total - read, 1024); var f := Feed(env, k, m / 4);
      && read % 4 == 0 && read / 4 + m / 4 <= total / 4 && 0 < m
      && (f.ok ==> Sending(env, k0, total, read + m, f.k) && f.n == m / 4 && (read + m) / 4 == read / 4 + m / 4)
      && (!f.ok ==> Pieces(env, k0, total) == Fed(false, read / 4 + f.n, f.k) && f.n <= m / 4)
  {
    hide Feed, Min;
    PieceArithmetic(total, read);
    var m := Min(total - read, 1024);
    var f := Feed(env, k, m / 4);
    PiecesStep(env, k, total - read, m);
    assert total - read - m == total - (read + m);
  }

  lemma PiecesStep(env: Env, k: nat, left: nat, m: nat)
    requires left > 0 && m == Min(left, 1024)
    ensures m <= left
    ensures var first := Feed(env, k, m / 4);
            Pieces(env, k, left) == if !first.ok then first
                                    else
                                      var rest := Pieces(env, first.k, left - m);
                                      Fed(rest.ok, first.n + rest.n, rest.k)
  {
    hide Feed;
  }

  lemma PieceArithmetic(total: nat, read: nat)
    requires read < total && read % 1024 == 0
    ensures var m := Min(total - read, 1024);
      && 0 < m && read + m <= total && read % 4 == 0
      && (read + m) / 4 == read / 4 + m / 4 && read / 4 + m / 4 <= total / 4
      && (read + m < total ==> (read + m) % 1024 == 0)
  {
    var q, m := read / 1024, Min(total - read, 1024);
    assert read == 4 * (256 * q);
    assert read / 4 == 256 * q;
    assert (4 * (256 * q) + m) / 4 == 256 * q + m / 4;
    assert (read + 1024) % 1024 == 0;
  }

  /** Memory holds the next piece exactly if some of it can be sent. */
  lemma PieceHeld(memory: seq<byte>, h: Header, read: nat)
    requires read < h.bitstreamLength && read <= |Payload(memory, h)| && read % 1024 == 0
    ensures var chars := Min(h.bitstreamLength - read, 1024); var n := |Payload(memory, h)|;
      && (h.headerLength + read + chars <= |memory| <==> read < n)
      && (if read < n then chars == Min(n - read, 1024) && read % 4 == 0 && 4 * (read / 4 + chars / 4) <= n
                           && (read + chars < n ==> (read + chars) % 1024 == 0) && read + chars <= n
                           && (read + chars == n < h.bitstreamLength ==> n % 1024 == 0)
          else read == n < h.bitstreamLength && !Complete(memory, h))
  {
    hide Payload;
    var total, avail, n := h.bitstreamLength, Avail(memory, h), |Payload(memory, h)|;
    if n < total {
      var q, p := avail / 1024, read / 1024;
      assert n == 1024 * q && read == 1024 * p;
      assert avail < n + 1024;
    }
    if read < n {
      PieceArithmetic(n, read);
    }
  }

  lemma SendEnds(env: Env, k0: nat, total: nat, k: nat)
    requires Sending(env, k0, total, total, k)
    ensures Pieces(env, k0, total) == Fed(true, total / 4, k)
  {
  }

  /** read bytes of the payload are sent and k vacancies read, the FIFO has grown from before to now. */
  ghost predicate Loading(memory: seq<byte>, h: Header, env: Env, k0: nat, before: seq<nat>, read: nat, k: nat,
                          now: seq<nat>) {
    && Sending(env, k0, |Payload(memory, h)|, read, k)
    && now == before + WordsAt(Payload(memory, h), 0, read / 4)
  }

  /** A download begun with k0 vacancies read and the FIFO as before has ended. */
  ghost predicate Loaded(memory: seq<byte>, h: Header, env: Env, k0: nat, before: seq<nat>, err: int, k: nat,
                         now: seq<nat>) {
    before <= now && Outcome(now[|before|..], err, k) == Download(memory, h, env, k0)
  }

  lemma LoadStarts(memory: seq<byte>, h: Header, env: Env, k: nat, before: seq<nat>)
    ensures Loading(memory, h, env, k, before, 0, k, before)
  {
  }

  /** One piece, of which the helper sends what Feed says. */
  lemma LoadStep(memory: seq<byte>, h: Header, env: Env, k0: nat, before: seq<nat>, read: nat, k: nat, now: seq<nat>,
                 chars: nat, next: seq<nat>)
    requires Loading(memory, h, env, k0, before, read, k, now) && read < |Payload(memory, h)|
    requires chars == Min(|Payload(memory, h)| - read, 1024)
    requires read % 4 == 0 && 4 * (read / 4 + chars / 4) <= |Payload(memory, h)|
    requires next == now + WordsAt(Payload(memory, h), read / 4, Feed(env, k, chars / 4).n)
    ensures var f := Feed(env, k, chars / 4);
      && (f.ok ==> Loading(memory, h, env, k0, before, read + chars, f.k, next))
      && (!f.ok ==> Loaded(memory, h, env, k0, before, 0, f.k, next))
  {
    hide Feed, Pieces, WordsAt, Sending, Payload, Sendable, Complete, Min;
    SendStep(env, k0, |Payload(memory, h)|, read, k);
    WordsSplit(Payload(memory, h), 0, read / 4, Feed(env, k, chars / 4).n);
  }

  lemma LoadEnds(memory: seq<byte>, h: Header, env: Env, k0: nat, before: seq<nat>, k: nat, now: seq<nat>)
    requires Loading(memory, h, env, k0, before, |Payload(memory, h)|, k, now)
    ensures Loaded(memory, h, env, k0, before,
                   if !Complete(memory, h) then -EFAULT else if env.done(k) then 0 else -EIO, k, now)
  {
    hide Feed, Pieces, WordsAt, Sending, Payload, Sendable, Complete;
    SendEnds(env, k0, |Payload(memory, h)|, k);
  }

  class Downloader {
    const env: Env
    var polls: nat                                       // vacancies read so far
    var fifo: seq<nat>                                   // words written to the ICAP FIFO
    var bursts: seq<Burst>
    var mcap: seq<nat>                                   // words written to the MCAP data register
    var clear: Option<seq<byte>>                         // the stashed clearing bitstream

    constructor (env: Env, clear: Option<seq<byte>>)
      ensures this.env == env && this.clear == clear && fifo == [] && mcap == [] && bursts == [] && polls == 0
      ensures Metered(env, bursts, polls, |fifo|)
    {
      this.env, this.clear := env, clear;
      polls, fifo, bursts, mcap := 0, [], [], [];
    }

    /** hwicapWrite: the words go to the FIFO; taken or not is the register's answer. */
    method HwIcapWrite(bytes: seq<byte>, from: nat, size: nat)
      requires 4 * (from + size) <= |bytes|
      modifies `fifo
      ensures fifo == old(fifo) + WordsAt(bytes, from, size)
    {
      var i := 0;
      while i < size
        invariant 0 <= i <= size && fifo == old(fifo) + WordsAt(bytes, from, i)
      {
        var at := 4 * (from + i);
        var word: nat := bytes[at];                      // be32_to_cpu
        word := word * 256 + bytes[at + 1];
        word := word * 256 + bytes[at + 2];
        word := word * 256 + bytes[at + 3];
        fifo := fifo + [word];
        i := i + 1;
      }
    }

    method IcapHelper(bytes: seq<byte>, from: nat, wordCount: nat) returns (err: int)
      requires 4 * (from + wordCount) <= |bytes| && Metered(env, bursts, polls, |fifo|)
      modifies `polls, `fifo, `bursts
      ensures Metered(env, bursts, polls, |fifo|)
      ensures var f := Feed(env, old(polls), wordCount);
              err == (if f.ok then 0 else -EIO) && polls == f.k && fifo == old(fifo) + WordsAt(bytes, from, f.n)
    {
      hide Feed, WordsAt, Metered, Feeding;
      err := 0;
      var remain: nat, at: nat := wordCount, from;
      FeedStarts(env, polls, wordCount);
      WordsSplit(bytes, from, 0, 0);
      while remain > 0
        invariant remain <= wordCount && at + remain == from + wordCount && Metered(env, bursts, polls, |fifo|)
        invariant Feeding(env, old(polls), wordCount, wordCount - remain, polls)
        invariant fifo == old(fifo) + WordsAt(bytes, from, wordCount - remain)
      {
        var vacancy, taken := env.vacancy(polls), env.taken(polls);
        FeedStep(env, old(polls), wordCount, wordCount - remain, polls);
        var written := if vacancy < remain then vacancy else remain;
        MeteredStep(env, bursts, polls, |fifo|, if written > 0 then written else 0);
        polls := polls + 1;
        if vacancy <= 0 {
          return -EIO;
        }
        bursts := bursts + [Burst(polls - 1, written)];
        HwIcapWrite(bytes, at, written);
        WordsSplit(bytes, from, wordCount - remain, written);
        if !taken {
          return -EIO;
        }
        at := at + written;
        remain := remain - written;
      }
      FeedEnds(env, old(polls), wordCount, polls);
    }

    /** bitstream_icap on memory, up to the end of the download. */
    method Icap(memory: seq<byte>, length: nat) returns (err: int)
      requires Readable(memory, length) && Metered(env, bursts, polls, |fifo|)
      modifies `polls, `fifo, `bursts
      ensures Metered(env, bursts, polls, |fifo|)
      ensures old(fifo) <= fifo
      ensures Outcome(fifo[|old(fifo)|..], err, polls) == Load(memory, length, env, old(polls))
      ensures Refused(memory, length, err, polls == old(polls) && fifo == old(fifo))
    {
      hide Feed, WordsAt, Metered, Parse, Payload, Sendable, Loading, Download;
      var r := ParseHeader(memory);
      if !r.Accepted? || (r.header.headerLength + r.header.bitstreamLength) % 0x1_0000_0000 > length {
        return -EINVAL;
      }
      var total, payload := r.header.bitstreamLength, Payload(memory, r.header);
      var read: nat := 0;
      LoadStarts(memory, r.header, env, polls, fifo);
      while read < total
        invariant read <= total && (read < total ==> read % 1024 == 0) && Metered(env, bursts, polls, |fifo|)
        invariant Loading(memory, r.header, env, old(polls), old(fifo), read, polls, fifo)
      {
        var chars := if total - read > 1024 then 1024 else total - read;
        PieceArithmetic(total, read);
        ghost var k, now := polls, fifo;
        err := IcapHelper(payload, read / 4, chars / 4);
        LoadStep(memory, r.header, env, old(polls), old(fifo), read, k, now, chars, fifo);
        if err != 0 {
          return 0;                                      // the helper's error is dropped
        }
        read := read + chars;
      }
      LoadEnds(memory, r.header, env, old(polls), old(fifo), polls, fifo);
      return if env.done(polls) then 0 else -EIO;
    }

    /** bitstream_clear_icap: the stashed bitstream goes first, and only once. */
    method ClearIcap() returns (err: int)
      requires clear.Some? ==> Readable(clear.value, |clear.value|)
      requires Metered(env, bursts, polls, |fifo|)
      modifies `polls, `fifo, `bursts, `clear
      ensures Metered(env, bursts, polls, |fifo|) && clear == None && old(fifo) <= fifo
      ensures Outcome(fifo[|old(fifo)|..], err, polls) 
           == match old(clear)
              case None => Outcome([], 0, old(polls))
              case Some(memory) => Load(memory, |memory|, env, old(polls))
    {
      if clear == None {
        return 0;
      }
      err := Icap(clear.value, |clear.value|);
      clear := None;
    }

    /** bitstream_ioctl_icap behind the clearing bitstream: pieces are copied to a bounce buffer. */
    method DownloadUser(user: seq<byte>, length: nat) returns (err: int)
      requires |user| >= 1024 ==> Parse(user[..1024]) != OutOfBounds
      requires Metered(env, bursts, polls, |fifo|)
      modifies `polls, `fifo, `bursts
      ensures Metered(env, bursts, polls, |fifo|) && old(fifo) <= fifo
      ensures Outcome(fifo[|old(fifo)|..], err, polls)
           == if |user| < 1024 then Outcome([], -EFAULT, old(polls)) else Load(user, length, env, old(polls))
      ensures |user| >= 1024 ==> Refused(user, length, err, polls == old(polls) && fifo == old(fifo))
    {
      hide Parse, Metered, Download;
      if |user| < 1024 {
        return -EFAULT;
      }
      var buffer := new byte[1024];
      CopyFromUser(buffer, user, 0, 1024);
      assert buffer[..] == user[..1024];
      assert user == user[..1024] + user[1024..];
      ParseExtends(user[..1024], user[1024..]);
      var r := ParseHeader(buffer[..]);
      if !r.Accepted? || (r.header.headerLength + r.header.bitstreamLength) % 0x1_0000_0000 > length {
        return -EINVAL;
      }
      err := SendFromUser(user, r.header, buffer);
    }

    /** Its loop. A piece that user memory does not hold ends it with -EFAULT. */
    method SendFromUser(user: seq<byte>, h: Header, buffer: array<byte>) returns (err: int)
      requires buffer.Length == 1024 && Metered(env, bursts, polls, |fifo|)
      modifies `polls, `fifo, `bursts, buffer
      ensures Metered(env, bursts, polls, |fifo|) && Loaded(user, h, env, old(polls), old(fifo), err, polls, fifo)
    {
      hide Feed, WordsAt, Metered, Payload, Sendable, Loading, Loaded, Avail;
      var total, at := h.bitstreamLength, h.headerLength;
      var read: nat := 0;
      LoadStarts(user, h, env, polls, fifo);
      while read < total
        invariant read <= |Payload(user, h)| && (read < total ==> read % 1024 == 0) && at == h.headerLength + read
        invariant Loading(user, h, env, old(polls), old(fifo), read, polls, fifo) && Metered(env, bursts, polls, |fifo|)
      {
        var chars := if total - read > 1024 then 1024 else total - read;
        PieceHeld(user, h, read);
        if at + chars > |user| {
          LoadEnds(user, h, env, old(polls), old(fifo), polls, fifo);
          return -EFAULT;
        }
        CopyFromUser(buffer, user, at, chars);
        at := at + chars;
        ghost var k, now := polls, fifo;
        err := IcapHelper(buffer[..], 0, chars / 4);
        BounceWords(buffer[..], user, h, read, chars, Feed(env, k, chars / 4).n);
        LoadStep(user, h, env, old(polls), old(fifo), read, k, now, chars, fifo);
        if err != 0 {
          return 0;                                      // the helper's error is dropped
        }
        read := read + chars;
      }
      LoadEnds(user, h, env, old(polls), old(fifo), polls, fifo);
      return if env.done(polls) then 0 else -EIO;
    }

    /** bitstream_ioctl_icap. */
    method IoctlIcap(user: seq<byte>, length: nat) returns (err: int)
      requires |user| >= 1024 ==> Parse(user[..1024]) != OutOfBounds
      requires clear.Some? ==> Readable(clear.value, |clear.value|)
      requires Metered(env, bursts, polls, |fifo|)
      modifies `polls, `fifo, `bursts, `clear
      ensures Metered(env, bursts, polls, |fifo|) && old(fifo) <= fifo && clear == None
      ensures var first := if old(clear).None? then Outcome([], 0, old(polls))
                           else Load(old(clear).value, |old(clear).value|, env, old(polls));
              if first.err != 0 then Outcome(fifo[|old(fifo)|..], err, polls) == first
              else if |user| < 1024 then
                Outcome(fifo[|old(fifo)|..], err, polls) == Outcome(first.words, -EFAULT, first.k)
              else
                var second := Load(user, length, env, first.k);
                Outcome(fifo[|old(fifo)|..], err, polls) == Outcome(first.words + second.words, second.err, second.k)
    {
      hide Load, Metered, Refused, Readable, Parse;
      err := ClearIcap();
      if err != 0 {
        return;
      }
      ghost var between := fifo;
      err := DownloadUser(user, length);
      Rejoin(old(fifo), between, fifo);
    }

    /** bitstream_mcap_helper. */
    method McapHelper(bytes: seq<byte>, from: nat, wordCount: nat)
      requires 4 * (from + wordCount) <= |bytes|
      modifies `mcap
      ensures mcap == old(mcap) + WordsAt(bytes, from, wordCount)
    {
      var i := 0;
      while i < wordCount
        invariant 0 <= i <= wordCount && mcap == old(mcap) + WordsAt(bytes, from, i)
      {
        var at := 4 * (from + i);
        var word: nat := bytes[at];                      // be32_to_cpu
        word := word * 256 + bytes[at + 1];
        word := word * 256 + bytes[at + 2];
        word := word * 256 + bytes[at + 3];
        mcap := mcap + [word];
        i := i + 1;
      }
    }

    /** The loop of bitstream_ioctl_mcap: the same words in 1024-byte pieces through the bounce buffer. */
    method IoctlMcapData(user: seq<byte>, h: Header) returns (err: int)
      modifies `mcap
      ensures err == if Complete(user, h) then 0 else -EFAULT
      ensures mcap == old(mcap) + WordsAt(Payload(user, h), 0, |Payload(user, h)| / 4)
    {
      hide WordsAt, Payload, Sendable;
      var buffer := new byte[1024];
      var at, total := h.headerLength, h.bitstreamLength;
      var read: nat := 0;
      ghost var payload := Payload(user, h);
      WordsSplit(payload, 0, 0, 0);
      while read < total
        invariant read <= |payload| && at == h.headerLength + read && (read < total ==> read % 1024 == 0)
        invariant mcap == old(mcap) + WordsAt(payload, 0, read / 4)
      {
        var chars := if total - read > 1024 then 1024 else total - read;
        PieceHeld(user, h, read);
        if at + chars > |user| {
          return -EFAULT;
        }
        CopyFromUser(buffer, user, at, chars);
        at := at + chars;
        McapHelper(buffer[..], 0, chars / 4);
        BounceWords(buffer[..], user, h, read, chars, chars / 4);
        WordsSplit(payload, 0, read / 4, chars / 4);
        read := read + chars;
      }
      return 0;
    }

    /** The data part of bitstream_mcap: everything at once. */
    method McapData(memory: seq<byte>, h: Header)
      requires Complete(memory, h)
      modifies `mcap
      ensures mcap == old(mcap) + WordsAt(Payload(memory, h), 0, h.bitstreamLength / 4)
    {
      McapHelper(Payload(memory, h), 0, h.bitstreamLength / 4);
    }
  }

  lemma Rejoin(a: seq<nat>, b: seq<nat>, c: seq<nat>)
    requires a <= b <= c
    ensures a <= c && c[|a|..] == b[|a|..] + c[|b|..]
  {
  }

  /** What the bounce buffer holds after a piece was copied, as words of the payload. */
  lemma BounceWords(buffer: seq<byte>, user: seq<byte>, h: Header, read: nat, chars: nat, n: nat)
    requires read + chars <= |Payload(user, h)| && h.headerLength + read + chars <= |user|
    requires chars <= |buffer| && buffer[..chars] == user[h.headerLength + read..h.headerLength + read + chars]
    requires read % 4 == 0 && n <= chars / 4
    ensures WordsAt(buffer, 0, n) == WordsAt(Payload(user, h), read / 4, n)
  {
    hide WordsAt;
    var payload := Payload(user, h);
    forall k | 0 <= k < 4 * n
      ensures buffer[k] == payload[4 * (read / 4) + k]
    {
      assert buffer[k] == buffer[..chars][k];
    }
    WordsCopied(buffer, payload, read / 4, n);
  }

  /** copy_from_user: n bytes of user memory from at on. */
  method CopyFromUser(buffer: array<byte>, user: seq<byte>, at: nat, n: nat)
    requires n <= buffer.Length && at + n <= |user|
    modifies buffer
    ensures buffer[..n] == user[at..at + n]
  {
    forall k | 0 <= k < n {
      buffer[k] := user[at + k];
    }
  }

  // ----- what a download means -----

  /** If the first vacancies, one for every word that memory holds, are positive and their bursts are taken,
      every word is sent, in order, and nothing else: a last piece of fewer than four bytes is no word. */
  lemma SmoothSendsAll(memory: seq<byte>, h: Header, env: Env, k: nat)
    requires Smooth(env, k, k + |Payload(memory, h)| / 4)
    ensures var d := Download(memory, h, env, k);
      && d.words == WordsAt(Payload(memory, h), 0, |Payload(memory, h)| / 4)
      && d.k <= k + |Payload(memory, h)| / 4
      && d.err == if !Complete(memory, h) then -EFAULT else if env.done(d.k) then 0 else -EIO
  {
    hide Sendable, Pieces, Payload, Complete, WordsAt;
    PiecesIff(env, k, |Payload(memory, h)|);
  }

  /** 0 is returned exactly if the FPGA was done after a complete download, or the download broke off. */
  lemma ZeroIff(memory: seq<byte>, h: Header, env: Env, k: nat)
    ensures var d := Download(memory, h, env, k);
      && d.k <= k + |Payload(memory, h)| / 4
      && (d.err == 0 <==> (Smooth(env, k, d.k) ==> Complete(memory, h) && env.done(d.k)))
  {
    hide Sendable, Pieces, Payload, Complete, WordsAt;
    PiecesIff(env, k, |Payload(memory, h)|);
  }

  /** A bitstream that memory holds is read whole, one that it does not hold only in part. */
  lemma PayloadIs(memory: seq<byte>, h: Header)
    ensures |Payload(memory, h)| == h.bitstreamLength <==> Complete(memory, h)
    ensures Complete(memory, h) && h.bitstreamLength > 0 ==>
              && h.headerLength + h.bitstreamLength <= |memory|
              && Payload(memory, h) == memory[h.headerLength..h.headerLength + h.bitstreamLength]
  {
  }

  /** Main result: a file of a well-formed header and the written form of ws is downloaded as exactly ws, if as many
      vacancies as there are words are positive and their bursts taken. */
  lemma FileDownload(h: Header, end: byte, ws: seq<nat>, rest: seq<byte>, length: nat, env: Env, k: nat)
    requires WellFormed(h) && h.bitstreamLength == 4 * |ws| && forall i :: 0 <= i < |ws| ==> ws[i] < 0x1_0000_0000
    requires h.headerLength + 4 * |ws| + |rest| < 0xFFFF_FFFF && h.headerLength + 4 * |ws| <= length
    requires Smooth(env, k, k + |ws|)
    ensures var memory := Written(h, end) + (Encoded(ws, |ws|) + rest); var d := Load(memory, length, env, k);
      && Readable(memory, length) && Parse(memory) == Accepted(h)
      && d.words == ws && d.err == if env.done(d.k) then 0 else -EIO
  {
    hide Parse, Written, Encoded, Pieces, WordsAt, Smooth, WellFormed, Download, Payload, Complete, Load, Readable;
    var memory := Written(h, end) + (Encoded(ws, |ws|) + rest);
    FileWords(h, end, ws, rest);
    RoundTrip(h, end, Encoded(ws, |ws|) + rest);
    SmoothSendsAll(memory, h, env, k);
    AcceptedLoads(memory, h, length, env, k);
  }

  lemma AcceptedLoads(memory: seq<byte>, h: Header, length: nat, env: Env, k: nat)
    requires |memory| < 0xFFFF_FFFF && Parse(memory) == Accepted(h) && Complete(memory, h)
    requires h.headerLength + h.bitstreamLength <= length && h.headerLength + h.bitstreamLength < 0x1_0000_0000
    ensures Readable(memory, length) && Load(memory, length, env, k) == Download(memory, h, env, k)
  {
    hide Parse, Download, Complete;
  }

  /** The words of the file, as the MCAP downloads send them all. */
  lemma FileWords(h: Header, end: byte, ws: seq<nat>, rest: seq<byte>)
    requires WellFormed(h) && h.bitstreamLength == 4 * |ws| && forall i :: 0 <= i < |ws| ==> ws[i] < 0x1_0000_0000
    ensures var memory := Written(h, end) + (Encoded(ws, |ws|) + rest);
      && Complete(memory, h) && |Payload(memory, h)| == 4 * |ws|
      && WordsAt(Payload(memory, h), 0, |ws|) == ws
  {
    hide Written, Encoded, WordsAt, WellFormed;
    var memory := Written(h, end) + (Encoded(ws, |ws|) + rest);
    assert Payload(memory, h) == Encoded(ws, |ws|) + [];
    EncodedWords(ws, |ws|, []);
    assert ws[..|ws|] == ws;
  }

  /** So 0 does not mean that the words were sent: four bytes, a full FIFO. */
  lemma ZeroAfterFailure()
    ensures var h := Header(26, 1, [0], [0], [0], [0], 4);
      var env := Env(i => 0, i => true, i => true);
      var memory := Written(h, 0) + [1, 2, 3, 4];
      && WellFormed(h) && Parse(memory) == Accepted(h) && Readable(memory, 30)
      && Load(memory, 30, env, 0) == Outcome([], 0, 1)
  {
    hide Parse, Written;
    var h := Header(26, 1, [0], [0], [0], [0], 4);
    RoundTrip(h, 0, [1, 2, 3, 4]);
  }
}
