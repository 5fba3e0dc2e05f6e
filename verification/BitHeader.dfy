/**
  bitstream_parse_header: the header of a .bit file - a run of magic bytes, four named text fields and
  the length of the bitstream behind it.
 */
module BitHeader {

  type byte = x: int | 0 <= x < 256

  /** headerLength counts bytes. */
  datatype Header = Header(headerLength: nat, magicLength: nat, designName: seq<byte>, partName: seq<byte>,
                           date: seq<byte>, time: seq<byte>, bitstreamLength: nat)

  /** OutOfBounds: the parser, which never looks at the size it is given, reads outside the data. */
  datatype Result = Accepted(header: Header) | Rejected | OutOfBounds

  // ----- the written form -----

  function U16(v: nat): (s: seq<byte>)
    requires v < 0x1_0000
    ensures |s| == 2
  {
    [v / 256, v % 256]
  }

  function U32(v: nat): (s: seq<byte>)
    requires v < 0x1_0000_0000
    ensures |s| == 4
  {
    U16(v / 0x1_0000) + U16(v % 0x1_0000)
  }

  function MagicByte(i: nat): byte {
    if i % 2 == 0 then 0x0f else 0xf0
  }

  /** Magic bytes i..n-1. */
  function Magic(i: nat, n: nat): (s: seq<byte>)
    requires i <= n
    ensures |s| == n - i
  {
    seq<byte>(n - i, k requires 0 <= k < n - i => MagicByte(i + k))
  }

  predicate Text(s: seq<byte>) {
    1 <= |s| < 0x1_0000 && s[|s| - 1] == 0
  }

  function Field(tag: byte, s: seq<byte>): seq<byte>
    requires Text(s)
  {
    [tag] + (U16(|s|) + s)
  }

  predicate WellFormed(h: Header) {
    && 1 <= h.magicLength < 0x1_0000 && h.bitstreamLength < 0x1_0000_0000
    && Text(h.designName) && Text(h.partName) && Text(h.date) && Text(h.time)
    && h.headerLength == h.magicLength + 21 + |h.designName| + |h.partName| + |h.date| + |h.time|
  }

  /** The header in a file; end: the byte after the magic, which is read and ignored. */
  function Written(h: Header, end: byte): (s: seq<byte>)
    requires WellFormed(h)
    ensures |s| == h.headerLength
  {
    U16(h.magicLength) + (Magic(0, h.magicLength - 1) + ([end, 0, 1]
    + (Field(97, h.designName) + (Field(98, h.partName) + (Field(99, h.date) + (Field(100, h.time)
    + ([101] + U32(h.bitstreamLength))))))))
  }

  // ----- the parser -----

  /** Reading one item: its value and the index behind it, or how parsing ends. */
  datatype Step<T> = Next(value: T, index: nat) | Bad | Past

  /** Two bytes, or a number and one more byte, as one number. */
  function Pair(high: nat, low: nat): nat {
    high * 256 + low
  }

  function U16At(data: seq<byte>, i: nat): Step<nat> {
    if i + 2 > |data| then Past else Next(Pair(data[i], data[i + 1]), i + 2)
  }

  function U32At(data: seq<byte>, i: nat): Step<nat> {
    if i + 4 > |data| then Past
    else Next(Pair(Pair(Pair(data[i], data[i + 1]), data[i + 2]), data[i + 3]), i + 4)
  }

  /** Magic bytes k..n-1 at index i. */
  function MagicAt(data: seq<byte>, i: nat, k: nat, n: nat): Step<()>
    requires k <= n
    decreases n - k
  {
    if k == n then Next((), i)
    else if i >= |data| then Past
    else if data[i] != MagicByte(k) then Bad
    else MagicAt(data, i + 1, k + 1, n)
  }

  /** An empty field has no last byte: the parser looks in front of it. */
  function FieldAt(data: seq<byte>, i: nat, tag: byte): Step<seq<byte>> {
    if i >= |data| then Past
    else if data[i] != tag then Bad
    else match U16At(data, i + 1)
      case Bad => Bad
      case Past => Past
      case Next(len, j) =>
        if len == 0 || j + len > |data| then Past
        else if data[j + len - 1] != 0 then Bad
        else Next(data[j..j + len], j + len)
  }

  /** The half word 0x01 behind the magic and the byte that ends it. */
  function ShortAt(data: seq<byte>, i: nat): Step<()> {
    if i >= |data| then Past
    else match U16At(data, i + 1)
      case Past => Past
      case Bad => Bad
      case Next(v, j) => if v != 1 then Bad else Next((), j)
  }

  function TailAt(data: seq<byte>, i: nat): Step<nat> {
    if i >= |data| then Past else if data[i] != 101 then Bad else U32At(data, i + 1)
  }

  function Failed<T>(s: Step<T>): Result
    requires !s.Next?
  {
    if s.Bad? then Rejected else OutOfBounds
  }

  /** MagicLength - 1 is unsigned: a zero length asks for 2^32 - 1 magic bytes. */
  function MagicCount(magicLength: nat): nat {
    (magicLength - 1) % 0x1_0000_0000
  }

  function Parse(data: seq<byte>): Result {
    var m := U16At(data, 0);
    if !m.Next? then Failed(m) else
    var g := MagicAt(data, m.index, 0, MagicCount(m.value));
    if !g.Next? then Failed(g) else
    var s := ShortAt(data, g.index);
    if !s.Next? then Failed(s) else
    var a := FieldAt(data, s.index, 97);
    if !a.Next? then Failed(a) else
    var b := FieldAt(data, a.index, 98);
    if !b.Next? then Failed(b) else
    var c := FieldAt(data, b.index, 99);
    if !c.Next? then Failed(c) else
    var d := FieldAt(data, c.index, 100);
    if !d.Next? then Failed(d) else
    var e := TailAt(data, d.index);
    if !e.Next? then Failed(e) else
    Accepted(Header(e.index, m.value, a.value, b.value, c.value, d.value, e.value))
  }

  /** Two bytes at index, most significant first. */
  method ReadU16(data: seq<byte>, index: nat) returns (ok: bool, value: nat, next: nat)
    ensures ok <==> U16At(data, index).Next?
    ensures ok ==> U16At(data, index) == Next(value, next)
  {
    value, next := 0, index;
    if next + 2 > |data| {
      return false, 0, index;
    }
    value := data[next];
    next := next + 1;
    value := Pair(value, data[next]);
    next := next + 1;
    return true, value, next;
  }

  method ReadField(data: seq<byte>, index: nat, tag: byte) returns (step: Step<seq<byte>>)
    ensures step == FieldAt(data, index, tag)
  {
    if index >= |data| {
      return Past;
    }
    if data[index] != tag {
      return Bad;
    }
    var ok, len, i := ReadU16(data, index + 1);
    if !ok {
      return Past;
    }
    var name, k, start := [], 0, i;
    while k < len && i < |data|
      invariant 0 <= k <= len && i == start + k <= |data| && name == data[start..i]
    {
      name := name + [data[i]];
      i := i + 1;
      k := k + 1;
    }
    if k < len || len == 0 {
      return Past;
    }
    if name[len - 1] != 0 {
      return Bad;
    }
    return Next(name, i);
  }

  method ReadMagic(data: seq<byte>, index: nat, n: nat) returns (step: Step<()>)
    ensures step == MagicAt(data, index, 0, n)
  {
    var i: nat, k: nat := index, 0;
    while k < n
      invariant 0 <= k <= n && MagicAt(data, index, 0, n) == MagicAt(data, i, k, n)
    {
      if i >= |data| {
        return Past;
      }
      var tmp := data[i];
      i := i + 1;
      if k % 2 == 0 && tmp != 0x0f {
        return Bad;
      }
      if k % 2 == 1 && tmp != 0xf0 {
        return Bad;
      }
      k := k + 1;
    }
    return Next((), i);
  }

  method ParseHeader(data: seq<byte>) returns (r: Result)
    ensures r == Parse(data)
  {
    var ok, magicLength, i := ReadU16(data, 0);
    if !ok {
      return OutOfBounds;
    }
    var magic := ReadMagic(data, i, MagicCount(magicLength));
    if !magic.Next? {
      return Failed(magic);
    }
    i := magic.index;
    if i >= |data| {
      return OutOfBounds;
    }
    var tmp: nat := data[i];                             // ends the magic; not looked at
    ok, tmp, i := ReadU16(data, i + 1);
    if !ok {
      return OutOfBounds;
    }
    if tmp != 1 {
      return Rejected;
    }
    var design := ReadField(data, i, 97);
    if !design.Next? {
      return Failed(design);
    }
    var part := ReadField(data, design.index, 98);
    if !part.Next? {
      return Failed(part);
    }
    var date := ReadField(data, part.index, 99);
    if !date.Next? {
      return Failed(date);
    }
    var time := ReadField(data, date.index, 100);
    if !time.Next? {
      return Failed(time);
    }
    i := time.index;
    if i >= |data| {
      return OutOfBounds;
    }
    if data[i] != 101 {
      return Rejected;
    }
    i := i + 1;
    if i + 4 > |data| {
      return OutOfBounds;
    }
    var length: nat := data[i];
    length := Pair(length, data[i + 1]);
    length := Pair(length, data[i + 2]);
    length := Pair(length, data[i + 3]);
    return Accepted(Header(i + 4, magicLength, design.value, part.value, date.value, time.value, length));
  }

  // ----- reading is the inverse of writing -----

  /** part lies in data at index i. */
  predicate At(data: seq<byte>, i: nat, part: seq<byte>) {
    i + |part| <= |data| && data[i..i + |part|] == part
  }

  lemma AtConcat(data: seq<byte>, i: nat, a: seq<byte>, b: seq<byte>)
    ensures At(data, i, a + b) <==> At(data, i, a) && At(data, i + |a|, b)
  {
    var j, k := i + |a|, i + |a| + |b|;
    if k <= |data| {
      assert data[i..k] == data[i..j] + data[j..k];
      assert (a + b)[..|a|] == a && (a + b)[|a|..] == b;
      assert data[i..k][..|a|] == data[i..j] && data[i..k][|a|..] == data[j..k];
    }
  }

  lemma AtOne(data: seq<byte>, i: nat, x: byte)
    ensures At(data, i, [x]) <==> i < |data| && data[i] == x
  {
    if i < |data| {
      assert data[i..i + 1] == [data[i]];
    }
  }

  lemma U16Inverse(data: seq<byte>, i: nat, v: nat)
    requires v < 0x1_0000
    ensures At(data, i, U16(v)) <==> U16At(data, i) == Next(v, i + 2)
    ensures At(data, i, U16(v)) ==> i + 2 <= |data|
  {
    if i + 2 <= |data| {
      assert data[i..i + 2] == [data[i], data[i + 1]];
    }
  }

  lemma U32Inverse(data: seq<byte>, i: nat, v: nat)
    requires v < 0x1_0000_0000
    ensures At(data, i, U32(v)) <==> U32At(data, i) == Next(v, i + 4)
  {
    hide At, U16;
    AtConcat(data, i, U16(v / 0x1_0000), U16(v % 0x1_0000));
    U16Inverse(data, i, v / 0x1_0000);
    U16Inverse(data, i + 2, v % 0x1_0000);
    if i + 4 <= |data| {
      TwoPairs(data[i], data[i + 1], data[i + 2], data[i + 3], v);
    }
  }

  lemma TwoPairs(a: byte, b: byte, c: byte, d: byte, v: nat)
    ensures Pair(Pair(Pair(a, b), c), d) == v <==> Pair(a, b) == v / 0x1_0000 && Pair(c, d) == v % 0x1_0000
  {
  }

  lemma {:induction false} MagicInverse(data: seq<byte>, i: nat, k: nat, n: nat)
    requires k <= n && i <= |data|
    ensures At(data, i, Magic(k, n)) <==> MagicAt(data, i, k, n) == Next((), i + n - k)
    decreases n - k
  {
    if k < n {
      assert Magic(k, n) == [MagicByte(k)] + Magic(k + 1, n);
      AtConcat(data, i, [MagicByte(k)], Magic(k + 1, n));
      if i < |data| {
        AtOne(data, i, MagicByte(k));
        MagicInverse(data, i + 1, k + 1, n);
      }
    }
  }

  lemma FieldInverse(data: seq<byte>, i: nat, tag: byte, s: seq<byte>)
    requires Text(s)
    ensures At(data, i, Field(tag, s)) <==> FieldAt(data, i, tag) == Next(s, i + 3 + |s|)
  {
    hide U16;
    AtConcat(data, i, [tag], U16(|s|) + s);
    AtConcat(data, i + 1, U16(|s|), s);
    U16Inverse(data, i + 1, |s|);
    AtOne(data, i, tag);
  }

  lemma ShortInverse(data: seq<byte>, i: nat, end: byte)
    ensures At(data, i, [end, 0, 1]) <==> ShortAt(data, i) == Next((), i + 3) && data[i] == end
  {
    assert [end, 0, 1] == [end] + U16(1);
    AtConcat(data, i, [end], U16(1));
    U16Inverse(data, i + 1, 1);
    AtOne(data, i, end);
  }

  lemma TailInverse(data: seq<byte>, i: nat, v: nat)
    requires v < 0x1_0000_0000
    ensures At(data, i, [101] + U32(v)) <==> TailAt(data, i) == Next(v, i + 5)
  {
    AtConcat(data, i, [101], U32(v));
    U32Inverse(data, i + 1, v);
    AtOne(data, i, 101);
  }

  /** The items of a header, one behind the other. */
  ghost predicate ItemsAt(data: seq<byte>, h: Header, end: byte)
    requires WellFormed(h)
  {
    var i := h.magicLength + 1;
    var a := i + 3;
    var b := a + 3 + |h.designName|;
    var c := b + 3 + |h.partName|;
    var d := c + 3 + |h.date|;
    var e := d + 3 + |h.time|;
    && U16At(data, 0) == Next(h.magicLength, 2)
    && MagicAt(data, 2, 0, h.magicLength - 1) == Next((), i)
    && ShortAt(data, i) == Next((), a) && data[i] == end
    && FieldAt(data, a, 97) == Next(h.designName, b)
    && FieldAt(data, b, 98) == Next(h.partName, c)
    && FieldAt(data, c, 99) == Next(h.date, d)
    && FieldAt(data, d, 100) == Next(h.time, e)
    && TailAt(data, e) == Next(h.bitstreamLength, h.headerLength)
  }

  lemma WrittenIsItems(data: seq<byte>, h: Header, end: byte)
    requires WellFormed(h)
    ensures At(data, 0, Written(h, end)) <==> ItemsAt(data, h, end)
  {
    hide At, U16At, MagicAt, ShortAt, FieldAt, TailAt, Text, Field, Magic, U16, U32;
    var m := h.magicLength;
    var i := m + 1;
    var a := i + 3;
    var b := a + 3 + |h.designName|;
    var c := b + 3 + |h.partName|;
    var d := c + 3 + |h.date|;
    var e := d + 3 + |h.time|;
    var tail := [101] + U32(h.bitstreamLength);
    var fd := Field(100, h.time);
    var fc := Field(99, h.date);
    var fb := Field(98, h.partName);
    var fa := Field(97, h.designName);
    FieldSize(97, h.designName);
    FieldSize(98, h.partName);
    FieldSize(99, h.date);
    FieldSize(100, h.time);
    AtConcat(data, 0, U16(m), Magic(0, m - 1) + ([end, 0, 1] + (fa + (fb + (fc + (fd + tail))))));
    AtConcat(data, 2, Magic(0, m - 1), [end, 0, 1] + (fa + (fb + (fc + (fd + tail)))));
    AtConcat(data, i, [end, 0, 1], fa + (fb + (fc + (fd + tail))));
    AtConcat(data, a, fa, fb + (fc + (fd + tail)));
    AtConcat(data, b, fb, fc + (fd + tail));
    AtConcat(data, c, fc, fd + tail);
    AtConcat(data, d, fd, tail);
    U16Inverse(data, 0, m);
    if 2 <= |data| {
      MagicInverse(data, 2, 0, m - 1);
    }
    ShortInverse(data, i, end);
    FieldInverse(data, a, 97, h.designName);
    FieldInverse(data, b, 98, h.partName);
    FieldInverse(data, c, 99, h.date);
    FieldInverse(data, d, 100, h.time);
    TailInverse(data, e, h.bitstreamLength);
  }

  lemma FieldSize(tag: byte, s: seq<byte>)
    requires Text(s)
    ensures |Field(tag, s)| == 3 + |s|
  {
  }

  lemma {:induction false} MagicAtBound(data: seq<byte>, i: nat, k: nat, n: nat)
    requires k <= n && MagicAt(data, i, k, n).Next?
    ensures MagicAt(data, i, k, n) == Next((), i + n - k)
    ensures k < n ==> i + n - k <= |data|
    decreases n - k
  {
    if k < n {
      MagicAtBound(data, i + 1, k + 1, n);
    }
  }

  lemma MagicCountIs(m: nat)
    requires m < 0x1_0000
    ensures MagicCount(m) == if m == 0 then 0xFFFF_FFFF else m - 1
  {
  }

  lemma U16AtBound(data: seq<byte>, i: nat)
    requires U16At(data, i).Next?
    ensures U16At(data, i).value < 0x1_0000 && U16At(data, i).index == i + 2 <= |data|
  {
  }

  lemma FieldAtBound(data: seq<byte>, i: nat, tag: byte)
    requires FieldAt(data, i, tag).Next?
    ensures Text(FieldAt(data, i, tag).value)
    ensures FieldAt(data, i, tag).index == i + 3 + |FieldAt(data, i, tag).value| <= |data|
  {
  }

  lemma ShortAtBound(data: seq<byte>, i: nat)
    requires ShortAt(data, i).Next?
    ensures ShortAt(data, i) == Next((), i + 3) && i + 3 <= |data|
  {
  }

  /** An accepted header is well formed and its items lie one behind the other. */
  lemma AcceptedIsItems(data: seq<byte>, h: Header)
    requires |data| < 0xFFFF_FFFF && Parse(data) == Accepted(h)
    ensures WellFormed(h) && h.headerLength <= |data| && ItemsAt(data, h, data[h.magicLength + 1])
  {
    hide MagicAt, FieldAt, Text, WellFormed, U16At, MagicCount, ShortAt, TailAt;
    var m := U16At(data, 0);
    U16AtBound(data, 0);
    MagicCountIs(m.value);
    MagicAtBound(data, 2, 0, MagicCount(m.value));
    var g := MagicAt(data, 2, 0, m.value - 1);
    ShortAtBound(data, g.index);
    var s := ShortAt(data, g.index);
    FieldAtBound(data, s.index, 97);
    var a := FieldAt(data, s.index, 97);
    FieldAtBound(data, a.index, 98);
    var b := FieldAt(data, a.index, 98);
    FieldAtBound(data, b.index, 99);
    var c := FieldAt(data, b.index, 99);
    FieldAtBound(data, c.index, 100);
    ItemsWellFormed(data, h, c.index + 3 + |h.time|);
  }

  lemma ItemsWellFormed(data: seq<byte>, h: Header, e: nat)
    requires U16At(data, 0) == Next(h.magicLength, 2) && h.magicLength >= 1
    requires Text(h.designName) && Text(h.partName) && Text(h.date) && Text(h.time)
    requires TailAt(data, e) == Next(h.bitstreamLength, h.headerLength)
    requires e == h.magicLength + 16 + |h.designName| + |h.partName| + |h.date| + |h.time|
    ensures WellFormed(h) && h.headerLength <= |data|
  {
  }

  /** Main result: exactly the data that begins with the written form of a well-formed header is accepted, as
      that header; the byte that ends the magic may be any. */
  lemma ParseIff(data: seq<byte>, h: Header)
    requires |data| < 0xFFFF_FFFF
    ensures Parse(data) == Accepted(h) <==>
              && WellFormed(h) && h.headerLength <= |data|
              && data[..h.headerLength] == Written(h, data[h.magicLength + 1])
  {
    hide Written, ItemsAt, Parse, Text;
    if Parse(data) == Accepted(h) {
      AcceptedIsItems(data, h);
      WrittenIsItems(data, h, data[h.magicLength + 1]);
    } else if WellFormed(h) && h.headerLength <= |data|
              && data[..h.headerLength] == Written(h, data[h.magicLength + 1]) {
      WrittenIsItems(data, h, data[h.magicLength + 1]);
      ItemsAccepted(data, h, data[h.magicLength + 1]);
    }
  }

  lemma ItemsAccepted(data: seq<byte>, h: Header, end: byte)
    requires WellFormed(h) && ItemsAt(data, h, end)
    ensures Parse(data) == Accepted(h)
  {
    hide MagicAt, FieldAt, Text, U16At, ShortAt, TailAt, MagicCount;
    MagicCountIs(h.magicLength);
  }

  /** Round trip: a written header, whatever follows it, is read back. */
  lemma RoundTrip(h: Header, end: byte, rest: seq<byte>)
    requires WellFormed(h) && h.headerLength + |rest| < 0xFFFF_FFFF
    ensures Parse(Written(h, end) + rest) == Accepted(h)
  {
    hide Written, ItemsAt, Parse, WellFormed;
    var data := Written(h, end) + rest;
    assert data[0..|Written(h, end)|] == Written(h, end);
    WrittenIsItems(data, h, end);
    ItemsAccepted(data, h, end);
  }

  // ----- parsing the first bytes only -----

  lemma {:induction false} MagicExtends(data: seq<byte>, rest: seq<byte>, i: nat, k: nat, n: nat)
    requires k <= n && !MagicAt(data, i, k, n).Past?
    ensures MagicAt(data + rest, i, k, n) == MagicAt(data, i, k, n)
    decreases n - k
  {
    if k < n && i < |data| && data[i] == MagicByte(k) {
      MagicExtends(data, rest, i + 1, k + 1, n);
    }
  }

  lemma FieldExtends(data: seq<byte>, rest: seq<byte>, i: nat, tag: byte)
    requires !FieldAt(data, i, tag).Past?
    ensures FieldAt(data + rest, i, tag) == FieldAt(data, i, tag)
  {
    var all := data + rest;
    assert forall k :: 0 <= k < |data| ==> all[k] == data[k];
    if data[i] == tag {
      var len, j := U16At(data, i + 1).value, i + 3;
      assert all[j..j + len] == data[j..j + len];
    }
  }

  lemma ShortExtends(data: seq<byte>, rest: seq<byte>, i: nat)
    requires !ShortAt(data, i).Past?
    ensures ShortAt(data + rest, i) == ShortAt(data, i)
  {
  }

  lemma TailExtends(data: seq<byte>, rest: seq<byte>, i: nat)
    requires !TailAt(data, i).Past?
    ensures TailAt(data + rest, i) == TailAt(data, i)
  {
  }

  /** What the parser decides without leaving the data, it decides of all longer data. */
  lemma ParseExtends(data: seq<byte>, rest: seq<byte>)
    requires Parse(data) != OutOfBounds
    ensures Parse(data + rest) == Parse(data)
  {
    hide MagicAt, FieldAt, ShortAt, TailAt, MagicCount;
    var m := U16At(data, 0);
    MagicExtends(data, rest, m.index, 0, MagicCount(m.value));
    var g := MagicAt(data, m.index, 0, MagicCount(m.value));
    if !g.Next? { return; }
    ShortExtends(data, rest, g.index);
    var s := ShortAt(data, g.index);
    if !s.Next? { return; }
    FieldExtends(data, rest, s.index, 97);
    var a := FieldAt(data, s.index, 97);
    if !a.Next? { return; }
    FieldExtends(data, rest, a.index, 98);
    var b := FieldAt(data, a.index, 98);
    if !b.Next? { return; }
    FieldExtends(data, rest, b.index, 99);
    var c := FieldAt(data, b.index, 99);
    if !c.Next? { return; }
    FieldExtends(data, rest, c.index, 100);
    var d := FieldAt(data, c.index, 100);
    if !d.Next? { return; }
    TailExtends(data, rest, d.index);
  }

  /** A parser that is given the first size bytes only reads a header if and only if it fits; otherwise it
      leaves them. */
  lemma FitsIff(h: Header, end: byte, rest: seq<byte>, size: nat)
    requires WellFormed(h) && size <= h.headerLength + |rest| < 0xFFFF_FFFF
    ensures Parse((Written(h, end) + rest)[..size]) == if h.headerLength <= size then Accepted(h) else OutOfBounds
  {
    hide Written, Parse, WellFormed;
    var data := Written(h, end) + rest;
    var first := data[..size];
    if h.headerLength <= size {
      assert first == Written(h, end) + rest[..size - h.headerLength];
      RoundTrip(h, end, rest[..size - h.headerLength]);
    } else if Parse(first) != OutOfBounds {
      assert data == first + data[size..];
      ParseExtends(first, data[size..]);
      RoundTrip(h, end, rest);
      ParseIff(first, h);
      assert false;
    }
  }

  // ----- when more data would help -----

  // Where the parser leaves the data, the data can be continued to an accepted header, unless a length of zero has
  // been read, or the half word behind the magic is cut in two behind a wrong first byte.

  predicate FieldStuck(data: seq<byte>, i: nat, tag: byte) {
    i < |data| && data[i] == tag && U16At(data, i + 1).Next? && U16At(data, i + 1).value == 0
  }

  predicate FieldsStuck(data: seq<byte>, i: nat, tag: byte)
    requires 97 <= tag <= 101
    decreases 101 - tag
  {
    tag < 101
    && (FieldStuck(data, i, tag)
        || (FieldAt(data, i, tag).Next? && FieldsStuck(data, FieldAt(data, i, tag).index, tag + 1)))
  }

  predicate ShortTorn(data: seq<byte>, i: nat) {
    |data| == i + 2 && data[i + 1] != 0
  }

  predicate Stuck(data: seq<byte>) {
    var m := U16At(data, 0);
    m.Next?
    && (m.value == 0
        || var g := MagicAt(data, 2, 0, m.value - 1);
           g.Next? && (ShortTorn(data, g.index)
                       || (ShortAt(data, g.index).Next? && FieldsStuck(data, g.index + 3, 97))))
  }

  /** The fields from the one with a tag on, and the end of the header. */
  function FieldsAt(data: seq<byte>, i: nat, tag: byte): Step<()>
    requires 97 <= tag <= 101
    decreases 101 - tag
  {
    if tag == 101 then
      match TailAt(data, i)
      case Bad => Bad
      case Past => Past
      case Next(_, j) => Next((), j)
    else
      match FieldAt(data, i, tag)
      case Bad => Bad
      case Past => Past
      case Next(_, j) => FieldsAt(data, j, tag + 1)
  }

  lemma ParseFields(data: seq<byte>)
    ensures var m := U16At(data, 0);
      if !m.Next? then Parse(data) == OutOfBounds
      else
        var g := MagicAt(data, 2, 0, MagicCount(m.value));
        if !g.Next? then Parse(data) == Failed(g)
        else
          var s := ShortAt(data, g.index);
          if !s.Next? then Parse(data) == Failed(s)
          else
            var f := FieldsAt(data, s.index, 97);
            (f.Next? <==> Parse(data).Accepted?) && (!f.Next? ==> Parse(data) == Failed(f))
  {
    hide MagicAt, FieldAt, ShortAt, TailAt, MagicCount;
    var m := U16At(data, 0);
    if m.Next? && MagicAt(data, 2, 0, MagicCount(m.value)).Next? {
      var s := ShortAt(data, MagicAt(data, 2, 0, MagicCount(m.value)).index);
      if s.Next? {
        var a := FieldAt(data, s.index, 97);
        if a.Next? && FieldAt(data, a.index, 98).Next? {
          var c := FieldAt(data, FieldAt(data, a.index, 98).index, 99);
          if c.Next? {
            var d := FieldAt(data, c.index, 100);
            assert d.Next? ==> FieldsAt(data, c.index, 100) == FieldsAt(data, d.index, 101);
          }
        }
      }
    }
  }

  lemma {:induction false} CompleteMagic(data: seq<byte>, i: nat, k: nat, n: nat) returns (rest: seq<byte>)
    requires k <= n && i <= |data| && MagicAt(data, i, k, n).Past?
    ensures MagicAt(data + rest, i, k, n) == Next((), |data + rest|)
    decreases n - k
  {
    if i < |data| {
      rest := CompleteMagic(data, i + 1, k + 1, n);
    } else {
      rest := Magic(k, n);
      MagicInverse(data + rest, i, k, n);
    }
  }

  lemma CompleteShort(data: seq<byte>, i: nat) returns (rest: seq<byte>)
    requires i <= |data| && ShortAt(data, i).Past? && !ShortTorn(data, i)
    ensures ShortAt(data + rest, i) == Next((), |data + rest|)
  {
    rest := [0, 0, 1][|data| - i..];
    assert forall k :: 0 <= k < |rest| ==> (data + rest)[|data| + k] == rest[k];
  }

  lemma CompleteField(data: seq<byte>, i: nat, tag: byte) returns (rest: seq<byte>)
    requires i <= |data| && FieldAt(data, i, tag).Past? && !FieldStuck(data, i, tag)
    ensures FieldAt(data + rest, i, tag).Next? && FieldAt(data + rest, i, tag).index == |data + rest|
  {
    var zeros := (n: nat) => seq<byte>(n, k => 0);
    if |data| <= i + 1 {
      rest := [tag, 0, 1, 0][|data| - i..];
    } else if |data| == i + 2 {
      rest := [1] + zeros(Pair(data[i + 1], 1));
    } else {
      rest := zeros(i + 3 + Pair(data[i + 1], data[i + 2]) - |data|);
    }
    assert forall k :: 0 <= k < |rest| ==> (data + rest)[|data| + k] == rest[k];
  }

  lemma CompleteTail(data: seq<byte>, i: nat) returns (rest: seq<byte>)
    requires i <= |data| && TailAt(data, i).Past?
    ensures TailAt(data + rest, i).Next? && TailAt(data + rest, i).index == |data + rest|
  {
    rest := [101, 0, 0, 0, 0][|data| - i..];
    assert forall k :: 0 <= k < |rest| ==> (data + rest)[|data| + k] == rest[k];
  }

  lemma {:induction false} CompleteFields(data: seq<byte>, i: nat, tag: byte) returns (rest: seq<byte>)
    requires 97 <= tag <= 101 && i <= |data| && FieldsAt(data, i, tag).Past? && !FieldsStuck(data, i, tag)
    ensures FieldsAt(data + rest, i, tag).Next?
    decreases 101 - tag
  {
    hide TailAt, FieldAt;
    if tag == 101 {
      rest := CompleteTail(data, i);
    } else if FieldAt(data, i, tag).Next? {
      FieldAtBound(data, i, tag);
      rest := CompleteFields(data, FieldAt(data, i, tag).index, tag + 1);
      FieldExtends(data, rest, i, tag);
    } else {
      var first := CompleteField(data, i, tag);
      var data' := data + first;
      NothingYet(data', tag + 1);
      var others := CompleteFields(data', |data'|, tag + 1);
      FieldExtends(data', others, i, tag);
      rest := first + others;
      assert data' + others == data + rest;
    }
  }

  lemma NothingYet(data: seq<byte>, tag: byte)
    requires 97 <= tag <= 101
    ensures FieldsAt(data, |data|, tag).Past? && !FieldsStuck(data, |data|, tag)
  {
  }

  /** Behind the magic. */
  lemma CompleteBody(data: seq<byte>, i: nat) returns (rest: seq<byte>)
    requires i <= |data| && !ShortAt(data, i).Bad? && !ShortTorn(data, i)
    requires ShortAt(data, i).Next? ==> FieldsAt(data, i + 3, 97).Past? && !FieldsStuck(data, i + 3, 97)
    ensures ShortAt(data + rest, i) == Next((), i + 3) && FieldsAt(data + rest, i + 3, 97).Next?
  {
    hide FieldsAt, FieldsStuck, ShortAt, ShortTorn;
    if ShortAt(data, i).Next? {
      ShortAtBound(data, i);
      rest := CompleteFields(data, i + 3, 97);
      ShortExtends(data, rest, i);
    } else {
      var first := CompleteShort(data, i);
      var data' := data + first;
      ShortAtBound(data', i);
      NothingYet(data', 97);
      var others := CompleteFields(data', i + 3, 97);
      ShortExtends(data', others, i);
      rest := first + others;
      assert data' + others == data + rest;
    }
  }

  lemma CompleteHeader(data: seq<byte>) returns (rest: seq<byte>)
    requires U16At(data, 0).Next? && Parse(data) == OutOfBounds && !Stuck(data)
    ensures Parse(data + rest).Accepted?
  {
    hide Parse, MagicAt, ShortAt, FieldsAt, FieldsStuck, ShortTorn, MagicCount;
    var n := U16At(data, 0).value - 1;
    U16AtBound(data, 0);
    MagicCountIs(n + 1);
    ParseFields(data);
    var g := MagicAt(data, 2, 0, n);
    if g.Next? {
      if n > 0 {
        MagicAtBound(data, 2, 0, n);
      } else {
        NoMagic(data);
      }
      if ShortAt(data, g.index).Next? {
        ShortAtBound(data, g.index);
      }
      rest := CompleteBody(data, g.index);
      MagicExtends(data, rest, 2, 0, n);
    } else {
      var first := CompleteMagic(data, 2, 0, n);
      var data' := data + first;
      NothingThere(data');
      var others := CompleteBody(data', |data'|);
      MagicExtends(data', others, 2, 0, n);
      rest := first + others;
      assert data' + others == data + rest;
    }
    ParseFields(data + rest);
  }

  lemma NoMagic(data: seq<byte>)
    ensures MagicAt(data, 2, 0, 0) == Next((), 2)
  {
  }

  lemma NothingThere(data: seq<byte>)
    ensures ShortAt(data, |data|).Past? && !ShortTorn(data, |data|)
  {
  }

  /** Where the parser leaves data that is not stuck, the data can be continued to an accepted header. */
  lemma OutOfBoundsCompletes(data: seq<byte>) returns (rest: seq<byte>)
    requires Parse(data) == OutOfBounds && !Stuck(data)
    ensures Parse(data + rest).Accepted?
  {
    hide Parse;
    if U16At(data, 0).Next? {
      rest := CompleteHeader(data);
    } else {
      var first := [0, 1][|data|..];
      var data' := data + first;
      ShortHeaderOpens(data');
      var others := CompleteHeader(data');
      rest := first + others;
      assert data' + others == data + rest;
    }
  }

  /** The length of the magic alone, if it is not zero. */
  lemma ShortHeaderOpens(data: seq<byte>)
    requires |data| == 2 && data[1] == 1
    ensures U16At(data, 0).Next? && Parse(data) == OutOfBounds && !Stuck(data)
  {
    hide Parse, MagicAt, ShortAt, FieldsAt, FieldsStuck, MagicCount;
    var n := Pair(data[0], data[1]) - 1;
    MagicCountIs(n + 1);
    ParseFields(data);
    MagicEnds(data, n);
    NothingThere(data);
  }

  lemma MagicEnds(data: seq<byte>, n: nat)
    requires |data| == 2
    ensures MagicAt(data, 2, 0, n) == if n == 0 then Next((), 2) else Past
  {
  }

  /** What is rejected or stuck stays so: nothing that begins with it is accepted. */
  lemma NeverAccepted(data: seq<byte>, rest: seq<byte>)
    requires |data| + |rest| < 0xFFFF_FFFF && (Parse(data) == Rejected || (Parse(data) == OutOfBounds && Stuck(data)))
    ensures !Parse(data + rest).Accepted?
  {
    hide Parse, MagicAt, ShortAt, FieldsAt, MagicCount;
    if Parse(data) == Rejected {
      ParseExtends(data, rest);
    } else if Parse(data + rest).Accepted? {
      var all, h := data + rest, Parse(data + rest).header;
      ParseIff(all, h);
      MagicLengthRead(all);
      U16AtBound(all, 0);
      MagicCountIs(h.magicLength);
      ParseFields(all);
      StuckStays(data, rest);
    }
  }

  lemma MagicLengthRead(data: seq<byte>)
    requires Parse(data).Accepted?
    ensures U16At(data, 0).Next? && Parse(data).header.magicLength == U16At(data, 0).value
  {
    hide MagicAt, FieldAt, ShortAt, TailAt, MagicCount;
  }

  lemma StuckStays(data: seq<byte>, rest: seq<byte>)
    requires Stuck(data) && U16At(data, 0).value != 0
    ensures var n := U16At(data + rest, 0).value - 1;
      && n >= 0 && MagicAt(data + rest, 2, 0, n).Next?
      && var s := ShortAt(data + rest, MagicAt(data + rest, 2, 0, n).index);
         !s.Next? || !FieldsAt(data + rest, s.index, 97).Next?
  {
    hide MagicAt, FieldsAt;
    var g := MagicAt(data, 2, 0, U16At(data, 0).value - 1);
    MagicExtends(data, rest, 2, 0, U16At(data, 0).value - 1);
    if ShortAt(data, g.index).Next? {
      ShortExtends(data, rest, g.index);
      FieldsStayStuck(data, rest, g.index + 3, 97);
    }
  }

  lemma {:induction false} FieldsStayStuck(data: seq<byte>, rest: seq<byte>, i: nat, tag: byte)
    requires 97 <= tag <= 101 && FieldsStuck(data, i, tag)
    ensures !FieldsAt(data + rest, i, tag).Next?
    decreases 101 - tag
  {
    if !FieldStuck(data, i, tag) {
      FieldExtends(data, rest, i, tag);
      FieldsStayStuck(data, rest, FieldAt(data, i, tag).index, tag + 1);
    }
  }
}
