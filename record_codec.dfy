/**
  One queue record inside the retained buffer: the fixed struct
  PublishQueueEventData (ttl, flags, size), the event name and the event data
  as two NUL-terminated strings, then padding up to a 4-byte boundary.
  Strings carry no length prefix: readers find their ends by scanning for NUL,
  and every scan here stops at the end of the buffer, where C's strlen would
  run on.
 */
module RecordCodec {
  import opened Bytes

  /** sizeof(PublishQueueEventData): ttl (4 bytes), flags (2), size (2). */
  const EVH: nat := 8

  /** The footprint of a record with two empty strings. */
  const MIN_RECORD: nat := 12

  /** What a producer queues: the arguments of publish. */
  datatype Event = Event(ttl: I32, flags: U16, name: CString, data: CString)

  /** The smallest multiple of 4 that is at least n. */
  function RoundUp4(n: nat): (r: nat)
    ensures r % 4 == 0 && n <= r < n + 4
  {
    if n % 4 != 0 then n + (4 - n % 4) else n
  }

  lemma {:induction false} RoundUp4Shift(a: nat, n: nat)
    requires a % 4 == 0
    ensures RoundUp4(a + n) == a + RoundUp4(n)
  {
  }

  /** Fixed struct, both strings and both terminators, before padding. */
  function RawSize(nameLen: nat, dataLen: nat): nat
  {
    EVH + nameLen + dataLen + 2
  }

  /** The size publishCommon computes and stores for a record. */
  function RecordSize(nameLen: nat, dataLen: nat): (size: nat)
    ensures size % 4 == 0 && size >= MIN_RECORD
    ensures RawSize(nameLen, dataLen) <= size < RawSize(nameLen, dataLen) + 4
  {
    RoundUp4(RawSize(nameLen, dataLen))
  }

  function Span(e: Event): nat
  {
    RecordSize(|e.name|, |e.data|)
  }

  /** The bytes publishCommon writes for e: the struct, then both strings with their terminators. */
  function EncodeRecord(e: Event, size: U16): (s: seq<Byte>)
    ensures |s| == RawSize(|e.name|, |e.data|)
  {
    I32Bytes(e.ttl) + U16Bytes(e.flags) + U16Bytes(size) + e.name + [0] + e.data + [0]
  }

  /** Where the name string of the record at start begins. */
  function NameAt(start: nat): nat
  {
    start + EVH
  }

  /** Where the data string begins, after a name of nameLen characters and its NUL. */
  function DataAt(start: nat, nameLen: nat): nat
  {
    start + EVH + nameLen + 1
  }

  /** Where the padding begins, after the data string's NUL. */
  function PadAt(start: nat, nameLen: nat, dataLen: nat): nat
  {
    start + RawSize(nameLen, dataLen)
  }

  /** strlen(&buf[i]), stopping at the end of the buffer when no NUL comes first. */
  function StrLen(buf: seq<Byte>, i: nat): (n: nat)
    ensures i <= |buf| ==> i + n <= |buf|
    ensures i >= |buf| ==> n == 0
    decreases |buf| - i
  {
    if i >= |buf| || buf[i] == 0 then 0 else 1 + StrLen(buf, i + 1)
  }

  /** The characters strlen counts are not NUL, and the one it stops at, inside the buffer, is. */
  lemma {:induction false} StrLenStops(buf: seq<Byte>, i: nat)
    ensures forall k :: i <= k < i + StrLen(buf, i) ==> buf[k] != 0
    ensures i + StrLen(buf, i) < |buf| ==> buf[i + StrLen(buf, i)] == 0
    decreases |buf| - i
  {
    if i < |buf| && buf[i] != 0 {
      StrLenStops(buf, i + 1);
    }
  }

  /**
    The offset just past the record at start: past the struct and both strings,
    then aligned as an offset from the start of the buffer. A result beyond
    |buf| means a string ran off the end of the buffer.
   */
  function SkipEvent(buf: seq<Byte>, start: nat): (next: nat)
    ensures next % 4 == 0 && next >= start + EVH + 2
  {
    var nameLen := StrLen(buf, NameAt(start));
    var dataLen := StrLen(buf, DataAt(start, nameLen));
    RoundUp4(PadAt(start, nameLen, dataLen))
  }

  /** The event at start, as the publishing worker reads it through the pointer getOldestEvent returns. */
  function DecodeAt(buf: seq<Byte>, start: nat): (e: Event)
    requires SkipEvent(buf, start) <= |buf|
    ensures |e.name| == StrLen(buf, NameAt(start))
    ensures |e.data| == StrLen(buf, DataAt(start, |e.name|))
  {
    var nameLen := StrLen(buf, NameAt(start));
    var dataLen := StrLen(buf, DataAt(start, nameLen));
    StrLenStops(buf, NameAt(start));
    StrLenStops(buf, DataAt(start, nameLen));
    Event(I32At(buf, start), U16At(buf, start + 4),
          buf[NameAt(start)..NameAt(start) + nameLen], buf[DataAt(start, nameLen)..DataAt(start, nameLen) + dataLen])
  }

  lemma {:induction false} SliceOfSlice(buf: seq<Byte>, a: nat, b: nat, c: nat, d: nat)
    requires a <= b <= |buf| && c <= d <= b - a
    ensures buf[a..b][c..d] == buf[a + c..a + d]
  {
    assert forall k :: 0 <= k < d - c ==> buf[a..b][c..d][k] == buf[a + c + k];
  }

  lemma {:induction false} Adjacent(buf: seq<Byte>, a: nat, b: nat, c: nat)
    requires a <= b <= c <= |buf|
    ensures buf[a..b] + buf[b..c] == buf[a..c]
  {
  }

  /**
    Where each part of a record's bytes sits in the buffer, for any bytes in
    the struct's three fields and any strings and padding.
   */
  lemma {:induction false} Layout(buf: seq<Byte>, off: nat, end: nat, ttl: seq<Byte>, flags: seq<Byte>, size: seq<Byte>,
               name: CString, data: CString, pad: seq<Byte>)
    requires |ttl| == 4 && |flags| == 2 && |size| == 2
    requires end == PadAt(off, |name|, |data|) + |pad| <= |buf|
    requires buf[off..end] == ttl + flags + size + name + [0] + data + [0] + pad
    ensures buf[off..off + 4] == ttl && buf[off + 4..off + 6] == flags && buf[off + 6..off + 8] == size
    ensures buf[NameAt(off)..NameAt(off) + |name|] == name && buf[NameAt(off) + |name|] == 0
    ensures buf[DataAt(off, |name|)..DataAt(off, |name|) + |data|] == data && buf[DataAt(off, |name|) + |data|] == 0
    ensures buf[PadAt(off, |name|, |data|)..end] == pad
  {
    var p1 := ttl + flags;
    var p2 := p1 + size;
    var p3 := p2 + name;
    var p4 := p3 + [0];
    var p5 := p4 + data;
    var p6 := p5 + [0];
    Peel(buf, off, p6, pad);
    Peel(buf, off, p5, [0]);
    Peel(buf, off, p4, data);
    Peel(buf, off, p3, [0]);
    Peel(buf, off, p2, name);
    Peel(buf, off, p1, size);
    Peel(buf, off, ttl, flags);
    assert buf[NameAt(off) + |name|] == buf[NameAt(off) + |name|..DataAt(off, |name|)][0];
    assert buf[DataAt(off, |name|) + |data|] == buf[DataAt(off, |name|) + |data|..PadAt(off, |name|, |data|)][0];
  }

  /** strlen measures both strings of a record laid out at off. */
  lemma {:induction false} Measured(buf: seq<Byte>, off: nat, name: CString, data: CString)
    requires PadAt(off, |name|, |data|) <= |buf|
    requires buf[NameAt(off)..NameAt(off) + |name|] == name && buf[NameAt(off) + |name|] == 0
    requires buf[DataAt(off, |name|)..DataAt(off, |name|) + |data|] == data && buf[DataAt(off, |name|) + |data|] == 0
    ensures StrLen(buf, NameAt(off)) == |name| && StrLen(buf, DataAt(off, |name|)) == |data|
  {
    StrLenOf(buf, NameAt(off), name);
    StrLenOf(buf, DataAt(off, |name|), data);
  }

  /** A window of the buffer holding x + y holds x, then y. */
  lemma {:induction false} Peel(buf: seq<Byte>, a: nat, x: seq<Byte>, y: seq<Byte>)
    requires a + |x| + |y| <= |buf| && buf[a..a + |x| + |y|] == x + y
    ensures buf[a..a + |x|] == x && buf[a + |x|..a + |x| + |y|] == y
  {
    assert buf[a..a + |x|] == (x + y)[..|x|];
    assert buf[a + |x|..a + |x| + |y|] == (x + y)[|x|..];
  }

  /** A NUL-terminated string found in place is what strlen measures. */
  lemma {:induction false} StrLenOf(buf: seq<Byte>, i: nat, s: CString)
    requires i + |s| < |buf| && buf[i..i + |s|] == s && buf[i + |s|] == 0
    ensures StrLen(buf, i) == |s|
    decreases |s|
  {
    if |s| > 0 {
      assert buf[i] == s[0];
      assert buf[i + 1..i + |s|] == s[1..];
      StrLenOf(buf, i + 1, s[1..]);
    }
  }

  /** skipEvent from a 4-aligned offset moves by the record size of the two strings it measures. */
  lemma {:induction false} SkipOver(buf: seq<Byte>, off: nat, nameLen: nat, dataLen: nat)
    requires off % 4 == 0
    requires StrLen(buf, NameAt(off)) == nameLen && StrLen(buf, DataAt(off, nameLen)) == dataLen
    ensures SkipEvent(buf, off) == off + RecordSize(nameLen, dataLen)
  {
    RoundUp4Shift(off, RawSize(nameLen, dataLen));
  }


  /**
    A block of bytes holding exactly one record: skipEvent, started at its
    first byte, steps over the whole block and no further.
   */
  predicate IsRecord(b: seq<Byte>)
  {
    SkipEvent(b, 0) == |b|
  }

  /** The event a record block holds; the block is as long as its event's record size. */
  function EventOf(b: seq<Byte>): (e: Event)
    requires IsRecord(b)
    ensures Span(e) == |b|
  {
    DecodeAt(b, 0)
  }

  /**
    strlen inside a block x measures what it measures at the same place in a
    buffer y holding x at position at, as long as the terminator lies inside x.
   */
  lemma {:induction false} StrLenIn(x: seq<Byte>, y: seq<Byte>, at: nat, i: nat)
    requires at + |x| <= |y| && y[at..at + |x|] == x
    requires i + StrLen(x, i) < |x| || i + StrLen(y, at + i) < |x|
    ensures StrLen(y, at + i) == StrLen(x, i)
    decreases |x| - i
  {
    assert y[at + i] == y[at..at + |x|][i];
    if x[i] != 0 {
      StrLenIn(x, y, at, i + 1);
    }
  }

  /** Bytes found in place at positions p..q of the buffer, the same as positions i..j of the block. */
  lemma {:induction false} Window(buf: seq<Byte>, off: nat, b: seq<Byte>, i: nat, j: nat, p: nat, q: nat)
    requires off + |b| <= |buf| && buf[off..off + |b|] == b && i <= j <= |b|
    requires p == off + i && q == off + j
    ensures buf[p..q] == b[i..j]
  {
    SliceOfSlice(buf, off, off + |b|, i, j);
  }

  /**
    The round trip of a record through the buffer: the bytes publishCommon
    writes for e, whatever size field they carry and with any padding up to
    the record size after them, form one record block holding e.
   */
  lemma {:induction false} RecordRoundTrip(e: Event, size: U16, pad: seq<Byte>)
    requires |pad| == Span(e) - RawSize(|e.name|, |e.data|)
    ensures var b := EncodeRecord(e, size) + pad;
            IsRecord(b) && EventOf(b) == e
  {
    var b := EncodeRecord(e, size) + pad;
    assert b[0..|b|] == b;
    Layout(b, 0, |b|, I32Bytes(e.ttl), U16Bytes(e.flags), U16Bytes(size), e.name, e.data, pad);
    Measured(b, 0, e.name, e.data);
    SkipOver(b, 0, |e.name|, |e.data|);
    I32RoundTrip(b, 0, e.ttl);
    U16RoundTrip(b, 4, e.flags);
  }

  /** strlen measures the strings of a record block found in place as it does in the block itself. */
  lemma {:induction false} PlacedStrings(buf: seq<Byte>, off: nat, b: seq<Byte>)
    requires IsRecord(b) && off + |b| <= |buf| && buf[off..off + |b|] == b
    ensures var nl := StrLen(b, NameAt(0));
            && StrLen(buf, NameAt(off)) == nl
            && StrLen(buf, DataAt(off, nl)) == StrLen(b, DataAt(0, nl))
            && RawSize(nl, StrLen(b, DataAt(0, nl))) <= |b|
  {
    var nl := StrLen(b, NameAt(0));
    var dl := StrLen(b, DataAt(0, nl));
    assert RawSize(nl, dl) <= |b|;
    StrLenIn(b, buf, off, NameAt(0));
    StrLenIn(b, buf, off, DataAt(0, nl));
  }

  /** The name read from a record block found in place is the block's. */
  lemma {:induction false} PlacedName(buf: seq<Byte>, off: nat, b: seq<Byte>)
    requires IsRecord(b) && off + |b| <= |buf| && buf[off..off + |b|] == b
    requires SkipEvent(buf, off) <= |buf|
    ensures DecodeAt(buf, off).name == EventOf(b).name
  {
    var nl := StrLen(b, NameAt(0));
    PlacedStrings(buf, off, b);
    Window(buf, off, b, NameAt(0), NameAt(0) + nl, NameAt(off), NameAt(off) + nl);
    assert DecodeAt(buf, off).name == buf[NameAt(off)..NameAt(off) + nl];
    assert EventOf(b).name == b[NameAt(0)..NameAt(0) + nl];
  }

  /** The data read from a record block found in place is the block's. */
  lemma {:induction false} PlacedData(buf: seq<Byte>, off: nat, b: seq<Byte>)
    requires IsRecord(b) && off + |b| <= |buf| && buf[off..off + |b|] == b
    requires SkipEvent(buf, off) <= |buf|
    ensures DecodeAt(buf, off).data == EventOf(b).data
  {
    var nl := StrLen(b, NameAt(0));
    var dl := StrLen(b, DataAt(0, nl));
    PlacedStrings(buf, off, b);
    Window(buf, off, b, DataAt(0, nl), DataAt(0, nl) + dl, DataAt(off, nl), DataAt(off, nl) + dl);
    assert DecodeAt(buf, off).data == buf[DataAt(off, nl)..DataAt(off, nl) + dl];
    assert EventOf(b).data == b[DataAt(0, nl)..DataAt(0, nl) + dl];
  }

  /** The ttl and flags read from a record block found in place are the block's. */
  lemma {:induction false} PlacedFields(buf: seq<Byte>, off: nat, b: seq<Byte>)
    requires IsRecord(b) && off + |b| <= |buf| && buf[off..off + |b|] == b
    requires SkipEvent(buf, off) <= |buf|
    ensures DecodeAt(buf, off).ttl == EventOf(b).ttl && DecodeAt(buf, off).flags == EventOf(b).flags
  {
  }

  /**
    A record block found in place at a 4-aligned offset: skipEvent steps
    exactly over it, and the event read there is the block's.
   */
  lemma {:induction false} Placed(buf: seq<Byte>, off: nat, b: seq<Byte>)
    requires off % 4 == 0 && IsRecord(b) && off + |b| <= |buf| && buf[off..off + |b|] == b
    ensures SkipEvent(buf, off) == off + |b|
    ensures DecodeAt(buf, off) == EventOf(b)
  {
    var nl := StrLen(b, NameAt(0));
    PlacedStrings(buf, off, b);
    SkipOver(buf, off, nl, StrLen(b, DataAt(0, nl)));
    PlacedName(buf, off, b);
    PlacedData(buf, off, b);
    PlacedFields(buf, off, b);
  }

  /**
    Conversely, the bytes skipEvent steps over from a 4-aligned offset without
    leaving the buffer form one record block, holding the event read there.
   */
  lemma {:induction false} Cut(buf: seq<Byte>, off: nat)
    requires off % 4 == 0 && SkipEvent(buf, off) <= |buf|
    ensures var b := buf[off..SkipEvent(buf, off)];
            IsRecord(b) && EventOf(b) == DecodeAt(buf, off)
  {
    var end := SkipEvent(buf, off);
    var b := buf[off..end];
    var nl := StrLen(buf, NameAt(off));
    var dl := StrLen(buf, DataAt(off, nl));
    SkipOver(buf, off, nl, dl);
    StrLenIn(b, buf, off, NameAt(0));
    StrLenIn(b, buf, off, DataAt(0, nl));
    SkipOver(b, 0, nl, dl);
    Placed(buf, off, b);
  }
}
