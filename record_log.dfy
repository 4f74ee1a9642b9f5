/**
  The live part of the retained buffer as a sequence of record blocks: how
  records are packed one after another, what removing the oldest or
  second-oldest record does to that sequence, what publishCommon's eviction
  loop does to it, and what the recovery scan in setup reads back from it.
 */
module RecordLog {
  import opened Wrappers
  import opened Bytes
  import opened RecordCodec

  /** The number of bytes the records of events es take up when packed back to back. */
  function TotalSize(es: seq<Event>): (n: nat)
    ensures n >= MIN_RECORD * |es|
  {
    if es == [] then 0 else Span(es[0]) + TotalSize(es[1..])
  }

  lemma {:induction false} TotalSizeAppend(es: seq<Event>, e: Event)
    ensures TotalSize(es + [e]) == TotalSize(es) + Span(e)
    decreases |es|
  {
    if es != [] {
      assert (es + [e])[1..] == es[1..] + [e];
      TotalSizeAppend(es[1..], e);
    }
  }

  /** Every block of bs holds exactly one record. */
  predicate AllRecords(bs: seq<seq<Byte>>)
  {
    forall i :: 0 <= i < |bs| ==> IsRecord(bs[i])
  }

  /** The events of record blocks, oldest first. */
  function EventsOf(bs: seq<seq<Byte>>): (es: seq<Event>)
    requires AllRecords(bs)
    ensures |es| == |bs|
  {
    seq(|bs|, i requires 0 <= i < |bs| => EventOf(bs[i]))
  }

  /** The bytes of the blocks bs packed back to back, oldest first, with nothing in between. */
  function Flatten(bs: seq<seq<Byte>>): seq<Byte>
  {
    if bs == [] then [] else bs[0] + Flatten(bs[1..])
  }

  /** Packed record blocks take up exactly the total record size of their events. */
  lemma {:induction false} FlattenLength(bs: seq<seq<Byte>>)
    requires AllRecords(bs)
    ensures |Flatten(bs)| == TotalSize(EventsOf(bs))
    decreases |bs|
  {
    if bs != [] {
      assert EventsOf(bs)[1..] == EventsOf(bs[1..]);
      FlattenLength(bs[1..]);
    }
  }

  /** Storing one more block at the end of a packed log packs it after the others. */
  lemma {:induction false} FlattenAppend(bs: seq<seq<Byte>>, b: seq<Byte>)
    ensures Flatten(bs + [b]) == Flatten(bs) + b
    decreases |bs|
  {
    if bs == [] {
      assert bs + [b] == [b];
    } else {
      assert (bs + [b])[1..] == bs[1..] + [b];
      FlattenAppend(bs[1..], b);
    }
  }

  lemma {:induction false} EventsOfAppend(bs: seq<seq<Byte>>, b: seq<Byte>)
    requires AllRecords(bs) && IsRecord(b)
    ensures AllRecords(bs + [b]) && EventsOf(bs + [b]) == EventsOf(bs) + [EventOf(b)]
  {
  }

  /** The index discardOldEvent removes. */
  function Victim(secondEvent: bool): nat
  {
    if secondEvent then 1 else 0
  }

  /** The records left after discardOldEvent removes the oldest, or the second-oldest, record. */
  function Discard<T>(rs: seq<T>, secondEvent: bool): (r: seq<T>)
    requires |rs| > Victim(secondEvent)
    ensures |r| == |rs| - 1
    ensures forall j :: 0 <= j < Victim(secondEvent) ==> r[j] == rs[j]
    ensures forall j :: Victim(secondEvent) <= j < |r| ==> r[j] == rs[j + 1]
  {
    if secondEvent then rs[..1] + rs[2..] else rs[1..]
  }

  /** Removing a record block removes its event, and leaves only record blocks. */
  lemma {:induction false} EventsOfDiscard(bs: seq<seq<Byte>>, secondEvent: bool)
    requires AllRecords(bs) && |bs| > Victim(secondEvent)
    ensures AllRecords(Discard(bs, secondEvent))
    ensures EventsOf(Discard(bs, secondEvent)) == Discard(EventsOf(bs), secondEvent)
  {
  }

  /**
    The bytes of a packed log after discardOldEvent: the block at the victim
    index is cut out and the blocks after it follow on directly.
   */
  lemma {:induction false} FlattenDiscard(bs: seq<seq<Byte>>, secondEvent: bool)
    requires |bs| > Victim(secondEvent)
    ensures Flatten(Discard(bs, secondEvent))
            == if secondEvent then bs[0] + Flatten(bs[2..]) else Flatten(bs[1..])
  {
  }

  /** The records after publishCommon's eviction loop: whether the new event was stored, and what the log holds. */
  datatype Appended = Appended(stored: bool, records: seq<Event>)

  /**
    publishCommon's loop, once the oversize check has passed: store e if the
    free space (capacity minus the packed log) has room for it; otherwise give
    up when only one record is left or nothing can be discarded, and else
    discard the oldest record (the second-oldest while keepFirst, that is while
    a send is in flight) and try again.
   */
  function Enqueue(rs: seq<Event>, e: Event, keepFirst: bool, capacity: nat): (a: Appended)
    ensures |a.records| <= |rs| + (if a.stored then 1 else 0)
    ensures !a.stored && rs != [] ==> a.records != []
    decreases |rs|
  {
    if capacity - TotalSize(rs) >= Span(e) then Appended(true, rs + [e])
    else if |rs| == 1 then Appended(false, rs)
    else if |rs| <= Victim(keepFirst) then Appended(false, rs)
    else Enqueue(Discard(rs, keepFirst), e, keepFirst, capacity)
  }

  /** One round of publishCommon's loop that finds no room and discards a record. */
  lemma {:induction false} EnqueueDiscards(rs: seq<Event>, e: Event, keepFirst: bool, capacity: nat)
    requires capacity - TotalSize(rs) < Span(e) && |rs| != 1 && |rs| > Victim(keepFirst)
    ensures Enqueue(rs, e, keepFirst, capacity) == Enqueue(Discard(rs, keepFirst), e, keepFirst, capacity)
  {
  }

  /** The round of publishCommon's loop that finds room stores the event. */
  lemma {:induction false} EnqueueStores(rs: seq<Event>, e: Event, keepFirst: bool, capacity: nat)
    requires capacity - TotalSize(rs) >= Span(e)
    ensures Enqueue(rs, e, keepFirst, capacity) == Appended(true, rs + [e])
  {
  }

  /** The round of publishCommon's loop that finds no room and nothing to discard gives up. */
  lemma {:induction false} EnqueueGivesUp(rs: seq<Event>, e: Event, keepFirst: bool, capacity: nat)
    requires capacity - TotalSize(rs) < Span(e) && (|rs| == 1 || |rs| <= Victim(keepFirst))
    ensures Enqueue(rs, e, keepFirst, capacity) == Appended(false, rs)
  {
  }

  /** The records left after k evictions: the oldest k, or while keepFirst the k after the first. */
  function Survivors(rs: seq<Event>, keepFirst: bool, k: nat): seq<Event>
    requires k + (if keepFirst && rs != [] then 1 else 0) <= |rs|
  {
    if keepFirst && rs != [] then [rs[0]] + rs[1 + k..] else rs[k..]
  }

  /**
    Eviction only ever removes a run of the oldest records (while a send is in
    flight: the run right after the first record); the survivors keep their
    order and a stored event goes last.
   */
  lemma {:induction false} EnqueueEvictsOldest(rs: seq<Event>, e: Event, keepFirst: bool, capacity: nat)
    returns (k: nat)
    ensures k + (if keepFirst && rs != [] then 1 else 0) <= |rs|
    ensures var a := Enqueue(rs, e, keepFirst, capacity);
            a.records == Survivors(rs, keepFirst, k) + (if a.stored then [e] else [])
    decreases |rs|
  {
    if capacity - TotalSize(rs) >= Span(e) || |rs| == 1 || |rs| <= Victim(keepFirst) {
      k := 0;
      assert rs[0..] == rs;
      if keepFirst && rs != [] {
        assert [rs[0]] + rs[1..] == rs;
      }
    } else {
      var d := Discard(rs, keepFirst);
      var k' := EnqueueEvictsOldest(d, e, keepFirst, capacity);
      k := k' + 1;
      if keepFirst {
        assert d[1 + k'..] == rs[1 + k..];
      } else {
        assert d[k'..] == rs[k..];
      }
    }
  }

  /** While a send is in flight the first record survives every eviction. */
  lemma {:induction false} EnqueueKeepsFirst(rs: seq<Event>, e: Event, capacity: nat)
    requires rs != []
    ensures var a := Enqueue(rs, e, true, capacity);
            a.records != [] && a.records[0] == rs[0]
  {
    var k := EnqueueEvictsOldest(rs, e, true, capacity);
  }

  /** A stored event is the newest record, and the log then fits in the capacity. */
  lemma {:induction false} EnqueueStoredFits(rs: seq<Event>, e: Event, keepFirst: bool, capacity: nat)
    requires Enqueue(rs, e, keepFirst, capacity).stored
    ensures var a := Enqueue(rs, e, keepFirst, capacity);
            a.records != [] && a.records[|a.records| - 1] == e && TotalSize(a.records) <= capacity
    decreases |rs|
  {
    if capacity - TotalSize(rs) >= Span(e) {
      TotalSizeAppend(rs, e);
    } else {
      EnqueueStoredFits(Discard(rs, keepFirst), e, keepFirst, capacity);
    }
  }

  /**
    For an event that fits in an empty buffer, the loop fails only when it is
    down to one record that cannot share the buffer with the new event.
   */
  lemma {:induction false} EnqueueFailsOnlyAtOne(rs: seq<Event>, e: Event, keepFirst: bool, capacity: nat)
    requires Span(e) <= capacity
    requires !Enqueue(rs, e, keepFirst, capacity).stored
    ensures var a := Enqueue(rs, e, keepFirst, capacity);
            |a.records| == 1 && TotalSize(a.records) + Span(e) > capacity
    decreases |rs|
  {
    if capacity - TotalSize(rs) < Span(e) && |rs| != 1 {
      EnqueueFailsOnlyAtOne(Discard(rs, keepFirst), e, keepFirst, capacity);
    }
  }

  /**
    While a send is in flight, an event that fits in an empty buffer but not
    beside the first record is rejected after every other record has been
    discarded: the log is left holding the in-flight record alone.
   */
  lemma {:induction false} EnqueueSendingFailure(rs: seq<Event>, e: Event, capacity: nat)
    requires rs != [] && Span(e) <= capacity
    requires !Enqueue(rs, e, true, capacity).stored
    ensures Enqueue(rs, e, true, capacity).records == [rs[0]]
  {
    EnqueueKeepsFirst(rs, e, capacity);
    EnqueueFailsOnlyAtOne(rs, e, true, capacity);
  }

  /**
    setup's recovery scan: skip count records from off, failing (None) as soon
    as a skip passes the end of the buffer; otherwise the offset after the last.
   */
  function ScanFrom(buf: seq<Byte>, off: nat, count: nat): (r: Option<nat>)
    ensures r.Some? ==> off <= r.value <= |buf| || (count == 0 && r.value == off)
    ensures r.Some? && off % 4 == 0 ==> r.value % 4 == 0
    decreases count, 1
  {
    if count == 0 then Some(off) else ScanNext(buf, off, count)
  }

  /** One step of the recovery scan: skip the record at off, then scan the remaining count - 1. */
  function ScanNext(buf: seq<Byte>, off: nat, count: nat): (r: Option<nat>)
    requires count > 0
    ensures r.Some? ==> off <= r.value <= |buf|
    ensures r.Some? && off % 4 == 0 ==> r.value % 4 == 0
    decreases count, 0
  {
    var next := SkipEvent(buf, off);
    if next > |buf| then None else ScanFrom(buf, next, count - 1)
  }

  /** One step of the recovery scan, as setup's loop takes it. */
  lemma {:induction false} ScanStep(buf: seq<Byte>, off: nat, count: nat)
    requires count > 0 && SkipEvent(buf, off) <= |buf|
    ensures ScanFrom(buf, off, count) == ScanFrom(buf, SkipEvent(buf, off), count - 1)
  {
  }

  /** The recovery scan fails as soon as a skip passes the end of the buffer. */
  lemma {:induction false} ScanStop(buf: seq<Byte>, off: nat, count: nat)
    requires count > 0 && SkipEvent(buf, off) > |buf|
    ensures ScanFrom(buf, off, count) == None
  {
  }

  /**
    A recovery scan that stays in the buffer has stepped over count record
    blocks, packed back to back from off to where the scan ends.
   */
  lemma {:induction false} ScanBlocks(buf: seq<Byte>, off: nat, count: nat) returns (bs: seq<seq<Byte>>)
    requires off % 4 == 0 && off <= |buf| && ScanFrom(buf, off, count).Some?
    ensures var end := ScanFrom(buf, off, count).value;
            && off <= end <= |buf| && buf[off..end] == Flatten(bs)
            && AllRecords(bs) && |bs| == count
    decreases count
  {
    if count == 0 {
      bs := [];
      assert buf[off..off] == [];
    } else {
      var next := SkipEvent(buf, off);
      if next > |buf| {
        ScanStop(buf, off, count);
      }
      ScanStep(buf, off, count);
      var rest := ScanBlocks(buf, next, count - 1);
      var end := ScanFrom(buf, off, count).value;
      var b := buf[off..next];
      Cut(buf, off);
      bs := [b] + rest;
      assert bs[0] == b && bs[1..] == rest;
      Adjacent(buf, off, next, end);
    }
  }

  /** The first block of a packed log found in place, and the packed log after it. */
  lemma {:induction false} FirstRest(buf: seq<Byte>, off: nat, bs: seq<seq<Byte>>)
    requires bs != [] && off + |Flatten(bs)| <= |buf| && buf[off..off + |Flatten(bs)|] == Flatten(bs)
    ensures |Flatten(bs)| == |bs[0]| + |Flatten(bs[1..])|
    ensures buf[off..off + |bs[0]|] == bs[0]
    ensures buf[off + |bs[0]|..off + |bs[0]| + |Flatten(bs[1..])|] == Flatten(bs[1..])
  {
    Peel(buf, off, bs[0], Flatten(bs[1..]));
  }

  /** skipEvent steps over the first block of a packed log found in place at a 4-aligned offset. */
  lemma {:induction false} FirstSkip(buf: seq<Byte>, off: nat, bs: seq<seq<Byte>>)
    requires off % 4 == 0 && bs != [] && AllRecords(bs)
    requires off + |Flatten(bs)| <= |buf| && buf[off..off + |Flatten(bs)|] == Flatten(bs)
    ensures SkipEvent(buf, off) == off + |bs[0]|
  {
    FirstRest(buf, off, bs);
    Placed(buf, off, bs[0]);
  }

  /** The reader finds the event of the first block of a packed log found in place at a 4-aligned offset. */
  lemma {:induction false} FirstPlaced(buf: seq<Byte>, off: nat, bs: seq<seq<Byte>>)
    requires off % 4 == 0 && bs != [] && AllRecords(bs)
    requires off + |Flatten(bs)| <= |buf| && buf[off..off + |Flatten(bs)|] == Flatten(bs)
    ensures SkipEvent(buf, off) <= |buf| && DecodeAt(buf, off) == EventOf(bs[0])
  {
    FirstRest(buf, off, bs);
    Placed(buf, off, bs[0]);
  }

  /** skipEvent, started at off, steps over the blocks bs one after another without leaving the buffer. */
  predicate Steps(buf: seq<Byte>, off: nat, bs: seq<seq<Byte>>)
    decreases |bs|
  {
    bs == [] || (SkipEvent(buf, off) == off + |bs[0]| <= |buf| && Steps(buf, off + |bs[0]|, bs[1..]))
  }

  /** A packed log at a 4-aligned offset is stepped over record by record. */
  lemma {:induction false} PackedSteps(buf: seq<Byte>, off: nat, bs: seq<seq<Byte>>)
    requires off % 4 == 0 && AllRecords(bs) && off + |Flatten(bs)| <= |buf|
    requires buf[off..off + |Flatten(bs)|] == Flatten(bs)
    ensures Steps(buf, off, bs)
    decreases |bs|
  {
    if bs != [] {
      FirstRest(buf, off, bs);
      FirstSkip(buf, off, bs);
      var next := off + |bs[0]|;
      assert next % 4 == 0 && next <= |buf|;
      assert AllRecords(bs[1..]);
      PackedSteps(buf, next, bs[1..]);
      assert SkipEvent(buf, off) == next && Steps(buf, next, bs[1..]);
    }
  }

  /** Scanning as many records as the blocks stepped over ends right after them. */
  lemma {:induction false} StepsScan(buf: seq<Byte>, off: nat, bs: seq<seq<Byte>>)
    requires Steps(buf, off, bs)
    ensures ScanFrom(buf, off, |bs|) == Some(off + |Flatten(bs)|)
    decreases |bs|
  {
    if bs != [] {
      var next := off + |bs[0]|;
      assert SkipEvent(buf, off) == next <= |buf| && Steps(buf, next, bs[1..]);
      StepsScan(buf, next, bs[1..]);
      ScanStep(buf, off, |bs|);
      assert |Flatten(bs)| == |bs[0]| + |Flatten(bs[1..])|;
    }
  }

  /**
    A packed log at a 4-aligned offset survives the recovery scan: scanning
    its record count ends exactly after it.
   */
  lemma {:induction false} FlattenRecovers(buf: seq<Byte>, off: nat, bs: seq<seq<Byte>>)
    requires off % 4 == 0 && AllRecords(bs) && off + |Flatten(bs)| <= |buf|
    requires buf[off..off + |Flatten(bs)|] == Flatten(bs)
    ensures ScanFrom(buf, off, |bs|) == Some(off + |Flatten(bs)|)
  {
    PackedSteps(buf, off, bs);
    StepsScan(buf, off, bs);
  }

  /** Two packed logs with the same bytes start with the same block, and the rest of their bytes agree. */
  lemma {:induction false} FirstBlockSame(bs: seq<seq<Byte>>, qs: seq<seq<Byte>>)
    requires AllRecords(bs) && AllRecords(qs) && bs != [] && qs != [] && Flatten(bs) == Flatten(qs)
    ensures bs[0] == qs[0] && Flatten(bs[1..]) == Flatten(qs[1..])
  {
    var s := Flatten(bs);
    assert s[0..|s|] == s;
    assert |bs[0]| == |qs[0]| by {
      FirstSkip(s, 0, bs);
      FirstSkip(s, 0, qs);
    }
    FirstRest(s, 0, bs);
    FirstRest(s, 0, qs);
  }

  /** The bytes of a packed log determine its record blocks. */
  lemma {:induction false} FlattenUnique(bs: seq<seq<Byte>>, qs: seq<seq<Byte>>)
    requires AllRecords(bs) && AllRecords(qs) && Flatten(bs) == Flatten(qs)
    ensures bs == qs
    decreases |bs|
  {
    if bs != [] && qs != [] {
      FirstBlockSame(bs, qs);
      assert AllRecords(bs[1..]) && AllRecords(qs[1..]);
      FlattenUnique(bs[1..], qs[1..]);
      assert bs == [bs[0]] + bs[1..] && qs == [qs[0]] + qs[1..];
    }
  }

  /** s with enc written over it at position at, as the struct writes and strcpy calls leave it. */
  function Written(s: seq<Byte>, at: nat, enc: seq<Byte>): (t: seq<Byte>)
    requires at + |enc| <= |s|
    ensures |t| == |s|
  {
    seq(|s|, k requires 0 <= k < |s| => if at <= k < at + |enc| then enc[k - at] else s[k])
  }

  /**
    s after memmove(&s[dst], &s[src], |s| - src): everything from src to the
    end moves down to dst, and the last src - dst bytes keep their old values.
   */
  function Moved(s: seq<Byte>, dst: nat, src: nat): (t: seq<Byte>)
    requires dst <= src <= |s|
    ensures |t| == |s|
  {
    seq(|s|, k requires 0 <= k < |s| => if dst <= k < |s| - (src - dst) then s[k + (src - dst)] else s[k])
  }

  /** What a write leaves in place, and what it puts there. */
  lemma {:induction false} WrittenAt(s: seq<Byte>, at: nat, enc: seq<Byte>, a: nat, b: nat)
    requires at + |enc| <= |s| && a <= b
    ensures b <= at ==> Written(s, at, enc)[a..b] == s[a..b]
    ensures at + |enc| <= a && b <= |s| ==> Written(s, at, enc)[a..b] == s[a..b]
    ensures Written(s, at, enc)[at..at + |enc|] == enc
  {
  }

  /**
    Writing a record's bytes enc at the end of a packed log, over the free
    space, packs one more block of size bytes: enc followed by the bytes that
    were already there as its padding. Nothing before the end of the log changes.
   */
  lemma {:induction false} WriteAppends(s: seq<Byte>, off: nat, end: nat, bs: seq<seq<Byte>>, enc: seq<Byte>, size: nat)
    requires off <= end && |enc| <= size && end + size <= |s|
    requires s[off..end] == Flatten(bs)
    ensures var t := Written(s, end, enc);
            && t[..end] == s[..end]
            && t[off..end + size] == Flatten(bs + [enc + s[end + |enc|..end + size]])
  {
    var pad := s[end + |enc|..end + size];
    var t := Written(s, end, enc);
    WrittenAt(s, end, enc, 0, end);
    WrittenAt(s, end, enc, off, end);
    WrittenAt(s, end, enc, end + |enc|, end + size);
    Adjacent(t, end, end + |enc|, end + size);
    Adjacent(t, off, end, end + size);
    FlattenAppend(bs, enc + pad);
  }

  /**
    memmove(&s[b], &s[c], |s| - c) on bytes holding x at a..b and y at c..d:
    x is left in place and y now follows it directly.
   */
  lemma {:induction false} CutOut(s: seq<Byte>, a: nat, b: nat, c: nat, d: nat, x: seq<Byte>, y: seq<Byte>)
    requires a <= b <= c <= d <= |s| && s[a..b] == x && s[c..d] == y
    ensures Moved(s, b, c)[a..b + (d - c)] == x + y
  {
  }

  /** discardOldEvent(false) on the bytes: the oldest block is cut out and the rest of the buffer moves down over it. */
  lemma {:induction false} CutFirst(s: seq<Byte>, off: nat, bs: seq<seq<Byte>>)
    requires bs != [] && off + |Flatten(bs)| <= |s| && s[off..off + |Flatten(bs)|] == Flatten(bs)
    ensures var n0, total := |bs[0]|, |Flatten(bs)|;
            n0 <= total && Moved(s, off, off + n0)[off..off + total - n0] == Flatten(bs[1..])
  {
    var n0, total := |bs[0]|, |Flatten(bs)|;
    FirstRest(s, off, bs);
    CutOut(s, off, off, off + n0, off + total, [], Flatten(bs[1..]));
  }

  /** The first block of a packed log found in place, and the packed log after its second block. */
  lemma {:induction false} SecondRest(s: seq<Byte>, off: nat, bs: seq<seq<Byte>>)
    requires |bs| >= 2 && off + |Flatten(bs)| <= |s| && s[off..off + |Flatten(bs)|] == Flatten(bs)
    ensures var n0, n1, m := |bs[0]|, |bs[1]|, |Flatten(bs[2..])|;
            && |Flatten(bs)| == n0 + n1 + m
            && s[off..off + n0] == bs[0]
            && s[off + n0 + n1..off + n0 + n1 + m] == Flatten(bs[2..])
  {
    FirstRest(s, off, bs);
    assert bs[1..][0] == bs[1] && bs[1..][1..] == bs[2..];
    FirstRest(s, off + |bs[0]|, bs[1..]);
  }

  /** discardOldEvent(true) on the bytes: the second block is cut out and the rest of the buffer moves down over it. */
  lemma {:induction false} CutSecond(s: seq<Byte>, off: nat, bs: seq<seq<Byte>>)
    requires |bs| >= 2 && off + |Flatten(bs)| <= |s| && s[off..off + |Flatten(bs)|] == Flatten(bs)
    ensures var n0, n1, total := |bs[0]|, |bs[1]|, |Flatten(bs)|;
            && n0 + n1 <= total
            && Moved(s, off + n0, off + n0 + n1)[off..off + total - n1] == bs[0] + Flatten(bs[2..])
  {
    var n0, n1, total := |bs[0]|, |bs[1]|, |Flatten(bs)|;
    SecondRest(s, off, bs);
    CutOut(s, off, off + n0, off + n0 + n1, off + total, bs[0], Flatten(bs[2..]));
  }

  /** Where discardOldEvent finds the record it removes: the oldest, or the one after it. */
  function VictimAt(bs: seq<seq<Byte>>, off: nat, secondEvent: bool): nat
    requires |bs| > Victim(secondEvent)
  {
    if secondEvent then off + |bs[0]| else off
  }

  /**
    discardOldEvent on the bytes of a packed log: with start at the victim
    block (the oldest, or the one after it) and len its length, after the
    memmove the log packs the remaining blocks, one victim block shorter.
   */
  lemma {:induction false} CutVictim(s: seq<Byte>, off: nat, bs: seq<seq<Byte>>, secondEvent: bool, start: nat, len: nat)
    requires |bs| > Victim(secondEvent) && off + |Flatten(bs)| <= |s| && s[off..off + |Flatten(bs)|] == Flatten(bs)
    requires start == VictimAt(bs, off, secondEvent) && len == |bs[Victim(secondEvent)]|
    ensures start + len <= off + |Flatten(bs)|
    ensures Moved(s, start, start + len)[off..off + |Flatten(bs)| - len] == Flatten(Discard(bs, secondEvent))
  {
    FlattenDiscard(bs, secondEvent);
    if secondEvent {
      CutSecond(s, off, bs);
    } else {
      CutFirst(s, off, bs);
    }
  }

  /** Blocks stepped over one after another: the i-th is stepped over from where it begins. */
  lemma {:induction false} StepsNth(s: seq<Byte>, off: nat, bs: seq<seq<Byte>>, i: nat)
    requires Steps(s, off, bs) && i < |bs|
    ensures var at := off + |Flatten(bs[..i])|;
            SkipEvent(s, at) == at + |bs[i]|
    decreases i
  {
    if i == 0 {
      assert bs[..0] == [];
    } else {
      var next := off + |bs[0]|;
      assert Steps(s, next, bs[1..]);
      StepsNth(s, next, bs[1..], i - 1);
      assert bs[..i][1..] == bs[1..][..i - 1] && bs[1..][i - 1] == bs[i];
      assert off + |Flatten(bs[..i])| == next + |Flatten(bs[1..][..i - 1])|;
    }
  }

  /**
    skipEvent, started where the i-th block of a packed log found in place at
    a 4-aligned offset begins, steps over exactly that block.
   */
  lemma {:induction false} SkipNth(s: seq<Byte>, off: nat, bs: seq<seq<Byte>>, i: nat)
    requires off % 4 == 0 && AllRecords(bs) && i < |bs|
    requires off + |Flatten(bs)| <= |s| && s[off..off + |Flatten(bs)|] == Flatten(bs)
    ensures var at := off + |Flatten(bs[..i])|;
            SkipEvent(s, at) == at + |bs[i]|
  {
    PackedSteps(s, off, bs);
    StepsNth(s, off, bs, i);
  }

  /**
    discardOldEvent on a packed log found in place between off and end: the
    memmove over the victim block leaves the remaining blocks packed up to end
    less the victim's length, holding the events that remain.
   */
  lemma {:induction false} VictimCut(s: seq<Byte>, off: nat, end: nat, bs: seq<seq<Byte>>, secondEvent: bool, start: nat, next: nat)
    requires off <= end <= |s| && s[off..end] == Flatten(bs)
    requires AllRecords(bs) && |bs| > Victim(secondEvent)
    requires start == VictimAt(bs, off, secondEvent) && next == start + |bs[Victim(secondEvent)]|
    ensures start <= next <= end
    ensures Moved(s, start, next)[off..end - (next - start)] == Flatten(Discard(bs, secondEvent))
    ensures AllRecords(Discard(bs, secondEvent))
    ensures EventsOf(Discard(bs, secondEvent)) == Discard(EventsOf(bs), secondEvent)
  {
    assert off + |Flatten(bs)| == end;
    CutVictim(s, off, bs, secondEvent, start, next - start);
    EventsOfDiscard(bs, secondEvent);
  }

  /** A record block for e, whatever its padding, appended to record blocks adds e to their events. */
  lemma {:induction false} AppendRecord(bs: seq<seq<Byte>>, e: Event, pad: seq<Byte>)
    requires AllRecords(bs) && Span(e) < 0x1_0000 && |pad| == Span(e) - RawSize(|e.name|, |e.data|)
    ensures var block := EncodeRecord(e, Span(e)) + pad;
            AllRecords(bs + [block]) && EventsOf(bs + [block]) == EventsOf(bs) + [e]
  {
    RecordRoundTrip(e, Span(e), pad);
    EventsOfAppend(bs, EncodeRecord(e, Span(e)) + pad);
  }

  /**
    publishCommon's store on a packed log found in place between off and end:
    writing e's record at end packs one more block, the written bytes followed
    by the bytes already there up to the record's size, which reads back as e.
   */
  lemma {:induction false} AppendInPlace(s: seq<Byte>, off: nat, end: nat, bs: seq<seq<Byte>>, e: Event, enc: seq<Byte>)
    requires off <= end && end + Span(e) <= |s| && Span(e) < 0x1_0000 && enc == EncodeRecord(e, Span(e))
    requires s[off..end] == Flatten(bs) && AllRecords(bs)
    ensures var block := enc + s[end + |enc|..end + Span(e)];
            && Written(s, end, enc)[off..end + Span(e)] == Flatten(bs + [block])
            && AllRecords(bs + [block]) && EventsOf(bs + [block]) == EventsOf(bs) + [e]
            && MIN_RECORD * (|bs| + 1) <= end + Span(e) - off
  {
    WriteAppends(s, off, end, bs, enc, Span(e));
    AppendRecord(bs, e, s[end + |enc|..end + Span(e)]);
    FlattenLength(bs);
  }
}
