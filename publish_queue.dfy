/**
  The publish queue itself: a retained byte buffer holding a header and a
  packed log of records, the producer side that appends to it
  (publishCommon), and the worker side's state machine that publishes the
  oldest record, discards it on success and backs off on failure.

  The class joins PublishQueueAsyncBase (the state machine) and its subclass
  PublishQueueAsyncRetained (the retained log). The array buf is the whole
  retained buffer and every offset is an offset from its start, as skipEvent's
  alignment requires. The three header fields live in its first HDR bytes in
  the source; here they are fields of the object, and those bytes of buf are
  not read.
 */
module PublishQueue {
  import opened Wrappers
  import opened Bytes
  import opened RecordCodec
  import opened RecordLog

  /** sizeof(PublishQueueHeader): magic (4 bytes), size (4), numEvents (2), padded to the 4-byte alignment of magic. */
  const HDR: nat := 12

  /** checkQueueState publishes at most once per this many milliseconds. */
  const MIN_PUBLISH_INTERVAL: nat := 1010

  /** Which member function stateHandler points at. */
  datatype State = Starting | Draining | RetryWait

  /** What the worker finds when it looks at a publish request it is waiting on. */
  datatype Poll = Pending | Done(succeeded: bool)

  /** millis() - lastPublish on 32-bit unsigned milliseconds: the difference wraps around. */
  function Elapsed(now: U32, last: U32): (d: U32)
    ensures now >= last ==> d == now - last
    ensures now < last ==> d == now + 0x1_0000_0000 - last
  {
    (now - last) % 0x1_0000_0000
  }

  /**
   * flags1.value() | flags2.value(): the union of the two 16-bit flag sets. Every flag of
   * flags2 is set, and outside flags2 the flags are exactly those of flags1.
   */
  function FlagsOr(flags1: bv16, flags2: bv16): (f: bv16)
    ensures f & flags2 == flags2
    ensures f & !flags2 == flags1 & !flags2
  {
    flags1 | flags2
  }

  class PublishQueueAsyncRetained {
    /** The whole retained buffer, header bytes included; the records start at offset HDR. */
    var buf: array<Byte>
    /** retainedBufferSize. */
    var bufferSize: nat
    /** PUBLISH_QUEUE_HEADER_MAGIC, the sentinel that marks an initialized buffer. */
    var sentinel: U32

    /** The three header fields, as retained memory holds them. */
    var magic: U32
    var storedSize: U32
    var numEvents: U16

    /** Offset of the first byte after the last record. */
    var nextFree: nat

    var isSending: bool
    var lastPublish: U32
    var pausePublishing: bool
    var failureRetryMs: U32
    var state: State
    /** The event of the publish request the worker is waiting on, if it is waiting. */
    var inFlight: Option<Event>

    /** The bytes of buf, as a value. */
    ghost var image: seq<Byte>
    /** The records of the log as blocks of bytes, oldest first. */
    ghost var slots: seq<seq<Byte>>

    /**
      The log invariant, from setup on: the header is valid, nextFree lies in
      the buffer, the bytes from HDR to nextFree are the record blocks packed
      back to back, and numEvents counts them.
     */
    ghost predicate Valid()
      reads this, buf
    {
      && buf.Length == bufferSize < 0x1_0000
      && |image| == buf.Length && (forall i :: 0 <= i < buf.Length ==> image[i] == buf[i])
      && magic == sentinel && storedSize == bufferSize
      && HDR <= nextFree <= bufferSize
      && AllRecords(slots) && numEvents == |slots|
      && image[HDR..nextFree] == Flatten(slots)
    }

    /** The events in the log, oldest first. */
    ghost function Events(): (es: seq<Event>)
      reads this
      requires AllRecords(slots)
      ensures |es| == |slots|
    {
      EventsOf(slots)
    }

    /**
      While a send is in flight, the worker is waiting on a request for the
      oldest record of the log.
     */
    ghost predicate Holding()
      reads this
      requires AllRecords(slots)
    {
      isSending ==> inFlight.Some? && Events() != [] && Events()[0] == inFlight.value
    }

    /** The capacity left for records once the header is in place. */
    function Capacity(): nat
      reads this
    {
      if bufferSize >= HDR then bufferSize - HDR else 0
    }

    /**
      The object over retained memory as it is found at startup: the buffer
      keeps its bytes and the header fields whatever values they held.
     */
    constructor (retained: array<Byte>, headerMagic: U32, magicFound: U32, sizeFound: U32, countFound: U16, retryMs: U32)
      requires HDR <= retained.Length < 0x1_0000
      ensures buf == retained && bufferSize == retained.Length && sentinel == headerMagic
      ensures magic == magicFound && storedSize == sizeFound && numEvents == countFound
      ensures nextFree == HDR && !isSending && lastPublish == 0 && !pausePublishing
      ensures failureRetryMs == retryMs && state == Starting && inFlight == None
    {
      buf := retained;
      bufferSize := retained.Length;
      sentinel := headerMagic;
      magic := magicFound;
      storedSize := sizeFound;
      numEvents := countFound;
      nextFree := HDR;
      isSending := false;
      lastPublish := 0;
      pausePublishing := false;
      failureRetryMs := retryMs;
      state := Starting;
      inFlight := None;
      image := retained[..];
      slots := [];
    }

    /**
      setup: keep the log found in retained memory when the header carries the
      sentinel and the buffer size and the scan over numEvents records stays in
      the buffer; otherwise rewrite the header for an empty log. It runs before
      the worker starts, so no send is in flight.
     */
    method Setup()
      requires buf.Length == bufferSize < 0x1_0000 && HDR <= bufferSize
      requires !isSending
      modifies this`image, this`magic, this`storedSize, this`numEvents, this`nextFree, this`slots
      ensures Valid() && Holding() && image == buf[..]
      ensures var keep := old(magic) == sentinel && old(storedSize) == bufferSize
                          && ScanFrom(image, HDR, old(numEvents)).Some?;
              if keep then numEvents == old(numEvents) && Some(nextFree) == ScanFrom(image, HDR, numEvents)
              else numEvents == 0 && nextFree == HDR
    {
      var initBuffer := false;
      image := buf[..];
      if magic == sentinel && storedSize == bufferSize {
        var end, bs := ScanLog(numEvents);
        if end.Some? {
          nextFree := end.value;
          slots := bs;
        } else {
          initBuffer := true;
        }
      } else {
        initBuffer := true;
      }
      if initBuffer {
        magic := sentinel;
        storedSize := bufferSize;
        numEvents := 0;
        nextFree := HDR;
        slots := [];
      }
    }

    /**
      setup's recovery scan over count records from the end of the header:
      the offset after the last, or nothing when a skip passes the end of the
      buffer. The bytes scanned over are count record blocks.
     */
    method ScanLog(count: U16) returns (end: Option<nat>, ghost bs: seq<seq<Byte>>)
      requires HDR <= buf.Length && image == buf[..]
      ensures end == ScanFrom(image, HDR, count)
      ensures end.Some? ==> HDR <= end.value <= buf.Length && image[HDR..end.value] == Flatten(bs)
      ensures end.Some? ==> AllRecords(bs) && |bs| == count
    {
      ghost var s := image;
      var off := HDR;
      var left: nat := count;
      while left > 0
        invariant HDR <= off <= buf.Length && off % 4 == 0
        invariant ScanFrom(s, off, left) == ScanFrom(s, HDR, count)
      {
        var next := SkipEvent(buf[..], off);
        assert next == SkipEvent(s, off);
        if next > buf.Length {
          ScanStop(s, off, left);
          return None, [];
        }
        ScanStep(s, off, left);
        off := next;
        left := left - 1;
      }
      bs := ScanBlocks(s, HDR, count);
      end := Some(off);
    }

    /**
      getOldestEvent: the record at the start of the log, read in place, or
      nothing when the log is empty.
     */
    method GetOldestEvent() returns (r: Option<Event>)
      requires Valid()
      ensures r == if Events() == [] then None else Some(Events()[0])
    {
      if numEvents > 0 {
        FirstPlaced(image, HDR, slots);
        assert buf[..] == image;
        r := Some(DecodeAt(buf[..], HDR));
      } else {
        r := None;
      }
    }

    /** getNumEvents: the number of records in the log. */
    method GetNumEvents() returns (n: U16)
      requires Valid()
      ensures n == |Events()|
    {
      n := numEvents;
    }

    /** clearEvents: empty the log, cancel a send in flight and forget when the last publish was. */
    method ClearEvents() returns (ok: bool)
      requires Valid()
      modifies this`numEvents, this`nextFree, this`isSending, this`lastPublish, this`slots
      ensures Valid() && Holding() && ok && Events() == [] && nextFree == HDR
      ensures !isSending && lastPublish == 0
    {
      numEvents := 0;
      nextFree := HDR;
      isSending := false;
      lastPublish := 0;
      slots := [];
      ok := true;
    }

    /**
      discardOldEvent: remove the oldest record, or the second-oldest when
      secondEvent is set, moving every later byte of the buffer down over it.
      Fails, changing nothing, when there is no such record.
     */
    method DiscardOldEvent(secondEvent: bool) returns (ok: bool)
      requires Valid()
      modifies this`image, this`nextFree, this`numEvents, this`slots, buf
      ensures Valid() && ok == (old(numEvents) > Victim(secondEvent))
      ensures ok ==> slots == Discard(old(slots), secondEvent) && Events() == Discard(old(Events()), secondEvent)
      ensures ok ==> nextFree == old(nextFree) - old(|slots[Victim(secondEvent)]|)
      ensures ok ==> image == old(Moved(image, VictimAt(slots, HDR, secondEvent), VictimAt(slots, HDR, secondEvent) + |slots[Victim(secondEvent)]|))
      ensures !ok ==> slots == old(slots) && nextFree == old(nextFree) && image == old(image)
    {
      if numEvents <= Victim(secondEvent) {
        return false;
      }
      var start, next := FindVictim(secondEvent);
      VictimCut(image, HDR, nextFree, slots, secondEvent, start, next);
      CutRecord(start, next, Discard(slots, secondEvent));
      ok := true;
    }

    /**
      The head of discardOldEvent: the record to remove starts at the oldest
      record, or one skip further for the second-oldest, and ends one more
      skip on.
     */
    method FindVictim(secondEvent: bool) returns (start: nat, next: nat)
      requires Valid() && numEvents > Victim(secondEvent)
      ensures start == VictimAt(slots, HDR, secondEvent) && next == start + |slots[Victim(secondEvent)]|
    {
      start := HDR;
      assert slots[..0] == [];
      if secondEvent {
        start := Skip(0, start);
        assert slots[..1] == [slots[0]];
      }
      next := Skip(Victim(secondEvent), start);
    }

    /**
      The tail of discardOldEvent: move the bytes after next down to start
      when there are any, and shorten the log by next - start bytes and one
      record, leaving the blocks rest.
     */
    method CutRecord(start: nat, next: nat, ghost rest: seq<seq<Byte>>)
      requires Valid() && HDR <= start <= next <= nextFree && numEvents > 0
      requires AllRecords(rest) && |rest| == numEvents - 1
      requires Moved(image, start, next)[HDR..nextFree - (next - start)] == Flatten(rest)
      modifies this`image, this`nextFree, this`numEvents, this`slots, buf
      ensures Valid() && slots == rest
      ensures image == old(Moved(image, start, next)) && nextFree == old(nextFree) - (next - start)
    {
      ghost var moved := Moved(image, start, next);
      var after := bufferSize - next;
      if after > 0 {
        MoveDown(start, next);
      } else {
        assert moved == image;
      }
      Commit(nextFree - (next - start), numEvents - 1, moved, rest, EventsOf(rest));
    }

    /**
      Set nextFree and the header's record count once the bytes of the
      buffer are s and hold the packed blocks bs from HDR up to end.
     */
    method Commit(end: nat, count: U16, ghost s: seq<Byte>, ghost bs: seq<seq<Byte>>, ghost es: seq<Event>)
      requires buf.Length == bufferSize < 0x1_0000 && magic == sentinel && storedSize == bufferSize
      requires |s| == buf.Length && (forall i :: 0 <= i < buf.Length ==> s[i] == buf[i])
      requires HDR <= end <= bufferSize && AllRecords(bs) && count == |bs| && s[HDR..end] == Flatten(bs)
      requires EventsOf(bs) == es
      modifies this`image, this`nextFree, this`numEvents, this`slots
      ensures Valid() && image == s && nextFree == end && slots == bs && Events() == es
    {
      nextFree, numEvents := end, count;
      image, slots := s, bs;
    }

    /**
      skipEvent on the retained buffer, started where the i-th record of the
      log begins: the offset where the next record begins.
     */
    method Skip(ghost i: nat, off: nat) returns (next: nat)
      requires Valid() && i < |slots| && off == HDR + |Flatten(slots[..i])|
      ensures next == off + |slots[i]|
    {
      SkipNth(image, HDR, slots, i);
      assert buf[..] == image;
      next := SkipEvent(buf[..], off);
    }

    /** memmove(&buf[dst], &buf[src], bufferSize - src). */
    method MoveDown(dst: nat, src: nat)
      requires Valid() && dst <= src <= buf.Length
      modifies buf
      ensures forall i :: 0 <= i < buf.Length ==> buf[i] == Moved(image, dst, src)[i]
    {
      forall k | dst <= k < buf.Length - (src - dst) {
        buf[k] := buf[k + (src - dst)];
      }
    }

    /** Write a record's bytes at offset at, as the struct writes and the two strcpy calls do. */
    method WriteBytes(at: nat, enc: seq<Byte>)
      requires Valid() && at + |enc| <= buf.Length
      modifies buf
      ensures forall i :: 0 <= i < buf.Length ==> buf[i] == Written(image, at, enc)[i]
    {
      forall k | at <= k < at + |enc| {
        buf[k] := enc[k - at];
      }
    }

    /**
      The store branch of publishCommon: write e's record at nextFree, move
      nextFree past its size bytes and count one more record. The bytes
      between the written record and its size are left as they were, as its padding.
     */
    method StoreRecord(e: Event, size: nat)
      requires Valid() && size == Span(e) && nextFree + size <= bufferSize
      modifies this`image, this`nextFree, this`numEvents, this`slots, buf
      ensures Valid() && Events() == old(Events()) + [e]
      ensures image == old(Written(image, nextFree, EncodeRecord(e, size))) && nextFree == old(nextFree) + size
    {
      var enc := EncodeRecord(e, size);
      ghost var bs := slots;
      AppendInPlace(image, HDR, nextFree, bs, e, enc);
      ghost var written, block := Written(image, nextFree, enc), enc + image[nextFree + |enc|..nextFree + size];
      WriteBytes(nextFree, enc);
      Commit(nextFree + size, numEvents + 1, written, bs + [block], Events() + [e]);
    }

    /**
      publishCommon: queue an event. Reject it outright when its record can
      never fit; otherwise store it after the last record if there is room,
      and else evict records (never the first while a send is in flight) and
      try again, giving up when one record is left or none can be evicted.
     */
    method PublishCommon(name: CString, data: Option<CString>, ttl: I32, flags1: bv16, flags2: bv16) returns (ok: bool)
      requires Valid() && Holding()
      modifies this`image, this`nextFree, this`numEvents, this`slots, buf
      ensures Valid() && Holding()
      ensures var e := Event(ttl, FlagsOr(flags1, flags2) as int, name, if data.Some? then data.value else []);
              if Span(e) > Capacity() then !ok && slots == old(slots) && image == old(image) && nextFree == old(nextFree)
              else var a := Enqueue(old(Events()), e, isSending, Capacity());
                   ok == a.stored && Events() == a.records
      ensures var e := Event(ttl, FlagsOr(flags1, flags2) as int, name, if data.Some? then data.value else []);
              old(nextFree + Span(e) <= bufferSize) ==> ok && nextFree == old(nextFree) + Span(e)
    {
      var text := if data.Some? then data.value else [];
      var e := Event(ttl, FlagsOr(flags1, flags2) as int, name, text);
      var size := RecordSize(|name|, |text|);
      if size > bufferSize - HDR {
        return false;
      }
      ghost var rs, cap := Events(), Capacity();
      if isSending {
        EnqueueKeepsFirst(rs, e, cap);
      }
      ok := MakeRoomAndStore(e, size);
      assert Capacity() == cap && Events() == Enqueue(rs, e, isSending, cap).records;
    }

    /**
      The loop of publishCommon for a record that fits in the empty buffer:
      the outcome is Enqueue's, and with room to spare the record goes
      straight after the last one.
     */
    method MakeRoomAndStore(e: Event, size: nat) returns (ok: bool)
      requires Valid() && size == Span(e) && size <= Capacity()
      modifies this`image, this`nextFree, this`numEvents, this`slots, buf
      ensures Valid()
      ensures var a := Enqueue(old(Events()), e, isSending, Capacity());
              ok == a.stored && Events() == a.records
      ensures old(nextFree + size <= bufferSize) ==> ok && nextFree == old(nextFree) + size
    {
      ghost var target := Enqueue(Events(), e, isSending, Capacity());
      while true
        invariant Valid() && Enqueue(Events(), e, isSending, Capacity()) == target
        invariant old(nextFree) + size <= bufferSize ==> nextFree == old(nextFree)
        decreases numEvents
      {
        var done;
        done, ok := Round(e, size);
        if done {
          return;
        }
      }
    }

    /**
      One pass of publishCommon's loop: store the record when it fits after
      the last one; else give up when one record is left or none can be
      discarded, and otherwise discard one and go round again (not done).
     */
    method Round(e: Event, size: nat) returns (done: bool, ok: bool)
      requires Valid() && size == Span(e) && size <= Capacity()
      modifies this`image, this`nextFree, this`numEvents, this`slots, buf
      ensures Valid()
      ensures done ==> Enqueue(old(Events()), e, isSending, Capacity()) == Appended(ok, Events())
      ensures !done ==> numEvents < old(numEvents)
      ensures !done ==> Enqueue(Events(), e, isSending, Capacity()) == old(Enqueue(Events(), e, isSending, Capacity()))
      ensures old(nextFree + size <= bufferSize) ==> done && ok && nextFree == old(nextFree) + size
    {
      ghost var rs, keep, cap := Events(), isSending, Capacity();
      FlattenLength(slots);
      if bufferSize - nextFree >= size {
        EnqueueStores(rs, e, keep, cap);
        StoreRecord(e, size);
        assert isSending == keep && Capacity() == cap && Events() == rs + [e];
        return true, true;
      }
      var evicted := Evict();
      if !evicted {
        EnqueueGivesUp(rs, e, keep, cap);
        assert isSending == keep && Capacity() == cap && Events() == rs;
        return true, false;
      }
      EnqueueDiscards(rs, e, keep, cap);
      assert isSending == keep && Capacity() == cap && Events() == Discard(rs, keep);
      return false, false;
    }

    /**
      The eviction step of publishCommon's loop: give up when one record is
      left, else discard the oldest record (the second-oldest while a send is
      in flight).
     */
    method Evict() returns (evicted: bool)
      requires Valid()
      modifies this`image, this`nextFree, this`numEvents, this`slots, buf
      ensures Valid()
      ensures evicted == (old(numEvents) != 1 && old(numEvents) > Victim(isSending))
      ensures evicted ==> Events() == Discard(old(Events()), isSending)
      ensures !evicted ==> slots == old(slots) && nextFree == old(nextFree) && image == old(image)
    {
      if numEvents == 1 {
        return false;
      }
      evicted := DiscardOldEvent(isSending);
    }

    /** startState: nothing to initialize; go on to draining the queue. */
    method StartState()
      modifies this`state
      ensures state == Draining
    {
      state := Draining;
    }

    /**
      checkQueueState: when publishing is not paused, the cloud is connected
      and at least MIN_PUBLISH_INTERVAL ms have passed since the last publish,
      hand the oldest record to the cloud and wait for the request (inFlight).
      The count check on the path where no record is found is dead while the
      log invariant holds.
     */
    method CheckQueueState(connected: bool, now: U32) returns (published: Option<Event>)
      requires Valid() && Holding() && inFlight.None?
      modifies this`isSending, this`inFlight
      ensures Valid() && Holding()
      ensures var go := !pausePublishing && connected && Elapsed(now, lastPublish) >= MIN_PUBLISH_INTERVAL;
              published == (if go && Events() != [] then Some(Events()[0]) else None)
      ensures published.Some? ==> isSending && inFlight == published
      ensures published.None? ==> !isSending && inFlight == None
    {
      published := None;
      if !pausePublishing && connected && Elapsed(now, lastPublish) >= MIN_PUBLISH_INTERVAL {
        var data := GetOldestEvent();
        if data.Some? {
          isSending := true;
          inFlight := data;
          published := data;
        } else {
          var n := GetNumEvents();
          if n > 5 {
            assert false;
          }
        }
      }
    }

    /**
      One turn of checkQueueState's wait for the request in flight. A finished
      request ends the wait whatever isSending says: on success the oldest
      record is discarded, on failure the worker moves to the retry state, and
      both clear isSending and set lastPublish. A request still pending ends
      the wait, discarding nothing, once someone has cleared isSending.
     */
    method PollRequest(poll: Poll, now: U32)
      requires Valid() && Holding() && inFlight.Some?
      modifies this`isSending, this`lastPublish, this`inFlight, this`state
      modifies this`image, this`nextFree, this`numEvents, this`slots, buf
      ensures Valid() && Holding()
      ensures poll == Done(true) ==> Events() == (if old(Events()) == [] then [] else old(Events())[1..])
      ensures poll == Done(true) && old(isSending) ==> old(Events()) != [] && old(Events()[0]) == old(inFlight.value)
      ensures poll == Done(true) ==> state == old(state)
      ensures poll == Done(false) ==> slots == old(slots) && image == old(image) && state == RetryWait
      ensures poll.Done? ==> !isSending && lastPublish == now && inFlight == None
      ensures poll == Pending ==> slots == old(slots) && image == old(image) && state == old(state)
      ensures poll == Pending ==> lastPublish == old(lastPublish) && isSending == old(isSending)
      ensures poll == Pending ==> inFlight == (if isSending then old(inFlight) else None)
    {
      match poll {
        case Pending =>
          if !isSending {
            inFlight := None;
          }
        case Done(succeeded) =>
          Finish(succeeded, now);
      }
    }

    /**
      The end of a finished request: discard the oldest record on success,
      move to the retry state on failure, and in both cases clear isSending
      and note the time of the publish.
     */
    method Finish(succeeded: bool, now: U32)
      requires Valid()
      modifies this`isSending, this`lastPublish, this`inFlight, this`state
      modifies this`image, this`nextFree, this`numEvents, this`slots, buf
      ensures Valid() && !isSending && lastPublish == now && inFlight == None
      ensures succeeded ==> Events() == (if old(Events()) == [] then [] else old(Events())[1..]) && state == old(state)
      ensures !succeeded ==> slots == old(slots) && image == old(image) && state == RetryWait
    {
      if succeeded {
        var _ := DiscardOldEvent(false);
      } else {
        state := RetryWait;
      }
      isSending, lastPublish, inFlight := false, now, None;
    }

    /** waitRetryState: back to draining once failureRetryMs have passed since the failed publish. */
    method WaitRetryState(now: U32)
      modifies this`state
      ensures state == (if Elapsed(now, lastPublish) >= failureRetryMs then Draining else old(state))
    {
      if Elapsed(now, lastPublish) >= failureRetryMs {
        state := Draining;
      }
    }
  }
}
