/**
 * The event snapshot buffer and the error texts (reel_util.c). A fill copies
 * every event of a trail into one byte buffer, back to back, and records
 * where each one starts; both the byte buffer and the index double when they
 * run out of room.
 */
module ReelUtil {
  import opened Reel
  import opened Growth

  /** INITIAL_BUFFER_SIZE and INITIAL_EVENTS_SIZE. */
  const INITIAL_BUFFER_SIZE: nat := 1000000
  const INITIAL_EVENTS_SIZE: nat := 10000

  /** sizeof(tdb_event): the timestamp word and the item count word. */
  const EVENT_HEADER_SIZE: nat := 16
  /** sizeof(tdb_item). */
  const ITEM_SIZE: nat := 8

  type byte = x: int | 0 <= x < 256

  /* ---------------- the byte image of an event ---------------- */

  function Pow256(n: nat): (r: nat)
    ensures r > 0
  {
    if n == 0 then 1 else 256 * Pow256(n - 1)
  }

  /** The `n` bytes of a word in memory, least significant first. */
  function LittleEndian(x: nat, n: nat): (r: seq<byte>)
    ensures |r| == n
  {
    if n == 0 then [] else [x % 256] + LittleEndian(x / 256, n - 1)
  }

  /** The word `n` bytes stand for, least significant first. */
  function FromLittleEndian(bs: seq<byte>): (x: nat)
    ensures x < Pow256(|bs|)
  {
    if bs == [] then 0 else bs[0] + 256 * FromLittleEndian(bs[1..])
  }

  /** Storing a word that fits in `n` bytes and reading it back gives the word. */
  lemma {:induction false} LittleEndianRoundTrip(x: nat, n: nat)
    requires x < Pow256(n)
    ensures FromLittleEndian(LittleEndian(x, n)) == x
  {
    if n > 0 {
      LittleEndianRoundTrip(x / 256, n - 1);
      assert LittleEndian(x, n)[1..] == LittleEndian(x / 256, n - 1);
    }
  }

  /** A tdb_event as the source lays it out: 16 header bytes and 8 per item. */
  function EventSize(e: Event): nat {
    EVENT_HEADER_SIZE + ITEM_SIZE * |e.items|
  }

  /** The item count fits its 64-bit word. */
  predicate WellFormed(e: Event) {
    |e.items| < U64_MODULUS
  }

  /** The item words of an event, one after the other. */
  function ItemBytes(items: seq<u64>): (r: seq<byte>)
    ensures |r| == ITEM_SIZE * |items|
  {
    if items == [] then [] else LittleEndian(items[0], ITEM_SIZE) + ItemBytes(items[1..])
  }

  /** The bytes of an event: timestamp, item count, items. */
  function EventBytes(e: Event): (r: seq<byte>)
    ensures |r| == EventSize(e)
  {
    LittleEndian(e.timestamp, 8) + LittleEndian(|e.items|, 8) + ItemBytes(e.items)
  }

  /** The `count` item words at the front of `bs`. */
  function DecodeItems(bs: seq<byte>, count: nat): (items: seq<u64>)
    requires ITEM_SIZE * count <= |bs|
    ensures |items| == count
  {
    if count == 0 then []
    else
      assert Pow256(8) == U64_MODULUS;
      [FromLittleEndian(bs[..8])] + DecodeItems(bs[8..], count - 1)
  }

  /**
   * The event a consumer reads at the front of `bs`: the timestamp, the item
   * count and that many items, or None when the bytes are too few.
   */
  function DecodeEvent(bs: seq<byte>): (r: Option<Event>)
    ensures r.Some? ==> EventSize(r.value) <= |bs|
  {
    if |bs| < EVENT_HEADER_SIZE then None
    else
      var count := FromLittleEndian(bs[8..16]);
      if |bs| < EVENT_HEADER_SIZE + ITEM_SIZE * count then None
      else
        assert Pow256(8) == U64_MODULUS;
        Some(Event(FromLittleEndian(bs[..8]), DecodeItems(bs[16..], count)))
  }

  datatype Option<T> = None | Some(value: T)

  lemma {:induction false} ItemsRoundTrip(items: seq<u64>, rest: seq<byte>)
    ensures DecodeItems(ItemBytes(items) + rest, |items|) == items
    decreases |items|
  {
    if items != [] {
      var bs := ItemBytes(items) + rest;
      var w := LittleEndian(items[0], ITEM_SIZE);
      assert bs == w + (ItemBytes(items[1..]) + rest);
      assert bs[..8] == w;
      assert bs[8..] == ItemBytes(items[1..]) + rest;
      assert Pow256(8) == U64_MODULUS;
      LittleEndianRoundTrip(items[0], 8);
      ItemsRoundTrip(items[1..], rest);
    }
  }

  /** The bytes of an event, whatever follows them, read back as that event. */
  lemma EventRoundTrip(e: Event, rest: seq<byte>)
    requires WellFormed(e)
    ensures DecodeEvent(EventBytes(e) + rest) == Some(e)
  {
    var ts, n, it := LittleEndian(e.timestamp, 8), LittleEndian(|e.items|, 8), ItemBytes(e.items);
    var bs := EventBytes(e) + rest;
    assert bs == ts + (n + (it + rest)) by {
      AppendAssoc(ts + n, it, rest);
      AppendAssoc(ts, n, it + rest);
    }
    Split(ts, n + (it + rest));
    Split(n, it + rest);
    assert bs[8..16] == n by {
      assert bs[8..16] == bs[8..][..8];
    }
    assert bs[16..] == it + rest by {
      assert bs[16..] == bs[8..][8..];
    }
    assert Pow256(8) == U64_MODULUS;
    LittleEndianRoundTrip(e.timestamp, 8);
    LittleEndianRoundTrip(|e.items|, 8);
    ItemsRoundTrip(e.items, rest);
  }

  /** The two parts of a concatenation. */
  lemma Split(a: seq<byte>, b: seq<byte>)
    ensures (a + b)[..|a|] == a && (a + b)[|a|..] == b
  {
  }

  /** A suffix is its first part followed by the rest. */
  lemma SliceSplit(a: seq<byte>, i: nat, j: nat)
    requires i <= j <= |a|
    ensures a[i..] == a[i..j] + a[j..]
  {
  }

  /** What follows `front` in a prefix of `all` lies right after `front` in `all`. */
  lemma SliceAfter(all: seq<byte>, front: seq<byte>, bytes: seq<byte>, o: nat, n: nat)
    requires o == |front| && n == |bytes|
    requires o + n <= |all| && all[..o + n] == front + bytes
    ensures all[o..o + n] == bytes
  {
    Split(front, bytes);
    assert all[|front|..|front| + |bytes|] == all[..|front| + |bytes|][|front|..];
  }

  /* ---------------- a trail laid out back to back ---------------- */

  /** The bytes the events take up together. */
  function TotalSize(cursor: seq<Event>): nat
    decreases |cursor|
  {
    if cursor == [] then 0 else TotalSize(cursor[..|cursor| - 1]) + EventSize(cursor[|cursor| - 1])
  }

  /** The events' bytes, back to back. */
  function Serialized(cursor: seq<Event>): (r: seq<byte>)
    ensures |r| == TotalSize(cursor)
    decreases |cursor|
  {
    if cursor == [] then [] else Serialized(cursor[..|cursor| - 1]) + EventBytes(cursor[|cursor| - 1])
  }

  /** Where event `i` starts: after the ones before it. */
  function EventOffset(cursor: seq<Event>, i: nat): nat
    requires i <= |cursor|
  {
    TotalSize(cursor[..i])
  }

  /** The first event starts at 0 and each next one where the one before ends. */
  lemma EventOffsetStep(cursor: seq<Event>, i: nat)
    requires i < |cursor|
    ensures EventOffset(cursor, 0) == 0
    ensures EventOffset(cursor, i + 1) == EventOffset(cursor, i) + EventSize(cursor[i])
  {
    assert cursor[..i + 1][..i] == cursor[..i];
  }

  /** Where each of the first `n` events starts. */
  function Offsets(cursor: seq<Event>, n: nat): (r: seq<nat>)
    requires n <= |cursor|
    ensures |r| == n && forall i | 0 <= i < n :: r[i] == EventOffset(cursor, i)
  {
    seq(n, i requires 0 <= i < n => EventOffset(cursor, i))
  }

  /** One more event adds its offset at the end. */
  lemma OffsetsStep(cursor: seq<Event>, n: nat)
    requires n < |cursor|
    ensures Offsets(cursor, n + 1) == Offsets(cursor, n) + [EventOffset(cursor, n)]
  {
  }

  /** Offsets grow with the index. */
  lemma {:induction false} EventOffsetMonotone(cursor: seq<Event>, i: nat, j: nat)
    requires i <= j <= |cursor|
    ensures EventOffset(cursor, i) <= EventOffset(cursor, j)
    decreases j - i
  {
    if i < j {
      EventOffsetStep(cursor, j - 1);
      EventOffsetMonotone(cursor, i, j - 1);
    }
  }

  /** Serializing one more event appends its bytes. */
  lemma SerializedStep(cursor: seq<Event>, n: nat)
    requires n < |cursor|
    ensures Serialized(cursor[..n + 1]) == Serialized(cursor[..n]) + EventBytes(cursor[n])
    ensures TotalSize(cursor[..n + 1]) == TotalSize(cursor[..n]) + EventSize(cursor[n])
  {
    assert cursor[..n + 1][..n] == cursor[..n];
  }

  /** Taking event `n` into the prefix of the first `n`, for `m == n + 1`. */
  lemma Advance(cursor: seq<Event>, n: nat, m: nat)
    requires n < |cursor| && m == n + 1
    ensures TotalSize(cursor[..m]) == TotalSize(cursor[..n]) + EventSize(cursor[n])
    ensures Serialized(cursor[..m]) == Serialized(cursor[..n]) + EventBytes(cursor[n])
    ensures Offsets(cursor, m) == Offsets(cursor, n) + [TotalSize(cursor[..n])]
  {
    SerializedStep(cursor, n);
    OffsetsStep(cursor, n);
  }

  /** The bytes of a prefix of the trail are a prefix of the trail's bytes. */
  lemma {:induction false} SerializedPrefix(cursor: seq<Event>, n: nat)
    requires n <= |cursor|
    ensures TotalSize(cursor[..n]) <= TotalSize(cursor)
    ensures Serialized(cursor)[..TotalSize(cursor[..n])] == Serialized(cursor[..n])
    decreases |cursor| - n
  {
    if n < |cursor| {
      var m := |cursor| - 1;
      assert cursor[..m + 1] == cursor;
      SerializedStep(cursor, m);
      SerializedPrefix(cursor[..m], n);
      assert cursor[..m][..n] == cursor[..n];
    } else {
      assert cursor[..n] == cursor;
    }
  }

  /** Entry `i` of a filled buffer is a byte copy of event `i`. */
  lemma EntryBytes(cursor: seq<Event>, i: nat)
    requires i < |cursor|
    ensures EventOffset(cursor, i) + EventSize(cursor[i]) <= TotalSize(cursor)
    ensures Serialized(cursor)[EventOffset(cursor, i)..EventOffset(cursor, i) + EventSize(cursor[i])] == EventBytes(cursor[i])
  {
    SerializedStep(cursor, i);
    SerializedPrefix(cursor, i + 1);
    SliceAfter(Serialized(cursor), Serialized(cursor[..i]), EventBytes(cursor[i]),
               EventOffset(cursor, i), EventSize(cursor[i]));
  }

  /** The bytes of a filled buffer from entry `i`'s offset on read back as event `i`. */
  lemma EntryIsEvent(cursor: seq<Event>, i: nat)
    requires i < |cursor| && WellFormed(cursor[i])
    ensures EventOffset(cursor, i) <= |Serialized(cursor)| &&
            DecodeEvent(Serialized(cursor)[EventOffset(cursor, i)..]) == Some(cursor[i])
  {
    EntryBytes(cursor, i);
    DecodeAt(Serialized(cursor), EventOffset(cursor, i), cursor[i]);
  }

  /** Bytes holding an encoded event at `o` decode, from `o` on, to that event. */
  lemma DecodeAt(all: seq<byte>, o: nat, e: Event)
    requires WellFormed(e) && o + EventSize(e) <= |all|
    requires all[o..o + EventSize(e)] == EventBytes(e)
    ensures DecodeEvent(all[o..]) == Some(e)
  {
    var s := EventSize(e);
    SliceSplit(all, o, o + s);
    EventRoundTrip(e, all[o + s..]);
  }

  /* ---------------- the buffer ---------------- */

  /**
   * reel_event_buffer: a byte buffer and an index of where each event
   * starts (an offset into the buffer rather than a pointer), each with the
   * capacity it was last grown to.
   */
  class EventBuffer {
    var buffer: array<byte>
    var bufferSize: nat
    var events: array<nat>
    var eventsSize: nat

    /** The recorded capacities are those of the blocks. */
    predicate Valid()
      reads this
    {
      buffer.Length == bufferSize > 0 && events.Length == eventsSize > 0
    }

    constructor (buffer: array<byte>, events: array<nat>)
      requires buffer.Length > 0 && events.Length > 0
      ensures Valid() && this.buffer == buffer && this.events == events
      ensures bufferSize == buffer.Length && eventsSize == events.Length
    {
      this.buffer := buffer;
      this.bufferSize := buffer.Length;
      this.events := events;
      this.eventsSize := events.Length;
    }

    /** memcpy of an event's bytes to `offset`, which they fit strictly below the capacity. */
    method CopyEvent(offset: nat, e: Event)
      requires Valid() && offset + EventSize(e) < bufferSize
      modifies buffer
      ensures buffer[..offset] == old(buffer[..offset])
      ensures buffer[offset..offset + EventSize(e)] == EventBytes(e)
    {
      var bytes := EventBytes(e);
      forall k | 0 <= k < |bytes| {
        buffer[offset + k] := bytes[k];
      }
    }

    /**
     * The inner loop of reel_event_buffer_fill: doubles the byte buffer
     * until `need` fits strictly below its capacity, keeping the bytes
     * before `offset`. False when a realloc fails.
     */
    method GrowBuffer(offset: nat, need: nat) returns (ok: bool)
      requires Valid() && offset < bufferSize
      modifies this
      ensures events == old(events) && eventsSize == old(eventsSize)
      ensures fresh(buffer) || buffer == old(buffer)
      ensures ok ==> Valid() && bufferSize == GrownSize(old(bufferSize), need)
      ensures ok ==> buffer[..offset] == old(buffer[..offset])
    {
      ghost var done := buffer[..offset];
      while need >= bufferSize
        invariant Valid() && offset < bufferSize
        invariant events == old(events) && eventsSize == old(eventsSize)
        invariant fresh(buffer) || buffer == old(buffer)
        invariant buffer[..offset] == done
        invariant GrownSize(bufferSize, need) == GrownSize(old(bufferSize), need)
        decreases need - bufferSize
      {
        bufferSize := bufferSize * 2;
        var p := Realloc(buffer, bufferSize);
        if p == null {
          return false;
        }
        buffer := p;
      }
      return true;
    }

    /**
     * Records `offset` as entry `n` of the index and counts it; when the
     * count reaches the capacity, doubles the index. False when that
     * realloc fails.
     */
    method PushEntry(n: nat, offset: nat) returns (ok: bool)
      requires Valid() && n < eventsSize
      modifies this, events
      ensures buffer == old(buffer) && bufferSize == old(bufferSize)
      ensures fresh(events) || events == old(events)
      ensures ok ==> Valid() && eventsSize == GrownSize(old(eventsSize), n + 1)
      ensures ok ==> events[..n + 1] == old(events[..n]) + [offset]
    {
      events[n] := offset;
      if n + 1 == eventsSize {
        eventsSize := eventsSize * 2;
        var p := Realloc(events, eventsSize);
        if p == null {
          return false;
        }
        events := p;
      }
      return true;
    }

    /**
     * One turn of the loop of reel_event_buffer_fill: makes room for `e`
     * after the `offset` bytes in use, copies it there and records `offset`
     * as entry `n`. False when a realloc fails.
     */
    method Append(e: Event, offset: nat, n: nat) returns (ok: bool, next: nat)
      requires Valid() && offset < bufferSize && n < eventsSize
      modifies this, buffer, events
      ensures next == offset + EventSize(e)
      ensures fresh(buffer) || buffer == old(buffer)
      ensures fresh(events) || events == old(events)
      ensures ok ==> Valid() && next < bufferSize
      ensures ok ==> bufferSize == GrownSize(old(bufferSize), next)
      ensures ok ==> eventsSize == GrownSize(old(eventsSize), n + 1)
      ensures ok ==> buffer[..next] == old(buffer[..offset]) + EventBytes(e)
      ensures ok ==> events[..n + 1] == old(events[..n]) + [offset]
    {
      var size := EventSize(e);
      next := offset + size;
      ok := GrowBuffer(offset, next);
      if !ok {
        return;
      }
      CopyEvent(offset, e);
      assert buffer[..offset + size] == buffer[..offset] + buffer[offset..offset + size];
      ok := PushEntry(n, offset);
      if ok {
        assert events[..n + 1] == events[..n] + [events[n]];
      }
    }

    /**
     * reel_event_buffer_fill: drains `cursor` into the buffer. On success
     * the events lie back to back from offset 0 with entry `i` at event
     * `i`'s offset, the index has room for one more entry, and each capacity
     * is its old one doubled until what it holds fits strictly below it.
     * Null when a realloc fails.
     */
    method Fill(cursor: seq<Event>) returns (r: array?<nat>, numEvents: nat)
      requires Valid()
      modifies this, buffer, events
      ensures r != null ==> Valid() && r == events && numEvents == |cursor|
      ensures r != null ==> bufferSize == GrownSize(old(bufferSize), TotalSize(cursor))
      ensures r != null ==> eventsSize == GrownSize(old(eventsSize), numEvents)
      ensures r != null ==> buffer[..TotalSize(cursor)] == Serialized(cursor)
      ensures r != null ==> forall i | 0 <= i < numEvents :: events[i] == EventOffset(cursor, i)
    {
      var offset: nat := 0;
      numEvents := 0;
      while numEvents < |cursor|
        invariant numEvents <= |cursor| && Valid()
        invariant fresh(buffer) || buffer == old(buffer)
        invariant fresh(events) || events == old(events)
        invariant offset == TotalSize(cursor[..numEvents]) && offset < bufferSize
        invariant bufferSize == GrownSize(old(bufferSize), offset)
        invariant eventsSize == GrownSize(old(eventsSize), numEvents)
        invariant buffer[..offset] == Serialized(cursor[..numEvents])
        invariant events[..numEvents] == Offsets(cursor, numEvents)
      {
        ghost var n, before := numEvents, offset;
        var ok, next := Append(cursor[numEvents], offset, numEvents);
        numEvents := numEvents + 1;
        if !ok {
          return null, numEvents;
        }
        offset := next;
        Advance(cursor, n, numEvents);
        GrownSizeCompose(old(bufferSize), before, offset);
        GrownSizeCompose(old(eventsSize), n, numEvents);
      }
      assert cursor[..numEvents] == cursor;
      assert forall i | 0 <= i < numEvents :: events[i] == events[..numEvents][i];
      r := events;
    }
  }

  /**
   * reel_event_buffer_new: a buffer of INITIAL_BUFFER_SIZE bytes and an
   * index of INITIAL_EVENTS_SIZE entries, or null when an allocation fails.
   */
  method NewEventBuffer() returns (b: EventBuffer?)
    ensures b != null ==> fresh(b) && b.Valid()
    ensures b != null ==> b.bufferSize == INITIAL_BUFFER_SIZE && b.eventsSize == INITIAL_EVENTS_SIZE
  {
    var buffer := Malloc<byte>(INITIAL_BUFFER_SIZE);
    if buffer == null {
      return null;
    }
    var events := Malloc<nat>(INITIAL_EVENTS_SIZE);
    if events == null {
      return null;
    }
    b := new EventBuffer(buffer, events);
  }

  /* ---------------- error texts ---------------- */

  /** reel_error_str */
  function ErrorStr(error: int): (s: string)
    ensures s == "Unknown error" <==> error !in {REEL_OUT_OF_MEMORY, REEL_TABLE_MISMATCH, REEL_FORK_FAILED}
  {
    if error == REEL_OUT_OF_MEMORY then "Out of memory"
    else if error == REEL_TABLE_MISMATCH then "Table mismatch"
    else if error == REEL_FORK_FAILED then "Fork failed"
    else "Unknown error"
  }

  /** The three runtime errors have three different texts. */
  lemma ErrorStrDistinct(a: int, b: int)
    requires a in {REEL_OUT_OF_MEMORY, REEL_TABLE_MISMATCH, REEL_FORK_FAILED}
    requires b in {REEL_OUT_OF_MEMORY, REEL_TABLE_MISMATCH, REEL_FORK_FAILED}
    ensures ErrorStr(a) == ErrorStr(b) <==> a == b
  {
  }

  /** The seven parse codes. */
  const PARSE_CODES: set<int> := {REEL_PARSE_OK, REEL_PARSE_UNKNOWN_VARIABLE, REEL_PARSE_INVALID_VALUE,
    REEL_PARSE_UNKNOWN_FIELD, REEL_PARSE_EMPTY_TABLE, REEL_PARSE_VALUE_UNKNOWN, REEL_PARSE_SOME_VALUES_UNKNOWN}

  /** reel_parse_error_str */
  function ParseErrorStr(error: int): (s: string)
    ensures s == "Unknown error" <==> error !in PARSE_CODES
  {
    if error == REEL_PARSE_OK then "Parsing ok"
    else if error == REEL_PARSE_UNKNOWN_VARIABLE then "Unknown variable"
    else if error == REEL_PARSE_INVALID_VALUE then "Malformed value"
    else if error == REEL_PARSE_UNKNOWN_FIELD then "Unknown field"
    else if error == REEL_PARSE_EMPTY_TABLE then "Table is empty (unknown field)"
    else if error == REEL_PARSE_VALUE_UNKNOWN then "Unknown value was set to nil"
    else if error == REEL_PARSE_SOME_VALUES_UNKNOWN then "Some unknown values were not set in the table"
    else "Unknown error"
  }

  /** Each parse code has a text of its own. */
  lemma ParseErrorStrDistinct(a: int, b: int)
    requires a in PARSE_CODES && b in PARSE_CODES
    ensures ParseErrorStr(a) == ParseErrorStr(b) <==> a == b
  {
  }
}
