/**
 * The two read primitives of src/session.c, `nc_session_read_len` and
 * `nc_session_read_until`, over an abstract transport. The transport is the
 * finite sequence of results its low-level reads return, one event per byte
 * delivered: a multi-byte read is the same as that many one-byte events.
 * `WouldBlock` stands for EAGAIN (and for an SSH read of 0 bytes before
 * channel EOF), which the source answers by sleeping 100 microseconds and
 * retrying; `Eof` is the SSH channel's end of stream; `Error` is any hard read
 * error. A stream that runs out before a read completes ends in `Exhausted`:
 * the source would still be waiting.
 */
module Transport {
  import opened Wrappers

  datatype Event = Byte(b: char) | WouldBlock | Eof | Error

  datatype ReadError =
    | TransportFailed   // a hard read error
    | RemoteClosed      // "Server has closed the communication socket"
    | Exhausted         // no more events: the source would still be retrying

  /** A successful read: the bytes it returns and the events left for the next read. */
  datatype Read = Read(data: string, rest: seq<Event>)

  predicate IsFault(e: Event) {
    e.Eof? || e.Error?
  }

  /** The bytes the transport delivers before its first fault. */
  function Delivered(ev: seq<Event>): string {
    if ev == [] then []
    else match ev[0]
      case Byte(b) => [b] + Delivered(ev[1..])
      case WouldBlock => Delivered(ev[1..])
      case _ => []
  }

  /** How a read that needs more than `Delivered(ev)` ends. */
  function FaultError(ev: seq<Event>): ReadError {
    if ev == [] then Exhausted
    else match ev[0]
      case Eof => RemoteClosed
      case Error => TransportFailed
      case _ => FaultError(ev[1..])
  }

  /**
   * A read that returned `data` took a fault-free prefix of `ev` that
   * delivers exactly `data`, stopped right after its last byte, and left
   * `rest` for the next read.
   */
  predicate Consumes(ev: seq<Event>, data: string, rest: seq<Event>) {
    && |rest| <= |ev| && rest == ev[|ev| - |rest|..]
    && (forall i :: 0 <= i < |ev| - |rest| ==> !IsFault(ev[i]))
    && Delivered(ev[..|ev| - |rest|]) == data
    && (data == [] ==> |rest| == |ev|)
    && (data != [] ==> |rest| < |ev| && ev[|ev| - |rest| - 1].Byte?)
  }

  predicate EndsWith(s: string, tag: string) {
    |tag| <= |s| && s[|s| - |tag|..] == tag
  }

  lemma ConsumesCons(e: Event, ev: seq<Event>, data: string, rest: seq<Event>)
    requires Consumes(ev, data, rest) && !IsFault(e)
    requires e.Byte? || data != []
    ensures Consumes([e] + ev, (if e.Byte? then [e.b] else []) + data, rest)
  {
    var ev' := [e] + ev;
    var k := |ev| - |rest|;
    assert ev'[..k + 1] == [e] + ev[..k];
    assert ev'[..k + 1][1..] == ev[..k];
    assert ev'[|ev'| - |rest|..] == ev[|ev| - |rest|..];
  }

  /**
   * `nc_session_read_len`: read exactly `n` bytes, skipping would-block
   * results; a hard error or channel EOF before the n-th byte fails the read.
   */
  function ReadLen(ev: seq<Event>, n: nat): (r: Result<Read, ReadError>)
    ensures r.Ok? <==> n <= |Delivered(ev)|
    ensures r.Ok? ==> r.value.data == Delivered(ev)[..n] && Consumes(ev, r.value.data, r.value.rest)
    ensures r.Err? ==> r.error == FaultError(ev)
    decreases |ev|
  {
    if n == 0 then Ok(Read([], ev))
    else if ev == [] then Err(Exhausted)
    else match ev[0]
      case WouldBlock =>
        (match ReadLen(ev[1..], n)
         case Err(e) => Err(e)
         case Ok(got) => LenSkip(ev, n, got); Ok(got))
      case Eof => Err(RemoteClosed)
      case Error => Err(TransportFailed)
      case Byte(b) =>
        match ReadLen(ev[1..], n - 1)
        case Err(e) => Err(e)
        case Ok(more) => LenByte(ev, b, n, more); Ok(Read([b] + more.data, more.rest))
  }

  lemma LenSkip(ev: seq<Event>, n: nat, got: Read)
    requires ev != [] && ev[0] == WouldBlock && 0 < n <= |Delivered(ev[1..])|
    requires got.data == Delivered(ev[1..])[..n] && Consumes(ev[1..], got.data, got.rest)
    ensures got.data == Delivered(ev)[..n] && Consumes(ev, got.data, got.rest)
  {
    assert |got.data| == n;
    ConsumesCons(ev[0], ev[1..], got.data, got.rest);
    assert ev == [ev[0]] + ev[1..];
  }

  lemma LenByte(ev: seq<Event>, b: char, n: nat, more: Read)
    requires ev != [] && ev[0] == Byte(b) && 0 < n
    requires n - 1 <= |Delivered(ev[1..])|
    requires more.data == Delivered(ev[1..])[..n - 1] && Consumes(ev[1..], more.data, more.rest)
    ensures [b] + more.data == Delivered(ev)[..n] && Consumes(ev, [b] + more.data, more.rest)
  {
    ConsumesCons(ev[0], ev[1..], more.data, more.rest);
    assert ev == [ev[0]] + ev[1..];
  }

  /**
   * What a successful read-until from the buffer `buf` returns: `buf`
   * extended by delivered bytes up to the first point past `buf` where the
   * buffer ends with `endtag`.
   */
  predicate UntilHit(ev: seq<Event>, endtag: string, buf: string, got: Read) {
    && |buf| < |got.data| <= |buf| + |Delivered(ev)|
    && got.data == buf + Delivered(ev)[..|got.data| - |buf|]
    && EndsWith(got.data, endtag)
    && (forall j :: |buf| < j < |got.data| ==> !EndsWith(got.data[..j], endtag))
    && Consumes(ev, got.data[|buf|..], got.rest)
  }

  /** A failed read-until: the fault that ended it, and no tag anywhere in what was delivered. */
  predicate UntilMiss(ev: seq<Event>, endtag: string, buf: string, e: ReadError) {
    && e == FaultError(ev)
    && forall j :: |buf| < j <= |buf| + |Delivered(ev)| ==> !EndsWith((buf + Delivered(ev))[..j], endtag)
  }

  /**
   * The loop of `nc_session_read_until` with the bytes `buf` read so far:
   * take one byte at a time, skipping would-block results, until the buffer
   * ends with `endtag`; the result is the whole buffer.
   */
  function ReadUntilFrom(ev: seq<Event>, endtag: string, buf: string): (r: Result<Read, ReadError>)
    ensures r.Ok? ==> UntilHit(ev, endtag, buf, r.value)
    ensures r.Err? ==> UntilMiss(ev, endtag, buf, r.error)
    decreases |ev|
  {
    if ev == [] then Err(Exhausted)
    else match ev[0]
      case WouldBlock =>
        (match ReadUntilFrom(ev[1..], endtag, buf)
         case Err(e) => SkipMiss(ev, endtag, buf, e); Err(e)
         case Ok(got) => SkipHit(ev, endtag, buf, got); Ok(got))
      case Eof => Err(RemoteClosed)
      case Error => Err(TransportFailed)
      case Byte(b) =>
        var buf' := buf + [b];
        if EndsWith(buf', endtag) then
          ByteHit(ev, endtag, buf, b);
          Ok(Read(buf', ev[1..]))
        else
          match ReadUntilFrom(ev[1..], endtag, buf')
          case Err(e) => ByteMiss(ev, endtag, buf, b, e); Err(e)
          case Ok(got) => ByteMore(ev, endtag, buf, b, got); Ok(got)
  }

  lemma SkipHit(ev: seq<Event>, endtag: string, buf: string, got: Read)
    requires ev != [] && ev[0] == WouldBlock && UntilHit(ev[1..], endtag, buf, got)
    ensures UntilHit(ev, endtag, buf, got)
  {
    ConsumesCons(ev[0], ev[1..], got.data[|buf|..], got.rest);
    assert ev == [ev[0]] + ev[1..];
  }

  lemma SkipMiss(ev: seq<Event>, endtag: string, buf: string, e: ReadError)
    requires ev != [] && ev[0] == WouldBlock && UntilMiss(ev[1..], endtag, buf, e)
    ensures UntilMiss(ev, endtag, buf, e)
  {
  }

  lemma ByteHit(ev: seq<Event>, endtag: string, buf: string, b: char)
    requires ev != [] && ev[0] == Byte(b) && EndsWith(buf + [b], endtag)
    ensures UntilHit(ev, endtag, buf, Read(buf + [b], ev[1..]))
  {
    var d := Delivered(ev);
    assert d == [b] + Delivered(ev[1..]);
    assert d[..1] == [b];
    assert Consumes(ev[1..], [], ev[1..]) by {
      assert ev[1..][..0] == [];
    }
    ConsumesCons(ev[0], ev[1..], [], ev[1..]);
    assert ev == [ev[0]] + ev[1..];
    assert [b] + [] == [b];
    assert (buf + [b])[|buf|..] == [b];
  }

  lemma ByteMore(ev: seq<Event>, endtag: string, buf: string, b: char, got: Read)
    requires ev != [] && ev[0] == Byte(b) && !EndsWith(buf + [b], endtag)
    requires UntilHit(ev[1..], endtag, buf + [b], got)
    ensures UntilHit(ev, endtag, buf, got)
  {
    var buf' := buf + [b];
    ReadUntilStep(ev, buf, b);
    ConsumesCons(ev[0], ev[1..], got.data[|buf'|..], got.rest);
    assert ev == [ev[0]] + ev[1..];
    assert got.data[..|buf'|] == buf';
    assert got.data[|buf|..] == [b] + got.data[|buf'|..];
  }

  lemma ByteMiss(ev: seq<Event>, endtag: string, buf: string, b: char, e: ReadError)
    requires ev != [] && ev[0] == Byte(b) && !EndsWith(buf + [b], endtag)
    requires UntilMiss(ev[1..], endtag, buf + [b], e)
    ensures UntilMiss(ev, endtag, buf, e)
  {
    ReadUntilStep(ev, buf, b);
  }

  lemma ReadUntilStep(ev: seq<Event>, buf: string, b: char)
    requires ev != [] && ev[0] == Byte(b)
    ensures Delivered(ev) == [b] + Delivered(ev[1..])
    ensures buf + Delivered(ev) == (buf + [b]) + Delivered(ev[1..])
    ensures forall m :: 0 <= m <= |Delivered(ev[1..])| ==>
              (buf + [b]) + Delivered(ev[1..])[..m] == buf + Delivered(ev)[..m + 1]
  {
  }

  /** `nc_session_read_until` from a fresh, empty buffer. */
  function ReadUntil(ev: seq<Event>, endtag: string): (r: Result<Read, ReadError>)
    ensures r.Ok? ==>
              && 0 < |r.value.data| && r.value.data <= Delivered(ev)
              && EndsWith(r.value.data, endtag)
              && (forall j :: 0 < j < |r.value.data| ==> !EndsWith(r.value.data[..j], endtag))
              && Consumes(ev, r.value.data, r.value.rest)
    ensures r.Err? ==>
              && r.error == FaultError(ev)
              && forall j :: 0 < j <= |Delivered(ev)| ==> !EndsWith(Delivered(ev)[..j], endtag)
  {
    var r := ReadUntilFrom(ev, endtag, []);
    assert [] + Delivered(ev) == Delivered(ev);
    assert r.Ok? ==> r.value.data[0..] == r.value.data;
    r
  }

  /** A transport that delivers `s`, each byte by its own read, and nothing else. */
  function Events(s: string): (ev: seq<Event>)
    ensures |ev| == |s|
    ensures Delivered(ev) == s
  {
    if s == [] then [] else [Byte(s[0])] + Events(s[1..])
  }

  lemma {:induction false} EventsAppend(a: string, b: string)
    ensures Events(a + b) == Events(a) + Events(b)
    decreases |a|
  {
    if a == [] {
      assert a + b == b;
    } else {
      assert (a + b)[1..] == a[1..] + b;
      EventsAppend(a[1..], b);
    }
  }

  /** Reading exactly the length of what the peer wrote returns it and leaves what follows. */
  lemma {:induction false} ReadLenOfBytes(s: string, tail: seq<Event>)
    ensures ReadLen(Events(s) + tail, |s|) == Ok(Read(s, tail))
    decreases |s|
  {
    var ev := Events(s) + tail;
    if s == [] {
      assert ev == tail;
    } else {
      assert ev[0] == Byte(s[0]);
      assert ev[1..] == Events(s[1..]) + tail;
      ReadLenOfBytes(s[1..], tail);
      assert [s[0]] + s[1..] == s;
    }
  }

  lemma {:induction false} ReadUntilFromBytes(s: string, tail: seq<Event>, endtag: string, buf: string)
    requires s != [] && EndsWith(buf + s, endtag)
    requires forall j :: |buf| < j < |buf| + |s| ==> !EndsWith((buf + s)[..j], endtag)
    ensures ReadUntilFrom(Events(s) + tail, endtag, buf) == Ok(Read(buf + s, tail))
    decreases |s|
  {
    var ev := Events(s) + tail;
    var buf' := buf + [s[0]];
    assert ev[0] == Byte(s[0]);
    assert ev[1..] == Events(s[1..]) + tail;
    assert buf' + s[1..] == buf + s;
    if |s| == 1 {
      assert buf' == buf + s;
    } else {
      assert (buf + s)[..|buf| + 1] == buf';
      assert !EndsWith(buf', endtag);
      forall j | |buf'| < j < |buf'| + |s[1..]|
        ensures !EndsWith((buf' + s[1..])[..j], endtag)
      {
      }
      ReadUntilFromBytes(s[1..], tail, endtag, buf');
    }
  }

  /** A delimiter that ends `s` and occurs nowhere earlier in it is found exactly at the end of `s`. */
  lemma ReadUntilOfBytes(s: string, tail: seq<Event>, endtag: string)
    requires s != [] && EndsWith(s, endtag)
    requires forall j :: 0 < j < |s| ==> !EndsWith(s[..j], endtag)
    ensures ReadUntil(Events(s) + tail, endtag) == Ok(Read(s, tail))
  {
    assert [] + s == s;
    ReadUntilFromBytes(s, tail, endtag, []);
  }
}
