/**
 * NETCONF message framing over SSH (RFC 6242) as `nc_session_send` writes it
 * and `nc_session_receive` reads it: end-of-message framing (section 4.3 of
 * RFC 6242) for NETCONF 1.0 and chunked framing (section 4.2) for 1.1.
 */
module Framing {
  import opened Wrappers
  import opened CText
  import opened Transport

  /**
   * The protocol version a session negotiated. The numeric codes of
   * NETCONFV10 and NETCONFV11 live in a header that is not part of this model.
   */
  datatype Version = NetconfV10 | NetconfV11 | OtherVersion(code: int)

  /** End-of-message marker of NETCONF 1.0 framing. */
  const V10EndMsg: string := "]]>]]>"
  /** End-of-chunks line of NETCONF 1.1 framing. */
  const V11EndMsg: string := "\n##\n"
  /** What starts every chunk header and the end-of-chunks line. */
  const ChunkStart: string := "\n#"

  /**
   * Why `nc_session_receive` fails. The type is shared by both layers:
   * the framing decoders here produce `ReadFailed`, `BadChunkSize` and
   * `EmptyMessage`, and the session layer adds the other four.
   */
  datatype ReceiveError =
    | InvalidSession            // NULL session or no hostname
    | NoTransport               // neither an SSH channel nor an input descriptor
    | UnsupportedVersion
    | ReadFailed(cause: ReadError)
    | BadChunkSize              // a chunk header whose value is 0
    | EmptyMessage              // a 1.0 message that is the end marker alone
    | ParseFailed               // the XML parser rejected the text

  /** A reassembled message text and the events after its framing. */
  datatype Frame = Frame(text: string, rest: seq<Event>)

  /** One chunk as section 4.2 of RFC 6242 lays it out: `\n#<length>\n` and the data. */
  function ChunkFrame(c: string): string {
    ChunkStart + Decimal(|c|) + "\n" + c
  }

  /** A chunked message: the chunks in order, then the end-of-chunks line. */
  function ChunksWire(cs: seq<string>): string {
    if cs == [] then V11EndMsg else ChunkFrame(cs[0]) + ChunksWire(cs[1..])
  }

  function Concat(cs: seq<string>): string {
    if cs == [] then [] else cs[0] + Concat(cs[1..])
  }

  /**
   * The bytes `nc_session_send` writes for a serialized document `text`.
   * Only the C string (up to the first NUL) is written. Version 1.1 sends it
   * as one chunk whose header prints `(int) strlen(text)` with `%d`; every
   * other version gets the 1.0 end marker.
   */
  function Encode(version: Version, text: string): (wire: string)
    ensures version == NetconfV11 && |CString(text)| < 0x8000_0000 ==> wire == ChunksWire([CString(text)])
    ensures version != NetconfV11 ==> wire == CString(text) + V10EndMsg
  {
    var t := CString(text);
    if version == NetconfV11 then
      assert |t| < 0x8000_0000 ==> ChunksWire([t]) == ChunkFrame(t) + V11EndMsg;
      ChunkStart + FormatInt(Int32(|t|)) + "\n" + t + V11EndMsg
    else t + V10EndMsg
  }

  /**
   * The NETCONF 1.0 branch of `nc_session_receive` as written: read up to the
   * end marker, then cut the text at `len - 1 - strlen(marker)`, which also
   * drops the byte before the marker. A message that is the marker alone
   * would make that index -1.
   */
  function DecodeV10(ev: seq<Event>): (r: Result<Frame, ReceiveError>)
    ensures r == Err(EmptyMessage) <==> V10EndMsg <= Delivered(ev)
    ensures r.Ok? ==> NulFree(r.value.text) && r.value.text <= Delivered(ev)
                      && |r.value.text| + 1 + |V10EndMsg| <= |Delivered(ev)|
    ensures r.Ok? ==> |r.value.rest| < |ev|
  {
    match ReadUntil(ev, V10EndMsg)
    case Err(e) =>
      NoMarkerPrefix(Delivered(ev));
      Err(ReadFailed(e))
    case Ok(m) =>
      var len := |m.data|;
      V10Cut(Delivered(ev), m.data);
      if len < 1 + |V10EndMsg| then Err(EmptyMessage)
      else Ok(Frame(CString(m.data[..len - 1 - |V10EndMsg|]), m.rest))
  }

  lemma NoMarkerPrefix(d: string)
    requires forall j :: 0 < j <= |d| ==> !EndsWith(d[..j], V10EndMsg)
    ensures !(V10EndMsg <= d)
  {
    MarkerInPrefix(d, d);
  }

  /** A 1.0 marker at the front of `d` already ends the first six bytes of any long enough prefix of `d`. */
  lemma MarkerInPrefix(d: string, data: string)
    ensures data <= d && |V10EndMsg| <= |data| && V10EndMsg <= d ==>
              EndsWith(data[..|V10EndMsg|], V10EndMsg)
  {
    if data <= d && |V10EndMsg| <= |data| && V10EndMsg <= d {
      assert data[..|V10EndMsg|] == V10EndMsg;
    }
  }

  /** Facts about the shortest prefix `data` of the delivered bytes `d` that ends with the 1.0 marker. */
  lemma V10Cut(d: string, data: string)
    requires data <= d && EndsWith(data, V10EndMsg)
    requires forall j :: 0 < j < |data| ==> !EndsWith(data[..j], V10EndMsg)
    ensures |data| < 1 + |V10EndMsg| <==> V10EndMsg <= d
    ensures |data| >= 1 + |V10EndMsg| ==>
              var t := CString(data[..|data| - 1 - |V10EndMsg|]);
              t <= d && |t| + 1 + |V10EndMsg| <= |d|
  {
    MarkerInPrefix(d, data);
    if |data| < 1 + |V10EndMsg| {
      assert data == V10EndMsg;
    }
  }

  /** The NETCONF 1.0 branch as evidently intended: cut exactly the end marker. */
  function DecodeV10Intended(ev: seq<Event>): (r: Result<Frame, ReceiveError>)
    ensures r.Ok? ==> NulFree(r.value.text) && r.value.text <= Delivered(ev)
                      && |r.value.text| + |V10EndMsg| <= |Delivered(ev)|
    ensures r.Ok? ==> |r.value.rest| < |ev|
    ensures r.Err? ==> r.error.ReadFailed?
  {
    match ReadUntil(ev, V10EndMsg)
    case Err(e) => Err(ReadFailed(e))
    case Ok(m) => Ok(Frame(CString(m.data[..|m.data| - |V10EndMsg|]), m.rest))
  }

  /** The first end marker in `d` starts at index `k`: it ends no shorter prefix of `d`. */
  predicate FirstMarkerAt(d: string, k: nat) {
    && k + |V10EndMsg| <= |d| && d[k..k + |V10EndMsg|] == V10EndMsg
    && forall j :: 0 < j < k + |V10EndMsg| ==> !EndsWith(d[..j], V10EndMsg)
  }

  /** When the delivered bytes hold no end marker, both 1.0 decoders fail as the read does. */
  lemma V10WithoutMarker(ev: seq<Event>)
    requires forall j :: 0 < j <= |Delivered(ev)| ==> !EndsWith(Delivered(ev)[..j], V10EndMsg)
    ensures DecodeV10(ev) == Err(ReadFailed(FaultError(ev)))
    ensures DecodeV10Intended(ev) == Err(ReadFailed(FaultError(ev)))
  {
    var m := ReadUntil(ev, V10EndMsg);
    NoMarkerRead(Delivered(ev), m);
  }

  lemma NoMarkerRead(d: string, m: Result<Read, ReadError>)
    ensures (forall j :: 0 < j <= |d| ==> !EndsWith(d[..j], V10EndMsg)) && m.Ok? && m.value.data <= d ==>
              !EndsWith(m.value.data, V10EndMsg)
  {
    if m.Ok? && m.value.data <= d && 0 < |m.value.data| {
      assert m.value.data == d[..|m.value.data|];
    }
  }

  /**
   * Where the first end marker of the delivered bytes starts at `k`, the 1.0
   * receive as written yields the C string of the bytes before it minus the
   * last one (an empty-message error when there is none), the corrected one
   * yields the C string of all bytes before it, and both consume exactly up
   * to the marker's end.
   */
  lemma V10TextBeforeMarker(ev: seq<Event>, k: nat)
    requires FirstMarkerAt(Delivered(ev), k)
    ensures k == 0 ==> DecodeV10(ev) == Err(EmptyMessage)
    ensures 0 < k ==> DecodeV10(ev).Ok? && DecodeV10(ev).value.text == CString(Delivered(ev)[..k - 1])
    ensures 0 < k ==> Consumes(ev, Delivered(ev)[..k + |V10EndMsg|], DecodeV10(ev).value.rest)
    ensures DecodeV10Intended(ev).Ok? && DecodeV10Intended(ev).value.text == CString(Delivered(ev)[..k])
    ensures Consumes(ev, Delivered(ev)[..k + |V10EndMsg|], DecodeV10Intended(ev).value.rest)
  {
    var d := Delivered(ev);
    ReadsToMarker(ev, k);
    CutPrefix(d, k + |V10EndMsg|, k);
    if 0 < k {
      CutPrefix(d, k + |V10EndMsg|, k - 1);
    }
  }

  /** Reading up to the 1.0 marker stops where the first marker of the delivered bytes ends. */
  lemma ReadsToMarker(ev: seq<Event>, k: nat)
    requires FirstMarkerAt(Delivered(ev), k)
    ensures ReadUntil(ev, V10EndMsg).Ok?
    ensures ReadUntil(ev, V10EndMsg).value.data == Delivered(ev)[..k + |V10EndMsg|]
  {
    var d := Delivered(ev);
    assert EndsWith(d[..k + |V10EndMsg|], V10EndMsg);
    var m := ReadUntil(ev, V10EndMsg);
    assert m.Ok?;
    ShortestMarkerPrefix(d, k, m.value.data);
  }

  lemma CutPrefix(d: string, n: nat, k: nat)
    requires k <= n <= |d|
    ensures d[..n][..k] == d[..k]
  {
  }

  /** The shortest marker-ending prefix of `d` ends where the first marker does. */
  lemma ShortestMarkerPrefix(d: string, k: nat, data: string)
    requires FirstMarkerAt(d, k) && data <= d && EndsWith(data, V10EndMsg)
    requires forall j :: 0 < j < |data| ==> !EndsWith(data[..j], V10EndMsg)
    ensures data == d[..k + |V10EndMsg|]
  {
    var n := k + |V10EndMsg|;
    assert data == d[..|data|];
    PrefixEndsWithMarker(d, n, data);
  }

  lemma PrefixEndsWithMarker(d: string, n: nat, data: string)
    ensures data <= d && n < |data| && n <= |d| && EndsWith(d[..n], V10EndMsg) ==> EndsWith(data[..n], V10EndMsg)
  {
    if data <= d && n < |data| && n <= |d| {
      assert data[..n] == d[..n];
    }
  }

  /**
   * The loop of the NETCONF 1.1 branch of `nc_session_receive`, with the text
   * `text` reassembled so far: skip to the next `\n#`, read the rest of the
   * header line; the line `#\n` ends the message, a line whose `strtoul`
   * value is 0 is rejected, and any other line announces a chunk of that many
   * bytes, whose C string is appended to the text.
   */
  function ReceiveChunks(ev: seq<Event>, text: string): (r: Result<Frame, ReceiveError>)
    ensures r.Ok? ==> text <= r.value.text && |r.value.rest| < |ev|
    decreases |ev|
  {
    match NextHeader(ev)
    case Err(e) => Err(ReadFailed(e))
    case Ok(line) =>
      if line.data == "#\n" then Ok(Frame(text, line.rest))
      else
        var size := Strtoul(line.data);
        if size == 0 then Err(BadChunkSize)
        else
          match ReadLen(line.rest, size)
          case Err(e) => Err(ReadFailed(e))
          case Ok(chunk) =>
            var r := ReceiveChunks(chunk.rest, text + CString(chunk.data));
            PrefixOfExtension(text, CString(chunk.data), r);
            r
  }

  /**
   * The header step of the 1.1 loop: skip to the next `\n#`, then read the
   * rest of the line (the newline included) and keep its C string.
   */
  function NextHeader(ev: seq<Event>): (r: Result<Read, ReadError>)
    ensures r.Ok? ==> |r.value.rest| < |ev| && NulFree(r.value.data)
  {
    match ReadUntil(ev, ChunkStart)
    case Err(e) => Err(e)
    case Ok(sep) =>
      match ReadUntil(sep.rest, "\n")
      case Err(e) => Err(e)
      case Ok(line) => Ok(Read(CString(line.data), line.rest))
  }

  lemma PrefixOfExtension(text: string, x: string, r: Result<Frame, ReceiveError>)
    requires r.Ok? ==> text + x <= r.value.text
    ensures r.Ok? ==> text <= r.value.text
  {
    if r.Ok? {
      assert (text + x)[..|text|] == text;
    }
  }

  /** The NETCONF 1.1 branch of `nc_session_receive`, starting from no text. */
  function DecodeV11(ev: seq<Event>): (r: Result<Frame, ReceiveError>)
    ensures r.Ok? ==> |r.value.rest| < |ev|
  {
    ReceiveChunks(ev, [])
  }

  /** Reading up to a newline from a line without one stops exactly at the newline appended to it. */
  lemma ReadLine(s: string, tail: seq<Event>)
    requires '\n' !in s
    ensures ReadUntil(Events(s + "\n") + tail, "\n") == Ok(Read(s + "\n", tail))
  {
    var line := s + "\n";
    forall j | 0 < j < |line|
      ensures !EndsWith(line[..j], "\n")
    {
      assert line[..j][j - 1] == s[j - 1];
    }
    ReadUntilOfBytes(line, tail, "\n");
  }

  lemma ReadChunkStart(tail: seq<Event>)
    ensures ReadUntil(Events(ChunkStart) + tail, ChunkStart) == Ok(Read(ChunkStart, tail))
  {
    assert !EndsWith(ChunkStart[..1], ChunkStart);
    ReadUntilOfBytes(ChunkStart, tail, ChunkStart);
  }

  /** A header line without NUL or newline, after `\n#`, is what the header step returns. */
  lemma HeaderOf(h: string, rest: seq<Event>)
    requires NulFree(h) && '\n' !in h
    ensures NextHeader(Events(ChunkStart) + (Events(h + "\n") + rest)) == Ok(Read(h + "\n", rest))
  {
    var x := Events(h + "\n") + rest;
    ReadChunkStart(x);
    ReadLine(h, rest);
    LineIsCString(h);
  }

  lemma LineIsCString(h: string)
    requires NulFree(h)
    ensures CString(h + "\n") == h + "\n"
  {
    assert NulFree(h + "\n");
  }

  /** The end-of-chunks line ends the message with the text reassembled so far. */
  lemma EndOfChunks(tail: seq<Event>, text: string)
    ensures ReceiveChunks(Events(V11EndMsg) + tail, text) == Ok(Frame(text, tail))
  {
    EndLineEvents(tail);
    HeaderOf("#", tail);
  }

  lemma EndLineEvents(tail: seq<Event>)
    ensures Events(V11EndMsg) + tail == Events(ChunkStart) + (Events("#" + "\n") + tail)
  {
    assert V11EndMsg == ChunkStart + ("#" + "\n");
    EventsAppend(ChunkStart, "#" + "\n");
  }

  /**
   * A chunk header line `h` whose `strtoul` value is n > 0 makes the receiver
   * read exactly the n bytes that follow and append them (as a C string) to
   * the text.
   */
  lemma ChunkStep(h: string, c: string, tail: seq<Event>, text: string)
    requires NulFree(h) && '\n' !in h && h != "#"
    requires Strtoul(h + "\n") == |c| > 0
    ensures ReceiveChunks(Events(ChunkStart + h + "\n" + c) + tail, text) == ReceiveChunks(tail, text + CString(c))
  {
    SplitHeaderEvents(h, c, tail);
    HeaderOf(h, Events(c) + tail);
    HeaderLine(h);
    ReadLenOfBytes(c, tail);
  }

  lemma SplitHeaderEvents(h: string, c: string, tail: seq<Event>)
    ensures Events(ChunkStart + h + "\n" + c) + tail == Events(ChunkStart) + (Events(h + "\n") + (Events(c) + tail))
  {
    var line := h + "\n";
    Associative(ChunkStart, h, "\n");
    Associative(ChunkStart, line, c);
    EventsAppend(ChunkStart, line + c);
    EventsAppend(line, c);
    Associative(Events(ChunkStart), Events(line) + Events(c), tail);
    Associative(Events(line), Events(c), tail);
  }

  /** A header line without NUL that is not `#` is its own C string and is not the end-of-chunks line. */
  lemma HeaderLine(h: string)
    requires NulFree(h) && h != "#"
    ensures CString(h + "\n") == h + "\n" && h + "\n" != "#\n"
  {
    assert NulFree(h + "\n");
    assert (h + "\n")[..|h|] == h;
  }

  /**
   * A chunk header whose `strtoul` value is 0 (`0`, `000`, `abc`, `x5`, an
   * empty line, ...) is rejected, never read as an empty chunk.
   */
  lemma HeaderWithoutValueRejected(h: string, tail: seq<Event>, text: string)
    requires NulFree(h) && '\n' !in h && h != "#" && Strtoul(h + "\n") == 0
    ensures ReceiveChunks(Events(ChunkStart + h + "\n") + tail, text) == Err(BadChunkSize)
  {
    SplitHeaderEvents(h, [], tail);
    assert ChunkStart + h + "\n" + [] == ChunkStart + h + "\n";
    assert Events([]) + tail == tail;
    HeaderOf(h, tail);
    HeaderLine(h);
  }

  /** A header line without a nonzero digit is one such header. */
  lemma NoValueHeader(h: string)
    requires NoNonzeroDigit(h)
    ensures Strtoul(h + "\n") == 0
  {
    assert NoNonzeroDigit(h + "\n");
    StrtoulWithoutValue(h + "\n");
  }

  /**
   * Chunked framing round trip: the wire form of any sequence of non-empty,
   * NUL-free chunks is reassembled into their concatenation, and the events
   * after the end-of-chunks line are left unread.
   */
  lemma {:induction false} ChunkedRoundTrip(cs: seq<string>, tail: seq<Event>, text: string)
    requires forall i :: 0 <= i < |cs| ==> ValidChunk(cs[i])
    ensures ReceiveChunks(Events(ChunksWire(cs)) + tail, text) == Ok(Frame(text + Concat(cs), tail))
    decreases |cs|
  {
    if cs == [] {
      NoChunks(text);
      EndOfChunks(tail, text);
    } else {
      var c, more := cs[0], cs[1..];
      Uncons(cs);
      ChunkedRoundTrip(more, tail, text + c);
      ConsChunk(c, more, tail, text);
    }
  }

  lemma NoChunks(text: string)
    ensures ChunksWire([]) == V11EndMsg && text + Concat([]) == text
  {
    assert text + [] == text;
  }

  lemma Uncons(cs: seq<string>)
    requires cs != [] && forall i :: 0 <= i < |cs| ==> ValidChunk(cs[i])
    ensures cs == [cs[0]] + cs[1..] && forall i :: 0 <= i < |cs[1..]| ==> ValidChunk(cs[1..][i])
  {
    assert forall i :: 0 <= i < |cs[1..]| ==> cs[1..][i] == cs[i + 1];
  }

  /** What a chunk must be for the round trip: non-empty, NUL-free, and of a length `strtoul` can return. */
  predicate ValidChunk(c: string) {
    c != [] && NulFree(c) && |c| <= ULongMax
  }

  lemma ConsChunk(c: string, more: seq<string>, tail: seq<Event>, text: string)
    requires ValidChunk(c)
    requires ReceiveChunks(Events(ChunksWire(more)) + tail, text + c) == Ok(Frame(text + c + Concat(more), tail))
    ensures ReceiveChunks(Events(ChunksWire([c] + more)) + tail, text) == Ok(Frame(text + Concat([c] + more), tail))
  {
    NextChunk(c, more, tail, text);
    Associative(text, c, Concat(more));
  }

  lemma Associative<T>(a: seq<T>, b: seq<T>, c: seq<T>)
    ensures a + b + c == a + (b + c)
  {
  }

  /** Receiving one chunk of a chunked message appends it and leaves the rest of the message. */
  lemma NextChunk(c: string, cs: seq<string>, tail: seq<Event>, text: string)
    requires ValidChunk(c)
    ensures ReceiveChunks(Events(ChunksWire([c] + cs)) + tail, text)
            == ReceiveChunks(Events(ChunksWire(cs)) + tail, text + c)
    ensures Concat([c] + cs) == c + Concat(cs)
  {
    var more := Events(ChunksWire(cs)) + tail;
    assert ([c] + cs)[0] == c && ([c] + cs)[1..] == cs;
    SplitChunks([c] + cs, tail);
    LengthHeader(c);
    ChunkStep(Decimal(|c|), c, more, text);
  }

  lemma SplitChunks(cs: seq<string>, tail: seq<Event>)
    requires cs != []
    ensures Events(ChunksWire(cs)) + tail == Events(ChunkFrame(cs[0])) + (Events(ChunksWire(cs[1..])) + tail)
  {
    var f := ChunkFrame(cs[0]);
    var w := ChunksWire(cs[1..]);
    assert ChunksWire(cs) == f + w;
    EventsAppend(f, w);
    Associative(Events(f), Events(w), tail);
  }

  /** The header the sender writes for a chunk is a valid header line announcing the chunk's length. */
  lemma LengthHeader(c: string)
    requires c != [] && NulFree(c) && |c| <= ULongMax
    ensures NulFree(Decimal(|c|)) && '\n' !in Decimal(|c|) && Decimal(|c|) != "#"
    ensures Strtoul(Decimal(|c|) + "\n") == |c| > 0
  {
    StrtoulOfDecimal(|c|, "\n");
    DigitsAreHeaderText(Decimal(|c|));
  }

  /** A run of digits has no NUL, no newline, and is not the `#` of the end-of-chunks line. */
  lemma DigitsAreHeaderText(d: string)
    requires |d| >= 1 && AllDigits(d)
    ensures NulFree(d) && '\n' !in d && d != "#"
  {
    assert d[0] != '#';
    assert forall i :: 0 <= i < |d| ==> d[i] != '\n' && d[i] != '\0';
  }

  /**
   * Version 1.1 round trip: what the sender writes for a non-empty, NUL-free
   * text under 2^31 bytes is received back as exactly that text.
   */
  lemma V11RoundTrip(text: string, tail: seq<Event>)
    requires NulFree(text) && 0 < |text| < 0x8000_0000
    ensures DecodeV11(Events(Encode(NetconfV11, text)) + tail) == Ok(Frame(text, tail))
  {
    assert Encode(NetconfV11, text) == ChunksWire([text]);
    assert ValidChunk(text);
    ChunkedRoundTrip([text], tail, []);
    SingleChunk(text);
  }

  /**
   * The empty text is sent as a zero-length chunk, which section 4.2 of
   * RFC 6242 does not allow, and the receiver rejects its own sender's frame.
   */
  lemma V11EmptyTextRejected(tail: seq<Event>)
    ensures Encode(NetconfV11, []) == ChunkStart + "0" + "\n" + V11EndMsg
    ensures DecodeV11(Events(Encode(NetconfV11, [])) + tail) == Err(BadChunkSize)
  {
    var w := Encode(NetconfV11, []);
    assert Decimal(0) == "0";
    assert w == (ChunkStart + "0" + "\n") + V11EndMsg;
    EventsAppend(ChunkStart + "0" + "\n", V11EndMsg);
    Associative(Events(ChunkStart + "0" + "\n"), Events(V11EndMsg), tail);
    NoValueHeader("0");
    HeaderWithoutValueRejected("0", Events(V11EndMsg) + tail, []);
  }

  lemma SingleChunk(text: string)
    ensures [] + Concat([text]) == text
  {
    assert Concat([text]) == text + [];
  }

  /** The 1.0 end marker occurs in `text` followed by the marker only at the very end. */
  predicate MarkerOnlyAtEnd(text: string) {
    forall j :: 0 < j < |text| + |V10EndMsg| ==> !EndsWith((text + V10EndMsg)[..j], V10EndMsg)
  }

  lemma ReadV10Message(text: string, tail: seq<Event>)
    requires NulFree(text) && MarkerOnlyAtEnd(text)
    ensures Encode(NetconfV10, text) == text + V10EndMsg
    ensures ReadUntil(Events(text + V10EndMsg) + tail, V10EndMsg) == Ok(Read(text + V10EndMsg, tail))
  {
    ReadUntilOfBytes(text + V10EndMsg, tail, V10EndMsg);
  }

  /**
   * Version 1.0 as written: a message received back loses the byte just
   * before the end marker; a message that is the marker alone is an error.
   */
  lemma V10DropsLastByte(text: string, tail: seq<Event>)
    requires NulFree(text) && MarkerOnlyAtEnd(text)
    ensures text == [] ==> DecodeV10(Events(Encode(NetconfV10, text)) + tail) == Err(EmptyMessage)
    ensures text != [] ==> DecodeV10(Events(Encode(NetconfV10, text)) + tail) == Ok(Frame(text[..|text| - 1], tail))
  {
    ReadV10Message(text, tail);
    CutBeforeMarker(text);
  }

  lemma CutBeforeMarker(text: string)
    requires NulFree(text)
    ensures var w := text + V10EndMsg;
            && (text != [] ==> CString(w[..|w| - 1 - |V10EndMsg|]) == text[..|text| - 1])
            && CString(w[..|w| - |V10EndMsg|]) == text
  {
    var w := text + V10EndMsg;
    assert w[..|w| - |V10EndMsg|] == text;
    if text != [] {
      assert w[..|w| - 1 - |V10EndMsg|] == text[..|text| - 1];
    }
  }

  /** Version 1.0 round trip for the corrected cut: exactly the text comes back. */
  lemma V10RoundTrip(text: string, tail: seq<Event>)
    requires NulFree(text) && MarkerOnlyAtEnd(text)
    ensures DecodeV10Intended(Events(Encode(NetconfV10, text)) + tail) == Ok(Frame(text, tail))
  {
    ReadV10Message(text, tail);
    CutBeforeMarker(text);
  }
}
