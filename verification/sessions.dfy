/**
 * The session layer of src/session.c: the accessors, `nc_session_receive`
 * (framing, then the parsed document's message-id and reply type) and
 * `nc_session_send_rpc` (message-id stamping, namespace, the counter).
 * libxml2 is not modelled: a document is reduced to the parts the session
 * code looks at, the parser (`xmlReadDoc`) and the serializer
 * (`xmlDocDumpFormatMemory`) are parameters.
 */
module Sessions {
  import opened Wrappers
  import opened CText
  import opened Transport
  import opened Framing

  /** A value of the session's `unsigned long long` message-id counter. */
  type MsgId = n: nat | n <= ULongMax

  /**
   * A default namespace: the NETCONF 1.0 or 1.1 base namespace that
   * `nc_session_send_rpc` declares, or any other one a document brings.
   */
  datatype Namespace = Base10Ns | Base11Ns | OtherNs(uri: string)

  /**
   * What the session code sees of an XML document: the name of the root
   * element, the name of its first child (if any), the root's `message-id`
   * attribute, and the namespace declared on the root without a prefix.
   */
  datatype Doc = Doc(root: string, firstChild: Option<string>, messageId: Option<string>, defaultNs: Option<Namespace>)

  datatype ReplyKind = ReplyOk | ReplyError | ReplyData | ReplyUnknown

  /** A received message: the document, its message-id and its reply type. */
  datatype Msg = Msg(doc: Doc, msgid: MsgId, kind: ReplyKind)

  /** A received message and the events after it. */
  datatype Received = Received(msg: Msg, rest: seq<Event>)

  /**
   * The parts of `struct nc_session` this model reads: the negotiated
   * version, the host name (NULL marks a session that is not set up), whether
   * there is an SSH channel, the SSH socket and the two file descriptors (-1
   * when absent), and the message-id counter.
   */
  datatype Session = Session(
    version: Version,
    hostname: Option<string>,
    sshChannel: bool,
    libssh2Socket: int,
    fdInput: int,
    fdOutput: int,
    msgid: MsgId)

  /** A session that receive and send_rpc accept: not NULL, with a host name. */
  predicate Valid(s: Option<Session>) {
    s.Some? && s.value.hostname.Some?
  }

  /** There is a way to read: an SSH channel or an input descriptor. */
  predicate CanRead(s: Session) {
    s.sshChannel || s.fdInput != -1
  }

  /** There is a way to write: an SSH channel or an output descriptor. */
  predicate CanWrite(s: Session) {
    s.sshChannel || s.fdOutput != -1
  }

  /** `nc_session_get_version`: the negotiated version, None (the source's -1) for a NULL session. */
  function GetVersion(s: Option<Session>): (r: Option<Version>)
    ensures r.None? <==> s.None?
    ensures s.Some? ==> r == Some(s.value.version)
  {
    match s
    case None => None
    case Some(x) => Some(x.version)
  }

  /**
   * `nc_session_get_eventfd`: the descriptor to poll, preferring the SSH
   * socket over the input descriptor; -1 when there is neither.
   */
  function GetEventfd(s: Option<Session>): (r: int)
    ensures r == -1 <==> s.None? || (s.value.libssh2Socket == -1 && s.value.fdInput == -1)
    ensures s.Some? && s.value.libssh2Socket != -1 ==> r == s.value.libssh2Socket
    ensures s.Some? && s.value.libssh2Socket == -1 ==> r == s.value.fdInput
  {
    match s
    case None => -1
    case Some(x) =>
      if x.libssh2Socket != -1 then x.libssh2Socket
      else if x.fdInput != -1 then x.fdInput
      else -1
  }

  /** The first-child name that marks each reply type; the empty name marks none. */
  function ReplyTag(k: ReplyKind): string {
    match k
    case ReplyOk => "ok"
    case ReplyError => "rpc-error"
    case ReplyData => "data"
    case ReplyUnknown => ""
  }

  /**
   * The reply type of a received document: an `rpc-reply` whose first child
   * is `ok`, `rpc-error` or `data` has that type; anything else is unknown.
   */
  function Classify(d: Doc): (k: ReplyKind)
    ensures k != ReplyUnknown ==> d.root == "rpc-reply" && d.firstChild == Some(ReplyTag(k))
    ensures d.root != "rpc-reply" ==> k == ReplyUnknown
  {
    if d.root != "rpc-reply" || d.firstChild.None? then ReplyUnknown
    else if d.firstChild.value == "ok" then ReplyOk
    else if d.firstChild.value == "rpc-error" then ReplyError
    else if d.firstChild.value == "data" then ReplyData
    else ReplyUnknown
  }

  /** An `rpc-reply` carrying a type's tag as its first child is classified as that type. */
  lemma ClassifyReplyTag(k: ReplyKind, id: Option<string>, ns: Option<Namespace>)
    ensures Classify(Doc("rpc-reply", Some(ReplyTag(k)), id, ns)) == k
  {
  }

  /** The message-id of a received document: `strtoull` of the root's attribute, 0 when it has none. */
  function MessageIdOf(d: Doc): (n: MsgId)
    ensures d.messageId.None? ==> n == 0
  {
    match d.messageId
    case None => 0
    case Some(v) => Strtoul(v)
  }

  /** Set the root's message-id attribute to the decimal form of `n`, as `sprintf("%llu")` prints it. */
  function Stamp(d: Doc, n: MsgId): (r: Doc)
    ensures r.root == d.root && r.firstChild == d.firstChild && r.defaultNs == d.defaultNs
    ensures r.messageId.Some? && AllDigits(r.messageId.value)
  {
    d.(messageId := Some(Decimal(n)))
  }

  /** A stamped message-id reads back as the number stamped. */
  lemma StampedIdReadsBack(d: Doc, n: MsgId)
    ensures MessageIdOf(Stamp(d, n)) == n
  {
    StrtoulOfDecimal(n, []);
    assert Decimal(n) + [] == Decimal(n);
  }

  /**
   * The stream a descriptor read sees: a `read` of 0 bytes at end of file is
   * added to the count and retried forever, so the read never ends there and
   * nothing after the first EOF is ever seen.
   */
  function UntilEof(ev: seq<Event>): (r: seq<Event>)
    ensures r <= ev && Eof !in r
    ensures |r| < |ev| ==> ev[|r|] == Eof
  {
    if ev == [] || ev[0] == Eof then [] else [ev[0]] + UntilEof(ev[1..])
  }

  /** The events the reads of a session see: all of them over SSH, up to the first EOF from a descriptor. */
  function Input(s: Session, ev: seq<Event>): (r: seq<Event>)
    ensures r <= ev
    ensures s.sshChannel || Eof !in ev ==> r == ev
  {
    if s.sshChannel then ev
    else
      UntilEof(ev)
  }

  /** The version switch of `nc_session_receive`, given what each framing makes of the input. */
  function Dispatch(s: Session, v10: Result<Frame, ReceiveError>, v11: Result<Frame, ReceiveError>): (r: Result<Frame, ReceiveError>)
    ensures s.version.OtherVersion? ==> r == Err(UnsupportedVersion)
    ensures !s.version.OtherVersion? && !CanRead(s) ==> r == Err(NoTransport)
    ensures CanRead(s) && s.version == NetconfV10 ==> r == v10
    ensures CanRead(s) && s.version == NetconfV11 ==> r == v11
  {
    match s.version
    case OtherVersion(_) => Err(UnsupportedVersion)
    case NetconfV10 => if CanRead(s) then v10 else Err(NoTransport)
    case NetconfV11 => if CanRead(s) then v11 else Err(NoTransport)
  }

  /** Parse a reassembled text and read its message-id and reply type. */
  function Finish(f: Result<Frame, ReceiveError>, parse: string -> Option<Doc>): (r: Result<Received, ReceiveError>)
    ensures f.Err? ==> r == Err(f.error)
    ensures f.Ok? && parse(f.value.text).None? ==> r == Err(ParseFailed)
    ensures r.Ok? ==> f.Ok? && Some(r.value.msg.doc) == parse(f.value.text) && r.value.rest == f.value.rest
    ensures r.Ok? ==> r.value.msg.msgid == MessageIdOf(r.value.msg.doc) && r.value.msg.kind == Classify(r.value.msg.doc)
  {
    match f
    case Err(e) => Err(e)
    case Ok(frame) =>
      match parse(frame.text)
      case None => Err(ParseFailed)
      case Some(d) => Ok(Received(Msg(d, MessageIdOf(d), Classify(d)), frame.rest))
  }

  /**
   * `nc_session_receive`: reject an invalid session, read one message in the
   * session's framing, parse it, and record its message-id and reply type.
   */
  function Receive(s: Option<Session>, ev: seq<Event>, parse: string -> Option<Doc>): (r: Result<Received, ReceiveError>)
    ensures !Valid(s) ==> r == Err(InvalidSession)
    ensures Valid(s) && s.value.version.OtherVersion? ==> r == Err(UnsupportedVersion)
    ensures Valid(s) && !s.value.version.OtherVersion? && !CanRead(s.value) ==> r == Err(NoTransport)
    ensures r.Ok? ==> Valid(s) && CanRead(s.value) && |r.value.rest| < |ev|
    ensures r.Ok? ==> r.value.msg.msgid == MessageIdOf(r.value.msg.doc) && r.value.msg.kind == Classify(r.value.msg.doc)
  {
    if !Valid(s) then Err(InvalidSession)
    else
      var input := Input(s.value, ev);
      Finish(Dispatch(s.value, DecodeV10(input), DecodeV11(input)), parse)
  }

  /** `nc_session_receive` with the NETCONF 1.0 cut corrected to remove exactly the end marker. */
  function ReceiveIntended(s: Option<Session>, ev: seq<Event>, parse: string -> Option<Doc>): (r: Result<Received, ReceiveError>)
    ensures !Valid(s) ==> r == Err(InvalidSession)
    ensures Valid(s) && s.value.version.OtherVersion? ==> r == Err(UnsupportedVersion)
    ensures Valid(s) && !s.value.version.OtherVersion? && !CanRead(s.value) ==> r == Err(NoTransport)
    ensures r.Ok? ==> Valid(s) && CanRead(s.value) && |r.value.rest| < |ev|
    ensures r.Ok? ==> r.value.msg.msgid == MessageIdOf(r.value.msg.doc) && r.value.msg.kind == Classify(r.value.msg.doc)
  {
    if !Valid(s) then Err(InvalidSession)
    else
      var input := Input(s.value, ev);
      Finish(Dispatch(s.value, DecodeV10Intended(input), DecodeV11(input)), parse)
  }

  lemma EventsWithoutEof(a: string, tail: seq<Event>)
    requires Eof !in tail
    ensures Eof !in Events(a) + tail
  {
    forall i | 0 <= i < |Events(a)|
      ensures Events(a)[i] != Eof
    {
      EventsAreBytes(a, i);
    }
  }

  lemma {:induction false} EventsAreBytes(a: string, i: nat)
    requires i < |a|
    ensures Events(a)[i] == Byte(a[i])
    decreases i
  {
    if i > 0 {
      EventsAreBytes(a[1..], i - 1);
    }
  }

  /**
   * End to end over NETCONF 1.1: a message the peer sends in chunked framing
   * is received as the document its text parses to, with that document's
   * message-id and reply type, and the events after it stay unread.
   */
  lemma ReceiveChunkedMessage(s: Session, text: string, tail: seq<Event>, parse: string -> Option<Doc>)
    requires s.hostname.Some? && s.version == NetconfV11 && CanRead(s)
    requires s.sshChannel || Eof !in tail
    requires NulFree(text) && 0 < |text| < 0x8000_0000 && parse(text).Some?
    ensures var d := parse(text).value;
            Receive(Some(s), Events(Encode(NetconfV11, text)) + tail, parse)
            == Ok(Received(Msg(d, MessageIdOf(d), Classify(d)), tail))
  {
    var ev := Events(Encode(NetconfV11, text)) + tail;
    if !s.sshChannel {
      EventsWithoutEof(Encode(NetconfV11, text), tail);
    }
    assert Input(s, ev) == ev;
    V11RoundTrip(text, tail);
  }

  /**
   * End to end over NETCONF 1.0 with the corrected cut: a message the peer
   * sends with the end marker is received as the document its text parses to.
   */
  lemma ReceiveMarkedMessage(s: Session, text: string, tail: seq<Event>, parse: string -> Option<Doc>)
    requires s.hostname.Some? && s.version == NetconfV10 && CanRead(s)
    requires s.sshChannel || Eof !in tail
    requires NulFree(text) && MarkerOnlyAtEnd(text) && parse(text).Some?
    ensures var d := parse(text).value;
            ReceiveIntended(Some(s), Events(Encode(NetconfV10, text)) + tail, parse)
            == Ok(Received(Msg(d, MessageIdOf(d), Classify(d)), tail))
  {
    var ev := Events(Encode(NetconfV10, text)) + tail;
    if !s.sshChannel {
      EventsWithoutEof(Encode(NetconfV10, text), tail);
    }
    assert Input(s, ev) == ev;
    V10RoundTrip(text, tail);
  }

  /**
   * End to end over NETCONF 1.0 as written: a message the peer sends with
   * the end marker is received as the document that its text WITHOUT the
   * last byte parses to; a message with no text is an empty-message error.
   */
  lemma ReceiveMarkedMessageAsWritten(s: Session, text: string, tail: seq<Event>, parse: string -> Option<Doc>)
    requires s.hostname.Some? && s.version == NetconfV10 && CanRead(s)
    requires s.sshChannel || Eof !in tail
    requires NulFree(text) && MarkerOnlyAtEnd(text)
    ensures text == [] ==> Receive(Some(s), Events(Encode(NetconfV10, text)) + tail, parse) == Err(EmptyMessage)
    ensures text != [] ==> Receive(Some(s), Events(Encode(NetconfV10, text)) + tail, parse)
                           == Finish(Ok(Frame(text[..|text| - 1], tail)), parse)
  {
    var ev := Events(Encode(NetconfV10, text)) + tail;
    if !s.sshChannel {
      EventsWithoutEof(Encode(NetconfV10, text), tail);
    }
    assert Input(s, ev) == ev;
    V10DropsLastByte(text, tail);
  }

  /** The namespace `nc_session_send_rpc` declares for a version: 1.0's for NETCONF 1.0, 1.1's otherwise. */
  function VersionNs(v: Version): (ns: Namespace)
    ensures ns == Base10Ns <==> v == NetconfV10
    ensures ns == Base11Ns <==> v != NetconfV10
  {
    if v == NetconfV10 then Base10Ns else Base11Ns
  }

  /**
   * `xmlNewNs` with no prefix on the root: declares the namespace unless the
   * root already declares one without a prefix.
   */
  function DeclareNs(d: Doc, ns: Namespace): (r: Doc)
    ensures r.root == d.root && r.firstChild == d.firstChild && r.messageId == d.messageId
    ensures d.defaultNs.Some? ==> r == d
    ensures d.defaultNs.None? ==> r.defaultNs == Some(ns)
  {
    if d.defaultNs.Some? then d else d.(defaultNs := Some(ns))
  }

  /**
   * `nc_session_send`: nothing is written when there is no way to write;
   * otherwise the serialized document in the session's framing.
   */
  function Send(s: Session, d: Doc, serialize: Doc -> string): (r: Option<string>)
    ensures r.Some? <==> CanWrite(s)
    ensures r.Some? && s.version != NetconfV11 ==> r.value == CString(serialize(d)) + V10EndMsg
  {
    if !CanWrite(s) then None else Some(Encode(s.version, serialize(d)))
  }

  /** Whether send_rpc stamps a message-id: only on a document whose root is `rpc`. */
  predicate IsRpc(d: Doc) {
    d.root == "rpc"
  }

  /**
   * The copy of `rpc` that send_rpc hands to `nc_session_send`: stamped with
   * the current counter when it is an `<rpc>`, then given the version's
   * namespace.
   */
  function RpcCopy(s: Session, rpc: Doc): (r: Doc)
    ensures r.root == rpc.root && r.firstChild == rpc.firstChild
    ensures IsRpc(rpc) ==> MessageIdOf(r) == s.msgid
    ensures !IsRpc(rpc) ==> r.messageId == rpc.messageId
    ensures rpc.defaultNs.None? ==> r.defaultNs == Some(VersionNs(s.version))
    ensures rpc.defaultNs.Some? ==> r.defaultNs == rpc.defaultNs
  {
    var stamped := if IsRpc(rpc) then Stamp(rpc, s.msgid) else rpc;
    StampedIdReadsBack(rpc, s.msgid);
    DeclareNs(stamped, VersionNs(s.version))
  }

  /** `msgid++` on the `unsigned long long` counter: wraps to 0 after 2^64 - 1. */
  function Succ(n: MsgId): (r: MsgId)
    ensures r == WrapU64(n + 1)
  {
    if n == ULongMax then 0 else n + 1
  }

  /** `msgid--` on the `unsigned long long` counter: wraps to 2^64 - 1 below 0. */
  function Pred(n: MsgId): (r: MsgId)
    ensures r == WrapU64(n - 1)
  {
    if n == 0 then ULongMax else n - 1
  }

  /** Decrementing undoes incrementing and the other way round, across the wrap as well. */
  lemma SuccPred(n: MsgId)
    ensures Pred(Succ(n)) == n && Succ(Pred(n)) == n && Succ(n) != n
  {
  }

  /** What send_rpc returns, the session it leaves, and the bytes it wrote. */
  datatype Sent = Sent(id: MsgId, session: Option<Session>, written: string)

  /**
   * `nc_session_send_rpc` as written: an `<rpc>` is stamped with the counter,
   * which is then incremented; if the send fails, the counter is decremented
   * whatever the root was and 0 is returned; on success the counter (after
   * the increment) is returned. Counter arithmetic wraps at 2^64.
   */
  function SendRpc(s: Option<Session>, rpc: Doc, serialize: Doc -> string): (r: Sent)
    ensures !Valid(s) ==> r == Sent(0, s, [])
    ensures Valid(s) && CanWrite(s.value) ==>
              && r.written == Encode(s.value.version, serialize(RpcCopy(s.value, rpc)))
              && r.session == Some(s.value.(msgid := r.id))
              && r.id == (if IsRpc(rpc) then Succ(s.value.msgid) else s.value.msgid)
    ensures Valid(s) && !CanWrite(s.value) ==>
              && r.id == 0 && r.written == []
              && r.session == Some(s.value.(msgid := if IsRpc(rpc) then s.value.msgid else Pred(s.value.msgid)))
  {
    if !Valid(s) then Sent(0, s, [])
    else
      var x := s.value;
      var counter: MsgId := if IsRpc(rpc) then Succ(x.msgid) else x.msgid;
      match Send(x, RpcCopy(x, rpc), serialize)
      case None =>
        SuccPred(x.msgid);
        Sent(0, Some(x.(msgid := Pred(counter))), [])
      case Some(wire) => Sent(counter, Some(x.(msgid := counter)), wire)
  }

  /**
   * As written, a successful send returns one more than the message-id the
   * `<rpc>` carries on the wire, so a reply echoing that message-id does not
   * carry the returned id.
   */
  lemma SentIdIsStampPlusOne(s: Session, rpc: Doc, serialize: Doc -> string)
    requires s.hostname.Some? && CanWrite(s) && IsRpc(rpc)
    ensures SendRpc(Some(s), rpc, serialize).id == Succ(MessageIdOf(RpcCopy(s, rpc)))
    ensures SendRpc(Some(s), rpc, serialize).id != MessageIdOf(RpcCopy(s, rpc))
  {
    SuccPred(s.msgid);
  }

  /** As written, a failed send of a document that is not an `<rpc>` lowers the counter it never raised. */
  lemma FailedNonRpcLowersCounter()
    ensures var s := Session(NetconfV10, Some("host"), false, -1, -1, -1, 0);
            SendRpc(Some(s), Doc("hello", None, None, None), d => "").session == Some(s.(msgid := ULongMax))
  {
  }

  /**
   * `nc_session_send_rpc` as evidently intended: the counter moves only
   * when an `<rpc>` is stamped and the send succeeds, and the id returned is
   * the one stamped on the message.
   */
  function SendRpcIntended(s: Option<Session>, rpc: Doc, serialize: Doc -> string): (r: Sent)
    ensures !Valid(s) ==> r == Sent(0, s, [])
    ensures Valid(s) && !CanWrite(s.value) ==> r == Sent(0, s, [])
    ensures Valid(s) && CanWrite(s.value) ==>
              && r.written == Encode(s.value.version, serialize(RpcCopy(s.value, rpc)))
              && r.session == Some(s.value.(msgid := if IsRpc(rpc) then Succ(s.value.msgid) else s.value.msgid))
              && r.id == s.value.msgid
  {
    if !Valid(s) then Sent(0, s, [])
    else
      var x := s.value;
      match Send(x, RpcCopy(x, rpc), serialize)
      case None => Sent(0, s, [])
      case Some(wire) =>
        var counter: MsgId := if IsRpc(rpc) then Succ(x.msgid) else x.msgid;
        Sent(x.msgid, Some(x.(msgid := counter)), wire)
  }

  /**
   * With the corrected send_rpc, a reply that echoes the request's
   * message-id, as section 4.2 of RFC 6241 requires of a server, is received
   * with the id send_rpc returned.
   */
  lemma ReplyMatchesRequest(s: Session, rpc: Doc, serialize: Doc -> string, reply: Doc, text: string, tail: seq<Event>, parse: string -> Option<Doc>)
    requires s.hostname.Some? && s.version == NetconfV11 && CanRead(s) && CanWrite(s) && IsRpc(rpc)
    requires s.sshChannel || Eof !in tail
    requires reply.messageId == RpcCopy(s, rpc).messageId
    requires NulFree(text) && 0 < |text| < 0x8000_0000 && parse(text) == Some(reply)
    ensures var sent := SendRpcIntended(Some(s), rpc, serialize);
            && sent.session.Some? && Valid(sent.session)
            && Receive(sent.session, Events(Encode(NetconfV11, text)) + tail, parse).Ok?
            && Receive(sent.session, Events(Encode(NetconfV11, text)) + tail, parse).value.msg.msgid == sent.id
  {
    var sent := SendRpcIntended(Some(s), rpc, serialize);
    var s' := sent.session.value;
    ReceiveChunkedMessage(s', text, tail, parse);
  }

  /**
   * Two successful `<rpc>` sends in a row with the corrected send_rpc carry
   * consecutive message-ids (modulo 2^64) and return them.
   */
  lemma ConsecutiveIds(s: Session, a: Doc, b: Doc, serialize: Doc -> string)
    requires s.hostname.Some? && CanWrite(s) && IsRpc(a) && IsRpc(b)
    ensures var first := SendRpcIntended(Some(s), a, serialize);
            var second := SendRpcIntended(first.session, b, serialize);
            && first.id == s.msgid
            && second.id == Succ(s.msgid)
            && MessageIdOf(RpcCopy(first.session.value, b)) == second.id
  {
  }
}
