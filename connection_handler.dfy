/**
 * `handle_client` of connection_handler_clean.py: one client connection is
 * read until an empty chunk or a chunk holding a NUL byte, the bytes are
 * classified, the search is asked at most once, exactly one fixed ASCII
 * response is sent, and the socket is shut down and closed.
 *
 * The socket is a `Connection` whose `recv` results are scripted in advance;
 * the search is a `SearchCallback` whose answer for each query is fixed in
 * advance. Both keep a ghost log of the calls made on them.
 */
module ConnectionHandler {
  import opened Utf8
  import opened Strings
  import opened FileSearch

  /** `max_payload` when the configuration does not set `MAX_PAYLOAD`. */
  const DefaultMaxPayload := 1024

  /** The bytes of a Python `bytes` literal written in ASCII. */
  function Ascii(s: string): (r: seq<byte>)
    requires forall i :: 0 <= i < |s| ==> s[i] < 128 as char
    ensures |r| == |s| && forall i :: 0 <= i < |s| ==> r[i] == s[i] as int
  {
    seq(|s|, i requires 0 <= i < |s| => s[i] as int)
  }

  /** Text made of ASCII characters is encoded one byte per character, by its code. */
  lemma {:induction false} AsciiIsUtf8(s: string)
    requires forall i :: 0 <= i < |s| ==> s[i] < 128 as char
    ensures Encode(s) == Ascii(s)
  {
    if s != [] {
      AsciiIsUtf8(s[1..]);
      assert Ascii(s) == [s[0] as int] + Ascii(s[1..]);
    }
  }

  const ExistsReply := Ascii("STRING EXISTS\n")
  const NotFoundReply := Ascii("STRING NOT FOUND\n")
  const TooLargeReply := Ascii("PAYLOAD TOO LARGE\n")
  const NoDataReply := Ascii("ERROR: No data received\n")
  const InvalidUtf8Reply := Ascii("ERROR: Invalid UTF-8\n")
  const EmptyQueryReply := Ascii("ERROR: Empty query\n")
  const InternalErrorReply := Ascii("ERROR: Internal server error\n")
  const FallbackReply := Ascii("ERROR: Empty response generated\n")

  /** The responses a client can ever receive. */
  const Responses := {ExistsReply, NotFoundReply, TooLargeReply, NoDataReply,
                      InvalidUtf8Reply, EmptyQueryReply, InternalErrorReply}

  // ---------------------------------------------------------------------------
  // Reading
  // ---------------------------------------------------------------------------

  /** What one `conn.recv(1024)` does: return a chunk (empty once the peer closed) or raise. */
  datatype RecvEvent = Data(bytes: seq<byte>) | Fail

  /** The read loop ends on this event: an exception, an empty chunk, or a chunk holding a NUL. */
  predicate Stops(e: RecvEvent) {
    e.Fail? || e.bytes == [] || 0 in e.bytes
  }

  /** No event of `es` ends the read loop. */
  predicate NoneStops(es: seq<RecvEvent>) {
    forall i :: 0 <= i < |es| ==> !Stops(es[i])
  }

  /** The `i`-th recv of a script; past its end the peer has closed and recv returns b"". */
  function EventAt(events: seq<RecvEvent>, i: nat): RecvEvent {
    if i < |events| then events[i] else Data([])
  }

  /** The bytes an event appends to `data`. */
  function BytesOf(e: RecvEvent): seq<byte> {
    if e.Data? then e.bytes else []
  }

  /** Index of the first recv at or after `i` that ends the read loop. */
  function StopIndex(events: seq<RecvEvent>, i: nat): (k: nat)
    ensures i <= k && (k <= |events| || k == i)
    ensures Stops(EventAt(events, k))
    ensures forall j :: i <= j < k ==> !Stops(EventAt(events, j))
    decreases |events| - i
  {
    if Stops(EventAt(events, i)) then i else StopIndex(events, i + 1)
  }

  /** When no event before `i` stops the loop, the loop runs at least up to `i`. */
  lemma StopIndexAtLeast(events: seq<RecvEvent>, i: nat)
    requires i <= |events| && NoneStops(events[..i])
    ensures i <= StopIndex(events, 0)
  {
    forall j | 0 <= j < i ensures !Stops(EventAt(events, j)) {
      assert events[..i][j] == events[j];
    }
  }

  /** The loop ends with an exception exactly when some recv raises before any earlier recv ended it. */
  lemma FirstStopFails(events: seq<RecvEvent>)
    ensures EventAt(events, StopIndex(events, 0)).Fail? <==>
      exists i :: 0 <= i < |events| && events[i] == Fail && NoneStops(events[..i])
  {
    var k := StopIndex(events, 0);
    if EventAt(events, k).Fail? {
      assert k < |events|;
      forall j | 0 <= j < k ensures !Stops(events[..k][j]) {
        assert events[..k][j] == EventAt(events, j);
      }
      assert events[k] == Fail && NoneStops(events[..k]);
    }
    forall i | 0 <= i < |events| && events[i] == Fail && NoneStops(events[..i])
      ensures EventAt(events, k).Fail?
    {
      StopIndexAtLeast(events, i);
      assert Stops(EventAt(events, i));
      assert k == i;
    }
  }

  /** `data` after the first `n` recvs: every chunk received so far, joined. */
  function Gathered(events: seq<RecvEvent>, n: nat): seq<byte> {
    if n == 0 then [] else Gathered(events, n - 1) + BytesOf(EventAt(events, n - 1))
  }

  /** The chunks of a list of events, joined. */
  function Payload(es: seq<RecvEvent>): seq<byte> {
    if es == [] then [] else Payload(es[..|es| - 1]) + BytesOf(es[|es| - 1])
  }

  /** How the read loop ends: with the accumulated bytes, or with an exception from recv. */
  datatype Request = Received(data: seq<byte>) | RecvFailed

  /** What the read loop makes of a script of recv results. */
  function ReadRequest(events: seq<RecvEvent>): (r: Request)
    ensures r.RecvFailed? <==> exists i :: 0 <= i < |events| && events[i] == Fail && NoneStops(events[..i])
  {
    FirstStopFails(events);
    var k := StopIndex(events, 0);
    if EventAt(events, k).Fail? then RecvFailed else Received(Gathered(events, k + 1))
  }

  // ---------------------------------------------------------------------------
  // Classification and the reply
  // ---------------------------------------------------------------------------

  predicate IsNul(b: byte) {
    b == 0
  }

  /** Where the validation chain sends the received bytes. */
  datatype Verdict = NoData | TooLarge | InvalidUtf8 | EmptyQuery | Query(text: string)

  /**
   * The checks of connection_handler_clean.py lines 27-64, in the source's order: nothing received, more
   * than `maxPayload` bytes, not UTF-8 once NULs are stripped from both ends,
   * nothing left after stripping whitespace; otherwise the query to search.
   */
  function Classify(data: seq<byte>, maxPayload: int): (v: Verdict)
    ensures v == NoData <==> data == []
    ensures v == TooLarge <==> data != [] && |data| > maxPayload
    ensures v == InvalidUtf8 <==> 0 < |data| <= maxPayload && Decode(Trim(data, IsNul)).None?
    ensures v == EmptyQuery <==>
      0 < |data| <= maxPayload && Decode(Trim(data, IsNul)).Some? && Strip(Decode(Trim(data, IsNul)).value) == []
    ensures v.Query? ==> v.text != [] && !IsSpace(v.text[0]) && !IsSpace(v.text[|v.text| - 1])
    ensures v.Query? ==> Decode(Trim(data, IsNul)).Some? && v.text == Strip(Decode(Trim(data, IsNul)).value)
  {
    if data == [] then NoData
    else if |data| > maxPayload then TooLarge
    else
      var decoded := Decode(Trim(data, IsNul));
      if decoded.None? then InvalidUtf8
      else
        var query := Strip(decoded.value);
        if query == [] then EmptyQuery else Query(query)
  }

  /** The queries the handler passes to the search: none, or the one valid query. */
  function QueriesSearched(req: Request, maxPayload: int): (r: seq<string>)
    ensures |r| <= 1
    ensures r != [] ==> req.Received? && 0 < |req.data| <= maxPayload
    ensures r != [] ==> r[0] != [] && !IsSpace(r[0][0]) && !IsSpace(r[0][|r[0]| - 1])
  {
    if req.Received? && Classify(req.data, maxPayload).Query? then [Classify(req.data, maxPayload).text] else []
  }

  /**
   * The one response sent for a request, given what the search does for each
   * query. "STRING EXISTS" exactly when the search ran and returned true; any
   * other outcome of the search, an exception included, reads as not found.
   */
  function Reply(req: Request, maxPayload: int, search: string -> SearchOutcome): (r: seq<byte>)
    ensures r in Responses && r != FallbackReply && r != []
    ensures r == ExistsReply <==> exists q :: QueriesSearched(req, maxPayload) == [q] && search(q) == Returned(true)
    ensures r == NotFoundReply <==> exists q :: QueriesSearched(req, maxPayload) == [q] && search(q) != Returned(true)
    ensures r == InternalErrorReply <==> req.RecvFailed?
    ensures r == NoDataReply <==> req == Received([])
    ensures r == TooLargeReply <==> req.Received? && req.data != [] && |req.data| > maxPayload
    ensures r == InvalidUtf8Reply <==> req.Received? && Classify(req.data, maxPayload) == InvalidUtf8
    ensures r == EmptyQueryReply <==> req.Received? && Classify(req.data, maxPayload) == EmptyQuery
  {
    match req
    case RecvFailed => InternalErrorReply
    case Received(data) =>
      match Classify(data, maxPayload)
      case NoData => NoDataReply
      case TooLarge => TooLargeReply
      case InvalidUtf8 => InvalidUtf8Reply
      case EmptyQuery => EmptyQueryReply
      case Query(q) => if search(q) == Returned(true) then ExistsReply else NotFoundReply
  }

  // ---------------------------------------------------------------------------
  // The socket and the search callback
  // ---------------------------------------------------------------------------

  /** A call made on the socket. */
  datatype Op = RecvCall | SendCall(bytes: seq<byte>) | ShutdownCall | CloseCall

  function RecvCalls(n: nat): (r: seq<Op>)
    ensures |r| == n && forall i :: 0 <= i < n ==> r[i] == RecvCall
  {
    seq(n, _ => RecvCall)
  }

  /**
   * A client socket. What each recv returns is scripted by `events`; whether
   * `sendall`, `shutdown` and `close` raise is fixed by the three flags.
   */
  class Connection {
    const events: seq<RecvEvent>
    const sendFails: bool
    const shutdownFails: bool
    const closeFails: bool
    /** The number of recv calls made so far. */
    var received: nat
    ghost var trace: seq<Op>

    constructor (events: seq<RecvEvent>, sendFails: bool, shutdownFails: bool, closeFails: bool)
      ensures this.events == events && this.sendFails == sendFails
      ensures this.shutdownFails == shutdownFails && this.closeFails == closeFails
      ensures received == 0 && trace == []
    {
      this.events := events;
      this.sendFails := sendFails;
      this.shutdownFails := shutdownFails;
      this.closeFails := closeFails;
      received := 0;
      trace := [];
    }

    /** `conn.recv(1024)`: the next scripted event; `Fail` stands for an exception. */
    method Recv() returns (e: RecvEvent)
      modifies this
      ensures e == EventAt(events, old(received))
      ensures received == old(received) + 1 && trace == old(trace) + [RecvCall]
    {
      e := EventAt(events, received);
      received := received + 1;
      trace := trace + [RecvCall];
    }

    /** `conn.sendall(bytes)`; `raised` tells whether it raised. */
    method SendAll(bytes: seq<byte>) returns (raised: bool)
      modifies this
      ensures raised == sendFails
      ensures received == old(received) && trace == old(trace) + [SendCall(bytes)]
    {
      raised := sendFails;
      trace := trace + [SendCall(bytes)];
    }

    /** `conn.shutdown(socket.SHUT_RDWR)`; `raised` tells whether it raised. */
    method Shutdown() returns (raised: bool)
      modifies this
      ensures raised == shutdownFails
      ensures received == old(received) && trace == old(trace) + [ShutdownCall]
    {
      raised := shutdownFails;
      trace := trace + [ShutdownCall];
    }

    /** `conn.close()`; `raised` tells whether it raised. */
    method Close() returns (raised: bool)
      modifies this
      ensures raised == closeFails
      ensures received == old(received) && trace == old(trace) + [CloseCall]
    {
      raised := closeFails;
      trace := trace + [CloseCall];
    }
  }

  /** The `search_func` handed to the handler; `queries` logs every call. */
  class SearchCallback {
    const outcomeOf: string -> SearchOutcome
    ghost var queries: seq<string>

    constructor (outcomeOf: string -> SearchOutcome)
      ensures this.outcomeOf == outcomeOf && queries == []
    {
      this.outcomeOf := outcomeOf;
      queries := [];
    }

    method Call(query: string) returns (r: SearchOutcome)
      modifies this
      ensures r == outcomeOf(query) && queries == old(queries) + [query]
    {
      r := outcomeOf(query);
      queries := queries + [query];
    }
  }

  // ---------------------------------------------------------------------------
  // The handler
  // ---------------------------------------------------------------------------

  /**
   * The read loop of lines 15-23: recv until an exception, an empty chunk or
   * a chunk holding a NUL, appending every chunk (the one with the NUL whole).
   */
  method ReadRequestFrom(conn: Connection) returns (req: Request)
    requires conn.received == 0 && conn.trace == []
    modifies conn
    ensures req == ReadRequest(conn.events)
    ensures conn.trace == RecvCalls(StopIndex(conn.events, 0) + 1)
    ensures conn.received == StopIndex(conn.events, 0) + 1
  {
    ghost var k := StopIndex(conn.events, 0);
    var data: seq<byte> := [];
    while true
      invariant conn.received <= k
      invariant conn.trace == RecvCalls(conn.received)
      invariant data == Gathered(conn.events, conn.received)
      invariant forall j :: 0 <= j < conn.received ==> !Stops(EventAt(conn.events, j))
      decreases k - conn.received
    {
      var chunk := conn.Recv();
      if chunk.Fail? {
        assert conn.received == k + 1;
        return RecvFailed;
      }
      if chunk.bytes == [] {
        break;
      }
      data := data + chunk.bytes;
      if 0 in chunk.bytes {
        break;
      }
    }
    assert conn.received == k + 1;
    req := Received(data);
  }

  /**
   * Lines 53-72, for data that is neither empty nor too large: decode the
   * NUL-stripped bytes, strip whitespace and, when a query is left, search.
   */
  method AnswerQuery(data: seq<byte>, search: SearchCallback, maxPayload: int) returns (response: seq<byte>)
    requires 0 < |data| <= maxPayload
    modifies search
    ensures response == Reply(Received(data), maxPayload, search.outcomeOf)
    ensures search.queries == old(search.queries) + QueriesSearched(Received(data), maxPayload)
  {
    var decoded := Decode(Trim(data, IsNul));
    if decoded.None? {
      response := InvalidUtf8Reply;
    } else {
      var query := Strip(decoded.value);
      if query == [] {
        response := EmptyQueryReply;
      } else {
        var outcome := search.Call(query);
        response := if outcome == Returned(true) then ExistsReply else NotFoundReply;
      }
    }
  }

  /**
   * The closing sequence of lines 35-48 and 79-98: `sendall`, then `shutdown`,
   * then `close`, each attempted once whether or not an earlier one raised.
   */
  method SendAndClose(conn: Connection, response: seq<byte>)
    modifies conn
    ensures conn.trace == old(conn.trace) + [SendCall(response), ShutdownCall, CloseCall]
    ensures conn.received == old(conn.received)
  {
    var _ := conn.SendAll(response);
    var _ := conn.Shutdown();
    var _ := conn.Close();
  }

  /**
   * `handle_client(conn, addr, search_func, max_payload)`. Whatever the script
   * and whichever socket calls raise, the socket sees the recvs of the read
   * loop, then exactly one send of `Reply`, one shutdown and one close; the
   * search is called with exactly `QueriesSearched`.
   */
  method HandleClient(conn: Connection, search: SearchCallback, maxPayload: int)
    requires conn.received == 0 && conn.trace == []
    modifies conn, search
    ensures conn.trace ==
      RecvCalls(StopIndex(conn.events, 0) + 1)
      + [SendCall(Reply(ReadRequest(conn.events), maxPayload, search.outcomeOf)), ShutdownCall, CloseCall]
    ensures conn.received == StopIndex(conn.events, 0) + 1
    ensures search.queries == old(search.queries) + QueriesSearched(ReadRequest(conn.events), maxPayload)
  {
    var response: seq<byte> := [];
    var req := ReadRequestFrom(conn);

    if req.RecvFailed? {
      response := InternalErrorReply;
    } else if req.data == [] {
      response := NoDataReply;
    } else if |req.data| > maxPayload {
      response := TooLargeReply;
      SendAndClose(conn, response);
      return;
    } else {
      response := AnswerQuery(req.data, search, maxPayload);
    }
    assert response == Reply(req, maxPayload, search.outcomeOf);

    if response == [] {
      response := FallbackReply;
    }
    SendAndClose(conn, response);
  }

  // ---------------------------------------------------------------------------
  // The read loop
  // ---------------------------------------------------------------------------

  /** The bytes gathered by the first `n` recvs are the chunks of the first `n` events. */
  lemma {:induction false} GatheredIsPayload(events: seq<RecvEvent>, n: nat)
    requires n <= |events|
    ensures Gathered(events, n) == Payload(events[..n])
  {
    if n > 0 {
      GatheredIsPayload(events, n - 1);
      assert events[..n][..n - 1] == events[..n - 1];
    }
  }

  /** The read loop stops at the first event that ends it, and reads nothing after it. */
  lemma StopsAfter(pre: seq<RecvEvent>, e: RecvEvent, post: seq<RecvEvent>)
    requires NoneStops(pre) && Stops(e)
    ensures StopIndex(pre + [e] + post, 0) == |pre|
    ensures EventAt(pre + [e] + post, |pre|) == e
  {
    var events := pre + [e] + post;
    var k := StopIndex(events, 0);
    assert EventAt(events, |pre|) == e;
  }

  /**
   * A chunk holding a NUL ends the read: `data` is every chunk before it and
   * the whole of that chunk, the bytes after the NUL included; later chunks
   * are never read.
   */
  lemma ReadStopsAtNul(pre: seq<RecvEvent>, chunk: seq<byte>, post: seq<RecvEvent>)
    requires NoneStops(pre) && 0 in chunk
    ensures ReadRequest(pre + [Data(chunk)] + post) == Received(Payload(pre) + chunk)
  {
    var events := pre + [Data(chunk)] + post;
    StopsAfter(pre, Data(chunk), post);
    GatheredIsPayload(events, |pre| + 1);
    assert events[..|pre| + 1] == pre + [Data(chunk)];
    assert (pre + [Data(chunk)])[..|pre|] == pre;
  }

  /** An empty chunk (the peer closed) ends the read with the chunks received before it. */
  lemma ReadStopsAtEmptyChunk(pre: seq<RecvEvent>, post: seq<RecvEvent>)
    requires NoneStops(pre)
    ensures ReadRequest(pre + [Data([])] + post) == Received(Payload(pre))
  {
    var events := pre + [Data([])] + post;
    StopsAfter(pre, Data([]), post);
    GatheredIsPayload(events, |pre| + 1);
    assert events[..|pre| + 1] == pre + [Data([])];
    assert (pre + [Data([])])[..|pre|] == pre;
  }

  /** An exception from recv ends the read, whatever was received before it. */
  lemma ReadStopsAtFailure(pre: seq<RecvEvent>, post: seq<RecvEvent>)
    requires NoneStops(pre)
    ensures ReadRequest(pre + [Fail] + post) == RecvFailed
  {
    StopsAfter(pre, Fail, post);
  }

  /** A peer that closes after chunks none of which ends the loop: everything it sent is received. */
  lemma ReadStopsAtEnd(events: seq<RecvEvent>)
    requires NoneStops(events)
    ensures ReadRequest(events) == Received(Payload(events))
  {
    assert events[..|events|] == events;
    StopIndexAtLeast(events, |events|);
    GatheredIsPayload(events, |events|);
  }

  // ---------------------------------------------------------------------------
  // Validation
  // ---------------------------------------------------------------------------

  /**
   * The query searched for is a piece of what was received: its UTF-8 bytes
   * occur in `data`.
   */
  lemma QueryOccursInData(data: seq<byte>, maxPayload: int)
    requires Classify(data, maxPayload).Query?
    ensures IsInfix(Encode(Classify(data, maxPayload).text), data)
  {
    var trimmed := Trim(data, IsNul);
    var s := Decode(trimmed).value;
    var q := Strip(s);
    EncodeDecode(trimmed);
    TrimIsInfix(s, IsSpace);
    InfixEncode(q, s);
    TrimIsInfix(data, IsNul);
    InfixTransitive(Encode(q), trimmed, data);
  }

  /**
   * A NUL terminator does not change the verdict on non-empty data, as long
   * as it does not push the length over the limit.
   */
  lemma TerminatorKeepsVerdict(data: seq<byte>, maxPayload: int)
    requires data != [] && |data| < maxPayload
    ensures Classify(data + [0], maxPayload) == Classify(data, maxPayload)
  {
    TrimAppendDropped(data, 0, IsNul);
  }

  /**
   * The limit is checked on everything received, the terminator included:
   * `maxPayload` bytes pass, the same bytes followed by a NUL do not.
   */
  lemma TerminatorCountsTowardsLimit(data: seq<byte>, maxPayload: int)
    requires data != [] && |data| == maxPayload
    ensures Classify(data, maxPayload) != TooLarge
    ensures Classify(data + [0], maxPayload) == TooLarge
  {
  }

  /** "a", NUL, "b" framed by NULs: the outer NULs go, the inner one stays in the query. */
  lemma InteriorNulKept()
    ensures Classify([0, 0x61, 0, 0x62, 0], DefaultMaxPayload) == Query("a\0b")
  {
    var data: seq<byte> := [0, 0x61, 0, 0x62, 0];
    TrimUnique(data, IsNul, 1, 4);
    AsciiIsUtf8("a\0b");
    assert data[1..4] == Encode("a\0b");
    DecodeEncode("a\0b");
    TrimKeeps("a\0b", IsSpace);
  }

  /** A lone 0xFF byte is not UTF-8. */
  lemma InvalidUtf8Example()
    ensures Classify([0xFF], DefaultMaxPayload) == InvalidUtf8
  {
    var data: seq<byte> := [0xFF];
    TrimKeeps(data, IsNul);
  }

  /** A space, a tab and the NUL terminator decode fine but strip to nothing: `ERROR: Empty query`. */
  lemma WhitespaceOnlyIsEmptyQuery(search: string -> SearchOutcome)
    ensures Reply(Received([0x20, 0x09, 0]), DefaultMaxPayload, search) == EmptyQueryReply
  {
    var data: seq<byte> := [0x20, 0x09, 0];
    TrimUnique(data, IsNul, 0, 2);
    AsciiIsUtf8(" \t");
    assert data[0..2] == Encode(" \t");
    DecodeEncode(" \t");
    TrimUnique(" \t", IsSpace, 0, 0);
  }

  // ---------------------------------------------------------------------------
  // The server's wiring
  // ---------------------------------------------------------------------------

  /** The search the server hands to the handler: grep over the configured file. */
  function GrepSearch(file: Source<string>): (r: string -> SearchOutcome)
    ensures forall q :: r(q).Returned? && (r(q).found ==> file.Readable?)
  {
    q => Returned(SearchWithGrep(file, q))
  }

  /** The file of the end-to-end test. */
  const TestFile: Source<string> := Readable("banana\napple\norange\n")

  /** One chunk ending in a NUL is received whole. */
  lemma TerminatedChunkIsRead(bytes: seq<byte>)
    ensures ReadRequest([Data(bytes + [0])]) == Received(bytes + [0])
  {
    ReadStopsAtNul([], bytes + [0], []);
    assert [] + [Data(bytes + [0])] + [] == [Data(bytes + [0])];
    assert Payload([]) + (bytes + [0]) == bytes + [0];
  }

  /** Text that neither starts nor ends with NUL encodes to bytes that neither start nor end with 0. */
  lemma EncodeEndsNotNul(s: string)
    requires s != [] && s[0] != 0 as char && s[|s| - 1] != 0 as char
    ensures !IsNul(Encode(s)[0]) && !IsNul(Encode(s)[|Encode(s)| - 1])
  {
    EncodeLast(s);
    EncodeCharAscii(s[0]);
    EncodeCharAscii(s[|s| - 1]);
  }

  /** The UTF-8 bytes of a trimmed query, followed by a NUL, classify as that query. */
  lemma TerminatedQueryClassifies(s: string, maxPayload: int)
    requires s != [] && !IsSpace(s[0]) && !IsSpace(s[|s| - 1])
    requires s[0] != 0 as char && s[|s| - 1] != 0 as char
    requires |Encode(s)| < maxPayload
    ensures Classify(Encode(s) + [0], maxPayload) == Query(s)
  {
    EncodeEndsNotNul(s);
    TrimKeeps(Encode(s), IsNul);
    TerminatorKeepsVerdict(Encode(s), maxPayload);
    DecodeEncode(s);
    TrimKeeps(s, IsSpace);
  }

  /**
   * A query that is already trimmed and has no NUL at either end, sent as its
   * UTF-8 bytes and a NUL, is searched exactly as sent.
   */
  lemma TerminatedQueryIsSearched(s: string, maxPayload: int)
    requires s != [] && !IsSpace(s[0]) && !IsSpace(s[|s| - 1])
    requires s[0] != 0 as char && s[|s| - 1] != 0 as char
    requires |Encode(s)| < maxPayload
    ensures QueriesSearched(ReadRequest([Data(Encode(s) + [0])]), maxPayload) == [s]
  {
    TerminatedChunkIsRead(Encode(s));
    TerminatedQueryClassifies(s, maxPayload);
  }

  /** Once a query has been searched, the reply is what the search said. */
  lemma ReplyToSearchedQuery(req: Request, maxPayload: int, search: string -> SearchOutcome, q: string)
    requires QueriesSearched(req, maxPayload) == [q]
    ensures search(q) == Returned(true) ==> Reply(req, maxPayload, search) == ExistsReply
    ensures search(q) != Returned(true) ==> Reply(req, maxPayload, search) == NotFoundReply
  {
  }

  /** A client sending "banana" and a NUL to the server as configured by default. */
  lemma ServerFindsBanana()
    ensures Reply(ReadRequest([Data(Encode("banana") + [0])]), DefaultMaxPayload, GrepSearch(TestFile)) == ExistsReply
  {
    var q := "banana";
    TerminatedQueryIsSearched(q, DefaultMaxPayload);
    GrepFindsBanana();
    ReplyToSearchedQuery(ReadRequest([Data(Encode(q) + [0])]), DefaultMaxPayload, GrepSearch(TestFile), q);
  }

  /** A client sending "pineapple" and a NUL is told the string is not there. */
  lemma ServerMissesPineapple()
    ensures Reply(ReadRequest([Data(Encode("pineapple") + [0])]), DefaultMaxPayload, GrepSearch(TestFile)) == NotFoundReply
  {
    var q := "pineapple";
    TerminatedQueryIsSearched(q, DefaultMaxPayload);
    GrepMissesPineapple();
    ReplyToSearchedQuery(ReadRequest([Data(Encode(q) + [0])]), DefaultMaxPayload, GrepSearch(TestFile), q);
  }
}
