/**
  The mesh test program: its console commands and the driver callbacks it
  hands to the mesh engine.

  The mesh engine (mesh_send, mesh_get_routing_entry, mesh_is_ack_required,
  mesh_send_ack) and the sockets are outside the model. Each call the program
  makes into them is returned as a request record, and each answer it gets
  from them is a parameter: an oracle function or an outcome value.
 */
module MeshProg {
  import opened Wrappers
  import opened CStrings
  import Console

  /** The hop limit cmd_send asks for. */
  const MAX_HOPS: int := 10

  /** sizeof(uint32_t). */
  const TIMER_WIDTH: int := 4

  const TWO_TO_32: int := 0x1_0000_0000

  /** The reply mesh_stub_app_recv sends: "ACK" and its terminator. */
  const ACK_TEXT: string := "ACK"

  /**
    MESH_DATA_PAYLOAD_SIZE, fixed by the mesh library's header. Its value is
    not known here; cmd_send writes data[len - 1], so it is at least 1.
   */
  type PayloadSize = n: nat | 1 <= n witness 1

  /** Packet types the program distinguishes; every other code is Other. */
  datatype PktType = AckApp | Nack | Ack | Other(code: int)

  /** A mesh_send request: destination, type, payload bytes, payload length, hop limit. */
  datatype SendCall = SendCall(node: int, kind: PktType, data: seq<char>, len: nat, maxHops: int)

  /** A command's status and the send request it made, if any. */
  datatype SendOutcome = SendOutcome(status: int, request: Option<SendCall>)

  // ---------------------------------------------------------------------------
  // cmd_send
  // ---------------------------------------------------------------------------

  /**
    `send node_id string`: fewer than three words is a usage error (-1, no
    send). Otherwise the text, NUL included, is cut to the payload size, its
    last byte forced to NUL, and sent to node atoi(node_id) as an
    application packet that wants an ack, with a hop limit of 10.
   */
  function CmdSend(argv: seq<string>, payloadSize: PayloadSize): (r: SendOutcome)
    ensures r.request.None? <==> |argv| < 3
    ensures r.status == (if |argv| < 3 then -1 else 0)
    ensures r.request.Some? ==>
              var c := r.request.value;
              c.node == Atoi(argv[1]) && c.kind == AckApp && c.maxHops == MAX_HOPS
              && |c.data| == c.len && 1 <= c.len <= payloadSize
              && c.len == (if |argv[2]| < payloadSize then |argv[2]| + 1 else payloadSize)
              && c.data[c.len - 1] == NUL
              && c.data[..c.len - 1] == argv[2][..c.len - 1]
  {
    if |argv| < 3 then SendOutcome(-1, None)
    else
      var text := argv[2];
      var len := if |text| + 1 < payloadSize then |text| + 1 else payloadSize;
      SendOutcome(0, Some(SendCall(Atoi(argv[1]), AckApp, text[..len - 1] + [NUL], len, MAX_HOPS)))
  }

  /**
    The payload carries the text as a C string, cut to payloadSize - 1
    characters: the whole text whenever it fits.
   */
  lemma SendTruncates(argv: seq<string>, payloadSize: PayloadSize)
    requires |argv| >= 3 && NUL !in argv[2]
    ensures var c := CmdSend(argv, payloadSize).request.value;
            var keep := if |argv[2]| < payloadSize then |argv[2]| else payloadSize - 1;
            CString(c.data) == argv[2][..keep]
            && (|argv[2]| < payloadSize ==> CString(c.data) == argv[2])
  {
    var c := CmdSend(argv, payloadSize).request.value;
    var keep := c.len - 1;
    CStringOfTerminated(c.data, 0, keep);
    assert c.data[0..] == c.data;
    assert argv[2][..|argv[2]|] == argv[2];
  }

  /** A node id written in decimal reaches mesh_send as that number. */
  lemma SendToDecimal(id: int, text: string, payloadSize: PayloadSize)
    ensures CmdSend(["send", Decimal(id), text], payloadSize).request.value.node == id
  {
    AtoiDecimal(id);
  }

  // ---------------------------------------------------------------------------
  // cmd_routes
  // ---------------------------------------------------------------------------

  /** One routing table entry as the engine reports it. */
  datatype Route = Route(dst: int, nextHop: int, numHops: int, score: int)

  /**
    `routes`: ask the engine for entries 0, 1, 2, ... in turn and list each
    one, stopping at the first index for which it has none. The engine must
    have such an index (its table is finite); without one the loop would not
    end.
   */
  method CmdRoutes(entry: nat -> Option<Route>) returns (status: int, listed: seq<Route>, queries: nat)
    requires exists k: nat :: entry(k).None?
    ensures status == 0
    ensures queries == |listed| + 1
    ensures forall j :: 0 <= j < |listed| ==> entry(j) == Some(listed[j])
    ensures entry(|listed|).None?
  {
    ghost var bound: nat :| entry(bound).None?;
    listed := [];
    queries := 0;
    var i := 0;
    while true
      invariant i == |listed| == queries
      invariant forall j :: 0 <= j < i ==> entry(j) == Some(listed[j])
      invariant i <= bound
      decreases bound - i
    {
      var route := entry(i);
      queries := queries + 1;
      if route.None? {
        break;
      }
      listed := listed + [route.value];
      i := i + 1;
    }
    status := 0;
  }

  /** The engine's view of a routing table with a fixed list of entries. */
  function TableEntry(routes: seq<Route>): (entry: nat -> Option<Route>)
    ensures forall i: nat :: entry(i).Some? <==> i < |routes|
    ensures forall i: nat :: i < |routes| ==> entry(i) == Some(routes[i])
  {
    (i: nat) => if i < |routes| then Some(routes[i]) else None
  }

  /** With K routes the command lists exactly those K, after K + 1 queries. */
  method RoutesOfTable(routes: seq<Route>) returns (listed: seq<Route>, queries: nat)
    ensures listed == routes
    ensures queries == |routes| + 1
  {
    var entry := TableEntry(routes);
    assert entry(|routes|).None?;
    var status;
    status, listed, queries := CmdRoutes(entry);
    if |listed| != |routes| {
      assert false;
    }
  }

  // ---------------------------------------------------------------------------
  // Driver callbacks
  // ---------------------------------------------------------------------------

  /** radio_init: there is nothing to set up; it reports success. */
  function StubInit(data: seq<bv8>, len: int): (r: int)
    ensures r == 1
  {
    1
  }

  /** A peer socket and the address it talks to. */
  datatype Peer = Peer(sock: int, addr: nat)

  /** A sendto request: socket, destination, buffer and byte count. */
  datatype Datagram = Datagram(sock: int, addr: nat, data: seq<bv8>, len: int)

  /**
    radio_send: the same frame goes to every peer, in peer order, one sendto
    each; what each sendto returns is ignored and the result is always 0.
   */
  method RadioSend(peers: seq<Peer>, data: seq<bv8>, len: int) returns (r: int, sent: seq<Datagram>)
    ensures r == 0
    ensures |sent| == |peers|
    ensures forall i :: 0 <= i < |peers| ==>
              sent[i] == Datagram(peers[i].sock, peers[i].addr, data, len)
  {
    sent := [];
    var i := 0;
    while i < |peers|
      invariant i <= |peers| && |sent| == i
      invariant forall j :: 0 <= j < i ==> sent[j] == Datagram(peers[j].sock, peers[j].addr, data, len)
    {
      sent := sent + [Datagram(peers[i].sock, peers[i].addr, data, len)];
      i := i + 1;
    }
    r := 0;
  }

  /** What a non-blocking recvfrom on the listening socket finds. */
  datatype Incoming =
    | Frame(bytes: seq<bv8>)   // a datagram, possibly empty
    | Nothing                  // no datagram waiting (EAGAIN)
    | Failure(errno: nat)      // any other socket error

  /** recvfrom's return value: the bytes copied (a datagram longer than the buffer is cut), or -1. */
  function RecvCount(incoming: Incoming, len: nat): (n: int)
    ensures n == -1 <==> !incoming.Frame?
    ensures incoming.Frame? ==> 0 <= n <= len && n <= |incoming.bytes|
    ensures incoming.Frame? && n < len ==> n == |incoming.bytes|
  {
    match incoming
    case Frame(bytes) => if |bytes| < len then |bytes| else len
    case Nothing => -1
    case Failure(_) => -1
  }

  /**
    radio_recv: 1 when recvfrom delivered at least one byte into the buffer,
    0 when it found nothing, failed or read an empty datagram. The buffer
    gets the datagram's leading bytes and is otherwise unchanged.
   */
  function RadioRecv(buf: seq<bv8>, len: nat, incoming: Incoming): (r: (int, seq<bv8>))
    requires len <= |buf|
    ensures r.0 == 1 <==> incoming.Frame? && |incoming.bytes| > 0 && len > 0
    ensures r.0 == 0 || r.0 == 1
    ensures |r.1| == |buf|
    ensures !incoming.Frame? ==> r.1 == buf
    ensures incoming.Frame? ==>
              var n := if |incoming.bytes| < len then |incoming.bytes| else len;
              r.1[..n] == incoming.bytes[..n] && r.1[n..] == buf[n..]
  {
    var n := RecvCount(incoming, len);
    var buf' := if n > 0 then incoming.bytes[..n] + buf[n..] else buf;
    (if n > 0 then 1 else 0, buf')
  }

  /**
    get_timer: when the caller's slot is exactly a uint32_t wide it receives
    the millisecond clock, wrapped to 32 bits, and the result is 1; any other
    width gets 0 and the slot is left alone.
   */
  function GetTimer(slot: nat, len: int, nowMs: int): (r: (int, nat))
    ensures r.0 == 1 <==> len == TIMER_WIDTH
    ensures r.0 == 0 || r.0 == 1
    ensures r.0 == 1 ==> r.1 < TWO_TO_32 && (r.1 - nowMs) % TWO_TO_32 == 0
    ensures r.0 == 0 ==> r.1 == slot
  {
    if len == TIMER_WIDTH then (1, nowMs % TWO_TO_32) else (0, slot)
  }

  /** The fields of a received packet that app_recv looks at. */
  datatype Packet = Packet(kind: PktType, hopCount: int, hopCountMax: int, src: int, dst: int, data: seq<char>)

  /** A mesh_send_ack request: the reply bytes, their length and the packet replied to. */
  datatype AckCall = AckCall(data: seq<char>, len: nat, inReplyTo: Packet)

  /**
    app_recv: application packets and nacks are answered with "ACK" (four
    bytes with its terminator) when the engine says an ack is required;
    plain acks and other types are only logged. The result is always 1.
   */
  function AppRecv(p: Packet, ackRequired: Packet -> bool): (r: (int, Option<AckCall>))
    ensures r.0 == 1
    ensures r.1.Some? <==> (p.kind == AckApp || p.kind == Nack) && ackRequired(p)
    ensures r.1.Some? ==>
              r.1.value.inReplyTo == p && r.1.value.len == |r.1.value.data| == 4
              && CString(r.1.value.data) == ACK_TEXT
  {
    var reply := ACK_TEXT + [NUL];
    CStringOfTerminated(reply, 0, |ACK_TEXT|);
    assert reply[0..] == reply;
    var ack := AckCall(reply, |reply|, p);
    match p.kind
    case AckApp => (1, if ackRequired(p) then Some(ack) else None)
    case Nack => (1, if ackRequired(p) then Some(ack) else None)
    case Ack => (1, None)
    case Other(_) => (1, None)
  }

  // ---------------------------------------------------------------------------
  // The command table
  // ---------------------------------------------------------------------------

  /** What the console commands change in the program: the sends requested so far. */
  datatype Node = Node(payloadSize: PayloadSize, requests: seq<SendCall>)

  function SendHandler(n: Node, argc: nat, argv: seq<string>): (Node, int) {
    var o := CmdSend(argv, n.payloadSize);
    (if o.request.Some? then n.(requests := n.requests + [o.request.value]) else n, o.status)
  }

  /** The program's command table: send, stats and routes (the last two only print). */
  function Commands(): (table: seq<Console.Entry<Node>>)
    ensures |table| == 3
    ensures table[0].name == "send" && table[1].name == "stats" && table[2].name == "routes"
  {
    [ Console.Entry("send", SendHandler),
      Console.Entry("stats", (n: Node, argc: nat, argv: seq<string>) => (n, 0)),
      Console.Entry("routes", (n: Node, argc: nat, argv: seq<string>) => (n, 0)) ]
  }

  /** The words `send`, `<id>`, `<text>`, dispatched, queue exactly one mesh_send to node id. */
  lemma SendLine(n: Node, id: int, text: string)
    ensures var o := Console.Dispatch(n, ["send", Decimal(id), text], Commands());
            o.called == Some(0) && o.status == 0
            && |o.state.requests| == |n.requests| + 1
            && o.state.requests[..|n.requests|] == n.requests
            && o.state.requests[|n.requests|].node == id
  {
    var args := ["send", Decimal(id), text];
    assert args[0] == "send";
    SendToDecimal(id, text, n.payloadSize);
    assert (n.requests + [CmdSend(args, n.payloadSize).request.value])[..|n.requests|] == n.requests;
  }

  /** `send` with a missing argument fails with -1 and queues nothing. */
  lemma SendUsage(n: Node, args: seq<string>)
    requires 1 <= |args| < 3 && args[0] == "send"
    ensures var o := Console.Dispatch(n, args, Commands());
            o.called == Some(0) && o.status == -1 && o.state == n
  {
  }
}
