/**
 * The receive loop of lcmbsTcpClientThread (mbslave_tcp.c) as a function on
 * the state of one connection: what each pass of the loop does with the
 * outcome of select, read and send, which are the events here.
 */
module TcpSpec {
  import opened Bytes
  import opened Topology
  import opened ProtSpec
  import opened Vect
  import ProcProps

  /** The MBAP header: transaction id, protocol id and length, two bytes each. */
  const HEADER_LEN: nat := 6

  /**
   * What one pass of the loop meets. Received carries the bytes read
   * returned (none when it returned 0 or an error) and, for the pass
   * that completes a frame, the values the two calls of send return.
   */
  datatype Event =
    | SelectFailed
    | SelectTimeout
    | ExitRequested
    | NotReadable
    | Received(chunk: seq<bv8>, headerSent: int, payloadSent: int)

  /** A request PDU handed to the engine, with the transaction id of its frame. */
  datatype Request = Request(tid: bv16, pdu: seq<bv8>)

  /**
   * The state of a connection: the header buffer and how much of it is
   * filled, the decoded transaction id and length, the allocated size and
   * the received bytes of rcvbuf, the buffers handed to send, the HAL
   * cells, whether the loop still runs, whether the engine crashed, and
   * the requests handed to the engine so far.
   */
  datatype Conn = Conn(
    header: seq<bv8>,
    headerPos: nat,
    tid: bv16,
    len: nat,
    rcvSize: nat,
    rcvd: seq<bv8>,
    sent: seq<seq<bv8>>,
    st: Store,
    open: bool,
    crashed: bool,
    served: seq<Request>)

  /** A fresh connection: nothing received, both buffers unallocated. */
  function Fresh(header: seq<bv8>, tid: bv16, len: nat, st: Store): (c: Conn)
    requires |header| == HEADER_LEN && len < 0x1_0000
    ensures c.open && c.headerPos == 0 && c.rcvd == [] && c.served == [] && c.sent == []
  {
    Conn(header, 0, tid, len, 0, [], [], st, true, false, [])
  }

  /** The big-endian value of the two bytes at i of the header. */
  function HeaderField(h: seq<bv8>, i: nat): bv16
    requires i + 1 < |h|
  {
    BE16Value(h[i], h[i + 1])
  }

  /** The length field of the header as a number. */
  function HeaderLength(h: seq<bv8>): nat
    requires |h| == HEADER_LEN
  {
    Field(h[4], h[5])
  }

  /**
   * What an open connection keeps between passes: a partial header has no
   * payload yet; a full header carries protocol id 0, its fields are the
   * decoded ones, rcvbuf is allocated and holds it, and fewer bytes than
   * the length have arrived unless the length is 0.
   */
  predicate Framing(c: Conn) {
    |c.header| == HEADER_LEN && c.headerPos <= HEADER_LEN &&
    (c.headerPos < HEADER_LEN ==> c.rcvd == []) &&
    (c.headerPos == HEADER_LEN ==>
      0 < c.rcvSize && |c.rcvd| <= c.len <= c.rcvSize &&
      (|c.rcvd| == c.len ==> c.len == 0) &&
      c.tid == HeaderField(c.header, 0) && HeaderField(c.header, 2) == 0 && c.len == HeaderLength(c.header))
  }

  predicate Inv(sl: Slave, c: Conn) {
    SlaveOk(sl, c.st) && |c.header| == HEADER_LEN && c.headerPos <= HEADER_LEN && c.len < 0x1_0000 && (c.open ==> Framing(c))
  }

  /** The bytes of the frame being received: the header bytes so far, then the payload bytes so far. */
  function Pending(c: Conn): seq<bv8>
    requires |c.header| == HEADER_LEN && c.headerPos <= HEADER_LEN
  {
    if c.headerPos < HEADER_LEN then c.header[..c.headerPos] else c.header + c.rcvd
  }

  /** The byte count the next read asks for: the rest of the header, or the rest of the payload. */
  function Requested(c: Conn): nat
    requires Framing(c)
  {
    if c.headerPos < HEADER_LEN then HEADER_LEN - c.headerPos else c.len - |c.rcvd|
  }

  /** ntohs of the 16-bit word stored at i of the header. */
  function LoadNtohs(h: seq<bv8>, i: nat): bv16
    requires i + 1 < |h|
  {
    Bswap16(LoadLE16(h[i], h[i + 1]))
  }

  /** The bytes of the 16-bit word htons(w) in memory. */
  function HtonsBytes(w: bv16): (r: seq<bv8>)
    ensures |r| == 2
  {
    LE16(Bswap16(w))
  }

  /** The MBAP header the loop writes over its header buffer for a response of n bytes. */
  function ResponseHeader(tid: bv16, n: nat): (r: seq<bv8>)
    requires n < 0x1_0000
    ensures |r| == HEADER_LEN
  {
    HtonsBytes(tid) + [0, 0] + HtonsBytes(n as bv16)
  }

  /** One pass of the loop on an open connection. */
  function Next(sl: Slave, c: Conn, ev: Event): (r: Conn)
    requires Inv(sl, c) && c.open
    requires ev.Received? ==> |ev.chunk| <= Requested(c)
    ensures |r.header| == HEADER_LEN && r.headerPos <= HEADER_LEN
  {
    match ev
    case SelectFailed => c.(open := false)
    case SelectTimeout => c.(headerPos := 0, rcvd := [])
    case ExitRequested => c.(open := false)
    case NotReadable => c
    case Received(chunk, hs, ps) =>
      if |chunk| == 0 then c.(open := false)
      else if c.headerPos < HEADER_LEN then HeaderChunk(c, chunk)
      else PayloadChunk(sl, c, chunk, hs, ps)
  }

  /** A pass that reads header bytes into the header buffer at headerPos. */
  function HeaderChunk(c: Conn, chunk: seq<bv8>): (r: Conn)
    requires Framing(c) && c.headerPos < HEADER_LEN && 0 < |chunk| <= HEADER_LEN - c.headerPos
    ensures |r.header| == HEADER_LEN && r.headerPos <= HEADER_LEN
  {
    var h := c.header[..c.headerPos] + chunk + c.header[c.headerPos + |chunk|..];
    var pos := c.headerPos + |chunk|;
    if pos < HEADER_LEN then c.(header := h, headerPos := pos)
    else HeaderDone(c, h, LoadNtohs(h, 0), LoadNtohs(h, 2), LoadNtohs(h, 4) as int)
  }

  /** A completed header h with its decoded fields: drop it for a non-zero protocol id, else make room for the payload. */
  function HeaderDone(c: Conn, h: seq<bv8>, tid: bv16, prot: bv16, len: nat): (r: Conn)
    requires |h| == HEADER_LEN && c.rcvd == [] && len < 0x1_0000
    ensures |r.header| == HEADER_LEN && r.headerPos <= HEADER_LEN
  {
    if prot != 0 then c.(header := h, headerPos := 0, tid := tid, len := len)
    else
      var size := if c.rcvSize >= len then c.rcvSize else RoundUp(len);
      if size == 0 then c.(header := h, headerPos := HEADER_LEN, tid := tid, len := len, rcvSize := size, open := false)
      else c.(header := h, headerPos := HEADER_LEN, tid := tid, len := len, rcvSize := size, rcvd := [])
  }

  /** A pass that reads payload bytes: once the frame is complete, run the engine and send its response. */
  function PayloadChunk(sl: Slave, c: Conn, chunk: seq<bv8>, hs: int, ps: int): (r: Conn)
    requires Inv(sl, c) && Framing(c) && c.headerPos == HEADER_LEN && 0 < |chunk| <= c.len - |c.rcvd|
    ensures |r.header| == HEADER_LEN && r.headerPos <= HEADER_LEN
  {
    var rcvd := c.rcvd + chunk;
    if |rcvd| < c.len then c.(rcvd := rcvd)
    else Respond(c, rcvd, Proc(sl, rcvd, c.st), hs, ps)
  }

  /**
   * What the loop does with the engine's outcome r for the complete request
   * rcvd: the response length is stored back into the 16-bit len, nothing
   * is sent when it is 0, and a send that falls short ends the loop.
   */
  function Respond(c: Conn, rcvd: seq<bv8>, r: Served, hs: int, ps: int): (d: Conn)
    ensures |c.header| == HEADER_LEN && c.headerPos <= HEADER_LEN ==> |d.header| == HEADER_LEN && d.headerPos <= HEADER_LEN
  {
    var served := c.served + [Request(c.tid, rcvd)];
    match r
    case Crashed => c.(rcvd := rcvd, served := served, open := false, crashed := true)
    case Served(pdu, st) =>
      var n := |pdu| % 0x1_0000;
      if n == 0 then c.(rcvd := [], headerPos := 0, len := n, st := st, served := served)
      else
        var hdr := ResponseHeader(c.tid, n);
        if hs != HEADER_LEN then
          c.(rcvd := rcvd, len := n, st := st, served := served, header := hdr, sent := c.sent + [hdr], open := false)
        else if ps != n then
          c.(rcvd := rcvd, len := n, st := st, served := served, header := hdr, sent := c.sent + [hdr, pdu], open := false)
        else
          c.(rcvd := [], headerPos := 0, len := n, st := st, served := served, header := hdr, sent := c.sent + [hdr, pdu])
  }

  /** ntohs of a stored word is the big-endian value of its bytes. */
  lemma LoadNtohsIsField(h: seq<bv8>, i: nat)
    requires i + 1 < |h|
    ensures LoadNtohs(h, i) == HeaderField(h, i)
  {
    NtohsLoad(h[i], h[i + 1]);
  }

  /** Every pass keeps the invariant of the loop. */
  lemma NextKeepsInv(sl: Slave, c: Conn, ev: Event)
    requires Inv(sl, c) && c.open
    requires ev.Received? ==> |ev.chunk| <= Requested(c)
    ensures Inv(sl, Next(sl, c, ev))
  {
    if ev.Received? && |ev.chunk| > 0 {
      if c.headerPos < HEADER_LEN {
        HeaderChunkKeepsFraming(c, ev.chunk);
      } else {
        PayloadChunkKeepsInv(sl, c, ev.chunk, ev.headerSent, ev.payloadSent);
      }
    }
  }

  lemma HeaderChunkKeepsFraming(c: Conn, chunk: seq<bv8>)
    requires Framing(c) && c.len < 0x1_0000 && c.headerPos < HEADER_LEN && 0 < |chunk| <= HEADER_LEN - c.headerPos
    ensures |HeaderChunk(c, chunk).header| == HEADER_LEN && HeaderChunk(c, chunk).headerPos <= HEADER_LEN
    ensures HeaderChunk(c, chunk).st == c.st && HeaderChunk(c, chunk).len < 0x1_0000
    ensures HeaderChunk(c, chunk).open ==> Framing(HeaderChunk(c, chunk))
  {
    var h := c.header[..c.headerPos] + chunk + c.header[c.headerPos + |chunk|..];
    if c.headerPos + |chunk| == HEADER_LEN {
      LoadNtohsIsField(h, 0);
      LoadNtohsIsField(h, 2);
      LoadNtohsIsField(h, 4);
      HeaderDoneFraming(c, h, LoadNtohs(h, 0), LoadNtohs(h, 2), LoadNtohs(h, 4) as int);
    }
  }

  lemma HeaderDoneFraming(c: Conn, h: seq<bv8>, tid: bv16, prot: bv16, len: nat)
    requires |h| == HEADER_LEN && c.rcvd == [] && len < 0x1_0000
    requires tid == HeaderField(h, 0) && prot == HeaderField(h, 2)
    requires len == HeaderLength(h)
    ensures |HeaderDone(c, h, tid, prot, len).header| == HEADER_LEN && HeaderDone(c, h, tid, prot, len).headerPos <= HEADER_LEN
    ensures HeaderDone(c, h, tid, prot, len).st == c.st && HeaderDone(c, h, tid, prot, len).len < 0x1_0000
    ensures HeaderDone(c, h, tid, prot, len).open && c.open ==> Framing(HeaderDone(c, h, tid, prot, len))
  {
    if prot == 0 && c.rcvSize < len {
      assert RoundUp(len) >= len by { RoundUpIsLeastBlockMultiple(len); }
    }
  }

  lemma PayloadChunkKeepsInv(sl: Slave, c: Conn, chunk: seq<bv8>, hs: int, ps: int)
    requires Inv(sl, c) && Framing(c) && c.headerPos == HEADER_LEN && 0 < |chunk| <= c.len - |c.rcvd|
    ensures Inv(sl, PayloadChunk(sl, c, chunk, hs, ps))
  {
    var rcvd := c.rcvd + chunk;
    if |rcvd| >= c.len {
      var r := Proc(sl, rcvd, c.st);
      if r.Served? {
        ProcProps.ProcKeepsSlaveOk(sl, rcvd, c.st);
      }
      RespondKeepsInv(sl, c, rcvd, r, hs, ps);
    }
  }

  lemma RespondKeepsInv(sl: Slave, c: Conn, rcvd: seq<bv8>, r: Served, hs: int, ps: int)
    requires Inv(sl, c) && (r.Served? ==> SlaveOk(sl, r.st))
    ensures Inv(sl, Respond(c, rcvd, r, hs, ps))
  {
    RespondFraming(c, rcvd, r, hs, ps);
  }

  lemma RespondFraming(c: Conn, rcvd: seq<bv8>, r: Served, hs: int, ps: int)
    requires |c.header| == HEADER_LEN && c.headerPos <= HEADER_LEN && c.len < 0x1_0000
    ensures Respond(c, rcvd, r, hs, ps).st == if r.Served? then r.st else c.st
    ensures |Respond(c, rcvd, r, hs, ps).header| == HEADER_LEN && Respond(c, rcvd, r, hs, ps).headerPos <= HEADER_LEN
    ensures Respond(c, rcvd, r, hs, ps).len < 0x1_0000
    ensures Respond(c, rcvd, r, hs, ps).open ==> Respond(c, rcvd, r, hs, ps).headerPos == 0 && Respond(c, rcvd, r, hs, ps).rcvd == []
    ensures Respond(c, rcvd, r, hs, ps).served == c.served + [Request(c.tid, rcvd)]
  {
  }

  /** The outcomes of read, send and the engine a run of passes may meet: read never returns more than it is asked for. */
  predicate Admissible(sl: Slave, c: Conn, evs: seq<Event>)
    requires Inv(sl, c)
    decreases |evs|
  {
    evs == [] || !c.open ||
    ((evs[0].Received? ==> |evs[0].chunk| <= Requested(c)) &&
     (NextKeepsInv(sl, c, evs[0]); Admissible(sl, Next(sl, c, evs[0]), evs[1..])))
  }

  /** The loop run over a sequence of events, until it breaks. */
  function Run(sl: Slave, c: Conn, evs: seq<Event>): (r: Conn)
    requires Inv(sl, c) && Admissible(sl, c, evs)
    decreases |evs|
    ensures Inv(sl, r)
  {
    if evs == [] || !c.open then c
    else
      NextKeepsInv(sl, c, evs[0]);
      Run(sl, Next(sl, c, evs[0]), evs[1..])
  }
}
