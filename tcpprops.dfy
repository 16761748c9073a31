/**
 * Properties of the receive loop of lcmbsTcpClientThread: reads stay inside
 * their buffers, the MBAP header is read big-endian, a timeout or a foreign
 * protocol id resynchronises, the engine runs once per complete frame, the
 * response header goes out big-endian, and the requests the engine sees are
 * the frames of the byte stream however read splits it.
 */
module TcpProps {
  import opened Bytes
  import opened Topology
  import opened ProtSpec
  import opened TcpSpec
  import Vect

  // ---------------------------------------------------------------------
  // One pass
  // ---------------------------------------------------------------------

  /**
   * Every read stays inside its buffer: a header read ends at most at
   * byte 6 of header[], a payload read at most at the frame's length,
   * which rcvbuf has room for.
   */
  lemma ReadFitsBuffer(sl: Slave, c: Conn)
    requires Inv(sl, c) && c.open
    ensures c.headerPos < HEADER_LEN ==> c.headerPos + Requested(c) == HEADER_LEN
    ensures c.headerPos == HEADER_LEN ==> |c.rcvd| + Requested(c) == c.len <= c.rcvSize
    ensures c.headerPos <= HEADER_LEN
  {
  }

  /** A timeout drops a partial frame: the next byte starts a new header, and nothing else changes. */
  lemma TimeoutDiscards(sl: Slave, c: Conn)
    requires Inv(sl, c) && c.open
    ensures Next(sl, c, SelectTimeout).open && Pending(Next(sl, c, SelectTimeout)) == []
    ensures Next(sl, c, SelectTimeout).served == c.served && Next(sl, c, SelectTimeout).sent == c.sent
    ensures Next(sl, c, SelectTimeout).st == c.st
  {
  }

  /** select failing, the exit flag, and a read returning no bytes end the loop; the engine is not called. */
  lemma LoopEnds(sl: Slave, c: Conn, ev: Event)
    requires Inv(sl, c) && c.open
    requires ev.SelectFailed? || ev.ExitRequested? || (ev.Received? && ev.chunk == [])
    ensures !Next(sl, c, ev).open
    ensures Next(sl, c, ev).served == c.served && Next(sl, c, ev).sent == c.sent && Next(sl, c, ev).st == c.st
  {
  }

  /** A pass in which select finds no data changes nothing. */
  lemma NotReadableKeeps(sl: Slave, c: Conn)
    requires Inv(sl, c) && c.open
    ensures Next(sl, c, NotReadable) == c
  {
  }

  /** The header bytes once all six have arrived: what was pending followed by the chunk. */
  lemma CompletedHeader(c: Conn, chunk: seq<bv8>)
    requires Framing(c) && c.headerPos < HEADER_LEN && 0 < |chunk| <= HEADER_LEN - c.headerPos
    ensures c.headerPos + |chunk| < HEADER_LEN ==> HeaderChunk(c, chunk).header[..HeaderChunk(c, chunk).headerPos] == Pending(c) + chunk
    ensures c.headerPos + |chunk| == HEADER_LEN ==>
      c.header[..c.headerPos] + chunk + c.header[c.headerPos + |chunk|..] == Pending(c) + chunk
  {
    var h := c.header[..c.headerPos] + chunk + c.header[c.headerPos + |chunk|..];
    if c.headerPos + |chunk| < HEADER_LEN {
      assert h[..c.headerPos + |chunk|] == c.header[..c.headerPos] + chunk;
    } else {
      assert c.header[c.headerPos + |chunk|..] == [];
    }
  }

  /**
   * A completed header is decoded big-endian: the transaction id from
   * bytes 0-1, the protocol id from bytes 2-3 and the length from bytes
   * 4-5 of what arrived.
   */
  lemma HeaderDecoded(c: Conn, chunk: seq<bv8>)
    requires Framing(c) && c.headerPos < HEADER_LEN && 0 < |chunk| == HEADER_LEN - c.headerPos
    ensures var h := Pending(c) + chunk;
      |h| == HEADER_LEN &&
      HeaderChunk(c, chunk) == HeaderDone(c, h, BE16Value(h[0], h[1]), BE16Value(h[2], h[3]), Field(h[4], h[5]))
  {
    CompletedHeader(c, chunk);
    var h := Pending(c) + chunk;
    LoadNtohsIsField(h, 0);
    LoadNtohsIsField(h, 2);
    LoadNtohsIsField(h, 4);
  }

  /**
   * With a protocol id other than 0 the header is dropped and the
   * connection stays open; with 0, rcvbuf is made to hold the length and
   * emptied, and the loop ends only if it is still unallocated.
   */
  lemma HeaderOutcome(c: Conn, h: seq<bv8>, tid: bv16, prot: bv16, len: nat)
    requires |h| == HEADER_LEN && c.rcvd == [] && len < 0x1_0000
    ensures var d := HeaderDone(c, h, tid, prot, len);
      d.served == c.served && d.st == c.st && d.sent == c.sent && d.tid == tid && d.len == len && d.header == h &&
      (prot != 0 ==> d.open == c.open && d.headerPos == 0 && d.rcvd == []) &&
      (prot == 0 ==> d.headerPos == HEADER_LEN && d.rcvd == [] && len <= d.rcvSize &&
                     (d.open <==> c.open && d.rcvSize > 0) && (d.rcvSize == 0 <==> c.rcvSize == 0 && len == 0))
  {
    if prot == 0 && len > c.rcvSize {
      assert Vect.RoundUp(len) >= len by { Vect.RoundUpIsLeastBlockMultiple(len); }
    }
  }

  /**
   * A length of 0 never reaches the engine: on a fresh rcvbuf the
   * allocation fails and the loop ends at once; otherwise the next read
   * asks for no bytes, gets none, and the loop ends.
   */
  lemma ZeroLengthFrameCloses(sl: Slave, c: Conn, ev: Event)
    requires Inv(sl, c) && c.open && c.headerPos == HEADER_LEN && c.len == 0
    requires ev.Received? ==> |ev.chunk| <= Requested(c)
    ensures ev.Received? ==> !Next(sl, c, ev).open && Next(sl, c, ev).served == c.served
  {
  }

  /**
   * The engine runs exactly when a pass completes the payload: it gets
   * the whole payload, whose length is the header's, and after a frame
   * that leaves the loop running, header and rcvbuf start afresh.
   */
  lemma EngineSeesWholeFrames(sl: Slave, c: Conn, chunk: seq<bv8>, hs: int, ps: int)
    requires Inv(sl, c) && c.open && 0 < |chunk| <= Requested(c)
    ensures var c' := Next(sl, c, Received(chunk, hs, ps));
      (|c'.served| > |c.served| <==> c.headerPos == HEADER_LEN && |chunk| == Requested(c)) &&
      (|c'.served| > |c.served| ==>
        c'.served == c.served + [Request(c.tid, c.rcvd + chunk)] && |c.rcvd + chunk| == HeaderLength(c.header) &&
        (c'.open ==> c'.headerPos == 0 && c'.rcvd == [])) &&
      (|c'.served| <= |c.served| ==> c'.served == c.served && c'.st == c.st && c'.sent == c.sent)
  {
    if c.headerPos < HEADER_LEN {
      HeaderChunkKeepsFraming(c, chunk);
    }
  }

  /** What goes to send for the response r: the header [tid, 0, 0, n] in network order and the PDU, with n the response length cut to 16 bits. */
  lemma ResponseOnWire(c: Conn, rcvd: seq<bv8>, r: Served, hs: int, ps: int)
    requires c.open && r.Served?
    ensures var n, sent := |r.pdu| % 0x1_0000, Respond(c, rcvd, r, hs, ps).sent;
      (n == 0 ==> sent == c.sent && Respond(c, rcvd, r, hs, ps).open) &&
      (n != 0 ==> sent == c.sent + [BE16(c.tid) + [0, 0] + BE16(n as bv16)] + (if hs == HEADER_LEN then [r.pdu] else [])) &&
      (Respond(c, rcvd, r, hs, ps).open <==> n == 0 || (hs == HEADER_LEN && ps == n))
  {
    var n := |r.pdu| % 0x1_0000;
    StoreHtons(c.tid);
    StoreHtons(n as bv16);
    assert c.sent + [ResponseHeader(c.tid, n)] + [r.pdu] == c.sent + [ResponseHeader(c.tid, n), r.pdu];
  }

  /** A frame whose payload is one byte gets no response: the engine returns 0 and the loop carries on. */
  lemma OneBytePayloadUnanswered(sl: Slave, c: Conn, rcvd: seq<bv8>, hs: int, ps: int)
    requires SlaveOk(sl, c.st) && c.open && |rcvd| == 1
    ensures Respond(c, rcvd, Proc(sl, rcvd, c.st), hs, ps).sent == c.sent
    ensures Respond(c, rcvd, Proc(sl, rcvd, c.st), hs, ps).open
    ensures Respond(c, rcvd, Proc(sl, rcvd, c.st), hs, ps).st == c.st
  {
  }

  // ---------------------------------------------------------------------
  // The byte stream
  // ---------------------------------------------------------------------

  /**
   * The requests a byte stream carries, reading it the way the loop does:
   * a header with a protocol id other than 0 is skipped alone (its payload
   * is read as the next header), and the stream ends at a frame of length
   * 0 or one that is not complete.
   */
  function Frames(s: seq<bv8>): seq<Request>
    decreases |s|
  {
    if |s| < HEADER_LEN then []
    else if HeaderField(s, 2) != 0 then Frames(s[HEADER_LEN..])
    else
      var len := Field(s[4], s[5]);
      if len == 0 || |s| < HEADER_LEN + len then []
      else [Request(HeaderField(s, 0), s[HEADER_LEN..HEADER_LEN + len])] + Frames(s[HEADER_LEN + len..])
  }

  /** A foreign header followed by t carries the frames of t. */
  lemma FramesSkip(h: seq<bv8>, t: seq<bv8>)
    requires |h| == HEADER_LEN && HeaderField(h, 2) != 0
    ensures Frames(h + t) == Frames(t)
  {
    var s := h + t;
    assert s[2] == h[2] && s[3] == h[3];
    assert s[HEADER_LEN..] == t;
  }

  /** A header for payload p followed by p and t carries the request p, then the frames of t. */
  lemma FramesTake(h: seq<bv8>, p: seq<bv8>, t: seq<bv8>)
    requires |h| == HEADER_LEN && HeaderField(h, 2) == 0 && HeaderLength(h) == |p| > 0
    ensures Frames(h + p + t) == [Request(HeaderField(h, 0), p)] + Frames(t)
  {
    var s := h + p + t;
    assert s[0] == h[0] && s[1] == h[1] && s[2] == h[2] && s[3] == h[3] && s[4] == h[4] && s[5] == h[5];
    assert s[HEADER_LEN..HEADER_LEN + |p|] == p;
    assert s[HEADER_LEN + |p|..] == t;
  }

  /** What is pending of an open connection is never a whole frame. */
  lemma PendingIncomplete(c: Conn)
    requires Framing(c)
    ensures Frames(Pending(c)) == []
  {
    if c.headerPos == HEADER_LEN {
      var s := Pending(c);
      assert s[2] == c.header[2] && s[3] == c.header[3] && s[4] == c.header[4] && s[5] == c.header[5];
    }
  }

  /**
   * One pass of the loop that reads a chunk and keeps running moves bytes
   * from the stream to what is pending, or a complete frame from what is
   * pending to the requests served: the frames of the rest stay the same.
   */
  lemma StepFrames(sl: Slave, c: Conn, ev: Event, t: seq<bv8>)
    requires Inv(sl, c) && c.open && ev.Received? && 0 < |ev.chunk| <= Requested(c)
    requires Next(sl, c, ev).open
    ensures c.served + Frames(Pending(c) + ev.chunk + t) == Next(sl, c, ev).served + Frames(Pending(Next(sl, c, ev)) + t)
  {
    if c.headerPos < HEADER_LEN {
      HeaderChunkKeepsFraming(c, ev.chunk);
      HeaderStepFrames(c, ev.chunk, t);
    } else {
      PayloadStepFrames(sl, c, ev.chunk, ev.headerSent, ev.payloadSent, t);
    }
  }

  lemma HeaderStepFrames(c: Conn, chunk: seq<bv8>, t: seq<bv8>)
    requires Framing(c) && c.headerPos < HEADER_LEN && 0 < |chunk| <= HEADER_LEN - c.headerPos
    requires |HeaderChunk(c, chunk).header| == HEADER_LEN && HeaderChunk(c, chunk).headerPos <= HEADER_LEN
    requires HeaderChunk(c, chunk).open
    ensures c.served + Frames(Pending(c) + chunk + t) == HeaderChunk(c, chunk).served + Frames(Pending(HeaderChunk(c, chunk)) + t)
  {
    CompletedHeader(c, chunk);
    if c.headerPos + |chunk| == HEADER_LEN {
      var h := Pending(c) + chunk;
      HeaderDecoded(c, chunk);
      HeaderOutcome(c, h, BE16Value(h[0], h[1]), BE16Value(h[2], h[3]), Field(h[4], h[5]));
      HeaderFrames(c, h, HeaderChunk(c, chunk), t);
    }
  }

  lemma HeaderFrames(c: Conn, h: seq<bv8>, d: Conn, t: seq<bv8>)
    requires |h| == HEADER_LEN && |d.header| == HEADER_LEN && d.served == c.served
    requires HeaderField(h, 2) != 0 ==> d.headerPos == 0
    requires HeaderField(h, 2) == 0 ==> d.headerPos == HEADER_LEN && d.header == h && d.rcvd == []
    ensures c.served + Frames(h + t) == d.served + Frames(Pending(d) + t)
  {
    if HeaderField(h, 2) != 0 {
      FramesSkip(h, t);
      assert Pending(d) + t == t;
    } else {
      assert Pending(d) == h;
    }
  }

  lemma PayloadStepFrames(sl: Slave, c: Conn, chunk: seq<bv8>, hs: int, ps: int, t: seq<bv8>)
    requires Inv(sl, c) && Framing(c) && c.headerPos == HEADER_LEN && 0 < |chunk| <= c.len - |c.rcvd|
    requires PayloadChunk(sl, c, chunk, hs, ps).open
    ensures c.served + Frames(Pending(c) + chunk + t) ==
      PayloadChunk(sl, c, chunk, hs, ps).served + Frames(Pending(PayloadChunk(sl, c, chunk, hs, ps)) + t)
  {
    var p := c.rcvd + chunk;
    assert Pending(c) + chunk + t == c.header + p + t;
    if |p| < c.len {
      assert Pending(PayloadChunk(sl, c, chunk, hs, ps)) + t == c.header + p + t;
    } else {
      RespondFrames(c, p, Proc(sl, p, c.st), hs, ps, t);
    }
  }

  lemma RespondFrames(c: Conn, p: seq<bv8>, r: Served, hs: int, ps: int, t: seq<bv8>)
    requires Framing(c) && c.headerPos == HEADER_LEN && |p| == c.len > 0
    requires |Respond(c, p, r, hs, ps).header| == HEADER_LEN && Respond(c, p, r, hs, ps).open
    ensures c.served + Frames(c.header + p + t) == Respond(c, p, r, hs, ps).served + Frames(Pending(Respond(c, p, r, hs, ps)) + t)
  {
    RespondFraming(c, p, r, hs, ps);
    FrameFrames(c, p, Respond(c, p, r, hs, ps), t);
  }

  lemma FrameFrames(c: Conn, p: seq<bv8>, d: Conn, t: seq<bv8>)
    requires Framing(c) && c.headerPos == HEADER_LEN && |p| == c.len > 0
    requires |d.header| == HEADER_LEN && d.headerPos == 0 && d.served == c.served + [Request(c.tid, p)]
    ensures c.served + Frames(c.header + p + t) == d.served + Frames(Pending(d) + t)
  {
    FramesTake(c.header, p, t);
    assert Pending(d) + t == t;
  }

  /** The loop only ever reads bytes and waits (a read of no bytes would end it). */
  predicate DataOnly(evs: seq<Event>) {
    forall k | 0 <= k < |evs| :: (evs[k].Received? && evs[k].chunk != []) || evs[k].NotReadable?
  }

  /** The bytes read returns over a run, in order, followed by t. */
  function Arrivals(evs: seq<Event>, t: seq<bv8>): seq<bv8>
    decreases |evs|
  {
    if evs == [] then t else (if evs[0].Received? then evs[0].chunk else []) + Arrivals(evs[1..], t)
  }

  /** Run takes its first step through Next while the connection is open. */
  lemma RunCons(sl: Slave, c: Conn, evs: seq<Event>)
    requires Inv(sl, c) && Admissible(sl, c, evs) && evs != [] && c.open
    ensures evs[0].Received? ==> |evs[0].chunk| <= Requested(c)
    ensures Inv(sl, Next(sl, c, evs[0])) && Admissible(sl, Next(sl, c, evs[0]), evs[1..])
    ensures Run(sl, c, evs) == Run(sl, Next(sl, c, evs[0]), evs[1..])
  {
    NextKeepsInv(sl, c, evs[0]);
  }

  /** A run that ends open passed only through open states. */
  lemma RunOpen(sl: Slave, c: Conn, evs: seq<Event>)
    requires Inv(sl, c) && Admissible(sl, c, evs) && Run(sl, c, evs).open
    ensures c.open
  {
  }

  /**
   * Over a run of reads that keeps the connection open, what is served
   * plus the frames of what is pending and still to come does not change.
   */
  lemma {:induction false} RunFrames(sl: Slave, c: Conn, evs: seq<Event>, t: seq<bv8>)
    requires Inv(sl, c) && Admissible(sl, c, evs) && DataOnly(evs) && Run(sl, c, evs).open
    decreases |evs|
    ensures c.served + Frames(Pending(c) + Arrivals(evs, t)) == Run(sl, c, evs).served + Frames(Pending(Run(sl, c, evs)) + t)
  {
    if evs != [] {
      RunOpen(sl, c, evs);
      RunCons(sl, c, evs);
      var c' := Next(sl, c, evs[0]);
      RunOpen(sl, c', evs[1..]);
      ArrivalsCons(evs, t);
      if evs[0].Received? {
        ReadAccount(sl, c, evs[0], Arrivals(evs, t), Arrivals(evs[1..], t));
      } else {
        NotReadableKeeps(sl, c);
      }
      DataOnlyTail(evs);
      RunFrames(sl, c', evs[1..], t);
    }
  }

  /** A read moves the frames its chunk completes from the stream s, which continues as u, to served. */
  lemma ReadAccount(sl: Slave, c: Conn, ev: Event, s: seq<bv8>, u: seq<bv8>)
    requires Inv(sl, c) && c.open && ev.Received? && 0 < |ev.chunk| <= Requested(c) && s == ev.chunk + u
    requires Next(sl, c, ev).open
    ensures c.served + Frames(Pending(c) + s) == Next(sl, c, ev).served + Frames(Pending(Next(sl, c, ev)) + u)
  {
    StepFrames(sl, c, ev, u);
    ChunkAccount(c, Next(sl, c, ev), ev.chunk, s, u);
  }

  lemma ArrivalsCons(evs: seq<Event>, t: seq<bv8>)
    requires evs != []
    ensures evs[0].Received? ==> Arrivals(evs, t) == evs[0].chunk + Arrivals(evs[1..], t)
    ensures !evs[0].Received? ==> Arrivals(evs, t) == Arrivals(evs[1..], t)
  {
  }

  lemma ChunkAccount(c: Conn, c': Conn, chunk: seq<bv8>, s: seq<bv8>, u: seq<bv8>)
    requires Shaped(c) && Shaped(c') && s == chunk + u
    requires c.served + Frames(Pending(c) + chunk + u) == c'.served + Frames(Pending(c') + u)
    ensures c.served + Frames(Pending(c) + s) == c'.served + Frames(Pending(c') + u)
  {
    assert Pending(c) + s == Pending(c) + chunk + u;
  }

  /** The header array and the count of its bytes read are in range. */
  predicate Shaped(c: Conn) {
    |c.header| == HEADER_LEN && c.headerPos <= HEADER_LEN
  }

  lemma DataOnlyTail(evs: seq<Event>)
    requires evs != [] && DataOnly(evs)
    ensures DataOnly(evs[1..])
  {
    forall k | 0 <= k < |evs[1..]| ensures (evs[1..][k].Received? && evs[1..][k].chunk != []) || evs[1..][k].NotReadable? {
      assert evs[1..][k] == evs[k + 1];
    }
  }

  /**
   * The requests the engine is handed on a connection that keeps running
   * are exactly the frames of the bytes received, however read cut them
   * into chunks.
   */
  lemma ServedAreFrames(sl: Slave, c: Conn, evs: seq<Event>)
    requires Inv(sl, c) && c.open && c.headerPos == 0 && c.served == []
    requires Admissible(sl, c, evs) && DataOnly(evs) && Run(sl, c, evs).open
    ensures Run(sl, c, evs).served == Frames(Arrivals(evs, []))
  {
    RunFrames(sl, c, evs, []);
    var r := Run(sl, c, evs);
    FreshAccount(c, r, Arrivals(evs, []));
  }

  lemma FreshAccount(c: Conn, r: Conn, s: seq<bv8>)
    requires |c.header| == HEADER_LEN && c.headerPos == 0 && c.served == [] && Framing(r)
    requires c.served + Frames(Pending(c) + s) == r.served + Frames(Pending(r) + [])
    ensures r.served == Frames(s)
  {
    assert Pending(c) == [];
    assert Pending(c) + s == s;
    assert Pending(r) + [] == Pending(r);
    PendingIncomplete(r);
    assert r.served + [] == r.served;
    assert c.served + Frames(s) == Frames(s);
  }

}
