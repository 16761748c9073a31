/**
 * The receive loop of lcmbsTcpClientThread (mbslave_tcp.c) over the state
 * it keeps: the header array, rcvbuf and sndbuf, header_pos, tid and len.
 * select, read and send are outside the model; each pass of the loop is
 * handed what they returned as an Event, and each method is proved to do
 * what TcpSpec says of the abstract connection.
 */
module Tcp {
  import opened Bytes
  import opened Topology
  import opened ProtSpec
  import opened Vect
  import opened TcpSpec
  import TcpProps
  import Prot

  class Framer {
    const slave: Slave
    const cells: Cells
    const header: array<bv8>
    const rcvbuf: Vect
    const sndbuf: Vect
    var headerPos: nat
    var tid: bv16
    /** The uint16_t len of the loop: the frame length, then the response length. */
    var len: nat
    /** The loop is still running; false once it has broken out. */
    var open: bool
    /** The engine reached undefined behaviour; the model stops there. */
    var crashed: bool
    /** The buffers handed to send, in order. */
    var sent: seq<seq<bv8>>
    /** The requests handed to lcmbsProtProc, with their transaction ids. */
    ghost var served: seq<Request>
    /** The HAL cells as they were before the engine crashed; what it left in them is not modelled. */
    ghost var lastStore: Store

    /** The connection these fields stand for. */
    ghost function Abs(): Conn
      reads this, header, rcvbuf, cells
      requires rcvbuf.count <= |rcvbuf.data|
    {
      var st := if crashed then lastStore else cells.Value();
      Conn(header[..], headerPos, tid, len, rcvbuf.size, rcvbuf.data[..rcvbuf.count], sent, st, open, crashed, served)
    }

    ghost predicate Valid()
      reads this, header, rcvbuf, sndbuf, cells
    {
      header.Length == HEADER_LEN &&
      rcvbuf != sndbuf && rcvbuf.Valid() && rcvbuf.typeSize == 1 && sndbuf.Valid() && sndbuf.typeSize == 1 &&
      (open ==> rcvbuf.pos == 0 && !crashed) &&
      Inv(slave, Abs())
    }

    /** The start of the thread: header_pos 0 and both vectors initialised, nothing allocated. */
    constructor (slave: Slave, cells: Cells)
      requires SlaveOk(slave, cells.Value())
      ensures Valid() && this.slave == slave && this.cells == cells
      ensures Abs() == Fresh(seq(HEADER_LEN, _ => 0), 0, 0, cells.Value())
    {
      this.slave := slave;
      this.cells := cells;
      header := new bv8[HEADER_LEN](_ => 0);
      rcvbuf := new Vect(1);
      sndbuf := new Vect(1);
      headerPos, tid, len := 0, 0, 0;
      open, crashed := true, false;
      sent := [];
      served := [];
      lastStore := cells.Value();
      new;
      assert header[..] == seq(HEADER_LEN, _ => 0);
    }

    /** One pass of the loop: select's outcome, then a read and, at the end of a frame, the engine and send. */
    method Step(ev: Event)
      requires Valid() && open
      requires ev.Received? ==> |ev.chunk| <= Requested(Abs())
      modifies this, header, rcvbuf, sndbuf, cells
      ensures Valid()
      ensures Abs() == Next(slave, old(Abs()), ev)
    {
      NextKeepsInv(slave, Abs(), ev);
      match ev
      case SelectFailed =>
        open := false;
      case SelectTimeout =>
        headerPos := 0;
        rcvbuf.Clear();
      case ExitRequested =>
        open := false;
      case NotReadable =>
      case Received(_, _, _) =>
        Receive(ev);
    }

    /** A pass in which the socket is readable: read returning nothing breaks the loop. */
    method Receive(ev: Event)
      requires Valid() && open && ev.Received? && |ev.chunk| <= Requested(Abs())
      modifies this, header, rcvbuf, sndbuf, cells
      ensures rcvbuf.Valid() && rcvbuf.typeSize == 1 && sndbuf.Valid() && sndbuf.typeSize == 1 && (open ==> rcvbuf.pos == 0 && !crashed)
      ensures Abs() == Next(slave, old(Abs()), ev)
    {
      if |ev.chunk| == 0 {
        open := false;
      } else if headerPos < HEADER_LEN {
        ReadHeader(ev.chunk);
      } else {
        ReadPayload(ev.chunk, ev.headerSent, ev.payloadSent);
      }
    }

    /** The header branch: the bytes read land at header_pos; a full header is decoded and checked. */
    method ReadHeader(chunk: seq<bv8>)
      requires Valid() && open && headerPos < HEADER_LEN && 0 < |chunk| <= HEADER_LEN - headerPos
      modifies this, header, rcvbuf
      ensures rcvbuf.Valid() && rcvbuf.typeSize == 1 && (open ==> rcvbuf.pos == 0 && !crashed)
      ensures Abs() == HeaderChunk(old(Abs()), chunk)
    {
      ghost var c := Abs();
      var hp := headerPos;
      forall k | 0 <= k < |chunk| {
        header[hp + k] := chunk[k];
      }
      assert header[..] == c.header[..hp] + chunk + c.header[hp + |chunk|..];
      headerPos := hp + |chunk|;
      if headerPos == HEADER_LEN {
        DecodeHeader(c);
      }
    }

    /** A full header: ntohs of its three words, then the checks on them. */
    method DecodeHeader(ghost c: Conn)
      requires header.Length == HEADER_LEN && rcvbuf.Valid() && rcvbuf.typeSize == 1 && rcvbuf.pos == 0 && !crashed
      requires c.rcvd == [] && Abs() == c.(header := header[..], headerPos := HEADER_LEN)
      modifies this, rcvbuf
      ensures rcvbuf.Valid() && rcvbuf.typeSize == 1 && (open ==> rcvbuf.pos == 0 && !crashed)
      ensures var h := old(header[..]); Abs() == HeaderDone(c, h, LoadNtohs(h, 0), LoadNtohs(h, 2), LoadNtohs(h, 4) as int)
    {
      var h := header[..];
      var t := LoadNtohs(h, 0);
      var prot := LoadNtohs(h, 2);
      var l := LoadNtohs(h, 4);
      AdmitHeader(c, h, t, prot, l as int);
    }

    /** The decoded fields are kept; a protocol id other than 0 drops the header, else rcvbuf is made ready. */
    method AdmitHeader(ghost c: Conn, ghost h: seq<bv8>, t: bv16, prot: bv16, l: nat)
      requires header.Length == HEADER_LEN && rcvbuf.Valid() && rcvbuf.typeSize == 1 && rcvbuf.pos == 0 && !crashed
      requires |h| == HEADER_LEN && l < 0x1_0000
      requires c.rcvd == [] && Abs() == c.(header := h, headerPos := HEADER_LEN)
      modifies this, rcvbuf
      ensures rcvbuf.Valid() && rcvbuf.typeSize == 1 && (open ==> rcvbuf.pos == 0 && !crashed)
      ensures Abs() == HeaderDone(c, h, t, prot, l)
    {
      tid := t;
      len := l;
      if prot != 0 {
        headerPos := 0;
        return;
      }
      var ok := rcvbuf.EnsureSize(len);
      if !ok {
        open := false;
        return;
      }
      rcvbuf.Clear();
    }

    /** The payload branch: the bytes read land at rcvbuf.count; a full frame goes to the engine. */
    method ReadPayload(chunk: seq<bv8>, hs: int, ps: int)
      requires Valid() && open && headerPos == HEADER_LEN && 0 < |chunk| <= len - rcvbuf.count
      modifies this, rcvbuf, sndbuf, cells, header
      ensures rcvbuf.Valid() && rcvbuf.typeSize == 1 && sndbuf.Valid() && sndbuf.typeSize == 1 && (open ==> rcvbuf.pos == 0 && !crashed)
      ensures Abs() == PayloadChunk(slave, old(Abs()), chunk, hs, ps)
    {
      StorePayload(chunk);
      if rcvbuf.count < len {
        return;
      }
      Complete(hs, ps);
    }

    /** read into rcvbuf.data at rcvbuf.count, then the count moved past the new bytes. */
    method StorePayload(chunk: seq<bv8>)
      requires rcvbuf.Valid() && rcvbuf.typeSize == 1 && rcvbuf.count + |chunk| <= rcvbuf.size
      modifies rcvbuf`data, rcvbuf`count
      ensures rcvbuf.Valid() && rcvbuf.size == old(rcvbuf.size) && rcvbuf.pos == old(rcvbuf.pos)
      ensures rcvbuf.Bytes() == old(rcvbuf.Bytes()) + chunk
    {
      var n := rcvbuf.count;
      rcvbuf.data := rcvbuf.data[..n] + chunk + rcvbuf.data[n + |chunk|..];
      rcvbuf.count := n + |chunk|;
      assert rcvbuf.data[..rcvbuf.count] == old(rcvbuf.Bytes()) + chunk;
    }

    /** A full frame: lcmbsProtProc on rcvbuf into sndbuf, then the answer. */
    method Complete(hs: int, ps: int)
      requires header.Length == HEADER_LEN && rcvbuf != sndbuf
      requires rcvbuf.Valid() && rcvbuf.typeSize == 1 && sndbuf.Valid() && sndbuf.typeSize == 1
      requires rcvbuf.pos == 0 && headerPos <= HEADER_LEN && !crashed && SlaveOk(slave, cells.Value())
      modifies this, rcvbuf, sndbuf, cells, header
      ensures rcvbuf.Valid() && rcvbuf.typeSize == 1 && sndbuf.Valid() && sndbuf.typeSize == 1 && (open ==> rcvbuf.pos == 0 && !crashed)
      ensures Abs() == Respond(old(Abs()), old(rcvbuf.Bytes()), ProtSpec.Proc(slave, old(rcvbuf.Bytes()), old(cells.Value())), hs, ps)
    {
      ghost var c := Abs();
      ghost var req := rcvbuf.Bytes();
      assert rcvbuf.Unread() == req;
      var crash, size := Prot.Proc(slave, rcvbuf, sndbuf, cells);
      Answer(c, req, ProtSpec.Proc(slave, req, c.st), crash, size, hs, ps);
    }

    /**
     * What the loop does once lcmbsProtProc has returned for the request
     * req with outcome r: store the result in len, send header and
     * response when it is not 0, and start the next frame.
     */
    method Answer(ghost c: Conn, ghost req: seq<bv8>, ghost r: Served, crash: bool, size: nat, hs: int, ps: int)
      requires header.Length == HEADER_LEN && rcvbuf.Valid() && rcvbuf.typeSize == 1 && sndbuf.Valid() && sndbuf.typeSize == 1
      requires rcvbuf.Bytes() == req && headerPos <= HEADER_LEN && !crashed && Abs() == c.(st := cells.Value())
      requires crash == r.Crashed?
      requires !crash ==> size == |r.pdu| && cells.Value() == r.st
      requires !crash && size > 0 ==> sndbuf.Bytes() == r.pdu
      modifies this, header, rcvbuf
      ensures rcvbuf.Valid() && rcvbuf.typeSize == 1 && (open ==> rcvbuf.pos == 0 && !crashed)
      ensures Abs() == Respond(c, req, r, hs, ps)
    {
      served := served + [Request(tid, req)];
      if crash {
        lastStore := c.st;
        crashed := true;
        open := false;
        return;
      }
      len := size % 0x1_0000;
      if len > 0 {
        var ok := SendResponse(hs, ps);
        if !ok {
          open := false;
          return;
        }
      }
      headerPos := 0;
      rcvbuf.Clear();
    }

    /**
     * Sends the response header, then the response unless the header send
     * fell short; ok when both sends moved exactly their length.
     */
    method SendResponse(hs: int, ps: int) returns (ok: bool)
      requires header.Length == HEADER_LEN && 0 < len < 0x1_0000 && sndbuf.Valid() && sndbuf.typeSize == 1
      modifies header, this`sent
      ensures header[..] == ResponseHeader(tid, len)
      ensures sent == old(sent) + (if hs != HEADER_LEN then [header[..]] else [header[..], sndbuf.Bytes()])
      ensures ok == (hs == HEADER_LEN && ps == len)
    {
      WriteResponseHeader();
      sent := sent + [header[..]];
      if hs != HEADER_LEN {
        return false;
      }
      sent := sent + [sndbuf.data[..sndbuf.count]];
      return ps == len;
    }

    /** htons(tid), 0 and htons(len) stored over the header array. */
    method WriteResponseHeader()
      requires header.Length == HEADER_LEN && len < 0x1_0000
      modifies header
      ensures header[..] == ResponseHeader(tid, len)
    {
      var t := HtonsBytes(tid);
      var l := HtonsBytes(len as bv16);
      header[0], header[1] := t[0], t[1];
      header[2], header[3] := 0, 0;
      header[4], header[5] := l[0], l[1];
      assert header[..] == t + [0, 0] + l;
    }

    /** The loop over a sequence of events, until it breaks or they run out. */
    method Serve(evs: seq<Event>)
      requires Valid() && Admissible(slave, Abs(), evs)
      modifies this, header, rcvbuf, sndbuf, cells
      ensures Valid()
      ensures Abs() == Run(slave, old(Abs()), evs)
    {
      var i := 0;
      while i < |evs| && open
        invariant 0 <= i <= |evs| && Valid()
        invariant Admissible(slave, Abs(), evs[i..])
        invariant Run(slave, Abs(), evs[i..]) == Run(slave, old(Abs()), evs)
      {
        TcpProps.RunCons(slave, Abs(), evs[i..]);
        assert evs[i..][1..] == evs[i + 1..];
        Step(evs[i]);
        i := i + 1;
      }
    }
  }
}
