/**
 * Properties of the PDU engine of mbslave_prot.c, stated on the ProtSpec
 * functions that the methods of module Prot are proved to follow.
 */
module ProtProps {
  import opened Bytes
  import opened Topology
  import opened Packing
  import opened ProtSpec

  /** FC 1 and 2 only read: whatever they answer, the store is as before. */
  lemma ReadBitsKeepsStore(sid: bv8, fnk: bv8, req: seq<bv8>, m: Bits, st: Store)
    requires BitsOk(m, st)
    ensures ReadBits(sid, fnk, req, m, st).Reply? ==> ReadBits(sid, fnk, req, m, st).st == st
  {
  }

  /** FC 3 and 4 only read: whatever they answer, the store is as before. */
  lemma ReadRegsKeepsStore(sid: bv8, fnk: bv8, req: seq<bv8>, m: Regs, st: Store)
    requires RegsOk(m, st)
    ensures ReadRegs(sid, fnk, req, m, st).Reply? ==> ReadRegs(sid, fnk, req, m, st).st == st
  {
    if |req| >= 4 {
      var start, count := Field(req[0], req[1]), Field(req[2], req[3]);
      if !RangeFails(start, count, m.start, |m.regs|) && 2 * count <= 255 {
        ReadRegsCheckedKeepsStore(sid, fnk, Rebase(start, m.start), count, m, st);
      }
    }
  }

  lemma ReadRegsCheckedKeepsStore(sid: bv8, fnk: bv8, base: nat, count: nat, m: Regs, st: Store)
    requires RegsOk(m, st) && 2 * count <= 255
    ensures ReadRegsChecked(sid, fnk, base, count, m, st).Reply? ==> ReadRegsChecked(sid, fnk, base, count, m, st).st == st
  {
    if count > 0 {
      var a := Aligned(m, st, base, count);
      if a.Some? && a.value {
        assert ReadRegsChecked(sid, fnk, base, count, m, st).st == st;
      }
    }
  }

  /** A vector's count is a C int, so map sizes stay below 2^31. */
  const INT_MAX: int := 0x7fff_ffff

  // ---------------------------------------------------------------------
  // Coils and discrete inputs
  // ---------------------------------------------------------------------

  /** For a configured map the size_t arithmetic of the range check is exact. */
  lemma ExactRange(start: nat, count: nat, mapStart: int, n: nat)
    requires 0 <= mapStart <= 65535 && n <= INT_MAX
    ensures RangeFails(start, count, mapStart, n) <==> start < mapStart || start + count > mapStart + n
    ensures AddrFails(start, mapStart, n) <==> start < mapStart || start >= mapStart + n
    ensures start <= 65535 && mapStart <= start ==> Rebase(start, mapStart) == start - mapStart
  {
  }

  /**
   * FC 1 and 2 on a configured map, once the start and count fields are
   * read: exception 2 exactly when the request leaves the map or needs more
   * than 255 data bytes; otherwise the response is the header [sid, fnk,
   * ceil(count/8)] followed by the packed values of the requested pins
   * (PackBitsLayout gives their layout). The store is never changed.
   */
  lemma ReadBitsOutcome(sid: bv8, fnk: bv8, start: nat, count: nat, m: Bits, st: Store)
    requires BitsOk(m, st) && m.start >= 0 && |m.pins| <= INT_MAX && start <= 65535
    ensures var r := ReadBitsFields(sid, fnk, start, count, m, st);
      r.Reply? && r.st == st &&
      (r.err == ERR_ILLEGAL_DATA_ADDRESS <==>
        start < m.start || start + count > m.start + |m.pins| || ByteCount(count) > 255) &&
      (r.err == ERR_ILLEGAL_DATA_ADDRESS ==> r.out == []) &&
      (r.err != ERR_ILLEGAL_DATA_ADDRESS ==>
        r.err == ERR_OK && r.out == [sid, fnk, ByteCount(count) as bv8] + PackBits(BitValues(m, st, start - m.start, count)))
  {
    ExactRange(start, count, m.start, |m.pins|);
  }

  /** A read of n items answers 3 + ceil(n/8) bytes, and a read of 0 items only the header. */
  lemma ReadBitsLength(sid: bv8, fnk: bv8, start: nat, count: nat, m: Bits, st: Store)
    requires BitsOk(m, st) && m.start >= 0 && |m.pins| <= INT_MAX && start <= 65535
    requires ReadBitsFields(sid, fnk, start, count, m, st).Reply? && ReadBitsFields(sid, fnk, start, count, m, st).err == ERR_OK
    ensures |ReadBitsFields(sid, fnk, start, count, m, st).out| == 3 + ByteCount(count)
    ensures count == 0 ==> ReadBitsFields(sid, fnk, start, count, m, st).out == [sid, fnk, 0]
  {
    ReadBitsOutcome(sid, fnk, start, count, m, st);
  }

  /**
   * The unconfigured-map defect: a map that no configuration node set up
   * keeps start -1 and no pins, and for it `start + count > -1 + 0` is
   * computed in size_t, where -1 is the largest value. So every coil read
   * with a non-zero count, and every valid coil write, passes the range
   * check, and the vector lookup then returns NULL.
   */
  lemma UnconfiguredBitsCrash(sid: bv8, fnk: bv8, start: nat, count: nat, st: Store)
    requires start <= 65535 && 0 < count && ByteCount(count) <= 255
    ensures ReadBitsFields(sid, fnk, start, count, Bits(-1, []), st).Crash?
  {
    assert SizeT(-1 + 0) == SIZE_T_MOD - 1;
    assert !RangeFails(start, count, -1, 0);
  }

  /** The same defect for a single coil write with a valid value. */
  lemma UnconfiguredBitCrash(sid: bv8, fnk: bv8, addr: bv16, val: bv16, st: Store)
    requires val == 0x0000 || val == 0xff00
    ensures ForceBitFields(sid, fnk, addr, val, Bits(-1, []), st).Crash?
  {
    assert SizeT(-1 + 0) == SIZE_T_MOD - 1;
    assert !AddrFails(addr as int, -1, 0);
  }

  /**
   * FC 5 on a configured map: the address is checked first (exception 2),
   * then the value, which must be 0x0000 or 0xff00 (exception 3). On success
   * the coil is set to `value != 0`, no other cell changes, and the response
   * echoes address and value big-endian.
   */
  lemma ForceBitOutcome(sid: bv8, fnk: bv8, addr: bv16, val: bv16, m: Bits, st: Store)
    requires BitsOk(m, st) && m.start >= 0 && |m.pins| <= INT_MAX
    ensures var r := ForceBitFields(sid, fnk, addr, val, m, st);
      r.Reply? &&
      (r.err == ERR_ILLEGAL_DATA_ADDRESS <==> addr as int < m.start || addr as int >= m.start + |m.pins|) &&
      (r.err == ERR_ILLEGAL_DATA_VALUE <==> r.err != ERR_ILLEGAL_DATA_ADDRESS && val != 0x0000 && val != 0xff00) &&
      (r.err != ERR_OK ==> r.out == [] && r.st == st) &&
      (r.err == ERR_OK ==>
        r.out == [sid, fnk] + BE16(addr) + BE16(val) &&
        r.st == st.(bits := st.bits[m.pins[addr as int - m.start].cell := val == 0xff00]))
  {
    ExactRange(addr as int, 0, m.start, |m.pins|);
  }

  /** The FC 5 response is the request itself: slave id, function code and the four field bytes. */
  lemma ForceBitEchoesRequest(sid: bv8, fnk: bv8, req: seq<bv8>, m: Bits, st: Store)
    requires BitsOk(m, st) && m.start >= 0 && |m.pins| <= INT_MAX && |req| >= 4
    requires ForceBit(sid, fnk, req, m, st).Reply? && ForceBit(sid, fnk, req, m, st).err == ERR_OK
    ensures ForceBit(sid, fnk, req, m, st).out == [sid, fnk] + req[..4]
  {
    ForceBitOutcome(sid, fnk, BE16Value(req[0], req[1]), BE16Value(req[2], req[3]), m, st);
    EchoField(req[0], req[1]);
    EchoField(req[2], req[3]);
    assert req[..4] == [req[0], req[1]] + [req[2], req[3]];
  }

  /** Some pin in lo .. hi - 1 of map m has cell c. */
  predicate Covers(m: Bits, lo: nat, hi: nat, c: nat)
    requires hi <= |m.pins|
  {
    exists j | lo <= j < hi :: m.pins[j].cell == c
  }

  /** The pins of map m have pairwise distinct cells, as the configuration gives each pin its own. */
  predicate DistinctPins(m: Bits) {
    forall a, b | 0 <= a < b < |m.pins| :: m.pins[a].cell != m.pins[b].cell
  }

  /** Setting bit pins in turn: pin base + j ends with vs[j] when the pins' cells are distinct; other cells keep their values. */
  lemma {:induction false} SetBitPinsCells(st: Store, m: Bits, base: nat, vs: seq<bool>, i: nat)
    requires BitsOk(m, st) && base + |vs| <= |m.pins| && i <= |vs| && DistinctPins(m)
    ensures forall j | i <= j < |vs| :: SetBitPins(st, m, base, vs, i).bits[m.pins[base + j].cell] == vs[j]
    ensures forall c | 0 <= c < |st.bits| && !Covers(m, base + i, base + |vs|, c) ::
      SetBitPins(st, m, base, vs, i).bits[c] == st.bits[c]
    decreases |vs| - i
  {
    if i < |vs| {
      var c0 := m.pins[base + i].cell;
      var st' := st.(bits := st.bits[c0 := vs[i]]);
      SetBitPinsCells(st', m, base, vs, i + 1);
      var r := SetBitPins(st, m, base, vs, i);
      assert r == SetBitPins(st', m, base, vs, i + 1);
      assert !Covers(m, base + i + 1, base + |vs|, c0) by {
        forall j | base + i + 1 <= j < base + |vs| ensures m.pins[j].cell != c0 {
          assert m.pins[base + i].cell != m.pins[j].cell;
        }
      }
      forall c | 0 <= c < |st.bits| && !Covers(m, base + i, base + |vs|, c)
        ensures r.bits[c] == st.bits[c]
      {
        assert c != c0;
      }
    }
  }

  /**
   * FC 15 on a configured map, once the start, count and byte count fields
   * are read: exception 2 when the range leaves the map or the byte count
   * field is not ceil(count/8), exception 3 when the bytes left in the
   * request are not ceil(count/8). On success the response echoes the start
   * rebased to the map, `start - map.start`, and the count, and the pins are
   * set from the payload bits in turn.
   */
  lemma ForceBitsOutcome(sid: bv8, fnk: bv8, start: nat, cw: bv16, bc: nat, payload: seq<bv8>, m: Bits, st: Store)
    requires BitsOk(m, st) && m.start >= 0 && |m.pins| <= INT_MAX && start <= 65535
    ensures var count := cw as int;
      var r := ForceBitsFields(sid, fnk, start, cw, bc, payload, m, st);
      r.Reply? &&
      (r.err == ERR_ILLEGAL_DATA_ADDRESS <==>
        start < m.start || start + count > m.start + |m.pins| || ByteCount(count) != bc) &&
      (r.err == ERR_ILLEGAL_DATA_VALUE <==> r.err != ERR_ILLEGAL_DATA_ADDRESS && |payload| != ByteCount(count)) &&
      (r.err != ERR_OK ==> r.out == [] && r.st == st) &&
      (r.err == ERR_OK ==>
        r.out == [sid, fnk] + BE16((start - m.start) as bv16) + BE16(cw) &&
        r.st == SetBitPins(st, m, start - m.start, UnpackBits(payload, count), 0))
  {
    ExactRange(start, cw as int, m.start, |m.pins|);
  }

  /** Setting count bit pins from a payload: pin base + i gets bit i mod 8 of byte i / 8; other cells keep their values. */
  lemma SetBitPinsPayload(st: Store, m: Bits, base: nat, payload: seq<bv8>, count: nat)
    requires BitsOk(m, st) && base + count <= |m.pins| && ByteCount(count) <= |payload| && DistinctPins(m)
    ensures var st' := SetBitPins(st, m, base, UnpackBits(payload, count), 0);
      (forall i | 0 <= i < count :: st'.bits[m.pins[base + i].cell] == BitOf(payload[i / 8], i % 8)) &&
      (forall c | 0 <= c < |st.bits| && !Covers(m, base, base + count, c) :: st'.bits[c] == st.bits[c])
  {
    var vs := UnpackBits(payload, count);
    SetBitPinsCells(st, m, base, vs, 0);
    var st' := SetBitPins(st, m, base, vs, 0);
    forall i | 0 <= i < count
      ensures st'.bits[m.pins[base + i].cell] == BitOf(payload[i / 8], i % 8)
    {
      assert vs[i] == BitOf(payload[i / 8], i % 8);
    }
  }

  /**
   * After a successful FC 15 on a map with distinct pin cells, coil i of the
   * request holds bit i mod 8 of payload byte i / 8 and every cell outside
   * the requested coils keeps its value.
   */
  lemma ForceBitsCoils(sid: bv8, fnk: bv8, start: nat, cw: bv16, bc: nat, payload: seq<bv8>, m: Bits, st: Store)
    requires BitsOk(m, st) && m.start >= 0 && |m.pins| <= INT_MAX && start <= 65535 && DistinctPins(m)
    requires ForceBitsFields(sid, fnk, start, cw, bc, payload, m, st).Reply?
    requires ForceBitsFields(sid, fnk, start, cw, bc, payload, m, st).err == ERR_OK
    ensures var count, base := cw as int, start - m.start;
      var st' := ForceBitsFields(sid, fnk, start, cw, bc, payload, m, st).st;
      start >= m.start && base + count <= |m.pins| && ByteCount(count) <= |payload| &&
      (forall i | 0 <= i < count :: st'.bits[m.pins[base + i].cell] == BitOf(payload[i / 8], i % 8)) &&
      (forall c | 0 <= c < |st.bits| && !Covers(m, base, base + count, c) :: st'.bits[c] == st.bits[c])
  {
    var count, base := cw as int, start - m.start;
    ForceBitsOutcome(sid, fnk, start, cw, bc, payload, m, st);
    assert ForceBitsFields(sid, fnk, start, cw, bc, payload, m, st).st == SetBitPins(st, m, base, UnpackBits(payload, count), 0);
    SetBitPinsPayload(st, m, base, payload, count);
  }

  /**
   * The FC 15 echo defect, on a concrete request: a map of one coil at
   * address 1 and a request to set 1 coil from address 1. The coil is set,
   * but the response names address 0, the start rebased to the map, where
   * the request said 1.
   */
  lemma ForceBitsEchoesRebasedStart()
    ensures var r := ForceBits(1, 15, [0x00, 0x01, 0x00, 0x01, 0x01, 0x01], Bits(1, [BitPin("coil", 0)]), Store([false], [], [], []));
      r == Reply(ERR_OK, [1, 15, 0x00, 0x00, 0x00, 0x01], Store([true], [], [], []))
  {
    var m := Bits(1, [BitPin("coil", 0)]);
    var st := Store([false], [], [], []);
    var req: seq<bv8> := [0x00, 0x01, 0x00, 0x01, 0x01, 0x01];
    assert Field(req[0], req[1]) == 1;
    assert BE16Value(req[2], req[3]) == 1;
    assert UnpackBits(req[5..], 1) == [true];
    assert SetBitPins(st, m, 0, [true], 0) == Store([true], [], [], []);
  }
}
