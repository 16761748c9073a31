/**
 * Properties of the register handlers of mbslave_prot.c (FC 3, 4, 6 and
 * 16), stated on the ProtSpec functions that the methods of module Prot are
 * proved to follow.
 */
module RegProps {
  import opened Bytes
  import opened Topology
  import opened Packing
  import opened ProtSpec
  import opened ProtProps
  import opened Wrappers

  /**
   * The registers base .. base + count - 1 start at the first word of a pin
   * (or at a bit register) and end at the last word of one: the boundary
   * check of FC 3, 4 and 16.
   */
  predicate WholePins(m: Regs, st: Store, base: nat, count: nat)
    requires RegsOk(m, st) && 0 < count && base + count <= |m.regs|
  {
    assert RegOk(m, base + count - 1, st);
    m.regs[base].Index() == 0 && !Unfinished(m, m.regs[base + count - 1])
  }

  // ---------------------------------------------------------------------
  // FC 3 and 4
  // ---------------------------------------------------------------------

  /**
   * FC 3 and 4 on a configured map, once the start and count fields are
   * read: exception 2 when the request leaves the map, needs more than 255
   * data bytes, or cuts a pin at either end; otherwise the header [sid, fnk,
   * 2 * count] followed by two bytes per register. The store is never
   * changed and a configured map never crashes.
   */
  lemma ReadRegsOutcome(sid: bv8, fnk: bv8, start: nat, count: nat, m: Regs, st: Store)
    requires RegsOk(m, st) && m.start >= 0 && |m.regs| <= INT_MAX && start <= 65535
    ensures var r := ReadRegsFields(sid, fnk, start, count, m, st);
      var outside := start < m.start || start + count > m.start + |m.regs| || 2 * count > 255;
      r.Reply? && r.st == st && (r.err == ERR_OK || r.err == ERR_ILLEGAL_DATA_ADDRESS) &&
      (outside ==> r.err == ERR_ILLEGAL_DATA_ADDRESS && r.out == []) &&
      (!outside && count == 0 ==> r.err == ERR_OK && r.out == [sid, fnk, 0]) &&
      (!outside && count > 0 ==> (r.err == ERR_OK <==> WholePins(m, st, start - m.start, count))) &&
      (!outside && r.err == ERR_OK ==> r.out == [sid, fnk, (2 * count) as bv8] + RegsOut(m, st, start - m.start, count))
  {
    ExactRange(start, count, m.start, |m.regs|);
  }

  /** Bytes 2i and 2i + 1 of the register data are those of register base + i. */
  lemma {:induction false} RegsOutAt(m: Regs, st: Store, base: nat, n: nat, i: nat)
    requires RegsOk(m, st) && base + n <= |m.regs| && i < n
    ensures RegsOut(m, st, base, n)[2 * i .. 2 * i + 2] == RegBytes(m, st, base + i)
  {
    var prefix, last := RegsOut(m, st, base, n - 1), RegBytes(m, st, base + n - 1);
    assert RegsOut(m, st, base, n) == prefix + last;
    PairOfConcat(prefix, last, i);
    if i < n - 1 {
      RegsOutAt(m, st, base, n - 1, i);
    } else {
      assert base + i == base + n - 1;
    }
  }

  /** Bytes 2i and 2i + 1 of a sequence of pairs with one more pair appended. */
  lemma PairOfConcat(prefix: seq<bv8>, last: seq<bv8>, i: nat)
    requires |last| == 2 && 2 * i <= |prefix| && |prefix| % 2 == 0
    ensures (prefix + last)[2 * i .. 2 * i + 2] == if 2 * i < |prefix| then prefix[2 * i .. 2 * i + 2] else last
  {
  }

  /**
   * A pin register sends half `pad + k` of its pin's limited value
   * big-endian (the other half when the pin is word swapped), its two bytes
   * exchanged when the pin is byte swapped.
   */
  lemma RegBytesOfPin(m: Regs, st: Store, j: nat)
    requires RegsOk(m, st) && j < |m.regs| && RegOk(m, j, st) && m.regs[j].PinReg?
    ensures var p, k := m.pins[m.regs[j].pin], m.regs[j].index;
      var h := 2 - p.regCount + k;
      PinOk(p, st) && k < p.regCount &&
      RegBytes(m, st, j) == MaybeSwap(p.ByteSwap(), BEHalf(LimitedBits(p, st), if p.WordSwap() then 1 - h else h))
  {
    var p, k := m.pins[m.regs[j].pin], m.regs[j].index;
    assert PinOk(p, st) && k < p.regCount by {
      assert RegOk(m, j, st);
    }
    var w := RegWord(p, SampledValue(p, st), k);
    assert RegBytes(m, st, j) == LE16(w);
    ReadEncoding(p, st, k);
  }

  /** A bit register sends its bits big-endian: bit 15 first, bit 0 last. */
  lemma RegBytesOfBits(m: Regs, st: Store, j: nat)
    requires RegsOk(m, st) && j < |m.regs| && RegOk(m, j, st) && m.regs[j].BitReg?
    ensures BitPinsOk(m.regs[j].bitpins, st)
    ensures RegBytes(m, st, j) == BE16(BitRegValue(m.regs[j].bitpins, st))
  {
    StoreHtons(BitRegValue(m.regs[j].bitpins, st));
  }

  /** A successful FC 3 or 4 answers 3 + 2 * count bytes: the header, then the register data. */
  lemma ReadRegsData(sid: bv8, fnk: bv8, start: nat, count: nat, m: Regs, st: Store)
    requires RegsOk(m, st) && m.start >= 0 && |m.regs| <= INT_MAX && start <= 65535
    requires ReadRegsFields(sid, fnk, start, count, m, st).Reply?
    requires ReadRegsFields(sid, fnk, start, count, m, st).err == ERR_OK
    ensures start >= m.start && start - m.start + count <= |m.regs|
    ensures var out := ReadRegsFields(sid, fnk, start, count, m, st).out;
      |out| == 3 + 2 * count && out[3..] == RegsOut(m, st, start - m.start, count)
  {
    ReadRegsOutcome(sid, fnk, start, count, m, st);
  }

  /**
   * The unconfigured-map defect for registers: a map with start -1 and no
   * registers passes the size_t range check of FC 3 and 4 for any non-zero
   * count, and the register lookup then returns NULL.
   */
  lemma UnconfiguredReadRegsCrash(sid: bv8, fnk: bv8, start: nat, count: nat, m: Regs, st: Store)
    requires RegsOk(m, st) && m.start == -1 && m.regs == []
    requires start <= 65535 && 0 < count && 2 * count <= 255
    ensures ReadRegsFields(sid, fnk, start, count, m, st).Crash?
  {
    assert SizeT(-1 + 0) == SIZE_T_MOD - 1;
    assert !RangeFails(start, count, -1, 0);
  }

  /** The same defect for FC 6: every address passes the check. */
  lemma UnconfiguredPresetRegCrash(sid: bv8, fnk: bv8, addr: bv16, m: Regs, st: Store)
    requires RegsOk(m, st) && m.start == -1 && m.regs == []
    ensures PresetRegFields(sid, fnk, addr, m, st).Crash?
  {
    assert !AddrFails(addr as int, -1, 0) by {
      assert SizeT(-1 + 0) == SIZE_T_MOD - 1;
    }
  }

  /** The same defect for FC 16 with consistent count, byte count and payload. */
  lemma UnconfiguredPresetRegsCrash(sid: bv8, fnk: bv8, sw: bv16, cw: bv16, payload: seq<bv8>, m: Regs, st: Store)
    requires RegsOk(m, st) && m.start == -1 && m.regs == []
    requires 0 < cw as int <= 127 && |payload| == 2 * cw as int
    ensures PresetRegsFields(sid, fnk, sw, cw, 2 * cw as int, payload, m, st).Crash?
  {
    var start, count := sw as int, cw as int;
    assert SizeT(-1 + 0) == SIZE_T_MOD - 1;
    assert !RangeFails(start, count, -1, 0);
  }

  // ---------------------------------------------------------------------
  // Reading back what was written
  // ---------------------------------------------------------------------

  /**
   * After pin p has been written with the value its host words ws assemble
   * to, its register k sends the two memory bytes of ws[k]: the bytes the
   * master sent for that register in an FC 16 request. This holds for every
   * two-register pin and for a one-register pin without wordswap.
   */
  lemma ReadAfterStore(m: Regs, st: Store, j: nat, p: nat, k: nat, ws: seq<bv16>)
    requires RegsOk(m, st) && j < |m.regs| && m.regs[j] == PinReg(p, k) && p < |m.pins|
    requires |ws| == m.pins[p].regCount && (m.pins[p].regCount == 2 || !m.pins[p].WordSwap())
    ensures k < |ws| && PinOk(m.pins[p], st)
    ensures var st' := StorePin(st, m.pins[p], Assemble(m.pins[p], ws));
      RegsOk(m, st') && RegBytes(m, st', j) == LE16(ws[k])
  {
    var pin := m.pins[p];
    assert RegOk(m, j, st) && PinOk(pin, st);
    var st' := StorePin(st, pin, Assemble(pin, ws));
    PresetThenRead(pin, st, ws);
    RegsOkSameShape(m, st, st');
    assert RegBytes(m, st', j) == LE16(RegWord(pin, SampledValue(pin, st'), k));
    assert RegWord(pin, SampledValue(pin, st'), k) == PinWords(pin, st')[k];
  }

  // ---------------------------------------------------------------------
  // FC 6
  // ---------------------------------------------------------------------

  /** The value field of an FC 6 request has no effect: requests with the same address bytes are served alike. */
  lemma PresetRegIgnoresValue(sid: bv8, fnk: bv8, req1: seq<bv8>, req2: seq<bv8>, m: Regs, st: Store)
    requires RegsOk(m, st) && |req1| >= 4 && |req2| >= 4 && req1[..2] == req2[..2]
    ensures PresetReg(sid, fnk, req1, m, st) == PresetReg(sid, fnk, req2, m, st)
  {
    assert req1[0] == req2[0] && req1[1] == req2[1];
  }

  /** FC 6 refuses exactly the registers of two-register pins. */
  lemma WriteSingleRefuses(m: Regs, st: Store, j: nat, val: bv16)
    requires RegsOk(m, st) && j < |m.regs| && RegOk(m, j, st)
    ensures WriteSingle(m, st, j, val).None? <==> m.regs[j].PinReg? && m.pins[m.regs[j].pin].regCount == 2
  {
    if m.regs[j].PinReg? {
      assert PinOk(m.pins[m.regs[j].pin], st);
    }
  }

  /**
   * FC 6 on a configured map once the address is read: exception 2 when the
   * address is outside the map; otherwise the outcome of writing the host
   * word ntohs(address) to the register, with the address and that word
   * echoed. The store changes only on success.
   */
  lemma PresetRegOutcome(sid: bv8, fnk: bv8, addr: bv16, m: Regs, st: Store)
    requires RegsOk(m, st) && m.start >= 0 && |m.regs| <= INT_MAX
    ensures var a, r := addr as int, PresetRegFields(sid, fnk, addr, m, st);
      r.Reply? &&
      (a < m.start || a >= m.start + |m.regs| ==> r == Reply(ERR_ILLEGAL_DATA_ADDRESS, [], st)) &&
      (m.start <= a < m.start + |m.regs| ==>
        (WriteSingle(m, st, a - m.start, Bswap16(addr)).None? ==> r == Reply(ERR_ILLEGAL_DATA_ADDRESS, [], st)) &&
        (WriteSingle(m, st, a - m.start, Bswap16(addr)).Some? ==>
          r == Reply(ERR_OK, [sid, fnk] + BE16(addr) + BE16(Bswap16(addr)), WriteSingle(m, st, a - m.start, Bswap16(addr)).value)))
  {
    var a := addr as int;
    ExactRange(a, 0, m.start, |m.regs|);
  }

  /** The FC 6 response: slave id, function code, then the address bytes twice, the second time exchanged. */
  lemma PresetRegEcho(sid: bv8, fnk: bv8, req: seq<bv8>, m: Regs, st: Store)
    requires RegsOk(m, st) && |req| >= 4
    requires PresetReg(sid, fnk, req, m, st).Reply? && PresetReg(sid, fnk, req, m, st).err == ERR_OK
    ensures PresetReg(sid, fnk, req, m, st).out == [sid, fnk, req[0], req[1], req[1], req[0]]
  {
    EchoField(req[0], req[1]);
    SwappedEcho(req[0], req[1]);
  }

  lemma SwappedEcho(a: bv8, b: bv8)
    ensures BE16(Bswap16(BE16Value(a, b))) == [b, a]
  {
  }

  /** FC 6 to a one-register pin stores the host word, byte swapped on request, narrowed to the pin's type. */
  lemma WriteSinglePin(m: Regs, st: Store, j: nat, p: nat, val: bv16)
    requires RegsOk(m, st) && j < |m.regs| && m.regs[j] == PinReg(p, 0) && p < |m.pins| && m.pins[p].regCount == 1
    ensures PinOk(m.pins[p], st)
    ensures WriteSingle(m, st, j, val) == Some(StorePin(st, m.pins[p], Narrow(m.pins[p].ptype, MaybeBswap16(m.pins[p].ByteSwap(), val) as bv32)))
  {
    assert RegOk(m, j, st);
    assert PinOk(m.pins[p], st);
  }

  /**
   * The FC 6 value defect on a concrete request: a holding register map
   * starting at 0x0102 whose register 0 is a u16 pin, and a request to write
   * 0x1234 to address 0x0102. The response echoes the address where the
   * value belongs, the pin receives 0x0201 (the address byte swapped), and a
   * following FC 3 read of that register answers 02 01.
   */
  lemma PresetRegWritesAddress()
    ensures var m := Regs(0x0102, [PinReg(0, 0)], [RegPin("hold", U16, HalU32, 1, 0, 0)]);
      var r := PresetReg(1, 6, [0x01, 0x02, 0x12, 0x34], m, Store([], [0], [], []));
      r == Reply(ERR_OK, [1, 6, 0x01, 0x02, 0x02, 0x01], Store([], [0x0201], [], [])) &&
      ReadRegsFields(1, 3, 0x0102, 1, m, r.st) == Reply(ERR_OK, [1, 3, 2, 0x02, 0x01], r.st)
  {
    var m := Regs(0x0102, [PinReg(0, 0)], [RegPin("hold", U16, HalU32, 1, 0, 0)]);
    var st' := Store([], [0x0201], [], []);
    assert RegsOk(m, st');
    assert RegBytes(m, st', 0) == [0x02, 0x01];
    assert RegsOut(m, st', 0, 1) == [0x02, 0x01];
  }

  /**
   * FC 6 with the value defect corrected: on a configured map the address
   * decides as before, the register receives the request's value field, and
   * a successful write echoes the request, as section 6.6 of the Modbus
   * application protocol specification requires.
   */
  lemma PresetRegIntendedOutcome(sid: bv8, fnk: bv8, req: seq<bv8>, m: Regs, st: Store)
    requires RegsOk(m, st) && m.start >= 0 && |m.regs| <= INT_MAX && |req| >= 4
    ensures var a, v, r := Field(req[0], req[1]), BE16Value(req[2], req[3]), PresetRegIntended(sid, fnk, req, m, st);
      r.Reply? &&
      (a < m.start || a >= m.start + |m.regs| ==> r == Reply(ERR_ILLEGAL_DATA_ADDRESS, [], st)) &&
      (m.start <= a < m.start + |m.regs| ==>
        (WriteSingle(m, st, a - m.start, v).None? ==> r == Reply(ERR_ILLEGAL_DATA_ADDRESS, [], st)) &&
        (WriteSingle(m, st, a - m.start, v).Some? ==>
          r == Reply(ERR_OK, [sid, fnk] + req[..4], WriteSingle(m, st, a - m.start, v).value)))
  {
    var addr, val := BE16Value(req[0], req[1]), BE16Value(req[2], req[3]);
    PresetRegWriteOutcome(sid, fnk, addr, val, m, st);
    EchoField(req[0], req[1]);
    EchoField(req[2], req[3]);
    assert [sid, fnk] + BE16(addr) + BE16(val) == [sid, fnk] + req[..4];
  }

  /**
   * The write step FC 6 shares between the code as written and the corrected
   * behaviour, for any address and value: exception 2 outside the map or on a
   * pin of two registers, otherwise the write with address and value echoed.
   */
  lemma PresetRegWriteOutcome(sid: bv8, fnk: bv8, addr: bv16, val: bv16, m: Regs, st: Store)
    requires RegsOk(m, st) && m.start >= 0 && |m.regs| <= INT_MAX
    ensures var a, r := addr as int, PresetRegWrite(sid, fnk, addr, val, m, st);
      r.Reply? &&
      (a < m.start || a >= m.start + |m.regs| ==> r == Reply(ERR_ILLEGAL_DATA_ADDRESS, [], st)) &&
      (m.start <= a < m.start + |m.regs| ==>
        (WriteSingle(m, st, a - m.start, val).None? ==> r == Reply(ERR_ILLEGAL_DATA_ADDRESS, [], st)) &&
        (WriteSingle(m, st, a - m.start, val).Some? ==>
          r == Reply(ERR_OK, [sid, fnk] + BE16(addr) + BE16(val), WriteSingle(m, st, a - m.start, val).value)))
  {
    var a := addr as int;
    ExactRange(a, 0, m.start, |m.regs|);
    if m.start <= a < m.start + |m.regs| {
      assert SizeT(a - m.start) == a - m.start;
    }
  }

  /**
   * The request of PresetRegWritesAddress under the corrected FC 6: the pin
   * receives 0x1234, and FC 3 then reads 12 34.
   */
  lemma PresetRegIntendedWritesValue()
    ensures var m := Regs(0x0102, [PinReg(0, 0)], [RegPin("hold", U16, HalU32, 1, 0, 0)]);
      var r := PresetRegIntended(1, 6, [0x01, 0x02, 0x12, 0x34], m, Store([], [0], [], []));
      r == Reply(ERR_OK, [1, 6, 0x01, 0x02, 0x12, 0x34], Store([], [0x1234], [], [])) &&
      ReadRegsFields(1, 3, 0x0102, 1, m, r.st) == Reply(ERR_OK, [1, 3, 2, 0x12, 0x34], r.st)
  {
    var m := Regs(0x0102, [PinReg(0, 0)], [RegPin("hold", U16, HalU32, 1, 0, 0)]);
    var st' := Store([], [0x1234], [], []);
    assert RegsOk(m, st');
    assert RegBytes(m, st', 0) == [0x12, 0x34];
    assert RegsOut(m, st', 0, 1) == [0x12, 0x34];
  }

  // ---------------------------------------------------------------------
  // FC 16
  // ---------------------------------------------------------------------

  /**
   * FC 16 on a configured map once start, count and byte count are read:
   * exception 2 when the range leaves the map or the byte count field is not
   * 2 * count, exception 3 when the payload is not 2 * count bytes, and
   * exception 2 when the range cuts a pin at either end. A failed request
   * leaves the store unchanged; a request that passes the size checks
   * echoes start and count.
   */
  lemma PresetRegsChecks(sid: bv8, fnk: bv8, sw: bv16, cw: bv16, bc: nat, payload: seq<bv8>, m: Regs, st: Store)
    requires RegsOk(m, st) && m.start >= 0 && |m.regs| <= INT_MAX
    ensures var start, count := sw as int, cw as int;
      var r := PresetRegsFields(sid, fnk, sw, cw, bc, payload, m, st);
      var outside := start < m.start || start + count > m.start + |m.regs| || 2 * count != bc;
      r.Reply? && (r.err == ERR_OK || r.err == ERR_ILLEGAL_DATA_ADDRESS || r.err == ERR_ILLEGAL_DATA_VALUE) &&
      (r.err != ERR_OK ==> r.st == st) &&
      (outside ==> r.err == ERR_ILLEGAL_DATA_ADDRESS && r.out == []) &&
      (!outside && 2 * count != |payload| ==> r.err == ERR_ILLEGAL_DATA_VALUE && r.out == []) &&
      (!outside && 2 * count == |payload| ==> r.out == [sid, fnk] + BE16(sw) + BE16(cw)) &&
      (!outside && 2 * count == |payload| && count == 0 ==> r.err == ERR_OK) &&
      (!outside && 2 * count == |payload| && count > 0 ==> (r.err == ERR_OK <==> WholePins(m, st, start - m.start, count)))
  {
    var start, count := sw as int, cw as int;
    ExactRange(start, count, m.start, |m.regs|);
  }

  /** A successful FC 16 writes the payload words to the requested registers in turn. */
  lemma PresetRegsStore(sid: bv8, fnk: bv8, sw: bv16, cw: bv16, bc: nat, payload: seq<bv8>, m: Regs, st: Store)
    requires RegsOk(m, st) && m.start >= 0 && |m.regs| <= INT_MAX
    requires PresetRegsFields(sid, fnk, sw, cw, bc, payload, m, st).Reply?
    requires PresetRegsFields(sid, fnk, sw, cw, bc, payload, m, st).err == ERR_OK
    ensures var start, count := sw as int, cw as int;
      start >= m.start && start - m.start + count <= |m.regs| && |payload| == 2 * count && bc == 2 * count &&
      PresetRegsFields(sid, fnk, sw, cw, bc, payload, m, st).st == PresetFrom(m, start - m.start, Words(payload, count), 0, st, ZeroVal)
  {
    var start, count := sw as int, cw as int;
    ExactRange(start, count, m.start, |m.regs|);
  }

  /** A successful FC 16 covers whole pins: it neither starts nor ends inside a pin. */
  lemma PresetRegsWhole(sid: bv8, fnk: bv8, sw: bv16, cw: bv16, bc: nat, payload: seq<bv8>, m: Regs, st: Store)
    requires RegsOk(m, st) && m.start >= 0 && |m.regs| <= INT_MAX
    requires PresetRegsFields(sid, fnk, sw, cw, bc, payload, m, st).Reply?
    requires PresetRegsFields(sid, fnk, sw, cw, bc, payload, m, st).err == ERR_OK
    ensures var start, count := sw as int, cw as int;
      start >= m.start && start - m.start + count <= |m.regs| &&
      (count > 0 ==> WholePins(m, st, start - m.start, count))
  {
    PresetRegsChecks(sid, fnk, sw, cw, bc, payload, m, st);
    PresetRegsStore(sid, fnk, sw, cw, bc, payload, m, st);
  }

  /** The FC 16 response is the first six bytes of the request: slave id, function code, start and count. */
  lemma PresetRegsEchoesRequest(sid: bv8, fnk: bv8, req: seq<bv8>, m: Regs, st: Store)
    requires RegsOk(m, st) && |req| >= 5
    requires PresetRegs(sid, fnk, req, m, st).Reply? && PresetRegs(sid, fnk, req, m, st).err == ERR_OK
    ensures PresetRegs(sid, fnk, req, m, st).out == [sid, fnk] + req[..4]
  {
    EchoField(req[0], req[1]);
    EchoField(req[2], req[3]);
    assert req[..4] == [req[0], req[1]] + [req[2], req[3]];
  }

  /** Writing the registers of exactly one pin stores the value their words assemble to. */
  lemma PresetPin(m: Regs, base: nat, p: nat, ws: seq<bv16>, st: Store, pinval: ModbusVal)
    requires RegsOk(m, st) && p < |m.pins| && |ws| == m.pins[p].regCount && base + |ws| <= |m.regs|
    requires m.regs[base] == PinReg(p, 0) && (|ws| == 2 ==> m.regs[base + 1] == PinReg(p, 1))
    ensures PinOk(m.pins[p], st)
    ensures PresetFrom(m, base, ws, 0, st, pinval) == StorePin(st, m.pins[p], Assemble(m.pins[p], ws))
  {
    var pin := m.pins[p];
    assert PinOk(pin, st);
    PresetFromStep(m, base, ws, 0, st, pinval);
    var (st1, pv1) := PresetOne(m, base, ws[0], st, pinval);
    if |ws| == 2 {
      assert st1 == st;
      PresetFromStep(m, base, ws, 1, st1, pv1);
    }
  }

  /**
   * The FC 16 round trip for one pin: after a successful FC 16 whose
   * registers are exactly those of a pin (of two registers, or of one without
   * wordswap), reading those registers back yields the payload that was
   * sent.
   */
  lemma PresetRegsReadBack(sid: bv8, fnk: bv8, sw: bv16, cw: bv16, bc: nat, payload: seq<bv8>, m: Regs, st: Store, j: nat, p: nat)
    requires RegsOk(m, st) && m.start >= 0 && |m.regs| <= INT_MAX
    requires PresetRegsFields(sid, fnk, sw, cw, bc, payload, m, st).Reply?
    requires PresetRegsFields(sid, fnk, sw, cw, bc, payload, m, st).err == ERR_OK
    requires m.start + j == sw as int && p < |m.pins| && cw as int == m.pins[p].regCount
    requires (m.pins[p].regCount == 2 || !m.pins[p].WordSwap())
    requires j < |m.regs| && m.regs[j] == PinReg(p, 0) && (m.pins[p].regCount == 2 ==> j + 1 < |m.regs| && m.regs[j + 1] == PinReg(p, 1))
    ensures var st' := PresetRegsFields(sid, fnk, sw, cw, bc, payload, m, st).st;
      j + cw as int <= |m.regs| && RegsOk(m, st') && RegsOut(m, st', j, cw as int) == payload
  {
    PresetRegsStore(sid, fnk, sw, cw, bc, payload, m, st);
    assert sw as int - m.start == j;
    StoredPinReadBack(m, st, j, p, payload);
  }

  /** The registers of pin p, after the FC 16 loop has written them from a payload, send that payload. */
  lemma StoredPinReadBack(m: Regs, st: Store, j: nat, p: nat, payload: seq<bv8>)
    requires RegsOk(m, st) && p < |m.pins| && |payload| == 2 * m.pins[p].regCount
    requires (m.pins[p].regCount == 2 || !m.pins[p].WordSwap())
    requires j < |m.regs| && m.regs[j] == PinReg(p, 0) && (m.pins[p].regCount == 2 ==> j + 1 < |m.regs| && m.regs[j + 1] == PinReg(p, 1))
    ensures j + m.pins[p].regCount <= |m.regs|
    ensures var st' := PresetFrom(m, j, Words(payload, m.pins[p].regCount), 0, st, ZeroVal);
      RegsOk(m, st') && RegsOut(m, st', j, m.pins[p].regCount) == payload
  {
    assert RegOk(m, j, st);
    PresetPin(m, j, p, Words(payload, m.pins[p].regCount), st, ZeroVal);
    PinReadBack(m, st, j, p, payload);
  }

  /** The registers of pin p, after the pin is written from a payload, send that payload. */
  lemma PinReadBack(m: Regs, st: Store, j: nat, p: nat, payload: seq<bv8>)
    requires RegsOk(m, st) && p < |m.pins| && |payload| == 2 * m.pins[p].regCount
    requires (m.pins[p].regCount == 2 || !m.pins[p].WordSwap())
    requires j < |m.regs| && m.regs[j] == PinReg(p, 0) && (m.pins[p].regCount == 2 ==> j + 1 < |m.regs| && m.regs[j + 1] == PinReg(p, 1))
    ensures PinOk(m.pins[p], st)
    ensures var st' := StorePin(st, m.pins[p], Assemble(m.pins[p], Words(payload, m.pins[p].regCount)));
      j + m.pins[p].regCount <= |m.regs| && RegsOk(m, st') && RegsOut(m, st', j, m.pins[p].regCount) == payload
  {
    var count := m.pins[p].regCount;
    var ws := Words(payload, count);
    var st' := StorePin(st, m.pins[p], Assemble(m.pins[p], ws));
    WordReadBack(m, st, j, p, 0, ws, payload[0], payload[1]);
    assert RegsOut(m, st', j, 1) == RegBytes(m, st', j);
    if count == 2 {
      WordReadBack(m, st, j + 1, p, 1, ws, payload[2], payload[3]);
      assert RegsOut(m, st', j, 2) == RegsOut(m, st', j, 1) + RegBytes(m, st', j + 1);
      Pairs(payload);
    } else {
      Pair(payload);
    }
  }

  /** Two pins whose values live in different HAL cells. */
  predicate SeparateCells(a: RegPin, b: RegPin) {
    a.halType != b.halType || a.cell != b.cell
  }

  /**
   * Registers base .. base + count - 1 are pin registers only, none of a
   * one-register pin with wordswap, and pins that start at different
   * registers of the range keep their values in different cells.
   */
  predicate SeparatePins(m: Regs, base: nat, count: nat)
    requires base + count <= |m.regs|
  {
    (forall i | base <= i < base + count :: PlainPinReg(m, i)) &&
    (forall i1, i2 | base <= i1 < i2 < base + count :: HeadsSeparate(m, i1, i2))
  }

  /** Register i is a word of a pin that has two registers or no wordswap. */
  predicate PlainPinReg(m: Regs, i: nat)
    requires i < |m.regs|
  {
    m.regs[i].PinReg? && m.regs[i].pin < |m.pins| &&
    (m.pins[m.regs[i].pin].regCount == 2 || !m.pins[m.regs[i].pin].WordSwap())
  }

  /** Register r is a word of a pin that keeps its value in a different cell than pin q. */
  predicate ApartFrom(m: Regs, q: RegPin, r: nat)
    requires r < |m.regs|
  {
    m.regs[r].PinReg? && m.regs[r].pin < |m.pins| && SeparateCells(q, m.pins[m.regs[r].pin])
  }

  /** When registers i1 and i2 both start a pin, the two pins keep their values in different cells. */
  predicate HeadsSeparate(m: Regs, i1: nat, i2: nat)
    requires i1 < |m.regs| && i2 < |m.regs|
  {
    m.regs[i1].PinReg? && m.regs[i1].index == 0 && m.regs[i1].pin < |m.pins| &&
    m.regs[i2].PinReg? && m.regs[i2].index == 0 && m.regs[i2].pin < |m.pins| ==>
    SeparateCells(m.pins[m.regs[i1].pin], m.pins[m.regs[i2].pin])
  }

  /**
   * The FC 16 round trip over a range of several whole pins: after a
   * successful FC 16 over registers that are SeparatePins, reading them back
   * yields the payload that was sent.
   */
  lemma PresetRegsRangeReadBack(sid: bv8, fnk: bv8, sw: bv16, cw: bv16, bc: nat, payload: seq<bv8>, m: Regs, st: Store, j: nat)
    requires RegsOk(m, st) && m.start >= 0 && |m.regs| <= INT_MAX
    requires PresetRegsFields(sid, fnk, sw, cw, bc, payload, m, st).Reply?
    requires PresetRegsFields(sid, fnk, sw, cw, bc, payload, m, st).err == ERR_OK
    requires m.start + j == sw as int && j + cw as int <= |m.regs| && SeparatePins(m, j, cw as int)
    ensures var st' := PresetRegsFields(sid, fnk, sw, cw, bc, payload, m, st).st;
      RegsOk(m, st') && RegsOut(m, st', j, cw as int) == payload
  {
    PresetRegsStore(sid, fnk, sw, cw, bc, payload, m, st);
    PresetRegsWhole(sid, fnk, sw, cw, bc, payload, m, st);
    assert sw as int - m.start == j;
    StoredRangeFrom(m, st, j, cw as int, payload);
  }

  /**
   * FC 3 over the range a successful FC 16 wrote (whole, separate pins)
   * answers with the payload FC 16 was sent, whenever it fits one reply.
   */
  lemma PresetRegsRangeRereads(sid: bv8, fnk: bv8, sw: bv16, cw: bv16, bc: nat, payload: seq<bv8>, m: Regs, st: Store, j: nat)
    requires RegsOk(m, st) && m.start >= 0 && |m.regs| <= INT_MAX
    requires PresetRegsFields(sid, fnk, sw, cw, bc, payload, m, st).Reply?
    requires PresetRegsFields(sid, fnk, sw, cw, bc, payload, m, st).err == ERR_OK
    requires m.start + j == sw as int && j + cw as int <= |m.regs| && SeparatePins(m, j, cw as int)
    ensures var st', n := PresetRegsFields(sid, fnk, sw, cw, bc, payload, m, st).st, cw as int;
      RegsOk(m, st') &&
      (2 * n <= 255 ==> ReadRegsFields(sid, FNK_READ_HOLDING_REG, sw as int, n, m, st') ==
                         Reply(ERR_OK, [sid, FNK_READ_HOLDING_REG, (2 * n) as bv8] + payload, st'))
  {
    PresetRegsStore(sid, fnk, sw, cw, bc, payload, m, st);
    PresetRegsWhole(sid, fnk, sw, cw, bc, payload, m, st);
    RereadStoredRange(sid, sw as int, m, st, j, cw as int, payload);
  }

  /** FC 3 over whole, separate pins after the FC 16 loop has written them from a payload answers with that payload. */
  lemma RereadStoredRange(sid: bv8, start: nat, m: Regs, st: Store, j: nat, n: nat, payload: seq<bv8>)
    requires RegsOk(m, st) && 0 <= m.start && start == m.start + j && start <= 65535 && |m.regs| <= INT_MAX
    requires j + n <= |m.regs| && |payload| == 2 * n && SeparatePins(m, j, n) && (n > 0 ==> WholePins(m, st, j, n))
    ensures var st' := PresetFrom(m, j, Words(payload, n), 0, st, ZeroVal);
      RegsOk(m, st') &&
      (2 * n <= 255 ==> ReadRegsFields(sid, FNK_READ_HOLDING_REG, start, n, m, st') ==
                         Reply(ERR_OK, [sid, FNK_READ_HOLDING_REG, (2 * n) as bv8] + payload, st'))
  {
    StoredRangeFrom(m, st, j, n, payload);
    var st' := PresetFrom(m, j, Words(payload, n), 0, st, ZeroVal);
    if 2 * n <= 255 {
      if n > 0 {
        WholePinsOfShape(m, st, st', j, n);
      }
      RereadRange(sid, start, m, st', j, n, payload);
    }
  }

  /** FC 3 over whole pins j .. j + n - 1 that send a payload answers with that payload. */
  lemma RereadRange(sid: bv8, start: nat, m: Regs, st: Store, j: nat, n: nat, payload: seq<bv8>)
    requires RegsOk(m, st) && 0 <= m.start && start == m.start + j && start <= 65535 && |m.regs| <= INT_MAX
    requires j + n <= |m.regs| && 2 * n <= 255 && (n > 0 ==> WholePins(m, st, j, n))
    requires RegsOut(m, st, j, n) == payload
    ensures ReadRegsFields(sid, FNK_READ_HOLDING_REG, start, n, m, st) ==
      Reply(ERR_OK, [sid, FNK_READ_HOLDING_REG, (2 * n) as bv8] + payload, st)
  {
    ReadRegsOutcome(sid, FNK_READ_HOLDING_REG, start, n, m, st);
  }

  /** Whether a range covers whole pins depends on the map alone, not on the values in the store. */
  lemma WholePinsOfShape(m: Regs, st: Store, st': Store, j: nat, n: nat)
    requires RegsOk(m, st) && RegsOk(m, st') && 0 < n && j + n <= |m.regs|
    ensures WholePins(m, st, j, n) == WholePins(m, st', j, n)
  {
  }

  /** StoredRangeReadBack, extended to the empty range. */
  lemma StoredRangeFrom(m: Regs, st: Store, j: nat, n: nat, payload: seq<bv8>)
    requires RegsOk(m, st) && j + n <= |m.regs| && |payload| == 2 * n && SeparatePins(m, j, n)
    requires n > 0 ==> WholePins(m, st, j, n)
    ensures var st' := PresetFrom(m, j, Words(payload, n), 0, st, ZeroVal);
      RegsOk(m, st') && RegsOut(m, st', j, n) == payload
  {
    if n > 0 {
      StoredRangeReadBack(m, st, j, n, payload);
    } else {
      assert Words(payload, 0) == [];
    }
  }

  /** Registers j .. j + n - 1 are a non-empty range of whole, separate pins. */
  predicate PinRange(m: Regs, st: Store, j: nat, n: nat) {
    RegsOk(m, st) && 0 < n && j + n <= |m.regs| && WholePins(m, st, j, n) && SeparatePins(m, j, n)
  }

  /**
   * Pin p, of c registers, starts the range j .. j + n - 1 and has been
   * written in st1, so that its registers send the first 2 * c bytes of the
   * payload, and no later register of the range shares its cell.
   */
  predicate FirstPinWritten(m: Regs, st1: Store, j: nat, n: nat, p: nat, payload: seq<bv8>) {
    p < |m.pins| && j < |m.regs| && j + n <= |m.regs| && m.regs[j] == PinReg(p, 0) &&
    0 < m.pins[p].regCount <= n && |payload| == 2 * n &&
    RegsOk(m, st1) && PinOk(m.pins[p], st1) &&
    RegsOut(m, st1, j, m.pins[p].regCount) == payload[..2 * m.pins[p].regCount] &&
    (forall r | j + m.pins[p].regCount <= r < j + n :: ApartFrom(m, m.pins[p], r))
  }

  /** Registers j .. j + n - 1, whole and separate pins, after the FC 16 loop has written them from a payload, send that payload. */
  lemma {:induction false} StoredRangeReadBack(m: Regs, st: Store, j: nat, n: nat, payload: seq<bv8>)
    requires PinRange(m, st, j, n) && |payload| == 2 * n
    ensures var st' := PresetFrom(m, j, Words(payload, n), 0, st, ZeroVal);
      RegsOk(m, st') && RegsOut(m, st', j, n) == payload
    decreases n
  {
    var p, c, st1 := FirstPinStep(m, st, j, n, payload);
    if c == n {
      LastPinReadBack(m, st1, j, n, p, payload);
    } else {
      StoredRangeReadBack(m, st1, j + c, n - c, payload[2 * c..]);
      RestReadBack(m, st1, j, n, p, payload);
    }
  }

  /** A range that is a single written pin sends the payload once the loop has no words left. */
  lemma LastPinReadBack(m: Regs, st1: Store, j: nat, n: nat, p: nat, payload: seq<bv8>)
    requires FirstPinWritten(m, st1, j, n, p, payload) && m.pins[p].regCount == n
    ensures var st' := PresetFrom(m, j + n, Words(payload[2 * n..], 0), 0, st1, ZeroVal);
      RegsOk(m, st') && RegsOut(m, st', j, n) == payload
  {
    PresetFromEmpty(m, j + n, Words(payload[2 * n..], 0), st1, ZeroVal);
    assert payload[..2 * n] == payload;
  }

  /**
   * A range whose first pin p is written in st1, and whose rest, written by
   * the loop after p, sends the rest of the payload: the whole range sends
   * the payload.
   */
  lemma RestReadBack(m: Regs, st1: Store, j: nat, n: nat, p: nat, payload: seq<bv8>)
    requires FirstPinWritten(m, st1, j, n, p, payload) && m.pins[p].regCount < n
    requires var c := m.pins[p].regCount;
      var st' := PresetFrom(m, j + c, Words(payload[2 * c..], n - c), 0, st1, ZeroVal);
      RegsOk(m, st') && RegsOut(m, st', j + c, n - c) == payload[2 * c..]
    ensures var c := m.pins[p].regCount;
      var st' := PresetFrom(m, j + c, Words(payload[2 * c..], n - c), 0, st1, ZeroVal);
      RegsOut(m, st', j, n) == payload
  {
    var c := m.pins[p].regCount;
    var ws := Words(payload[2 * c..], n - c);
    PresetFromKeepsCell(m, j + c, ws, 0, st1, ZeroVal, m.pins[p]);
    JoinReadBack(m, st1, PresetFrom(m, j + c, ws, 0, st1, ZeroVal), j, n, p, payload);
  }

  /** The FC 16 loop over no words leaves the store as it is. */
  lemma PresetFromEmpty(m: Regs, base: nat, ws: seq<bv16>, st: Store, pinval: ModbusVal)
    requires RegsOk(m, st) && base <= |m.regs| && ws == []
    ensures PresetFrom(m, base, ws, 0, st, pinval) == st
  {
  }

  /**
   * The FC 16 loop over a range of whole, separate pins, once its first pin
   * p (of c registers) is written: p sends its part of the payload, the
   * rest is again a range of whole, separate pins, and none of its registers
   * shares p's cell.
   */
  lemma FirstPinStep(m: Regs, st: Store, j: nat, n: nat, payload: seq<bv8>) returns (p: nat, c: nat, st1: Store)
    requires PinRange(m, st, j, n) && |payload| == 2 * n
    ensures FirstPinWritten(m, st1, j, n, p, payload) && c == m.pins[p].regCount
    ensures PresetFrom(m, j, Words(payload, n), 0, st, ZeroVal) == PresetFrom(m, j + c, Words(payload[2 * c..], n - c), 0, st1, ZeroVal)
    ensures c < n ==> PinRange(m, st1, j + c, n - c)
  {
    p := FirstPin(m, st, j, n);
    var pin := m.pins[p];
    c := pin.regCount;
    var ws := Words(payload, n);
    WordsSplit(payload, n, c);
    PresetFirstPin(m, j, p, ws, st, ZeroVal);
    st1 := StorePin(st, pin, Assemble(pin, ws[..c]));
    PinReadBack(m, st, j, p, payload[..2 * c]);
    if c < n {
      RestWholePins(m, st, st1, j, n, c);
    }
    FirstPinSeparate(m, st, j, n, p);
  }

  /** A range of whole, separate pins starts with a pin p of at most n registers, with wordswap only when p has two. */
  lemma FirstPin(m: Regs, st: Store, j: nat, n: nat) returns (p: nat)
    requires PinRange(m, st, j, n)
    ensures p < |m.pins| && m.regs[j] == PinReg(p, 0) && PinOk(m.pins[p], st) && m.pins[p].regCount <= n
    ensures m.pins[p].regCount == 2 || !m.pins[p].WordSwap()
    ensures m.pins[p].regCount == 2 ==> j + 1 < |m.regs| && m.regs[j + 1] == PinReg(p, 1)
    ensures m.pins[p].regCount < n ==> m.regs[j + m.pins[p].regCount].PinReg? && m.regs[j + m.pins[p].regCount].index == 0
  {
    assert PlainPinReg(m, j);
    p := m.regs[j].pin;
    assert RegOk(m, j, st);
    assert PinOk(m.pins[p], st);
    var c := m.pins[p].regCount;
    assert c <= n by {
      assert RegOk(m, j + n - 1, st);
    }
    if c < n {
      NextPinHead(m, st, j + c - 1);
      assert PlainPinReg(m, j + c);
    }
  }

  /** The payload words of a range, cut after the first c: the words of the two parts of the payload. */
  lemma WordsSplit(payload: seq<bv8>, n: nat, c: nat)
    requires |payload| == 2 * n && c <= n
    ensures Words(payload, n)[..c] == Words(payload[..2 * c], c)
    ensures Words(payload, n)[c..] == Words(payload[2 * c..], n - c)
  {
  }

  /** The rest of a range of whole, separate pins after its first c registers, over a store of the same shape. */
  lemma RestWholePins(m: Regs, st: Store, st1: Store, j: nat, n: nat, c: nat)
    requires RegsOk(m, st) && RegsOk(m, st1) && 0 < c < n && j + n <= |m.regs|
    requires WholePins(m, st, j, n) && SeparatePins(m, j, n)
    requires m.regs[j + c].PinReg? && m.regs[j + c].index == 0
    ensures WholePins(m, st1, j + c, n - c) && SeparatePins(m, j + c, n - c)
  {
    assert RegOk(m, j + n - 1, st1);
  }

  /** No register after the first pin of a range of separate pins shares that pin's cell. */
  lemma FirstPinSeparate(m: Regs, st: Store, j: nat, n: nat, p: nat)
    requires RegsOk(m, st) && j + n <= |m.regs| && SeparatePins(m, j, n) && p < |m.pins| && 0 < n && m.regs[j] == PinReg(p, 0)
    ensures forall r | j + m.pins[p].regCount <= r < j + n :: ApartFrom(m, m.pins[p], r)
  {
    forall r | j + m.pins[p].regCount <= r < j + n
      ensures ApartFrom(m, m.pins[p], r)
    {
      assert RegOk(m, r, st);
      assert PlainPinReg(m, r);
      assert RegOk(m, j, st);
      if m.regs[r].index > 0 {
        assert m.regs[r - 1] == PinReg(m.regs[r].pin, m.regs[r].index - 1);
        assert RegOk(m, r - 1, st);
        assert HeadsSeparate(m, j, r - 1);
      } else {
        assert HeadsSeparate(m, j, r);
      }
    }
  }

  /**
   * A range whose first pin p sends the head of the payload from st1, read
   * from a store st' that keeps p's cell and in which the rest of the range
   * sends the tail: the range sends the whole payload.
   */
  lemma JoinReadBack(m: Regs, st1: Store, st': Store, j: nat, n: nat, p: nat, payload: seq<bv8>)
    requires RegsOk(m, st1) && RegsOk(m, st') && p < |m.pins| && j < |m.regs| && m.regs[j] == PinReg(p, 0)
    requires m.pins[p].regCount < n && j + n <= |m.regs| && |payload| == 2 * n
    requires PinOk(m.pins[p], st1) && PinOk(m.pins[p], st') && CellBits(m.pins[p], st') == CellBits(m.pins[p], st1)
    requires RegsOut(m, st1, j, m.pins[p].regCount) == payload[..2 * m.pins[p].regCount]
    requires RegsOut(m, st', j + m.pins[p].regCount, n - m.pins[p].regCount) == payload[2 * m.pins[p].regCount..]
    ensures RegsOut(m, st', j, n) == payload
  {
    var c := m.pins[p].regCount;
    PinRegsOutFrame(m, st1, st', j, p);
    RegsOutSplit(m, st', j, c, n);
    assert payload == payload[..2 * c] + payload[2 * c..];
  }

  /** The registers of pin p send the same bytes from two stores in which p's cell is the same. */
  lemma PinRegsOutFrame(m: Regs, a: Store, b: Store, j: nat, p: nat)
    requires RegsOk(m, a) && RegsOk(m, b) && p < |m.pins| && j < |m.regs| && m.regs[j] == PinReg(p, 0)
    requires PinOk(m.pins[p], a) && PinOk(m.pins[p], b) && CellBits(m.pins[p], a) == CellBits(m.pins[p], b)
    ensures j + m.pins[p].regCount <= |m.regs|
    ensures RegsOut(m, a, j, m.pins[p].regCount) == RegsOut(m, b, j, m.pins[p].regCount)
  {
    var c := m.pins[p].regCount;
    assert RegOk(m, j, a);
    forall r | j <= r < j + c ensures m.regs[r].PinReg? && m.regs[r].pin == p {
    }
    RegsOutFrame(m, a, b, j, c, p);
  }

  /** The register after the last word of a pin starts a pin or is a bit register. */
  lemma NextPinHead(m: Regs, st: Store, r: nat)
    requires RegsOk(m, st) && r + 1 < |m.regs| && m.regs[r].PinReg? && m.regs[r].pin < |m.pins|
    requires m.regs[r].index + 1 == m.pins[m.regs[r].pin].regCount
    ensures m.regs[r + 1].Index() == 0
  {
    assert RegOk(m, r + 1, st);
  }

  /**
   * The FC 16 loop over a range that starts with pin p: once p's registers
   * are written, p's cell holds the value its words assemble to, and the
   * rest of the range proceeds as a loop of its own.
   */
  lemma PresetFirstPin(m: Regs, j: nat, p: nat, ws: seq<bv16>, st: Store, pinval: ModbusVal)
    requires RegsOk(m, st) && j < |m.regs| && j + |ws| <= |m.regs| && p < |m.pins| && m.regs[j] == PinReg(p, 0)
    requires m.pins[p].regCount <= |ws|
    requires m.pins[p].regCount < |ws| ==> m.regs[j + m.pins[p].regCount].PinReg? && m.regs[j + m.pins[p].regCount].index == 0
    ensures PinOk(m.pins[p], st)
    ensures RegsOk(m, StorePin(st, m.pins[p], Assemble(m.pins[p], ws[..m.pins[p].regCount])))
    ensures var c := m.pins[p].regCount;
      PresetFrom(m, j, ws, 0, st, pinval) == PresetFrom(m, j + c, ws[c..], 0, StorePin(st, m.pins[p], Assemble(m.pins[p], ws[..c])), ZeroVal)
  {
    var c := m.pins[p].regCount;
    var st1, pv := PinWordsStep(m, j, p, ws, st, pinval);
    PresetFromShift(m, j, ws, c, c, st1, pv);
    PresetFromHead(m, j + c, ws[c..], st1, pv);
  }

  /** The FC 16 loop over the words of pin p, the first of a range: p's cell receives the value they assemble to. */
  lemma PinWordsStep(m: Regs, j: nat, p: nat, ws: seq<bv16>, st: Store, pinval: ModbusVal) returns (st1: Store, pv: ModbusVal)
    requires RegsOk(m, st) && j < |m.regs| && j + |ws| <= |m.regs| && p < |m.pins| && m.regs[j] == PinReg(p, 0)
    requires m.pins[p].regCount <= |ws|
    ensures PinOk(m.pins[p], st) && RegsOk(m, st1)
    ensures st1 == StorePin(st, m.pins[p], Assemble(m.pins[p], ws[..m.pins[p].regCount]))
    ensures PresetFrom(m, j, ws, 0, st, pinval) == PresetFrom(m, j, ws, m.pins[p].regCount, st1, pv)
  {
    var pin := m.pins[p];
    assert RegOk(m, j, st);
    assert PinOk(pin, st);
    PresetFromStep(m, j, ws, 0, st, pinval);
    var r := PresetOne(m, j, ws[0], st, pinval);
    if pin.regCount == 2 {
      assert r.0 == st;
      PresetFromStep(m, j, ws, 1, r.0, r.1);
      r := PresetOne(m, j + 1, ws[1], r.0, r.1);
    }
    st1, pv := r.0, r.1;
    RegsOkSameShape(m, st, st1);
  }

  /** The FC 16 loop from index i is the loop over the words from c on, started at register base + c. */
  lemma {:induction false} PresetFromShift(m: Regs, base: nat, ws: seq<bv16>, c: nat, i: nat, st: Store, pinval: ModbusVal)
    requires RegsOk(m, st) && base + |ws| <= |m.regs| && c <= i <= |ws|
    ensures PresetFrom(m, base, ws, i, st, pinval) == PresetFrom(m, base + c, ws[c..], i - c, st, pinval)
    decreases |ws| - i
  {
    if i < |ws| {
      PresetFromStep(m, base, ws, i, st, pinval);
      PresetFromStep(m, base + c, ws[c..], i - c, st, pinval);
      assert ws[c..][i - c] == ws[i];
      var r := PresetOne(m, base + i, ws[i], st, pinval);
      PresetFromShift(m, base, ws, c, i + 1, r.0, r.1);
    }
  }

  /** A loop that starts at the first word of a pin does not depend on the union value it is handed. */
  lemma PresetFromHead(m: Regs, base: nat, ws: seq<bv16>, st: Store, pinval: ModbusVal)
    requires RegsOk(m, st) && base + |ws| <= |m.regs|
    requires |ws| > 0 ==> m.regs[base].PinReg? && m.regs[base].index == 0
    ensures PresetFrom(m, base, ws, 0, st, pinval) == PresetFrom(m, base, ws, 0, st, ZeroVal)
  {
    if |ws| > 0 {
      PresetFromStep(m, base, ws, 0, st, pinval);
      PresetFromStep(m, base, ws, 0, st, ZeroVal);
      assert RegOk(m, base, st);
      assert PresetOne(m, base, ws[0], st, pinval) == PresetOne(m, base, ws[0], st, ZeroVal);
    }
  }

  /** The FC 16 loop keeps the cell of a pin q that no register of the rest of the range shares. */
  lemma {:induction false} PresetFromKeepsCell(m: Regs, base: nat, ws: seq<bv16>, i: nat, st: Store, pinval: ModbusVal, q: RegPin)
    requires RegsOk(m, st) && base + |ws| <= |m.regs| && i <= |ws| && PinOk(q, st)
    requires forall r | base + i <= r < base + |ws| :: ApartFrom(m, q, r)
    ensures PinOk(q, PresetFrom(m, base, ws, i, st, pinval))
    ensures CellBits(q, PresetFrom(m, base, ws, i, st, pinval)) == CellBits(q, st)
    decreases |ws| - i
  {
    if i < |ws| {
      PresetFromStep(m, base, ws, i, st, pinval);
      var r := PresetOne(m, base + i, ws[i], st, pinval);
      assert RegOk(m, base + i, st);
      assert ApartFrom(m, q, base + i);
      assert PinOk(m.pins[m.regs[base + i].pin], st);
      assert PinOk(q, r.0) && CellBits(q, r.0) == CellBits(q, st);
      PresetFromKeepsCell(m, base, ws, i + 1, r.0, r.1, q);
    }
  }

  /** Registers of pin p send the same bytes from two stores in which p's cell is the same. */
  lemma {:induction false} RegsOutFrame(m: Regs, a: Store, b: Store, base: nat, n: nat, p: nat)
    requires RegsOk(m, a) && RegsOk(m, b) && base + n <= |m.regs| && p < |m.pins|
    requires forall r | base <= r < base + n :: m.regs[r].PinReg? && m.regs[r].pin == p
    requires PinOk(m.pins[p], a) && PinOk(m.pins[p], b) && CellBits(m.pins[p], a) == CellBits(m.pins[p], b)
    ensures RegsOut(m, a, base, n) == RegsOut(m, b, base, n)
  {
    if n > 0 {
      RegsOutFrame(m, a, b, base, n - 1, p);
      assert RegOk(m, base + n - 1, a);
      assert RegBytes(m, a, base + n - 1) == RegBytes(m, b, base + n - 1);
    }
  }

  /** The bytes of a range of registers are those of its first c registers, then those of the rest. */
  lemma {:induction false} RegsOutSplit(m: Regs, st: Store, base: nat, c: nat, n: nat)
    requires RegsOk(m, st) && c <= n && base + n <= |m.regs|
    ensures RegsOut(m, st, base, n) == RegsOut(m, st, base, c) + RegsOut(m, st, base + c, n - c)
  {
    if n > c {
      RegsOutSplit(m, st, base, c, n - 1);
      var front, mid, last := RegsOut(m, st, base, c), RegsOut(m, st, base + c, n - c - 1), RegBytes(m, st, base + n - 1);
      assert RegsOut(m, st, base + c, n - c) == mid + last;
      assert (front + mid) + last == front + (mid + last);
    }
  }

  lemma Pair(s: seq<bv8>)
    requires |s| == 2
    ensures s == [s[0], s[1]]
  {
  }

  lemma Pairs(s: seq<bv8>)
    requires |s| == 4
    ensures s == [s[0], s[1]] + [s[2], s[3]]
  {
  }

  /** Register k of a pin written from host words ws sends the two payload bytes that word k was loaded from. */
  lemma WordReadBack(m: Regs, st: Store, j: nat, p: nat, k: nat, ws: seq<bv16>, b0: bv8, b1: bv8)
    requires RegsOk(m, st) && j < |m.regs| && m.regs[j] == PinReg(p, k) && p < |m.pins|
    requires |ws| == m.pins[p].regCount && (m.pins[p].regCount == 2 || !m.pins[p].WordSwap())
    requires k < |ws| && ws[k] == LoadLE16(b0, b1)
    ensures PinOk(m.pins[p], st)
    ensures var st' := StorePin(st, m.pins[p], Assemble(m.pins[p], ws));
      RegsOk(m, st') && RegBytes(m, st', j) == [b0, b1]
  {
    ReadAfterStore(m, st, j, p, k, ws);
    StoreLoad16(b0, b1);
  }

  /**
   * The FC 16 bit-register defect on a concrete request: FC 16 hands a bit
   * register the word as loaded from the payload, without ntohs, while FC 3
   * sends it with htons. With one bit pin on bit 0 of register 0, writing
   * the register value 0x0100 (payload 01 00, bit 8) sets the pin of bit 0,
   * and reading the register back answers 00 01.
   */
  lemma PresetRegsBitRegisterSwaps()
    ensures var m := Regs(0, [BitReg([RegBitPin("bit0", 0, 0)])], []);
      var r := PresetRegsFields(1, 16, 0, 1, 2, [0x01, 0x00], m, Store([false], [], [], []));
      r == Reply(ERR_OK, [1, 16, 0, 0, 0, 1], Store([true], [], [], [])) &&
      ReadRegsFields(1, 3, 0, 1, m, r.st) == Reply(ERR_OK, [1, 3, 2, 0x00, 0x01], r.st)
  {
    BitRegisterWrite();
    BitRegisterRead();
  }

  /** The write half: payload 01 00 sets the pin of bit 0. */
  lemma BitRegisterWrite()
    ensures PresetRegsFields(1, 16, 0, 1, 2, [0x01, 0x00], Regs(0, [BitReg([RegBitPin("bit0", 0, 0)])], []), Store([false], [], [], []))
         == Reply(ERR_OK, [1, 16, 0, 0, 0, 1], Store([true], [], [], []))
  {
    var m := Regs(0, [BitReg([RegBitPin("bit0", 0, 0)])], []);
    var st := Store([false], [], [], []);
    var st' := Store([true], [], [], []);
    assert Words([0x01, 0x00], 1) == [0x0001];
    assert WriteBitReg(st, [RegBitPin("bit0", 0, 0)], 0x0001) == st';
    assert PresetFrom(m, 0, [0x0001], 0, st, ZeroVal) == st';
  }

  /** The read half: with the pin of bit 0 set, FC 3 answers 00 01. */
  lemma BitRegisterRead()
    ensures ReadRegsFields(1, 3, 0, 1, Regs(0, [BitReg([RegBitPin("bit0", 0, 0)])], []), Store([true], [], [], []))
         == Reply(ERR_OK, [1, 3, 2, 0x00, 0x01], Store([true], [], [], []))
  {
    var m := Regs(0, [BitReg([RegBitPin("bit0", 0, 0)])], []);
    var st' := Store([true], [], [], []);
    assert RegsOk(m, st');
    assert BitRegValue([RegBitPin("bit0", 0, 0)], st') == 0x0001;
    assert RegBytes(m, st', 0) == [0x00, 0x01];
    assert RegsOut(m, st', 0, 1) == [0x00, 0x01];
  }
}
