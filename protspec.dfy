/**
 * The Modbus PDU engine of mbslave_prot.c as functions. For each function
 * code handler: the return code, the bytes it appends to the response and
 * the pin store it leaves, all in terms of the request bytes that follow the
 * slave id and function code. A handler that dereferences the NULL result of
 * a vector lookup yields `Crash`, and nothing is said about what it leaves.
 *
 * Request fields are read as the source reads them: a host word pulled from
 * the buffer and then ntohs, which is the big-endian value of the two bytes
 * (Bytes.NtohsLoad). Address arithmetic follows the C types: the request
 * fields are uint16_t, a map's start is an int and a vector's count a
 * size_t, so `map.start + count` is computed modulo 2^64 and the rebased
 * start `start -= map.start` modulo 2^16.
 */
module ProtSpec {
  import opened Bytes
  import opened Topology
  import opened Packing
  import opened Wrappers

  /** MB_FNK_*: the function codes the engine serves. */
  const FNK_READ_COIL_STATUS: bv8 := 1
  const FNK_READ_INPUT_STATUS: bv8 := 2
  const FNK_READ_HOLDING_REG: bv8 := 3
  const FNK_READ_INPUT_REG: bv8 := 4
  const FNK_FORCE_SINGLE_COIL: bv8 := 5
  const FNK_PRESET_SINGLE_REG: bv8 := 6
  const FNK_FORCE_MULTI_COIL: bv8 := 15
  const FNK_PRESET_MULTI_REG: bv8 := 16

  /** MB_ERR_*: handler return codes, which are also the Modbus exception codes. */
  const ERR_OK: bv8 := 0
  const ERR_INVALID_FUNCTION: bv8 := 1
  const ERR_ILLEGAL_DATA_ADDRESS: bv8 := 2
  const ERR_ILLEGAL_DATA_VALUE: bv8 := 3
  const ERR_SLAVE_DEVICE_FAILURE: bv8 := 4

  /** What a handler leaves: its return code, the bytes it appended and the store; or a NULL dereference. */
  datatype Reply = Reply(err: bv8, out: seq<bv8>, st: Store) | Crash

  /** The uint16_t value of a big-endian request field. */
  function Field(hi: bv8, lo: bv8): nat {
    BE16Value(hi, lo) as int
  }

  const SIZE_T_MOD: int := 0x1_0000_0000_0000_0000

  /** An int converted to size_t. */
  function SizeT(x: int): nat {
    x % SIZE_T_MOD
  }

  /** The range check of the multi-item handlers: `start < m.start || start + count > m.start + m.count`. */
  predicate RangeFails(start: nat, count: nat, mapStart: int, n: nat) {
    start < mapStart || start + count > SizeT(mapStart + n)
  }

  /** The range check of the single-item handlers: `addr < m.start || addr >= m.start + m.count`. */
  predicate AddrFails(addr: nat, mapStart: int, n: nat) {
    addr < mapStart || addr >= SizeT(mapStart + n)
  }

  /** `start -= m.start` on a uint16_t. */
  function Rebase(start: nat, mapStart: int): nat {
    (start - mapStart) % 0x1_0000
  }

  // ---------------------------------------------------------------------
  // Coils and discrete inputs
  // ---------------------------------------------------------------------

  /** The values of count bit pins of map m from pin base on. */
  function BitValues(m: Bits, st: Store, base: nat, count: nat): (r: seq<bool>)
    requires BitsOk(m, st) && base + count <= |m.pins|
    ensures |r| == count
  {
    seq(count, i requires 0 <= i < count => st.bits[m.pins[base + i].cell])
  }

  /** The store after bit pins base + i, base + i + 1, ... of map m have been set to vs[i..] in turn. */
  function SetBitPins(st: Store, m: Bits, base: nat, vs: seq<bool>, i: nat): (r: Store)
    requires BitsOk(m, st) && base + |vs| <= |m.pins| && i <= |vs|
    ensures SameShape(st, r)
    decreases |vs| - i
  {
    if i == |vs| then st
    else SetBitPins(st.(bits := st.bits[m.pins[base + i].cell := vs[i]]), m, base, vs, i + 1)
  }

  /** lcmbsProtReadBits (FC 1 and 2). */
  function ReadBits(sid: bv8, fnk: bv8, req: seq<bv8>, m: Bits, st: Store): Reply
    requires BitsOk(m, st)
  {
    if |req| < 4 then Reply(ERR_INVALID_FUNCTION, [], st)
    else ReadBitsFields(sid, fnk, Field(req[0], req[1]), Field(req[2], req[3]), m, st)
  }

  /** lcmbsProtReadBits once the start and count fields are read. */
  function ReadBitsFields(sid: bv8, fnk: bv8, start: nat, count: nat, m: Bits, st: Store): Reply
    requires BitsOk(m, st)
  {
    if RangeFails(start, count, m.start, |m.pins|) || ByteCount(count) > 255 then
      Reply(ERR_ILLEGAL_DATA_ADDRESS, [], st)
    else
      var header := [sid, fnk, ByteCount(count) as bv8];
      var base := Rebase(start, m.start);
      if count == 0 then Reply(ERR_OK, header, st)
      else if base + count > |m.pins| then Crash
      else Reply(ERR_OK, header + PackBits(BitValues(m, st, base, count)), st)
  }

  /** lcmbsProtForceBit (FC 5). */
  function ForceBit(sid: bv8, fnk: bv8, req: seq<bv8>, m: Bits, st: Store): Reply
    requires BitsOk(m, st)
  {
    if |req| < 4 then Reply(ERR_INVALID_FUNCTION, [], st)
    else ForceBitFields(sid, fnk, BE16Value(req[0], req[1]), BE16Value(req[2], req[3]), m, st)
  }

  /** lcmbsProtForceBit once the address and value fields are read. */
  function ForceBitFields(sid: bv8, fnk: bv8, addr: bv16, val: bv16, m: Bits, st: Store): Reply
    requires BitsOk(m, st)
  {
    if AddrFails(addr as int, m.start, |m.pins|) then Reply(ERR_ILLEGAL_DATA_ADDRESS, [], st)
    else if val != 0x0000 && val != 0xff00 then Reply(ERR_ILLEGAL_DATA_VALUE, [], st)
    else
      var idx := SizeT(addr as int - m.start);
      if idx >= |m.pins| then Crash
      else Reply(ERR_OK, [sid, fnk] + BE16(addr) + BE16(val), st.(bits := st.bits[m.pins[idx].cell := val != 0]))
  }

  /** lcmbsProtForceBits (FC 15). */
  function ForceBits(sid: bv8, fnk: bv8, req: seq<bv8>, m: Bits, st: Store): Reply
    requires BitsOk(m, st)
  {
    if |req| < 5 then Reply(ERR_INVALID_FUNCTION, [], st)
    else ForceBitsFields(sid, fnk, Field(req[0], req[1]), BE16Value(req[2], req[3]), req[4] as int, req[5..], m, st)
  }

  /**
   * lcmbsProtForceBits once the start, count and byte count fields are read;
   * payload is what is left of the request.
   */
  function ForceBitsFields(sid: bv8, fnk: bv8, start: nat, cw: bv16, bc: nat, payload: seq<bv8>, m: Bits, st: Store): Reply
    requires BitsOk(m, st)
  {
    var count := cw as int;
    if RangeFails(start, count, m.start, |m.pins|) || ByteCount(count) != bc then
      Reply(ERR_ILLEGAL_DATA_ADDRESS, [], st)
    else if ByteCount(count) != |payload| then Reply(ERR_ILLEGAL_DATA_VALUE, [], st)
    else
      var base := Rebase(start, m.start);
      var echo := [sid, fnk] + BE16(base as bv16) + BE16(cw);
      if count == 0 then Reply(ERR_OK, echo, st)
      else if base + count > |m.pins| then Crash
      else Reply(ERR_OK, echo, SetBitPins(st, m, base, UnpackBits(payload, count), 0))
  }

  // ---------------------------------------------------------------------
  // Registers
  // ---------------------------------------------------------------------

  /** The last register of a request cuts a pin short: `reg->pin != NULL && reg->index < reg->pin->regCount - 1`. */
  predicate Unfinished(m: Regs, r: Reg)
    requires r.PinReg? ==> r.pin < |m.pins|
  {
    r.PinReg? && r.index + 1 < m.pins[r.pin].regCount
  }

  /** The two response bytes lcmbsProtReadRegs sends for register j. */
  function RegBytes(m: Regs, st: Store, j: nat): (r: seq<bv8>)
    requires RegsOk(m, st) && j < |m.regs|
    ensures |r| == 2
  {
    assert RegOk(m, j, st);
    match m.regs[j]
    case PinReg(p, k) => LE16(RegWord(m.pins[p], SampledValue(m.pins[p], st), k))
    case BitReg(bps) => LE16(Bswap16(BitRegValue(bps, st)))
  }

  /** The response bytes of registers base .. base + n - 1. */
  function RegsOut(m: Regs, st: Store, base: nat, n: nat): (r: seq<bv8>)
    requires RegsOk(m, st) && base + n <= |m.regs|
    ensures |r| == 2 * n
  {
    if n == 0 then [] else RegsOut(m, st, base, n - 1) + RegBytes(m, st, base + n - 1)
  }

  /** lcmbsProtReadRegs (FC 3 and 4). */
  function ReadRegs(sid: bv8, fnk: bv8, req: seq<bv8>, m: Regs, st: Store): Reply
    requires RegsOk(m, st)
  {
    if |req| < 4 then Reply(ERR_INVALID_FUNCTION, [], st)
    else ReadRegsFields(sid, fnk, Field(req[0], req[1]), Field(req[2], req[3]), m, st)
  }

  /** lcmbsProtReadRegs once the start and count fields are read. */
  function ReadRegsFields(sid: bv8, fnk: bv8, start: nat, count: nat, m: Regs, st: Store): Reply
    requires RegsOk(m, st)
  {
    if RangeFails(start, count, m.start, |m.regs|) || 2 * count > 255 then
      Reply(ERR_ILLEGAL_DATA_ADDRESS, [], st)
    else ReadRegsChecked(sid, fnk, Rebase(start, m.start), count, m, st)
  }

  /** lcmbsProtReadRegs after its range checks, for registers base .. base + count - 1. */
  function ReadRegsChecked(sid: bv8, fnk: bv8, base: nat, count: nat, m: Regs, st: Store): Reply
    requires RegsOk(m, st) && 2 * count <= 255
  {
    var header := [sid, fnk, (2 * count) as bv8];
    if count == 0 then Reply(ERR_OK, header, st)
    else match Aligned(m, st, base, count)
      case None => Crash
      case Some(false) => Reply(ERR_ILLEGAL_DATA_ADDRESS, header, st)
      case Some(true) => Reply(ERR_OK, header + RegsOut(m, st, base, count), st)
  }

  /**
   * The boundary check of FC 3, 4 and 16 for registers base .. base + count - 1:
   * the first must start a pin and the last must end one. None when one of
   * the two lookups returns NULL.
   */
  function Aligned(m: Regs, st: Store, base: nat, count: nat): (r: Option<bool>)
    requires RegsOk(m, st) && count > 0
    ensures r == Some(true) ==> base + count <= |m.regs|
  {
    if base >= |m.regs| then None
    else if m.regs[base].Index() > 0 then Some(false)
    else if base + count - 1 >= |m.regs| then None
    else
      assert RegOk(m, base + count - 1, st);
      Some(!Unfinished(m, m.regs[base + count - 1]))
  }

  /** lcmbsProtPresetReg (FC 6). The value field is pulled but not used. */
  function PresetReg(sid: bv8, fnk: bv8, req: seq<bv8>, m: Regs, st: Store): Reply
    requires RegsOk(m, st)
  {
    if |req| < 4 then Reply(ERR_INVALID_FUNCTION, [], st)
    else PresetRegFields(sid, fnk, BE16Value(req[0], req[1]), m, st)
  }

  /**
   * lcmbsProtPresetReg once the address field is read. The value written is
   * taken from the address (`val = ntohs(addr)`), byte swapped once more when
   * the pin asks for it.
   */
  function PresetRegFields(sid: bv8, fnk: bv8, addr: bv16, m: Regs, st: Store): Reply
    requires RegsOk(m, st)
  {
    PresetRegWrite(sid, fnk, addr, Bswap16(addr), m, st)
  }

  /** The write of FC 6 to register addr with value val, and its echo of both. */
  function PresetRegWrite(sid: bv8, fnk: bv8, addr: bv16, val: bv16, m: Regs, st: Store): Reply
    requires RegsOk(m, st)
  {
    if AddrFails(addr as int, m.start, |m.regs|) then Reply(ERR_ILLEGAL_DATA_ADDRESS, [], st)
    else
      var idx := SizeT(addr as int - m.start);
      if idx >= |m.regs| then Crash
      else
        match WriteSingle(m, st, idx, val)
        case None => Reply(ERR_ILLEGAL_DATA_ADDRESS, [], st)
        case Some(st') => Reply(ERR_OK, [sid, fnk] + BE16(addr) + BE16(val), st')
  }

  /**
   * FC 6 as the Modbus application protocol defines it: the value written
   * and echoed is the request's value field, not its address.
   */
  function PresetRegIntended(sid: bv8, fnk: bv8, req: seq<bv8>, m: Regs, st: Store): Reply
    requires RegsOk(m, st)
  {
    if |req| < 4 then Reply(ERR_INVALID_FUNCTION, [], st)
    else PresetRegWrite(sid, fnk, BE16Value(req[0], req[1]), BE16Value(req[2], req[3]), m, st)
  }

  /**
   * The store after FC 6 writes host word val to register idx: a one-register
   * pin takes it (byte swapped on request) narrowed to its type, a bit
   * register hands its bits to its bit pins. None for a pin of two registers.
   */
  function WriteSingle(m: Regs, st: Store, idx: nat, val: bv16): Option<Store>
    requires RegsOk(m, st) && idx < |m.regs|
  {
    assert RegOk(m, idx, st);
    match m.regs[idx]
    case PinReg(p, _) => WritePinWord(st, m.pins[p], val)
    case BitReg(bps) => Some(WriteBitReg(st, bps, val))
  }

  /** The store after FC 6 writes host word val to pin p; None unless p is a one-register pin. */
  function WritePinWord(st: Store, p: RegPin, val: bv16): Option<Store>
    requires PinOk(p, st)
  {
    if p.ptype == U16 || p.ptype == S16 then
      Some(StorePin(st, p, Narrow(p.ptype, MaybeBswap16(p.ByteSwap(), val) as bv32)))
    else None
  }

  /** The host words of n registers as lcmbsVectPullWord loads them from the payload. */
  function Words(payload: seq<bv8>, n: nat): (ws: seq<bv16>)
    requires 2 * n <= |payload|
    ensures |ws| == n
  {
    seq(n, i requires 0 <= i < n => LoadLE16(payload[2 * i], payload[2 * i + 1]))
  }

  /** One iteration of the lcmbsProtPresetRegs loop: register j receives host word w. */
  function PresetOne(m: Regs, j: nat, w: bv16, st: Store, pinval: ModbusVal): (r: (Store, ModbusVal))
    requires RegsOk(m, st) && j < |m.regs|
    ensures SameShape(st, r.0)
  {
    assert RegOk(m, j, st);
    match m.regs[j]
    case PinReg(p, k) =>
      var pin := m.pins[p];
      var pv := PresetStep(pin, pinval, k, w);
      if k == pin.regCount - 1 then (StorePin(st, pin, PresetValue(pin, pv)), Finished(pin, pv)) else (st, pv)
    case BitReg(bps) => (WriteBitReg(st, bps, w), pinval)
  }

  /** The store after registers base + i .. base + |ws| - 1 receive ws[i..], starting from union value pinval. */
  function PresetFrom(m: Regs, base: nat, ws: seq<bv16>, i: nat, st: Store, pinval: ModbusVal): (r: Store)
    requires RegsOk(m, st) && base + |ws| <= |m.regs| && i <= |ws|
    ensures SameShape(st, r)
    decreases |ws| - i
  {
    if i == |ws| then st
    else
      var (st', pv') := PresetOne(m, base + i, ws[i], st, pinval);
      RegsOkSameShape(m, st, st');
      PresetFrom(m, base, ws, i + 1, st', pv')
  }

  /** lcmbsProtPresetRegs (FC 16). */
  function PresetRegs(sid: bv8, fnk: bv8, req: seq<bv8>, m: Regs, st: Store): Reply
    requires RegsOk(m, st)
  {
    if |req| < 5 then Reply(ERR_INVALID_FUNCTION, [], st)
    else PresetRegsFields(sid, fnk, BE16Value(req[0], req[1]), BE16Value(req[2], req[3]), req[4] as int, req[5..], m, st)
  }

  /**
   * lcmbsProtPresetRegs once the start, count and byte count fields are read;
   * payload is what is left of the request.
   */
  function PresetRegsFields(sid: bv8, fnk: bv8, sw: bv16, cw: bv16, bc: nat, payload: seq<bv8>, m: Regs, st: Store): Reply
    requires RegsOk(m, st)
  {
    var start, count := sw as int, cw as int;
    if RangeFails(start, count, m.start, |m.regs|) || 2 * count != bc then
      Reply(ERR_ILLEGAL_DATA_ADDRESS, [], st)
    else if 2 * count != |payload| then Reply(ERR_ILLEGAL_DATA_VALUE, [], st)
    else PresetRegsChecked(sid, fnk, sw, cw, Rebase(start, m.start), payload, m, st)
  }

  /** lcmbsProtPresetRegs after its checks, for registers base .. base + cw - 1. */
  function PresetRegsChecked(sid: bv8, fnk: bv8, sw: bv16, cw: bv16, base: nat, payload: seq<bv8>, m: Regs, st: Store): Reply
    requires RegsOk(m, st) && 2 * (cw as int) == |payload|
  {
    var count := cw as int;
    var header := [sid, fnk] + BE16(sw) + BE16(cw);
    if count == 0 then Reply(ERR_OK, header, st)
    else match Aligned(m, st, base, count)
      case None => Crash
      case Some(false) => Reply(ERR_ILLEGAL_DATA_ADDRESS, header, st)
      case Some(true) => Reply(ERR_OK, header, PresetFrom(m, base, Words(payload, count), 0, st, ZeroVal))
  }

  /** PresetFrom takes one register at a time. */
  lemma PresetFromStep(m: Regs, base: nat, ws: seq<bv16>, i: nat, st: Store, pinval: ModbusVal)
    requires RegsOk(m, st) && base + |ws| <= |m.regs| && i < |ws|
    ensures RegsOk(m, PresetOne(m, base + i, ws[i], st, pinval).0)
    ensures PresetFrom(m, base, ws, i, st, pinval) ==
      PresetFrom(m, base, ws, i + 1, PresetOne(m, base + i, ws[i], st, pinval).0, PresetOne(m, base + i, ws[i], st, pinval).1)
  {
    RegsOkSameShape(m, st, PresetOne(m, base + i, ws[i], st, pinval).0);
  }

  // ---------------------------------------------------------------------
  // Dispatch
  // ---------------------------------------------------------------------

  /** The switch of lcmbsProtProc: the handler and the map each function code uses. */
  function Handle(sl: Slave, sid: bv8, fnk: bv8, req: seq<bv8>, st: Store): Reply
    requires SlaveOk(sl, st)
  {
    if fnk == FNK_READ_COIL_STATUS then ReadBits(sid, fnk, req, sl.coils, st)
    else if fnk == FNK_READ_INPUT_STATUS then ReadBits(sid, fnk, req, sl.inputs, st)
    else if fnk == FNK_FORCE_SINGLE_COIL then ForceBit(sid, fnk, req, sl.coils, st)
    else if fnk == FNK_FORCE_MULTI_COIL then ForceBits(sid, fnk, req, sl.coils, st)
    else if fnk == FNK_READ_HOLDING_REG then ReadRegs(sid, fnk, req, sl.holdingRegs, st)
    else if fnk == FNK_READ_INPUT_REG then ReadRegs(sid, fnk, req, sl.inputRegs, st)
    else if fnk == FNK_PRESET_SINGLE_REG then PresetReg(sid, fnk, req, sl.holdingRegs, st)
    else if fnk == FNK_PRESET_MULTI_REG then PresetRegs(sid, fnk, req, sl.holdingRegs, st)
    else Reply(ERR_INVALID_FUNCTION, [], st)
  }

  /**
   * What lcmbsProtProc leaves: the response PDU (empty when it returns 0) and
   * the store, or a crash.
   */
  datatype Served = Served(pdu: seq<bv8>, st: Store) | Crashed

  /** lcmbsProtProc on the unread bytes of a request PDU. */
  function Proc(sl: Slave, req: seq<bv8>, st: Store): Served
    requires SlaveOk(sl, st)
  {
    if |req| < 2 then Served([], st)
    else
      match Handle(sl, req[0], req[1], req[2..], st)
      case Crash => Crashed
      case Reply(err, out, st') =>
        if err == ERR_OK then Served(out, st') else Served([req[0], req[1] | 0x80, err], st')
  }
}
