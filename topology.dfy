/**
 * The slave topology built from the configuration (the types of
 * mbslave_conf.h) and the store of pin cells it refers to.
 *
 * Where the source links records by pointer (a register to its pin, a
 * listener to its slave), the model keeps the index of the record in its
 * vector. A pin's `cell` is its handle into the HAL store: an index into the
 * store's sequence of the pin's HAL type.
 */
module Topology {
  import opened Bytes

  /** LCMBS_PINTYPE_*: the Modbus view of a register pin. */
  datatype PinType = Inval | U16 | S16 | U32 | S32 | Float

  /** The HAL type of a pin's cell (hal_type_t, restricted to the kinds used). */
  datatype HalType = HalUnspecified | HalU32 | HalS32 | HalFloat

  /** LCMBS_PINFLAG_BYTESWAP and LCMBS_PINFLAG_WORDSWAP. */
  const BYTESWAP: bv32 := 1
  const WORDSWAP: bv32 := 2

  /** LCMBS_CONF_REG_PIN_T. */
  datatype RegPin = RegPin(name: string, ptype: PinType, halType: HalType, regCount: nat, flags: bv32, cell: nat)
  {
    predicate ByteSwap() { flags & BYTESWAP != 0 }
    predicate WordSwap() { flags & WORDSWAP != 0 }
  }

  /** LCMBS_CONF_REG_BIT_PIN_T: one bit of a bit-packed register. */
  datatype RegBitPin = RegBitPin(name: string, bit: int, cell: nat)

  /**
   * LCMBS_CONF_REG_T: word `index` of pin number `pin`, or a bit-packed
   * register (pin NULL, index 0, a vector of bit pins).
   */
  datatype Reg = PinReg(pin: nat, index: nat) | BitReg(bitpins: seq<RegBitPin>)
  {
    /** The `index` field; the configuration sets it to 0 for a bit register. */
    function Index(): nat { if PinReg? then index else 0 }
  }

  /** LCMBS_CONF_REGS_T: a register map; `start` stays -1 while unconfigured. */
  datatype Regs = Regs(start: int, regs: seq<Reg>, pins: seq<RegPin>)

  /** LCMBS_CONF_BIT_PIN_T. */
  datatype BitPin = BitPin(name: string, cell: nat)

  /** LCMBS_CONF_BITS_T: a coil or input map; `start` stays -1 while unconfigured. */
  datatype Bits = Bits(start: int, pins: seq<BitPin>)

  /** LCMBS_CONF_TCP_LSNR_T: the owning slave (its index) and the port. */
  datatype TcpListener = TcpListener(slave: nat, port: int)

  /** LCMBS_CONF_SLAVE_T. */
  datatype Slave = Slave(name: string, tcpListeners: seq<TcpListener>,
                         holdingRegs: Regs, inputRegs: Regs, inputs: Bits, coils: Bits)

  /** Registers a pin of each type occupies (0 for no type). */
  function RegCountOf(t: PinType): nat {
    match t
    case Inval => 0
    case U16 => 1
    case S16 => 1
    case U32 => 2
    case S32 => 2
    case Float => 2
  }

  /** The HAL cell type that backs a pin of each type. */
  function HalTypeOf(t: PinType): HalType {
    match t
    case Inval => HalUnspecified
    case U16 => HalU32
    case S16 => HalS32
    case U32 => HalU32
    case S32 => HalS32
    case Float => HalFloat
  }

  /**
   * The values of all HAL cells: bit cells, and u32, s32 and float cells as
   * their 32-bit patterns.
   */
  datatype Store = Store(bits: seq<bool>, u: seq<bv32>, s: seq<bv32>, f: seq<bv32>)

  /** The shared HAL cells that pins point into; the engine writes them in place. */
  class Cells {
    var bits: seq<bool>
    var u: seq<bv32>
    var s: seq<bv32>
    var f: seq<bv32>

    function Value(): Store
      reads this
    {
      Store(bits, u, s, f)
    }
  }

  /** The store has the same cells as another: only values differ. */
  predicate SameShape(a: Store, b: Store) {
    |a.bits| == |b.bits| && |a.u| == |b.u| && |a.s| == |b.s| && |a.f| == |b.f|
  }

  /** A pin as the configuration builds it, with its cell present in the store. */
  predicate PinOk(p: RegPin, st: Store) {
    p.ptype != Inval && p.halType == HalTypeOf(p.ptype) && p.regCount == RegCountOf(p.ptype) &&
    match p.halType
    case HalU32 => p.cell < |st.u|
    case HalS32 => p.cell < |st.s|
    case HalFloat => p.cell < |st.f|
    case HalUnspecified => false
  }

  /**
   * Bit pins whose `1 << bit` is defined on the 32-bit int of the source
   * (bit numbers 0..30), with their cells present in the store. The reader
   * checks a `bit` attribute against 0..15, but a pin without one keeps the
   * number its memory held, so the engine also meets bits 16..30.
   */
  predicate BitPinsOk(bps: seq<RegBitPin>, st: Store) {
    forall b | b in bps :: 0 <= b.bit <= 30 && b.cell < |st.bits|
  }

  /**
   * Register j of map m: a pin word with a valid index, whose neighbours are
   * the pin's other words in order, or a bit register whose bit pins are BitPinsOk.
   */
  predicate RegOk(m: Regs, j: nat, st: Store)
    requires j < |m.regs|
  {
    match m.regs[j]
    case PinReg(p, k) =>
      p < |m.pins| && k < m.pins[p].regCount &&
      (k > 0 ==> j > 0 && m.regs[j - 1] == PinReg(p, k - 1)) &&
      (k + 1 < m.pins[p].regCount ==> j + 1 < |m.regs| && m.regs[j + 1] == PinReg(p, k + 1))
    case BitReg(bps) => BitPinsOk(bps, st)
  }

  /** A register map as the configuration builds it, over the given store. */
  predicate RegsOk(m: Regs, st: Store) {
    -1 <= m.start <= 65535 &&
    (forall p | 0 <= p < |m.pins| :: PinOk(m.pins[p], st)) &&
    (forall j | 0 <= j < |m.regs| :: RegOk(m, j, st))
  }

  /** A coil or input map as the configuration builds it, over the given store. */
  predicate BitsOk(b: Bits, st: Store) {
    -1 <= b.start <= 65535 && forall p | p in b.pins :: p.cell < |st.bits|
  }

  predicate SlaveOk(sl: Slave, st: Store) {
    RegsOk(sl.holdingRegs, st) && RegsOk(sl.inputRegs, st) && BitsOk(sl.inputs, st) && BitsOk(sl.coils, st)
  }

  lemma RegsOkSameShape(m: Regs, a: Store, b: Store)
    requires RegsOk(m, a) && SameShape(a, b)
    ensures RegsOk(m, b)
  {
    forall j | 0 <= j < |m.regs| ensures RegOk(m, j, b) {
      assert RegOk(m, j, a);
    }
    forall p | 0 <= p < |m.pins| ensures PinOk(m.pins[p], b) {
      assert PinOk(m.pins[p], a);
    }
  }
}
