/**
 * The configuration reader of mbslave_conf.c, as values: the element state
 * table that nests the XML elements, the attributes of an element, and what
 * each attribute loop makes of them.
 *
 * The XML library is not modelled: an element start is its name and its
 * attribute pairs, and every attribute value comes with the integer that
 * atoi makes of it.
 */
module ConfSpec {
  import opened Wrappers
  import opened Topology

  /** LCMBS_CONF_TYPE_T: where in the element tree the reader is. */
  datatype ConfType = TypeNone | TypeSlaves | TypeSlave | TypeTcpListener | TypeSerialListener
    | TypeHoldingRegs | TypeHoldingReg | TypeHoldingBitReg | TypeHoldingBitRegPin
    | TypeInputRegs | TypeInputReg | TypeInputBitReg | TypeInputBitRegPin
    | TypeInputs | TypeInput | TypeCoils | TypeCoil

  /** The attribute handler of a state table row (NULL for the root element). */
  datatype AttrParser = NoParser | SlaveAttrs | TcpLsnrAttrs | SerLsnrAttrs
    | HoldingRegsAttrs | HoldingRegAttrs | HoldingBitRegAttrs | HoldingBitRegPinAttrs
    | InputRegsAttrs | InputRegAttrs | InputBitRegAttrs | InputBitRegPinAttrs
    | InputsAttrs | InputAttrs | CoilsAttrs | CoilAttrs

  /**
   * LCMBS_CONF_STATE_T: element `nodeName` opens inside `currState` and
   * leads to `nextState`. Every row's validator is NULL, so it is not kept.
   */
  datatype ConfState = ConfState(nodeName: string, currState: ConfType, nextState: ConfType, parser: AttrParser)

  /** lcmbsConfStates, row by row. */
  const CONF_STATES: seq<ConfState> := [
    ConfState("modbusSlaves", TypeNone, TypeSlaves, NoParser),
    ConfState("modbusSlave", TypeSlaves, TypeSlave, SlaveAttrs),
    ConfState("tcpListener", TypeSlave, TypeTcpListener, TcpLsnrAttrs),
    ConfState("serialListener", TypeSlave, TypeSerialListener, SerLsnrAttrs),
    ConfState("holdingRegisters", TypeSlave, TypeHoldingRegs, HoldingRegsAttrs),
    ConfState("pin", TypeHoldingRegs, TypeHoldingReg, HoldingRegAttrs),
    ConfState("bitRegister", TypeHoldingRegs, TypeHoldingBitReg, HoldingBitRegAttrs),
    ConfState("pin", TypeHoldingBitReg, TypeHoldingBitRegPin, HoldingBitRegPinAttrs),
    ConfState("inputRegisters", TypeSlave, TypeInputRegs, InputRegsAttrs),
    ConfState("pin", TypeInputRegs, TypeInputReg, InputRegAttrs),
    ConfState("bitRegister", TypeInputRegs, TypeInputBitReg, InputBitRegAttrs),
    ConfState("pin", TypeInputBitReg, TypeInputBitRegPin, InputBitRegPinAttrs),
    ConfState("inputs", TypeSlave, TypeInputs, InputsAttrs),
    ConfState("pin", TypeInputs, TypeInput, InputAttrs),
    ConfState("coils", TypeSlave, TypeCoils, CoilsAttrs),
    ConfState("pin", TypeCoils, TypeCoil, CoilAttrs)
  ]

  /** Row j is the one a start tag `el` takes in state `cur`. */
  predicate OpensAt(j: nat, cur: ConfType, el: string)
    requires j < |CONF_STATES|
  {
    CONF_STATES[j].currState == cur && CONF_STATES[j].nodeName == el
  }

  /** Row j is the one an end tag `el` takes in state `cur`. */
  predicate ClosesAt(j: nat, cur: ConfType, el: string)
    requires j < |CONF_STATES|
  {
    CONF_STATES[j].nextState == cur && CONF_STATES[j].nodeName == el
  }

  /** The first row at or after i that a start tag `el` matches in state `cur`. */
  function FindStart(cur: ConfType, el: string, i: nat): (r: Option<nat>)
    requires i <= |CONF_STATES|
    decreases |CONF_STATES| - i
    ensures r.Some? ==> i <= r.value < |CONF_STATES| && OpensAt(r.value, cur, el)
    ensures r.Some? ==> forall j | i <= j < r.value :: !OpensAt(j, cur, el)
    ensures r.None? ==> forall j | i <= j < |CONF_STATES| :: !OpensAt(j, cur, el)
  {
    if i == |CONF_STATES| then None
    else if OpensAt(i, cur, el) then Some(i)
    else FindStart(cur, el, i + 1)
  }

  /** The first row at or after i that an end tag `el` matches in state `cur`. */
  function FindEnd(cur: ConfType, el: string, i: nat): (r: Option<nat>)
    requires i <= |CONF_STATES|
    decreases |CONF_STATES| - i
    ensures r.Some? ==> i <= r.value < |CONF_STATES| && ClosesAt(r.value, cur, el)
    ensures r.Some? ==> forall j | i <= j < r.value :: !ClosesAt(j, cur, el)
    ensures r.None? ==> forall j | i <= j < |CONF_STATES| :: !ClosesAt(j, cur, el)
  {
    if i == |CONF_STATES| then None
    else if ClosesAt(i, cur, el) then Some(i)
    else FindEnd(cur, el, i + 1)
  }

  /** The states inside a modbusSlave element, where currSlave is in use. */
  predicate InSlave(t: ConfType) {
    t != TypeNone && t != TypeSlaves
  }

  /** The states inside a bitRegister element, where currBitpins is in use. */
  predicate InBitReg(t: ConfType) {
    t == TypeHoldingBitReg || t == TypeHoldingBitRegPin || t == TypeInputBitReg || t == TypeInputBitRegPin
  }

  // ---------------------------------------------------------------------
  // Attributes
  // ---------------------------------------------------------------------

  /** One attribute pair; `num` is what atoi makes of `val`. */
  datatype Attr = Attr(name: string, val: string, num: int)

  /**
   * What the memory of a record just reserved by lcmbsVectPut holds in the
   * fields the handlers do not initialise: name, flags, bit number and the
   * handle of the HAL cell (which the HAL export sets later).
   */
  datatype Uninit = Uninit(name: string, flags: bv32, bit: int, cell: nat)

  /** HAL_NAME_LEN of LinuxCNC's hal.h: name buffers hold this many chars including the terminator. */
  const HAL_NAME_LEN: nat := 47

  /**
   * strncpy into a name buffer followed by terminating its last char: the
   * value cut to at most HAL_NAME_LEN - 1 chars.
   */
  function CopyName(val: string): (r: string)
    ensures r <= val && |r| == if |val| <= HAL_NAME_LEN - 1 then |val| else HAL_NAME_LEN - 1
  {
    if |val| <= HAL_NAME_LEN - 1 then val else val[..HAL_NAME_LEN - 1]
  }

  /** The last attribute named `key` at or after i: the one whose value the loop keeps. */
  function LastAttr(attrs: seq<Attr>, key: string, i: nat): (r: Option<Attr>)
    requires i <= |attrs|
    decreases |attrs| - i
    ensures r.None? <==> forall k | i <= k < |attrs| :: attrs[k].name != key
    ensures r.Some? ==> exists k | i <= k < |attrs| :: attrs[k] == r.value && attrs[k].name == key &&
                          forall l | k < l < |attrs| :: attrs[l].name != key
  {
    if i == |attrs| then None
    else match LastAttr(attrs, key, i + 1)
      case Some(a) => Some(a)
      case None => if attrs[i].name == key then Some(attrs[i]) else None
  }

  /**
   * The record an attribute loop has built, and whether it got through
   * every attribute (false: it stopped the reader at an invalid one).
   */
  datatype Scanned<T> = Scanned(value: T, ok: bool)

  /** The loop of a handler whose only attribute is `name` (modbusSlave and coil/input pins). */
  function NameScan(name: string, attrs: seq<Attr>, i: nat): Scanned<string>
    requires i <= |attrs|
    decreases |attrs| - i
  {
    if i == |attrs| then Scanned(name, true)
    else if attrs[i].name == "name" then NameScan(CopyName(attrs[i].val), attrs, i + 1)
    else Scanned(name, false)
  }

  /** The loop of a handler whose only attribute is the number `key` (tcpListener port, list start). */
  function NumScan(key: string, v: int, attrs: seq<Attr>, i: nat): Scanned<int>
    requires i <= |attrs|
    decreases |attrs| - i
  {
    if i == |attrs| then Scanned(v, true)
    else if attrs[i].name == key then NumScan(key, attrs[i].num, attrs, i + 1)
    else Scanned(v, false)
  }

  /** The type names a register pin accepts, with the HAL type and register count set for each. */
  function PinTypeAttr(val: string): Option<(PinType, HalType, nat)> {
    if val == "u16" then Some((U16, HalU32, 1))
    else if val == "s16" then Some((S16, HalS32, 1))
    else if val == "u32" then Some((U32, HalU32, 2))
    else if val == "s32" then Some((S32, HalS32, 2))
    else if val == "float" then Some((Float, HalFloat, 2))
    else None
  }

  /** `flags |= f` when the value is "true", `flags &= ~f` otherwise. */
  function SetFlag(flags: bv32, f: bv32, on: bool): bv32 {
    if on then flags | f else flags & !f
  }

  /** One pass of the register pin loop: name, type, byteswap, wordswap; anything else stops. */
  function RegPinStep(pin: RegPin, a: Attr): Scanned<RegPin> {
    if a.name == "name" then Scanned(pin.(name := CopyName(a.val)), true)
    else if a.name == "type" then
      match PinTypeAttr(a.val)
      case Some((t, h, n)) => Scanned(pin.(ptype := t, halType := h, regCount := n), true)
      case None => Scanned(pin, false)
    else if a.name == "byteswap" then Scanned(pin.(flags := SetFlag(pin.flags, BYTESWAP, a.val == "true")), true)
    else if a.name == "wordswap" then Scanned(pin.(flags := SetFlag(pin.flags, WORDSWAP, a.val == "true")), true)
    else Scanned(pin, false)
  }

  function RegPinScan(pin: RegPin, attrs: seq<Attr>, i: nat): Scanned<RegPin>
    requires i <= |attrs|
    decreases |attrs| - i
  {
    if i == |attrs| then Scanned(pin, true)
    else
      var s := RegPinStep(pin, attrs[i]);
      if s.ok then RegPinScan(s.value, attrs, i + 1) else s
  }

  /** One pass of the bit register pin loop: bit (0..15, stored before the check) and name. */
  function RegBitPinStep(bp: RegBitPin, a: Attr): Scanned<RegBitPin> {
    if a.name == "bit" then Scanned(bp.(bit := a.num), 0 <= a.num <= 15)
    else if a.name == "name" then Scanned(bp.(name := CopyName(a.val)), true)
    else Scanned(bp, false)
  }

  function RegBitPinScan(bp: RegBitPin, attrs: seq<Attr>, i: nat): Scanned<RegBitPin>
    requires i <= |attrs|
    decreases |attrs| - i
  {
    if i == |attrs| then Scanned(bp, true)
    else
      var s := RegBitPinStep(bp, attrs[i]);
      if s.ok then RegBitPinScan(s.value, attrs, i + 1) else s
  }

  // ---------------------------------------------------------------------
  // What each handler makes of its attributes
  // ---------------------------------------------------------------------

  /** lcmbsConfInitRegs: an unconfigured register map. */
  function InitRegs(): Regs { Regs(-1, [], []) }

  /** lcmbsConfInitBits: an unconfigured coil or input map. */
  function InitBits(): Bits { Bits(-1, []) }

  /** The slave record lcmbsConfParseSlaveAttrs appends, and whether it is accepted (a non-empty name). */
  function SlaveParsed(attrs: seq<Attr>, u: Uninit): Scanned<Slave> {
    var s := NameScan(u.name, attrs, 0);
    Scanned(Slave(s.value, [], InitRegs(), InitRegs(), InitBits(), InitBits()), s.ok && s.value != [])
  }

  /** The port lcmbsConfParseTcpLsnrAttrs stores (default -1), and whether it is accepted. */
  function PortParsed(attrs: seq<Attr>): Scanned<int> {
    var s := NumScan("port", -1, attrs, 0);
    Scanned(s.value, s.ok && 0 <= s.value <= 65535)
  }

  /** The start lcmbsConfParseListAttrs stores, and whether it is accepted; `dup` is a start already set. */
  function StartParsed(attrs: seq<Attr>, dup: bool): Scanned<int> {
    var s := NumScan("start", -1, attrs, 0);
    Scanned(s.value, !dup && s.ok && 0 <= s.value <= 65535)
  }

  /** The coil or input pin lcmbsConfParseBitPinAttrs appends, and whether it is accepted. */
  function BitPinParsed(attrs: seq<Attr>, u: Uninit): Scanned<BitPin> {
    var s := NameScan(u.name, attrs, 0);
    Scanned(BitPin(s.value, u.cell), s.ok && s.value != [])
  }

  /** The register pin lcmbsConfParseRegPinAttrs appends, and whether it is accepted (a name and a type). */
  function RegPinParsed(attrs: seq<Attr>, u: Uninit): Scanned<RegPin> {
    var s := RegPinScan(RegPin(u.name, Inval, HalUnspecified, 0, u.flags, u.cell), attrs, 0);
    Scanned(s.value, s.ok && s.value.name != [] && s.value.ptype != Inval)
  }

  /** The bit pin lcmbsConfParseBitRegPinAttrs appends to the current bit register, and whether it is accepted. */
  function RegBitPinParsed(attrs: seq<Attr>, u: Uninit): Scanned<RegBitPin> {
    var s := RegBitPinScan(RegBitPin(u.name, u.bit, u.cell), attrs, 0);
    Scanned(s.value, s.ok && s.value.name != [])
  }

  // ---------------------------------------------------------------------
  // The maps of a slave, and what the handlers add to them
  // ---------------------------------------------------------------------

  /** The four list elements whose start lcmbsConfParseListAttrs sets. */
  datatype ListKind = HoldingList | InputList | InputsList | CoilsList

  function ListStart(sl: Slave, kind: ListKind): int {
    match kind
    case HoldingList => sl.holdingRegs.start
    case InputList => sl.inputRegs.start
    case InputsList => sl.inputs.start
    case CoilsList => sl.coils.start
  }

  function WithListStart(sl: Slave, kind: ListKind, v: int): Slave {
    match kind
    case HoldingList => sl.(holdingRegs := sl.holdingRegs.(start := v))
    case InputList => sl.(inputRegs := sl.inputRegs.(start := v))
    case InputsList => sl.(inputs := sl.inputs.(start := v))
    case CoilsList => sl.(coils := sl.coils.(start := v))
  }

  function MapRegs(sl: Slave, holding: bool): Regs {
    if holding then sl.holdingRegs else sl.inputRegs
  }

  function WithRegs(sl: Slave, holding: bool, m: Regs): Slave {
    if holding then sl.(holdingRegs := m) else sl.(inputRegs := m)
  }

  function WithBitPin(sl: Slave, inputs: bool, p: BitPin): Slave {
    if inputs then sl.(inputs := sl.inputs.(pins := sl.inputs.pins + [p]))
    else sl.(coils := sl.coils.(pins := sl.coils.pins + [p]))
  }

  /** The register slots of pin number p: words 0 to n-1 in order. */
  function PinSlots(p: nat, n: nat): (r: seq<Reg>)
    ensures |r| == n && forall k | 0 <= k < n :: r[k] == PinReg(p, k)
  {
    seq(n, (k: nat) => PinReg(p, k))
  }

  /** A register pin appended to a map, with n slots referring to it. */
  function AddRegPin(m: Regs, pin: RegPin, n: nat): Regs {
    Regs(m.start, m.regs + PinSlots(|m.pins|, n), m.pins + [pin])
  }

  /** A bit register appended to a map: one slot, no pin, no bit pins yet. */
  function AddBitReg(m: Regs): Regs {
    Regs(m.start, m.regs + [BitReg([])], m.pins)
  }

  /** A bit pin appended to bit register j of a map. */
  function AddRegBitPin(m: Regs, j: nat, bp: RegBitPin): Regs
    requires j < |m.regs| && m.regs[j].BitReg?
  {
    m.(regs := m.regs[j := BitReg(m.regs[j].bitpins + [bp])])
  }
}
