/**
 * Properties of the configuration reader of mbslave_conf.c: the state table
 * nests elements, the attribute loops keep the last value of each
 * attribute and reject what the source rejects, and the records the
 * handlers append form the register and bit maps the PDU engine expects.
 */
module ConfProps {
  import opened Wrappers
  import opened Topology
  import opened Packing
  import opened ProtSpec
  import opened ProtProps
  import opened RegProps
  import opened ConfSpec

  // ---------------------------------------------------------------------
  // The state table
  // ---------------------------------------------------------------------

  /** The row of lcmbsConfStates whose element leads to each state: an inverse of the nextState column. */
  function RowLeadingTo(t: ConfType): Option<nat> {
    match t
    case TypeNone => None
    case TypeSlaves => Some(0)
    case TypeSlave => Some(1)
    case TypeTcpListener => Some(2)
    case TypeSerialListener => Some(3)
    case TypeHoldingRegs => Some(4)
    case TypeHoldingReg => Some(5)
    case TypeHoldingBitReg => Some(6)
    case TypeHoldingBitRegPin => Some(7)
    case TypeInputRegs => Some(8)
    case TypeInputReg => Some(9)
    case TypeInputBitReg => Some(10)
    case TypeInputBitRegPin => Some(11)
    case TypeInputs => Some(12)
    case TypeInput => Some(13)
    case TypeCoils => Some(14)
    case TypeCoil => Some(15)
  }

  /** RowLeadingTo inverts the nextState column. */
  lemma NextStateInverse(i: nat)
    requires i < |CONF_STATES|
    ensures RowLeadingTo(CONF_STATES[i].nextState) == Some(i)
  {
  }

  /** No two rows of lcmbsConfStates lead to the same state. */
  lemma {:induction false} UniqueNextState(i: nat, j: nat)
    requires i < |CONF_STATES| && j < |CONF_STATES|
    requires CONF_STATES[i].nextState == CONF_STATES[j].nextState
    ensures i == j
  {
    NextStateInverse(i);
    NextStateInverse(j);
  }

  /**
   * The end tag of an element that opened finds the row its start tag
   * found, and so restores the state the start tag left.
   */
  lemma {:induction false} EndUndoesStart(cur: ConfType, el: string)
    requires FindStart(cur, el, 0).Some?
    ensures FindEnd(CONF_STATES[FindStart(cur, el, 0).value].nextState, el, 0) == FindStart(cur, el, 0)
    ensures CONF_STATES[FindStart(cur, el, 0).value].currState == cur
  {
    var i := FindStart(cur, el, 0).value;
    var next := CONF_STATES[i].nextState;
    assert ClosesAt(i, next, el);
    var j := FindEnd(next, el, 0).value;
    UniqueNextState(i, j);
  }

  /** No row leads back to the root state: the root element cannot be reopened inside itself. */
  lemma {:induction false} RootNeverReentered(cur: ConfType, el: string)
    requires FindStart(cur, el, 0).Some?
    ensures CONF_STATES[FindStart(cur, el, 0).value].nextState != TypeNone
  {
    NextStateInverse(FindStart(cur, el, 0).value);
  }

  // ---------------------------------------------------------------------
  // The attribute loops
  // ---------------------------------------------------------------------

  /** A name loop accepts only `name` attributes and keeps the last one's value, cut to the buffer. */
  lemma {:induction false} NameScanMeaning(name: string, attrs: seq<Attr>, i: nat)
    requires i <= |attrs|
    decreases |attrs| - i
    ensures NameScan(name, attrs, i).ok <==> forall k | i <= k < |attrs| :: attrs[k].name == "name"
    ensures NameScan(name, attrs, i).ok ==>
      NameScan(name, attrs, i).value == (match LastAttr(attrs, "name", i) case None => name case Some(a) => CopyName(a.val))
  {
    if i < |attrs| && attrs[i].name == "name" {
      NameScanMeaning(CopyName(attrs[i].val), attrs, i + 1);
    }
  }

  /** A number loop accepts only `key` attributes and keeps the last one's number. */
  lemma {:induction false} NumScanMeaning(key: string, v: int, attrs: seq<Attr>, i: nat)
    requires i <= |attrs|
    decreases |attrs| - i
    ensures NumScan(key, v, attrs, i).ok <==> forall k | i <= k < |attrs| :: attrs[k].name == key
    ensures NumScan(key, v, attrs, i).ok ==>
      NumScan(key, v, attrs, i).value == (match LastAttr(attrs, key, i) case None => v case Some(a) => a.num)
  {
    if i < |attrs| && attrs[i].name == key {
      NumScanMeaning(key, attrs[i].num, attrs, i + 1);
    }
  }

  /**
   * A modbusSlave element is accepted iff all its attributes are `name` and
   * the name it ends with is not empty; without a name attribute the name
   * is whatever the reserved record held, so a missing name is rejected
   * only when that was empty.
   */
  lemma SlaveNameRule(attrs: seq<Attr>, u: Uninit)
    ensures SlaveParsed(attrs, u).ok <==>
      (forall k | 0 <= k < |attrs| :: attrs[k].name == "name") &&
      (match LastAttr(attrs, "name", 0) case None => u.name != [] case Some(a) => a.val != [])
    ensures SlaveParsed(attrs, u).value.holdingRegs == InitRegs() && SlaveParsed(attrs, u).value.inputRegs == InitRegs()
    ensures SlaveParsed(attrs, u).value.inputs == InitBits() && SlaveParsed(attrs, u).value.coils == InitBits()
    ensures SlaveParsed(attrs, u).value.tcpListeners == []
  {
    NameScanMeaning(u.name, attrs, 0);
  }

  /** The same rule for a coil or input pin, which keeps its cell handle. */
  lemma BitPinNameRule(attrs: seq<Attr>, u: Uninit)
    ensures BitPinParsed(attrs, u).ok <==>
      (forall k | 0 <= k < |attrs| :: attrs[k].name == "name") &&
      (match LastAttr(attrs, "name", 0) case None => u.name != [] case Some(a) => a.val != [])
    ensures BitPinParsed(attrs, u).value.cell == u.cell
  {
    NameScanMeaning(u.name, attrs, 0);
  }

  /**
   * A tcpListener is accepted iff all its attributes are `port` and the
   * last one is in 0..65535; without one the port stays at its default -1
   * and the listener is rejected.
   */
  lemma PortRule(attrs: seq<Attr>)
    ensures PortParsed(attrs).ok <==>
      (forall k | 0 <= k < |attrs| :: attrs[k].name == "port") &&
      LastAttr(attrs, "port", 0).Some? && 0 <= LastAttr(attrs, "port", 0).value.num <= 65535
    ensures LastAttr(attrs, "port", 0).None? && (forall k | 0 <= k < |attrs| :: attrs[k].name == "port") ==>
      PortParsed(attrs).value == -1
  {
    NumScanMeaning("port", -1, attrs, 0);
  }

  /**
   * A list element (holdingRegisters, inputRegisters, inputs, coils) is
   * accepted iff its map has no start yet, all its attributes are `start`
   * and the last one is in 0..65535.
   */
  lemma StartRule(attrs: seq<Attr>, dup: bool)
    ensures StartParsed(attrs, dup).ok <==>
      !dup && (forall k | 0 <= k < |attrs| :: attrs[k].name == "start") &&
      LastAttr(attrs, "start", 0).Some? && 0 <= LastAttr(attrs, "start", 0).value.num <= 65535
    ensures StartParsed(attrs, dup).ok ==> StartParsed(attrs, dup).value == LastAttr(attrs, "start", 0).value.num
  {
    NumScanMeaning("start", -1, attrs, 0);
  }

  /** The pin types a register pin accepts, with the HAL type and register count the engine derives from each. */
  lemma PinTypeTable(v: string)
    ensures PinTypeAttr(v).Some? <==> v == "u16" || v == "s16" || v == "u32" || v == "s32" || v == "float"
    ensures PinTypeAttr(v).Some? ==>
      PinTypeAttr(v).value.0 != Inval && PinTypeAttr(v).value.1 == HalTypeOf(PinTypeAttr(v).value.0) &&
      PinTypeAttr(v).value.2 == RegCountOf(PinTypeAttr(v).value.0)
  {
  }

  /** The attributes a register pin element accepts. */
  predicate RegPinAttrOk(a: Attr) {
    a.name == "name" || a.name == "byteswap" || a.name == "wordswap" || (a.name == "type" && PinTypeAttr(a.val).Some?)
  }

  /** The pin type a type name selects (none for an unknown name). */
  function TypeNamed(v: string): PinType {
    match PinTypeAttr(v)
    case Some((t, _, _)) => t
    case None => Inval
  }

  /** The HAL type and register count of a pin agree with its type. */
  predicate TypeFieldsAgree(p: RegPin) {
    p.halType == HalTypeOf(p.ptype) && p.regCount == RegCountOf(p.ptype)
  }

  lemma {:induction false} RegPinScanAccepts(pin: RegPin, attrs: seq<Attr>, i: nat)
    requires i <= |attrs|
    decreases |attrs| - i
    ensures RegPinScan(pin, attrs, i).ok <==> forall k | i <= k < |attrs| :: RegPinAttrOk(attrs[k])
    ensures RegPinScan(pin, attrs, i).value.cell == pin.cell
  {
    if i < |attrs| && RegPinStep(pin, attrs[i]).ok {
      RegPinScanAccepts(RegPinStep(pin, attrs[i]).value, attrs, i + 1);
    }
  }

  /** The register pin loop keeps the last name and the last type, and a pin's HAL type and register count follow its type. */
  lemma {:induction false} RegPinScanFields(pin: RegPin, attrs: seq<Attr>, i: nat)
    requires i <= |attrs|
    decreases |attrs| - i
    ensures TypeFieldsAgree(pin) ==> TypeFieldsAgree(RegPinScan(pin, attrs, i).value)
    ensures RegPinScan(pin, attrs, i).ok ==>
      RegPinScan(pin, attrs, i).value.name == (match LastAttr(attrs, "name", i) case None => pin.name case Some(a) => CopyName(a.val))
    ensures RegPinScan(pin, attrs, i).ok ==>
      RegPinScan(pin, attrs, i).value.ptype == (match LastAttr(attrs, "type", i) case None => pin.ptype case Some(a) => TypeNamed(a.val))
  {
    if i < |attrs| && RegPinStep(pin, attrs[i]).ok {
      RegPinScanFields(RegPinStep(pin, attrs[i]).value, attrs, i + 1);
    }
  }

  lemma SetByteSwap(f: bv32, on: bool)
    ensures (SetFlag(f, BYTESWAP, on) & BYTESWAP != 0) == on
    ensures SetFlag(f, BYTESWAP, on) & WORDSWAP == f & WORDSWAP
  {
  }

  lemma SetWordSwap(f: bv32, on: bool)
    ensures (SetFlag(f, WORDSWAP, on) & WORDSWAP != 0) == on
    ensures SetFlag(f, WORDSWAP, on) & BYTESWAP == f & BYTESWAP
  {
  }

  /** One pass of the register pin loop sets the byteswap flag iff the attribute is byteswap with value "true", and leaves wordswap. */
  lemma RegPinStepSwaps(pin: RegPin, a: Attr)
    ensures RegPinStep(pin, a).ok ==>
      RegPinStep(pin, a).value.ByteSwap() == (if a.name == "byteswap" then a.val == "true" else pin.ByteSwap())
    ensures RegPinStep(pin, a).ok ==>
      RegPinStep(pin, a).value.WordSwap() == (if a.name == "wordswap" then a.val == "true" else pin.WordSwap())
  {
    if a.name == "byteswap" {
      SetByteSwap(pin.flags, a.val == "true");
    } else if a.name == "wordswap" {
      SetWordSwap(pin.flags, a.val == "true");
    }
  }

  /** byteswap is set iff its last attribute says "true"; otherwise the flag keeps what memory held. */
  lemma {:induction false} RegPinScanByteSwap(pin: RegPin, attrs: seq<Attr>, i: nat)
    requires i <= |attrs|
    decreases |attrs| - i
    ensures RegPinScan(pin, attrs, i).ok ==>
      RegPinScan(pin, attrs, i).value.ByteSwap() == (match LastAttr(attrs, "byteswap", i) case None => pin.ByteSwap() case Some(a) => a.val == "true")
  {
    if i < |attrs| && RegPinStep(pin, attrs[i]).ok {
      RegPinStepSwaps(pin, attrs[i]);
      RegPinScanByteSwap(RegPinStep(pin, attrs[i]).value, attrs, i + 1);
    }
  }

  /** wordswap is set iff its last attribute says "true"; otherwise the flag keeps what memory held. */
  lemma {:induction false} RegPinScanWordSwap(pin: RegPin, attrs: seq<Attr>, i: nat)
    requires i <= |attrs|
    decreases |attrs| - i
    ensures RegPinScan(pin, attrs, i).ok ==>
      RegPinScan(pin, attrs, i).value.WordSwap() == (match LastAttr(attrs, "wordswap", i) case None => pin.WordSwap() case Some(a) => a.val == "true")
  {
    if i < |attrs| && RegPinStep(pin, attrs[i]).ok {
      RegPinStepSwaps(pin, attrs[i]);
      RegPinScanWordSwap(RegPinStep(pin, attrs[i]).value, attrs, i + 1);
    }
  }

  /** A register pin loop that got through a type attribute has a pin type. */
  lemma {:induction false} RegPinScanTyped(pin: RegPin, attrs: seq<Attr>, i: nat)
    requires i <= |attrs|
    decreases |attrs| - i
    ensures RegPinScan(pin, attrs, i).ok && LastAttr(attrs, "type", i).Some? ==> RegPinScan(pin, attrs, i).value.ptype != Inval
  {
    if i < |attrs| && RegPinStep(pin, attrs[i]).ok {
      RegPinScanTyped(RegPinStep(pin, attrs[i]).value, attrs, i + 1);
      RegPinScanFields(RegPinStep(pin, attrs[i]).value, attrs, i + 1);
    }
  }

  /**
   * A register pin is accepted iff every attribute is a known one with a
   * known type name, a type is given, and the name it ends with is not
   * empty; an accepted pin has the HAL type and register count of its
   * type.
   */
  lemma RegPinRule(attrs: seq<Attr>, u: Uninit)
    ensures RegPinParsed(attrs, u).ok <==>
      (forall k | 0 <= k < |attrs| :: RegPinAttrOk(attrs[k])) && LastAttr(attrs, "type", 0).Some? &&
      (match LastAttr(attrs, "name", 0) case None => u.name != [] case Some(a) => a.val != [])
    ensures RegPinParsed(attrs, u).ok ==>
      RegPinParsed(attrs, u).value.ptype != Inval && TypeFieldsAgree(RegPinParsed(attrs, u).value) &&
      RegPinParsed(attrs, u).value.cell == u.cell
  {
    var init := RegPin(u.name, Inval, HalUnspecified, 0, u.flags, u.cell);
    RegPinScanAccepts(init, attrs, 0);
    RegPinScanFields(init, attrs, 0);
    RegPinScanTyped(init, attrs, 0);
  }

  /** The attributes a bit register pin element accepts. */
  predicate RegBitPinAttrOk(a: Attr) {
    a.name == "name" || (a.name == "bit" && 0 <= a.num <= 15)
  }

  /** The bit register pin loop: any bit number outside 0..15 or unknown attribute stops it; it keeps the last bit and name. */
  lemma {:induction false} RegBitPinScanMeaning(bp: RegBitPin, attrs: seq<Attr>, i: nat)
    requires i <= |attrs|
    decreases |attrs| - i
    ensures RegBitPinScan(bp, attrs, i).ok <==> forall k | i <= k < |attrs| :: RegBitPinAttrOk(attrs[k])
    ensures RegBitPinScan(bp, attrs, i).value.cell == bp.cell
    ensures RegBitPinScan(bp, attrs, i).ok ==>
      RegBitPinScan(bp, attrs, i).value.bit == (match LastAttr(attrs, "bit", i) case None => bp.bit case Some(a) => a.num)
    ensures RegBitPinScan(bp, attrs, i).ok ==>
      RegBitPinScan(bp, attrs, i).value.name == (match LastAttr(attrs, "name", i) case None => bp.name case Some(a) => CopyName(a.val))
  {
    if i < |attrs| && RegBitPinStep(bp, attrs[i]).ok {
      RegBitPinScanMeaning(RegBitPinStep(bp, attrs[i]).value, attrs, i + 1);
    }
  }

  /**
   * An accepted bit register pin has a bit number in 0..15 when one was
   * given; without a bit attribute it keeps whatever the reserved record
   * held.
   */
  lemma RegBitPinRule(attrs: seq<Attr>, u: Uninit)
    ensures RegBitPinParsed(attrs, u).ok <==>
      (forall k | 0 <= k < |attrs| :: RegBitPinAttrOk(attrs[k])) &&
      (match LastAttr(attrs, "name", 0) case None => u.name != [] case Some(a) => a.val != [])
    ensures RegBitPinParsed(attrs, u).ok && LastAttr(attrs, "bit", 0).Some? ==> 0 <= RegBitPinParsed(attrs, u).value.bit <= 15
    ensures RegBitPinParsed(attrs, u).ok && LastAttr(attrs, "bit", 0).None? ==> RegBitPinParsed(attrs, u).value.bit == u.bit
  {
    var init := RegBitPin(u.name, u.bit, u.cell);
    RegBitPinScanMeaning(init, attrs, 0);
    var b := LastAttr(attrs, "bit", 0);
    if b.Some? && RegBitPinScan(init, attrs, 0).ok {
      var k :| 0 <= k < |attrs| && attrs[k] == b.value && attrs[k].name == "bit";
      assert RegBitPinAttrOk(attrs[k]);
    }
  }

  // ---------------------------------------------------------------------
  // The maps the handlers build
  // ---------------------------------------------------------------------

  /**
   * Appending an accepted pin with its slots keeps a register map the way
   * the engine requires it: each slot names its pin and word, and the
   * words of a pin are consecutive and in order.
   */
  lemma AddRegPinKeepsRegsOk(m: Regs, pin: RegPin, st: Store)
    requires RegsOk(m, st) && PinOk(pin, st)
    ensures RegsOk(AddRegPin(m, pin, pin.regCount), st)
  {
    var m' := AddRegPin(m, pin, pin.regCount);
    forall p | 0 <= p < |m'.pins|
      ensures PinOk(m'.pins[p], st)
    {
      if p < |m.pins| {
        assert m'.pins[p] == m.pins[p];
      }
    }
    forall j | 0 <= j < |m'.regs|
      ensures RegOk(m', j, st)
    {
      if j < |m.regs| {
        assert RegOk(m, j, st);
        assert m'.regs[j] == m.regs[j];
      } else {
        assert m'.regs[j] == PinReg(|m.pins|, j - |m.regs|);
      }
    }
  }

  /** Appending a bit register keeps a register map the way the engine requires it. */
  lemma AddBitRegKeepsRegsOk(m: Regs, st: Store)
    requires RegsOk(m, st)
    ensures RegsOk(AddBitReg(m), st)
  {
    var m' := AddBitReg(m);
    forall j | 0 <= j < |m'.regs|
      ensures RegOk(m', j, st)
    {
      if j < |m.regs| {
        assert RegOk(m, j, st);
        assert m'.regs[j] == m.regs[j];
      }
    }
  }

  /**
   * Appending the bit pin the reader accepted to a bit register keeps the
   * map the way the engine requires it, whenever its bit number was given
   * or the memory it was left with lies in 0..30.
   */
  lemma AddRegBitPinKeepsRegsOk(m: Regs, j: nat, attrs: seq<Attr>, u: Uninit, st: Store)
    requires RegsOk(m, st) && j < |m.regs| && m.regs[j].BitReg?
    requires RegBitPinParsed(attrs, u).ok && u.cell < |st.bits|
    requires LastAttr(attrs, "bit", 0).Some? || 0 <= u.bit <= 30
    ensures RegsOk(AddRegBitPin(m, j, RegBitPinParsed(attrs, u).value), st)
  {
    var bp := RegBitPinParsed(attrs, u).value;
    RegBitPinRule(attrs, u);
    RegBitPinScanMeaning(RegBitPin(u.name, u.bit, u.cell), attrs, 0);
    var m' := AddRegBitPin(m, j, bp);
    forall i | 0 <= i < |m'.regs|
      ensures RegOk(m', i, st)
    {
      assert RegOk(m, i, st);
      if i == j {
        assert BitPinsOk(m.regs[j].bitpins, st);
      }
    }
  }

  /**
   * A bit register pin without a bit attribute is accepted with whatever
   * number its memory held: 20, which no 16-bit register has, or 40, for
   * which `1 << bit` is undefined in C.
   */
  lemma UnsetBitAccepted(u: Uninit)
    requires u.bit == 20 || u.bit == 40
    ensures var r := RegBitPinParsed([Attr("name", "spindle-at-speed", 0)], u);
      r.ok && r.value.bit == u.bit
  {
    assert CopyName("spindle-at-speed") == "spindle-at-speed";
  }

  /**
   * The maps lcmbsConfInitRegs and lcmbsConfInitBits leave behind meet the
   * engine's requirements, yet reading one register or coil of them
   * crashes the engine: their start -1 passes its range check.
   */
  lemma UnconfiguredMapsCrash(sid: bv8, fnk: bv8, st: Store)
    ensures RegsOk(InitRegs(), st) && BitsOk(InitBits(), st)
    ensures ReadBitsFields(sid, fnk, 0, 1, InitBits(), st).Crash?
    ensures ReadRegsFields(sid, fnk, 0, 1, InitRegs(), st).Crash?
  {
    UnconfiguredBitsCrash(sid, fnk, 0, 1, st);
    UnconfiguredReadRegsCrash(sid, fnk, 0, 1, InitRegs(), st);
  }
}
