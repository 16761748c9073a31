/**
 * The element handlers of mbslave_conf.c over the reader state
 * LCMBS_CONF_PARSER_T: each start tag looks up its row of the state table,
 * moves to the row's next state and runs the row's attribute handler, which
 * appends records to the slave under construction; each end tag moves back.
 */
module Conf {
  import opened Wrappers
  import opened Topology
  import opened ConfSpec

  /** parser->currBitpins: the bit pin vector of register `reg` of a map (holding or input) of slave `slave`. */
  datatype BitpinsRef = BitpinsRef(slave: nat, holding: bool, reg: nat)

  /** The reference designates a bit register that exists. */
  predicate BitpinsValid(slaves: seq<Slave>, r: BitpinsRef) {
    r.slave < |slaves| && r.reg < |MapRegs(slaves[r.slave], r.holding).regs| &&
    MapRegs(slaves[r.slave], r.holding).regs[r.reg].BitReg?
  }

  /** The handlers that use parser->currSlave. */
  predicate NeedsSlave(p: AttrParser) {
    p != NoParser && p != SlaveAttrs && p != SerLsnrAttrs
  }

  /** The handlers that create a bit register and point currBitpins at it. */
  predicate MakesBitReg(p: AttrParser) {
    p == HoldingBitRegAttrs || p == InputBitRegAttrs
  }

  /** The handlers that use parser->currBitpins. */
  predicate NeedsBitpins(p: AttrParser) {
    p == HoldingBitRegPinAttrs || p == InputBitRegPinAttrs
  }

  /**
   * Facts of a state table row the handlers rely on: the row's handler
   * finds the slave or bit register it needs already open in the row's
   * current state, and closing the row returns to a state where that still
   * holds.
   */
  predicate RowOk(row: ConfState) {
    (InSlave(row.nextState) ==> InSlave(row.currState) || row.parser == SlaveAttrs) &&
    (InBitReg(row.nextState) ==> InBitReg(row.currState) || MakesBitReg(row.parser)) &&
    (NeedsSlave(row.parser) ==> InSlave(row.currState)) &&
    (NeedsBitpins(row.parser) ==> InBitReg(row.currState)) &&
    (InSlave(row.currState) ==> InSlave(row.nextState)) &&
    (InBitReg(row.currState) ==> InBitReg(row.nextState))
  }

  /** Every row of lcmbsConfStates has those facts. */
  lemma RowFacts(i: nat)
    requires i < |CONF_STATES|
    ensures RowOk(CONF_STATES[i])
  {
  }

  /**
   * LCMBS_CONF_PARSER_T together with the configuration it fills
   * (conf->slaves) and whether XML_StopParser was called. Pointers into
   * vectors become indices: currSlave is the index of the slave under
   * construction.
   */
  class ConfParser {
    var currConfType: ConfType
    var currSlave: nat
    var currBitpins: BitpinsRef
    var slaves: seq<Slave>
    var stopped: bool

    /** While reading goes on, the slave and bit register the current state is inside exist. */
    predicate Valid()
      reads this
    {
      !stopped ==>
        (InSlave(currConfType) ==> currSlave < |slaves|) &&
        (InBitReg(currConfType) ==> BitpinsValid(slaves, currBitpins))
    }

    /**
     * The reader as lcmbsConfParse sets it up: no slaves, state None. The
     * source leaves currSlave and currBitpins unset; they are never read
     * before a handler sets them.
     */
    constructor ()
      ensures Valid() && currConfType == TypeNone && slaves == [] && !stopped
    {
      currConfType := TypeNone;
      currSlave := 0;
      currBitpins := BitpinsRef(0, true, 0);
      slaves := [];
      stopped := false;
    }

    /**
     * lcmbsConfXmlStartHandler: the first row for the current state and the
     * element name gives the next state, then its handler runs; no row
     * stops the reader.
     */
    method Start(el: string, attrs: seq<Attr>, u: Uninit)
      requires Valid() && !stopped
      modifies this
      ensures Valid()
      ensures FindStart(old(currConfType), el, 0).None? ==>
        stopped && currConfType == old(currConfType) && slaves == old(slaves)
      ensures FindStart(old(currConfType), el, 0).Some? ==>
        currConfType == CONF_STATES[FindStart(old(currConfType), el, 0).value].nextState
    {
      var found := LookupStart(currConfType, el);
      if found.None? {
        stopped := true;
        return;
      }
      var state := CONF_STATES[found.value];
      RowFacts(found.value);
      currConfType := state.nextState;
      RunParser(state.parser, attrs, u);
    }

    /**
     * lcmbsConfXmlEndHandler: the first row whose next state is the current
     * state and whose element is `el` leads back to its current state; no
     * row stops the reader.
     */
    method End(el: string)
      requires Valid() && !stopped
      modifies this`currConfType, this`stopped
      ensures Valid()
      ensures FindEnd(old(currConfType), el, 0).None? ==> stopped && currConfType == old(currConfType)
      ensures FindEnd(old(currConfType), el, 0).Some? ==>
        !stopped && currConfType == CONF_STATES[FindEnd(old(currConfType), el, 0).value].currState
    {
      var found := LookupEnd(currConfType, el);
      if found.None? {
        stopped := true;
        return;
      }
      RowFacts(found.value);
      currConfType := CONF_STATES[found.value].currState;
    }

    /** The handler of a row, with the per-element wrappers resolved to the list, pin or bit register they serve. */
    method RunParser(parser: AttrParser, attrs: seq<Attr>, u: Uninit)
      requires !stopped
      requires NeedsSlave(parser) ==> currSlave < |slaves|
      requires NeedsBitpins(parser) ==> BitpinsValid(slaves, currBitpins)
      modifies this`slaves, this`currSlave, this`currBitpins, this`stopped
      ensures parser == SlaveAttrs && !stopped ==> currSlave < |slaves|
      ensures parser != SlaveAttrs ==> currSlave == old(currSlave) && |slaves| == |old(slaves)|
      ensures MakesBitReg(parser) && !stopped ==> BitpinsValid(slaves, currBitpins)
      ensures BitpinsValid(old(slaves), old(currBitpins)) && !stopped ==> BitpinsValid(slaves, currBitpins)
    {
      if parser == SlaveAttrs {
        ParseSlaveAttrs(attrs, u);
      } else if parser == TcpLsnrAttrs {
        ParseTcpLsnrAttrs(attrs);
      } else if parser == SerLsnrAttrs {
        ParseSerLsnrAttrs(attrs);
      } else if parser == HoldingRegsAttrs || parser == InputRegsAttrs || parser == InputsAttrs || parser == CoilsAttrs {
        ParseListAttrs(attrs, if parser == HoldingRegsAttrs then HoldingList
                              else if parser == InputRegsAttrs then InputList
                              else if parser == InputsAttrs then InputsList else CoilsList);
      } else if parser != NoParser {
        RunPinParser(parser, attrs, u);
      }
    }

    /**
     * The pin and bit register handlers of the four maps: the holding
     * wrappers hand the current slave's holding registers to their handler,
     * the input register wrappers its input registers, and the input and
     * coil wrappers its inputs and coils.
     */
    method RunPinParser(parser: AttrParser, attrs: seq<Attr>, u: Uninit)
      requires !stopped && currSlave < |slaves|
      requires parser == HoldingRegAttrs || parser == InputRegAttrs || parser == InputAttrs || parser == CoilAttrs ||
               MakesBitReg(parser) || NeedsBitpins(parser)
      requires NeedsBitpins(parser) ==> BitpinsValid(slaves, currBitpins)
      modifies this`slaves, this`currBitpins, this`stopped
      ensures |slaves| == |old(slaves)|
      ensures MakesBitReg(parser) ==> BitpinsValid(slaves, currBitpins)
      ensures BitpinsValid(old(slaves), old(currBitpins)) && !stopped ==> BitpinsValid(slaves, currBitpins)
      ensures !MakesBitReg(parser) ==> currBitpins == old(currBitpins)
      ensures parser == HoldingRegAttrs || parser == InputRegAttrs ==>
        var holding, pin := parser == HoldingRegAttrs, RegPinParsed(attrs, u);
        slaves == old(slaves)[currSlave := WithRegs(old(slaves)[currSlave], holding,
          AddRegPin(MapRegs(old(slaves)[currSlave], holding), pin.value, if pin.ok then pin.value.regCount else 0))] &&
        stopped == !pin.ok
      ensures MakesBitReg(parser) ==>
        var holding := parser == HoldingBitRegAttrs;
        slaves == old(slaves)[currSlave := WithRegs(old(slaves)[currSlave], holding, AddBitReg(MapRegs(old(slaves)[currSlave], holding)))] &&
        currBitpins == BitpinsRef(currSlave, holding, |MapRegs(old(slaves)[currSlave], holding).regs|) && !stopped
      ensures NeedsBitpins(parser) ==>
        var r := old(currBitpins);
        slaves == old(slaves)[r.slave := WithRegs(old(slaves)[r.slave], r.holding,
          AddRegBitPin(MapRegs(old(slaves)[r.slave], r.holding), r.reg, RegBitPinParsed(attrs, u).value))] &&
        stopped == !RegBitPinParsed(attrs, u).ok
      ensures parser == InputAttrs || parser == CoilAttrs ==>
        slaves == old(slaves)[currSlave := WithBitPin(old(slaves)[currSlave], parser == InputAttrs, BitPinParsed(attrs, u).value)] &&
        stopped == !BitPinParsed(attrs, u).ok
    {
      if parser == HoldingRegAttrs || parser == InputRegAttrs {
        ParseRegPinAttrs(attrs, parser == HoldingRegAttrs, u);
      } else if MakesBitReg(parser) {
        ParseBitRegAttrs(attrs, parser == HoldingBitRegAttrs);
      } else if NeedsBitpins(parser) {
        ParseBitRegPinAttrs(attrs, u);
      } else {
        ParseBitPinAttrs(attrs, parser == InputAttrs, u);
      }
    }

    /**
     * lcmbsConfParseSlaveAttrs: appends a slave with unconfigured maps, reads
     * its name and, when the name is not empty, makes it the current slave.
     */
    method ParseSlaveAttrs(attrs: seq<Attr>, u: Uninit)
      requires !stopped
      modifies this`slaves, this`currSlave, this`stopped
      ensures slaves == old(slaves) + [SlaveParsed(attrs, u).value]
      ensures stopped == !SlaveParsed(attrs, u).ok
      ensures BitpinsValid(old(slaves), currBitpins) ==> BitpinsValid(slaves, currBitpins)
      ensures currSlave == if stopped then old(currSlave) else |old(slaves)|
    {
      var s := ScanName(u.name, attrs);
      slaves := slaves + [Slave(s.value, [], InitRegs(), InitRegs(), InitBits(), InitBits())];
      if !s.ok || s.value == [] {
        stopped := true;
        return;
      }
      currSlave := |slaves| - 1;
    }

    /** lcmbsConfParseTcpLsnrAttrs: appends a listener of the current slave; its port must end in 0..65535. */
    method ParseTcpLsnrAttrs(attrs: seq<Attr>)
      requires !stopped && currSlave < |slaves|
      modifies this`slaves, this`stopped
      ensures slaves == old(slaves)[currSlave := old(slaves)[currSlave].(tcpListeners :=
        old(slaves)[currSlave].tcpListeners + [TcpListener(currSlave, PortParsed(attrs).value)])]
      ensures stopped == !PortParsed(attrs).ok
      ensures BitpinsValid(old(slaves), currBitpins) ==> BitpinsValid(slaves, currBitpins)
    {
      var s := ScanNum("port", -1, attrs);
      var sl := slaves[currSlave];
      slaves := slaves[currSlave := sl.(tcpListeners := sl.tcpListeners + [TcpListener(currSlave, s.value)])];
      if !s.ok || s.value < 0 || s.value > 65535 {
        stopped := true;
      }
    }

    /** lcmbsConfParseSerLsnrAttrs: serial listeners are not supported; the reader always stops. */
    method ParseSerLsnrAttrs(attrs: seq<Attr>)
      modifies this`stopped
      ensures stopped
    {
      stopped := true;
    }

    /**
     * lcmbsConfParseListAttrs: a second list element of the same kind stops
     * the reader but is still read; the start is reset to -1, read, and
     * must end in 0..65535.
     */
    method ParseListAttrs(attrs: seq<Attr>, kind: ListKind)
      requires !stopped && currSlave < |slaves|
      modifies this`slaves, this`stopped
      ensures slaves == old(slaves)[currSlave := WithListStart(old(slaves)[currSlave], kind,
        StartParsed(attrs, ListStart(old(slaves)[currSlave], kind) >= 0).value)]
      ensures stopped == !StartParsed(attrs, ListStart(old(slaves)[currSlave], kind) >= 0).ok
      ensures BitpinsValid(old(slaves), currBitpins) ==> BitpinsValid(slaves, currBitpins)
    {
      if ListStart(slaves[currSlave], kind) >= 0 {
        stopped := true;
      }
      var s := ScanNum("start", -1, attrs);
      slaves := slaves[currSlave := WithListStart(slaves[currSlave], kind, s.value)];
      if !s.ok || s.value < 0 || s.value > 65535 {
        stopped := true;
      }
    }

    /** lcmbsConfParseBitPinAttrs: appends a coil or input pin, which must get a name. */
    method ParseBitPinAttrs(attrs: seq<Attr>, inputs: bool, u: Uninit)
      requires !stopped && currSlave < |slaves|
      modifies this`slaves, this`stopped
      ensures slaves == old(slaves)[currSlave := WithBitPin(old(slaves)[currSlave], inputs, BitPinParsed(attrs, u).value)]
      ensures stopped == !BitPinParsed(attrs, u).ok
      ensures BitpinsValid(old(slaves), currBitpins) ==> BitpinsValid(slaves, currBitpins)
    {
      var s := ScanName(u.name, attrs);
      slaves := slaves[currSlave := WithBitPin(slaves[currSlave], inputs, BitPin(s.value, u.cell))];
      if !s.ok || s.value == [] {
        stopped := true;
      }
    }

    /**
     * lcmbsConfParseRegPinAttrs: appends a register pin, which must get a
     * name and a type, and then one register slot per register of its type,
     * with word indices 0, 1, ... in order.
     */
    method ParseRegPinAttrs(attrs: seq<Attr>, holding: bool, u: Uninit)
      requires !stopped && currSlave < |slaves|
      modifies this`slaves, this`stopped
      ensures slaves == old(slaves)[currSlave := WithRegs(old(slaves)[currSlave], holding,
        AddRegPin(MapRegs(old(slaves)[currSlave], holding), RegPinParsed(attrs, u).value,
          if RegPinParsed(attrs, u).ok then RegPinParsed(attrs, u).value.regCount else 0))]
      ensures stopped == !RegPinParsed(attrs, u).ok
      ensures BitpinsValid(old(slaves), currBitpins) ==> BitpinsValid(slaves, currBitpins)
    {
      var s := ScanRegPin(RegPin(u.name, Inval, HalUnspecified, 0, u.flags, u.cell), attrs);
      var pin := s.value;
      var sl := slaves[currSlave];
      var m := MapRegs(sl, holding);
      var p := |m.pins|;
      m := m.(pins := m.pins + [pin]);
      if !s.ok || pin.name == [] || pin.ptype == Inval {
        assert m.regs == m.regs + PinSlots(p, 0);
        slaves := slaves[currSlave := WithRegs(sl, holding, m)];
        stopped := true;
        return;
      }
      var k := 0;
      while k < pin.regCount
        invariant k <= pin.regCount
        invariant m == Regs(MapRegs(sl, holding).start, MapRegs(sl, holding).regs + PinSlots(p, k), MapRegs(sl, holding).pins + [pin])
      {
        m := m.(regs := m.regs + [PinReg(p, k)]);
        k := k + 1;
      }
      slaves := slaves[currSlave := WithRegs(sl, holding, m)];
    }

    /**
     * lcmbsConfParseBitRegAttrs: appends a bit register (no pin, index 0,
     * an empty bit pin vector) and makes its vector the current one. The
     * element's attributes are not looked at.
     */
    method ParseBitRegAttrs(attrs: seq<Attr>, holding: bool)
      requires !stopped && currSlave < |slaves|
      modifies this`slaves, this`currBitpins
      ensures slaves == old(slaves)[currSlave := WithRegs(old(slaves)[currSlave], holding, AddBitReg(MapRegs(old(slaves)[currSlave], holding)))]
      ensures currBitpins == BitpinsRef(currSlave, holding, |MapRegs(old(slaves)[currSlave], holding).regs|)
      ensures BitpinsValid(slaves, currBitpins)
    {
      var sl := slaves[currSlave];
      var m := MapRegs(sl, holding);
      currBitpins := BitpinsRef(currSlave, holding, |m.regs|);
      slaves := slaves[currSlave := WithRegs(sl, holding, AddBitReg(m))];
    }

    /**
     * lcmbsConfParseBitRegPinAttrs: appends a bit pin to the current bit
     * register's vector; its bit number must lie in 0..15 and it must get a
     * name.
     */
    method ParseBitRegPinAttrs(attrs: seq<Attr>, u: Uninit)
      requires !stopped && BitpinsValid(slaves, currBitpins)
      modifies this`slaves, this`stopped
      ensures slaves == old(slaves)[currBitpins.slave := WithRegs(old(slaves)[currBitpins.slave], currBitpins.holding,
        AddRegBitPin(MapRegs(old(slaves)[currBitpins.slave], currBitpins.holding), currBitpins.reg, RegBitPinParsed(attrs, u).value))]
      ensures stopped == !RegBitPinParsed(attrs, u).ok
      ensures BitpinsValid(old(slaves), currBitpins) ==> BitpinsValid(slaves, currBitpins)
    {
      var s := ScanRegBitPin(RegBitPin(u.name, u.bit, u.cell), attrs);
      var r := currBitpins;
      var sl := slaves[r.slave];
      slaves := slaves[r.slave := WithRegs(sl, r.holding, AddRegBitPin(MapRegs(sl, r.holding), r.reg, s.value))];
      if !s.ok || s.value.name == [] {
        stopped := true;
      }
    }
  }

  // -----------------------------------------------------------------------
  // The scans of lcmbsConfStates
  // -----------------------------------------------------------------------

  /** The loop of lcmbsConfXmlStartHandler: the first row for state `cur` and element `el`. */
  method LookupStart(cur: ConfType, el: string) returns (found: Option<nat>)
    ensures found == FindStart(cur, el, 0)
  {
    var i := 0;
    while i < |CONF_STATES|
      invariant i <= |CONF_STATES|
      invariant FindStart(cur, el, i) == FindStart(cur, el, 0)
    {
      var state := CONF_STATES[i];
      if cur == state.currState && state.nodeName == el {
        return Some(i);
      }
      i := i + 1;
    }
    return None;
  }

  /** The loop of lcmbsConfXmlEndHandler: the first row leading to state `cur` for element `el`. */
  method LookupEnd(cur: ConfType, el: string) returns (found: Option<nat>)
    ensures found == FindEnd(cur, el, 0)
  {
    var i := 0;
    while i < |CONF_STATES|
      invariant i <= |CONF_STATES|
      invariant FindEnd(cur, el, i) == FindEnd(cur, el, 0)
    {
      var state := CONF_STATES[i];
      if cur == state.nextState && state.nodeName == el {
        return Some(i);
      }
      i := i + 1;
    }
    return None;
  }

  // -----------------------------------------------------------------------
  // The `while (*attr)` loops
  // -----------------------------------------------------------------------

  /** The attribute loop of a handler that reads only `name`. */
  method ScanName(name: string, attrs: seq<Attr>) returns (s: Scanned<string>)
    ensures s == NameScan(name, attrs, 0)
  {
    var v := name;
    var i := 0;
    while i < |attrs|
      invariant i <= |attrs|
      invariant NameScan(name, attrs, 0) == NameScan(v, attrs, i)
    {
      if attrs[i].name != "name" {
        return Scanned(v, false);
      }
      v := CopyName(attrs[i].val);
      i := i + 1;
    }
    return Scanned(v, true);
  }

  /** The attribute loop of a handler that reads only the number `key`. */
  method ScanNum(key: string, init: int, attrs: seq<Attr>) returns (s: Scanned<int>)
    ensures s == NumScan(key, init, attrs, 0)
  {
    var v := init;
    var i := 0;
    while i < |attrs|
      invariant i <= |attrs|
      invariant NumScan(key, init, attrs, 0) == NumScan(key, v, attrs, i)
    {
      if attrs[i].name != key {
        return Scanned(v, false);
      }
      v := attrs[i].num;
      i := i + 1;
    }
    return Scanned(v, true);
  }

  /** The attribute loop of lcmbsConfParseRegPinAttrs. */
  method ScanRegPin(init: RegPin, attrs: seq<Attr>) returns (s: Scanned<RegPin>)
    ensures s == RegPinScan(init, attrs, 0)
  {
    var pin := init;
    var i := 0;
    while i < |attrs|
      invariant i <= |attrs|
      invariant RegPinScan(init, attrs, 0) == RegPinScan(pin, attrs, i)
    {
      var step := RegPinStep(pin, attrs[i]);
      if !step.ok {
        return step;
      }
      pin := step.value;
      i := i + 1;
    }
    return Scanned(pin, true);
  }

  /** The attribute loop of lcmbsConfParseBitRegPinAttrs. */
  method ScanRegBitPin(init: RegBitPin, attrs: seq<Attr>) returns (s: Scanned<RegBitPin>)
    ensures s == RegBitPinScan(init, attrs, 0)
  {
    var bp := init;
    var i := 0;
    while i < |attrs|
      invariant i <= |attrs|
      invariant RegBitPinScan(init, attrs, 0) == RegBitPinScan(bp, attrs, i)
    {
      var step := RegBitPinStep(bp, attrs[i]);
      if !step.ok {
        return step;
      }
      bp := step.value;
      i := i + 1;
    }
    return Scanned(bp, true);
  }
}
