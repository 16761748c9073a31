/**
 * Properties of lcmbsProtProc, the dispatcher of mbslave_prot.c, stated on
 * ProtSpec.Proc, which the method Prot.Proc is proved to follow.
 */
module ProcProps {
  import opened Bytes
  import opened Topology
  import opened Packing
  import opened ProtSpec
  import opened ProtProps
  import opened RegProps

  /** Every map of the slave was set up by its configuration node: start 0..65535 and fewer than 2^31 entries. */
  predicate Configured(sl: Slave) {
    sl.coils.start >= 0 && sl.inputs.start >= 0 && sl.holdingRegs.start >= 0 && sl.inputRegs.start >= 0 &&
    |sl.coils.pins| <= INT_MAX && |sl.inputs.pins| <= INT_MAX &&
    |sl.holdingRegs.regs| <= INT_MAX && |sl.inputRegs.regs| <= INT_MAX
  }

  /** The function codes the engine serves. */
  predicate Supported(fnk: bv8) {
    fnk == FNK_READ_COIL_STATUS || fnk == FNK_READ_INPUT_STATUS || fnk == FNK_READ_HOLDING_REG ||
    fnk == FNK_READ_INPUT_REG || fnk == FNK_FORCE_SINGLE_COIL || fnk == FNK_PRESET_SINGLE_REG ||
    fnk == FNK_FORCE_MULTI_COIL || fnk == FNK_PRESET_MULTI_REG
  }

  /** A handler's reply: exception codes 1..3 only, an error changes nothing, a success starts with slave id and function code. */
  predicate WellFormed(r: Reply, sid: bv8, fnk: bv8, st: Store) {
    r.Reply? && (r.err == ERR_OK || r.err == ERR_INVALID_FUNCTION || r.err == ERR_ILLEGAL_DATA_ADDRESS || r.err == ERR_ILLEGAL_DATA_VALUE) &&
    (r.err != ERR_OK ==> r.st == st) &&
    (r.err == ERR_OK ==> |r.out| >= 3 && r.out[0] == sid && r.out[1] == fnk)
  }

  lemma ReadBitsWellFormed(sid: bv8, fnk: bv8, req: seq<bv8>, m: Bits, st: Store)
    requires BitsOk(m, st) && m.start >= 0 && |m.pins| <= INT_MAX
    ensures WellFormed(ReadBits(sid, fnk, req, m, st), sid, fnk, st)
  {
    if |req| >= 4 {
      ReadBitsOutcome(sid, fnk, Field(req[0], req[1]), Field(req[2], req[3]), m, st);
    }
  }

  lemma ForceBitWellFormed(sid: bv8, fnk: bv8, req: seq<bv8>, m: Bits, st: Store)
    requires BitsOk(m, st) && m.start >= 0 && |m.pins| <= INT_MAX
    ensures WellFormed(ForceBit(sid, fnk, req, m, st), sid, fnk, st)
  {
    if |req| >= 4 {
      ForceBitOutcome(sid, fnk, BE16Value(req[0], req[1]), BE16Value(req[2], req[3]), m, st);
    }
  }

  lemma ForceBitsWellFormed(sid: bv8, fnk: bv8, req: seq<bv8>, m: Bits, st: Store)
    requires BitsOk(m, st) && m.start >= 0 && |m.pins| <= INT_MAX
    ensures WellFormed(ForceBits(sid, fnk, req, m, st), sid, fnk, st)
  {
    if |req| >= 5 {
      ForceBitsOutcome(sid, fnk, Field(req[0], req[1]), BE16Value(req[2], req[3]), req[4] as int, req[5..], m, st);
    }
  }

  lemma ReadRegsWellFormed(sid: bv8, fnk: bv8, req: seq<bv8>, m: Regs, st: Store)
    requires RegsOk(m, st) && m.start >= 0 && |m.regs| <= INT_MAX
    ensures WellFormed(ReadRegs(sid, fnk, req, m, st), sid, fnk, st)
  {
    if |req| >= 4 {
      ReadRegsOutcome(sid, fnk, Field(req[0], req[1]), Field(req[2], req[3]), m, st);
    }
  }

  lemma PresetRegWellFormed(sid: bv8, fnk: bv8, req: seq<bv8>, m: Regs, st: Store)
    requires RegsOk(m, st) && m.start >= 0 && |m.regs| <= INT_MAX
    ensures WellFormed(PresetReg(sid, fnk, req, m, st), sid, fnk, st)
  {
    if |req| >= 4 {
      PresetRegOutcome(sid, fnk, BE16Value(req[0], req[1]), m, st);
    }
  }

  lemma PresetRegsWellFormed(sid: bv8, fnk: bv8, req: seq<bv8>, m: Regs, st: Store)
    requires RegsOk(m, st) && m.start >= 0 && |m.regs| <= INT_MAX
    ensures WellFormed(PresetRegs(sid, fnk, req, m, st), sid, fnk, st)
  {
    if |req| >= 5 {
      PresetRegsChecks(sid, fnk, BE16Value(req[0], req[1]), BE16Value(req[2], req[3]), req[4] as int, req[5..], m, st);
    }
  }

  /**
   * On a configured slave every function code is served without a crash:
   * an unknown code gets exception 1, and every handler's reply is well
   * formed.
   */
  lemma HandleWellFormed(sl: Slave, sid: bv8, fnk: bv8, req: seq<bv8>, st: Store)
    requires SlaveOk(sl, st) && Configured(sl)
    ensures WellFormed(Handle(sl, sid, fnk, req, st), sid, fnk, st)
    ensures !Supported(fnk) ==> Handle(sl, sid, fnk, req, st) == Reply(ERR_INVALID_FUNCTION, [], st)
  {
    if fnk == FNK_READ_COIL_STATUS { ReadBitsWellFormed(sid, fnk, req, sl.coils, st); }
    else if fnk == FNK_READ_INPUT_STATUS { ReadBitsWellFormed(sid, fnk, req, sl.inputs, st); }
    else if fnk == FNK_FORCE_SINGLE_COIL { ForceBitWellFormed(sid, fnk, req, sl.coils, st); }
    else if fnk == FNK_FORCE_MULTI_COIL { ForceBitsWellFormed(sid, fnk, req, sl.coils, st); }
    else if fnk == FNK_READ_HOLDING_REG { ReadRegsWellFormed(sid, fnk, req, sl.holdingRegs, st); }
    else if fnk == FNK_READ_INPUT_REG { ReadRegsWellFormed(sid, fnk, req, sl.inputRegs, st); }
    else if fnk == FNK_PRESET_SINGLE_REG { PresetRegWellFormed(sid, fnk, req, sl.holdingRegs, st); }
    else if fnk == FNK_PRESET_MULTI_REG { PresetRegsWellFormed(sid, fnk, req, sl.holdingRegs, st); }
  }

  /**
   * What lcmbsProtProc answers on a configured slave: nothing to a request
   * shorter than slave id and function code; otherwise never a crash, and a
   * response of at least three bytes that starts with the request's slave
   * id. Either it carries the request's function code, or it is the
   * exception response [sid, fnk | 0x80, code] with code 1, 2 or 3 (1 for an
   * unsupported function code) and the store unchanged.
   */
  lemma ProcResponse(sl: Slave, req: seq<bv8>, st: Store)
    requires SlaveOk(sl, st) && Configured(sl)
    ensures Proc(sl, req, st).Served?
    ensures |req| < 2 ==> Proc(sl, req, st) == Served([], st)
    ensures |req| >= 2 ==>
      var pdu, st' := Proc(sl, req, st).pdu, Proc(sl, req, st).st;
      |pdu| >= 3 && pdu[0] == req[0] &&
      (pdu[1] == req[1] ||
        (pdu == [req[0], req[1] | 0x80, pdu[2]] && st' == st &&
         (pdu[2] == ERR_INVALID_FUNCTION || pdu[2] == ERR_ILLEGAL_DATA_ADDRESS || pdu[2] == ERR_ILLEGAL_DATA_VALUE)))
    ensures |req| >= 2 && !Supported(req[1]) ==> Proc(sl, req, st) == Served([req[0], req[1] | 0x80, ERR_INVALID_FUNCTION], st)
  {
    if |req| >= 2 {
      HandleWellFormed(sl, req[0], req[1], req[2..], st);
    }
  }

  /** FC 1 to 4 only read: whatever lcmbsProtProc answers to them, the store is as before. */
  lemma ProcReadsKeepStore(sl: Slave, req: seq<bv8>, st: Store)
    requires SlaveOk(sl, st) && |req| >= 2 && 1 <= req[1] <= 4 && Proc(sl, req, st).Served?
    ensures Proc(sl, req, st).st == st
  {
    if req[1] <= 2 {
      ReadBitsKeepsStore(req[0], req[1], req[2..], if req[1] == 1 then sl.coils else sl.inputs, st);
    } else {
      ReadRegsKeepsStore(req[0], req[1], req[2..], if req[1] == 3 then sl.holdingRegs else sl.inputRegs, st);
    }
  }

  /**
   * The unconfigured-map defect end to end: a slave whose configuration
   * had no coils node crashes on a request to read one coil.
   */
  lemma UnconfiguredSlaveCrashes()
    ensures var sl := Slave("slave", [], Regs(-1, [], []), Regs(-1, [], []), Bits(-1, []), Bits(-1, []));
      Proc(sl, [1, 1, 0, 0, 0, 1], Store([], [], [], [])).Crashed?
  {
    var req: seq<bv8> := [1, 1, 0, 0, 0, 1];
    assert req[2..] == [0, 0, 0, 1];
    UnconfiguredBitsCrash(1, 1, 0, 1, Store([], [], [], []));
  }

  /** Every handler changes only values in the store, never its cells. */
  lemma HandleKeepsShape(sl: Slave, sid: bv8, fnk: bv8, req: seq<bv8>, st: Store)
    requires SlaveOk(sl, st)
    ensures Handle(sl, sid, fnk, req, st).Reply? ==> SameShape(st, Handle(sl, sid, fnk, req, st).st)
  {
    if fnk == FNK_READ_COIL_STATUS { ReadBitsKeepsStore(sid, fnk, req, sl.coils, st); }
    else if fnk == FNK_READ_INPUT_STATUS { ReadBitsKeepsStore(sid, fnk, req, sl.inputs, st); }
    else if fnk == FNK_FORCE_SINGLE_COIL { ForceBitKeepsShape(sid, fnk, req, sl.coils, st); }
    else if fnk == FNK_FORCE_MULTI_COIL { ForceBitsKeepsShape(sid, fnk, req, sl.coils, st); }
    else if fnk == FNK_READ_HOLDING_REG { ReadRegsKeepsStore(sid, fnk, req, sl.holdingRegs, st); }
    else if fnk == FNK_READ_INPUT_REG { ReadRegsKeepsStore(sid, fnk, req, sl.inputRegs, st); }
    else if fnk == FNK_PRESET_SINGLE_REG { PresetRegKeepsShape(sid, fnk, req, sl.holdingRegs, st); }
    else if fnk == FNK_PRESET_MULTI_REG { PresetRegsKeepsShape(sid, fnk, req, sl.holdingRegs, st); }
  }

  lemma ForceBitKeepsShape(sid: bv8, fnk: bv8, req: seq<bv8>, m: Bits, st: Store)
    requires BitsOk(m, st)
    ensures ForceBit(sid, fnk, req, m, st).Reply? ==> SameShape(st, ForceBit(sid, fnk, req, m, st).st)
  {
  }

  lemma ForceBitsKeepsShape(sid: bv8, fnk: bv8, req: seq<bv8>, m: Bits, st: Store)
    requires BitsOk(m, st)
    ensures ForceBits(sid, fnk, req, m, st).Reply? ==> SameShape(st, ForceBits(sid, fnk, req, m, st).st)
  {
    if |req| >= 5 {
      ForceBitsFieldsKeepsShape(sid, fnk, Field(req[0], req[1]), BE16Value(req[2], req[3]), req[4] as int, req[5..], m, st);
    }
  }

  lemma ForceBitsFieldsKeepsShape(sid: bv8, fnk: bv8, start: nat, cw: bv16, bc: nat, payload: seq<bv8>, m: Bits, st: Store)
    requires BitsOk(m, st)
    ensures var r := ForceBitsFields(sid, fnk, start, cw, bc, payload, m, st);
      r.Reply? ==> SameShape(st, r.st)
  {
  }

  lemma PresetRegKeepsShape(sid: bv8, fnk: bv8, req: seq<bv8>, m: Regs, st: Store)
    requires RegsOk(m, st)
    ensures PresetReg(sid, fnk, req, m, st).Reply? ==> SameShape(st, PresetReg(sid, fnk, req, m, st).st)
  {
  }

  lemma PresetRegsKeepsShape(sid: bv8, fnk: bv8, req: seq<bv8>, m: Regs, st: Store)
    requires RegsOk(m, st)
    ensures PresetRegs(sid, fnk, req, m, st).Reply? ==> SameShape(st, PresetRegs(sid, fnk, req, m, st).st)
  {
  }

  /** A slave the engine serves stays well configured over the store lcmbsProtProc leaves. */
  lemma ProcKeepsSlaveOk(sl: Slave, req: seq<bv8>, st: Store)
    requires SlaveOk(sl, st) && Proc(sl, req, st).Served?
    ensures SameShape(st, Proc(sl, req, st).st)
    ensures SlaveOk(sl, Proc(sl, req, st).st)
  {
    if |req| >= 2 {
      HandleKeepsShape(sl, req[0], req[1], req[2..], st);
    }
    RegsOkSameShape(sl.holdingRegs, st, Proc(sl, req, st).st);
    RegsOkSameShape(sl.inputRegs, st, Proc(sl, req, st).st);
  }
}
