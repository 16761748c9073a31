/**
 * The PDU engine of mbslave_prot.c as it runs: each handler pulls its
 * request fields from the input vector, writes pins through the shared
 * cells and appends its response to the output vector. Every handler is
 * proved to do what its ProtSpec function says; a handler that would
 * dereference a NULL vector lookup returns `crashed` at that point.
 *
 * The input and output are byte vectors (`typeSize == 1`), for which the
 * source's put and pull calls never fail, so the SLAVE_DEVICE_FAILURE paths
 * after them are never taken and are not written out.
 */
module Prot {
  import opened Bytes
  import opened Topology
  import opened Packing
  import opened ProtSpec
  import opened Vect
  import opened Wrappers
  import ProtProps

  /** writeRegBitpins: each bit pin of a bit register takes its bit of val. */
  method WriteRegBitpins(bps: seq<RegBitPin>, val: bv16, cells: Cells)
    requires BitPinsOk(bps, cells.Value())
    modifies cells
    ensures cells.Value() == WriteBitReg(old(cells.Value()), bps, val)
  {
    var i := 0;
    while i < |bps|
      invariant 0 <= i <= |bps|
      invariant BitPinsOk(bps[..i], old(cells.Value()))
      invariant cells.Value() == WriteBitReg(old(cells.Value()), bps[..i], val)
    {
      var pin := bps[i];
      assert bps[..i + 1][..i] == bps[..i] && bps[..i + 1][i] == pin;
      cells.bits := cells.bits[pin.cell := pin.bit <= 15 && val & BitMask(pin.bit) != 0];
      i := i + 1;
    }
    assert bps[..i] == bps;
  }

  /** The register value of one more bit pin: that pin's bit or'ed in. */
  lemma BitRegValueStep(bps: seq<RegBitPin>, i: nat, st: Store)
    requires BitPinsOk(bps, st) && i < |bps|
    ensures BitPinsOk(bps[..i], st) && BitPinsOk(bps[..i + 1], st)
    ensures BitRegValue(bps[..i + 1], st) == BitRegValue(bps[..i], st) | PinBit(bps[i], st)
  {
    var p := bps[..i + 1];
    assert p[..|p| - 1] == bps[..i] && p[|p| - 1] == bps[i];
  }

  /** readRegBitpins: the register value with bit `bit` set for every set bit pin. */
  method ReadRegBitpins(bps: seq<RegBitPin>, cells: Cells) returns (val: bv16)
    requires BitPinsOk(bps, cells.Value())
    ensures val == BitRegValue(bps, cells.Value())
  {
    ghost var st := cells.Value();
    val := 0;
    var i := 0;
    assert bps[..0] == [];
    while i < |bps|
      invariant 0 <= i <= |bps|
      invariant BitPinsOk(bps[..i], st)
      invariant val == BitRegValue(bps[..i], st)
    {
      BitRegValueStep(bps, i, st);
      val := OrBitPin(val, bps[i], cells);
      i := i + 1;
    }
    assert bps[..i] == bps;
  }

  /** One pass of the loop of readRegBitpins: the pin's bit is or'ed in when its cell is set. */
  method OrBitPin(val: bv16, pin: RegBitPin, cells: Cells) returns (r: bv16)
    requires 0 <= pin.bit <= 30 && pin.cell < |cells.bits|
    ensures r == val | PinBit(pin, cells.Value())
  {
    if cells.bits[pin.cell] && pin.bit <= 15 {
      r := val | BitMask(pin.bit);
    } else {
      OrWithZero16(val);
      r := val;
    }
  }

  /** Or-ing 0 into a 16-bit register value leaves it unchanged (a hint the bit-vector solver needs). */
  lemma OrWithZero16(x: bv16)
    ensures x | 0 == x
  {
  }

  /**
   * Pulls a big-endian uint16_t request field: lcmbsVectPullWord, then
   * ntohs. The field is returned both as the word w and as its number v.
   */
  method PullField(inp: Vect) returns (ok: bool, w: bv16, v: nat)
    requires inp.Valid() && inp.typeSize == 1
    modifies inp`pos
    ensures inp.Valid()
    ensures ok == (|old(inp.Unread())| >= 2)
    ensures ok ==> w == BE16Value(old(inp.Unread())[0], old(inp.Unread())[1])
    ensures ok ==> v == Field(old(inp.Unread())[0], old(inp.Unread())[1])
    ensures ok ==> inp.Unread() == old(inp.Unread())[2..]
  {
    var raw;
    w, v := 0, 0;
    ok, raw := inp.PullWord();
    if ok {
      ghost var hi, lo := inp.data[old(inp.pos)], inp.data[old(inp.pos) + 1];
      assert old(inp.Unread())[0] == hi && old(inp.Unread())[1] == lo;
      NtohsLoad(hi, lo);
      w := Bswap16(raw);
      v := w as int;
    }
  }

  /** lcmbsProtReadBits: FC 1 and FC 2 on coil or input map m. */
  method ReadBits(sid: bv8, fnk: bv8, inp: Vect, out: Vect, m: Bits, cells: Cells) returns (crashed: bool, err: bv8)
    requires inp.Valid() && inp.typeSize == 1 && out.Valid() && out.typeSize == 1 && inp != out
    requires BitsOk(m, cells.Value())
    modifies inp`pos, out
    ensures inp.Valid() && out.Valid()
    ensures var r := ProtSpec.ReadBits(sid, fnk, old(inp.Unread()), m, cells.Value());
      crashed == r.Crash? && (!crashed ==> err == r.err && out.Bytes() == old(out.Bytes()) + r.out)
  {
    var ok, w, start := PullField(inp);
    if !ok {
      return false, ERR_INVALID_FUNCTION;
    }
    var n;
    ok, w, n := PullField(inp);
    if !ok {
      return false, ERR_INVALID_FUNCTION;
    }
    crashed, err := ReadBitsFrom(sid, fnk, out, m, cells, start, n);
  }

  /** The body of lcmbsProtReadBits after the request fields: range checks, header, bits. */
  method ReadBitsFrom(sid: bv8, fnk: bv8, out: Vect, m: Bits, cells: Cells, start: nat, n: nat) returns (crashed: bool, err: bv8)
    requires out.Valid() && out.typeSize == 1 && BitsOk(m, cells.Value())
    modifies out
    ensures out.Valid()
    ensures var r := ReadBitsFields(sid, fnk, start, n, m, cells.Value());
      crashed == r.Crash? && (!crashed ==> err == r.err && out.Bytes() == old(out.Bytes()) + r.out)
  {
    if start < m.start || start + n > SizeT(m.start + |m.pins|) {
      return false, ERR_ILLEGAL_DATA_ADDRESS;
    }
    crashed, err := ReadBitsCounted(sid, fnk, out, m, cells, start, n);
  }

  /** ReadBitsFrom once the range check has passed: the byte count check, then the reply. */
  method ReadBitsCounted(sid: bv8, fnk: bv8, out: Vect, m: Bits, cells: Cells, start: nat, n: nat) returns (crashed: bool, err: bv8)
    requires out.Valid() && out.typeSize == 1 && BitsOk(m, cells.Value()) && !RangeFails(start, n, m.start, |m.pins|)
    modifies out
    ensures out.Valid()
    ensures var r := ReadBitsFields(sid, fnk, start, n, m, cells.Value());
      crashed == r.Crash? && (!crashed ==> err == r.err && out.Bytes() == old(out.Bytes()) + r.out)
  {
    ghost var st := cells.Value();
    var bytes := ByteCount(n);
    if bytes > 255 {
      assert ReadBitsFields(sid, fnk, start, n, m, st) == Reply(ERR_ILLEGAL_DATA_ADDRESS, [], st);
      return false, ERR_ILLEGAL_DATA_ADDRESS;
    }
    ghost var before := out.Bytes();
    var base := Rebase(start, m.start);
    ReadBitsPasses(sid, fnk, start, n, m, st);
    crashed := ReadBitsReply(sid, fnk, out, m, cells, base, n, bytes as bv8);
    assert cells.Value() == st;
    err := ERR_OK;
  }

  /** The range checks of FC 1 and 2 pass: the reply is the header, then the packed bits. */
  lemma ReadBitsPasses(sid: bv8, fnk: bv8, start: nat, n: nat, m: Bits, st: Store)
    requires BitsOk(m, st) && !RangeFails(start, n, m.start, |m.pins|) && ByteCount(n) <= 255
    ensures var r, base := ReadBitsFields(sid, fnk, start, n, m, st), Rebase(start, m.start);
      r.Crash? == (n > 0 && base + n > |m.pins|) &&
      (!r.Crash? ==> (r.err == ERR_OK &&
        r.out == [sid, fnk, ByteCount(n) as bv8] + (if n == 0 then [] else PackBits(BitValues(m, st, base, n)))))
  {
  }

  /** The response of a coil read that passed its checks: header, then the bits unless there are none. */
  method ReadBitsReply(sid: bv8, fnk: bv8, out: Vect, m: Bits, cells: Cells, base: nat, n: nat, bc: bv8) returns (crashed: bool)
    requires out.Valid() && out.typeSize == 1 && BitsOk(m, cells.Value())
    modifies out
    ensures out.Valid()
    ensures crashed == (n > 0 && base + n > |m.pins|)
    ensures !crashed ==>
      out.Bytes() == old(out.Bytes()) + [sid, fnk, bc] + (if n == 0 then [] else PackBits(BitValues(m, cells.Value(), base, n)))
  {
    PutHeader(out, sid, fnk, bc);
    if n == 0 {
      return false;
    }
    crashed := PutBits(out, m, cells, base, n);
  }

  /**
   * The loop of lcmbsProtReadBits: bit pins b .. b + n - 1 packed eight to a
   * byte, least significant bit first, each byte appended once it is full or
   * the bits end.
   */
  method PutBits(out: Vect, m: Bits, cells: Cells, b: nat, n: nat) returns (crashed: bool)
    requires out.Valid() && out.typeSize == 1 && BitsOk(m, cells.Value()) && n > 0
    modifies out
    ensures out.Valid()
    ensures crashed == (b + n > |m.pins|)
    ensures !crashed ==> out.Bytes() == old(out.Bytes()) + PackBits(BitValues(m, cells.Value(), b, n))
  {
    ghost var st := cells.Value();
    ghost var prefix := out.Bytes();
    // the bits met so far; BitValues once every lookup has succeeded
    ghost var vs := seq(n, j requires 0 <= j < n => b + j < |m.pins| && st.bits[m.pins[b + j].cell]);
    var i := 0;
    var val: bv8 := 0;
    ghost var full := 0;
    assert vs[..0] == [];
    while i < n
      invariant 0 <= i <= n && out.Valid() && out.typeSize == 1
      invariant i > 0 ==> b + i <= |m.pins|
      invariant Packed(out.Bytes(), prefix, vs, i, full, val)
    {
      if b + i >= |m.pins| {
        // the lookup returned NULL and `**pin->pin` dereferences it
        return true;
      }
      var pin := m.pins[b + i];
      val, full := PackStep(out, val, cells.bits[pin.cell], vs, i, n, full, prefix);
      i := i + 1;
    }
    PackedAll(out.Bytes(), prefix, vs, full, val);
    assert vs == BitValues(m, st, b, n);
    return false;
  }

  /**
   * How far the coil loop has got after i bits: the first `full` bytes are
   * out, val holds the bits of the byte under construction, and once the
   * bits end the last partial byte is out too.
   */
  ghost predicate Packed(bytes: seq<bv8>, prefix: seq<bv8>, vs: seq<bool>, i: nat, full: nat, val: bv8) {
    i <= |vs| && 8 * full <= i < 8 * full + 8 &&
    (i == 8 * full ==> bytes == prefix + PackBits(vs[..i]) && val == 0) &&
    (8 * full < i < |vs| ==> bytes == prefix + PackBits(vs[..8 * full]) && val == PackByte(vs[8 * full..i])) &&
    (8 * full < i == |vs| ==> bytes == prefix + PackBits(vs))
  }

  lemma PackedAll(bytes: seq<bv8>, prefix: seq<bv8>, vs: seq<bool>, full: nat, val: bv8)
    requires Packed(bytes, prefix, vs, |vs|, full, val)
    ensures bytes == prefix + PackBits(vs)
  {
    assert vs[..|vs|] == vs;
  }

  /** One pass of the coil loop body for bit i: or it in, count it, and put the byte when it is complete. */
  method PackStep(out: Vect, val: bv8, bit: bool, ghost vs: seq<bool>, i: nat, n: nat, ghost full: nat, ghost prefix: seq<bv8>)
    returns (val': bv8, ghost full': nat)
    requires out.Valid() && out.typeSize == 1
    requires n == |vs| && i < n && vs[i] == bit && Packed(out.Bytes(), prefix, vs, i, full, val)
    modifies out
    ensures out.Valid() && Packed(out.Bytes(), prefix, vs, i + 1, full', val')
  {
    ghost var before := out.Bytes();
    assert before == prefix + PackBits(vs[..8 * full]) && val == PackByte(vs[8 * full..i]) by {
      if i == 8 * full {
        assert vs[8 * full..i] == [];
      }
    }
    val' := AddBit(val, bit, vs, i, full);
    full' := full;
    var next := i + 1;
    assert next % 8 == 0 <==> next == 8 * full + 8;
    if next % 8 == 0 || next == n {
      var ok := out.PutByte(val');
      Flushed(before, prefix, vs, next, full, val');
      assert next == n ==> vs[..next] == vs;
      if next % 8 == 0 {
        full' := full + 1;
      }
      val' := 0;
    }
  }

  lemma Flushed(before: seq<bv8>, prefix: seq<bv8>, vs: seq<bool>, next: nat, full: nat, val: bv8)
    requires 8 * full < next <= 8 * full + 8 && next <= |vs|
    requires before == prefix + PackBits(vs[..8 * full]) && val == PackByte(vs[8 * full..next])
    ensures before + [val] == prefix + PackBits(vs[..next])
  {
    PackBitsPrefix(vs, next);
    assert (next - 1) / 8 == full;
  }

  /** `if (**pin->pin) val |= 1 << (i & 7)`, which packs bit i into the byte under construction. */
  method AddBit(val: bv8, bit: bool, ghost vs: seq<bool>, i: nat, ghost full: nat) returns (val': bv8)
    requires i < |vs| && vs[i] == bit && 8 * full <= i < 8 * full + 8 && val == PackByte(vs[8 * full..i])
    ensures val' == PackByte(vs[8 * full..i + 1])
  {
    assert vs[8 * full..i + 1] == vs[8 * full..i] + [vs[i]];
    assert i % 8 == i - 8 * full;
    PackByteSnoc(vs[8 * full..i], vs[i]);
    if bit {
      val' := val | ByteBit(i % 8);
    } else {
      OrWithZero8(val);
      val' := val;
    }
  }

  /** Or-ing 0 into a data byte leaves it unchanged (a hint the bit-vector solver needs). */
  lemma OrWithZero8(x: bv8)
    ensures x | 0 == x
  {
  }

  /** lcmbsProtForceBit: FC 5 on the coil map m. */
  method ForceBit(sid: bv8, fnk: bv8, inp: Vect, out: Vect, m: Bits, cells: Cells) returns (crashed: bool, err: bv8)
    requires inp.Valid() && inp.typeSize == 1 && out.Valid() && out.typeSize == 1 && inp != out
    requires BitsOk(m, cells.Value())
    modifies inp`pos, out, cells
    ensures inp.Valid() && out.Valid()
    ensures var r := ProtSpec.ForceBit(sid, fnk, old(inp.Unread()), m, old(cells.Value()));
      crashed == r.Crash? && (!crashed ==> err == r.err && out.Bytes() == old(out.Bytes()) + r.out && cells.Value() == r.st)
  {
    var ok, addr, a := PullField(inp);
    if !ok {
      return false, ERR_INVALID_FUNCTION;
    }
    var val, v;
    ok, val, v := PullField(inp);
    if !ok {
      return false, ERR_INVALID_FUNCTION;
    }
    crashed, err := ForceBitFrom(sid, fnk, out, m, cells, addr, a, val);
  }

  /** The body of lcmbsProtForceBit after the request fields; a is the number addr. */
  method ForceBitFrom(sid: bv8, fnk: bv8, out: Vect, m: Bits, cells: Cells, addr: bv16, a: nat, val: bv16) returns (crashed: bool, err: bv8)
    requires out.Valid() && out.typeSize == 1 && BitsOk(m, cells.Value()) && a == addr as int
    modifies out, cells
    ensures out.Valid()
    ensures var r := ForceBitFields(sid, fnk, addr, val, m, old(cells.Value()));
      crashed == r.Crash? && (!crashed ==> err == r.err && out.Bytes() == old(out.Bytes()) + r.out && cells.Value() == r.st)
  {
    if a < m.start || a >= SizeT(m.start + |m.pins|) {
      return false, ERR_ILLEGAL_DATA_ADDRESS;
    }
    if val != 0x0000 && val != 0xff00 {
      return false, ERR_ILLEGAL_DATA_VALUE;
    }
    var idx := SizeT(a - m.start);
    if idx >= |m.pins| {
      // the lookup returned NULL and `**pin->pin` dereferences it
      return true, ERR_OK;
    }
    cells.bits := cells.bits[m.pins[idx].cell := val != 0];
    PutEcho(out, sid, fnk, addr, val);
    return false, ERR_OK;
  }

  /** The response of FC 5, 6, 15 and 16: slave id, function code and two words put with htons. */
  method PutEcho(out: Vect, sid: bv8, fnk: bv8, a: bv16, b: bv16)
    requires out.Valid() && out.typeSize == 1
    modifies out
    ensures out.Valid() && out.Bytes() == old(out.Bytes()) + ([sid, fnk] + BE16(a) + BE16(b))
  {
    var ok := out.PutByte(sid);
    ok := out.PutByte(fnk);
    ok := out.PutWord(Bswap16(a));
    ok := out.PutWord(Bswap16(b));
    StoreHtons(a);
    StoreHtons(b);
  }

  /** lcmbsProtForceBits: FC 15 on the coil map m. */
  method ForceBits(sid: bv8, fnk: bv8, inp: Vect, out: Vect, m: Bits, cells: Cells) returns (crashed: bool, err: bv8)
    requires inp.Valid() && inp.typeSize == 1 && out.Valid() && out.typeSize == 1 && inp != out
    requires BitsOk(m, cells.Value())
    modifies inp`pos, out, cells
    ensures inp.Valid() && out.Valid()
    ensures var r := ProtSpec.ForceBits(sid, fnk, old(inp.Unread()), m, old(cells.Value()));
      crashed == r.Crash? && (!crashed ==> err == r.err && out.Bytes() == old(out.Bytes()) + r.out && cells.Value() == r.st)
  {
    var ok, sw, start := PullField(inp);
    if !ok {
      return false, ERR_INVALID_FUNCTION;
    }
    var cw, n;
    ok, cw, n := PullField(inp);
    if !ok {
      return false, ERR_INVALID_FUNCTION;
    }
    ghost var rest := inp.Unread();
    var bc;
    ok, bc := inp.PullByte();
    if !ok {
      return false, ERR_INVALID_FUNCTION;
    }
    assert rest[0] == bc && inp.Unread() == rest[1..];
    crashed, err := ForceBitsFrom(sid, fnk, inp, out, m, cells, start, cw, n, bc as int);
  }

  /** The body of lcmbsProtForceBits after the request fields; n is the number cw. */
  method ForceBitsFrom(sid: bv8, fnk: bv8, inp: Vect, out: Vect, m: Bits, cells: Cells, start: nat, cw: bv16, n: nat, bc: nat)
    returns (crashed: bool, err: bv8)
    requires inp.Valid() && inp.typeSize == 1 && out.Valid() && out.typeSize == 1 && inp != out
    requires BitsOk(m, cells.Value()) && n == cw as int
    modifies inp`pos, out, cells
    ensures inp.Valid() && out.Valid()
    ensures var r := ForceBitsFields(sid, fnk, start, cw, bc, old(inp.Unread()), m, old(cells.Value()));
      crashed == r.Crash? && (!crashed ==> err == r.err && out.Bytes() == old(out.Bytes()) + r.out && cells.Value() == r.st)
  {
    if start < m.start || start + n > SizeT(m.start + |m.pins|) {
      return false, ERR_ILLEGAL_DATA_ADDRESS;
    }
    crashed, err := ForceBitsCounted(sid, fnk, inp, out, m, cells, start, cw, n, bc);
  }

  /** ForceBitsFrom once the coils are inside the map: the byte count checks, then the writes. */
  method ForceBitsCounted(sid: bv8, fnk: bv8, inp: Vect, out: Vect, m: Bits, cells: Cells, start: nat, cw: bv16, n: nat, bc: nat)
    returns (crashed: bool, err: bv8)
    requires inp.Valid() && inp.typeSize == 1 && out.Valid() && out.typeSize == 1 && inp != out
    requires BitsOk(m, cells.Value()) && n == cw as int && !RangeFails(start, n, m.start, |m.pins|)
    modifies inp`pos, out, cells
    ensures inp.Valid() && out.Valid()
    ensures var r := ForceBitsFields(sid, fnk, start, cw, bc, old(inp.Unread()), m, old(cells.Value()));
      crashed == r.Crash? && (!crashed ==> err == r.err && out.Bytes() == old(out.Bytes()) + r.out && cells.Value() == r.st)
  {
    var bytes := ByteCount(n);
    if bytes != bc {
      return false, ERR_ILLEGAL_DATA_ADDRESS;
    }
    if bytes != inp.count - inp.pos {
      return false, ERR_ILLEGAL_DATA_VALUE;
    }
    ForceBitsPasses(sid, fnk, start, cw, n, bc, inp.Unread(), m, cells.Value());
    crashed := ForceBitsApply(sid, fnk, inp, out, m, cells, Rebase(start, m.start), cw, n);
    err := ERR_OK;
  }

  /** A FC 15 request whose fields pass the checks: the reply is the echo and the coils set, or a crash. */
  lemma ForceBitsPasses(sid: bv8, fnk: bv8, start: nat, cw: bv16, n: nat, bc: nat, payload: seq<bv8>, m: Bits, st: Store)
    requires BitsOk(m, st) && n == cw as int
    requires !RangeFails(start, n, m.start, |m.pins|) && ByteCount(n) == bc == |payload|
    ensures var r := ForceBitsFields(sid, fnk, start, cw, bc, payload, m, st);
      var base := Rebase(start, m.start);
      r.Crash? == (n > 0 && base + n > |m.pins|) &&
      (!r.Crash? ==> (r.err == ERR_OK && r.out == [sid, fnk] + BE16(base as bv16) + BE16(cw) &&
        r.st == (if n == 0 then st else SetBitPins(st, m, base, UnpackBits(payload, n), 0))))
  {
  }

  /** The coil writes and the echo of a FC 15 request that passed its checks. */
  method ForceBitsApply(sid: bv8, fnk: bv8, inp: Vect, out: Vect, m: Bits, cells: Cells, base: nat, cw: bv16, n: nat)
    returns (crashed: bool)
    requires inp.Valid() && inp.typeSize == 1 && out.Valid() && out.typeSize == 1 && inp != out
    requires BitsOk(m, cells.Value()) && |inp.Unread()| == ByteCount(n) && base < 0x1_0000
    modifies inp`pos, out, cells
    ensures inp.Valid() && out.Valid()
    ensures crashed == (n > 0 && base + n > |m.pins|)
    ensures !crashed ==> out.Bytes() == old(out.Bytes()) + ([sid, fnk] + BE16(base as bv16) + BE16(cw))
    ensures !crashed ==>
      cells.Value() == (if n == 0 then old(cells.Value()) else SetBitPins(old(cells.Value()), m, base, UnpackBits(old(inp.Unread()), n), 0))
  {
    crashed := SetBits(inp, m, cells, base, n);
    if !crashed {
      PutEcho(out, sid, fnk, base as bv16, cw);
    }
  }

  /**
   * The loop of lcmbsProtForceBits: coil base + i takes bit i mod 8 of
   * payload byte i / 8, a byte being pulled whenever i reaches a multiple of 8.
   */
  method SetBits(inp: Vect, m: Bits, cells: Cells, base: nat, n: nat) returns (crashed: bool)
    requires inp.Valid() && inp.typeSize == 1 && BitsOk(m, cells.Value()) && |inp.Unread()| == ByteCount(n)
    modifies inp`pos, cells
    ensures inp.Valid()
    ensures crashed == (n > 0 && base + n > |m.pins|) &&
      (!crashed ==> cells.Value() == (if n == 0 then old(cells.Value()) else SetBitPins(old(cells.Value()), m, base, UnpackBits(old(inp.Unread()), n), 0)))
  {
    ghost var st0 := cells.Value();
    ghost var payload := inp.Unread();
    ghost var bits := UnpackBits(payload, n);
    var i := 0;
    var val: bv8 := 0;
    while i < n
      invariant 0 <= i <= n && Fed(inp, payload, i, val)
      invariant i > 0 ==> base + i <= |m.pins|
      invariant n == 0 ==> cells.Value() == st0
      invariant Forced(cells.Value(), st0, m, base, bits, i)
    {
      crashed, val := ForceOne(inp, m, cells, base, val, i, n, st0, payload, bits);
      if crashed {
        return;
      }
      i := i + 1;
    }
    if n > 0 {
      ForcedAll(cells.Value(), st0, m, base, bits);
    }
    return false;
  }

  /** Once all coils are written, the store is the one SetBitPins gives. */
  lemma ForcedAll(st: Store, st0: Store, m: Bits, base: nat, bits: seq<bool>)
    requires Forced(st, st0, m, base, bits, |bits|) && base + |bits| <= |m.pins|
    ensures st == SetBitPins(st0, m, base, bits, 0)
  {
  }

  /** The cursor of the FC 15 loop after i coils: the bytes pulled so far, and the current byte. */
  ghost predicate Fed(inp: Vect, payload: seq<bv8>, i: nat, val: bv8)
    reads inp
  {
    inp.Valid() && inp.typeSize == 1 && ByteCount(i) <= |payload| && inp.Unread() == payload[ByteCount(i)..] &&
    (i % 8 != 0 ==> i / 8 < |payload| && val == payload[i / 8])
  }

  /** One pass of the FC 15 loop body for coil i: pull a byte if one starts here, look the pin up, set it. */
  method ForceOne(inp: Vect, m: Bits, cells: Cells, base: nat, val: bv8, i: nat, n: nat,
                  ghost st0: Store, ghost payload: seq<bv8>, ghost bits: seq<bool>)
    returns (crashed: bool, val': bv8)
    requires i < n && |payload| == ByteCount(n) && bits == UnpackBits(payload, n)
    requires Fed(inp, payload, i, val) && Forced(cells.Value(), st0, m, base, bits, i)
    modifies inp`pos, cells
    ensures inp.Valid()
    ensures crashed == (base + i >= |m.pins|)
    ensures !crashed ==> Fed(inp, payload, i + 1, val') && Forced(cells.Value(), st0, m, base, bits, i + 1)
  {
    val' := NextByte(inp, val, i, n, payload);
    if base + i >= |m.pins| {
      // the lookup returned NULL and `**pin->pin` dereferences it
      return true, val';
    }
    assert bits[i] == BitOf(val', i % 8);
    ForceStep(cells, m, base, val', i, st0, bits);
    crashed := false;
  }

  /**
   * After i coils of a FC 15 loop: when all n coils exist, finishing the
   * writes from the current store gives what writing them all from st0 gives.
   */
  ghost predicate Forced(st: Store, st0: Store, m: Bits, base: nat, bits: seq<bool>, i: nat) {
    BitsOk(m, st) && BitsOk(m, st0) && i <= |bits| &&
    (base + |bits| <= |m.pins| ==> SetBitPins(st0, m, base, bits, 0) == SetBitPins(st, m, base, bits, i))
  }

  /** `**pin->pin = (val & (1 << (i & 7))) ? 1 : 0` for coil base + i. */
  method ForceStep(cells: Cells, m: Bits, base: nat, val: bv8, i: nat, ghost st0: Store, ghost bits: seq<bool>)
    requires Forced(cells.Value(), st0, m, base, bits, i) && i < |bits| && base + i < |m.pins|
    requires bits[i] == BitOf(val, i % 8)
    modifies cells
    ensures Forced(cells.Value(), st0, m, base, bits, i + 1)
  {
    cells.bits := cells.bits[m.pins[base + i].cell := val & ByteBit(i % 8) != 0];
  }

  /** `if ((i & 7) == 0) lcmbsVectPullByte(in, &val)`: the payload byte that holds coil i. */
  method NextByte(inp: Vect, val: bv8, i: nat, n: nat, ghost payload: seq<bv8>) returns (val': bv8)
    requires inp.Valid() && inp.typeSize == 1 && i < n && |payload| == ByteCount(n)
    requires inp.Unread() == payload[ByteCount(i)..] && (i % 8 != 0 ==> i / 8 < |payload| && val == payload[i / 8])
    modifies inp`pos
    ensures inp.Valid() && i / 8 < |payload| && val' == payload[i / 8]
    ensures ByteCount(i + 1) <= |payload| && inp.Unread() == payload[ByteCount(i + 1)..]
    ensures (i + 1) % 8 != 0 ==> (i + 1) / 8 == i / 8
  {
    ByteCountNext(i, n);
    val' := val;
    if i % 8 == 0 {
      var ok;
      ok, val' := inp.PullByte();
      assert ok;
    }
  }

  /** Each coil makes at most one more payload byte needed: one exactly when it starts a byte. */
  lemma ByteCountNext(i: nat, n: nat)
    requires i < n
    ensures ByteCount(i + 1) == ByteCount(i) + (if i % 8 == 0 then 1 else 0)
    ensures ByteCount(i + 1) <= ByteCount(n)
    ensures i % 8 == 0 ==> ByteCount(i) == i / 8
    ensures (i + 1) % 8 != 0 ==> (i + 1) / 8 == i / 8 && i / 8 < ByteCount(n)
  {
  }

  /** The header of a FC 1 to 4 response: slave id, function code and byte count. */
  method PutHeader(out: Vect, sid: bv8, fnk: bv8, bc: bv8)
    requires out.Valid() && out.typeSize == 1
    modifies out
    ensures out.Valid() && out.Bytes() == old(out.Bytes()) + [sid, fnk, bc]
  {
    var ok := out.PutByte(sid);
    ok := out.PutByte(fnk);
    ok := out.PutByte(bc);
  }

  // ---------------------------------------------------------------------
  // Registers
  // ---------------------------------------------------------------------

  /** lcmbsProtReadRegs: FC 3 and FC 4 on register map m. */
  method ReadRegs(sid: bv8, fnk: bv8, inp: Vect, out: Vect, m: Regs, cells: Cells) returns (crashed: bool, err: bv8)
    requires inp.Valid() && inp.typeSize == 1 && out.Valid() && out.typeSize == 1 && inp != out
    requires RegsOk(m, cells.Value())
    modifies inp`pos, out
    ensures inp.Valid() && out.Valid()
    ensures var r := ProtSpec.ReadRegs(sid, fnk, old(inp.Unread()), m, cells.Value());
      crashed == r.Crash? && (!crashed ==> err == r.err && out.Bytes() == old(out.Bytes()) + r.out)
  {
    var ok, w, start := PullField(inp);
    if !ok {
      return false, ERR_INVALID_FUNCTION;
    }
    var n;
    ok, w, n := PullField(inp);
    if !ok {
      return false, ERR_INVALID_FUNCTION;
    }
    crashed, err := ReadRegsFrom(sid, fnk, out, m, cells, start, n);
  }

  /** The body of lcmbsProtReadRegs after the request fields. */
  method ReadRegsFrom(sid: bv8, fnk: bv8, out: Vect, m: Regs, cells: Cells, start: nat, n: nat) returns (crashed: bool, err: bv8)
    requires out.Valid() && out.typeSize == 1 && RegsOk(m, cells.Value())
    modifies out
    ensures out.Valid()
    ensures var r := ReadRegsFields(sid, fnk, start, n, m, cells.Value());
      crashed == r.Crash? && (!crashed ==> err == r.err && out.Bytes() == old(out.Bytes()) + r.out)
  {
    if start < m.start || start + n > SizeT(m.start + |m.regs|) {
      return false, ERR_ILLEGAL_DATA_ADDRESS;
    }
    var bytes := n * 2;
    if bytes > 255 {
      return false, ERR_ILLEGAL_DATA_ADDRESS;
    }
    crashed, err := ReadRegsReply(sid, fnk, out, m, cells, Rebase(start, m.start), n);
  }

  /**
   * The response of a register read that passed its range checks: the header,
   * then the alignment check and the registers unless there are none.
   */
  method ReadRegsReply(sid: bv8, fnk: bv8, out: Vect, m: Regs, cells: Cells, base: nat, n: nat)
    returns (crashed: bool, err: bv8)
    requires out.Valid() && out.typeSize == 1 && RegsOk(m, cells.Value()) && 2 * n <= 255
    modifies out
    ensures out.Valid()
    ensures var r := ReadRegsChecked(sid, fnk, base, n, m, cells.Value());
      crashed == r.Crash? && (!crashed ==> err == r.err && out.Bytes() == old(out.Bytes()) + r.out)
  {
    ghost var st := cells.Value();
    ghost var before := out.Bytes();
    ghost var header := [sid, fnk, (2 * n) as bv8];
    PutHeader(out, sid, fnk, (2 * n) as bv8);
    assert cells.Value() == st;
    if n == 0 {
      return false, ERR_OK;
    }
    ghost var mid := out.Bytes();
    crashed, err := ReadRegsAligned(out, m, cells, base, n);
    assert cells.Value() == st;
    ReadRegsSplits(sid, fnk, base, n, m, st);
    if !crashed {
      ghost var tail := out.Bytes()[|mid|..];
      assert out.Bytes() == mid + tail;
      assert out.Bytes() == before + (header + tail);
    }
  }

  /** For count > 0, ReadRegsChecked is the header followed by the outcome of the alignment check. */
  lemma ReadRegsSplits(sid: bv8, fnk: bv8, base: nat, n: nat, m: Regs, st: Store)
    requires RegsOk(m, st) && 2 * n <= 255 && n > 0
    ensures var r := ReadRegsChecked(sid, fnk, base, n, m, st);
      var a := Aligned(m, st, base, n);
      r.Crash? == a.None? &&
      (!r.Crash? ==> (r.err == (if a.value then ERR_OK else ERR_ILLEGAL_DATA_ADDRESS) &&
        r.out == [sid, fnk, (2 * n) as bv8] + (if a.value then RegsOut(m, st, base, n) else [])))
  {
  }

  /** The alignment check of a register read of n > 0 registers, then the registers. */
  method ReadRegsAligned(out: Vect, m: Regs, cells: Cells, base: nat, n: nat) returns (crashed: bool, err: bv8)
    requires out.Valid() && out.typeSize == 1 && RegsOk(m, cells.Value()) && n > 0
    modifies out
    ensures out.Valid()
    ensures var a := Aligned(m, cells.Value(), base, n);
      crashed == a.None? &&
      (!crashed ==> (err == (if a.value then ERR_OK else ERR_ILLEGAL_DATA_ADDRESS) &&
        out.Bytes() == old(out.Bytes()) + (if a.value then RegsOut(m, cells.Value(), base, n) else [])))
  {
    var aligned := Aligned(m, cells.Value(), base, n);
    if aligned.None? {
      // one of the two lookups returned NULL and `reg->index` dereferences it
      return true, ERR_OK;
    }
    if !aligned.value {
      assert out.Bytes() == old(out.Bytes()) + [];
      return false, ERR_ILLEGAL_DATA_ADDRESS;
    }
    ghost var st := cells.Value();
    PutRegs(out, m, cells, base, n);
    assert cells.Value() == st;
    return false, ERR_OK;
  }

  /**
   * The register loop of lcmbsProtReadRegs: each pin is sampled at its first
   * register, and every register puts one word of the sampled union.
   */
  method PutRegs(out: Vect, m: Regs, cells: Cells, base: nat, n: nat)
    requires out.Valid() && out.typeSize == 1 && RegsOk(m, cells.Value())
    requires base + n <= |m.regs| && (n > 0 ==> m.regs[base].Index() == 0)
    modifies out
    ensures out.Valid() && out.Bytes() == old(out.Bytes()) + RegsOut(m, cells.Value(), base, n)
  {
    ghost var prefix := out.Bytes();
    var pinval := ZeroVal;
    var i := 0;
    while i < n
      invariant 0 <= i <= n && out.Valid() && out.typeSize == 1
      invariant Emitted(out.Bytes(), prefix, m, cells.Value(), base, i, pinval)
    {
      pinval := PutReg(out, m, cells, base, i, pinval, prefix);
      i := i + 1;
    }
  }

  /**
   * After i registers of the read loop: their words are out, and the union
   * holds the sample of the pin of the last of them.
   */
  ghost predicate Emitted(bytes: seq<bv8>, prefix: seq<bv8>, m: Regs, st: Store, base: nat, i: nat, pinval: ModbusVal) {
    RegsOk(m, st) && base + i <= |m.regs| &&
    bytes == prefix + RegsOut(m, st, base, i) &&
    (i > 0 && m.regs[base + i - 1].PinReg? ==>
      m.regs[base + i - 1].pin < |m.pins| && pinval == SampledValue(m.pins[m.regs[base + i - 1].pin], st))
  }

  /** One pass of the read loop body, for register base + i. */
  method PutReg(out: Vect, m: Regs, cells: Cells, base: nat, i: nat, pinval: ModbusVal, ghost prefix: seq<bv8>)
    returns (pinval': ModbusVal)
    requires out.Valid() && out.typeSize == 1 && base + i < |m.regs| && (i == 0 ==> m.regs[base].Index() == 0)
    requires Emitted(out.Bytes(), prefix, m, cells.Value(), base, i, pinval)
    modifies out
    ensures out.Valid() && Emitted(out.Bytes(), prefix, m, cells.Value(), base, i + 1, pinval')
  {
    if m.regs[base + i].PinReg? {
      pinval' := PutPinReg(out, m, cells, base, i, pinval, prefix);
    } else {
      pinval' := pinval;
      PutBitRegAt(out, m, cells, base, i, pinval, prefix);
    }
  }

  /** The read loop body for a register that holds a word of a pin. */
  method PutPinReg(out: Vect, m: Regs, cells: Cells, base: nat, i: nat, pinval: ModbusVal, ghost prefix: seq<bv8>)
    returns (pinval': ModbusVal)
    requires out.Valid() && out.typeSize == 1 && base + i < |m.regs| && m.regs[base + i].PinReg?
    requires i == 0 ==> m.regs[base].Index() == 0
    requires Emitted(out.Bytes(), prefix, m, cells.Value(), base, i, pinval)
    modifies out
    ensures out.Valid() && Emitted(out.Bytes(), prefix, m, cells.Value(), base, i + 1, pinval')
  {
    ghost var st := cells.Value();
    assert RegOk(m, base + i, st);
    var p, k := m.regs[base + i].pin, m.regs[base + i].index;
    assert PinOk(m.pins[p], st);
    pinval' := PutPinWord(out, cells, m.pins[p], k, pinval);
    assert cells.Value() == st;
  }

  /** The read loop body for a bit-packed register. */
  method PutBitRegAt(out: Vect, m: Regs, cells: Cells, base: nat, i: nat, pinval: ModbusVal, ghost prefix: seq<bv8>)
    requires out.Valid() && out.typeSize == 1 && base + i < |m.regs| && m.regs[base + i].BitReg?
    requires Emitted(out.Bytes(), prefix, m, cells.Value(), base, i, pinval)
    modifies out
    ensures out.Valid() && Emitted(out.Bytes(), prefix, m, cells.Value(), base, i + 1, pinval)
  {
    ghost var st := cells.Value();
    assert RegOk(m, base + i, st);
    PutBitReg(out, cells, m.regs[base + i].bitpins);
    assert cells.Value() == st;
  }

  /** Word k of a pin: the pin is sampled at its first word, and the word of the union is put. */
  method PutPinWord(out: Vect, cells: Cells, pin: RegPin, k: nat, pinval: ModbusVal) returns (pinval': ModbusVal)
    requires out.Valid() && out.typeSize == 1 && PinOk(pin, cells.Value()) && k < pin.regCount
    requires k > 0 ==> pinval == SampledValue(pin, cells.Value())
    modifies out
    ensures pinval' == SampledValue(pin, cells.Value())
    ensures out.Valid() && out.Bytes() == old(out.Bytes()) + LE16(RegWord(pin, pinval', k))
  {
    pinval' := pinval;
    if k == 0 {
      pinval' := SamplePin(cells, pin);
    }
    var ok := out.PutWord(MaybeBswap16(pin.ByteSwap(), pinval'.W(2 - pin.regCount + k)));
  }

  /** A bit-packed register: its bits gathered, then put with htons. */
  method PutBitReg(out: Vect, cells: Cells, bps: seq<RegBitPin>)
    requires out.Valid() && out.typeSize == 1 && BitPinsOk(bps, cells.Value())
    modifies out
    ensures out.Valid() && out.Bytes() == old(out.Bytes()) + LE16(Bswap16(BitRegValue(bps, cells.Value())))
  {
    var val := ReadRegBitpins(bps, cells);
    var ok := out.PutWord(Bswap16(val));
  }

  /**
   * The sampling of lcmbsProtReadRegs at a pin's first register: the cell
   * read through the member of its HAL type, one-register values limited,
   * htonl, and the word swap on request.
   */
  method SamplePin(cells: Cells, pin: RegPin) returns (v: ModbusVal)
    requires PinOk(pin, cells.Value())
    ensures v == SampledValue(pin, cells.Value())
  {
    var x: bv32;
    match pin.halType {
      case HalU32 => x := cells.u[pin.cell];
      case HalS32 => x := cells.s[pin.cell];
      case HalFloat => x := cells.f[pin.cell];
    }
    if pin.ptype == U16 {
      if x > U16_MAX {
        x := U16_MAX;
      }
    } else if pin.ptype == S16 {
      if SignedLess(x, S16_MIN) {
        x := S16_MIN;
      }
      if SignedLess(S16_MAX, x) {
        x := S16_MAX;
      }
    }
    v := OfU(x).Htonl();
    if pin.WordSwap() {
      v := v.SwapW();
    }
  }

  /** lcmbsProtPresetReg: FC 6 on the holding register map m. */
  method PresetReg(sid: bv8, fnk: bv8, inp: Vect, out: Vect, m: Regs, cells: Cells) returns (crashed: bool, err: bv8)
    requires inp.Valid() && inp.typeSize == 1 && out.Valid() && out.typeSize == 1 && inp != out
    requires RegsOk(m, cells.Value())
    modifies inp`pos, out, cells
    ensures inp.Valid() && out.Valid()
    ensures var r := ProtSpec.PresetReg(sid, fnk, old(inp.Unread()), m, old(cells.Value()));
      crashed == r.Crash? && (!crashed ==> err == r.err && out.Bytes() == old(out.Bytes()) + r.out && cells.Value() == r.st)
  {
    var ok, addr, a := PullField(inp);
    if !ok {
      return false, ERR_INVALID_FUNCTION;
    }
    // the value field is pulled and then overwritten
    var val, v;
    ok, val, v := PullField(inp);
    if !ok {
      return false, ERR_INVALID_FUNCTION;
    }
    crashed, err := PresetRegFrom(sid, fnk, out, m, cells, addr, a);
  }

  /** The body of lcmbsProtPresetReg after the request fields; a is the number addr. */
  method PresetRegFrom(sid: bv8, fnk: bv8, out: Vect, m: Regs, cells: Cells, addr: bv16, a: nat) returns (crashed: bool, err: bv8)
    requires out.Valid() && out.typeSize == 1 && RegsOk(m, cells.Value()) && a == addr as int
    modifies out, cells
    ensures out.Valid()
    ensures var r := PresetRegFields(sid, fnk, addr, m, old(cells.Value()));
      crashed == r.Crash? && (!crashed ==> err == r.err && out.Bytes() == old(out.Bytes()) + r.out && cells.Value() == r.st)
  {
    var val := Bswap16(addr);
    if a < m.start || a >= SizeT(m.start + |m.regs|) {
      return false, ERR_ILLEGAL_DATA_ADDRESS;
    }
    var idx := SizeT(a - m.start);
    if idx >= |m.regs| {
      // the lookup returned NULL and `reg->pin` dereferences it
      return true, ERR_OK;
    }
    var ok := PresetWrite(m, cells, idx, val);
    if !ok {
      return false, ERR_ILLEGAL_DATA_ADDRESS;
    }
    PutEcho(out, sid, fnk, addr, val);
    return false, ERR_OK;
  }

  /** The pin write of lcmbsProtPresetReg, for register idx; false when the pin has two registers. */
  method PresetWrite(m: Regs, cells: Cells, idx: nat, val: bv16) returns (ok: bool)
    requires RegsOk(m, cells.Value()) && idx < |m.regs|
    modifies cells
    ensures var r := WriteSingle(m, old(cells.Value()), idx, val);
      ok == r.Some? && cells.Value() == (if ok then r.value else old(cells.Value()))
  {
    assert RegOk(m, idx, cells.Value());
    match m.regs[idx]
    case PinReg(p, _) =>
      ok := PresetPin(cells, m.pins[p], val);
    case BitReg(bps) =>
      WriteRegBitpins(bps, val, cells);
      ok := true;
  }

  /** The normal-pin branch of lcmbsProtPresetReg. */
  method PresetPin(cells: Cells, pin: RegPin, val: bv16) returns (ok: bool)
    requires PinOk(pin, cells.Value())
    modifies cells
    ensures ok == (pin.ptype == U16 || pin.ptype == S16)
    ensures !ok ==> cells.Value() == old(cells.Value())
    ensures ok ==> cells.Value() == StorePin(old(cells.Value()), pin, Narrow(pin.ptype, MaybeBswap16(pin.ByteSwap(), val) as bv32))
  {
    if pin.ptype != U16 && pin.ptype != S16 {
      // only single word pins are allowed here
      return false;
    }
    // the byte swap, then the store through the u32 or s32 pointer with its cast
    StoreCell(cells, pin, Narrow(pin.ptype, MaybeBswap16(pin.ByteSwap(), val) as bv32));
    ok := true;
  }

  /** Writes v through the pin's HAL pointer. */
  method StoreCell(cells: Cells, pin: RegPin, v: bv32)
    requires PinOk(pin, cells.Value())
    modifies cells
    ensures cells.Value() == StorePin(old(cells.Value()), pin, v)
  {
    match pin.halType {
      case HalU32 => cells.u := cells.u[pin.cell := v];
      case HalS32 => cells.s := cells.s[pin.cell := v];
      case HalFloat => cells.f := cells.f[pin.cell := v];
    }
  }

  /** lcmbsProtPresetRegs: FC 16 on the holding register map m. */
  method PresetRegs(sid: bv8, fnk: bv8, inp: Vect, out: Vect, m: Regs, cells: Cells) returns (crashed: bool, err: bv8)
    requires inp.Valid() && inp.typeSize == 1 && out.Valid() && out.typeSize == 1 && inp != out
    requires RegsOk(m, cells.Value())
    modifies inp`pos, out, cells
    ensures inp.Valid() && out.Valid()
    ensures var r := ProtSpec.PresetRegs(sid, fnk, old(inp.Unread()), m, old(cells.Value()));
      crashed == r.Crash? && (!crashed ==> err == r.err && out.Bytes() == old(out.Bytes()) + r.out && cells.Value() == r.st)
  {
    var ok, sw, start := PullField(inp);
    if !ok {
      return false, ERR_INVALID_FUNCTION;
    }
    var cw, n;
    ok, cw, n := PullField(inp);
    if !ok {
      return false, ERR_INVALID_FUNCTION;
    }
    ghost var rest := inp.Unread();
    var bc;
    ok, bc := inp.PullByte();
    if !ok {
      return false, ERR_INVALID_FUNCTION;
    }
    assert rest[0] == bc && inp.Unread() == rest[1..];
    crashed, err := PresetRegsFrom(sid, fnk, inp, out, m, cells, sw, start, cw, n, bc as int);
  }

  /** The body of lcmbsProtPresetRegs after the request fields; start and n are the numbers sw and cw. */
  method PresetRegsFrom(sid: bv8, fnk: bv8, inp: Vect, out: Vect, m: Regs, cells: Cells,
                        sw: bv16, start: nat, cw: bv16, n: nat, bc: nat)
    returns (crashed: bool, err: bv8)
    requires inp.Valid() && inp.typeSize == 1 && out.Valid() && out.typeSize == 1 && inp != out
    requires RegsOk(m, cells.Value()) && start == sw as int && n == cw as int
    modifies inp`pos, out, cells
    ensures inp.Valid() && out.Valid()
    ensures crashed == PresetRegsFields(sid, fnk, sw, cw, bc, old(inp.Unread()), m, old(cells.Value())).Crash?
    ensures !crashed ==> err == PresetRegsFields(sid, fnk, sw, cw, bc, old(inp.Unread()), m, old(cells.Value())).err
    ensures !crashed ==> out.Bytes() == old(out.Bytes()) + PresetRegsFields(sid, fnk, sw, cw, bc, old(inp.Unread()), m, old(cells.Value())).out
    ensures !crashed ==> cells.Value() == PresetRegsFields(sid, fnk, sw, cw, bc, old(inp.Unread()), m, old(cells.Value())).st
  {
    if start < m.start || start + n > SizeT(m.start + |m.regs|) {
      return false, ERR_ILLEGAL_DATA_ADDRESS;
    }
    crashed, err := PresetRegsCounted(sid, fnk, inp, out, m, cells, sw, start, cw, n, bc);
  }

  /** PresetRegsFrom once the registers are inside the map: the byte count checks, then the reply. */
  method PresetRegsCounted(sid: bv8, fnk: bv8, inp: Vect, out: Vect, m: Regs, cells: Cells,
                           sw: bv16, start: nat, cw: bv16, n: nat, bc: nat)
    returns (crashed: bool, err: bv8)
    requires inp.Valid() && inp.typeSize == 1 && out.Valid() && out.typeSize == 1 && inp != out
    requires RegsOk(m, cells.Value()) && start == sw as int && n == cw as int && !RangeFails(start, n, m.start, |m.regs|)
    modifies inp`pos, out, cells
    ensures inp.Valid() && out.Valid()
    ensures var r := PresetRegsFields(sid, fnk, sw, cw, bc, old(inp.Unread()), m, old(cells.Value()));
      crashed == r.Crash? && (!crashed ==> err == r.err && out.Bytes() == old(out.Bytes()) + r.out && cells.Value() == r.st)
  {
    ghost var payload := inp.Unread();
    assert |payload| == inp.count - inp.pos;
    ghost var r := PresetRegsFields(sid, fnk, sw, cw, bc, payload, m, cells.Value());
    var bytes := n * 2;
    if bytes != bc {
      assert r == Reply(ERR_ILLEGAL_DATA_ADDRESS, [], cells.Value());
      return false, ERR_ILLEGAL_DATA_ADDRESS;
    }
    if bytes != inp.count - inp.pos {
      assert r == Reply(ERR_ILLEGAL_DATA_VALUE, [], cells.Value());
      return false, ERR_ILLEGAL_DATA_VALUE;
    }
    crashed, err := PresetRegsPassed(sid, fnk, inp, out, m, cells, sw, start, cw, n, bc);
  }

  /** A FC 16 request whose fields pass the checks is answered as PresetRegsChecked says. */
  method PresetRegsPassed(sid: bv8, fnk: bv8, inp: Vect, out: Vect, m: Regs, cells: Cells,
                          sw: bv16, start: nat, cw: bv16, n: nat, bc: nat)
    returns (crashed: bool, err: bv8)
    requires inp.Valid() && inp.typeSize == 1 && out.Valid() && out.typeSize == 1 && inp != out
    requires RegsOk(m, cells.Value()) && start == sw as int && n == cw as int && !RangeFails(start, n, m.start, |m.regs|)
    requires 2 * n == bc == |inp.Unread()|
    modifies inp`pos, out, cells
    ensures inp.Valid() && out.Valid()
    ensures var r := PresetRegsFields(sid, fnk, sw, cw, bc, old(inp.Unread()), m, old(cells.Value()));
      crashed == r.Crash? && (!crashed ==> err == r.err && out.Bytes() == old(out.Bytes()) + r.out && cells.Value() == r.st)
  {
    PresetRegsPasses(sid, fnk, sw, cw, bc, inp.Unread(), m, cells.Value());
    crashed, err := PresetRegsReply(sid, fnk, inp, out, m, cells, sw, cw, Rebase(start, m.start), n);
  }

  /** The checks of FC 16 pass: the reply is that of the checked request. */
  lemma PresetRegsPasses(sid: bv8, fnk: bv8, sw: bv16, cw: bv16, bc: nat, payload: seq<bv8>, m: Regs, st: Store)
    requires RegsOk(m, st) && !RangeFails(sw as int, cw as int, m.start, |m.regs|) && 2 * (cw as int) == bc == |payload|
    ensures PresetRegsFields(sid, fnk, sw, cw, bc, payload, m, st) == PresetRegsChecked(sid, fnk, sw, cw, Rebase(sw as int, m.start), payload, m, st)
  {
  }

  /** The response of a register write that passed its checks: the echo, then the alignment check and the writes. */
  method PresetRegsReply(sid: bv8, fnk: bv8, inp: Vect, out: Vect, m: Regs, cells: Cells,
                         sw: bv16, cw: bv16, base: nat, n: nat)
    returns (crashed: bool, err: bv8)
    requires inp.Valid() && inp.typeSize == 1 && out.Valid() && out.typeSize == 1 && inp != out
    requires RegsOk(m, cells.Value()) && n == cw as int && |inp.Unread()| == 2 * n
    modifies inp`pos, out, cells
    ensures inp.Valid() && out.Valid()
    ensures crashed == PresetRegsChecked(sid, fnk, sw, cw, base, old(inp.Unread()), m, old(cells.Value())).Crash?
    ensures !crashed ==> err == PresetRegsChecked(sid, fnk, sw, cw, base, old(inp.Unread()), m, old(cells.Value())).err
    ensures !crashed ==> out.Bytes() == old(out.Bytes()) + PresetRegsChecked(sid, fnk, sw, cw, base, old(inp.Unread()), m, old(cells.Value())).out
    ensures !crashed ==> cells.Value() == PresetRegsChecked(sid, fnk, sw, cw, base, old(inp.Unread()), m, old(cells.Value())).st
  {
    ghost var st := cells.Value();
    PutEcho(out, sid, fnk, sw, cw);
    assert cells.Value() == st;
    if n == 0 {
      return false, ERR_OK;
    }
    var aligned := Aligned(m, cells.Value(), base, n);
    if aligned.None? {
      // one of the two lookups returned NULL and `reg->index` dereferences it
      return true, ERR_OK;
    }
    if !aligned.value {
      return false, ERR_ILLEGAL_DATA_ADDRESS;
    }
    StoreRegs(inp, m, cells, base, n);
    return false, ERR_OK;
  }

  /**
   * The register loop of lcmbsProtPresetRegs: each register pulls one host
   * word; a pin collects its words in the union and is written at its last.
   */
  method StoreRegs(inp: Vect, m: Regs, cells: Cells, base: nat, n: nat)
    requires inp.Valid() && inp.typeSize == 1 && RegsOk(m, cells.Value())
    requires base + n <= |m.regs| && |inp.Unread()| == 2 * n
    modifies inp`pos, cells
    ensures inp.Valid()
    ensures cells.Value() == PresetFrom(m, base, Words(old(inp.Unread()), n), 0, old(cells.Value()), ZeroVal)
  {
    ghost var st0 := cells.Value();
    ghost var payload := inp.Unread();
    ghost var ws := Words(payload, n);
    var pinval := ZeroVal;
    var i := 0;
    while i < n
      invariant 0 <= i <= n && Fed16(inp, payload, i)
      invariant Stored(cells.Value(), st0, m, base, ws, i, pinval)
    {
      pinval := StoreStep(inp, m, cells, base, i, n, pinval, payload, ws, st0);
      i := i + 1;
    }
  }

  /** The request vector with i of the payload's host words pulled. */
  ghost predicate Fed16(inp: Vect, payload: seq<bv8>, i: nat)
    reads inp
  {
    inp.Valid() && inp.typeSize == 1 && 2 * i <= |payload| && inp.Unread() == payload[2 * i..]
  }

  /** One pass of the FC 16 loop, in terms of the whole payload and the loop's start state. */
  method StoreStep(inp: Vect, m: Regs, cells: Cells, base: nat, i: nat, n: nat, pinval: ModbusVal,
                   ghost payload: seq<bv8>, ghost ws: seq<bv16>, ghost st0: Store)
    returns (pinval': ModbusVal)
    requires i < n && |payload| == 2 * n && ws == Words(payload, n)
    requires Fed16(inp, payload, i) && Stored(cells.Value(), st0, m, base, ws, i, pinval)
    modifies inp`pos, cells
    ensures Fed16(inp, payload, i + 1) && Stored(cells.Value(), st0, m, base, ws, i + 1, pinval')
  {
    ghost var st := cells.Value();
    assert inp.Unread()[0] == payload[2 * i] && inp.Unread()[1] == payload[2 * i + 1];
    PresetFromStep(m, base, ws, i, st, pinval);
    pinval' := StoreReg(inp, m, cells, base + i, pinval, ws[i]);
    assert inp.Unread() == payload[2 * (i + 1)..];
  }

  /** After i registers of the FC 16 loop: continuing from here gives what the whole loop gives from st0. */
  ghost predicate Stored(st: Store, st0: Store, m: Regs, base: nat, ws: seq<bv16>, i: nat, pinval: ModbusVal) {
    RegsOk(m, st) && RegsOk(m, st0) && base + |ws| <= |m.regs| && i <= |ws| &&
    PresetFrom(m, base, ws, 0, st0, ZeroVal) == PresetFrom(m, base, ws, i, st, pinval)
  }

  /** One pass of the FC 16 loop body: register j pulls its word w. */
  method StoreReg(inp: Vect, m: Regs, cells: Cells, j: nat, pinval: ModbusVal, ghost w: bv16)
    returns (pinval': ModbusVal)
    requires inp.Valid() && inp.typeSize == 1 && RegsOk(m, cells.Value()) && j < |m.regs|
    requires |inp.Unread()| >= 2 && LoadLE16(inp.Unread()[0], inp.Unread()[1]) == w
    modifies inp`pos, cells
    ensures inp.Valid() && inp.Unread() == old(inp.Unread())[2..]
    ensures (cells.Value(), pinval') == PresetOne(m, j, w, old(cells.Value()), pinval)
  {
    assert RegOk(m, j, cells.Value());
    var ok, val := inp.PullWord();
    assert ok;
    pinval' := pinval;
    match m.regs[j]
    case PinReg(p, k) =>
      var pin := m.pins[p];
      if k == 0 {
        pinval' := ZeroVal;
      }
      if pin.ByteSwap() {
        val := Bswap16(val);
      }
      pinval' := pinval'.SetW(2 - pin.regCount + k, val);
      if k == pin.regCount - 1 {
        pinval' := FinishPin(cells, pin, pinval');
      }
    case BitReg(bps) =>
      WriteRegBitpins(bps, val, cells);
  }

  /**
   * The last register of a pin in lcmbsProtPresetRegs: reorder the words on
   * request, ntohl, narrow a one-register value, and store the `u`, `s` or
   * `f` member in the cell of the pin's HAL type.
   */
  method FinishPin(cells: Cells, pin: RegPin, pinval: ModbusVal) returns (pinval': ModbusVal)
    requires PinOk(pin, cells.Value())
    modifies cells
    ensures pinval' == Finished(pin, pinval)
    ensures cells.Value() == StorePin(old(cells.Value()), pin, PresetValue(pin, pinval))
  {
    pinval' := pinval;
    if pin.WordSwap() {
      pinval' := pinval'.SwapW();
    }
    pinval' := pinval'.Htonl();
    if pin.ptype == U16 {
      pinval' := OfU(ZeroExtend16(pinval'.U()));
    } else if pin.ptype == S16 {
      pinval' := OfU(SignExtend16(pinval'.U()));
    }
    FinishedValue(pin, pinval);
    match pin.halType
    case HalU32 => cells.u := cells.u[pin.cell := pinval'.U()];
    case HalS32 => cells.s := cells.s[pin.cell := pinval'.U()];
    case HalFloat => cells.f := cells.f[pin.cell := pinval'.U()];
  }

  // ---------------------------------------------------------------------
  // Dispatch
  // ---------------------------------------------------------------------

  /**
   * lcmbsProtProc: pull the slave id and function code (returning 0 with the
   * response vector untouched when the request is shorter), clear the
   * response, run the handler, and on an exception replace the response by
   * slave id, function code with bit 7 set, and the exception code. len is
   * the value returned: the response's byte count.
   */
  method Proc(sl: Slave, inp: Vect, out: Vect, cells: Cells) returns (crashed: bool, len: nat)
    requires inp.Valid() && inp.typeSize == 1 && out.Valid() && out.typeSize == 1 && inp != out
    requires SlaveOk(sl, cells.Value())
    modifies inp`pos, out, cells
    ensures inp.Valid() && out.Valid()
    ensures crashed == ProtSpec.Proc(sl, old(inp.Unread()), old(cells.Value())).Crashed?
    ensures !crashed ==> len == |ProtSpec.Proc(sl, old(inp.Unread()), old(cells.Value())).pdu|
    ensures !crashed ==> cells.Value() == ProtSpec.Proc(sl, old(inp.Unread()), old(cells.Value())).st
    ensures !crashed && len > 0 ==> out.Bytes() == ProtSpec.Proc(sl, old(inp.Unread()), old(cells.Value())).pdu
    ensures |old(inp.Unread())| < 2 ==> !crashed && len == 0 && out.Bytes() == old(out.Bytes())
  {
    ghost var req := inp.Unread();
    var ok, sid := inp.PullByte();
    if !ok {
      return false, 0;
    }
    var fnk;
    ok, fnk := inp.PullByte();
    if !ok {
      return false, 0;
    }
    assert inp.Unread() == req[2..];
    out.Clear();
    var err;
    crashed, err := Dispatch(sl, sid, fnk, inp, out, cells);
    if crashed {
      return true, 0;
    }
    if err != ERR_OK {
      out.Clear();
      PutHeader(out, sid, fnk | 0x80, err);
    }
    len := out.count;
  }

  /** The switch of lcmbsProtProc: the handler and the map of each function code. */
  method Dispatch(sl: Slave, sid: bv8, fnk: bv8, inp: Vect, out: Vect, cells: Cells) returns (crashed: bool, err: bv8)
    requires inp.Valid() && inp.typeSize == 1 && out.Valid() && out.typeSize == 1 && inp != out
    requires SlaveOk(sl, cells.Value())
    modifies inp`pos, out, cells
    ensures inp.Valid() && out.Valid()
    ensures crashed == Handle(sl, sid, fnk, old(inp.Unread()), old(cells.Value())).Crash?
    ensures !crashed ==> err == Handle(sl, sid, fnk, old(inp.Unread()), old(cells.Value())).err
    ensures !crashed ==> out.Bytes() == old(out.Bytes()) + Handle(sl, sid, fnk, old(inp.Unread()), old(cells.Value())).out
    ensures !crashed ==> cells.Value() == Handle(sl, sid, fnk, old(inp.Unread()), old(cells.Value())).st
  {
    if fnk == FNK_READ_COIL_STATUS || fnk == FNK_READ_INPUT_STATUS || fnk == FNK_FORCE_SINGLE_COIL || fnk == FNK_FORCE_MULTI_COIL {
      crashed, err := DispatchBits(sl, sid, fnk, inp, out, cells);
    } else if fnk == FNK_READ_HOLDING_REG || fnk == FNK_READ_INPUT_REG || fnk == FNK_PRESET_SINGLE_REG || fnk == FNK_PRESET_MULTI_REG {
      crashed, err := DispatchRegs(sl, sid, fnk, inp, out, cells);
    } else {
      crashed, err := false, ERR_INVALID_FUNCTION;
    }
  }

  /** The coil and input cases of the switch. */
  method DispatchBits(sl: Slave, sid: bv8, fnk: bv8, inp: Vect, out: Vect, cells: Cells) returns (crashed: bool, err: bv8)
    requires inp.Valid() && inp.typeSize == 1 && out.Valid() && out.typeSize == 1 && inp != out
    requires SlaveOk(sl, cells.Value())
    requires fnk == FNK_READ_COIL_STATUS || fnk == FNK_READ_INPUT_STATUS || fnk == FNK_FORCE_SINGLE_COIL || fnk == FNK_FORCE_MULTI_COIL
    modifies inp`pos, out, cells
    ensures inp.Valid() && out.Valid()
    ensures crashed == Handle(sl, sid, fnk, old(inp.Unread()), old(cells.Value())).Crash?
    ensures !crashed ==> err == Handle(sl, sid, fnk, old(inp.Unread()), old(cells.Value())).err
    ensures !crashed ==> out.Bytes() == old(out.Bytes()) + Handle(sl, sid, fnk, old(inp.Unread()), old(cells.Value())).out
    ensures !crashed ==> cells.Value() == Handle(sl, sid, fnk, old(inp.Unread()), old(cells.Value())).st
  {
    ghost var req := inp.Unread();
    if fnk == FNK_READ_COIL_STATUS {
      ProtProps.ReadBitsKeepsStore(sid, fnk, req, sl.coils, cells.Value());
      crashed, err := ReadBits(sid, fnk, inp, out, sl.coils, cells);
    } else if fnk == FNK_READ_INPUT_STATUS {
      ProtProps.ReadBitsKeepsStore(sid, fnk, req, sl.inputs, cells.Value());
      crashed, err := ReadBits(sid, fnk, inp, out, sl.inputs, cells);
    } else if fnk == FNK_FORCE_SINGLE_COIL {
      crashed, err := ForceBit(sid, fnk, inp, out, sl.coils, cells);
    } else {
      crashed, err := ForceBits(sid, fnk, inp, out, sl.coils, cells);
    }
  }

  /** The register cases of the switch. */
  method DispatchRegs(sl: Slave, sid: bv8, fnk: bv8, inp: Vect, out: Vect, cells: Cells) returns (crashed: bool, err: bv8)
    requires inp.Valid() && inp.typeSize == 1 && out.Valid() && out.typeSize == 1 && inp != out
    requires SlaveOk(sl, cells.Value())
    requires fnk == FNK_READ_HOLDING_REG || fnk == FNK_READ_INPUT_REG || fnk == FNK_PRESET_SINGLE_REG || fnk == FNK_PRESET_MULTI_REG
    modifies inp`pos, out, cells
    ensures inp.Valid() && out.Valid()
    ensures crashed == Handle(sl, sid, fnk, old(inp.Unread()), old(cells.Value())).Crash?
    ensures !crashed ==> err == Handle(sl, sid, fnk, old(inp.Unread()), old(cells.Value())).err
    ensures !crashed ==> out.Bytes() == old(out.Bytes()) + Handle(sl, sid, fnk, old(inp.Unread()), old(cells.Value())).out
    ensures !crashed ==> cells.Value() == Handle(sl, sid, fnk, old(inp.Unread()), old(cells.Value())).st
  {
    ghost var req := inp.Unread();
    if fnk == FNK_READ_HOLDING_REG {
      ProtProps.ReadRegsKeepsStore(sid, fnk, req, sl.holdingRegs, cells.Value());
      crashed, err := ReadRegs(sid, fnk, inp, out, sl.holdingRegs, cells);
    } else if fnk == FNK_READ_INPUT_REG {
      ProtProps.ReadRegsKeepsStore(sid, fnk, req, sl.inputRegs, cells.Value());
      crashed, err := ReadRegs(sid, fnk, inp, out, sl.inputRegs, cells);
    } else if fnk == FNK_PRESET_SINGLE_REG {
      crashed, err := PresetReg(sid, fnk, inp, out, sl.holdingRegs, cells);
    } else {
      crashed, err := PresetRegs(sid, fnk, inp, out, sl.holdingRegs, cells);
    }
  }
}
