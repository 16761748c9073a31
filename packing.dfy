/**
 * The value packing of src/mbslave_prot.c: how a pin cell becomes register
 * words (through the MODBUS_VAL_T union) and back, how bit pins fill a
 * bit-mapped register, and how coils are packed LSB first into bytes.
 */
module Packing {
  import opened Bytes
  import opened Topology

  function Min(a: int, b: int): int { if a < b then a else b }

  // ---------------------------------------------------------------------
  // The MODBUS_VAL_T union
  // ---------------------------------------------------------------------

  /** MODBUS_VAL_T through its `b[4]` member: the four bytes in memory. */
  datatype ModbusVal = ModbusVal(b0: bv8, b1: bv8, b2: bv8, b3: bv8)
  {
    /** The `u` member. */
    function U(): bv32 { LoadLE32(b0, b1, b2, b3) }

    /** The `w[k]` member. */
    function W(k: nat): bv16
      requires k < 2
    {
      if k == 0 then LoadLE16(b0, b1) else LoadLE16(b2, b3)
    }

    /** The union after `w[k] = w`. */
    function SetW(k: nat, w: bv16): ModbusVal
      requires k < 2
    {
      var s := LE16(w);
      if k == 0 then ModbusVal(s[0], s[1], b2, b3) else ModbusVal(b0, b1, s[0], s[1])
    }

    /** The union after `w[0]` and `w[1]` are exchanged. */
    function SwapW(): ModbusVal { ModbusVal(b2, b3, b0, b1) }

    /** The union after `u = htonl(u)` (or `ntohl`, the same on this host). */
    function Htonl(): ModbusVal { ModbusVal(b3, b2, b1, b0) }
  }

  /** The union after `u = x`. */
  function OfU(x: bv32): ModbusVal {
    var s := LE32(x);
    ModbusVal(s[0], s[1], s[2], s[3])
  }

  /** The union after `u = 0`. */
  const ZeroVal := ModbusVal(0, 0, 0, 0)

  /** Reversing the bytes of the union is htonl of its `u` member. */
  lemma HtonlIsBswap32(v: ModbusVal)
    ensures v.Htonl().U() == Bswap32(v.U())
  {
    HtonlReversesBytes(v.b0, v.b1, v.b2, v.b3);
  }

  /** `w[k] = w` sets word k and leaves the other word alone. */
  lemma SetWordReads(v: ModbusVal, k: nat, w: bv16)
    requires k < 2
    ensures v.SetW(k, w).W(k) == w && v.SetW(k, w).W(1 - k) == v.W(1 - k)
  {
    LoadStore16(w);
  }

  // ---------------------------------------------------------------------
  // Register pins: cell -> words (read path) and words -> cell (FC16)
  // ---------------------------------------------------------------------

  /** The cap on a u16 pin: values above USHRT_MAX become USHRT_MAX. */
  function CapU16(v: bv32): bv32 {
    if v > U16_MAX then U16_MAX else v
  }

  /** The clamp on a s16 pin: signed values outside SHRT_MIN..SHRT_MAX go to the nearer bound. */
  function ClampS16(v: bv32): bv32 {
    if SignedLess(v, S16_MIN) then S16_MIN
    else if SignedLess(S16_MAX, v) then S16_MAX
    else v
  }

  /** The cell of pin p as the member of its HAL type reads it. */
  function CellBits(p: RegPin, st: Store): bv32
    requires PinOk(p, st)
  {
    match p.halType
    case HalU32 => st.u[p.cell]
    case HalS32 => st.s[p.cell]
    case HalFloat => st.f[p.cell]
    case HalUnspecified => 0
  }

  /** The `u` member after the cell has been read and single-word values limited. */
  function LimitedBits(p: RegPin, st: Store): bv32
    requires PinOk(p, st)
  {
    var v := CellBits(p, st);
    match p.ptype
    case U16 => CapU16(v)
    case S16 => ClampS16(v)
    case _ => v
  }

  /** The union holding host value x after htonl and the optional word swap. */
  function Encode(p: RegPin, x: bv32): ModbusVal {
    var v := OfU(x).Htonl();
    if p.WordSwap() then v.SwapW() else v
  }

  /** The union once a pin has been sampled (its first register was reached). */
  function SampledValue(p: RegPin, st: Store): ModbusVal
    requires PinOk(p, st)
  {
    Encode(p, LimitedBits(p, st))
  }

  /** bswap_16 applied when b holds. */
  function MaybeBswap16(b: bool, w: bv16): bv16 {
    if b then Bswap16(w) else w
  }

  /** The host word handed to PutWord for word k of pin p: `w[pad + k]`, optionally byte swapped. */
  function RegWord(p: RegPin, pinval: ModbusVal, k: nat): bv16
    requires 1 <= p.regCount <= 2 && k < p.regCount
  {
    MaybeBswap16(p.ByteSwap(), pinval.W(2 - p.regCount + k))
  }

  /** Two wire bytes, exchanged when b holds. */
  function MaybeSwap(b: bool, s: seq<bv8>): (r: seq<bv8>)
    requires |s| == 2
    ensures |r| == 2
  {
    if b then [s[1], s[0]] else s
  }

  /** Half h (0 = high, 1 = low) of a 32-bit value written big-endian. */
  function BEHalf(x: bv32, h: nat): (r: seq<bv8>)
    requires h < 2
    ensures |r| == 2
  {
    BE32(x)[2 * h .. 2 * h + 2]
  }

  /**
   * The wire bytes of word k of a pin: half `pad + k` of the limited value
   * written big-endian, the other half when the pin is word swapped, with the
   * two bytes exchanged when it is byte swapped. For a one-register pin
   * (`pad` = 1) this is the low half, and with wordswap the high half.
   */
  lemma ReadEncoding(p: RegPin, st: Store, k: nat)
    requires PinOk(p, st) && k < p.regCount
    ensures var j := 2 - p.regCount + k;
      LE16(RegWord(p, SampledValue(p, st), k))
        == MaybeSwap(p.ByteSwap(), BEHalf(LimitedBits(p, st), if p.WordSwap() then 1 - j else j))
  {
    var j := 2 - p.regCount + k;
    var x := LimitedBits(p, st);
    assert RegWord(p, SampledValue(p, st), k) == MaybeBswap16(p.ByteSwap(), Encode(p, x).W(j));
    HalfOnWire(x, j, p.WordSwap(), p.ByteSwap());
  }

  /** The memory bytes of word j of an encoded union, as bytes of the big-endian value. */
  lemma HalfOnWire(x: bv32, j: nat, wordSwap: bool, byteSwap: bool)
    requires j < 2
    ensures var v := if wordSwap then OfU(x).Htonl().SwapW() else OfU(x).Htonl();
      LE16(MaybeBswap16(byteSwap, v.W(j))) == MaybeSwap(byteSwap, BEHalf(x, if wordSwap then 1 - j else j))
  {
    var h := if wordSwap then 1 - j else j;
    var e := OfU(x).Htonl();
    var v := if wordSwap then e.SwapW() else e;
    assert v.W(j) == e.W(h);
    var a, b := BEHalf(x, h)[0], BEHalf(x, h)[1];
    HtonlWord(x, h);
    StoreLoad16(a, b);
    StoreSwappedLoad16(a, b);
  }

  /** Word h of the union after `u = htonl(x)` loads half h of x written big-endian. */
  lemma HtonlWord(x: bv32, h: nat)
    requires h < 2
    ensures OfU(x).Htonl().W(h) == LoadLE16(BEHalf(x, h)[0], BEHalf(x, h)[1])
  {
    BigEndianIsReversed(x);
    var s, e, be := LE32(x), OfU(x).Htonl(), BE32(x);
    assert e == ModbusVal(s[3], s[2], s[1], s[0]);
    assert be == [s[3], s[2], s[1], s[0]];
    if h == 0 {
      assert BEHalf(x, 0) == [be[0], be[1]] == [s[3], s[2]];
    } else {
      assert BEHalf(x, 1) == [be[2], be[3]] == [s[1], s[0]];
    }
  }

  /** Without flags a two-register pin goes out as its 32-bit value, big-endian. */
  lemma TwoRegisterPinIsBigEndian(p: RegPin, st: Store)
    requires PinOk(p, st) && p.regCount == 2 && !p.ByteSwap() && !p.WordSwap()
    ensures LE16(RegWord(p, SampledValue(p, st), 0)) + LE16(RegWord(p, SampledValue(p, st), 1))
         == BE32(LimitedBits(p, st))
  {
    ReadEncoding(p, st, 0);
    ReadEncoding(p, st, 1);
    BEHalves(LimitedBits(p, st));
  }

  lemma BEHalves(x: bv32)
    ensures BEHalf(x, 0) + BEHalf(x, 1) == BE32(x)
  {
  }

  /**
   * A u16 pin is sent as its cell capped at 65535, and a s16 pin as its
   * cell clamped to -32768..32767 (signed); a value already in range is
   * sent unchanged, one out of range as the nearer bound.
   */
  lemma SingleWordLimits(p: RegPin, st: Store)
    requires PinOk(p, st) && p.regCount == 1
    ensures var v, r := CellBits(p, st), LimitedBits(p, st);
      if p.ptype == U16 then
        r <= U16_MAX && (v <= U16_MAX ==> r == v) && (v > U16_MAX ==> r == U16_MAX)
      else
        !SignedLess(r, S16_MIN) && !SignedLess(S16_MAX, r) &&
        (!SignedLess(v, S16_MIN) && !SignedLess(S16_MAX, v) ==> r == v) &&
        (SignedLess(v, S16_MIN) ==> r == S16_MIN) && (SignedLess(S16_MAX, v) ==> r == S16_MAX)
  {
  }

  /**
   * The wordswap defect: a one-register u16 pin with wordswap set always
   * reads as 0, because the word picked is the high half of a value that
   * is at most 65535.
   */
  lemma WordSwapU16ReadsZero(p: RegPin, st: Store)
    requires PinOk(p, st) && p.ptype == U16 && p.WordSwap()
    ensures RegWord(p, SampledValue(p, st), 0) == 0
  {
    var x := LimitedBits(p, st);
    assert x == CapU16(st.u[p.cell]);
    SmallHasZeroHighBytes(x);
    assert SampledValue(p, st).W(1) == LoadLE16(0, 0);
  }

  /** The union after FC16 has stored host word `val` as word k of pin p; the first word resets it. */
  function PresetStep(p: RegPin, pinval: ModbusVal, k: nat, val: bv16): ModbusVal
    requires 1 <= p.regCount <= 2 && k < p.regCount
  {
    (if k == 0 then ZeroVal else pinval).SetW(2 - p.regCount + k, MaybeBswap16(p.ByteSwap(), val))
  }

  /** The 16-bit narrowing of a one-register value: `(uint16_t)` or `(int16_t)`. */
  function Narrow(t: PinType, v: bv32): bv32 {
    match t
    case U16 => ZeroExtend16(v)
    case S16 => SignExtend16(v)
    case _ => v
  }

  /** The value FC16 writes at a pin's last word: word swap, ntohl, then the narrowing. */
  function PresetValue(p: RegPin, pinval: ModbusVal): bv32 {
    Narrow(p.ptype, (if p.WordSwap() then pinval.SwapW() else pinval).Htonl().U())
  }

  /**
   * The union after FC16 has handled the last word of pin p: words reordered,
   * ntohl, and for a one-register pin the 16-bit narrowing written back.
   */
  function Finished(p: RegPin, pinval: ModbusVal): ModbusVal {
    var v := (if p.WordSwap() then pinval.SwapW() else pinval).Htonl();
    if p.ptype == U16 || p.ptype == S16 then OfU(Narrow(p.ptype, v.U())) else v
  }

  /** The `u` member of the finished union is the value FC16 writes to the pin. */
  lemma FinishedValue(p: RegPin, pinval: ModbusVal)
    ensures Finished(p, pinval).U() == PresetValue(p, pinval)
  {
    var v := (if p.WordSwap() then pinval.SwapW() else pinval).Htonl();
    LoadStore32(Narrow(p.ptype, v.U()));
  }

  /** The value FC16 writes to pin p from the host words its registers received. */
  function Assemble(p: RegPin, ws: seq<bv16>): bv32
    requires 1 <= p.regCount <= 2 && |ws| == p.regCount
  {
    var v0 := PresetStep(p, ZeroVal, 0, ws[0]);
    PresetValue(p, if p.regCount == 1 then v0 else PresetStep(p, v0, 1, ws[1]))
  }

  /** The store after value v is written to pin p's cell through the member of its HAL type. */
  function StorePin(st: Store, p: RegPin, v: bv32): (r: Store)
    requires PinOk(p, st)
    ensures SameShape(st, r)
  {
    match p.halType
    case HalU32 => st.(u := st.u[p.cell := v])
    case HalS32 => st.(s := st.s[p.cell := v])
    case HalFloat => st.(f := st.f[p.cell := v])
    case HalUnspecified => st
  }

  /** The words pin p sends when read from st. */
  function PinWords(p: RegPin, st: Store): (ws: seq<bv16>)
    requires PinOk(p, st)
    ensures |ws| == p.regCount
  {
    seq(p.regCount, k requires 0 <= k < p.regCount => RegWord(p, SampledValue(p, st), k))
  }

  /** The words FC16 assembles into a value are the words that value encodes to. */
  lemma EncodeAssemble(p: RegPin, ws: seq<bv16>, k: nat)
    requires 1 <= p.regCount <= 2 && |ws| == p.regCount && k < p.regCount
    requires p.regCount == 2 || !p.WordSwap()
    requires p.regCount == 1 <==> p.ptype in {U16, S16}
    ensures RegWord(p, Encode(p, Assemble(p, ws)), k) == ws[k]
  {
    if p.regCount == 2 {
      EncodeAssembleTwo(p, ws, k);
    } else {
      EncodeAssembleOne(p, ws);
    }
  }

  lemma EncodeAssembleTwo(p: RegPin, ws: seq<bv16>, k: nat)
    requires p.regCount == 2 && |ws| == 2 && k < 2 && p.ptype !in {U16, S16}
    ensures RegWord(p, Encode(p, Assemble(p, ws)), k) == ws[k]
  {
    var bs := p.ByteSwap();
    var b0 := MaybeBswap16(bs, ws[0]);
    var b1 := MaybeBswap16(bs, ws[1]);
    var v0 := ZeroVal.SetW(0, b0);
    var u := v0.SetW(1, b1);
    assert PresetStep(p, ZeroVal, 0, ws[0]) == v0;
    assert PresetStep(p, v0, 1, ws[1]) == u;
    var y := if p.WordSwap() then u.SwapW() else u;
    var a := y.Htonl().U();
    assert Assemble(p, ws) == a;
    StoreLoad32(y.b3, y.b2, y.b1, y.b0);
    assert OfU(a) == y.Htonl();
    assert Encode(p, a) == u;
    SetWordReads(ZeroVal, 0, b0);
    SetWordReads(v0, 1, b1);
    assert u.W(k) == MaybeBswap16(bs, ws[k]);
    Bswap16Twice(ws[k]);
  }

  lemma EncodeAssembleOne(p: RegPin, ws: seq<bv16>)
    requires p.regCount == 1 && |ws| == 1 && !p.WordSwap() && p.ptype in {U16, S16}
    ensures RegWord(p, Encode(p, Assemble(p, ws)), 0) == ws[0]
  {
    var bs := p.ByteSwap();
    var b0 := MaybeBswap16(bs, ws[0]);
    var l, h := LE16(b0)[0], LE16(b0)[1];
    assert PresetStep(p, ZeroVal, 0, ws[0]) == ModbusVal(0, 0, l, h);
    var n := Narrow(p.ptype, LoadLE32(h, l, 0, 0));
    assert Assemble(p, ws) == n;
    NarrowKeepsBytes(p.ptype, h, l);
    assert Encode(p, n).W(1) == LoadLE16(l, h);
    LoadStore16(b0);
    assert RegWord(p, Encode(p, n), 0) == MaybeBswap16(bs, b0);
    Bswap16Twice(ws[0]);
  }

  /** A 16-bit narrowing of a value keeps the value's two low memory bytes. */
  lemma NarrowKeepsBytes(t: PinType, h: bv8, l: bv8)
    requires t in {U16, S16}
    ensures OfU(Narrow(t, LoadLE32(h, l, 0, 0))).b0 == h && OfU(Narrow(t, LoadLE32(h, l, 0, 0))).b1 == l
  {
    var x := LoadLE32(h, l, 0, 0);
    NarrowingKeepsLowBytes(x);
    StoreLoad32(h, l, 0, 0);
    assert LE32(Narrow(t, x))[0..2] == [h, l];
  }

  /** A narrowed value passes the cap and the clamp unchanged. */
  lemma NarrowedWithinLimits(v: bv32)
    ensures CapU16(ZeroExtend16(v)) == ZeroExtend16(v)
    ensures ClampS16(SignExtend16(v)) == SignExtend16(v)
  {
  }

  /**
   * Writing words to a pin and reading it back returns the same words, for
   * every two-register pin and for a one-register pin without wordswap.
   */
  lemma PresetThenRead(p: RegPin, st: Store, ws: seq<bv16>)
    requires PinOk(p, st) && |ws| == p.regCount
    requires p.regCount == 2 || !p.WordSwap()
    ensures PinWords(p, StorePin(st, p, Assemble(p, ws))) == ws
  {
    var v := Assemble(p, ws);
    var st' := StorePin(st, p, v);
    assert CellBits(p, st') == v;
    assert LimitedBits(p, st') == v by {
      if p.ptype in {U16, S16} {
        var y := PresetStep(p, ZeroVal, 0, ws[0]).Htonl().U();
        assert v == Narrow(p.ptype, y);
        NarrowedWithinLimits(y);
      }
    }
    forall k | 0 <= k < p.regCount
      ensures PinWords(p, st')[k] == ws[k]
    {
      EncodeAssemble(p, ws, k);
    }
  }

  /** The words a value encodes to assemble back into it, up to the 16-bit narrowing. */
  lemma AssembleEncode(p: RegPin, x: bv32)
    requires 1 <= p.regCount <= 2 && (p.regCount == 2 || !p.WordSwap())
    requires p.regCount == 1 <==> p.ptype in {U16, S16}
    ensures Assemble(p, seq(p.regCount, k requires 0 <= k < p.regCount => RegWord(p, Encode(p, x), k)))
         == Narrow(p.ptype, x)
  {
    var ws := seq(p.regCount, k requires 0 <= k < p.regCount => RegWord(p, Encode(p, x), k));
    if p.regCount == 2 {
      AssembleEncodeTwo(p, x, ws);
    } else {
      AssembleEncodeOne(p, x, ws);
    }
  }

  lemma AssembleEncodeTwo(p: RegPin, x: bv32, ws: seq<bv16>)
    requires p.regCount == 2 && p.ptype !in {U16, S16}
    requires |ws| == 2 && ws[0] == RegWord(p, Encode(p, x), 0) && ws[1] == RegWord(p, Encode(p, x), 1)
    ensures Assemble(p, ws) == x
  {
    var e := Encode(p, x);
    AssembleTwo(p, ws);
    WordsOfEncoded(p, e, ws);
    SetBothWords(e);
    DecodeEncoded(p, x);
  }

  lemma AssembleTwo(p: RegPin, ws: seq<bv16>)
    requires p.regCount == 2 && p.ptype !in {U16, S16} && |ws| == 2
    ensures Assemble(p, ws) == (if p.WordSwap() then Pre2(p, ws).SwapW() else Pre2(p, ws)).Htonl().U()
  {
  }

  function Pre2(p: RegPin, ws: seq<bv16>): ModbusVal
    requires |ws| == 2
  {
    ZeroVal.SetW(0, MaybeBswap16(p.ByteSwap(), ws[0])).SetW(1, MaybeBswap16(p.ByteSwap(), ws[1]))
  }

  lemma WordsOfEncoded(p: RegPin, e: ModbusVal, ws: seq<bv16>)
    requires p.regCount == 2 && |ws| == 2 && ws[0] == RegWord(p, e, 0) && ws[1] == RegWord(p, e, 1)
    ensures Pre2(p, ws) == ZeroVal.SetW(0, e.W(0)).SetW(1, e.W(1))
  {
    MaybeBswap16Twice(p.ByteSwap(), e.W(0));
    MaybeBswap16Twice(p.ByteSwap(), e.W(1));
  }

  lemma MaybeBswap16Twice(b: bool, w: bv16)
    ensures MaybeBswap16(b, MaybeBswap16(b, w)) == w
  {
    Bswap16Twice(w);
  }

  /** Setting both words of a union from another's gives that union. */
  lemma SetBothWords(v: ModbusVal)
    ensures ZeroVal.SetW(0, v.W(0)).SetW(1, v.W(1)) == v
  {
    StoreLoad16(v.b0, v.b1);
    StoreLoad16(v.b2, v.b3);
  }

  /** Undoing the word swap and htonl of an encoded value gives the value. */
  lemma DecodeEncoded(p: RegPin, x: bv32)
    ensures (if p.WordSwap() then Encode(p, x).SwapW() else Encode(p, x)).Htonl().U() == x
  {
    var s := LE32(x);
    assert (if p.WordSwap() then Encode(p, x).SwapW() else Encode(p, x)).Htonl() == ModbusVal(s[0], s[1], s[2], s[3]);
    LoadStore32(x);
  }

  lemma AssembleEncodeOne(p: RegPin, x: bv32, ws: seq<bv16>)
    requires p.regCount == 1 && !p.WordSwap() && p.ptype in {U16, S16}
    requires |ws| == 1 && ws[0] == RegWord(p, Encode(p, x), 0)
    ensures Assemble(p, ws) == Narrow(p.ptype, x)
  {
    var bs := p.ByteSwap();
    var s := LE32(x);
    assert Encode(p, x).W(1) == LoadLE16(s[1], s[0]);
    MaybeBswap16Twice(bs, LoadLE16(s[1], s[0]));
    StoreLoad16(s[1], s[0]);
    assert PresetStep(p, ZeroVal, 0, ws[0]) == ModbusVal(0, 0, s[1], s[0]);
    assert Assemble(p, ws) == Narrow(p.ptype, LoadLE32(s[0], s[1], 0, 0));
    LoadLowHalf(x);
    NarrowingReadsLowHalf(x);
  }

  /**
   * Reading a pin and writing the words back stores the value that was
   * sent: the cell is unchanged unless the cap or the clamp altered it.
   * This holds for every two-register pin and for a one-register pin
   * without wordswap.
   */
  lemma ReadThenPreset(p: RegPin, st: Store)
    requires PinOk(p, st)
    requires p.regCount == 2 || !p.WordSwap()
    ensures StorePin(st, p, Assemble(p, PinWords(p, st))) == StorePin(st, p, LimitedBits(p, st))
    ensures LimitedBits(p, st) == CellBits(p, st) ==> StorePin(st, p, Assemble(p, PinWords(p, st))) == st
  {
    var x := LimitedBits(p, st);
    AssembleEncode(p, x);
    assert PinWords(p, st) == seq(p.regCount, k requires 0 <= k < p.regCount => RegWord(p, Encode(p, x), k));
    NarrowLimited(p, st);
    StoreOwnValue(st, p);
  }

  /** The sent value of a pin is its own narrowing. */
  lemma NarrowLimited(p: RegPin, st: Store)
    requires PinOk(p, st)
    ensures Narrow(p.ptype, LimitedBits(p, st)) == LimitedBits(p, st)
  {
    LimitedIsNarrow(p.ptype, CellBits(p, st));
  }

  /** Writing a pin's cell with the value it holds changes nothing. */
  lemma StoreOwnValue(st: Store, p: RegPin)
    requires PinOk(p, st)
    ensures StorePin(st, p, CellBits(p, st)) == st
  {
  }

  /** A capped or clamped value is its own narrowing. */
  lemma LimitedIsNarrow(t: PinType, v: bv32)
    ensures t == U16 ==> Narrow(t, CapU16(v)) == CapU16(v)
    ensures t == S16 ==> Narrow(t, ClampS16(v)) == ClampS16(v)
  {
  }

  /**
   * The wordswap defect on the write side: FC16 stores 0 into a
   * one-register pin with wordswap set, whatever word it receives.
   */
  lemma WordSwapOneRegisterPresetsZero(p: RegPin, w: bv16)
    requires (p.ptype == U16 || p.ptype == S16) && p.regCount == 1 && p.WordSwap()
    ensures Assemble(p, [w]) == 0
  {
    var b := LE16(MaybeBswap16(p.ByteSwap(), w));
    assert PresetStep(p, ZeroVal, 0, w).SwapW().Htonl() == ModbusVal(0, 0, b[1], b[0]);
    NarrowingOfHighBytes(b[1], b[0]);
  }

  // ---------------------------------------------------------------------
  // Bit-mapped registers
  // ---------------------------------------------------------------------

  /**
   * `1 << bit` for a bit number 0..15, written as a table: with the shift
   * amount a variable the solver cannot decide even small facts about
   * masks, while with it a constant it can (BitMaskIsShift).
   */
  function BitMask(b: int): bv16
    requires 0 <= b <= 15
  {
    if b < 8 then
      if b < 4 then (if b == 0 then 0x1 else if b == 1 then 0x2 else if b == 2 then 0x4 else 0x8)
      else (if b == 4 then 0x10 else if b == 5 then 0x20 else if b == 6 then 0x40 else 0x80)
    else
      if b < 12 then (if b == 8 then 0x100 else if b == 9 then 0x200 else if b == 10 then 0x400 else 0x800)
      else (if b == 12 then 0x1000 else if b == 13 then 0x2000 else if b == 14 then 0x4000 else 0x8000)
  }

  lemma BitMaskIsShift(b: int)
    requires 0 <= b <= 15
    ensures BitMask(b) == (1 as bv16) << b
  {
    if b < 4 {
      assert b == 0 || b == 1 || b == 2 || b == 3;
    } else if b < 8 {
      assert b == 4 || b == 5 || b == 6 || b == 7;
    } else if b < 12 {
      assert b == 8 || b == 9 || b == 10 || b == 11;
    } else {
      assert b == 12 || b == 13 || b == 14 || b == 15;
    }
  }

  /**
   * For bits 16..30 the 32-bit `1 << bit` has no bit in the low 16, which is
   * all a uint16_t keeps: such a bit pin reads and writes through a mask of 0.
   */
  lemma BitMaskTruncates(b: int)
    requires 16 <= b <= 30
    ensures ((1 as bv32) << b) & 0xffff == 0
  {
    if b < 20 {
      assert b == 16 || b == 17 || b == 18 || b == 19;
    } else if b < 24 {
      assert b == 20 || b == 21 || b == 22 || b == 23;
    } else if b < 28 {
      assert b == 24 || b == 25 || b == 26 || b == 27;
    } else {
      assert b == 28 || b == 29 || b == 30;
    }
  }

  /** A value and a mask have a set bit in common. */
  predicate Overlap(v: bv16, m: bv16) {
    v & m != 0
  }

  /** Bit b of a register value is set. */
  predicate BitSet(val: bv16, b: int)
    requires 0 <= b <= 15
  {
    Overlap(val, BitMask(b))
  }

  /** The register value readRegBitpins builds: bit `b.bit` set for every bit pin b whose cell is set. */
  function BitRegValue(bps: seq<RegBitPin>, st: Store): bv16
    requires BitPinsOk(bps, st)
    decreases |bps|
  {
    if bps == [] then 0
    else BitRegValue(bps[..|bps| - 1], st) | PinBit(bps[|bps| - 1], st)
  }

  /**
   * What one bit pin contributes to its register: `(uint16_t)(1 << bit)` when
   * its cell is set, which is 0 for bits 16..30 (BitMaskTruncates).
   */
  function PinBit(b: RegBitPin, st: Store): bv16
    requires 0 <= b.bit <= 30 && b.cell < |st.bits|
  {
    if st.bits[b.cell] && b.bit <= 15 then BitMask(b.bit) else 0
  }

  /**
   * What writeRegBitpins stores in a bit pin: `(val & (1 << bit)) ? 1 : 0`,
   * which is 0 for bits 16..30, outside the 16-bit val (BitMaskTruncates).
   */
  predicate PinWrite(val: bv16, bit: int)
    requires 0 <= bit <= 30
  {
    bit <= 15 && BitSet(val, bit)
  }

  /** The store after writeRegBitpins: each bit pin in turn takes bit `b.bit` of val. */
  function WriteBitReg(st: Store, bps: seq<RegBitPin>, val: bv16): (r: Store)
    requires BitPinsOk(bps, st)
    ensures SameShape(st, r)
    decreases |bps|
  {
    if bps == [] then st
    else
      var b := bps[|bps| - 1];
      var st' := WriteBitReg(st, bps[..|bps| - 1], val);
      st'.(bits := st'.bits[b.cell := PinWrite(val, b.bit)])
  }

  /** A bit register maps bit k to at least one of its bit pins. */
  predicate Mapped(bps: seq<RegBitPin>, k: int) {
    exists i :: 0 <= i < |bps| && bps[i].bit == k
  }

  /** Bit k of a bit register reads as set exactly when some bit pin for bit k is set. */
  lemma {:induction false} BitRegValueBit(bps: seq<RegBitPin>, st: Store, k: int)
    requires BitPinsOk(bps, st) && 0 <= k <= 15
    ensures BitSet(BitRegValue(bps, st), k)
        <==> exists i :: 0 <= i < |bps| && bps[i].bit == k && st.bits[bps[i].cell]
    decreases |bps|
  {
    if bps != [] {
      var n := |bps| - 1;
      var pre := bps[..n];
      var b := bps[n];
      BitRegValueBit(pre, st, k);
      BitRegValueLast(bps, st, k);
      if exists i :: 0 <= i < n && pre[i].bit == k && st.bits[pre[i].cell] {
        var i :| 0 <= i < n && pre[i].bit == k && st.bits[pre[i].cell];
        assert bps[i] == pre[i];
      }
      if exists i :: 0 <= i < |bps| && bps[i].bit == k && st.bits[bps[i].cell] {
        var i :| 0 <= i < |bps| && bps[i].bit == k && st.bits[bps[i].cell];
        if i < n {
          assert pre[i] == bps[i];
        }
      }
    }
  }

  /** Bit k after the last bit pin has been or-ed in. */
  lemma BitRegValueLast(bps: seq<RegBitPin>, st: Store, k: int)
    requires BitPinsOk(bps, st) && bps != [] && 0 <= k <= 15
    ensures var b := bps[|bps| - 1];
      (BitSet(BitRegValue(bps, st), k) <==>
       BitSet(BitRegValue(bps[..|bps| - 1], st), k) || (st.bits[b.cell] && b.bit == k))
  {
    var b := bps[|bps| - 1];
    OrSet(BitRegValue(bps[..|bps| - 1], st), PinBit(b, st), k);
    PinBitSet(b, st, k);
  }

  lemma PinBitSet(b: RegBitPin, st: Store, k: int)
    requires 0 <= b.bit <= 30 && b.cell < |st.bits| && 0 <= k <= 15
    ensures BitSet(PinBit(b, st), k) <==> st.bits[b.cell] && b.bit == k
  {
    if st.bits[b.cell] && b.bit <= 15 {
      MaskDistinct(b.bit, k);
    } else {
      ZeroOverlap(BitMask(k));
    }
  }

  /** Bit k of an or is set exactly when it is set in either operand. */
  lemma OrSet(x: bv16, y: bv16, k: int)
    requires 0 <= k <= 15
    ensures BitSet(x | y, k) <==> BitSet(x, k) || BitSet(y, k)
  {
    OrOverlap(x, y, BitMask(k));
  }

  lemma OrOverlap(x: bv16, y: bv16, m: bv16)
    ensures Overlap(x | y, m) <==> Overlap(x, m) || Overlap(y, m)
  {
    OrAnd(x, y, m);
  }

  lemma OrAnd(x: bv16, y: bv16, m: bv16)
    ensures (x | y) & m != 0 <==> x & m != 0 || y & m != 0
  {
  }

  lemma ZeroOverlap(m: bv16)
    ensures !Overlap(0, m)
  {
  }

  /** Mask a has bit b set exactly when a and b are the same bit number. */
  lemma MaskDistinct(a: int, b: int)
    requires 0 <= a <= 15 && 0 <= b <= 15
    ensures BitSet(BitMask(a), b) <==> a == b
  {
  }

  /** A bit register's value depends only on the cells of its own bit pins. */
  lemma {:induction false} BitRegValueFrame(bps: seq<RegBitPin>, a: Store, b: Store)
    requires BitPinsOk(bps, a) && BitPinsOk(bps, b)
    requires forall i | 0 <= i < |bps| :: a.bits[bps[i].cell] == b.bits[bps[i].cell]
    ensures BitRegValue(bps, a) == BitRegValue(bps, b)
    decreases |bps|
  {
    if bps != [] {
      var pre := bps[..|bps| - 1];
      assert forall i | 0 <= i < |pre| :: pre[i] == bps[i];
      BitRegValueFrame(pre, a, b);
    }
  }

  /** The bit pins of a register write distinct cells. */
  predicate DistinctCells(bps: seq<RegBitPin>) {
    forall i, j | 0 <= i < j < |bps| :: bps[i].cell != bps[j].cell
  }

  /** After writeRegBitpins each bit pin holds its bit of val and no other cell changed. */
  lemma WriteBitRegCells(st: Store, bps: seq<RegBitPin>, val: bv16)
    requires BitPinsOk(bps, st) && DistinctCells(bps)
    ensures forall i | 0 <= i < |bps| ::
      WriteBitReg(st, bps, val).bits[bps[i].cell] == PinWrite(val, bps[i].bit)
    ensures forall c | 0 <= c < |st.bits| && (forall i | 0 <= i < |bps| :: bps[i].cell != c) ::
      WriteBitReg(st, bps, val).bits[c] == st.bits[c]
  {
    forall i | 0 <= i < |bps|
      ensures WriteBitReg(st, bps, val).bits[bps[i].cell] == PinWrite(val, bps[i].bit)
    {
      WriteBitRegCell(st, bps, val, i);
    }
    forall c | 0 <= c < |st.bits| && (forall i | 0 <= i < |bps| :: bps[i].cell != c)
      ensures WriteBitReg(st, bps, val).bits[c] == st.bits[c]
    {
      WriteBitRegOther(st, bps, val, c);
    }
  }

  /** The pins of a prefix write distinct cells too. */
  lemma DistinctPrefix(bps: seq<RegBitPin>, n: nat)
    requires DistinctCells(bps) && n <= |bps|
    ensures DistinctCells(bps[..n])
  {
    forall i, j | 0 <= i < j < n ensures bps[..n][i].cell != bps[..n][j].cell {
      assert bps[..n][i] == bps[i] && bps[..n][j] == bps[j];
    }
  }

  lemma {:induction false} WriteBitRegCell(st: Store, bps: seq<RegBitPin>, val: bv16, i: nat)
    requires BitPinsOk(bps, st) && DistinctCells(bps) && i < |bps|
    ensures WriteBitReg(st, bps, val).bits[bps[i].cell] == PinWrite(val, bps[i].bit)
    decreases |bps|
  {
    var n := |bps| - 1;
    var pre := bps[..n];
    if i < n {
      assert pre[i] == bps[i];
      DistinctPrefix(bps, n);
      WriteBitRegCell(st, pre, val, i);
      assert bps[i].cell != bps[n].cell;
    }
  }

  lemma {:induction false} WriteBitRegOther(st: Store, bps: seq<RegBitPin>, val: bv16, c: nat)
    requires BitPinsOk(bps, st) && c < |st.bits|
    requires forall i | 0 <= i < |bps| :: bps[i].cell != c
    ensures WriteBitReg(st, bps, val).bits[c] == st.bits[c]
    decreases |bps|
  {
    if bps != [] {
      var n := |bps| - 1;
      var pre := bps[..n];
      assert forall i | 0 <= i < n :: pre[i] == bps[i];
      WriteBitRegOther(st, pre, val, c);
      assert bps[n].cell != c;
    }
  }

  /**
   * A bit pin numbered 16..30 never sets a bit of its register, and a write
   * to the register always clears it: both go through a mask the uint16_t
   * truncation has emptied.
   */
  lemma HighBitPin(b: RegBitPin, st: Store, val: bv16)
    requires 16 <= b.bit <= 30 && b.cell < |st.bits|
    ensures PinBit(b, st) == 0 && !PinWrite(val, b.bit)
  {
  }

  /**
   * Writing a value to a bit register and reading it back gives, at every
   * bit, the value's bit where a bit pin maps it and 0 elsewhere.
   */
  lemma BitRegRoundTrip(st: Store, bps: seq<RegBitPin>, val: bv16, k: int)
    requires BitPinsOk(bps, st) && DistinctCells(bps) && 0 <= k <= 15
    ensures BitSet(BitRegValue(bps, WriteBitReg(st, bps, val)), k) <==> BitSet(val, k) && Mapped(bps, k)
  {
    var w := WriteBitReg(st, bps, val);
    BitRegValueBit(bps, w, k);
    WriteBitRegCells(st, bps, val);
  }

  // ---------------------------------------------------------------------
  // Coils and discrete inputs
  // ---------------------------------------------------------------------

  /** The number of data bytes for count bits: count/8 rounded up. */
  function ByteCount(n: nat): nat {
    n / 8 + (if n % 8 != 0 then 1 else 0)
  }

  /** `1 << k` for a bit number 0..7 of a byte, as a table like BitMask. */
  function ByteBit(k: nat): bv8
    requires k < 8
  {
    if k < 4 then (if k == 0 then 0x1 else if k == 1 then 0x2 else if k == 2 then 0x4 else 0x8)
    else (if k == 4 then 0x10 else if k == 5 then 0x20 else if k == 6 then 0x40 else 0x80)
  }

  lemma ByteBitIsShift(k: nat)
    requires k < 8
    ensures ByteBit(k) == (1 as bv8) << k
  {
    if k < 4 {
      assert k == 0 || k == 1 || k == 2 || k == 3;
    } else {
      assert k == 4 || k == 5 || k == 6 || k == 7;
    }
  }

  /** Bit k (0 = least significant) of a byte. */
  predicate BitOf(v: bv8, k: nat)
    requires k < 8
  {
    v & ByteBit(k) != 0
  }

  /** Up to eight bits packed LSB first into one byte. */
  function PackByte(bs: seq<bool>): bv8
    requires |bs| <= 8
    decreases |bs|
  {
    if bs == [] then 0
    else PackByte(bs[..|bs| - 1]) | (if bs[|bs| - 1] then ByteBit(|bs| - 1) else 0)
  }

  /** Bits packed LSB first, eight to a byte, the last byte padded with zeros. */
  function PackBits(bs: seq<bool>): (r: seq<bv8>)
    ensures |r| == ByteCount(|bs|)
  {
    seq(ByteCount(|bs|), j requires 0 <= j < ByteCount(|bs|) => PackByte(bs[8 * j .. Min(8 * j + 8, |bs|)]))
  }

  /** The bits a payload carries for count coils: coil i is bit i mod 8 of byte i / 8. */
  function UnpackBits(payload: seq<bv8>, n: nat): (r: seq<bool>)
    requires ByteCount(n) <= |payload|
    ensures |r| == n
  {
    seq(n, i requires 0 <= i < n => BitOf(payload[i / 8], i % 8))
  }

  /** Bit k of a packed byte is bit k of its input, and zero beyond it. */
  lemma {:induction false} PackByteBit(bs: seq<bool>, k: nat)
    requires |bs| <= 8 && k < 8
    ensures BitOf(PackByte(bs), k) <==> k < |bs| && bs[k]
    decreases |bs|
  {
    if bs != [] {
      var pre := bs[..|bs| - 1];
      PackByteBit(pre, k);
      ByteMask(PackByte(pre), k, |bs| - 1, bs[|bs| - 1]);
      if k < |pre| {
        assert pre[k] == bs[k];
      }
    }
  }

  lemma ByteMask(v: bv8, k: nat, m: nat, set_: bool)
    requires k < 8 && m < 8
    ensures BitOf(v | (if set_ then ByteBit(m) else 0), k) <==> BitOf(v, k) || (set_ && k == m)
  {
  }

  /** Request bit i lies at bit i mod 8 of data byte i / 8; the padding bits are zero. */
  lemma PackBitsLayout(bs: seq<bool>)
    ensures forall i | 0 <= i < |bs| :: BitOf(PackBits(bs)[i / 8], i % 8) == bs[i]
    ensures forall i | |bs| <= i < 8 * ByteCount(|bs|) :: !BitOf(PackBits(bs)[i / 8], i % 8)
  {
    forall i | 0 <= i < 8 * ByteCount(|bs|)
      ensures BitOf(PackBits(bs)[i / 8], i % 8) <==> i < |bs| && bs[i]
    {
      var j := i / 8;
      var chunk := bs[8 * j .. Min(8 * j + 8, |bs|)];
      PackByteBit(chunk, i % 8);
      if i < |bs| {
        assert chunk[i % 8] == bs[i];
      }
    }
  }

  /** Unpacking packed bits gives them back. */
  lemma UnpackPack(bs: seq<bool>)
    ensures UnpackBits(PackBits(bs), |bs|) == bs
  {
    PackBitsLayout(bs);
  }

  /** Packing the first 8m bits and then one more partial or full byte. */
  lemma PackBitsSnoc(bs: seq<bool>, m: nat)
    requires 8 * m < |bs| <= 8 * m + 8
    ensures PackBits(bs) == PackBits(bs[..8 * m]) + [PackByte(bs[8 * m..])]
  {
    var pre := bs[..8 * m];
    assert ByteCount(|pre|) == m;
    assert ByteCount(|bs|) == m + 1;
    var lhs, rhs := PackBits(bs), PackBits(pre) + [PackByte(bs[8 * m..])];
    forall j | 0 <= j <= m
      ensures lhs[j] == rhs[j]
    {
      if j < m {
        assert Min(8 * j + 8, |bs|) == 8 * j + 8 == Min(8 * j + 8, |pre|);
        assert bs[8 * j .. 8 * j + 8] == pre[8 * j .. 8 * j + 8];
        assert rhs[j] == PackBits(pre)[j] == PackByte(pre[8 * j .. 8 * j + 8]);
        assert lhs[j] == PackByte(bs[8 * j .. 8 * j + 8]);
      } else {
        assert Min(8 * j + 8, |bs|) == |bs|;
        assert lhs[j] == PackByte(bs[8 * m .. |bs|]);
        assert bs[8 * m .. |bs|] == bs[8 * m..];
      }
    }
    assert |lhs| == |rhs|;
  }

  /** One more bit or-ed into a partly packed byte at the next position. */
  lemma PackByteSnoc(bs: seq<bool>, b: bool)
    requires |bs| < 8
    ensures PackByte(bs + [b]) == PackByte(bs) | (if b then ByteBit(|bs|) else 0)
  {
    assert (bs + [b])[..|bs|] == bs;
  }

  /** The packed bytes of the first i bits: the full bytes before bit i - 1, then the byte holding it. */
  lemma PackBitsPrefix(vs: seq<bool>, i: nat)
    requires 0 < i <= |vs|
    ensures PackBits(vs[..i]) == PackBits(vs[..8 * ((i - 1) / 8)]) + [PackByte(vs[8 * ((i - 1) / 8)..i])]
  {
    var q := (i - 1) / 8;
    PackBitsSnoc(vs[..i], q);
    assert vs[..i][..8 * q] == vs[..8 * q];
    assert vs[..i][8 * q..] == vs[8 * q..i];
  }
}
