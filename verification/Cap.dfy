/** The multicast capability (lib/cap.c, inc/switchtec/cap.h). Registers are
    unsigned numbers. */
module Cap {
  import opened Bytes
  import opened NatBits

  const CAP_MULTICAST_OFFSET := 0x170
  const CAP_LEN := 48
  const U32 := 0x1_0000_0000

  type u16 = n: int | 0 <= n < 0x1_0000
  type u64 = n: int | 0 <= n < 0x1_0000_0000_0000_0000

  // ----- little-endian numbers

  function Le(n: nat, len: nat): (s: bytes)
    ensures |s| == len
  {
    if len == 0 then [] else [n % 0x100] + Le(n / 0x100, len - 1)
  }

  function Num(s: bytes): nat {
    if s == [] then 0 else s[0] as int + 0x100 * Num(s[1..])
  }

  function Pow256(k: nat): nat {
    if k == 0 then 1 else 0x100 * Pow256(k - 1)
  }

  lemma {:induction false} NumOfLe(n: nat, len: nat)
    requires n < Pow256(len)
    ensures Num(Le(n, len)) == n
  {
    if len > 0 {
      NumOfLe(n / 0x100, len - 1);
    }
  }

  lemma {:induction false} NumConcat(a: bytes, b: bytes)
    ensures Num(a + b) == Num(a) + Pow256(|a|) * Num(b)
  {
    if a == [] {
      assert a + b == b;
    } else {
      assert (a + b)[1..] == a[1..] + b;
      NumConcat(a[1..], b);
      assert Pow256(|a|) * Num(b) == 0x100 * (Pow256(|a| - 1) * Num(b));
    }
  }

  lemma {:induction false} NumBelow(s: bytes)
    ensures Num(s) < Pow256(|s|)
  {
    if s != [] {
      NumBelow(s[1..]);
    }
  }

  // ----- the device

  /** A device whose GAS can be read and written; every command gets the next
      answer of a script of any length and fails when that has run out. A failed
      command changes nothing. */
  class Device {
    var gas: bytes
    const answers: seq<int>
    var turn: nat
    const running: bool  // the boot phase is the main firmware

    constructor (gas: bytes, answers: seq<int>, running: bool)
      ensures this.gas == gas && this.answers == answers && this.running == running && turn == 0
    {
      this.gas, this.answers, this.running, turn := gas, answers, running, 0;
    }

    function AnswerAt(t: nat): int {
      if t < |answers| then answers[t] else -1
    }

    /** Whether `ret` is the failure of the last command. */
    ghost predicate Failed(ret: int)
      reads this
    {
      ret != 0 && turn > 0 && ret == AnswerAt(turn - 1)
    }

    method Read(offset: nat, len: nat) returns (ret: int, data: bytes)
      requires offset + len <= |gas|
      modifies this`turn
      ensures if ret == 0 then data == gas[offset..offset + len] else Failed(ret)
    {
      ret := AnswerAt(turn);
      data := if ret == 0 then gas[offset..offset + len] else [];
      turn := turn + 1;
    }

    method Write(offset: nat, data: bytes) returns (ret: int)
      requires offset + |data| <= |gas|
      modifies this
      ensures gas == if ret == 0 then Put(old(gas), offset, data) else old(gas)
      ensures ret == 0 || Failed(ret)
    {
      ret := AnswerAt(turn);
      gas := if ret == 0 then Put(gas, offset, data) else gas;
      turn := turn + 1;
    }
  }

  // ----- the Multicast Extended Capability

  /** Every field of the structure, the reserved ones included. */
  datatype Fields = Fields(
    header: nat, cap: nat,
    enable: bool, ctrlReserved: nat, numGroup: nat,
    indexPos: nat, baseReserved: nat, baseAddr: nat,
    receive: nat, blockAll: nat, blockUntranslated: nat,
    overlaySize: nat, overlayAddr: nat)

  datatype Registers = Registers(
    header: nat, capCtrl: nat, baseAddr: nat, receive: nat, blockAll: nat, blockUntranslated: nat, overlayBar: nat)

  function Decode(s: bytes): Registers
    requires |s| == CAP_LEN
  {
    Registers(Num(s[0..4]), Num(s[4..8]), Num(s[8..16]), Num(s[16..24]), Num(s[24..32]), Num(s[32..40]), Num(s[40..48]))
  }

  function FieldsOf(r: Registers): Fields {
    var ctrl := r.capCtrl / 0x1_0000;
    Fields(
      r.header, r.capCtrl % 0x1_0000,
      ctrl / 0x8000 == 1, ctrl / 0x40 % 0x200, ctrl % 0x40,
      r.baseAddr % 0x40, r.baseAddr / 0x40 % 0x40, r.baseAddr / 0x1000,
      r.receive, r.blockAll, r.blockUntranslated,
      r.overlayBar % 0x40, r.overlayBar / 0x40)
  }

  ghost function At(mem: bytes, addr: nat): Fields
    requires addr + CAP_LEN <= |mem|
  {
    FieldsOf(Decode(mem[addr..addr + CAP_LEN]))
  }

  /** switchtec_multicast_set. */
  datatype Request = Request(
    enable: bool, disable: bool, numGroup: int, indexPos: int,
    baseAddr: u64, receive: u64, blockAll: u64, blockUntranslated: u64, overlayBar: u64, overlaySize: int,
    setBaseAddr: bool, setReceive: bool, setBlockAll: bool, setBlockUntranslated: bool, setOverlayBar: bool)

  predicate SixBits(n: int) {
    0 <= n <= 63
  }

  // what each register's write does to the fields

  function SetCtrl(f: Fields, q: Request): Fields {
    f.(enable := if q.disable then false else q.enable || f.enable,
       numGroup := if SixBits(q.numGroup) then q.numGroup else f.numGroup)
  }

  predicate WritesBase(q: Request) {
    q.setBaseAddr || q.indexPos >= 0
  }

  function SetBase(f: Fields, q: Request): Fields {
    if !WritesBase(q) then f
    else f.(baseAddr := if q.setBaseAddr then q.baseAddr / 0x1000 else f.baseAddr,
            baseReserved := 0,
            indexPos := if SixBits(q.indexPos) then q.indexPos else f.indexPos)
  }

  function SetReceive(f: Fields, q: Request): Fields {
    if q.setReceive then f.(receive := q.receive) else f
  }

  function SetBlockAll(f: Fields, q: Request): Fields {
    if q.setBlockAll then f.(blockAll := q.blockAll) else f
  }

  function SetBlockUntranslated(f: Fields, q: Request): Fields {
    if q.setBlockUntranslated then f.(blockUntranslated := q.blockUntranslated) else f
  }

  function SetOverlay(f: Fields, q: Request): Fields {
    if q.setOverlayBar then
      f.(overlayAddr := q.overlayBar / 0x40,
         overlaySize := if SixBits(q.overlaySize) then q.overlaySize else f.overlaySize)
    else if q.overlaySize >= 0 then f.(overlaySize := q.overlaySize % 0x40)
    else f
  }

  /** The fields after the first `k` of the six steps. */
  function Upto(k: nat, f: Fields, q: Request): Fields {
    if k == 0 then f
    else
      var g := Upto(k - 1, f, q);
      match k
      case 1 => SetCtrl(g, q)
      case 2 => SetBase(g, q)
      case 3 => SetReceive(g, q)
      case 4 => SetBlockAll(g, q)
      case 5 => SetBlockUntranslated(g, q)
      case 6 => SetOverlay(g, q)
      case _ => g
  }

  /** The request taken at its word, in one update of the whole structure. */
  function Requested(f: Fields, q: Request): Fields {
    f.(enable := if q.disable then false else q.enable || f.enable,
       numGroup := if SixBits(q.numGroup) then q.numGroup else f.numGroup,
       indexPos := if SixBits(q.indexPos) then q.indexPos else f.indexPos,
       baseAddr := if q.setBaseAddr then q.baseAddr / 0x1000 else f.baseAddr,
       receive := if q.setReceive then q.receive else f.receive,
       blockAll := if q.setBlockAll then q.blockAll else f.blockAll,
       blockUntranslated := if q.setBlockUntranslated then q.blockUntranslated else f.blockUntranslated,
       overlaySize := if SixBits(q.overlaySize) then q.overlaySize else f.overlaySize,
       overlayAddr := if q.setOverlayBar then q.overlayBar / 0x40 else f.overlayAddr)
  }

  /** The steps together do what was asked exactly when the base register, if
      written, had no reserved bits set, and an overlay size given alone fits its
      field or is the old one there. */
  lemma StepsMeetRequest(f: Fields, q: Request)
    ensures Upto(6, f, q) == Requested(f, q) <==>
            && (WritesBase(q) ==> f.baseReserved == 0)
            && (!q.setOverlayBar && q.overlaySize > 63 ==> q.overlaySize % 0x40 == f.overlaySize)
  {
    UptoSix(f, q);
  }

  lemma UptoSix(f: Fields, q: Request)
    ensures Upto(6, f, q) ==
            SetOverlay(SetBlockUntranslated(SetBlockAll(SetReceive(SetBase(SetCtrl(f, q), q), q), q), q), q)
  {
    assert Upto(1, f, q) == SetCtrl(Upto(0, f, q), q);
    assert Upto(2, f, q) == SetBase(Upto(1, f, q), q);
    assert Upto(3, f, q) == SetReceive(Upto(2, f, q), q);
    assert Upto(4, f, q) == SetBlockAll(Upto(3, f, q), q);
    assert Upto(5, f, q) == SetBlockUntranslated(Upto(4, f, q), q);
  }

  /** The request in words: what is asked for is set, and everything else is as it was. */
  lemma RequestInWords(f: Fields, q: Request)
    ensures var g := Requested(f, q);
            && g.enable == (!q.disable && (q.enable || f.enable))
            && (if 0 <= q.numGroup <= 63 then g.numGroup == q.numGroup else g.numGroup == f.numGroup)
            && (if 0 <= q.indexPos <= 63 then g.indexPos == q.indexPos else g.indexPos == f.indexPos)
            && (if q.setBaseAddr then 0 <= q.baseAddr - g.baseAddr * 0x1000 < 0x1000 else g.baseAddr == f.baseAddr)
            && g.receive == (if q.setReceive then q.receive else f.receive)
            && g.blockAll == (if q.setBlockAll then q.blockAll else f.blockAll)
            && g.blockUntranslated == (if q.setBlockUntranslated then q.blockUntranslated else f.blockUntranslated)
            && (if 0 <= q.overlaySize <= 63 then g.overlaySize == q.overlaySize else g.overlaySize == f.overlaySize)
            && (if q.setOverlayBar then 0 <= q.overlayBar - g.overlayAddr * 0x40 < 0x40 else g.overlayAddr == f.overlayAddr)
            && g.header == f.header && g.cap == f.cap && g.ctrlReserved == f.ctrlReserved && g.baseReserved == f.baseReserved
  {
  }

  /** Where the fields lie, byte by byte: section 7.9.11 of the PCI Express Base
      Specification, low byte first. */
  lemma FieldsInBytes(mem: bytes, a: nat)
    requires a + 48 <= |mem|
    ensures var f, s := At(mem, a), mem[a..a + 48];
            && f.header == Num(s[0..4])
            && f.cap == s[4] as int + 256 * (s[5] as int)
            && f.numGroup == s[6] as int % 64
            && f.ctrlReserved == s[6] as int / 64 + 4 * (s[7] as int % 128)
            && f.enable == (s[7] >= 128)
            && f.indexPos == s[8] as int % 64
            && f.baseReserved == s[8] as int / 64 + 4 * (s[9] as int % 16)
            && f.baseAddr == s[9] as int / 16 + 16 * Num(s[10..16])
            && f.receive == Num(s[16..24]) && f.blockAll == Num(s[24..32])
            && f.blockUntranslated == Num(s[32..40])
            && f.overlaySize == s[40] as int % 64
            && f.overlayAddr == s[40] as int / 64 + 4 * Num(s[41..48])
  {
    var s := mem[a..a + 48];
    CtrlAt(s[4..8]);
    BaseAt(s[8..16]);
    OverlayAt(s[40..48]);
    hide Num;
    assert s[8..16][2..] == s[10..16] && s[40..48][1..] == s[41..48];
  }

  lemma CtrlAt(c: bytes)
    requires |c| == 4
    ensures var ctrl := Num(c) / 0x1_0000;
            && Num(c) % 0x1_0000 == c[0] as int + 256 * (c[1] as int)
            && ctrl % 0x40 == c[2] as int % 64 && (ctrl / 0x8000 == 1) == (c[3] >= 128)
            && ctrl / 0x40 % 0x200 == c[2] as int / 64 + 4 * (c[3] as int % 128)
  {
    HighHalf(c);
    TwoBytes(c[..2]);
    TwoBytes(c[2..]);
    CtrlBytes(c[2], c[3]);
    hide Num;
  }

  lemma BaseAt(b: bytes)
    requires |b| == 8
    ensures var base := Num(b);
            && base % 0x40 == b[0] as int % 64 && base / 0x1000 == b[1] as int / 16 + 16 * Num(b[2..])
            && base / 0x40 % 0x40 == b[0] as int / 64 + 4 * (b[1] as int % 16)
  {
    FirstTwo(b);
    BaseBytes(b[0], b[1], Num(b[2..]));
    hide Num;
  }

  lemma OverlayAt(o: bytes)
    requires |o| == 8
    ensures Num(o) % 0x40 == o[0] as int % 64 && Num(o) / 0x40 == o[0] as int / 64 + 4 * Num(o[1..])
  {
    NumStep(o);
    OverlayBytes(o[0], Num(o[1..]));
    hide Num;
  }

  lemma NumStep(s: bytes)
    requires s != []
    ensures Num(s) == s[0] as int + 0x100 * Num(s[1..])
  {
  }

  lemma TwoBytes(s: bytes)
    requires |s| == 2
    ensures Num(s) == s[0] as int + 256 * (s[1] as int)
  {
    assert s[1..] == [s[1]] && s[1..][1..] == [];
    assert Num([]) == 0;
  }

  lemma FirstTwo(s: bytes)
    requires |s| >= 2
    ensures Num(s) == s[0] as int + 256 * (s[1] as int) + 0x1_0000 * Num(s[2..])
  {
    NumStep(s);
    NumStep(s[1..]);
    assert s[1..][1..] == s[2..];
  }

  lemma CtrlBytes(lo: byte, hi: byte)
    ensures var ctrl := lo as int + 256 * (hi as int);
            && ctrl % 0x40 == lo as int % 64 && (ctrl / 0x8000 == 1) == (hi >= 128)
            && ctrl / 0x40 % 0x200 == lo as int / 64 + 4 * (hi as int % 128)
  {
    var e, rest, top, low := if hi >= 128 then 1 else 0, if hi >= 128 then hi as int - 128 else hi as int, lo as int / 64, lo as int % 64;
    assert lo as int == 64 * top + low && hi as int % 128 == rest;
    hide Low, High;
    CtrlParts(lo as int + 256 * (hi as int), e, top + 4 * rest, low);
  }

  lemma BaseBytes(lo: byte, hi: byte, rest: nat)
    ensures var base := lo as int + 256 * (hi as int) + 0x1_0000 * rest;
            && base % 0x40 == lo as int % 64 && base / 0x1000 == hi as int / 16 + 16 * rest
            && base / 0x40 % 0x40 == lo as int / 64 + 4 * (hi as int % 16)
  {
    var base := lo as int + 256 * (hi as int) + 0x1_0000 * rest;
    var addr, reserved, idx := hi as int / 16 + 16 * rest, lo as int / 64 + 4 * (hi as int % 16), lo as int % 64;
    assert base == 0x1000 * addr + 0x40 * reserved + idx;
    ModIs(base, 0x40, 0x40 * addr + reserved, idx);
    ModIs(0x40 * addr + reserved, 0x40, addr, reserved);
    assert base / 0x40 == 0x40 * addr + reserved;
  }

  lemma OverlayBytes(lo: byte, rest: nat)
    ensures var bar := lo as int + 256 * rest;
            bar % 0x40 == lo as int % 64 && bar / 0x40 == lo as int / 64 + 4 * rest
  {
  }

  // the six register writes

  lemma CtrlWritten(mem: bytes, addr: nat, ctrl: u16)
    requires addr + CAP_LEN <= |mem|
    ensures At(Put(mem, addr + 6, Le(ctrl, 2)), addr) ==
            At(mem, addr).(enable := ctrl / 0x8000 == 1, ctrlReserved := ctrl / 0x40 % 0x200, numGroup := ctrl % 0x40)
  {
    hide Le, Num, Put, Decode;
    RegisterWritten(mem, addr, 6, Le(ctrl, 2));
    assert Num(Le(ctrl, 2)) == ctrl by {
      assert Pow256(2) == 0x1_0000;
      NumOfLe(ctrl, 2);
    }
  }

  lemma EightBytes(n: u64)
    ensures Num(Le(n, 8)) == n
  {
    assert Pow256(8) == 0x1_0000_0000_0000_0000;
    NumOfLe(n, 8);
  }

  lemma BaseWritten(mem: bytes, addr: nat, base: u64)
    requires addr + CAP_LEN <= |mem|
    ensures At(Put(mem, addr + 8, Le(base, 8)), addr) ==
            At(mem, addr).(indexPos := base % 0x40, baseReserved := base / 0x40 % 0x40, baseAddr := base / 0x1000)
  {
    hide Le, Num, Put, Decode;
    RegisterWritten(mem, addr, 8, Le(base, 8));
    EightBytes(base);
  }

  /** The three registers without parts; `off` says which. */
  lemma WholeWritten(mem: bytes, addr: nat, off: nat, v: u64)
    requires addr + CAP_LEN <= |mem| && (off == 16 || off == 24 || off == 32)
    ensures At(Put(mem, addr + off, Le(v, 8)), addr) ==
            match off
            case 16 => At(mem, addr).(receive := v)
            case 24 => At(mem, addr).(blockAll := v)
            case _ => At(mem, addr).(blockUntranslated := v)
  {
    hide Le, Num, Put, Decode;
    RegisterWritten(mem, addr, off, Le(v, 8));
    EightBytes(v);
  }

  lemma OverlayWritten(mem: bytes, addr: nat, bar: u64)
    requires addr + CAP_LEN <= |mem|
    ensures At(Put(mem, addr + 40, Le(bar, 8)), addr) ==
            At(mem, addr).(overlaySize := bar % 0x40, overlayAddr := bar / 0x40)
  {
    hide Le, Num, Put, Decode;
    RegisterWritten(mem, addr, 40, Le(bar, 8));
    EightBytes(bar);
  }

  /** A write inside the structure changes the register it lies in only. */
  lemma RegisterWritten(mem: bytes, addr: nat, off: nat, data: bytes)
    requires addr + CAP_LEN <= |mem|
    requires (off == 6 && |data| == 2) || ((off == 8 || off == 16 || off == 24 || off == 32 || off == 40) && |data| == 8)
    ensures var r := Decode(mem[addr..addr + CAP_LEN]);
            Decode(Put(mem, addr + off, data)[addr..addr + CAP_LEN]) ==
            match off
            case 6 => r.(capCtrl := r.capCtrl % 0x1_0000 + 0x1_0000 * Num(data))
            case 8 => r.(baseAddr := Num(data))
            case 16 => r.(receive := Num(data))
            case 24 => r.(blockAll := Num(data))
            case 32 => r.(blockUntranslated := Num(data))
            case _ => r.(overlayBar := Num(data))
  {
    hide Decode, Put, Num;
    PutInside(mem, addr, off, data);
    if off == 6 {
      HalfWritten(mem[addr..addr + CAP_LEN], data);
    } else {
      WideWritten(mem[addr..addr + CAP_LEN], off, data);
    }
  }

  lemma HalfWritten(s: bytes, data: bytes)
    requires |s| == CAP_LEN && |data| == 2
    ensures Decode(Put(s, 6, data)) == Decode(s).(capCtrl := Decode(s).capCtrl % 0x1_0000 + 0x1_0000 * Num(data))
  {
    hide Num, Put;
    var s' := Put(s, 6, data);
    PutThenRead(s, 6, data, 0, 4);
    OtherRegisters(s, 6, data);
    PutThenRead(s, 6, data, 4, 6);
    PutThenRead(s, 6, data, 6, 8);
    assert s[4..8][..2] == s[4..6] && s'[4..8][..2] == s'[4..6] && s'[4..8][2..] == s'[6..8];
    HighHalf(s[4..8]);
    HighHalf(s'[4..8]);
  }

  lemma WideWritten(s: bytes, off: nat, data: bytes)
    requires |s| == CAP_LEN && |data| == 8
    requires off == 8 || off == 16 || off == 24 || off == 32 || off == 40
    ensures Decode(Put(s, off, data)) ==
            match off
            case 8 => Decode(s).(baseAddr := Num(data))
            case 16 => Decode(s).(receive := Num(data))
            case 24 => Decode(s).(blockAll := Num(data))
            case 32 => Decode(s).(blockUntranslated := Num(data))
            case _ => Decode(s).(overlayBar := Num(data))
  {
    hide Num, Put;
    PutThenRead(s, off, data, 0, 4);
    PutThenRead(s, off, data, 4, 8);
    PutThenRead(s, off, data, off, off + 8);
    OtherRegisters(s, off, data);
  }

  lemma PutInside(mem: bytes, addr: nat, off: nat, data: bytes)
    requires addr + CAP_LEN <= |mem| && off + |data| <= CAP_LEN
    ensures Put(mem, addr + off, data)[addr..addr + CAP_LEN] == Put(mem[addr..addr + CAP_LEN], off, data)
  {
  }

  lemma OtherRegisters(s: bytes, off: nat, data: bytes)
    requires |s| == CAP_LEN && off + |data| <= CAP_LEN
    requires (off == 6 && |data| == 2) || ((off == 8 || off == 16 || off == 24 || off == 32 || off == 40) && |data| == 8)
    ensures var s' := Put(s, off, data);
            && (off != 8 ==> s'[8..16] == s[8..16]) && (off != 16 ==> s'[16..24] == s[16..24])
            && (off != 24 ==> s'[24..32] == s[24..32]) && (off != 32 ==> s'[32..40] == s[32..40])
            && (off != 40 ==> s'[40..48] == s[40..48])
  {
    hide Put;
    PutThenRead(s, off, data, 8, 16);
    PutThenRead(s, off, data, 16, 24);
    PutThenRead(s, off, data, 24, 32);
    PutThenRead(s, off, data, 32, 40);
    PutThenRead(s, off, data, 40, 48);
  }

  lemma HighHalf(s: bytes)
    requires |s| == 4
    ensures Num(s) % 0x1_0000 == Num(s[..2]) && Num(s) / 0x1_0000 == Num(s[2..])
  {
    var lo, hi := s[..2], s[2..];
    assert s == lo + hi;
    NumConcat(lo, hi);
    NumBelow(lo);
    assert Pow256(2) == 0x1_0000;
    hide Num, Pow256;
    assert Num(s) == Num(lo) + 0x1_0000 * Num(hi);
  }

  // ----- reading and updating

  function Low(n: nat, m: nat): nat
    requires m > 0
  {
    n % m
  }

  function High(n: nat, m: nat): nat
    requires m > 0
  {
    n / m * m
  }

  /** The masks in use: the low 6 and the low 12 bits. */
  lemma Masks(n: nat)
    ensures And(n, 0x3f) == Low(n, 0x40) && AndNot(n, 0x3f) == High(n, 0x40)
    ensures AndNot(n, 0xfff) == High(n, 0x1000)
  {
    SixAndTwelve();
    hide And, AndNot, Pow2;
    AndMask(n, 6);
    AndMask(n, 12);
    AndNotIsRest(n, 0x3f);
    AndNotIsRest(n, 0xfff);
  }

  lemma SixAndTwelve()
    ensures Pow2(6) == 0x40 && Pow2(12) == 0x1000
  {
  }

  lemma LowIsSmall(n: nat)
    ensures Low(n, 0x40) < 0x40
  {
  }

  /** Putting a number below 64 where the low 6 or the low 12 bits were. */
  lemma PutLow(a: nat, b: nat)
    requires b < 0x40
    ensures Or(AndNot(a, 0x3f), b) == High(a, 0x40) + b
    ensures Or(AndNot(a, 0xfff), b) == High(a, 0x1000) + b
    ensures And(b, 0x3f) == b
  {
    SixAndTwelve();
    hide And, AndNot, Or, Pow2;
    Masks(a);
    Masks(b);
    ModIs(High(a, 0x40), 0x40, a / 0x40, 0);
    ModIs(High(a, 0x1000), 0x1000, a / 0x1000, 0);
    AndApart(High(a, 0x40), b, 6);
    AndApart(High(a, 0x1000), b, 12);
    AndPlusOr(High(a, 0x40), b);
    AndPlusOr(High(a, 0x1000), b);
  }

  lemma Fifteen()
    ensures Pow2(15) == 0x8000
  {
    assert Pow2(8) == 0x100;
  }

  /** Bit 15 of a 16-bit number. */
  lemma TopBit(n: nat)
    requires n < 0x1_0000
    ensures Or(n, 0x8000) == Low(n, 0x8000) + 0x8000 && AndNot(n, 0x8000) == Low(n, 0x8000)
  {
    hide And, AndNot, Or, Pow2;
    Fifteen();
    if n >= 0x8000 {
      ModIs(n, 0x8000, 1, n - 0x8000);
    }
    AndTop(n, 15);
    AndNotIsRest(n, 0x8000);
    AndPlusOr(n, 0x8000);
  }

  method MulticastCapGet(dev: Device, gasBase: nat) returns (ret: int, r: Registers)
    requires gasBase + 0x170 + 48 <= |dev.gas|
    modifies dev`turn
    ensures !dev.running ==> ret == -1
    ensures dev.running && ret != 0 ==> dev.Failed(ret)
    ensures ret == 0 ==> dev.running && FieldsOf(r) == At(dev.gas, gasBase + 0x170)
    ensures ret == 0 ==> RegistersFit(r)
  {
    r := Registers(0, 0, 0, 0, 0, 0, 0);
    if !dev.running {
      return -1, r;
    }
    var data;
    ret, data := dev.Read(gasBase + CAP_MULTICAST_OFFSET, CAP_LEN);
    if ret != 0 {
      return;
    }
    r := Decode(data);
    DecodeFits(data);
  }

  predicate RegistersFit(r: Registers) {
    r.capCtrl < U32 && r.baseAddr <= 0xffff_ffff_ffff_ffff && r.overlayBar <= 0xffff_ffff_ffff_ffff
  }

  lemma DecodeFits(s: bytes)
    requires |s| == CAP_LEN
    ensures RegistersFit(Decode(s))
  {
    NumBelow(s[4..8]);
    NumBelow(s[8..16]);
    NumBelow(s[40..48]);
    assert Pow256(4) == U32 && Pow256(8) == 0x1_0000_0000_0000_0000;
  }

  /** What a write outside [addr, addr + CAP_LEN) would change. */
  ghost predicate SameAround(mem: bytes, mem': bytes, addr: nat)
    requires addr + CAP_LEN <= |mem|
  {
    |mem'| == |mem| && mem'[..addr] == mem[..addr] && mem'[addr + CAP_LEN..] == mem[addr + CAP_LEN..]
  }

  lemma PutAround(mem: bytes, mem': bytes, addr: nat, off: nat, data: bytes)
    requires addr + CAP_LEN <= |mem| && SameAround(mem, mem', addr) && off + |data| <= CAP_LEN
    ensures SameAround(mem, Put(mem', addr + off, data), addr)
  {
  }

  /** After `k` steps the capability holds what they make of it, and nothing
      outside it has changed. */
  ghost predicate StepsDone(k: nat, mem: bytes, mem': bytes, addr: nat, q: Request)
    requires addr + CAP_LEN <= |mem|
  {
    SameAround(mem, mem', addr) && At(mem', addr) == Upto(k, At(mem, addr), q)
  }

  /** switchtec_multicast_cap_set: success is the whole update, failure a prefix of
      it. The methods after it are its blocks, one to a register. */
  method MulticastCapSet(dev: Device, gasBase: nat, q: Request) returns (ret: int, ghost k: nat)
    requires gasBase + 0x170 + 48 <= |dev.gas|
    modifies dev
    ensures k <= 6 && (ret == 0 ==> k == 6)
    ensures !dev.running ==> ret == -1 && k == 0
    ensures dev.running && ret != 0 ==> dev.Failed(ret)
    ensures StepsDone(k, old(dev.gas), dev.gas, gasBase + 0x170, q)
  {
    hide At, FieldsOf, StepsDone, RegistersFit, Put, Le;
    k := 0;
    var addr := gasBase + CAP_MULTICAST_OFFSET;
    ghost var mem := dev.gas;
    NothingDone(mem, addr, q);
    if !dev.running {
      return -1, 0;
    }
    var r;
    ret, r := MulticastCapGet(dev, gasBase);
    if ret != 0 {
      return;
    }
    ret := WriteCtrl(dev, addr, q, r, mem);
    if ret != 0 {
      return;
    }
    ret := WriteBase(dev, addr, q, r, mem);
    if ret != 0 {
      return ret, 1;
    }
    ret := WriteWhole(dev, addr, 16, q.setReceive, q.receive, q, mem);
    if ret != 0 {
      return ret, 2;
    }
    ret := WriteWhole(dev, addr, 24, q.setBlockAll, q.blockAll, q, mem);
    if ret != 0 {
      return ret, 3;
    }
    ret := WriteWhole(dev, addr, 32, q.setBlockUntranslated, q.blockUntranslated, q, mem);
    if ret != 0 {
      return ret, 4;
    }
    ret := WriteOverlay(dev, addr, q, r, mem);
    k := if ret == 0 then 6 else 5;
  }

  lemma CtrlRange(r: Registers)
    requires RegistersFit(r)
    ensures r.capCtrl / 0x1_0000 < 0x1_0000
  {
  }

  method WriteCtrl(dev: Device, addr: nat, q: Request, r: Registers, ghost mem: bytes) returns (ret: int)
    requires addr + CAP_LEN <= |mem| && dev.gas == mem && FieldsOf(r) == At(mem, addr) && RegistersFit(r)
    modifies dev
    ensures |dev.gas| == |mem| && StepsDone(if ret == 0 then 1 else 0, mem, dev.gas, addr, q)
    ensures ret == 0 || dev.Failed(ret)
  {
    hide At, FieldsOf, StepsDone, RegistersFit, Put, Le, Low, High, And, AndNot, Or;
    NothingDone(mem, addr, q);
    ret := 0;
    CtrlRange(r);
    var ctrl := r.capCtrl / 0x1_0000;
    var newCtrl := ctrl;
    if q.enable && !q.disable {
      TopBit(newCtrl);
      newCtrl := Or(newCtrl, 0x8000);
    } else if q.disable {
      TopBit(newCtrl);
      newCtrl := AndNot(newCtrl, 0x8000);
    }
    if SixBits(q.numGroup) {
      PutLow(newCtrl, q.numGroup);
      newCtrl := Or(AndNot(newCtrl, 0x3f), And(q.numGroup, 0x3f));
    }
    CtrlStep(mem, addr, q, r, newCtrl);
    if newCtrl != ctrl {
      ret := dev.Write(addr + 4 + 2, Le(newCtrl, 2));
    }
  }

  method WriteBase(dev: Device, addr: nat, q: Request, r: Registers, ghost mem: bytes) returns (ret: int)
    requires addr + CAP_LEN <= |mem| == |dev.gas| && FieldsOf(r) == At(mem, addr) && RegistersFit(r)
    requires StepsDone(1, mem, dev.gas, addr, q)
    modifies dev
    ensures |dev.gas| == |mem| && StepsDone(if ret == 0 then 2 else 1, mem, dev.gas, addr, q)
    ensures ret == 0 || dev.Failed(ret)
  {
    hide At, FieldsOf, StepsDone, RegistersFit, Put, Le, Low, High, And, AndNot, Or;
    ret := 0;
    if q.setBaseAddr || q.indexPos >= 0 {
      var from: nat := if q.setBaseAddr then q.baseAddr else r.baseAddr;
      var newBase := AndNot(from, 0xfff);
      var idx := if SixBits(q.indexPos) then And(q.indexPos, 0x3f) else And(r.baseAddr, 0x3f);
      Masks(r.baseAddr);
      LowIsSmall(r.baseAddr);
      PutLow(from, if SixBits(q.indexPos) then q.indexPos else Low(r.baseAddr, 0x40));
      newBase := Or(newBase, idx);
      BaseStep(mem, dev.gas, addr, q, r, newBase);
      ret := dev.Write(addr + 8, Le(newBase, 8));
    } else {
      BaseSkipped(mem, dev.gas, addr, q);
    }
  }

  method WriteWhole(dev: Device, addr: nat, off: nat, wanted: bool, v: u64, q: Request, ghost mem: bytes) returns (ret: int)
    requires addr + CAP_LEN <= |mem| == |dev.gas|
    requires (off == 16 && wanted == q.setReceive && v == q.receive)
          || (off == 24 && wanted == q.setBlockAll && v == q.blockAll)
          || (off == 32 && wanted == q.setBlockUntranslated && v == q.blockUntranslated)
    requires StepsDone(off / 8, mem, dev.gas, addr, q)
    modifies dev
    ensures |dev.gas| == |mem| && StepsDone(if ret == 0 then off / 8 + 1 else off / 8, mem, dev.gas, addr, q)
    ensures ret == 0 || dev.Failed(ret)
  {
    hide At, StepsDone, Put, Le;
    ret := 0;
    WholeStep(mem, dev.gas, addr, q, off / 8);
    if wanted {
      ret := dev.Write(addr + off, Le(v, 8));
    }
  }

  method WriteOverlay(dev: Device, addr: nat, q: Request, r: Registers, ghost mem: bytes) returns (ret: int)
    requires addr + CAP_LEN <= |mem| == |dev.gas| && FieldsOf(r) == At(mem, addr) && RegistersFit(r)
    requires StepsDone(5, mem, dev.gas, addr, q)
    modifies dev
    ensures StepsDone(if ret == 0 then 6 else 5, mem, dev.gas, addr, q)
    ensures ret == 0 || dev.Failed(ret)
  {
    hide At, FieldsOf, StepsDone, RegistersFit, Put, Le, Low, High, And, AndNot, Or;
    ret := 0;
    if q.setOverlayBar {
      var size := if SixBits(q.overlaySize) then And(q.overlaySize, 0x3f) else And(r.overlayBar, 0x3f);
      Masks(r.overlayBar);
      LowIsSmall(r.overlayBar);
      PutLow(q.overlayBar, if SixBits(q.overlaySize) then q.overlaySize else Low(r.overlayBar, 0x40));
      var newOverlay := Or(AndNot(q.overlayBar, 0x3f), size);
      OverlayStep(mem, dev.gas, addr, q, r, newOverlay);
      ret := dev.Write(addr + 40, Le(newOverlay, 8));
    } else if q.overlaySize >= 0 {
      Masks(q.overlaySize);
      LowIsSmall(q.overlaySize);
      PutLow(r.overlayBar, Low(q.overlaySize, 0x40));
      var newOverlay := Or(AndNot(r.overlayBar, 0x3f), And(q.overlaySize, 0x3f));
      OverlayStep(mem, dev.gas, addr, q, r, newOverlay);
      ret := dev.Write(addr + 40, Le(newOverlay, 8));
    } else {
      OverlaySkipped(mem, dev.gas, addr, q);
    }
  }

  lemma NothingDone(mem: bytes, addr: nat, q: Request)
    requires addr + CAP_LEN <= |mem|
    ensures StepsDone(0, mem, mem, addr, q)
  {
  }

  /** The control word comes out right, written or, when it is the old one, skipped. */
  lemma CtrlStep(mem: bytes, addr: nat, q: Request, r: Registers, newCtrl: nat)
    requires addr + CAP_LEN <= |mem| && FieldsOf(r) == At(mem, addr) && RegistersFit(r)
    requires var ctrl := r.capCtrl / 0x1_0000;
             var c := if q.enable && !q.disable then Low(ctrl, 0x8000) + 0x8000 else if q.disable then Low(ctrl, 0x8000) else ctrl;
             newCtrl == if SixBits(q.numGroup) then High(c, 0x40) + q.numGroup else c
    ensures newCtrl < 0x1_0000
    ensures StepsDone(1, mem, Put(mem, addr + 4 + 2, Le(newCtrl, 2)), addr, q)
    ensures newCtrl == r.capCtrl / 0x1_0000 ==> StepsDone(1, mem, mem, addr, q)
  {
    var ctrl := r.capCtrl / 0x1_0000;
    hide At, Put, Le, SameAround;
    CtrlFields(ctrl, q.enable, q.disable, if SixBits(q.numGroup) then q.numGroup else -1, newCtrl);
    CtrlWritten(mem, addr, newCtrl);
    assert SameAround(mem, mem, addr) by {
      NothingDone(mem, addr, q);
    }
    PutAround(mem, mem, addr, 6, Le(newCtrl, 2));
    assert Upto(0, At(mem, addr), q) == At(mem, addr);
  }

  lemma CtrlFields(ctrl: nat, enable: bool, disable: bool, group: int, newCtrl: nat)
    requires ctrl < 0x1_0000 && -1 <= group <= 63
    requires var c := if enable && !disable then Low(ctrl, 0x8000) + 0x8000 else if disable then Low(ctrl, 0x8000) else ctrl;
             newCtrl == if group >= 0 then High(c, 0x40) + group else c
    ensures newCtrl < 0x1_0000
    ensures (newCtrl / 0x8000 == 1) == (if disable then false else enable || ctrl / 0x8000 == 1)
    ensures newCtrl / 0x40 % 0x200 == ctrl / 0x40 % 0x200
    ensures newCtrl % 0x40 == if group >= 0 then group else ctrl % 0x40
  {
    var e, reserved, g := ctrl / 0x8000, ctrl / 0x40 % 0x200, ctrl % 0x40;
    CtrlParts(ctrl, e, reserved, g);
    var e' := if enable && !disable then 1 else if disable then 0 else e;
    var c := 0x8000 * e' + 0x40 * reserved + g;
    CtrlParts(c, e', reserved, g);
    CtrlParts(newCtrl, e', reserved, if group >= 0 then group else g);
  }

  lemma CtrlParts(ctrl: nat, enable: nat, reserved: nat, group: nat)
    requires (ctrl == 0x8000 * enable + 0x40 * reserved + group && enable < 2 && reserved < 0x200 && group < 0x40)
          || (ctrl < 0x1_0000 && enable == ctrl / 0x8000 && reserved == ctrl / 0x40 % 0x200 && group == ctrl % 0x40)
    ensures ctrl == 0x8000 * enable + 0x40 * reserved + group && enable < 2 && reserved < 0x200 && group < 0x40
    ensures ctrl < 0x1_0000 && enable == ctrl / 0x8000 && reserved == ctrl / 0x40 % 0x200 && group == ctrl % 0x40
    ensures Low(ctrl, 0x8000) == 0x40 * reserved + group && High(ctrl, 0x40) == 0x8000 * enable + 0x40 * reserved
  {
    var high := ctrl / 0x40;
    assert ctrl == 0x40 * high + ctrl % 0x40;
    assert high / 0x200 == ctrl / 0x8000;
    assert high == 0x200 * (high / 0x200) + high % 0x200;
  }

  lemma BaseStep(mem: bytes, mem': bytes, addr: nat, q: Request, r: Registers, newBase: nat)
    requires addr + CAP_LEN <= |mem| && StepsDone(1, mem, mem', addr, q)
    requires FieldsOf(r) == At(mem, addr) && RegistersFit(r) && WritesBase(q)
    requires newBase == (if q.setBaseAddr then High(q.baseAddr, 0x1000) else High(r.baseAddr, 0x1000))
                      + (if SixBits(q.indexPos) then q.indexPos else Low(r.baseAddr, 0x40))
    ensures newBase <= 0xffff_ffff_ffff_ffff
    ensures StepsDone(2, mem, Put(mem', addr + 8, Le(newBase, 8)), addr, q)
  {
    hide At, Put, Le, SameAround;
    SameLength(mem, mem', addr);
    var addrPart := if q.setBaseAddr then q.baseAddr / 0x1000 else r.baseAddr / 0x1000;
    BaseParts(addrPart, if SixBits(q.indexPos) then q.indexPos else Low(r.baseAddr, 0x40), newBase);
    BaseWritten(mem', addr, newBase);
    PutAround(mem, mem', addr, 8, Le(newBase, 8));
    assert Upto(1, At(mem, addr), q) == SetCtrl(Upto(0, At(mem, addr), q), q);
  }

  lemma BaseParts(addrPart: nat, idx: nat, base: nat)
    requires base == addrPart * 0x1000 + idx && idx < 0x40
    ensures base % 0x40 == idx && base / 0x40 % 0x40 == 0 && base / 0x1000 == addrPart
  {
  }

  lemma SameLength(mem: bytes, mem': bytes, addr: nat)
    requires addr + CAP_LEN <= |mem| && SameAround(mem, mem', addr)
    ensures |mem'| == |mem|
  {
  }

  lemma BaseSkipped(mem: bytes, mem': bytes, addr: nat, q: Request)
    requires addr + CAP_LEN <= |mem| && StepsDone(1, mem, mem', addr, q) && !WritesBase(q)
    ensures StepsDone(2, mem, mem', addr, q)
  {
    hide At, SameAround;
  }

  /** The three registers that are either replaced or left alone. */
  lemma WholeStep(mem: bytes, mem': bytes, addr: nat, q: Request, k: nat)
    requires addr + CAP_LEN <= |mem| && 2 <= k <= 4 && StepsDone(k, mem, mem', addr, q)
    ensures |mem'| == |mem|
    ensures if match k case 2 => q.setReceive case 3 => q.setBlockAll case _ => q.setBlockUntranslated
            then
              StepsDone(k + 1, mem,
                        match k
                        case 2 => Put(mem', addr + 16, Le(q.receive, 8))
                        case 3 => Put(mem', addr + 24, Le(q.blockAll, 8))
                        case _ => Put(mem', addr + 32, Le(q.blockUntranslated, 8)),
                        addr, q)
            else StepsDone(k + 1, mem, mem', addr, q)
  {
    hide At, Put, Le, SameAround;
    SameLength(mem, mem', addr);
    var v := match k case 2 => q.receive case 3 => q.blockAll case _ => q.blockUntranslated;
    WholeWritten(mem', addr, 8 * k, v);
    PutAround(mem, mem', addr, 8 * k, Le(v, 8));
  }

  lemma OverlayStep(mem: bytes, mem': bytes, addr: nat, q: Request, r: Registers, newOverlay: nat)
    requires addr + CAP_LEN <= |mem| && StepsDone(5, mem, mem', addr, q)
    requires FieldsOf(r) == At(mem, addr) && RegistersFit(r) && (q.setOverlayBar || q.overlaySize >= 0)
    requires newOverlay ==
             if q.setOverlayBar
             then High(q.overlayBar, 0x40) + (if SixBits(q.overlaySize) then q.overlaySize else Low(r.overlayBar, 0x40))
             else High(r.overlayBar, 0x40) + Low(q.overlaySize, 0x40)
    ensures newOverlay <= 0xffff_ffff_ffff_ffff
    ensures StepsDone(6, mem, Put(mem', addr + 40, Le(newOverlay, 8)), addr, q)
  {
    hide At, Put, Le, SameAround;
    SameLength(mem, mem', addr);
    OverlayWritten(mem', addr, newOverlay);
    PutAround(mem, mem', addr, 40, Le(newOverlay, 8));
    OverlayUntouched(At(mem, addr), q);
  }

  lemma OverlayUntouched(f: Fields, q: Request)
    ensures Upto(5, f, q).overlaySize == f.overlaySize && Upto(5, f, q).overlayAddr == f.overlayAddr
  {
    UptoSix(f, q);
    assert Upto(1, f, q) == SetCtrl(Upto(0, f, q), q);
    assert Upto(2, f, q) == SetBase(Upto(1, f, q), q);
    assert Upto(3, f, q) == SetReceive(Upto(2, f, q), q);
    assert Upto(4, f, q) == SetBlockAll(Upto(3, f, q), q);
  }

  lemma OverlaySkipped(mem: bytes, mem': bytes, addr: nat, q: Request)
    requires addr + CAP_LEN <= |mem| && StepsDone(5, mem, mem', addr, q) && !q.setOverlayBar && q.overlaySize < 0
    ensures StepsDone(6, mem, mem', addr, q)
  {
    hide At, SameAround;
  }
}
