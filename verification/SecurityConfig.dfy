/** The security configuration word (lib/mfg.c): one 64-bit word per device, laid
    out differently on the two generations, written from settings, read back as
    state, and read from a settings file. */
module SecurityConfig {

  const EINVAL := 22
  const EBADF := 9

  datatype Generation = Gen4 | Gen5

  datatype AttestationMode = NotSupported | None | Dice

  datatype Attestation = Attestation(mode: AttestationMode, cdiMask: bv32, udsSelfgen: bool,
                                     udsValid: bool, udsData: seq<bv8>)

  datatype Settings = Settings(
    lockAfterReset: bool,
    lockAfterBl1: bool,
    bl1UnlockAllowed: bool,
    postBl1UnlockAllowed: bool,
    spiClkRate: real,
    i2cRecoveryTmo: bv32,
    i2cPort: bv32,
    i2cAddr: bv32,
    i2cCmdMap: bv32,
    publicKeyExponent: bv32,
    attn: Attestation)

  /** What a set command carries; the last three are sent on Gen5 only. */
  datatype Command = Command(cfg: bv64, publicKeyExponent: bv32, cdiMask: bv32, udsValid: bool, uds: seq<bv8>)

  datatype Result<T> = Ok(value: T) | Err(code: int)

  // ----- the clock table

  const SPI_CLK_RATE: seq<real> := [100.0, 67.0, 50.0, 40.0, 33.33, 28.57, 25.0, 22.22, 20.0, 18.18]
  const SPI_CLK_HI_RATE: seq<real> := [120.0, 80.0, 60.0, 48.0, 40.0, 34.0, 30.0, 26.67, 24.0, 21.82]

  function Rate(hi: bool, clk: nat): real
    requires 1 <= clk <= 10
  {
    if hi then SPI_CLK_HI_RATE[clk - 1] else SPI_CLK_RATE[clk - 1]
  }

  /** Each rate is the core clock, 240 or 200 MHz, over one more than its number,
      rounded by less than 0.34. */
  lemma RateIsDivider(hi: bool, n: nat)
    requires 1 <= n <= 10
    ensures var core := if hi then 240.0 else 200.0;
            -2.0 <= Rate(hi, n) * (n + 1) as real - core <= 2.0
            && -0.34 < Rate(hi, n) - core / (n + 1) as real < 0.34
  {
    match n
    case 1 => case 2 => case 3 => case 4 => case 5 =>
    case 6 => case 7 => case 8 => case 9 => case _ =>
  }

  predicate Near(x: real, y: real) {
    x < y + 0.1 && x > y - 0.1
  }

  /** The clock number whose rate is within 0.1 of `clk`. */
  method ConvertSpiClkRate(clk: real, hi: bool) returns (n: int)
    ensures n == ClkNumber(clk, hi)
    ensures n == -1 || 1 <= n <= 10
    ensures 1 <= n ==> -0.1 < clk - Rate(hi, n) < 0.1
    ensures forall k :: 1 <= k <= 10 && (n == -1 || k < n) ==> !(-0.1 < clk - Rate(hi, k) < 0.1)
  {
    hide Rate;
    var i := 0;
    while i < 10
      invariant 0 <= i <= 10
      invariant ClkNumber(clk, hi) == ClkNumberFrom(clk, hi, i)
    {
      if Near(clk, Rate(hi, i + 1)) {
        return i + 1;
      }
      i := i + 1;
    }
    return -1;
  }

  function ClkNumberFrom(clk: real, hi: bool, i: nat): (n: int)
    requires i <= 10
    ensures n == -1 || i < n <= 10
    ensures n != -1 ==> Near(clk, Rate(hi, n))
    ensures n == -1 <==> forall j :: i < j <= 10 ==> !Near(clk, Rate(hi, j))
    decreases 10 - i
  {
    if i == 10 then -1
    else if Near(clk, Rate(hi, i + 1)) then i + 1
    else ClkNumberFrom(clk, hi, i + 1)
  }

  function ClkNumber(clk: real, hi: bool): (n: int)
    ensures n == -1 || 0 < n <= 10
    ensures n != -1 ==> Near(clk, Rate(hi, n))
    ensures n == -1 <==> forall j :: 0 < j <= 10 ==> !Near(clk, Rate(hi, j))
  {
    ClkNumberFrom(clk, hi, 0)
  }

  /** No two rates are close enough to be confused. */
  lemma RatesApart(hi: bool, a: nat, b: nat)
    requires 1 <= a < b <= 10
    ensures Rate(hi, a) > Rate(hi, b) + 0.2
  {
  }

  lemma ClkNumberOfRate(hi: bool, n: nat)
    requires 1 <= n <= 10
    ensures ClkNumber(Rate(hi, n), hi) == n
  {
    var m := ClkNumber(Rate(hi, n), hi);
    assert Near(Rate(hi, n), Rate(hi, n));
    if m < n {
      RatesApart(hi, m, n);
    } else if m > n {
      RatesApart(hi, n, m);
    }
  }

  /** A clock number as a four-bit field. */
  function Nibble(n: nat): (b: bv64)
    requires n <= 10
  {
    match n
    case 0 => 0 case 1 => 1 case 2 => 2 case 3 => 3 case 4 => 4 case 5 => 5
    case 6 => 6 case 7 => 7 case 8 => 8 case 9 => 9 case _ => 10
  }

  /** The number in a four-bit field; every value past the table is 11. */
  function NibbleNumber(b: bv64): (n: nat)
    ensures n <= 11
    ensures n <= 10 ==> Nibble(n) == b
  {
    if b == 0 then 0 else if b == 1 then 1 else if b == 2 then 2 else if b == 3 then 3
    else if b == 4 then 4 else if b == 5 then 5 else if b == 6 then 6 else if b == 7 then 7
    else if b == 8 then 8 else if b == 9 then 9 else if b == 10 then 10 else 11
  }

  lemma NumberOfNibble(n: nat)
    requires n <= 10
    ensures NibbleNumber(Nibble(n)) == n && Nibble(n) & 0xf == Nibble(n)
  {
  }

  function DefaultClk(gen: Generation): nat {
    if gen == Gen4 then 7 else 9
  }

  // ----- the word

  function Or(a: bv64, b: bv64): bv64 {
    a | b
  }

  function Flag(b: bool, mask: bv64): bv64 {
    if b then mask else 0
  }

  function ClkField(clk: nat): bv64
    requires clk <= 10
  {
    (Nibble(clk) & 0xf) << 10
  }

  function TmoField(tmo: bv32): bv64 {
    ((tmo & 0xf) as bv64) << 14
  }

  function PortField(port: bv32): bv64 {
    ((port & 0xf) as bv64) << 18
  }

  function AddrField(gen: Generation, addr: bv32): bv64 {
    if gen == Gen5 then ((addr & 0x7f) as bv64) << 23 else ((addr & 0x7f) as bv64) << 22
  }

  function CmdMapField(gen: Generation, cmdMap: bv32): bv64 {
    if gen == Gen5 then ((cmdMap & 0x3fff) as bv64) << 30 else ((cmdMap & 0xfff) as bv64) << 29
  }

  predicate GetBit(cfg: bv64, mask: bv64) {
    cfg & mask != 0
  }

  function GetTmo(cfg: bv64): bv32 {
    ((cfg >> 14) & 0xf) as bv32
  }

  function GetPort(cfg: bv64): bv32 {
    ((cfg >> 18) & 0xf) as bv32
  }

  predicate IsDice(cfg: bv64) {
    (cfg >> 4) & 0x3 == 1
  }

  predicate GetSelfgen(cfg: bv64) {
    (cfg >> 44) & 0x1 != 0
  }

  function GetAddr(gen: Generation, cfg: bv64): bv32 {
    if gen == Gen5 then ((cfg >> 23) & 0x7f) as bv32 else ((cfg >> 22) & 0x7f) as bv32
  }

  function GetCmdMap(gen: Generation, cfg: bv64): bv32 {
    if gen == Gen5 then ((cfg >> 30) & 0x3fff) as bv32 else ((cfg >> 29) & 0xfff) as bv32
  }

  /** The part of the word both generations share in form. */
  function BasicWord(gen: Generation, s: Settings, clk: nat): bv64
    requires clk <= 10
  {
    Or(Or(Or(Or(Or(Or(Or(Or(
      Flag(s.lockAfterReset, 0x40),
      Flag(s.lockAfterBl1, 0x80)),
      Flag(s.bl1UnlockAllowed, 0x100)),
      Flag(s.postBl1UnlockAllowed, 0x200)),
      ClkField(clk)),
      TmoField(s.i2cRecoveryTmo)),
      PortField(s.i2cPort)),
      AddrField(gen, s.i2cAddr)),
      CmdMapField(gen, s.i2cCmdMap))
  }

  /** The attestation fields, kept only in DICE mode. */
  function AddAttestation(cfg: bv64, attn: Attestation): bv64 {
    if attn.mode == Dice then Or(Or(cfg, 0x10), Flag(attn.udsSelfgen, 0x1000_0000_0000)) else cfg
  }

  /** The command for `s`, on a device whose core clock runs high or not. */
  function SetCommand(gen: Generation, hi: bool, s: Settings): Result<Command> {
    if gen == Gen4 && s.attn.mode != NotSupported then Err(-EINVAL)
    else
      var clk := ClkNumber(s.spiClkRate, hi);
      if clk < 0 then Err(-1)
      else if gen == Gen4 then Ok(Command(BasicWord(gen, s, clk), s.publicKeyExponent, 0, false, []))
      else
        var dice := s.attn.mode == Dice;
        Ok(Command(AddAttestation(BasicWord(gen, s, clk), s.attn), s.publicKeyExponent,
                   if dice then s.attn.cdiMask else 0,
                   dice && s.attn.udsValid,
                   if dice && s.attn.udsValid then s.attn.udsData else []))
  }

  /** The state a device reports. */
  datatype State = State(
    lockAfterReset: bool,
    lockAfterBl1: bool,
    bl1UnlockAllowed: bool,
    postBl1UnlockAllowed: bool,
    spiClkRate: real,
    i2cRecoveryTmo: bv32,
    i2cPort: bv32,
    i2cAddr: bv32,
    i2cCmdMap: bv32,
    publicKeyExponent: bv32,
    attestationMode: AttestationMode,
    udsSelfgen: bool,
    cdiMask: bv32)

  function ClkOf(gen: Generation, cfg: bv64): (n: nat)
    ensures 1 <= n <= 11
  {
    var n := NibbleNumber((cfg >> 10) & 0xf);
    if n == 0 then DefaultClk(gen) else n
  }

  /** What the getters make of a word whose clock field lies within the table. */
  function StateOf(gen: Generation, hi: bool, c: Command): State
    requires ClkOf(gen, c.cfg) <= 10
  {
    State(GetBit(c.cfg, 0x40), GetBit(c.cfg, 0x80), GetBit(c.cfg, 0x100), GetBit(c.cfg, 0x200),
          Rate(hi, ClkOf(gen, c.cfg)), GetTmo(c.cfg), GetPort(c.cfg),
          GetAddr(gen, c.cfg), GetCmdMap(gen, c.cfg), c.publicKeyExponent,
          if gen == Gen4 then NotSupported else if IsDice(c.cfg) then Dice else None,
          gen == Gen5 && GetSelfgen(c.cfg),
          if gen == Gen5 then c.cdiMask else 0)
  }

  /** What the getter answers for clock number 0, in MHz. */
  lemma DefaultRate(gen: Generation, hi: bool, c: Command)
    requires (c.cfg >> 10) & 0xf == 0
    ensures ClkOf(gen, c.cfg) <= 10
    ensures StateOf(gen, hi, c).spiClkRate ==
            match gen
            case Gen4 => (if hi then 30.0 else 25.0)
            case Gen5 => (if hi then 24.0 else 20.0)
  {
    hide GetBit, GetTmo, GetPort, GetAddr, GetCmdMap, IsDice, GetSelfgen;
  }

  /** Attestation as the getter answers it, for any word. */
  lemma StateAttestation(hi: bool, c: Command)
    requires ClkOf(Gen5, c.cfg) <= 10
    ensures var state := StateOf(Gen5, hi, c);
            && state.attestationMode == (if (c.cfg >> 4) & 0x3 == 1 then Dice else None)
            && state.udsSelfgen == ((c.cfg >> 44) & 0x1 == 1) && state.cdiMask == c.cdiMask
  {
    hide GetBit, GetTmo, GetPort, GetAddr, GetCmdMap, ClkOf, Rate;
  }

  // ----- the device

  /** The fields are or-ed into the word one after the other. */
  method AssembleWord(gen: Generation, setting: Settings, spiClk: nat) returns (cfg: bv64)
    requires spiClk <= 10
    ensures cfg == BasicWord(gen, setting, spiClk)
  {
    hide Or, Flag, ClkField, TmoField, PortField, AddrField, CmdMapField;
    cfg := Flag(setting.lockAfterReset, 0x40);
    cfg := Or(cfg, Flag(setting.lockAfterBl1, 0x80));
    cfg := Or(cfg, Flag(setting.bl1UnlockAllowed, 0x100));
    cfg := Or(cfg, Flag(setting.postBl1UnlockAllowed, 0x200));
    cfg := Or(cfg, ClkField(spiClk));
    cfg := Or(cfg, TmoField(setting.i2cRecoveryTmo));
    cfg := Or(cfg, PortField(setting.i2cPort));
    cfg := Or(cfg, AddrField(gen, setting.i2cAddr));
    cfg := Or(cfg, CmdMapField(gen, setting.i2cCmdMap));
  }

  class Device {
    const gen: Generation
    const spiCoreClkHigh: bool
    var stored: Command

    constructor (gen: Generation, spiCoreClkHigh: bool)
      ensures this.gen == gen && this.spiCoreClkHigh == spiCoreClkHigh
    {
      this.gen := gen;
      this.spiCoreClkHigh := spiCoreClkHigh;
      stored := Command(0, 0, 0, false, []);
    }

    /** security_config_set_gen4 and _gen5. `getRet` and `setRet` are the device's
        answers to the two commands; it stores the word when it accepts it. */
    method SecurityConfigSet(setting: Settings, getRet: int, setRet: int) returns (ret: int)
      modifies this
      ensures var cmd := SetCommand(gen, spiCoreClkHigh, setting);
              if gen == Gen4 && setting.attn.mode != NotSupported then ret == -22 && stored == old(stored)
              else if getRet != 0 then ret == getRet && stored == old(stored)
              else if ClkNumber(setting.spiClkRate, spiCoreClkHigh) == -1 then ret == -1 && stored == old(stored)
              else cmd.Ok? && ret == setRet && stored == if setRet == 0 then cmd.value else old(stored)
    {
      hide ClkNumber, BasicWord, Or, Flag;
      if gen == Gen4 && setting.attn.mode != NotSupported {
        return -EINVAL;
      }
      if getRet != 0 {
        return getRet;
      }
      var spiClk := ConvertSpiClkRate(setting.spiClkRate, spiCoreClkHigh);
      if spiClk < 0 {
        return -1;
      }
      var cfg := AssembleWord(gen, setting, spiClk);
      var cmd := Command(cfg, setting.publicKeyExponent, 0, false, []);
      if gen == Gen5 && setting.attn.mode == Dice {
        cfg := Or(cfg, 0x10);
        cfg := Or(cfg, Flag(setting.attn.udsSelfgen, 0x1000_0000_0000));
        cmd := cmd.(cfg := cfg, cdiMask := setting.attn.cdiMask, udsValid := setting.attn.udsValid);
        if cmd.udsValid {
          cmd := cmd.(uds := setting.attn.udsData);
        }
      }
      if setRet == 0 {
        stored := cmd;
      }
      return setRet;
    }

    /** security_config_get and _gen5. The clock number indexes the rate table
        unchecked: from 11 on the source reads past it, and the model stops. */
    method SecurityConfigGet(getRet: int) returns (ret: int, state: State, inside: bool)
      ensures inside <==> getRet != 0 || ClkOf(gen, stored.cfg) <= 10
      ensures inside ==> ret == getRet
      ensures inside && getRet == 0 ==> state == StateOf(gen, spiCoreClkHigh, stored)
    {
      hide GetBit, GetTmo, GetPort, GetAddr, GetCmdMap, ClkOf, GetSelfgen, IsDice;
      state := State(false, false, false, false, 0.0, 0, 0, 0, 0, 0, NotSupported, false, 0);
      if getRet != 0 {
        return getRet, state, true;
      }
      var cfg := stored.cfg;
      state := state.(lockAfterReset := GetBit(cfg, 0x40), lockAfterBl1 := GetBit(cfg, 0x80));
      state := state.(bl1UnlockAllowed := GetBit(cfg, 0x100), postBl1UnlockAllowed := GetBit(cfg, 0x200));
      var spiClk := ClkOf(gen, cfg);
      if spiClk > 10 {
        return 0, state, false;
      }
      state := state.(spiClkRate := Rate(spiCoreClkHigh, spiClk));
      state := state.(i2cRecoveryTmo := GetTmo(cfg), i2cPort := GetPort(cfg));
      state := state.(i2cAddr := GetAddr(gen, cfg), i2cCmdMap := GetCmdMap(gen, cfg));
      state := state.(publicKeyExponent := stored.publicKeyExponent);
      if gen == Gen5 {
        state := state.(attestationMode := if IsDice(cfg) then Dice else None);
        state := state.(udsSelfgen := GetSelfgen(cfg), cdiMask := stored.cdiMask);
      }
      return 0, state, true;
    }
  }

  // ----- settings files

  /** The body of a settings file; a file too short to hold it cannot be read. */
  datatype FileBody = FileBody(cfg: bv64, publicKeyExponent: bv32, cdiMask: bv32) | TooShort

  const NO_ATTESTATION := Attestation(NotSupported, 0, false, false, [])

  function FileAttestation(gen: Generation, f: FileBody): Attestation
    requires f.FileBody?
  {
    if gen == Gen4 then NO_ATTESTATION
    else if IsDice(f.cfg) then Attestation(Dice, f.cdiMask, GetSelfgen(f.cfg), false, [])
    else NO_ATTESTATION.(mode := None)
  }

  function FileSettings(gen: Generation, hi: bool, f: FileBody): Result<Settings> {
    if f.TooShort? then Err(-EBADF)
    else if ClkOf(gen, f.cfg) > 10 then Err(-EINVAL)
    else
      Ok(Settings(GetBit(f.cfg, 0x40), GetBit(f.cfg, 0x80), GetBit(f.cfg, 0x100), GetBit(f.cfg, 0x200),
                  Rate(hi, ClkOf(gen, f.cfg)), GetTmo(f.cfg), GetPort(f.cfg),
                  GetAddr(gen, f.cfg), GetCmdMap(gen, f.cfg), f.publicKeyExponent, FileAttestation(gen, f)))
  }

  lemma ClkInTable(gen: Generation, w: bv64)
    ensures ClkOf(gen, w) > 10 <==> (w >> 10) & 0xf > 10
  {
  }

  /** read_sec_cfg_file and read_sec_cfg_file_gen5, after the header check. */
  method ReadSecCfgFile(gen: Generation, hi: bool, getRet: int, file: FileBody) returns (r: Result<Settings>)
    ensures r == if getRet != 0 then Err(getRet) else FileSettings(gen, hi, file)
    ensures getRet == 0 && file.TooShort? ==> r == Err(-9)
    ensures getRet == 0 && file.FileBody? ==> ((file.cfg >> 10) & 0xf > 10 <==> r.Err?) && (r.Err? ==> r == Err(-22))
  {
    hide GetBit, GetTmo, GetPort, GetAddr, GetCmdMap, ClkOf, GetSelfgen, IsDice;
    if file.FileBody? {
      ClkInTable(gen, file.cfg);
    }
    if getRet != 0 {
      return Err(getRet);
    }
    var settings := Settings(false, false, false, false, 0.0, 0, 0, 0, 0, 0, NO_ATTESTATION);
    if file.TooShort? {
      return Err(-EBADF);
    }
    settings := settings.(lockAfterReset := GetBit(file.cfg, 0x40));
    settings := settings.(lockAfterBl1 := GetBit(file.cfg, 0x80));
    settings := settings.(bl1UnlockAllowed := GetBit(file.cfg, 0x100));
    settings := settings.(postBl1UnlockAllowed := GetBit(file.cfg, 0x200));
    var spiClk := ClkOf(gen, file.cfg);
    if spiClk > 10 {
      return Err(-EINVAL);
    }
    settings := settings.(spiClkRate := Rate(hi, spiClk));
    settings := settings.(i2cRecoveryTmo := GetTmo(file.cfg));
    settings := settings.(i2cPort := GetPort(file.cfg));
    settings := settings.(i2cAddr := GetAddr(gen, file.cfg));
    settings := settings.(i2cCmdMap := GetCmdMap(gen, file.cfg));
    settings := settings.(publicKeyExponent := file.publicKeyExponent);
    if gen == Gen5 {
      if IsDice(file.cfg) {
        settings := settings.(attn := settings.attn.(mode := Dice, cdiMask := file.cdiMask, udsSelfgen := GetSelfgen(file.cfg)));
      } else {
        settings := settings.(attn := settings.attn.(mode := None));
      }
    }
    return Ok(settings);
  }

  function Keep4(w: bv64, clk: bv64): bv64 {
    (w & 0x1ff_ffff_c3c0) | clk
  }

  function Keep5(w: bv64, clk: bv64, attn: bv64): bv64 {
    (w & 0xfff_ffbf_c3c0) | clk | attn
  }

  function KeepAttestation(w: bv64): bv64 {
    if IsDice(w) then 0x10 | (w & 0x1000_0000_0000) else 0
  }

  /** A file word restricted to the fields the generation defines, with the
      default clock in place of 0 and attestation kept in DICE mode only. */
  function Kept(gen: Generation, w: bv64): bv64
    requires ClkOf(gen, w) <= 10
  {
    if gen == Gen4 then Keep4(w, ClkField(ClkOf(gen, w)))
    else Keep5(w, ClkField(ClkOf(gen, w)), KeepAttestation(w))
  }

  // ----- the fields of a word, each in its place

  datatype Fields = Fields(reset: bv64, bl1: bv64, unlock: bv64, postUnlock: bv64, clk: bv64, tmo: bv64,
                           port: bv64, addr: bv64, cmdMap: bv64, attestation: bv64, rest: bv64)

  function Split4(w: bv64): Fields {
    Fields(w & 0x40, w & 0x80, w & 0x100, w & 0x200, w & 0x3c00, w & 0x3_c000, w & 0x3c_0000,
           w & 0x1fc0_0000, w & 0x1ff_e000_0000, w & 0x1000_0000_0030, w & 0xffff_ee00_0000_000f)
  }

  function Split5(w: bv64): Fields {
    Fields(w & 0x40, w & 0x80, w & 0x100, w & 0x200, w & 0x3c00, w & 0x3_c000, w & 0x3c_0000,
           w & 0x3f80_0000, w & 0xfff_c000_0000, w & 0x1000_0000_0030, w & 0xffff_e000_0040_000f)
  }

  function Split(gen: Generation, w: bv64): Fields {
    if gen == Gen4 then Split4(w) else Split5(w)
  }

  /** No two fields overlap, and together they make up the word. */
  lemma SplitInjective(gen: Generation, v: bv64, w: bv64)
    requires Split(gen, v) == Split(gen, w)
    ensures v == w
  {
    hide Split4, Split5;
    if gen == Gen4 {
      Split4Injective(v, w);
    } else {
      Split5Injective(v, w);
    }
  }

  lemma Split4Injective(v: bv64, w: bv64)
    requires Split4(v) == Split4(w)
    ensures v == w
  {
  }

  lemma Split5Injective(v: bv64, w: bv64)
    requires Split5(v) == Split5(w)
    ensures v == w
  {
  }

  lemma FlagInPlace(b: bool, w: bv64, m: bv64)
    requires m == 0x40 || m == 0x80 || m == 0x100 || m == 0x200
    ensures Flag(b, m) & !m == 0
    ensures GetBit(w, m) <==> w & m == m
    ensures Flag(GetBit(w, m), m) == w & m
    ensures w & m == Flag(b, m) ==> GetBit(w, m) == b
  {
  }

  lemma ClkInPlace(clk: nat, w: bv64)
    requires clk <= 10
    ensures ClkField(clk) & !0x3c00 == 0
    ensures w & 0x3c00 == ClkField(clk) ==> (w >> 10) & 0xf == Nibble(clk)
    ensures (w >> 10) & 0xf == Nibble(clk) ==> w & 0x3c00 == ClkField(clk)
  {
    NumberOfNibble(clk);
    ClkBits(Nibble(clk), w);
  }

  lemma ClkBits(b: bv64, w: bv64)
    requires b & 0xf == b
    ensures ((b & 0xf) << 10) & !0x3c00 == 0
    ensures w & 0x3c00 == (b & 0xf) << 10 ==> (w >> 10) & 0xf == b
    ensures (w >> 10) & 0xf == b ==> w & 0x3c00 == (b & 0xf) << 10
  {
  }

  lemma TmoInPlace(v: bv32, w: bv64)
    ensures TmoField(v) & !0x3_c000 == 0
    ensures TmoField(GetTmo(w)) == w & 0x3_c000
    ensures w & 0x3_c000 == TmoField(v) ==> GetTmo(w) == v & 0xf
  {
  }

  lemma PortInPlace(v: bv32, w: bv64)
    ensures PortField(v) & !0x3c_0000 == 0
    ensures PortField(GetPort(w)) == w & 0x3c_0000
    ensures w & 0x3c_0000 == PortField(v) ==> GetPort(w) == v & 0xf
  {
  }

  lemma AddrInPlace4(v: bv32, w: bv64)
    ensures AddrField(Gen4, v) & !0x1fc0_0000 == 0
    ensures AddrField(Gen4, GetAddr(Gen4, w)) == w & 0x1fc0_0000
    ensures w & 0x1fc0_0000 == AddrField(Gen4, v) ==> GetAddr(Gen4, w) == v & 0x7f
  {
  }

  lemma AddrInPlace5(v: bv32, w: bv64)
    ensures AddrField(Gen5, v) & !0x3f80_0000 == 0
    ensures AddrField(Gen5, GetAddr(Gen5, w)) == w & 0x3f80_0000
    ensures w & 0x3f80_0000 == AddrField(Gen5, v) ==> GetAddr(Gen5, w) == v & 0x7f
  {
  }

  lemma CmdMapInPlace4(v: bv32, w: bv64)
    ensures CmdMapField(Gen4, v) & !0x1ff_e000_0000 == 0
    ensures CmdMapField(Gen4, GetCmdMap(Gen4, w)) == w & 0x1ff_e000_0000
    ensures w & 0x1ff_e000_0000 == CmdMapField(Gen4, v) ==> GetCmdMap(Gen4, w) == v & 0xfff
  {
  }

  lemma CmdMapInPlace5(v: bv32, w: bv64)
    ensures CmdMapField(Gen5, v) & !0xfff_c000_0000 == 0
    ensures CmdMapField(Gen5, GetCmdMap(Gen5, w)) == w & 0xfff_c000_0000
    ensures w & 0xfff_c000_0000 == CmdMapField(Gen5, v) ==> GetCmdMap(Gen5, w) == v & 0x3fff
  {
  }

  lemma OrParts4(a: bv64, b: bv64, c: bv64, d: bv64, clk: bv64, tmo: bv64, port: bv64, addr: bv64, cmdMap: bv64)
    requires a & !0x40 == 0 && b & !0x80 == 0 && c & !0x100 == 0 && d & !0x200 == 0
    requires clk & !0x3c00 == 0 && tmo & !0x3_c000 == 0 && port & !0x3c_0000 == 0
    requires addr & !0x1fc0_0000 == 0 && cmdMap & !0x1ff_e000_0000 == 0
    ensures Split4(Or(Or(Or(Or(Or(Or(Or(Or(a, b), c), d), clk), tmo), port), addr), cmdMap)) ==
            Fields(a, b, c, d, clk, tmo, port, addr, cmdMap, 0, 0)
  {
  }

  lemma OrParts5(a: bv64, b: bv64, c: bv64, d: bv64, clk: bv64, tmo: bv64, port: bv64, addr: bv64, cmdMap: bv64)
    requires a & !0x40 == 0 && b & !0x80 == 0 && c & !0x100 == 0 && d & !0x200 == 0
    requires clk & !0x3c00 == 0 && tmo & !0x3_c000 == 0 && port & !0x3c_0000 == 0
    requires addr & !0x3f80_0000 == 0 && cmdMap & !0xfff_c000_0000 == 0
    ensures Split5(Or(Or(Or(Or(Or(Or(Or(Or(a, b), c), d), clk), tmo), port), addr), cmdMap)) ==
            Fields(a, b, c, d, clk, tmo, port, addr, cmdMap, 0, 0)
  {
  }

  function SettingFields(gen: Generation, s: Settings, clk: nat): Fields
    requires clk <= 10
  {
    Fields(Flag(s.lockAfterReset, 0x40), Flag(s.lockAfterBl1, 0x80), Flag(s.bl1UnlockAllowed, 0x100),
           Flag(s.postBl1UnlockAllowed, 0x200), ClkField(clk), TmoField(s.i2cRecoveryTmo),
           PortField(s.i2cPort), AddrField(gen, s.i2cAddr), CmdMapField(gen, s.i2cCmdMap), 0, 0)
  }

  /** The assembled word holds every setting in its own field and nothing else. */
  lemma BasicWordSplits4(s: Settings, clk: nat)
    requires clk <= 10
    ensures Split4(BasicWord(Gen4, s, clk)) == SettingFields(Gen4, s, clk)
  {
    hide Or, Flag, ClkField, TmoField, PortField, AddrField, CmdMapField, Split4, Split5, GetBit, GetTmo, GetPort, GetAddr, GetCmdMap, Nibble;
    FlagInPlace(s.lockAfterReset, 0, 0x40);
    FlagInPlace(s.lockAfterBl1, 0, 0x80);
    FlagInPlace(s.bl1UnlockAllowed, 0, 0x100);
    FlagInPlace(s.postBl1UnlockAllowed, 0, 0x200);
    ClkInPlace(clk, 0);
    TmoInPlace(s.i2cRecoveryTmo, 0);
    PortInPlace(s.i2cPort, 0);
    AddrInPlace4(s.i2cAddr, 0);
    CmdMapInPlace4(s.i2cCmdMap, 0);
    OrParts4(Flag(s.lockAfterReset, 0x40), Flag(s.lockAfterBl1, 0x80), Flag(s.bl1UnlockAllowed, 0x100),
             Flag(s.postBl1UnlockAllowed, 0x200), ClkField(clk), TmoField(s.i2cRecoveryTmo),
             PortField(s.i2cPort), AddrField(Gen4, s.i2cAddr), CmdMapField(Gen4, s.i2cCmdMap));
  }

  lemma BasicWordSplits5(s: Settings, clk: nat)
    requires clk <= 10
    ensures Split5(BasicWord(Gen5, s, clk)) == SettingFields(Gen5, s, clk)
  {
    hide Or, Flag, ClkField, TmoField, PortField, AddrField, CmdMapField, Split4, Split5, GetBit, GetTmo, GetPort, GetAddr, GetCmdMap, Nibble;
    FlagInPlace(s.lockAfterReset, 0, 0x40);
    FlagInPlace(s.lockAfterBl1, 0, 0x80);
    FlagInPlace(s.bl1UnlockAllowed, 0, 0x100);
    FlagInPlace(s.postBl1UnlockAllowed, 0, 0x200);
    ClkInPlace(clk, 0);
    TmoInPlace(s.i2cRecoveryTmo, 0);
    PortInPlace(s.i2cPort, 0);
    AddrInPlace5(s.i2cAddr, 0);
    CmdMapInPlace5(s.i2cCmdMap, 0);
    OrParts5(Flag(s.lockAfterReset, 0x40), Flag(s.lockAfterBl1, 0x80), Flag(s.bl1UnlockAllowed, 0x100),
             Flag(s.postBl1UnlockAllowed, 0x200), ClkField(clk), TmoField(s.i2cRecoveryTmo),
             PortField(s.i2cPort), AddrField(Gen5, s.i2cAddr), CmdMapField(Gen5, s.i2cCmdMap));
  }

  function AttestationField(attn: Attestation): bv64 {
    if attn.mode == Dice then (if attn.udsSelfgen then 0x1000_0000_0010 else 0x10) else 0
  }

  lemma SplitAt4(w: bv64)
    ensures var f := Split4(w);
            && f.reset == w & 0x40 && f.bl1 == w & 0x80 && f.unlock == w & 0x100 && f.postUnlock == w & 0x200
            && f.clk == w & 0x3c00 && f.tmo == w & 0x3_c000 && f.port == w & 0x3c_0000
            && f.addr == w & 0x1fc0_0000 && f.cmdMap == w & 0x1ff_e000_0000
            && f.attestation == w & 0x1000_0000_0030 && f.rest == w & 0xffff_ee00_0000_000f
  {
  }

  lemma SplitAt5(w: bv64)
    ensures var f := Split5(w);
            && f.reset == w & 0x40 && f.bl1 == w & 0x80 && f.unlock == w & 0x100 && f.postUnlock == w & 0x200
            && f.clk == w & 0x3c00 && f.tmo == w & 0x3_c000 && f.port == w & 0x3c_0000
            && f.addr == w & 0x3f80_0000 && f.cmdMap == w & 0xfff_c000_0000
            && f.attestation == w & 0x1000_0000_0030 && f.rest == w & 0xffff_e000_0040_000f
  {
  }

  lemma SplitDiceRaw(w: bv64)
    requires Split5(w).attestation == 0
    ensures Split5(w | 0x10) == Split5(w).(attestation := 0x10)
  {
    hide Split5;
    SplitAt5(w);
    SplitAt5(w | 0x10);
  }

  lemma SplitDice(w: bv64)
    requires Split5(w).attestation == 0
    ensures Split5(Or(w, 0x10)) == Split5(w).(attestation := 0x10)
  {
    hide Split5;
    SplitDiceRaw(w);
  }

  lemma SplitSelfgenRaw(w: bv64)
    requires Split5(w).attestation == 0x10
    ensures Split5(w | 0x1000_0000_0000) == Split5(w).(attestation := 0x1000_0000_0010)
  {
    hide Split5;
    SplitAt5(w);
    SplitAt5(w | 0x1000_0000_0000);
  }

  lemma SplitSelfgen(w: bv64, b: bool)
    requires Split5(w).attestation == 0x10
    ensures Split5(Or(w, Flag(b, 0x1000_0000_0000))) ==
            Split5(w).(attestation := if b then 0x1000_0000_0010 else 0x10)
  {
    hide Split5;
    if b {
      SplitSelfgenRaw(w);
    } else {
      assert Or(w, Flag(b, 0x1000_0000_0000)) == w;
    }
  }

  /** Adding the attestation bits touches no other field. */
  lemma AttestationSplits(w: bv64, attn: Attestation)
    requires Split5(w).attestation == 0
    ensures Split5(AddAttestation(w, attn)) == Split5(w).(attestation := AttestationField(attn))
  {
    hide Split5, Or, Flag;
    if attn.mode == Dice {
      SplitDice(w);
      SplitSelfgen(Or(w, 0x10), attn.udsSelfgen);
    }
  }

  /** The fields of a whole command word. */
  lemma CommandSplits(gen: Generation, hi: bool, s: Settings)
    requires SetCommand(gen, hi, s).Ok?
    ensures var n := ClkNumber(s.spiClkRate, hi);
            && 1 <= n <= 10
            && Split(gen, SetCommand(gen, hi, s).value.cfg) ==
                 SettingFields(gen, s, n).(attestation := AttestationField(s.attn))
  {
    hide Or, Flag, Split4, Split5, SettingFields, BasicWord, AddAttestation;
    var n := ClkNumber(s.spiClkRate, hi);
    if gen == Gen4 {
      BasicWordSplits4(s, n);
      NoAttestation(Gen4, s, n);
    } else {
      BasicWordSplits5(s, n);
      NoAttestation(Gen5, s, n);
      AttestationSplits(BasicWord(Gen5, s, n), s.attn);
    }
  }

  lemma NoAttestation(gen: Generation, s: Settings, clk: nat)
    requires clk <= 10
    ensures SettingFields(gen, s, clk).attestation == 0
    ensures SettingFields(gen, s, clk).(attestation := 0) == SettingFields(gen, s, clk)
  {
  }

  // ----- what the codec promises

  predicate FlagsInBits(w: bv64, s: Settings) {
    && (w & 0x40 != 0) == s.lockAfterReset && (w & 0x80 != 0) == s.lockAfterBl1
    && (w & 0x100 != 0) == s.bl1UnlockAllowed && (w & 0x200 != 0) == s.postBl1UnlockAllowed
  }

  predicate NumbersInBits4(w: bv64, s: Settings) {
    && ((w >> 14) & 0xf) as bv32 == s.i2cRecoveryTmo & 0xf && ((w >> 18) & 0xf) as bv32 == s.i2cPort & 0xf
    && ((w >> 22) & 0x7f) as bv32 == s.i2cAddr & 0x7f && ((w >> 29) & 0xfff) as bv32 == s.i2cCmdMap & 0xfff
  }

  predicate NumbersInBits5(w: bv64, s: Settings) {
    && ((w >> 14) & 0xf) as bv32 == s.i2cRecoveryTmo & 0xf && ((w >> 18) & 0xf) as bv32 == s.i2cPort & 0xf
    && ((w >> 23) & 0x7f) as bv32 == s.i2cAddr & 0x7f && ((w >> 30) & 0x3fff) as bv32 == s.i2cCmdMap & 0x3fff
  }

  predicate AttestationInBits(w: bv64, attn: Attestation) {
    && ((w >> 4) & 0x3 == 1) == (attn.mode == Dice)
    && ((w >> 44) & 0x1 != 0) == (attn.mode == Dice && attn.udsSelfgen)
  }

  predicate ClockInBits(w: bv64, n: nat) {
    1 <= n <= 10 && (w >> 10) & 0xf == [0, 1, 2, 3, 4, 5, 6, 7, 8, 9, 10][n]
  }

  predicate NothingElseSet(gen: Generation, w: bv64) {
    w & !(if gen == Gen4 then 0x1ff_ffff_ffc0 else 0x1fff_ffbf_ffd0) == 0
  }

  /** The command for accepted settings, bit by bit: nothing but these fields is set. */
  lemma CommandInBits(gen: Generation, hi: bool, s: Settings)
    requires SetCommand(gen, hi, s).Ok?
    ensures WordOf(gen, SetCommand(gen, hi, s).value.cfg, s, ClkNumber(s.spiClkRate, hi))
  {
    SetGen4(gen, hi, s);
    CommandSplits(gen, hi, s);
    hide WordOf, Split, SettingFields, AttestationField, SetCommand, Near, Rate;
    WordInBits(gen, SetCommand(gen, hi, s).value.cfg, s, ClkNumber(s.spiClkRate, hi));
  }

  predicate WordOf(gen: Generation, w: bv64, s: Settings, n: int) {
    && FlagsInBits(w, s)
    && (if gen == Gen4 then NumbersInBits4(w, s) else NumbersInBits5(w, s))
    && AttestationInBits(w, s.attn)
    && n >= 0 && ClockInBits(w, n)
    && NothingElseSet(gen, w)
  }

  lemma WordInBits(gen: Generation, w: bv64, s: Settings, n: nat)
    requires 1 <= n <= 10 && Split(gen, w) == SettingFields(gen, s, n).(attestation := AttestationField(s.attn))
    requires gen == Gen4 ==> s.attn.mode == NotSupported
    ensures WordOf(gen, w, s, n)
  {
    hide Split, SettingFields, AttestationField, FlagsInBits, NumbersInBits4, NumbersInBits5, AttestationInBits,
         ClockInBits, NothingElseSet;
    WordFlags(gen, w, s, n);
    if gen == Gen4 {
      WordNumbers4(w, s, n);
    } else {
      WordNumbers5(w, s, n);
    }
    WordAttestation(gen, w, s, n);
    WordClock(gen, w, s, n);
    WordRest(gen, w, s, n);
  }

  lemma SetGen4(gen: Generation, hi: bool, s: Settings)
    requires SetCommand(gen, hi, s).Ok?
    ensures gen == Gen4 ==> s.attn.mode == NotSupported
  {
  }

  lemma WordFlags(gen: Generation, w: bv64, s: Settings, n: nat)
    requires 1 <= n <= 10 && Split(gen, w) == SettingFields(gen, s, n).(attestation := AttestationField(s.attn))
    ensures FlagsInBits(w, s)
  {
    GettersRecover(gen, w, s, n);
    hide Split, SettingFields, GetTmo, GetPort, GetAddr, GetCmdMap, IsDice, GetSelfgen, ClkOf, AttestationField;
  }

  lemma WordNumbers4(w: bv64, s: Settings, n: nat)
    requires 1 <= n <= 10 && Split(Gen4, w) == SettingFields(Gen4, s, n).(attestation := AttestationField(s.attn))
    ensures NumbersInBits4(w, s)
  {
    GettersRecover(Gen4, w, s, n);
    hide Split, SettingFields, GetBit, IsDice, GetSelfgen, ClkOf, AttestationField;
  }

  lemma WordNumbers5(w: bv64, s: Settings, n: nat)
    requires 1 <= n <= 10 && Split(Gen5, w) == SettingFields(Gen5, s, n).(attestation := AttestationField(s.attn))
    ensures NumbersInBits5(w, s)
  {
    GettersRecover(Gen5, w, s, n);
    hide Split, SettingFields, GetBit, IsDice, GetSelfgen, ClkOf, AttestationField;
  }

  lemma WordAttestation(gen: Generation, w: bv64, s: Settings, n: nat)
    requires 1 <= n <= 10 && Split(gen, w) == SettingFields(gen, s, n).(attestation := AttestationField(s.attn))
    ensures AttestationInBits(w, s.attn)
  {
    GettersRecover(gen, w, s, n);
    hide Split, SettingFields, GetBit, GetTmo, GetPort, GetAddr, GetCmdMap, ClkOf, AttestationField;
  }

  lemma WordClock(gen: Generation, w: bv64, s: Settings, n: nat)
    requires 1 <= n <= 10 && Split(gen, w) == SettingFields(gen, s, n).(attestation := AttestationField(s.attn))
    ensures ClockInBits(w, n)
  {
    ClkPart(gen, w, s, n);
    ClkInPlace(n, w);
    NibbleInBits(n);
    hide Split, SettingFields, ClkField, Nibble, AttestationField;
  }

  lemma ClkPart(gen: Generation, w: bv64, s: Settings, n: nat)
    requires n <= 10 && Split(gen, w) == SettingFields(gen, s, n).(attestation := AttestationField(s.attn))
    ensures w & 0x3c00 == ClkField(n)
  {
    hide ClkField, Flag, TmoField, PortField, AddrField, CmdMapField, AttestationField, Split4, Split5;
    if gen == Gen4 {
      SplitAt4(w);
    } else {
      SplitAt5(w);
    }
  }

  lemma NibbleInBits(n: nat)
    requires n <= 10
    ensures Nibble(n) == [0, 1, 2, 3, 4, 5, 6, 7, 8, 9, 10][n]
  {
  }

  lemma WordRest(gen: Generation, w: bv64, s: Settings, n: nat)
    requires 1 <= n <= 10 && Split(gen, w) == SettingFields(gen, s, n).(attestation := AttestationField(s.attn))
    requires gen == Gen4 ==> s.attn.mode == NotSupported
    ensures NothingElseSet(gen, w)
  {
    hide ClkField, Flag, TmoField, PortField, AddrField, CmdMapField;
    AttestationValues(s.attn);
    if gen == Gen4 {
      RestOfWord4(w);
    } else {
      RestOfWord5(w, AttestationField(s.attn));
    }
  }

  lemma AttestationValues(attn: Attestation)
    ensures var a := AttestationField(attn);
            (a == 0 || a == 0x10 || a == 0x1000_0000_0010) && (attn.mode != Dice ==> a == 0)
  {
  }

  lemma RestOfWord4(w: bv64)
    requires w & 0xffff_ee00_0000_000f == 0 && w & 0x1000_0000_0030 == 0
    ensures w & !0x1ff_ffff_ffc0 == 0
  {
  }

  lemma RestOfWord5(w: bv64, a: bv64)
    requires w & 0xffff_e000_0040_000f == 0 && w & 0x1000_0000_0030 == a
    requires a == 0 || a == 0x10 || a == 0x1000_0000_0010
    ensures w & !0x1fff_ffbf_ffd0 == 0
  {
  }

  /** The parameters beside the word; the secret seed goes along in DICE mode when valid. */
  lemma CommandParameters(gen: Generation, hi: bool, s: Settings)
    requires SetCommand(gen, hi, s).Ok?
    ensures var c, dice := SetCommand(gen, hi, s).value, gen == Gen5 && s.attn.mode == Dice;
            && c.publicKeyExponent == s.publicKeyExponent
            && (dice ==> c.cdiMask == s.attn.cdiMask && c.udsValid == s.attn.udsValid)
            && (dice && s.attn.udsValid ==> c.uds == s.attn.udsData)
            && (!dice ==> c.cdiMask == 0 && !c.udsValid)
            && (!c.udsValid ==> c.uds == [])
  {
    hide BasicWord, AddAttestation, ClkNumber;
  }

  lemma ClkFromField(gen: Generation, w: bv64, n: nat)
    requires n <= 10 && w & 0x3c00 == ClkField(n)
    ensures ClkOf(gen, w) == if n == 0 then DefaultClk(gen) else n
  {
    hide Nibble, ClkField, NibbleNumber;
    ClkInPlace(n, w);
    NumberOfNibble(n);
  }

  /** The fields read back from a word that was assembled from settings. */
  lemma GettersRecover(gen: Generation, w: bv64, s: Settings, n: nat)
    requires 1 <= n <= 10
    requires Split(gen, w) == SettingFields(gen, s, n).(attestation := AttestationField(s.attn))
    ensures GetBit(w, 0x40) == s.lockAfterReset && GetBit(w, 0x80) == s.lockAfterBl1
    ensures GetBit(w, 0x100) == s.bl1UnlockAllowed && GetBit(w, 0x200) == s.postBl1UnlockAllowed
    ensures ClkOf(gen, w) == n
    ensures GetTmo(w) == s.i2cRecoveryTmo & 0xf && GetPort(w) == s.i2cPort & 0xf
    ensures GetAddr(gen, w) == s.i2cAddr & 0x7f
    ensures GetCmdMap(gen, w) == s.i2cCmdMap & (if gen == Gen4 then 0xfff else 0x3fff)
    ensures IsDice(w) == (s.attn.mode == Dice)
    ensures GetSelfgen(w) == (s.attn.mode == Dice && s.attn.udsSelfgen)
  {
    hide Flag, GetBit, ClkField, ClkOf, TmoField, PortField, AddrField, CmdMapField, GetTmo, GetPort, GetAddr, GetCmdMap, IsDice, GetSelfgen, Split4, Split5;
    if gen == Gen4 { SplitAt4(w); } else { SplitAt5(w); }
    FlagInPlace(s.lockAfterReset, w, 0x40);
    FlagInPlace(s.lockAfterBl1, w, 0x80);
    FlagInPlace(s.bl1UnlockAllowed, w, 0x100);
    FlagInPlace(s.postBl1UnlockAllowed, w, 0x200);
    ClkFromField(gen, w, n);
    TmoInPlace(s.i2cRecoveryTmo, w);
    PortInPlace(s.i2cPort, w);
    if gen == Gen4 {
      AddrInPlace4(s.i2cAddr, w);
      CmdMapInPlace4(s.i2cCmdMap, w);
    } else {
      AddrInPlace5(s.i2cAddr, w);
      CmdMapInPlace5(s.i2cCmdMap, w);
    }
    AttestationInPlace(w);
  }

  lemma AttestationInPlace(w: bv64)
    ensures w & 0x1000_0000_0030 == 0 ==> !IsDice(w) && !GetSelfgen(w)
    ensures w & 0x1000_0000_0030 == 0x10 ==> IsDice(w) && !GetSelfgen(w)
    ensures w & 0x1000_0000_0030 == 0x1000_0000_0010 ==> IsDice(w) && GetSelfgen(w)
  {
  }

  /** Set, then get: every setting comes back reduced to the width of its field,
      the clock as the table's own rate, attestation as far as DICE mode keeps it. */
  lemma SetThenGet(gen: Generation, hi: bool, s: Settings)
    requires SetCommand(gen, hi, s).Ok?
    ensures var cmd := SetCommand(gen, hi, s).value;
            && ClkOf(gen, cmd.cfg) <= 10
            && var state := StateOf(gen, hi, cmd);
               var dice := s.attn.mode == Dice;
               && state.lockAfterReset == s.lockAfterReset && state.lockAfterBl1 == s.lockAfterBl1
               && state.bl1UnlockAllowed == s.bl1UnlockAllowed
               && state.postBl1UnlockAllowed == s.postBl1UnlockAllowed
               && state.spiClkRate == Rate(hi, ClkNumber(s.spiClkRate, hi)) && Near(s.spiClkRate, state.spiClkRate)
               && state.i2cRecoveryTmo == s.i2cRecoveryTmo & 0xf && state.i2cPort == s.i2cPort & 0xf
               && state.i2cAddr == s.i2cAddr & 0x7f
               && state.i2cCmdMap == s.i2cCmdMap & (if gen == Gen4 then 0xfff else 0x3fff)
               && state.publicKeyExponent == s.publicKeyExponent
               && state.attestationMode == (if gen == Gen4 then NotSupported else if dice then Dice else None)
               && state.udsSelfgen == (dice && s.attn.udsSelfgen)
               && state.cdiMask == (if dice then s.attn.cdiMask else 0)
  {
    hide Split, SettingFields, GetBit, GetTmo, GetPort, GetAddr, GetCmdMap, IsDice, GetSelfgen, ClkOf, BasicWord, AddAttestation, Rate;
    CommandSplits(gen, hi, s);
    GettersRecover(gen, SetCommand(gen, hi, s).value.cfg, s, ClkNumber(s.spiClkRate, hi));
  }

  lemma KeptParts4(w: bv64, clk: bv64)
    requires clk & !0x3c00 == 0
    ensures Split4(Keep4(w, clk)) == Split4(w).(clk := clk, attestation := 0, rest := 0)
  {
  }

  lemma KeptParts5(w: bv64, clk: bv64, attn: bv64)
    requires clk & !0x3c00 == 0 && attn & !0x1000_0000_0010 == 0
    ensures Split5(Keep5(w, clk, attn)) == Split5(w).(clk := clk, attestation := attn, rest := 0)
  {
  }

  /** Writing back what the getters read restores each field. */
  lemma ReadFields4(w: bv64)
    ensures Flag(GetBit(w, 0x40), 0x40) == Split4(w).reset && Flag(GetBit(w, 0x80), 0x80) == Split4(w).bl1
    ensures Flag(GetBit(w, 0x100), 0x100) == Split4(w).unlock && Flag(GetBit(w, 0x200), 0x200) == Split4(w).postUnlock
    ensures TmoField(GetTmo(w)) == Split4(w).tmo && PortField(GetPort(w)) == Split4(w).port
    ensures AddrField(Gen4, GetAddr(Gen4, w)) == Split4(w).addr
    ensures CmdMapField(Gen4, GetCmdMap(Gen4, w)) == Split4(w).cmdMap
  {
    hide Flag, GetBit, TmoField, PortField, AddrField, CmdMapField, GetTmo, GetPort, GetAddr, GetCmdMap, Split4;
    SplitAt4(w);
    FlagInPlace(false, w, 0x40);
    FlagInPlace(false, w, 0x80);
    FlagInPlace(false, w, 0x100);
    FlagInPlace(false, w, 0x200);
    TmoInPlace(0, w);
    PortInPlace(0, w);
    AddrInPlace4(0, w);
    CmdMapInPlace4(0, w);
  }

  lemma ReadFields5(w: bv64)
    ensures Flag(GetBit(w, 0x40), 0x40) == Split5(w).reset && Flag(GetBit(w, 0x80), 0x80) == Split5(w).bl1
    ensures Flag(GetBit(w, 0x100), 0x100) == Split5(w).unlock && Flag(GetBit(w, 0x200), 0x200) == Split5(w).postUnlock
    ensures TmoField(GetTmo(w)) == Split5(w).tmo && PortField(GetPort(w)) == Split5(w).port
    ensures AddrField(Gen5, GetAddr(Gen5, w)) == Split5(w).addr
    ensures CmdMapField(Gen5, GetCmdMap(Gen5, w)) == Split5(w).cmdMap
  {
    hide Flag, GetBit, TmoField, PortField, AddrField, CmdMapField, GetTmo, GetPort, GetAddr, GetCmdMap, Split5;
    SplitAt5(w);
    FlagInPlace(false, w, 0x40);
    FlagInPlace(false, w, 0x80);
    FlagInPlace(false, w, 0x100);
    FlagInPlace(false, w, 0x200);
    TmoInPlace(0, w);
    PortInPlace(0, w);
    AddrInPlace5(0, w);
    CmdMapInPlace5(0, w);
  }

  lemma AttestationOf(w: bv64)
    ensures KeepAttestation(w) & !0x1000_0000_0010 == 0
    ensures KeepAttestation(w) == if IsDice(w) then (if GetSelfgen(w) then 0x1000_0000_0010 else 0x10) else 0
  {
  }

  /** A word's kept fields are those of the settings read from it. */
  lemma KeptSplits(gen: Generation, hi: bool, f: FileBody)
    requires FileSettings(gen, hi, f).Ok?
    ensures var s := FileSettings(gen, hi, f).value;
            Split(gen, Kept(gen, f.cfg)) ==
            SettingFields(gen, s, ClkOf(gen, f.cfg)).(attestation := AttestationField(s.attn))
  {
    hide Flag, GetBit, ClkField, ClkOf, TmoField, PortField, AddrField, CmdMapField, GetTmo, GetPort, GetAddr, GetCmdMap, IsDice, GetSelfgen, Split4, Split5, Rate, Keep4, Keep5, KeepAttestation;
    var w, n := f.cfg, ClkOf(gen, f.cfg);
    ClkInPlace(n, 0);
    if gen == Gen4 {
      ReadFields4(w);
      KeptParts4(w, ClkField(n));
    } else {
      ReadFields5(w);
      AttestationOf(w);
      KeptParts5(w, ClkField(n), KeepAttestation(w));
    }
  }

  /** Reading an accepted settings file and writing it to the device sends the
      file's word restricted to the defined fields, and its other parameters. */
  lemma FileToWord(gen: Generation, hi: bool, f: FileBody)
    requires FileSettings(gen, hi, f).Ok?
    ensures SetCommand(gen, hi, FileSettings(gen, hi, f).value) ==
            Ok(Command(Kept(gen, f.cfg), f.publicKeyExponent,
                       if gen == Gen5 && IsDice(f.cfg) then f.cdiMask else 0, false, []))
  {
    hide SettingFields, BasicWord, AddAttestation, Split, GetBit, GetTmo, GetPort, GetAddr, GetCmdMap, IsDice, GetSelfgen, ClkOf, ClkNumber, Kept;
    var s := FileSettings(gen, hi, f).value;
    ClkNumberOfRate(hi, ClkOf(gen, f.cfg));
    CommandSplits(gen, hi, s);
    KeptSplits(gen, hi, f);
    SplitInjective(gen, SetCommand(gen, hi, s).value.cfg, Kept(gen, f.cfg));
  }

  lemma GettersInRange(gen: Generation, w: bv64)
    ensures GetTmo(w) & 0xf == GetTmo(w) && GetPort(w) & 0xf == GetPort(w)
    ensures GetAddr(gen, w) & 0x7f == GetAddr(gen, w)
    ensures GetCmdMap(gen, w) & (if gen == Gen4 then 0xfff else 0x3fff) == GetCmdMap(gen, w)
  {
  }

  /** Settings depend on the word through its fields only. */
  lemma SameFields(gen: Generation, hi: bool, f: FileBody, g: FileBody)
    requires f.FileBody? && g.FileBody? && f.publicKeyExponent == g.publicKeyExponent && f.cdiMask == g.cdiMask
    requires GetBit(f.cfg, 0x40) == GetBit(g.cfg, 0x40) && GetBit(f.cfg, 0x80) == GetBit(g.cfg, 0x80)
    requires GetBit(f.cfg, 0x100) == GetBit(g.cfg, 0x100) && GetBit(f.cfg, 0x200) == GetBit(g.cfg, 0x200)
    requires ClkOf(gen, f.cfg) == ClkOf(gen, g.cfg)
    requires GetTmo(f.cfg) == GetTmo(g.cfg) && GetPort(f.cfg) == GetPort(g.cfg)
    requires GetAddr(gen, f.cfg) == GetAddr(gen, g.cfg) && GetCmdMap(gen, f.cfg) == GetCmdMap(gen, g.cfg)
    requires FileAttestation(gen, f) == FileAttestation(gen, g)
    ensures FileSettings(gen, hi, f) == FileSettings(gen, hi, g)
  {
    hide GetBit, GetTmo, GetPort, GetAddr, GetCmdMap, ClkOf, FileAttestation, Rate;
  }

  lemma FieldsRead(gen: Generation, hi: bool, f: FileBody)
    requires FileSettings(gen, hi, f).Ok?
    ensures f.FileBody? && ClkOf(gen, f.cfg) <= 10
    ensures var s := FileSettings(gen, hi, f).value;
            && s.lockAfterReset == GetBit(f.cfg, 0x40) && s.lockAfterBl1 == GetBit(f.cfg, 0x80)
            && s.bl1UnlockAllowed == GetBit(f.cfg, 0x100) && s.postBl1UnlockAllowed == GetBit(f.cfg, 0x200)
            && s.i2cRecoveryTmo == GetTmo(f.cfg) && s.i2cPort == GetPort(f.cfg)
            && s.i2cAddr == GetAddr(gen, f.cfg) && s.i2cCmdMap == GetCmdMap(gen, f.cfg)
            && s.attn == FileAttestation(gen, f)
  {
    hide GetBit, GetTmo, GetPort, GetAddr, GetCmdMap, ClkOf, FileAttestation, Rate;
  }

  /** Attestation depends on two fields, and the second counts in DICE mode only. */
  lemma SameAttestation(gen: Generation, f: FileBody, g: FileBody)
    requires f.FileBody? && g.FileBody? && f.cdiMask == g.cdiMask
    requires var attn := FileAttestation(gen, f);
             IsDice(g.cfg) == (attn.mode == Dice) && GetSelfgen(g.cfg) == (attn.mode == Dice && attn.udsSelfgen)
    ensures FileAttestation(gen, g) == FileAttestation(gen, f)
  {
    hide IsDice, GetSelfgen;
  }

  /** Every getter reads the same from the word and from what is kept of it. */
  lemma KeptGetters(gen: Generation, hi: bool, f: FileBody)
    requires FileSettings(gen, hi, f).Ok?
    ensures f.FileBody? && ClkOf(gen, f.cfg) <= 10
    ensures var w, v, attn := f.cfg, Kept(gen, f.cfg), FileAttestation(gen, f);
            && GetBit(v, 0x40) == GetBit(w, 0x40) && GetBit(v, 0x80) == GetBit(w, 0x80)
            && GetBit(v, 0x100) == GetBit(w, 0x100) && GetBit(v, 0x200) == GetBit(w, 0x200)
            && ClkOf(gen, v) == ClkOf(gen, w)
            && GetTmo(v) == GetTmo(w) && GetPort(v) == GetPort(w)
            && GetAddr(gen, v) == GetAddr(gen, w) && GetCmdMap(gen, v) == GetCmdMap(gen, w)
            && IsDice(v) == (attn.mode == Dice) && GetSelfgen(v) == (attn.mode == Dice && attn.udsSelfgen)
  {
    hide *;
    FieldsRead(gen, hi, f);
    KeptSplits(gen, hi, f);
    GettersRecover(gen, Kept(gen, f.cfg), FileSettings(gen, hi, f).value, ClkOf(gen, f.cfg));
    GettersInRange(gen, f.cfg);
  }

  /** Reading again what was written changes nothing. */
  lemma KeptReadsTheSame(gen: Generation, hi: bool, f: FileBody)
    requires FileSettings(gen, hi, f).Ok?
    ensures f.FileBody? && ClkOf(gen, f.cfg) <= 10
    ensures FileSettings(gen, hi, f.(cfg := Kept(gen, f.cfg))) == FileSettings(gen, hi, f)
  {
    hide *;
    KeptGetters(gen, hi, f);
    var g := f.(cfg := Kept(gen, f.cfg));
    SameAttestation(gen, f, g);
    SameFields(gen, hi, g, f);
  }

  /** Keeping twice is keeping once. */
  lemma KeptIdempotent(gen: Generation, hi: bool, f: FileBody)
    requires FileSettings(gen, hi, f).Ok?
    ensures ClkOf(gen, Kept(gen, f.cfg)) <= 10 && Kept(gen, Kept(gen, f.cfg)) == Kept(gen, f.cfg)
  {
    hide SettingFields, Split, GetBit, GetTmo, GetPort, GetAddr, GetCmdMap, IsDice, GetSelfgen, ClkOf, Kept, Rate, SetCommand;
    KeptReadsTheSame(gen, hi, f);
    FileToWord(gen, hi, f);
    FileToWord(gen, hi, f.(cfg := Kept(gen, f.cfg)));
  }
}
