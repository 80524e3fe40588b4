/** The byte layout of the fabric manager's PAX database (inc/switchtec/fabric.h). */
module GfmsLayout {

  import opened Bytes

  const SECTION_HDR_LEN := 12
  const PAX_GENERAL_LEN := 80
  const HVD_HEAD_LEN := 8
  const EP_HDR_LEN := 8
  const DS_FUNCTION_LEN := 36
  const MULTI_FUNC_NUM := 8
  const MAX_HOST_PER_SWITCH := 16
  const MAX_DEV_PER_SWITCH := 32

  // the sizes of the arrays inside a domain, a device and a switch
  const BOUND_LEN := 8 * 32 * 4
  const FUNCTIONS_LEN := 32 * 36
  const INTERNAL_FUNCTIONS_LEN := (16 + 32) * 36

  const TYPE_EP: byte := 0
  const TYPE_SWITCH: byte := 1

  // Structures that the library copies as they stand are kept as their bytes;
  // what the parser reads out of them are little-endian fields.

  /** A host virtual domain: eight leading bytes and its bound ports. */
  datatype Hvd = Hvd(head: bytes, bound: bytes)

  /** An attached device: its header and its function records. */
  datatype Ep = Ep(hdr: bytes, functions: bytes)

  datatype Attached =
    | Nothing
    | Device(ep: Ep)
    | Switch(hdr: bytes, internalFunctions: bytes, eps: seq<Ep>)

  datatype Port = Port(hdr: bytes, attached: Attached)

  datatype Pax = Pax(general: bytes, hvdHdr: bytes, hvds: seq<Hvd>, portHdr: bytes, ports: seq<Port>)

  function LogicalPortCount(head: bytes): nat
    requires |head| == HVD_HEAD_LEN
  {
    Le16(head, 4)
  }

  function FunctionNumber(hdr: bytes): nat
    requires |hdr| == EP_HDR_LEN
  {
    Le16(hdr, 0)
  }

  function SizeDw(hdr: bytes): nat
    requires |hdr| == EP_HDR_LEN
  {
    Le24(hdr, 4)
  }

  function RespSizeDw(hdr: bytes): nat
    requires |hdr| == SECTION_HDR_LEN
  {
    Le32(hdr, 4)
  }

  // ----- serialisation

  function HvdBytes(h: Hvd): bytes {
    h.head + h.bound
  }

  function HvdsBytes(hs: seq<Hvd>): bytes {
    if hs == [] then [] else HvdBytes(hs[0]) + HvdsBytes(hs[1..])
  }

  function EpBytes(e: Ep): bytes {
    e.hdr + e.functions
  }

  function EpsBytes(es: seq<Ep>): bytes {
    if es == [] then [] else EpBytes(es[0]) + EpsBytes(es[1..])
  }

  function AttachedBytes(a: Attached): bytes {
    match a
    case Nothing => []
    case Device(ep) => EpBytes(ep)
    case Switch(hdr, internalFunctions, eps) => hdr + internalFunctions + EpsBytes(eps)
  }

  function PortBytes(p: Port): bytes {
    p.hdr + AttachedBytes(p.attached)
  }

  function PortsBytes(ps: seq<Port>): bytes {
    if ps == [] then [] else PortBytes(ps[0]) + PortsBytes(ps[1..])
  }

  function PaxBytes(x: Pax): bytes {
    x.general + ((x.hvdHdr + HvdsBytes(x.hvds)) + (x.portHdr + PortsBytes(x.ports)))
  }

  // ----- consistent size fields

  predicate ValidHvd(h: Hvd) {
    && |h.head| == HVD_HEAD_LEN
    && |h.bound| == LogicalPortCount(h.head) * MULTI_FUNC_NUM * 4
  }

  predicate ValidEp(e: Ep) {
    && |e.hdr| == EP_HDR_LEN
    && SizeDw(e.hdr) * 4 == |EpBytes(e)|
  }

  predicate ValidPort(p: Port) {
    && |p.hdr| == EP_HDR_LEN
    && match p.attached
       case Nothing => p.hdr[0] != TYPE_EP && p.hdr[0] != TYPE_SWITCH
       case Device(ep) => p.hdr[0] == TYPE_EP && ValidEp(ep)
       case Switch(hdr, internalFunctions, eps) =>
         && p.hdr[0] == TYPE_SWITCH
         && |hdr| == EP_HDR_LEN
         && |internalFunctions| == FunctionNumber(hdr) * DS_FUNCTION_LEN
         && (forall i :: 0 <= i < |eps| ==> ValidEp(eps[i]))
         && SizeDw(p.hdr) * 4 == |PortBytes(p)|
  }

  predicate ValidHvdSection(hdr: bytes, hvds: seq<Hvd>) {
    && |hdr| == SECTION_HDR_LEN
    && (forall i :: 0 <= i < |hvds| ==> ValidHvd(hvds[i]))
    && RespSizeDw(hdr) * 4 == SECTION_HDR_LEN + |HvdsBytes(hvds)| < 0x1_0000_0000
  }

  predicate ValidPortSection(hdr: bytes, ports: seq<Port>) {
    && |hdr| == SECTION_HDR_LEN
    && (forall i :: 0 <= i < |ports| ==> ValidPort(ports[i]))
    && RespSizeDw(hdr) * 4 == SECTION_HDR_LEN + |PortsBytes(ports)| < 0x1_0000_0000
  }

  predicate ValidPax(x: Pax) {
    && |x.general| == PAX_GENERAL_LEN
    && ValidHvdSection(x.hvdHdr, x.hvds)
    && ValidPortSection(x.portHdr, x.ports)
  }

  // ----- the layout in numbers

  function U16(b: bytes, at: nat): nat
    requires at + 2 <= |b|
  {
    b[at] as int + 256 * (b[at + 1] as int)
  }

  function U24(b: bytes, at: nat): nat
    requires at + 3 <= |b|
  {
    U16(b, at) + 65536 * (b[at + 2] as int)
  }

  /** A domain: 8 bytes, of which those at 4 count its logical ports, and 32 bytes
      for each. An attached device: 8 bytes, of which those at 4 give its length in
      words, and its functions. */
  lemma HvdAndEpInNumbers(h: Hvd, e: Ep)
    ensures ValidHvd(h) <==> |h.head| == 8 && |h.bound| == 32 * U16(h.head, 4)
    ensures ValidEp(e) <==> |e.hdr| == 8 && 8 + |e.functions| == 4 * U24(e.hdr, 4)
    ensures HvdBytes(h) == h.head + h.bound && EpBytes(e) == e.hdr + e.functions
    ensures FitsHvd(h) <==> |h.bound| <= 32 * 32
    ensures FitsEp(e) <==> |e.functions| <= 32 * 36
  {
  }

  /** A port: 8 bytes, the first of them 0 for a device and 1 for a switch. A switch
      has 8 bytes of its own, of which the first two count internal functions of 36
      bytes each, and its devices; the port's length in words is at 4. */
  lemma PortInNumbers(p: Port)
    ensures ValidPort(p) <==>
            && |p.hdr| == 8
            && match p.attached
               case Nothing => p.hdr[0] != 0 && p.hdr[0] != 1
               case Device(ep) => p.hdr[0] == 0 && ValidEp(ep)
               case Switch(hdr, internalFunctions, eps) =>
                 && p.hdr[0] == 1 && |hdr| == 8 && |internalFunctions| == 36 * U16(hdr, 0)
                 && (forall i :: 0 <= i < |eps| ==> ValidEp(eps[i]))
                 && 4 * U24(p.hdr, 4) == 16 + |internalFunctions| + |EpsBytes(eps)|
    ensures PortBytes(p) ==
            match p.attached
            case Nothing => p.hdr + []
            case Device(ep) => p.hdr + EpBytes(ep)
            case Switch(hdr, internalFunctions, eps) => p.hdr + (hdr + internalFunctions + EpsBytes(eps))
    ensures FitsPort(p) <==>
            match p.attached
            case Nothing => true
            case Device(ep) => FitsEp(ep)
            case Switch(_, internalFunctions, eps) =>
              |internalFunctions| <= 48 * 36 && |eps| <= 32 && forall i :: 0 <= i < |eps| ==> FitsEp(eps[i])
  {
    hide EpBytes, EpsBytes, ValidEp, FitsEp;
    if |p.hdr| == 8 && p.attached.Switch? && |p.attached.hdr| == 8 {
      assert |PortBytes(p)| == 16 + |p.attached.internalFunctions| + |EpsBytes(p.attached.eps)|;
    }
  }

  /** A database: 80 bytes, then two sections with a header of 12, whose length in
      words, the header's included, is at 4; at most 16 domains and 32 ports fit. */
  lemma PaxInNumbers(x: Pax)
    ensures ValidPax(x) <==>
            && |x.general| == 80 && |x.hvdHdr| == |x.portHdr| == 12
            && (forall i :: 0 <= i < |x.hvds| ==> ValidHvd(x.hvds[i]))
            && (forall i :: 0 <= i < |x.ports| ==> ValidPort(x.ports[i]))
            && 4 * (U24(x.hvdHdr, 4) + 0x100_0000 * (x.hvdHdr[7] as int)) == 12 + |HvdsBytes(x.hvds)| < 0x1_0000_0000
            && 4 * (U24(x.portHdr, 4) + 0x100_0000 * (x.portHdr[7] as int)) == 12 + |PortsBytes(x.ports)| < 0x1_0000_0000
    ensures PaxBytes(x) == x.general + ((x.hvdHdr + HvdsBytes(x.hvds)) + (x.portHdr + PortsBytes(x.ports)))
    ensures FitsPax(x) <==>
            && |x.hvds| <= 16 && (forall i :: 0 <= i < |x.hvds| ==> FitsHvd(x.hvds[i]))
            && |x.ports| <= 32 && (forall i :: 0 <= i < |x.ports| ==> FitsPort(x.ports[i]))
  {
    hide ValidHvd, ValidPort, FitsHvd, FitsPort, HvdsBytes, PortsBytes;
  }

  // ----- the room the library's structures have

  predicate FitsHvd(h: Hvd) {
    |h.bound| <= BOUND_LEN
  }

  predicate FitsEp(e: Ep) {
    |e.functions| <= FUNCTIONS_LEN
  }

  predicate FitsEps(eps: seq<Ep>) {
    |eps| <= MAX_DEV_PER_SWITCH && forall i :: 0 <= i < |eps| ==> FitsEp(eps[i])
  }

  predicate FitsPort(p: Port) {
    match p.attached
    case Nothing => true
    case Device(ep) => FitsEp(ep)
    case Switch(_, internalFunctions, eps) => |internalFunctions| <= INTERNAL_FUNCTIONS_LEN && FitsEps(eps)
  }

  predicate FitsHvds(hvds: seq<Hvd>) {
    |hvds| <= MAX_HOST_PER_SWITCH && forall i :: 0 <= i < |hvds| ==> FitsHvd(hvds[i])
  }

  predicate FitsPorts(ports: seq<Port>) {
    |ports| <= MAX_DEV_PER_SWITCH && forall i :: 0 <= i < |ports| ==> FitsPort(ports[i])
  }

  /** Every list is no longer than the array it goes to. */
  predicate FitsPax(x: Pax) {
    FitsHvds(x.hvds) && FitsPorts(x.ports)
  }

  // ----- a database that is consistent and does not fit

  const OVERLONG_HVD := Hvd([0, 0, 0, 0, 33, 0, 0, 0], seq(33 * MULTI_FUNC_NUM * 4, i => 0))

  const OVERLONG_PAX := Pax(
    seq(PAX_GENERAL_LEN, i => 0),
    [0, 0, 0, 0, 13, 1, 0, 0, 0, 0, 0, 0], [OVERLONG_HVD],
    [0, 0, 0, 0, 3, 0, 0, 0, 0, 0, 0, 0], [])

  /** One domain with 33 logical ports: every size field is right. */
  lemma OverlongIsValid()
    ensures ValidPax(OVERLONG_PAX) && !FitsPax(OVERLONG_PAX)
  {
    var x := OVERLONG_PAX;
    assert x.hvds[1..] == [];
    assert HvdsBytes(x.hvds) == HvdBytes(OVERLONG_HVD) + HvdsBytes([]);
    assert |HvdsBytes(x.hvds)| == HVD_HEAD_LEN + 33 * MULTI_FUNC_NUM * 4;
    assert RespSizeDw(x.hvdHdr) == 269 && RespSizeDw(x.portHdr) == 3;
    assert PortsBytes(x.ports) == [];
    assert !FitsHvd(x.hvds[0]);
  }

  // ----- what lies behind the last domain

  const BODY_LEN := HVD_HEAD_LEN + BOUND_LEN
  const BODIES_AT := 4 + SECTION_HDR_LEN
  const GENERAL_AT := BODIES_AT + MAX_HOST_PER_SWITCH * BODY_LEN

  /** In the library's structure the general section, parsed first, follows the
      sixteen domains: copying an overlong sixteenth domain leaves it as it was
      exactly when the excess bytes happen to be its own first ones. */
  lemma LastDomainSpills(mem: bytes, general: bytes, bound: bytes)
    requires |general| == PAX_GENERAL_LEN && At(mem, GENERAL_AT, general)
    requires BOUND_LEN < |bound| && GENERAL_AT + |bound| - BOUND_LEN <= |mem|
    ensures var excess := |bound| - BOUND_LEN;
            var n := if excess < PAX_GENERAL_LEN then excess else PAX_GENERAL_LEN;
            At(Put(mem, GENERAL_AT - BOUND_LEN, bound), GENERAL_AT, general) <==>
            bound[BOUND_LEN..BOUND_LEN + n] == general[..n]
  {
    var mem' := Put(mem, GENERAL_AT - BOUND_LEN, bound);
    var excess := |bound| - BOUND_LEN;
    var n := if excess < PAX_GENERAL_LEN then excess else PAX_GENERAL_LEN;
    var after, spilled := mem'[GENERAL_AT..GENERAL_AT + PAX_GENERAL_LEN], bound[BOUND_LEN..BOUND_LEN + n];
    var start := GENERAL_AT - BOUND_LEN;
    forall k | 0 <= k < n ensures after[k] == spilled[k] {
      assert mem'[start + (BOUND_LEN + k)] == bound[BOUND_LEN + k];
    }
    forall k | n <= k < PAX_GENERAL_LEN ensures after[k] == general[k] {
      assert mem'[GENERAL_AT + k] == mem[GENERAL_AT + k] == mem[GENERAL_AT..GENERAL_AT + PAX_GENERAL_LEN][k];
    }
    assert after[..n] == spilled && after[n..] == general[n..];
    assert after == after[..n] + after[n..] && general == general[..n] + general[n..];
  }

  // ----- the layout determines the database

  lemma HvdUnique(data: bytes, p: nat, a: Hvd, b: Hvd)
    requires ValidHvd(a) && ValidHvd(b) && At(data, p, HvdBytes(a)) && At(data, p, HvdBytes(b))
    ensures a == b
  {
    hide At;
    AtSplit(data, p, a.head, a.bound);
    AtSplit(data, p, b.head, b.bound);
    AtUnique(data, p, a.head, b.head);
    AtUnique(data, p + HVD_HEAD_LEN, a.bound, b.bound);
  }

  lemma EpUnique(data: bytes, p: nat, a: Ep, b: Ep)
    requires ValidEp(a) && ValidEp(b) && At(data, p, EpBytes(a)) && At(data, p, EpBytes(b))
    ensures a == b
  {
    hide At;
    AtSplit(data, p, a.hdr, a.functions);
    AtSplit(data, p, b.hdr, b.functions);
    AtUnique(data, p, a.hdr, b.hdr);
    AtUnique(data, p + EP_HDR_LEN, a.functions, b.functions);
  }

  lemma HvdNotEmpty(x: Hvd)
    requires ValidHvd(x)
    ensures |HvdBytes(x)| > 0
  {
  }

  lemma {:induction false} HvdsUnique(data: bytes, p: nat, a: seq<Hvd>, b: seq<Hvd>)
    requires (forall i :: 0 <= i < |a| ==> ValidHvd(a[i])) && (forall i :: 0 <= i < |b| ==> ValidHvd(b[i]))
    requires At(data, p, HvdsBytes(a)) && At(data, p, HvdsBytes(b)) && |HvdsBytes(a)| == |HvdsBytes(b)|
    ensures a == b
    decreases |a|
  {
    hide At;
    if a != [] && b != [] {
      AtSplit(data, p, HvdBytes(a[0]), HvdsBytes(a[1..]));
      AtSplit(data, p, HvdBytes(b[0]), HvdsBytes(b[1..]));
      HvdUnique(data, p, a[0], b[0]);
      HvdsUnique(data, p + |HvdBytes(a[0])|, a[1..], b[1..]);
      assert a == [a[0]] + a[1..] && b == [b[0]] + b[1..];
    } else if a != [] {
      HvdNotEmpty(a[0]);
    } else if b != [] {
      HvdNotEmpty(b[0]);
    }
  }

  lemma EpNotEmpty(x: Ep)
    requires ValidEp(x)
    ensures |EpBytes(x)| > 0
  {
  }

  lemma {:induction false} EpsUnique(data: bytes, p: nat, a: seq<Ep>, b: seq<Ep>)
    requires (forall i :: 0 <= i < |a| ==> ValidEp(a[i])) && (forall i :: 0 <= i < |b| ==> ValidEp(b[i]))
    requires At(data, p, EpsBytes(a)) && At(data, p, EpsBytes(b)) && |EpsBytes(a)| == |EpsBytes(b)|
    ensures a == b
    decreases |a|
  {
    hide At;
    if a != [] && b != [] {
      AtSplit(data, p, EpBytes(a[0]), EpsBytes(a[1..]));
      AtSplit(data, p, EpBytes(b[0]), EpsBytes(b[1..]));
      EpUnique(data, p, a[0], b[0]);
      EpsUnique(data, p + |EpBytes(a[0])|, a[1..], b[1..]);
      assert a == [a[0]] + a[1..] && b == [b[0]] + b[1..];
    } else if a != [] {
      EpNotEmpty(a[0]);
    } else if b != [] {
      EpNotEmpty(b[0]);
    }
  }

  lemma PortNotEmpty(p: Port)
    requires ValidPort(p)
    ensures |PortBytes(p)| > 0
  {
  }

  lemma PortUnique(data: bytes, p: nat, a: Port, b: Port)
    requires ValidPort(a) && ValidPort(b) && At(data, p, PortBytes(a)) && At(data, p, PortBytes(b))
    ensures a == b
  {
    hide At, EpsBytes, EpBytes, ValidEp;
    AtSplit(data, p, a.hdr, AttachedBytes(a.attached));
    AtSplit(data, p, b.hdr, AttachedBytes(b.attached));
    AtUnique(data, p, a.hdr, b.hdr);
    match a.attached
    case Nothing =>
    case Device(ep) => EpUnique(data, p + EP_HDR_LEN, ep, b.attached.ep);
    case Switch(hdr, internalFunctions, eps) => SwitchUnique(data, p + EP_HDR_LEN, a.attached, b.attached);
  }

  lemma SwitchUnique(data: bytes, p: nat, a: Attached, b: Attached)
    requires a.Switch? && b.Switch? && |a.hdr| == |b.hdr| == EP_HDR_LEN
    requires |a.internalFunctions| == FunctionNumber(a.hdr) * DS_FUNCTION_LEN
    requires |b.internalFunctions| == FunctionNumber(b.hdr) * DS_FUNCTION_LEN
    requires forall i :: 0 <= i < |a.eps| ==> ValidEp(a.eps[i])
    requires forall i :: 0 <= i < |b.eps| ==> ValidEp(b.eps[i])
    requires At(data, p, AttachedBytes(a)) && At(data, p, AttachedBytes(b))
    requires |AttachedBytes(a)| == |AttachedBytes(b)|
    ensures a == b
  {
    hide At, EpsBytes, ValidEp;
    AtSplit(data, p, a.hdr + a.internalFunctions, EpsBytes(a.eps));
    AtSplit(data, p, b.hdr + b.internalFunctions, EpsBytes(b.eps));
    AtSplit(data, p, a.hdr, a.internalFunctions);
    AtSplit(data, p, b.hdr, b.internalFunctions);
    AtUnique(data, p, a.hdr, b.hdr);
    AtUnique(data, p + EP_HDR_LEN, a.internalFunctions, b.internalFunctions);
    EpsUnique(data, p + EP_HDR_LEN + |a.internalFunctions|, a.eps, b.eps);
  }

  lemma {:induction false} PortsUnique(data: bytes, p: nat, a: seq<Port>, b: seq<Port>)
    requires (forall i :: 0 <= i < |a| ==> ValidPort(a[i])) && (forall i :: 0 <= i < |b| ==> ValidPort(b[i]))
    requires At(data, p, PortsBytes(a)) && At(data, p, PortsBytes(b)) && |PortsBytes(a)| == |PortsBytes(b)|
    ensures a == b
    decreases |a|
  {
    hide At, ValidPort, PortBytes;
    if a != [] && b != [] {
      AtSplit(data, p, PortBytes(a[0]), PortsBytes(a[1..]));
      AtSplit(data, p, PortBytes(b[0]), PortsBytes(b[1..]));
      PortUnique(data, p, a[0], b[0]);
      PortsUnique(data, p + |PortBytes(a[0])|, a[1..], b[1..]);
      assert a == [a[0]] + a[1..] && b == [b[0]] + b[1..];
    } else if a != [] {
      PortNotEmpty(a[0]);
    } else if b != [] {
      PortNotEmpty(b[0]);
    }
  }

  /** A buffer holds at most one PAX database. */
  lemma PaxUnique(data: bytes, a: Pax, b: Pax)
    requires ValidPax(a) && ValidPax(b) && At(data, 0, PaxBytes(a)) && At(data, 0, PaxBytes(b))
    ensures a == b
  {
    hide At, PaxBytes, ValidHvd, ValidPort, HvdsBytes, PortsBytes;
    PaxAt(data, a);
    PaxAt(data, b);
    AtUnique(data, 0, a.general, b.general);
    AtUnique(data, PAX_GENERAL_LEN, a.hvdHdr, b.hvdHdr);
    HvdsUnique(data, PAX_GENERAL_LEN + SECTION_HDR_LEN, a.hvds, b.hvds);
    var q := PAX_GENERAL_LEN + SECTION_HDR_LEN + |HvdsBytes(a.hvds)|;
    AtUnique(data, q, a.portHdr, b.portHdr);
    PortsUnique(data, q + SECTION_HDR_LEN, a.ports, b.ports);
  }

  /** The offsets of the five parts of a database. */
  lemma PaxAt(data: bytes, x: Pax)
    requires |x.general| == PAX_GENERAL_LEN && |x.hvdHdr| == |x.portHdr| == SECTION_HDR_LEN
    requires At(data, 0, PaxBytes(x))
    ensures At(data, 0, x.general)
    ensures At(data, PAX_GENERAL_LEN, x.hvdHdr + HvdsBytes(x.hvds))
    ensures At(data, PAX_GENERAL_LEN, x.hvdHdr)
    ensures At(data, PAX_GENERAL_LEN + SECTION_HDR_LEN, HvdsBytes(x.hvds))
    ensures var q := PAX_GENERAL_LEN + SECTION_HDR_LEN + |HvdsBytes(x.hvds)|;
            && At(data, q, x.portHdr + PortsBytes(x.ports))
            && At(data, q, x.portHdr)
            && At(data, q + SECTION_HDR_LEN, PortsBytes(x.ports))
  {
    hide At;
    var hvdPart, portPart := x.hvdHdr + HvdsBytes(x.hvds), x.portHdr + PortsBytes(x.ports);
    var q := PAX_GENERAL_LEN + SECTION_HDR_LEN + |HvdsBytes(x.hvds)|;
    AtSplit(data, 0, x.general, hvdPart + portPart);
    AtSplit(data, PAX_GENERAL_LEN, hvdPart, portPart);
    AtSplit(data, PAX_GENERAL_LEN, x.hvdHdr, HvdsBytes(x.hvds));
    AtSplit(data, q, x.portHdr, PortsBytes(x.ports));
  }
}
