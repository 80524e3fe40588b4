/** Retrieving and parsing the fabric manager's PAX database (lib/fabric.c). */
module Gfms {
  import opened Bytes
  import opened GfmsLayout
  import opened Mrpc

  const ENOMEM := 12

  class HvdAll {
    var hvdCount: int
    var hdr: bytes
    const bodies: array<Hvd>

    constructor (hvdCount: int)
      ensures this.hvdCount == hvdCount && bodies.Length == MAX_HOST_PER_SWITCH && fresh(bodies)
    {
      this.hvdCount := hvdCount;
      hdr := [];
      bodies := new Hvd[MAX_HOST_PER_SWITCH](i => Hvd([], []));
    }
  }

  class EpPortAll {
    var epPortCount: int
    var hdr: bytes
    const epPorts: array<Port>

    constructor (epPortCount: int)
      ensures this.epPortCount == epPortCount && epPorts.Length == MAX_DEV_PER_SWITCH && fresh(epPorts)
    {
      this.epPortCount := epPortCount;
      hdr := [];
      epPorts := new Port[MAX_DEV_PER_SWITCH](i => Port([], Nothing));
    }
  }

  class PaxAll {
    var general: bytes
    const hvdAll: HvdAll
    const epPortAll: EpPortAll

    constructor (hvdCount: int, epPortCount: int)
      ensures Valid() && fresh(Repr() - {this})
      ensures hvdAll.hvdCount == hvdCount && epPortAll.epPortCount == epPortCount
    {
      general := [];
      hvdAll := new HvdAll(hvdCount);
      epPortAll := new EpPortAll(epPortCount);
    }

    ghost predicate Valid() {
      hvdAll.bodies.Length == MAX_HOST_PER_SWITCH && epPortAll.epPorts.Length == MAX_DEV_PER_SWITCH
    }

    ghost function Repr(): set<object> {
      {this, hvdAll, hvdAll.bodies, epPortAll, epPortAll.epPorts}
    }

    /** The structure holds `x`; a count is only ever written by the loop over its entries. */
    ghost predicate Holds(x: Pax, hvdCount: int, epPortCount: int)
      reads this, hvdAll, hvdAll.bodies, epPortAll, epPortAll.epPorts
    {
      && Valid()
      && general == x.general
      && hvdAll.hdr == x.hvdHdr
      && |x.hvds| <= MAX_HOST_PER_SWITCH && hvdAll.bodies[..|x.hvds|] == x.hvds
      && hvdAll.hvdCount == (if x.hvds == [] then hvdCount else |x.hvds|)
      && epPortAll.hdr == x.portHdr
      && |x.ports| <= MAX_DEV_PER_SWITCH && epPortAll.epPorts[..|x.ports|] == x.ports
      && epPortAll.epPortCount == (if x.ports == [] then epPortCount else |x.ports|)
    }
  }

  // ----- parsing

  // Each parser says whether its copies stayed inside their arrays. Where one
  // would not, the source's behaviour is undefined and the model stops.

  method HvdAllSectionParse(data: bytes, start: nat, hvdAll: HvdAll, ghost hdr: bytes, ghost hvds: seq<Hvd>)
    returns (parsedLen: nat, inside: bool)
    requires ValidHvdSection(hdr, hvds) && At(data, start, hdr + HvdsBytes(hvds))
    requires hvdAll.bodies.Length == MAX_HOST_PER_SWITCH
    modifies hvdAll, hvdAll.bodies
    ensures inside <==> FitsHvds(hvds)
    ensures inside ==>
              && hvdAll.hdr == hdr && hvdAll.bodies[..|hvds|] == hvds
              && hvdAll.hvdCount == (if hvds == [] then old(hvdAll.hvdCount) else |hvds|)
              && parsedLen == |hdr + HvdsBytes(hvds)|
  {
    hide ValidHvd, LogicalPortCount, RespSizeDw, At, HvdsBytes;
    AtSplit(data, start, hdr, HvdsBytes(hvds));
    AtSlice(data, start, hdr);
    assert hvds[0..] == hvds;
    var p: nat := start;
    var len := SECTION_HDR_LEN;
    hvdAll.hdr := data[p..p + len];
    p := p + len;
    parsedLen := len;
    var remainingLen := (RespSizeDw(hvdAll.hdr) * 4) % 0x1_0000_0000 - len;

    var i := 0;
    while remainingLen != 0
      invariant 0 <= i <= |hvds| && i <= MAX_HOST_PER_SWITCH && hvdAll.hdr == hdr
      invariant forall j :: 0 <= j < i ==> FitsHvd(hvds[j])
      invariant At(data, p, HvdsBytes(hvds[i..])) && p == start + parsedLen
      invariant remainingLen == |HvdsBytes(hvds[i..])|
      invariant parsedLen + remainingLen == |hdr + HvdsBytes(hvds)|
      invariant hvdAll.bodies[..i] == hvds[..i]
      invariant hvdAll.hvdCount == if i == 0 then old(hvdAll.hvdCount) else i
      decreases |hvds| - i
    {
      HvdsStep(data, p, hvds[i..]);
      ghost var h := hvds[i];
      assert hvds[i..][0] == h && hvds[i..][1..] == hvds[i + 1..];
      if i == MAX_HOST_PER_SWITCH {
        return parsedLen, false;
      }
      len := HVD_HEAD_LEN;
      var head := data[p..p + len];
      p := p + len;
      remainingLen := remainingLen - len;
      parsedLen := parsedLen + len;

      len := LogicalPortCount(head) * MULTI_FUNC_NUM * 4;
      if len > BOUND_LEN {
        assert !FitsHvd(h);
        return parsedLen, false;
      }
      var bound := data[p..p + len];
      hvdAll.bodies[i] := Hvd(head, bound);
      p := p + len;
      remainingLen := remainingLen - len;
      parsedLen := parsedLen + len;

      i := i + 1;
      hvdAll.hvdCount := i;
      assert hvdAll.bodies[..i] == hvdAll.bodies[..i - 1] + [h];
    }
    if i < |hvds| {
      HvdsStep(data, p, hvds[i..]);
    }
    assert hvds[..i] == hvds;
    inside := true;
  }

  /** The first domain of a nonempty list, and where the rest begins. */
  lemma HvdsStep(data: bytes, p: nat, hvds: seq<Hvd>)
    requires At(data, p, HvdsBytes(hvds))
    ensures hvds == [] ==> HvdsBytes(hvds) == []
    ensures hvds != [] && ValidHvd(hvds[0]) ==>
              var h := hvds[0];
              && |h.head| == HVD_HEAD_LEN && |h.bound| == LogicalPortCount(h.head) * MULTI_FUNC_NUM * 4
              && p + HVD_HEAD_LEN + |h.bound| <= |data|
              && data[p..p + HVD_HEAD_LEN] == h.head
              && data[p + HVD_HEAD_LEN..p + HVD_HEAD_LEN + |h.bound|] == h.bound
              && At(data, p + HVD_HEAD_LEN + |h.bound|, HvdsBytes(hvds[1..]))
              && |HvdsBytes(hvds)| == HVD_HEAD_LEN + |h.bound| + |HvdsBytes(hvds[1..])|
  {
    if hvds != [] && ValidHvd(hvds[0]) {
      AtSplit(data, p, HvdBytes(hvds[0]), HvdsBytes(hvds[1..]));
      AtSplit(data, p, hvds[0].head, hvds[0].bound);
    }
  }

  method EpPortAttachedEpParse(data: bytes, p: nat, ghost ep: Ep) returns (parsedLen: nat, result: Ep, inside: bool)
    requires ValidEp(ep) && At(data, p, EpBytes(ep))
    ensures inside <==> FitsEp(ep)
    ensures inside ==> result == ep && parsedLen == |EpBytes(ep)|
  {
    AtSplit(data, p, ep.hdr, ep.functions);
    var len := EP_HDR_LEN;
    var hdr := data[p..p + len];
    parsedLen := len;
    len := SizeDw(hdr) * 4 - EP_HDR_LEN;
    result := Ep(hdr, []);
    if len > FUNCTIONS_LEN {
      return parsedLen, result, false;
    }
    var functions := data[p + EP_HDR_LEN..p + EP_HDR_LEN + len];
    parsedLen := parsedLen + len;
    return parsedLen, Ep(hdr, functions), true;
  }

  method EpPortAttachedSwitchParse(data: bytes, p: nat, ghost sw: Attached)
    returns (parsedLen: nat, hdr: bytes, internalFunctions: bytes, inside: bool)
    requires sw.Switch? && |sw.hdr| == EP_HDR_LEN
    requires |sw.internalFunctions| == FunctionNumber(sw.hdr) * DS_FUNCTION_LEN
    requires At(data, p, sw.hdr + sw.internalFunctions)
    ensures inside <==> |sw.internalFunctions| <= INTERNAL_FUNCTIONS_LEN
    ensures inside ==>
              && hdr == sw.hdr && internalFunctions == sw.internalFunctions
              && parsedLen == |hdr + internalFunctions|
  {
    AtSplit(data, p, sw.hdr, sw.internalFunctions);
    var len := EP_HDR_LEN;
    hdr := data[p..p + len];
    parsedLen := len;
    len := FunctionNumber(hdr) * DS_FUNCTION_LEN;
    if len > INTERNAL_FUNCTIONS_LEN {
      return parsedLen, hdr, [], false;
    }
    internalFunctions := data[p + EP_HDR_LEN..p + EP_HDR_LEN + len];
    parsedLen := parsedLen + len;
    inside := true;
  }

  /** The devices behind a switch, until the port's stated size is used up. */
  method SwitchEpsParse(data: bytes, start: nat, size: int, ghost eps: seq<Ep>)
    returns (parsedLen: nat, result: seq<Ep>, inside: bool)
    requires forall i :: 0 <= i < |eps| ==> ValidEp(eps[i])
    requires At(data, start, EpsBytes(eps)) && size == |EpsBytes(eps)|
    ensures inside <==> FitsEps(eps)
    ensures inside ==> result == eps && parsedLen == size
  {
    hide ValidEp, FitsEp;
    var p, remainingLen, i := start, size, 0;
    parsedLen := 0;
    result := [];
    assert eps[0..] == eps;
    while remainingLen != 0
      invariant 0 <= i <= |eps| && i <= MAX_DEV_PER_SWITCH && result == eps[..i]
      invariant forall j :: 0 <= j < i ==> FitsEp(eps[j])
      invariant At(data, p, EpsBytes(eps[i..])) && p == start + parsedLen
      invariant remainingLen == |EpsBytes(eps[i..])| && parsedLen + remainingLen == size
      decreases |eps| - i
    {
      EpsStep(data, p, eps[i..]);
      assert eps[i..][0] == eps[i] && eps[i..][1..] == eps[i + 1..];
      if i == MAX_DEV_PER_SWITCH {
        return parsedLen, result, false;
      }
      var len, ep;
      len, ep, inside := EpPortAttachedEpParse(data, p, eps[i]);
      if !inside {
        return;
      }
      result := result + [ep];
      i := i + 1;
      p := p + len;
      parsedLen := parsedLen + len;
      remainingLen := remainingLen - len;
    }
    if i < |eps| {
      EpsStep(data, p, eps[i..]);
    }
    inside := true;
  }

  lemma EpsStep(data: bytes, p: nat, eps: seq<Ep>)
    requires At(data, p, EpsBytes(eps))
    ensures eps == [] ==> EpsBytes(eps) == []
    ensures eps != [] && ValidEp(eps[0]) ==>
              && At(data, p, EpBytes(eps[0])) && |EpBytes(eps[0])| >= EP_HDR_LEN
              && At(data, p + |EpBytes(eps[0])|, EpsBytes(eps[1..]))
              && |EpsBytes(eps)| == |EpBytes(eps[0])| + |EpsBytes(eps[1..])|
  {
    hide At;
    if eps != [] {
      AtSplit(data, p, EpBytes(eps[0]), EpsBytes(eps[1..]));
    }
  }

  method EpPortSubSectionParse(data: bytes, start: nat, ghost port: Port)
    returns (parsedLen: nat, result: Port, inside: bool)
    requires ValidPort(port) && At(data, start, PortBytes(port))
    ensures inside <==> FitsPort(port)
    ensures inside ==> result == port && parsedLen == |PortBytes(port)|
  {
    hide EpsBytes, EpBytes, ValidEp, FitsEp, FitsEps;
    AtSplit(data, start, port.hdr, AttachedBytes(port.attached));
    var p := start;
    var len := EP_HDR_LEN;
    var hdr := data[p..p + len];
    var remainingLen := SizeDw(hdr) * 4;
    p := p + len;
    parsedLen := len;
    remainingLen := remainingLen - len;
    result, inside := Port(hdr, Nothing), true;

    if hdr[0] == TYPE_SWITCH {
      ghost var sw := port.attached;
      AtSplit(data, p, sw.hdr + sw.internalFunctions, EpsBytes(sw.eps));
      var swHdr, internalFunctions, eps;
      len, swHdr, internalFunctions, inside := EpPortAttachedSwitchParse(data, p, sw);
      if !inside {
        return;
      }
      p := p + len;
      parsedLen := parsedLen + len;
      remainingLen := remainingLen - len;
      len, eps, inside := SwitchEpsParse(data, p, remainingLen, sw.eps);
      parsedLen := parsedLen + len;
      result := Port(hdr, Switch(swHdr, internalFunctions, eps));
    } else if hdr[0] == TYPE_EP {
      var ep;
      len, ep, inside := EpPortAttachedEpParse(data, p, port.attached.ep);
      parsedLen := parsedLen + len;
      result := Port(hdr, Device(ep));
    }
  }

  method EpPortAllSectionParse(data: bytes, start: nat, epPortAll: EpPortAll, ghost hdr: bytes, ghost ports: seq<Port>)
    returns (parsedLen: nat, inside: bool)
    requires ValidPortSection(hdr, ports) && At(data, start, hdr + PortsBytes(ports))
    requires epPortAll.epPorts.Length == MAX_DEV_PER_SWITCH
    modifies epPortAll, epPortAll.epPorts
    ensures inside <==> FitsPorts(ports)
    ensures inside ==>
              && epPortAll.hdr == hdr && epPortAll.epPorts[..|ports|] == ports
              && epPortAll.epPortCount == (if ports == [] then old(epPortAll.epPortCount) else |ports|)
              && parsedLen == |hdr + PortsBytes(ports)|
  {
    hide ValidPort, FitsPort, PortBytes, PortsBytes, RespSizeDw, At;
    AtSplit(data, start, hdr, PortsBytes(ports));
    AtSlice(data, start, hdr);
    var p: nat := start;
    var len := SECTION_HDR_LEN;
    epPortAll.hdr := data[p..p + len];
    parsedLen := len;
    p := p + len;
    var remainingLen := (RespSizeDw(epPortAll.hdr) * 4) % 0x1_0000_0000 - SECTION_HDR_LEN;

    var i := 0;
    assert ports[0..] == ports;
    while remainingLen != 0
      invariant 0 <= i <= |ports| && i <= MAX_DEV_PER_SWITCH && epPortAll.hdr == hdr
      invariant forall j :: 0 <= j < i ==> FitsPort(ports[j])
      invariant At(data, p, PortsBytes(ports[i..])) && p == start + parsedLen
      invariant remainingLen == |PortsBytes(ports[i..])|
      invariant parsedLen + remainingLen == |hdr + PortsBytes(ports)|
      invariant epPortAll.epPorts[..i] == ports[..i]
      invariant epPortAll.epPortCount == if i == 0 then old(epPortAll.epPortCount) else i
      decreases |ports| - i
    {
      PortsStep(data, p, ports[i..]);
      assert ports[i..][0] == ports[i] && ports[i..][1..] == ports[i + 1..];
      if i == MAX_DEV_PER_SWITCH {
        return parsedLen, false;
      }
      var port;
      len, port, inside := EpPortSubSectionParse(data, p, ports[i]);
      if !inside {
        return;
      }
      epPortAll.epPorts[i] := port;
      p := p + len;
      parsedLen := parsedLen + len;
      remainingLen := remainingLen - len;

      i := i + 1;
      epPortAll.epPortCount := i;
      assert epPortAll.epPorts[..i] == epPortAll.epPorts[..i - 1] + [port];
    }
    if i < |ports| {
      PortsStep(data, p, ports[i..]);
    }
    assert ports[..i] == ports;
    inside := true;
  }

  lemma PortsStep(data: bytes, p: nat, ports: seq<Port>)
    requires At(data, p, PortsBytes(ports))
    ensures ports == [] ==> PortsBytes(ports) == []
    ensures ports != [] && ValidPort(ports[0]) ==>
              && At(data, p, PortBytes(ports[0])) && |PortBytes(ports[0])| > 0
              && At(data, p + |PortBytes(ports[0])|, PortsBytes(ports[1..]))
              && |PortsBytes(ports)| == |PortBytes(ports[0])| + |PortsBytes(ports[1..])|
  {
    hide At, PortBytes, ValidPort;
    if ports != [] && ValidPort(ports[0]) {
      PortNotEmpty(ports[0]);
      AtSplit(data, p, PortBytes(ports[0]), PortsBytes(ports[1..]));
    }
  }

  /** Parsing inverts serialisation, and consumes exactly the bytes of the
      database, for every database whose lists fit the library's arrays; for
      every other one it copies past the end of some array. */
  method PaxAllParse(data: bytes, paxAll: PaxAll, ghost x: Pax) returns (parsedLen: nat, inside: bool)
    requires ValidPax(x) && At(data, 0, PaxBytes(x)) && paxAll.Valid()
    modifies paxAll.Repr()
    ensures inside <==> FitsPax(x)
    ensures inside ==>
              && paxAll.Holds(x, old(paxAll.hvdAll.hvdCount), old(paxAll.epPortAll.epPortCount))
              && parsedLen == |PaxBytes(x)|
  {
    hide ValidHvd, ValidPort, HvdsBytes, PortsBytes, RespSizeDw, FitsHvd, FitsPort;
    PaxAt(data, x);
    var p := 0;
    parsedLen := 0;
    var len := PAX_GENERAL_LEN;
    paxAll.general := data[..len];
    p := p + len;
    parsedLen := parsedLen + len;

    len, inside := HvdAllSectionParse(data, p, paxAll.hvdAll, x.hvdHdr, x.hvds);
    if !inside {
      return;
    }
    p := p + len;
    parsedLen := parsedLen + len;

    len, inside := EpPortAllSectionParse(data, p, paxAll.epPortAll, x.portHdr, x.ports);
    parsedLen := parsedLen + len;
  }

  // ----- retrieval

  datatype DumpCmd = Start(subcmd: nat, param: nat) | Get(subcmd: nat, offsetDw: nat) | Finish(subcmd: nat)

  datatype DumpRsp = DumpRsp(ret: int, dwLen: nat, offsetDw: nat, sizeDw: nat, data: bytes)

  /** A successful reply to a request at dword `offset`: some chunk of `db` starting there. */
  ghost predicate ServesChunk(rsp: DumpRsp, offset: nat, db: bytes) {
    && rsp.offsetDw == offset
    && 3 <= rsp.sizeDw <= 3 + 253
    && |rsp.data| == 253 * 4
    && (offset * 4 < |db| ==> rsp.sizeDw > 3)
    && At(db, offset * 4, rsp.data[..(rsp.sizeDw - 3) * 4])
  }

  /** A device that serves `db`, in chunks of its own choosing, whenever it does not fail. */
  ghost predicate Serves(reply: (nat, DumpCmd) -> DumpRsp, db: bytes) {
    && |db| % 4 == 0
    && (forall turn: nat, subcmd, param ::
          reply(turn, Start(subcmd, param)).ret == 0 ==> reply(turn, Start(subcmd, param)).dwLen * 4 == |db|)
    && (forall turn: nat, subcmd, offset: nat ::
          reply(turn, Get(subcmd, offset)).ret == 0 && offset * 4 <= |db| ==>
            ServesChunk(reply(turn, Get(subcmd, offset)), offset, db))
  }

  /** Requests that walk forward through the database. */
  ghost predicate Ascending(cmds: seq<DumpCmd>, subcmd: nat) {
    && (forall i :: 0 <= i < |cmds| ==> cmds[i].Get? && cmds[i].subcmd == subcmd)
    && (forall i, j :: 0 <= i < j < |cmds| ==> cmds[i].offsetDw < cmds[j].offsetDw)
  }

  method DumpGet(link: Link<DumpCmd, DumpRsp>, subcmd: nat, totalLenDw: nat, data: array<byte>, ghost db: bytes)
    returns (ret: int)
    requires Serves(link.reply, db) && totalLenDw * 4 == |db| == data.Length
    modifies link, data
    ensures ret == 0 ==> data[..] == db
    ensures |link.sent| > |old(link.sent)| && link.sent[..|old(link.sent)|] == old(link.sent)
    ensures Ascending(link.sent[|old(link.sent)|..], subcmd)
    ensures ret == link.reply(|link.sent| - 1, link.sent[|link.sent| - 1]).ret
  {
    hide Serves, Ascending, AllBelow;
    ghost var before, gets := link.sent, [];
    AscendingNone(subcmd);
    var offsetDw: nat := 0;
    ret := 0;
    var more := true;
    while more
      invariant 0 <= offsetDw <= totalLenDw
      invariant data[..offsetDw * 4] == db[..offsetDw * 4]
      invariant more ==> offsetDw < totalLenDw || gets == []
      invariant link.sent == before + gets && Ascending(gets, subcmd)
      invariant more ==> AllBelow(gets, offsetDw)
      invariant !more ==> gets != [] && ret == link.reply(|link.sent| - 1, gets[|gets| - 1]).ret
      invariant !more && ret == 0 ==> offsetDw == totalLenDw
      decreases more, totalLenDw - offsetDw
    {
      var sizeDw, rspOffsetDw;
      AscendingAppend(gets, subcmd, offsetDw);
      gets := gets + [Get(subcmd, offsetDw)];
      ret, rspOffsetDw, sizeDw := DumpChunk(link, subcmd, offsetDw, data, db);
      if ret != 0 {
        break;
      }
      offsetDw := offsetDw + sizeDw;
      more := totalLenDw > rspOffsetDw + sizeDw;
    }
    assert link.sent[|before|..] == gets;
  }

  /** One request, and the chunk that answers it put in its place. */
  method DumpChunk(link: Link<DumpCmd, DumpRsp>, subcmd: nat, offsetDw: nat, data: array<byte>, ghost db: bytes)
    returns (ret: int, rspOffsetDw: nat, sizeDw: nat)
    requires Serves(link.reply, db) && offsetDw * 4 <= |db| == data.Length
    requires data[..offsetDw * 4] == db[..offsetDw * 4]
    modifies link, data
    ensures link.sent == old(link.sent) + [Get(subcmd, offsetDw)]
    ensures ret == link.reply(|old(link.sent)|, Get(subcmd, offsetDw)).ret
    ensures ret == 0 ==>
              && rspOffsetDw == offsetDw && (offsetDw + sizeDw) * 4 <= |db|
              && (offsetDw * 4 < |db| ==> sizeDw > 0)
              && data[..(offsetDw + sizeDw) * 4] == db[..(offsetDw + sizeDw) * 4]
  {
    hide Serves;
    ghost var turn := |link.sent|;
    var rsp := link.Exec(Get(subcmd, offsetDw));
    if rsp.ret != 0 {
      return rsp.ret, 0, 0;
    }
    ServesAt(link.reply, db, turn, subcmd, offsetDw);
    sizeDw := rsp.sizeDw - 3;
    CopyChunk(data, offsetDw * 4, rsp.data, sizeDw * 4, db);
    return 0, rsp.offsetDw, sizeDw;
  }

  lemma ServesAt(reply: (nat, DumpCmd) -> DumpRsp, db: bytes, turn: nat, subcmd: nat, offset: nat)
    requires Serves(reply, db) && offset * 4 <= |db| && reply(turn, Get(subcmd, offset)).ret == 0
    ensures ServesChunk(reply(turn, Get(subcmd, offset)), offset, db)
  {
  }

  ghost predicate AllBelow(cmds: seq<DumpCmd>, offset: nat) {
    forall i :: 0 <= i < |cmds| ==> cmds[i].Get? && cmds[i].offsetDw < offset
  }

  lemma AscendingNone(subcmd: nat)
    ensures Ascending([], subcmd) && AllBelow([], 0)
  {
  }

  lemma AscendingAppend(cmds: seq<DumpCmd>, subcmd: nat, offset: nat)
    requires Ascending(cmds, subcmd) && AllBelow(cmds, offset)
    ensures Ascending(cmds + [Get(subcmd, offset)], subcmd)
    ensures forall later: nat :: later > offset ==> AllBelow(cmds + [Get(subcmd, offset)], later)
  {
  }

  /** Fetching and parsing: success leaves exactly the device's database in the
      caller's structure, and failure means that a command failed or memory ran
      out. Copies stay inside their arrays unless the database does not fit. */
  method DumpPaxAll(link: Link<DumpCmd, DumpRsp>, subcmd: nat, mallocOk: bool, paxAll: PaxAll, ghost x: Pax)
    returns (ret: int, inside: bool)
    requires ValidPax(x) && Serves(link.reply, PaxBytes(x)) && paxAll.Valid() && link !in paxAll.Repr()
    modifies link, paxAll.Repr()
    ensures inside <==> ret != 0 || FitsPax(x)
    ensures ret == 0 && inside ==> paxAll.Holds(x, old(paxAll.hvdAll.hvdCount), old(paxAll.epPortAll.epPortCount))
    ensures |link.sent| > 0
    ensures ret != 0 ==>
              || (!mallocOk && ret == -12)
              || ret == link.reply(|link.sent| - 1, link.sent[|link.sent| - 1]).ret
    ensures ret == 0 ==>
              exists gets :: Ascending(gets, subcmd)
                && link.sent == old(link.sent) + [Start(subcmd, 0)] + gets + [Finish(subcmd)]
  {
    hide PaxBytes, ValidHvd, ValidPort, FitsPax;
    var rsp := link.Exec(Start(subcmd, 0));
    if rsp.ret != 0 {
      return rsp.ret, true;
    }
    var totalLenDw := rsp.dwLen;
    if !mallocOk {
      return -ENOMEM, true;
    }
    var data := new byte[totalLenDw * 4];
    ghost var started := link.sent;
    ret := DumpGet(link, subcmd, totalLenDw, data, PaxBytes(x));
    if ret != 0 {
      return ret, true;
    }
    ghost var gets := link.sent[|started|..];
    assert link.sent == started + gets;
    rsp := link.Exec(Finish(subcmd));
    if rsp.ret != 0 {
      return rsp.ret, true;
    }
    assert At(data[..], 0, PaxBytes(x));
    var parsedLen;
    parsedLen, inside := PaxAllParse(data[..], paxAll, x);
    if inside && parsedLen != totalLenDw * 4 {
      ret := -1;
    }
  }
}
