/** Where a port's registers lie in the GAS: one slot after another, upstream
    ports first, then the management device, then downstream ports (lib/cap.c). */
module GasSlots {
  import opened Wrappers

  const CAP_GAS_BASE := 0x13_4000
  const CAP_DEV_STRIDE := 0x1000
  const UNBOUND_PORT := 255
  const U32 := 0x1_0000_0000

  /** The four numbers of a bus address; the domain is 0 when the text has none. */
  datatype Bdf = Bdf(domain: nat, bus: nat, device: nat, function_: nat)

  datatype Port = Port(partition: nat, upstream: bool, pciBdf: Option<string>)

  datatype PortInfo = PortInfo(upstream: bool, gasBase: nat, bdf: string)

  /** Bus addresses match when both texts can be read and name the same function. */
  predicate BdfMatch(parse: string -> Option<Bdf>, a: string, b: string) {
    parse(a).Some? && parse(a) == parse(b)
  }

  /** Ports the search passes over take no slot. */
  predicate Listed(port: Port) {
    port.partition != UNBOUND_PORT && port.pciBdf.Some?
  }

  function CountUsps(ports: seq<Port>): (n: nat)
    ensures n <= |ports|
  {
    if ports == [] then 0
    else CountUsps(ports[..|ports| - 1]) + if ports[|ports| - 1].upstream then 1 else 0
  }

  /** How many listed ports of a kind there are. */
  function CountListed(ports: seq<Port>, upstream: bool): (n: nat)
    ensures n <= |ports|
  {
    if ports == [] then 0
    else
      var last := ports[|ports| - 1];
      CountListed(ports[..|ports| - 1], upstream) + if Listed(last) && last.upstream == upstream then 1 else 0
  }

  function Slot(ports: seq<Port>, p: nat): nat
    requires p < |ports|
  {
    if ports[p].upstream then CountListed(ports[..p], true)
    else CountUsps(ports) + 1 + CountListed(ports[..p], false)
  }

  /** Unsigned 32-bit arithmetic. */
  function Wrap(n: nat): nat {
    n % U32
  }

  function GasBase(slot: nat): nat {
    Wrap(CAP_GAS_BASE + slot * CAP_DEV_STRIDE)
  }

  ghost predicate Matches(parse: string -> Option<Bdf>, port: Port, target: string) {
    port.partition != 255 && port.pciBdf.Some? && parse(port.pciBdf.value).Some? && parse(port.pciBdf.value) == parse(target)
  }

  /** Registers begin at 0x134000, 4 KiB to a slot, in 32 bits. */
  predicate AtSlot(base: nat, slot: nat) {
    base == (0x13_4000 + slot * 0x1000) % 0x1_0000_0000
  }

  /** Port `p` is the first that matches, and `info` is about it. */
  ghost predicate FoundAt(parse: string -> Option<Bdf>, ports: seq<Port>, target: string, info: PortInfo, p: nat) {
    && p < |ports| && Matches(parse, ports[p], target)
    && (forall j :: 0 <= j < p ==> !Matches(parse, ports[j], target))
    && info.bdf == ports[p].pciBdf.value && info.upstream == ports[p].upstream
    && AtSlot(info.gasBase, Slot(ports, p))
  }

  /** switchtec_find_port_by_bdf, once the device has reported its ports. */
  method FindPortByBdf(parse: string -> Option<Bdf>, ports: seq<Port>, target: string) returns (info: Option<PortInfo>)
    ensures info == None <==> forall p :: 0 <= p < |ports| ==> !Matches(parse, ports[p], target)
    ensures info.Some? ==> exists p :: FoundAt(parse, ports, target, info.value, p)
  {
    hide CountUsps, CountListed, Matches, BdfMatch, GasBase, Slot, Wrap, AtSlot;
    var numUsps := 0;
    CountsFrom(ports);
    for p := 0 to |ports|
      invariant numUsps == CountUsps(ports[..p])
    {
      CountStep(ports, p);
      if ports[p].upstream {
        numUsps := numUsps + 1;
      }
    }
    assert ports[..|ports|] == ports;
    var uspIdx, dspIdx := 0, 0;
    for p := 0 to |ports|
      invariant uspIdx == CountListed(ports[..p], true) && dspIdx == CountListed(ports[..p], false)
      invariant forall j :: 0 <= j < p ==> !Matches(parse, ports[j], target)
    {
      CountStep(ports, p);
      MatchesIs(parse, ports[p], target);
      var s := ports[p];
      if s.partition != UNBOUND_PORT && s.pciBdf.Some? {
        if BdfMatch(parse, s.pciBdf.value, target) {
          var gasBase :=
            if s.upstream then Wrap(CAP_GAS_BASE + uspIdx * CAP_DEV_STRIDE)
            else Wrap(CAP_GAS_BASE + (numUsps + 1) * CAP_DEV_STRIDE + dspIdx * CAP_DEV_STRIDE);
          SlotIs(ports, p);
          BaseIs(Slot(ports, p));
          var found := PortInfo(s.upstream, gasBase, s.pciBdf.value);
          assert FoundAt(parse, ports, target, found, p);
          return Some(found);
        }
        if s.upstream {
          uspIdx := uspIdx + 1;
        } else {
          dspIdx := dspIdx + 1;
        }
      }
    }
    return None;
  }

  /** The ports of a kind that come before `p` and take a slot: bound to a
      partition and with an address. */
  function Earlier(ports: seq<Port>, p: nat, upstream: bool): set<nat>
    requires p <= |ports|
  {
    set i: nat | i < p && ports[i].upstream == upstream && ports[i].partition != 255 && ports[i].pciBdf.Some?
  }

  function Upstreams(ports: seq<Port>): set<nat> {
    set i: nat | i < |ports| && ports[i].upstream
  }

  lemma {:induction false} ListedIsEarlier(ports: seq<Port>, p: nat, upstream: bool)
    requires p <= |ports|
    ensures CountListed(ports[..p], upstream) == |Earlier(ports, p, upstream)|
  {
    if p > 0 {
      ListedIsEarlier(ports, p - 1, upstream);
      CountStep(ports, p - 1);
      var before, now := Earlier(ports, p - 1, upstream), Earlier(ports, p, upstream);
      if ports[p - 1].upstream == upstream && Listed(ports[p - 1]) {
        assert now == before + {p - 1};
      } else {
        assert now == before;
      }
    } else {
      assert Earlier(ports, 0, upstream) == {};
    }
  }

  lemma {:induction false} UspsAreUpstreams(ports: seq<Port>)
    ensures CountUsps(ports) == |Upstreams(ports)|
  {
    if ports != [] {
      var most := ports[..|ports| - 1];
      UspsAreUpstreams(most);
      if ports[|ports| - 1].upstream {
        assert Upstreams(ports) == Upstreams(most) + {|ports| - 1};
      } else {
        assert Upstreams(ports) == Upstreams(most);
      }
    } else {
      assert Upstreams(ports) == {};
    }
  }

  /** Which slot a port has, by counting ports. */
  lemma SlotCounts(ports: seq<Port>, p: nat)
    requires p < |ports|
    ensures Slot(ports, p) ==
            if ports[p].upstream then |Earlier(ports, p, true)|
            else |Upstreams(ports)| + 1 + |Earlier(ports, p, false)|
  {
    ListedIsEarlier(ports, p, ports[p].upstream);
    UspsAreUpstreams(ports);
  }

  lemma CountsFrom(ports: seq<Port>)
    ensures CountUsps(ports[..0]) == 0 && CountListed(ports[..0], true) == 0 && CountListed(ports[..0], false) == 0
  {
  }

  lemma CountStep(ports: seq<Port>, p: nat)
    requires p < |ports|
    ensures CountUsps(ports[..p + 1]) == CountUsps(ports[..p]) + if ports[p].upstream then 1 else 0
    ensures forall up :: CountListed(ports[..p + 1], up) ==
              CountListed(ports[..p], up) + if Listed(ports[p]) && ports[p].upstream == up then 1 else 0
  {
    assert ports[..p + 1][..p] == ports[..p];
  }

  lemma MatchesIs(parse: string -> Option<Bdf>, port: Port, target: string)
    ensures Matches(parse, port, target) <==> Listed(port) && BdfMatch(parse, port.pciBdf.value, target)
  {
  }

  lemma BaseIs(slot: nat)
    ensures AtSlot(GasBase(slot), slot)
  {
  }

  lemma SlotIs(ports: seq<Port>, p: nat)
    requires p < |ports|
    ensures GasBase(Slot(ports, p)) ==
            if ports[p].upstream then Wrap(CAP_GAS_BASE + CountListed(ports[..p], true) * CAP_DEV_STRIDE)
            else Wrap(CAP_GAS_BASE + (CountUsps(ports) + 1) * CAP_DEV_STRIDE + CountListed(ports[..p], false) * CAP_DEV_STRIDE)
  {
    hide CountUsps, CountListed, Wrap;
  }

  lemma {:induction false} ListedBefore(ports: seq<Port>, p: nat, q: nat)
    requires p < q <= |ports| && Listed(ports[p])
    ensures CountListed(ports[..p], ports[p].upstream) < CountListed(ports[..q], ports[p].upstream)
  {
    assert ports[..q][..q - 1] == ports[..q - 1];
    if p < q - 1 {
      ListedBefore(ports, p, q - 1);
    }
  }

  lemma {:induction false} ListedUspsAreUsps(ports: seq<Port>)
    ensures CountListed(ports, true) <= CountUsps(ports)
  {
    if ports != [] {
      ListedUspsAreUsps(ports[..|ports| - 1]);
    }
  }

  lemma {:induction false} KindsAddUp(ports: seq<Port>)
    ensures CountUsps(ports) + CountListed(ports, false) <= |ports|
  {
    if ports != [] {
      KindsAddUp(ports[..|ports| - 1]);
    }
  }

  /** Upstream ports stay in the first slots, one for each upstream port, the next
      is left to the management device, and downstream ports lie after it. */
  lemma SlotRegions(ports: seq<Port>, p: nat)
    requires p < |ports| && Listed(ports[p])
    ensures if ports[p].upstream then Slot(ports, p) < CountUsps(ports) <= |ports|
            else CountUsps(ports) < Slot(ports, p) <= |ports|
  {
    ListedBefore(ports, p, |ports|);
    assert ports[..|ports|] == ports;
    ListedUspsAreUsps(ports);
    KindsAddUp(ports);
  }

  /** Different ports have different registers, as long as the slots fit in 32 bits. */
  lemma BasesApart(ports: seq<Port>, p: nat, q: nat)
    requires p < q < |ports| && Listed(ports[p]) && Listed(ports[q])
    requires CAP_GAS_BASE + (|ports| + 1) * CAP_DEV_STRIDE <= U32
    ensures GasBase(Slot(ports, p)) != GasBase(Slot(ports, q))
  {
    hide GasBase, CountListed, CountUsps;
    SlotRegions(ports, p);
    SlotRegions(ports, q);
    ListedBefore(ports, p, q);
    assert Slot(ports, p) != Slot(ports, q);
    BaseFits(Slot(ports, p), |ports|);
    BaseFits(Slot(ports, q), |ports|);
  }

  lemma BaseFits(slot: nat, most: nat)
    requires slot <= most && CAP_GAS_BASE + (most + 1) * CAP_DEV_STRIDE <= U32
    ensures GasBase(slot) == CAP_GAS_BASE + slot * CAP_DEV_STRIDE
  {
  }

  /** Among ports with different bus addresses, the search for the function at one
      port's address, however it is written, finds that port. */
  lemma FirstMatchIsOwn(parse: string -> Option<Bdf>, ports: seq<Port>, target: string, p: nat, q: nat)
    requires p < |ports| && q < |ports|
    requires ports[p].partition != 255 && ports[p].pciBdf.Some? && parse(ports[p].pciBdf.value).Some?
    requires parse(ports[p].pciBdf.value) == parse(target)
    requires forall i, j :: 0 <= i < j < |ports| && ports[i].pciBdf.Some? && ports[j].pciBdf.Some? ==>
               parse(ports[i].pciBdf.value) == None || parse(ports[i].pciBdf.value) != parse(ports[j].pciBdf.value)
    ensures Matches(parse, ports[q], target) <==> q == p
  {
  }
}
