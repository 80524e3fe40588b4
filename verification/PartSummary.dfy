/** The firmware partition summary (lib/fw.c): one block of image records with
    pointers into it, and a linked list threaded through its tail. */
module PartSummary {
  import opened Wrappers

  const NR_MCFG := 16
  const TYPE_BOOT := 1
  const TYPE_DBG := 11

  class ImageInfo {
    var fwType: nat
    var active: bool
    var partAddr: int
    var partLen: int
    var next: ImageInfo?

    constructor ()
      ensures fwType == 0 && !active && next == null
    {
      fwType, active, partAddr, partLen, next := 0, false, 0, 0, null;
    }
  }

  /** What the device reports of a partition. */
  datatype Partition = Partition(fwType: nat, active: bool)

  datatype Extent = Extent(addr: int, len: int)

  /** The device's answers about multiple configurations; negative is a failed
      command. It answers for an extent at each of the sixteen indices. */
  datatype MultiCfg = MultiCfg(supported: int, count: int, extents: seq<Extent>, activeIndex: int) {
    predicate Answers() {
      |extents| == NR_MCFG
    }
  }

  class Summary {
    const activeOf: array<ImageInfo?>    // indexed by partition type
    const inactiveOf: array<ImageInfo?>
    var multCfg: ImageInfo?
    const nrInfo: nat
    const all: seq<ImageInfo>            // one block of records

    constructor (nrInfo: nat)
      ensures this.nrInfo == nrInfo && multCfg == null
      ensures |all| == nrInfo + NR_MCFG && activeOf.Length == inactiveOf.Length == TYPE_DBG + 1
      ensures fresh(activeOf) && fresh(inactiveOf) && activeOf != inactiveOf
      ensures Distinct(all) && Unlinked(all) && (forall i :: 0 <= i < |all| ==> fresh(all[i]))
      ensures forall t :: 0 <= t <= TYPE_DBG ==> activeOf[t] == null && inactiveOf[t] == null
    {
      this.nrInfo := nrInfo;
      multCfg := null;
      var block: seq<ImageInfo> := [];
      for i := 0 to nrInfo + NR_MCFG
        invariant |block| == i && Distinct(block) && Unlinked(block)
        invariant forall j :: 0 <= j < i ==> fresh(block[j])
      {
        var blank := new ImageInfo();
        block := block + [blank];
      }
      activeOf := new ImageInfo?[TYPE_DBG + 1](t => null);
      inactiveOf := new ImageInfo?[TYPE_DBG + 1](t => null);
      all := block;
    }
  }

  ghost predicate Distinct(infos: seq<ImageInfo>) {
    forall j, k :: 0 <= j < k < |infos| ==> infos[j] != infos[k]
  }

  /** The number of extra configurations that end up in the list. */
  function McfgCount(m: MultiCfg): (n: nat)
    ensures n <= NR_MCFG
  {
    if m.supported <= 0 || m.count < 0 || m.activeIndex < 0 then 0
    else if m.count < NR_MCFG then m.count else NR_MCFG
  }

  /** get_multicfg, on the records after the partitions. */
  method GetMulticfg(m: MultiCfg, info: seq<ImageInfo>) returns (ret: int, nrMult: nat)
    requires m.Answers() && |info| == NR_MCFG && Distinct(info)
    modifies info`partAddr, info`partLen, info`active
    ensures (if ret != 0 then 0 else nrMult) == McfgCount(m)
    ensures ret == 0 ==> nrMult == if m.supported == 0 then 0 else if m.count < 16 then m.count else 16
    ensures ret != 0 ==> ret < 0 && (ret == m.supported || ret == m.count || ret == m.activeIndex)
    ensures Configured(info[..McfgCount(m)], m)
  {
    nrMult := NR_MCFG;
    ret := m.supported;
    if ret < 0 {
      return;
    }
    if ret == 0 {
      return 0, 0;
    }
    ret := m.count;
    if ret < 0 {
      return;
    }
    if nrMult > ret {
      nrMult := ret;
    }
    for i := 0 to nrMult
      invariant forall j :: 0 <= j < i ==>
                  info[j].partAddr == m.extents[j].addr && info[j].partLen == m.extents[j].len && !info[j].active
    {
      info[i].partAddr := m.extents[i].addr;
      info[i].partLen := m.extents[i].len;
      info[i].active := false;
    }
    ret := m.activeIndex;
    if ret < 0 {
      return;
    }
    if ret < nrMult {
      info[ret].active := true;
    }
    return 0, nrMult;
  }

  /** The records hold the configurations the device reported, the active one flagged. */
  ghost predicate Configured(infos: seq<ImageInfo>, m: MultiCfg)
    requires |infos| <= |m.extents|
    reads infos`partAddr, infos`partLen, infos`active
  {
    forall i :: 0 <= i < |infos| ==>
      infos[i].partAddr == m.extents[i].addr && infos[i].partLen == m.extents[i].len
      && infos[i].active == (i == m.activeIndex)
  }

  /** The records hold the partitions the device reported. */
  ghost predicate Recorded(infos: seq<ImageInfo>, ps: seq<Partition>)
    reads infos`fwType, infos`active
  {
    |infos| == |ps| &&
    forall i :: 0 <= i < |ps| ==> infos[i].fwType == ps[i].fwType && infos[i].active == ps[i].active
  }

  ghost predicate Unlinked(infos: seq<ImageInfo>)
    reads infos`next
  {
    forall i :: 0 <= i < |infos| ==> infos[i].next == null
  }

  predicate KnownType(t: nat) {
    TYPE_BOOT <= t <= TYPE_DBG
  }

  /** The last partition of type `t` with the given flag, or -1. */
  function LastOf(ps: seq<Partition>, t: nat, active: bool): (k: int)
    ensures -1 <= k < |ps|
    ensures k >= 0 ==> ps[k] == Partition(t, active)
    ensures forall i :: k < i < |ps| ==> ps[i] != Partition(t, active)
  {
    if ps == [] then -1
    else if ps[|ps| - 1] == Partition(t, active) then |ps| - 1
    else LastOf(ps[..|ps| - 1], t, active)
  }

  /** `p` heads a null-terminated list of exactly `infos`, in order. */
  ghost predicate Chain(p: ImageInfo?, infos: seq<ImageInfo>)
    reads infos`next
  {
    if infos == [] then p == null else p == infos[0] && Chain(infos[0].next, infos[1..])
  }

  /** Every slot points at the last partition of its type and flag, if there is one. */
  ghost predicate Classified(s: Summary, ps: seq<Partition>)
    requires |ps| <= |s.all| && s.activeOf.Length == s.inactiveOf.Length == TYPE_DBG + 1
    reads s.activeOf, s.inactiveOf
  {
    forall t :: 0 <= t <= TYPE_DBG ==>
      && s.activeOf[t] == (if LastOf(ps, t, true) < 0 then null else s.all[LastOf(ps, t, true)])
      && s.inactiveOf[t] == (if LastOf(ps, t, false) < 0 then null else s.all[LastOf(ps, t, false)])
  }

  lemma {:induction false} ChainFrom(infos: seq<ImageInfo>, k: nat)
    requires k <= |infos|
    requires forall i :: k <= i < |infos| - 1 ==> infos[i].next == infos[i + 1]
    requires infos != [] ==> infos[|infos| - 1].next == null
    ensures Chain(if k < |infos| then infos[k] else null, infos[k..])
    decreases |infos| - k
  {
    if k < |infos| {
      ChainFrom(infos, k + 1);
      assert infos[k..][1..] == infos[k + 1..];
    }
  }

  /** A chain through distinct records visits each once and ends: its n-th link
      is the n-th record. */
  lemma {:induction false} ChainLinks(p: ImageInfo?, infos: seq<ImageInfo>, i: nat)
    requires Chain(p, infos) && i < |infos|
    ensures infos[i].next == if i + 1 < |infos| then infos[i + 1] else null
    decreases |infos|
  {
    if i > 0 {
      ChainLinks(infos[0].next, infos[1..], i - 1);
    } else if |infos| > 1 {
      assert Chain(infos[0].next, infos[1..]);
    }
  }

  lemma McfgCountIs(m: MultiCfg)
    ensures McfgCount(m) ==
            if m.supported > 0 && m.count >= 0 && m.activeIndex >= 0 then if m.count < 16 then m.count else 16 else 0
  {
  }

  datatype Generation = Gen3 | Gen4 | Gen5 | Gen6 | Other

  /** How many partitions a generation has. */
  function NrInfo(gen: Generation): nat {
    match gen case Gen3 => 8 case Gen4 => 12 case Gen5 => 14 case Gen6 => 16 case Other => 0
  }

  /** switchtec_fw_part_summary. `parts` is what switchtec_fw_part_info reads, if it
      reads them all. */
  method FwPartSummary(gen: Generation, mallocOk: bool, parts: Option<seq<Partition>>, m: MultiCfg) returns (s: Summary?)
    requires m.Answers() && (parts.Some? ==> |parts.value| == NrInfo(gen))
    ensures s == null <==>
            gen == Other || !mallocOk || parts == None ||
            exists i :: 0 <= i < |parts.value| && !(1 <= parts.value[i].fwType <= 11)
    ensures s != null ==>
              var ps := parts.value;
              && |ps| == s.nrInfo == (match gen case Gen3 => 8 case Gen4 => 12 case Gen5 => 14 case _ => 16)
              && |s.all| == |ps| + 16 && s.activeOf.Length == s.inactiveOf.Length == 12
              && Distinct(s.all) && Recorded(s.all[..|ps|], ps) && Unlinked(s.all[..|ps|])
              && Classified(s, ps)
    ensures s != null ==>
              var ps := parts.value;
              var configs := if m.supported > 0 && m.count >= 0 && m.activeIndex >= 0
                             then if m.count < 16 then m.count else 16 else 0;
              Chain(s.multCfg, s.all[|ps|..|ps| + configs]) && Configured(s.all[|ps|..|ps| + configs], m)
  {
    hide Distinct, Recorded, Unlinked, Classified, Chain, Configured;
    McfgCountIs(m);
    if gen == Other {
      return null;
    }
    if !mallocOk {
      return null;
    }
    if parts == None {
      return null;
    }
    s := Summarise(parts.value, m);
  }

  /** The rest of it, in the block of records. */
  method Summarise(ps: seq<Partition>, m: MultiCfg) returns (s: Summary?)
    requires m.Answers()
    ensures s == null <==> exists i :: 0 <= i < |ps| && !KnownType(ps[i].fwType)
    ensures s != null ==>
              && s.nrInfo == |ps| && |s.all| == |ps| + NR_MCFG
              && s.activeOf.Length == s.inactiveOf.Length == TYPE_DBG + 1
              && Distinct(s.all) && Recorded(s.all[..|ps|], ps) && Unlinked(s.all[..|ps|])
              && Classified(s, ps)
              && Chain(s.multCfg, s.all[|ps|..|ps| + McfgCount(m)])
              && Configured(s.all[|ps|..|ps| + McfgCount(m)], m)
  {
    hide Classified, Chain, LastOf, Recorded, Configured, Unlinked, Distinct, McfgCount;
    var summary := new Summary(|ps|);
    var head, tail := summary.all[..|ps|], summary.all[|ps|..];
    ghost var configs := summary.all[|ps|..|ps| + McfgCount(m)];
    Halves(summary.all, |ps|, McfgCount(m));
    var nrMcfg := ReadDevice(head, tail, ps, m, configs);
    var known := Classify(summary, ps);
    if !known {
      return null;
    }
    assert Configured(configs, m) && Recorded(head, ps);
    Link(summary, nrMcfg, head, configs);
    assert Configured(configs, m) && Recorded(head, ps);
    return summary;
  }

  /** The records of the partitions, then those of the configurations. */
  method ReadDevice(head: seq<ImageInfo>, tail: seq<ImageInfo>, ps: seq<Partition>, m: MultiCfg,
                    ghost configs: seq<ImageInfo>)
    returns (nrMcfg: nat)
    requires m.Answers() && |head| == |ps| && |tail| == NR_MCFG && Distinct(head) && Distinct(tail)
    requires configs == tail[..McfgCount(m)]
    requires forall x | x in head :: x !in tail
    modifies head`fwType, head`active, tail`partAddr, tail`partLen, tail`active
    ensures nrMcfg == McfgCount(m)
    ensures Recorded(head, ps) && Configured(configs, m)
  {
    hide Distinct, Configured;
    ReadPartitions(head, ps);
    forall i | 0 <= i < |head| ensures head[i] !in tail {
      assert head[i] in head;
    }
    var ret;
    ret, nrMcfg := GetMulticfg(m, tail);
    if ret != 0 {
      nrMcfg := 0;
    }
  }

  lemma Halves(infos: seq<ImageInfo>, n: nat, k: nat)
    requires n + k <= |infos| && Distinct(infos)
    ensures Distinct(infos[..n]) && Distinct(infos[n..])
    ensures forall x | x in infos[..n] :: x !in infos[n..]
    ensures infos[n..n + k] == infos[n..][..k]
  {
  }

  /** switchtec_fw_part_info fills in the records of the partitions. */
  method ReadPartitions(infos: seq<ImageInfo>, ps: seq<Partition>)
    requires |ps| == |infos| && Distinct(infos)
    modifies infos`fwType, infos`active
    ensures Recorded(infos, ps)
  {
    for i := 0 to |ps|
      invariant forall j :: 0 <= j < i ==> infos[j].fwType == ps[j].fwType && infos[j].active == ps[j].active
    {
      infos[i].fwType := ps[i].fwType;
      infos[i].active := ps[i].active;
    }
  }

  /** The loop that hangs each partition on its type. */
  method Classify(s: Summary, ps: seq<Partition>) returns (known: bool)
    requires |ps| <= |s.all| && s.activeOf.Length == s.inactiveOf.Length == TYPE_DBG + 1
    requires s.activeOf != s.inactiveOf
    requires Recorded(s.all[..|ps|], ps)
    requires forall t :: 0 <= t <= TYPE_DBG ==> s.activeOf[t] == null && s.inactiveOf[t] == null
    modifies s.activeOf, s.inactiveOf
    ensures known <==> forall i :: 0 <= i < |ps| ==> KnownType(ps[i].fwType)
    ensures known ==> Classified(s, ps)
  {
    for i := 0 to |ps|
      invariant forall j :: 0 <= j < i ==> KnownType(ps[j].fwType)
      invariant Classified(s, ps[..i])
    {
      var info := s.all[i];
      assert info == s.all[..|ps|][i];
      if !KnownType(info.fwType) {
        return false;
      }
      if info.active {
        s.activeOf[info.fwType] := info;
      } else {
        s.inactiveOf[info.fwType] := info;
      }
      assert ps[..i + 1][..i] == ps[..i] && ps[..i + 1][i] == Partition(info.fwType, info.active);
    }
    assert ps[..|ps|] == ps;
    return true;
  }

  /** The loop that threads the configurations onto the list, through a pointer to the last link. */
  method Link(s: Summary, nrMcfg: nat, ghost head: seq<ImageInfo>, ghost configs: seq<ImageInfo>)
    requires s.nrInfo + nrMcfg <= |s.all| && Distinct(s.all) && Unlinked(s.all) && s.multCfg == null
    requires head == s.all[..s.nrInfo] && configs == s.all[s.nrInfo..s.nrInfo + nrMcfg]
    modifies s`multCfg, s.all`next
    ensures Chain(s.multCfg, configs) && Unlinked(head)
  {
    ghost var infos := s.all;
    var last: ImageInfo? := null;  // whose link is to be written next; null for the head
    for i := s.nrInfo to s.nrInfo + nrMcfg
      invariant last == if i == s.nrInfo then null else infos[i - 1]
      invariant s.multCfg == if i == s.nrInfo then null else infos[s.nrInfo]
      invariant forall j :: s.nrInfo <= j < i - 1 ==> infos[j].next == infos[j + 1]
      invariant forall j :: 0 <= j < |infos| && (j < s.nrInfo || i - 1 <= j) ==> infos[j].next == null
    {
      if last == null {
        s.multCfg := s.all[i];
      } else {
        last.next := s.all[i];
      }
      last := s.all[i];
    }
    ChainFrom(configs, 0);
    assert configs[0..] == configs;
  }
}
