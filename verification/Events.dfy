/** Event summaries (lib/events.c): bitmaps of events, and the iterator that
    consumes them in place. A word is modelled as the set of its set bits. */
module Events {
  import opened Wrappers

  const EINVAL := 22
  const MAX_PARTS := 48
  const MAX_PFF := 255
  const IDX_LOCAL := -1
  const IDX_ALL := -2

  datatype EventType = Global | Part | Pff

  datatype EventId =
    | StackError | PpuError | IspError | SysReset | FwExc | FwNmi | FwNonFatal | FwFatal
    | TwiMrpcComp | TwiMrpcCompAsync | CliMrpcComp | CliMrpcCompAsync | GpioInt | Gfms
    | PartReset | MrpcComp | MrpcCompAsync | DynPartBindComp
    | AerInP2p | AerInVep | Dpc | Cts | Uec | Hotplug | Ier | Thresh | PowerMgmt
    | TlpThrottling | ForceSpeed | CreditTimeout | LinkState
    | AssertErr

  /** The table `events`: an event's type and summary bit. */
  function Entry(e: EventId): (EventType, nat) {
    match e
    case StackError => (Global, 0)
    case PpuError => (Global, 1)
    case IspError => (Global, 2)
    case SysReset => (Global, 3)
    case FwExc => (Global, 4)
    case FwNmi => (Global, 5)
    case FwNonFatal => (Global, 6)
    case FwFatal => (Global, 7)
    case TwiMrpcComp => (Global, 8)
    case TwiMrpcCompAsync => (Global, 9)
    case CliMrpcComp => (Global, 10)
    case CliMrpcCompAsync => (Global, 11)
    case GpioInt => (Global, 12)
    case Gfms => (Global, 13)
    case PartReset => (Part, 0)
    case MrpcComp => (Part, 1)
    case MrpcCompAsync => (Part, 2)
    case DynPartBindComp => (Part, 3)
    case AerInP2p => (Pff, 0)
    case AerInVep => (Pff, 1)
    case Dpc => (Pff, 2)
    case Cts => (Pff, 3)
    case Uec => (Pff, 4)
    case Hotplug => (Pff, 5)
    case Ier => (Pff, 6)
    case Thresh => (Pff, 7)
    case PowerMgmt => (Pff, 8)
    case TlpThrottling => (Pff, 9)
    case ForceSpeed => (Pff, 10)
    case CreditTimeout => (Pff, 11)
    case LinkState => (Pff, 12)
    case AssertErr => (Global, 3)
  }

  const GLOBAL_EVENT_BITS: seq<EventId> :=
    [StackError, PpuError, IspError, SysReset, FwExc, FwNmi, FwNonFatal, FwFatal,
     TwiMrpcComp, TwiMrpcCompAsync, CliMrpcComp, CliMrpcCompAsync, GpioInt]
  const PART_EVENT_BITS: seq<EventId> := [PartReset, MrpcComp, MrpcCompAsync, DynPartBindComp]
  const PFF_EVENT_BITS: seq<EventId> :=
    [AerInP2p, AerInVep, Dpc, Cts, Uec, Hotplug, Ier, Thresh, PowerMgmt,
     TlpThrottling, ForceSpeed, CreditTimeout, LinkState]

  /** The reverse tables; an entry they leave at -1 is None. */
  function Reverse(t: EventType, bit: nat, gen6: bool): Option<EventId> {
    var table := match t case Global => GLOBAL_EVENT_BITS case Part => PART_EVENT_BITS case Pff => PFF_EVENT_BITS;
    if t == Global && bit == 3 && gen6 then Some(AssertErr)
    else if bit < |table| then Some(table[bit])
    else None
  }

  /** The events a device of the generation is known to report. */
  predicate Reportable(e: EventId, gen6: bool) {
    e != Gfms && e != (if gen6 then SysReset else AssertErr)
  }

  /** Exactly which events the iterator reports under their own name. */
  lemma ReportedAsItself(e: EventId, gen6: bool)
    ensures Reverse(Entry(e).0, Entry(e).1, gen6) == Some(e) <==> Reportable(e, gen6)
  {
  }

  /** The value of an event in the library's enumeration (inc/switchtec/switchtec.h). */
  function EventValue(e: EventId): nat {
    match e
    case StackError => 0 case PpuError => 1 case IspError => 2 case SysReset => 3
    case FwExc => 4 case FwNmi => 5 case FwNonFatal => 6 case FwFatal => 7
    case TwiMrpcComp => 8 case TwiMrpcCompAsync => 9 case CliMrpcComp => 10 case CliMrpcCompAsync => 11
    case GpioInt => 12 case Gfms => 13 case PartReset => 14 case MrpcComp => 15
    case MrpcCompAsync => 16 case DynPartBindComp => 17 case AerInP2p => 18 case AerInVep => 19
    case Dpc => 20 case Cts => 21 case Uec => 22 case Hotplug => 23
    case Ier => 24 case Thresh => 25 case PowerMgmt => 26 case TlpThrottling => 27
    case ForceSpeed => 28 case CreditTimeout => 29 case LinkState => 30 case AssertErr => 31
  }

  /** The events of each kind have the bits from 0 on, in the order of their values;
      only the last one breaks it. */
  lemma EventBits(e: EventId)
    ensures var v := EventValue(e);
            Entry(e) ==
            if v < 14 then (Global, v) else if v < 18 then (Part, v - 14) else if v < 31 then (Pff, v - 18) else (Global, 3)
  {
  }

  // ----- the bits of a summary

  datatype Item = Item(group: EventType, index: nat, bit: nat)

  datatype Words = Words(global: set<nat>, part: seq<set<nat>>, pff: seq<set<nat>>)

  /** The bits ffs can see: it looks at 32 of them. */
  function Visible(w: set<nat>): set<nat> {
    set b | b in w && b < 32
  }

  function Items(w: Words): set<Item> {
    (set b | b in Visible(w.global) :: Item(Global, 0, b)) +
    (set i, b | 0 <= i < |w.part| && b in Visible(w.part[i]) :: Item(Part, i, b)) +
    (set i, b | 0 <= i < |w.pff| && b in Visible(w.pff[i]) :: Item(Pff, i, b))
  }

  lemma ItemsContain(w: Words, x: Item)
    ensures x in Items(w) <==>
            && x.bit < 32
            && match x.group
               case Global => x.index == 0 && x.bit in w.global
               case Part => x.index < |w.part| && x.bit in w.part[x.index]
               case Pff => x.index < |w.pff| && x.bit in w.pff[x.index]
  {
  }

  function Rank(t: EventType): nat {
    match t case Global => 0 case Part => 1 case Pff => 2
  }

  /** Globals first, then partitions, then ports; by index, then lowest bit first. */
  predicate Before(x: Item, y: Item) {
    || Rank(x.group) < Rank(y.group)
    || (x.group == y.group && x.index < y.index)
    || (x.group == y.group && x.index == y.index && x.bit < y.bit)
  }

  ghost predicate Least(x: Item, xs: set<Item>) {
    x in xs && forall y :: y in xs && y != x ==> Before(x, y)
  }

  /** ffs: one more than the lowest visible bit, or 0. */
  function Ffs(w: set<nat>): (n: nat)
    ensures n == 0 <==> Visible(w) == {}
    ensures n > 0 ==> n - 1 in Visible(w) && forall b :: b in Visible(w) ==> n - 1 <= b
  {
    FfsFrom(w, 0)
  }

  function FfsFrom(w: set<nat>, i: nat): (n: nat)
    requires i <= 32 && forall b :: b in w ==> i <= b
    ensures n == 0 <==> Visible(w) == {}
    ensures n > 0 ==> n - 1 in Visible(w) && forall b :: b in Visible(w) ==> n - 1 <= b
    decreases 32 - i
  {
    if i == 32 then assert Visible(w) == {}; 0
    else if i in w then assert i in Visible(w); i + 1
    else FfsFrom(w, i + 1)
  }

  /** Clearing with an int mask: the mask of bit 31 is sign-extended over the upper half. */
  function ClearGlobal(w: set<nat>, bit: nat): set<nat> {
    if bit == 31 then set b | b in w && b < 31 else w - {bit}
  }

  // ----- summaries

  class Summary {
    var global: set<nat>
    var localPart: set<nat>
    const part: array<set<nat>>
    const pff: array<set<nat>>

    constructor ()
      ensures Valid() && fresh(part) && fresh(pff)
      ensures Contents() == Words({}, seq(MAX_PARTS, i => {}), seq(MAX_PFF, i => {})) && localPart == {}
    {
      global, localPart := {}, {};
      part := new set<nat>[MAX_PARTS](i => {});
      pff := new set<nat>[MAX_PFF](i => {});
    }

    predicate Valid() {
      part.Length == MAX_PARTS && pff.Length == MAX_PFF && part != pff
    }

    function Contents(): Words
      reads this, part, pff
    {
      Words(global, part[..], pff[..])
    }

    /** switchtec_event_summary_set */
    method Set(e: EventId, index: int) returns (ret: int)
      requires Valid()
      modifies this, part, pff
      ensures ret == if RequestOk(e, index) then 0 else -22
      ensures Contents() == if ret == 0 then AddRequest(old(Contents()), e, index) else old(Contents())
      ensures localPart == old(localPart) +
                (if Entry(e).0 == Part && index == IDX_LOCAL then {Entry(e).1} else {})
    {
      hide Entry, OrAll, AddRequest, RequestOk;
      RequestIs(Contents(), e, index);
      var (t, bit) := Entry(e);
      match t {
        case Global =>
          global := global + {bit};
        case Part =>
          if index == IDX_LOCAL {
            localPart := localPart + {bit};
          } else if index == IDX_ALL {
            SetAll(part, bit);
          } else if index < 0 || index >= part.Length {
            return -EINVAL;
          } else {
            ghost var words := part[..];
            part[index] := part[index] + {bit};
            assert part[..] == words[index := words[index] + {bit}];
          }
        case Pff =>
          if index == IDX_ALL {
            SetAll(pff, bit);
          } else if index < 0 || index >= pff.Length {
            return -EINVAL;
          } else {
            ghost var words := pff[..];
            pff[index] := pff[index] + {bit};
            assert pff[..] == words[index := words[index] + {bit}];
          }
      }
      return 0;
    }

    /** switchtec_event_summary_iter: hands out the first pending bit and clears it. */
    method Iter(gen6: bool) returns (ret: int, e: Option<EventId>, idx: nat, ghost item: Item)
      requires Valid()
      modifies this, part, pff
      ensures ret == 0 || ret == 1
      ensures ret == 0 ==> Items(old(Contents())) == {} && Contents() == old(Contents())
      ensures ret == 1 ==>
                && Least(item, Items(old(Contents())))
                && Contents() == ClearItem(old(Contents()), item)
                && e == Reverse(item.group, item.bit, gen6) && idx == item.index
      ensures localPart == old(localPart)
    {
      hide Items, Visible, Least, Reverse, ClearGlobal, Before;
      ghost var before := Contents();
      NoneVisible(before);
      e, idx, item := None, 0, Item(Global, 0, 0);
      var n := Ffs(global);
      if n > 0 {
        e := Reverse(Global, n - 1, gen6);
        global := ClearGlobal(global, n - 1);
        item := Item(Global, 0, n - 1);
        LeastGlobal(before, n - 1);
        return 1, e, idx, item;
      }
      assert Visible(before.global) == {};
      while idx < part.Length
        invariant 0 <= idx <= part.Length && Contents() == before
        invariant forall i :: 0 <= i < idx ==> Visible(before.part[i]) == {}
      {
        n := Ffs(part[idx]);
        if n > 0 {
          e := Reverse(Part, n - 1, gen6);
          part[idx] := part[idx] - {n - 1};
          assert part[..] == before.part[idx := before.part[idx] - {n - 1}];
          item := Item(Part, idx, n - 1);
          LeastPart(before, idx, n - 1);
          return 1, e, idx, item;
        }
        idx := idx + 1;
      }
      idx := 0;
      while idx < pff.Length
        invariant 0 <= idx <= pff.Length && Contents() == before
        invariant forall i :: 0 <= i < idx ==> Visible(before.pff[i]) == {}
      {
        n := Ffs(pff[idx]);
        if n > 0 {
          e := Reverse(Pff, n - 1, gen6);
          pff[idx] := pff[idx] - {n - 1};
          assert pff[..] == before.pff[idx := before.pff[idx] - {n - 1}];
          item := Item(Pff, idx, n - 1);
          LeastPff(before, idx, n - 1);
          return 1, e, idx, item;
        }
        idx := idx + 1;
      }
      return 0, None, idx, item;
    }
  }

  method SetAll(words: array<set<nat>>, bit: nat)
    modifies words
    ensures words[..] == OrAll(old(words[..]), bit)
  {
    for i := 0 to words.Length
      invariant forall j :: 0 <= j < words.Length ==> words[j] == old(words[j]) + if j < i then {bit} else {}
    {
      words[i] := words[i] + {bit};
    }
  }

  function OrAll(words: seq<set<nat>>, bit: nat): (r: seq<set<nat>>)
    ensures |r| == |words|
  {
    seq(|words|, i requires 0 <= i < |words| => words[i] + {bit})
  }

  predicate RequestOk(e: EventId, index: int) {
    match Entry(e).0
    case Global => true
    case Part => IDX_ALL <= index < MAX_PARTS
    case Pff => index == IDX_ALL || 0 <= index < MAX_PFF
  }

  function AddRequest(w: Words, e: EventId, index: int): Words
    requires |w.part| == MAX_PARTS && |w.pff| == MAX_PFF && RequestOk(e, index)
  {
    var (t, bit) := Entry(e);
    match t
    case Global => w.(global := w.global + {bit})
    case Part =>
      if index == IDX_LOCAL then w
      else if index == IDX_ALL then w.(part := OrAll(w.part, bit))
      else w.(part := w.part[index := w.part[index] + {bit}])
    case Pff =>
      if index == IDX_ALL then w.(pff := OrAll(w.pff, bit))
      else w.(pff := w.pff[index := w.pff[index] + {bit}])
  }

  lemma RequestIs(w: Words, e: EventId, index: int)
    requires |w.part| == MAX_PARTS && |w.pff| == MAX_PFF
    ensures var (t, bit) := Entry(e);
            match t
            case Global => RequestOk(e, index) && AddRequest(w, e, index) == w.(global := w.global + {bit})
            case Part =>
              if index == IDX_LOCAL then RequestOk(e, index) && AddRequest(w, e, index) == w
              else if index == IDX_ALL then RequestOk(e, index) && AddRequest(w, e, index) == w.(part := OrAll(w.part, bit))
              else if 0 <= index < MAX_PARTS then
                RequestOk(e, index) && AddRequest(w, e, index) == w.(part := w.part[index := w.part[index] + {bit}])
              else !RequestOk(e, index)
            case Pff =>
              if index == IDX_ALL then RequestOk(e, index) && AddRequest(w, e, index) == w.(pff := OrAll(w.pff, bit))
              else if 0 <= index < MAX_PFF then
                RequestOk(e, index) && AddRequest(w, e, index) == w.(pff := w.pff[index := w.pff[index] + {bit}])
              else !RequestOk(e, index)
  {
    hide Entry, OrAll;
  }

  function ClearItem(w: Words, x: Item): Words
    requires x.group == Part ==> x.index < |w.part|
    requires x.group == Pff ==> x.index < |w.pff|
  {
    match x.group
    case Global => w.(global := ClearGlobal(w.global, x.bit))
    case Part => w.(part := w.part[x.index := w.part[x.index] - {x.bit}])
    case Pff => w.(pff := w.pff[x.index := w.pff[x.index] - {x.bit}])
  }

  lemma NoneVisible(w: Words)
    ensures (&& Visible(w.global) == {}
             && (forall i :: 0 <= i < |w.part| ==> Visible(w.part[i]) == {})
             && (forall i :: 0 <= i < |w.pff| ==> Visible(w.pff[i]) == {}))
            ==> Items(w) == {}
  {
  }

  lemma LeastGlobal(w: Words, bit: nat)
    requires bit in Visible(w.global) && forall b :: b in Visible(w.global) ==> bit <= b
    ensures Least(Item(Global, 0, bit), Items(w))
  {
  }

  lemma LeastPart(w: Words, idx: nat, bit: nat)
    requires Visible(w.global) == {} && idx < |w.part|
    requires forall i :: 0 <= i < idx ==> Visible(w.part[i]) == {}
    requires bit in Visible(w.part[idx]) && forall b :: b in Visible(w.part[idx]) ==> bit <= b
    ensures Least(Item(Part, idx, bit), Items(w))
  {
  }

  lemma LeastPff(w: Words, idx: nat, bit: nat)
    requires Visible(w.global) == {} && idx < |w.pff|
    requires forall i :: 0 <= i < |w.part| ==> Visible(w.part[i]) == {}
    requires forall i :: 0 <= i < idx ==> Visible(w.pff[i]) == {}
    requires bit in Visible(w.pff[idx]) && forall b :: b in Visible(w.pff[idx]) ==> bit <= b
    ensures Least(Item(Pff, idx, bit), Items(w))
  {
  }

  // ----- draining

  /** Clearing the item handed out removes it from the pending items and nothing else. */
  lemma ItemsAfterClear(w: Words, x: Item)
    requires Least(x, Items(w))
    ensures x.group == Part ==> x.index < |w.part|
    ensures x.group == Pff ==> x.index < |w.pff|
    ensures Items(ClearItem(w, x)) == Items(w) - {x}
  {
    hide Items, Least;
    LeastIsIn(x, Items(w));
    ItemsContain(w, x);
    var v := ClearItem(w, x);
    forall y ensures y in Items(v) <==> y in Items(w) - {x} {
      ItemsContain(w, y);
      ItemsContain(v, y);
      if y != x && y in Items(w) {
        LeastIsBefore(x, y, Items(w));
      }
    }
  }

  lemma LeastIsIn(x: Item, xs: set<Item>)
    requires Least(x, xs)
    ensures x in xs
  {
  }

  lemma LeastIsBefore(x: Item, y: Item, xs: set<Item>)
    requires Least(x, xs) && y in xs && y != x
    ensures Before(x, y)
  {
  }

  ghost predicate Sorted(xs: seq<Item>) {
    forall i, j :: 0 <= i < j < |xs| ==> Before(xs[i], xs[j])
  }

  /** `xs` lists exactly the items of `s`, each once, in the iterator's order. */
  ghost predicate Enumerates(xs: seq<Item>, s: set<Item>) {
    Sorted(xs) && (forall x :: x in xs <==> x in s)
  }

  lemma EnumeratesOnce(xs: seq<Item>, s: set<Item>)
    requires Enumerates(xs, s)
    ensures forall i, j :: 0 <= i < j < |xs| ==> xs[i] != xs[j]
  {
    forall i, j | 0 <= i < j < |xs| ensures xs[i] != xs[j] {
      assert Before(xs[i], xs[j]);
    }
  }

  ghost predicate AllBefore(xs: seq<Item>, s: set<Item>) {
    forall x, y :: x in xs && y in s ==> Before(x, y)
  }

  lemma HandOut(xs: seq<Item>, x: Item, left: set<Item>)
    requires Sorted(xs) && AllBefore(xs, left) && Least(x, left)
    ensures Sorted(xs + [x]) && AllBefore(xs + [x], left - {x})
  {
  }

  /** The loop the iterator is meant for: it hands out every pending bit once, in
      order, under its reverse-table name, and leaves nothing pending. */
  method Drain(s: Summary, gen6: bool) returns (reports: seq<(Option<EventId>, nat)>, ghost order: seq<Item>)
    requires s.Valid()
    modifies s, s.part, s.pff
    ensures Enumerates(order, Items(old(s.Contents())))
    ensures Items(s.Contents()) == {}
    ensures |reports| == |order|
    ensures forall i :: 0 <= i < |order| ==> reports[i] == (Reverse(order[i].group, order[i].bit, gen6), order[i].index)
  {
    hide Items, ClearItem, Least, Before, Reverse;
    ghost var all := Items(s.Contents());
    reports, order := [], [];
    while true
      invariant |reports| == |order|
      invariant forall i :: 0 <= i < |order| ==> reports[i] == (Reverse(order[i].group, order[i].bit, gen6), order[i].index)
      invariant Sorted(order) && AllBefore(order, Items(s.Contents()))
      invariant forall x :: x in all <==> x in order || x in Items(s.Contents())
      decreases |Items(s.Contents())|
    {
      ghost var w := s.Contents();
      var ret, e, idx, item := s.Iter(gen6);
      if ret == 0 {
        break;
      }
      ItemsAfterClear(w, item);
      LeastIsIn(item, Items(w));
      HandOut(order, item, Items(w));
      reports, order := reports + [(e, idx)], order + [item];
    }
  }

  // ----- setting, then draining

  /** What a successful request asks to see again; LOCAL goes where the iterator does not look. */
  function Requested(e: EventId, index: int): set<Item> {
    var (t, bit) := Entry(e);
    match t
    case Global => {Item(Global, 0, bit)}
    case Part =>
      if index == IDX_LOCAL then {}
      else if index == IDX_ALL then set i | 0 <= i < MAX_PARTS :: Item(Part, i, bit)
      else if 0 <= index < MAX_PARTS then {Item(Part, index, bit)} else {}
    case Pff =>
      if index == IDX_ALL then set i | 0 <= i < MAX_PFF :: Item(Pff, i, bit)
      else if 0 <= index < MAX_PFF then {Item(Pff, index, bit)} else {}
  }

  lemma EntryBit(e: EventId)
    ensures Entry(e).1 < 14
  {
  }

  lemma ItemsAfterRequest(w: Words, e: EventId, index: int)
    requires |w.part| == MAX_PARTS && |w.pff| == MAX_PFF && RequestOk(e, index)
    ensures Items(AddRequest(w, e, index)) == Items(w) + Requested(e, index)
  {
    hide Items, Entry;
    EntryBit(e);
    forall y ensures y in Items(AddRequest(w, e, index)) <==> y in Items(w) + Requested(e, index) {
      ItemsContain(w, y);
      ItemsContain(AddRequest(w, e, index), y);
    }
  }

  function RequestedAll(rs: seq<(EventId, int)>): set<Item> {
    if rs == [] then {}
    else RequestedAll(rs[..|rs| - 1]) +
         (if RequestOk(rs[|rs| - 1].0, rs[|rs| - 1].1) then Requested(rs[|rs| - 1].0, rs[|rs| - 1].1) else {})
  }

  lemma NothingPending()
    ensures Items(Words({}, seq(MAX_PARTS, i => {}), seq(MAX_PFF, i => {}))) == {}
  {
  }

  // ----- in terms of events

  /** Which requests are accepted, and what they ask to see. */
  lemma RequestsInNumbers(e: EventId, index: int)
    ensures RequestOk(e, index) <==>
            match Entry(e).0
            case Global => true
            case Part => -2 <= index < 48
            case Pff => index == -2 || 0 <= index < 255
    ensures WantedBy(e, index) ==
            match Entry(e).0
            case Global => {(e, 0)}
            case Part =>
              if index == -2 then set i: nat | i < 48 :: (e, i) else if 0 <= index < 48 then {(e, index as nat)} else {}
            case Pff =>
              if index == -2 then set i: nat | i < 255 :: (e, i) else if 0 <= index < 255 then {(e, index as nat)} else {}
  {
    hide Entry;
    var (t, bit) := Entry(e);
    if t != Global && index == -2 {
      forall i: nat | i < (if t == Part then 48 else 255) ensures (e, i) in WantedBy(e, index) {
        assert Item(t, i, bit) in Requested(e, index);
      }
    }
    if t == Global {
      assert Item(Global, 0, bit) in Requested(e, index);
    } else if 0 <= index < (if t == Part then 48 else 255) {
      assert Item(t, index, bit) in Requested(e, index);
    }
  }

  /** Globals come before partitions and those before ports; then the index counts,
      then the bit. */
  lemma OrderIs(x: Item, y: Item)
    ensures Before(x, y) <==>
            || (x.group == Global && y.group != Global) || (x.group == Part && y.group == Pff)
            || (x.group == y.group && (x.index < y.index || (x.index == y.index && x.bit < y.bit)))
  {
  }

  /** The events asked for, each with an index it is to be seen at. */
  function Wanted(rs: seq<(EventId, int)>): set<(EventId, nat)> {
    if rs == [] then {}
    else Wanted(rs[..|rs| - 1]) + WantedBy(rs[|rs| - 1].0, rs[|rs| - 1].1)
  }

  function WantedBy(e: EventId, index: int): set<(EventId, nat)> {
    if RequestOk(e, index) then set x | x in Requested(e, index) :: (e, x.index) else {}
  }

  predicate AllReportable(rs: seq<(EventId, int)>, gen6: bool) {
    forall i :: 0 <= i < |rs| ==> Reportable(rs[i].0, gen6)
  }

  lemma RequestedBit(e: EventId, index: int, x: Item)
    requires x in Requested(e, index)
    ensures (x.group, x.bit) == Entry(e)
  {
    hide Entry;
  }

  /** Requested bits and wanted events are the same thing. */
  lemma {:induction false} ItemsAreWanted(rs: seq<(EventId, int)>, gen6: bool, e: EventId, idx: nat)
    requires AllReportable(rs, gen6)
    ensures (e, idx) in Wanted(rs) <==> Item(Entry(e).0, idx, Entry(e).1) in RequestedAll(rs) && Reportable(e, gen6)
  {
    if rs != [] {
      var most, last := rs[..|rs| - 1], rs[|rs| - 1];
      ItemsAreWanted(most, gen6, e, idx);
      assert Reportable(last.0, gen6);
      OneIsWanted(last.0, last.1, gen6, e, idx);
    }
  }

  lemma OneIsWanted(e': EventId, index: int, gen6: bool, e: EventId, idx: nat)
    requires Reportable(e', gen6)
    ensures (e, idx) in WantedBy(e', index) <==>
            RequestOk(e', index) && Item(Entry(e).0, idx, Entry(e).1) in Requested(e', index) && Reportable(e, gen6)
  {
    var x := Item(Entry(e).0, idx, Entry(e).1);
    ReportedAsItself(e, gen6);
    ReportedAsItself(e', gen6);
    hide Entry, Reverse, Reportable, RequestOk, Requested;
    if (e, idx) in WantedBy(e', index) {
      var y :| y in Requested(e', index) && (e, idx) == (e', y.index);
      RequestedBit(e', index, y);
      assert x == y;
    }
    if x in Requested(e', index) && Reportable(e, gen6) {
      RequestedBit(e', index, x);
      assert e == e';
    }
  }

  lemma RequestedGroups(rs: seq<(EventId, int)>, x: Item)
    requires x in RequestedAll(rs)
    ensures exists i :: 0 <= i < |rs| && RequestOk(rs[i].0, rs[i].1) && x in Requested(rs[i].0, rs[i].1)
  {
    var most, last := rs[..|rs| - 1], rs[|rs| - 1];
    if x in RequestedAll(most) {
      RequestedGroups(most, x);
      var i :| 0 <= i < |most| && RequestOk(most[i].0, most[i].1) && x in Requested(most[i].0, most[i].1);
      assert rs[i] == most[i];
    }
  }

  /** What a drain reports after requests for reportable events: exactly the
      events asked for, each at each of its indices once. */
  ghost predicate ReportsWanted(reports: seq<(Option<EventId>, nat)>, rs: seq<(EventId, int)>) {
    && (forall i :: 0 <= i < |reports| ==> reports[i].0.Some? && (reports[i].0.value, reports[i].1) in Wanted(rs))
    && (forall w :: w in Wanted(rs) ==> (Some(w.0), w.1) in reports)
    && (forall i, j :: 0 <= i < j < |reports| ==> reports[i] != reports[j])
  }

  lemma DrainReportsWanted(reports: seq<(Option<EventId>, nat)>, order: seq<Item>, rs: seq<(EventId, int)>, gen6: bool)
    requires AllReportable(rs, gen6) && Enumerates(order, RequestedAll(rs)) && |reports| == |order|
    requires forall i :: 0 <= i < |order| ==> reports[i] == (Reverse(order[i].group, order[i].bit, gen6), order[i].index)
    ensures ReportsWanted(reports, rs)
  {
    forall i | 0 <= i < |reports|
      ensures reports[i].0.Some? && (reports[i].0.value, reports[i].1) in Wanted(rs)
      ensures Entry(reports[i].0.value) == (order[i].group, order[i].bit)
    {
      ReportIsWanted(order[i], rs, gen6);
    }
    hide Entry, Reverse, Reportable;
    forall w | w in Wanted(rs) ensures (Some(w.0), w.1) in reports {
      ItemsAreWanted(rs, gen6, w.0, w.1);
      ReportedAsItself(w.0, gen6);
      var x := Item(Entry(w.0).0, w.1, Entry(w.0).1);
      assert x in order;
      var i :| 0 <= i < |order| && order[i] == x;
      assert reports[i] == (Some(w.0), w.1);
    }
    EnumeratesOnce(order, RequestedAll(rs));
  }

  lemma ReportIsWanted(x: Item, rs: seq<(EventId, int)>, gen6: bool)
    requires AllReportable(rs, gen6) && x in RequestedAll(rs)
    ensures var e := Reverse(x.group, x.bit, gen6);
            e.Some? && (e.value, x.index) in Wanted(rs) && Entry(e.value) == (x.group, x.bit)
  {
    hide Entry, Reverse, Reportable, RequestOk, Requested;
    RequestedGroups(rs, x);
    var i :| 0 <= i < |rs| && RequestOk(rs[i].0, rs[i].1) && x in Requested(rs[i].0, rs[i].1);
    var e := rs[i].0;
    RequestedBit(e, rs[i].1, x);
    ReportedAsItself(e, gen6);
    ItemsAreWanted(rs, gen6, e, x.index);
  }

  /** Any sequence of requests, then a drain: exactly the requested events come
      out, each once, however often and in whatever order they were set. */
  method SetThenDrain(requests: seq<(EventId, int)>, gen6: bool)
    returns (rets: seq<int>, reports: seq<(Option<EventId>, nat)>, ghost order: seq<Item>)
    ensures |rets| == |requests|
    ensures forall i :: 0 <= i < |rets| ==> (rets[i] == 0 <==> RequestOk(requests[i].0, requests[i].1))
    ensures Enumerates(order, RequestedAll(requests))
    ensures |reports| == |order|
    ensures forall i :: 0 <= i < |order| ==> reports[i] == (Reverse(order[i].group, order[i].bit, gen6), order[i].index)
    ensures AllReportable(requests, gen6) ==> ReportsWanted(reports, requests)
  {
    hide Items, Requested, RequestOk, Reverse, Enumerates, Entry, AllReportable, ReportsWanted;
    var s := new Summary();
    NothingPending();
    rets := [];
    for i := 0 to |requests|
      invariant |rets| == i && s.Valid() && fresh(s) && fresh(s.part) && fresh(s.pff)
      invariant forall j :: 0 <= j < i ==> (rets[j] == 0 <==> RequestOk(requests[j].0, requests[j].1))
      invariant Items(s.Contents()) == RequestedAll(requests[..i])
    {
      var (e, index) := requests[i];
      ghost var w := s.Contents();
      var ret := s.Set(e, index);
      if ret == 0 {
        ItemsAfterRequest(w, e, index);
      }
      rets := rets + [ret];
      assert requests[..i + 1][..i] == requests[..i];
    }
    assert requests[..|requests|] == requests;
    reports, order := Drain(s, gen6);
    if AllReportable(requests, gen6) {
      DrainReportsWanted(reports, order, requests, gen6);
    }
  }
}
