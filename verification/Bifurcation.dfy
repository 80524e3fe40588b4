/** Placing bifurcated ports in a stack and printing the placement
    (cli/main.c, with the widths of lib/switchtec.c). */
module Bifurcation {
  import opened NatBits

  /** The source's number of ports per stack; nothing but the lanes depends on it. */
  const PORTS_PER_STACK := 8

  /** What decides widths and valid ports: the generation and the stack. */
  datatype Stack = Stack(gen4: bool, id: int, ports: nat) {

    /** The slots a bifurcation takes; negative for a value that is none. */
    function Width(bif: int): (w: int)
      ensures w == -1 || 1 <= w <= 16
    {
      if bif == 0 then 1
      else if bif != 1 && bif != 2 && bif != 4 && bif != 8 && bif != 16 then -1
      else if gen4 && id == 6 then bif
      else (bif + 1) / 2
    }

    predicate PortValid(port: int) {
      gen4 ==> id * 8 + port < 52
    }
  }

  predicate Aligned(n: nat, w: int)
    requires w > 0
  {
    n % w == 0
  }

  /** The least multiple of `w` from `n` on. */
  function AlignUp(n: nat, w: int): (s: nat)
    requires w > 0
    ensures s >= n && Aligned(s, w)
    ensures forall t :: n <= t < s ==> !Aligned(t, w)
  {
    var s := if n % w != 0 then n + (w - n % w) else n;
    assert Aligned(s, w) by {
      ModAdds(n, w, s - n);
    }
    assert forall t :: n <= t < s ==> !Aligned(t, w) by {
      forall t | n <= t < s ensures !Aligned(t, w) {
        ModAdds(n, w, t - n);
      }
    }
    s
  }

  /** The source's n & (w - 1) is n % w, as every width is a power of two. */
  lemma WidthMask(st: Stack, bif: int, n: nat)
    requires st.Width(bif) > 0
    ensures And(n, st.Width(bif) - 1) == n % st.Width(bif)
  {
    var w := st.Width(bif);
    assert w == 1 || w == 2 || w == 4 || w == 8 || w == 16;
    PowersOfTwo();
    hide And, Pow2;
    AndMask(n, if w == 1 then 0 else if w == 2 then 1 else if w == 4 then 2 else if w == 8 then 3 else 4);
  }

  lemma PowersOfTwo()
    ensures Pow2(0) == 1 && Pow2(1) == 2 && Pow2(2) == 4 && Pow2(3) == 8 && Pow2(4) == 16
  {
  }

  /** A way to place the requests in order from slot `n`: aligned to their own
      widths, apart, inside the stack and starting on valid ports. */
  ghost predicate Layout(st: Stack, reqs: seq<int>, n: nat, starts: seq<nat>) {
    && |starts| == |reqs|
    && (forall k :: 0 <= k < |reqs| ==> Alone(st, reqs[k], n, starts[k]))
    && (forall j, k :: 0 <= j < k < |reqs| ==> starts[j] + st.Width(reqs[j]) <= starts[k])
  }

  predicate Alone(st: Stack, bif: int, n: nat, start: nat) {
    var w := st.Width(bif);
    w > 0 && n <= start && Aligned(start, w) && start + w <= st.ports && st.PortValid(start)
  }

  /** Whether placing each request as early as possible succeeds. */
  predicate Fits(st: Stack, reqs: seq<int>, n: nat) {
    reqs != [] ==>
      var w := st.Width(reqs[0]);
      w > 0 &&
      var s := AlignUp(n, w);
      st.PortValid(s) && s + w <= st.ports && Fits(st, reqs[1..], s + w)
  }

  function Starts(st: Stack, reqs: seq<int>, n: nat): (starts: seq<nat>)
    requires Fits(st, reqs, n)
    ensures |starts| == |reqs|
  {
    if reqs == [] then []
    else
      var s := AlignUp(n, st.Width(reqs[0]));
      [s] + Starts(st, reqs[1..], s + st.Width(reqs[0]))
  }

  lemma LayoutStep(st: Stack, reqs: seq<int>, n: nat, starts: seq<nat>)
    requires reqs != [] && |starts| == |reqs|
    ensures Layout(st, reqs, n, starts) <==>
            Alone(st, reqs[0], n, starts[0])
            && Layout(st, reqs[1..], starts[0] + st.Width(reqs[0]), starts[1..])
  {
    hide Stack.Width, Aligned;
    var w, rest, later := st.Width(reqs[0]), reqs[1..], starts[1..];
    assert forall k :: 0 <= k < |rest| ==> rest[k] == reqs[k + 1] && later[k] == starts[k + 1];
    assert forall k :: 0 < k < |reqs| ==> rest[k - 1] == reqs[k] && later[k - 1] == starts[k];
  }

  lemma {:induction false} StartsIsLayout(st: Stack, reqs: seq<int>, n: nat)
    requires Fits(st, reqs, n)
    ensures Layout(st, reqs, n, Starts(st, reqs, n))
  {
    if reqs != [] {
      hide *;
      StartsStep(st, reqs, n);
      var w := st.Width(reqs[0]);
      var s := AlignUp(n, w);
      var starts := Starts(st, reqs, n);
      assert starts[0] == s && starts[1..] == Starts(st, reqs[1..], s + w);
      StartsIsLayout(st, reqs[1..], s + w);
      AloneIff(st, reqs[0], n, s);
      LayoutStep(st, reqs, n, starts);
    }
  }

  lemma AloneIff(st: Stack, bif: int, n: nat, start: nat)
    ensures var w := st.Width(bif);
            Alone(st, bif, n, start) <==>
            w > 0 && n <= start && Aligned(start, w) && start + w <= st.ports && st.PortValid(start)
  {
  }

  lemma FewerSlotsTaken(st: Stack, reqs: seq<int>, n: nat, n': nat, starts: seq<nat>)
    requires Layout(st, reqs, n, starts) && n' <= n
    ensures Layout(st, reqs, n', starts)
  {
  }

  lemma ValidBelow(st: Stack, p: nat, q: nat)
    requires p <= q && st.PortValid(q)
    ensures st.PortValid(p)
  {
  }

  /** If the requests can be placed at all, placing each as early as possible
      succeeds. */
  lemma {:induction false} EarliestFits(st: Stack, reqs: seq<int>, n: nat, starts: seq<nat>)
    requires Layout(st, reqs, n, starts)
    ensures Fits(st, reqs, n)
    decreases |reqs|
  {
    hide *;
    LayoutLength(st, reqs, n, starts);
    NoRequests(st, n);
    if reqs != [] {
      EarliestFirst(st, reqs, n, starts);
      EarliestFits(st, reqs[1..], AlignUp(n, st.Width(reqs[0])) + st.Width(reqs[0]), starts[1..]);
      FitsStep(st, reqs, n);
    }
  }

  /** And it starts no request later than any other layout does. */
  lemma {:induction false} EarliestIsLeast(st: Stack, reqs: seq<int>, n: nat, starts: seq<nat>, k: nat)
    requires Layout(st, reqs, n, starts) && k < |reqs|
    ensures Fits(st, reqs, n) && |starts| == |reqs|
    ensures Starts(st, reqs, n)[k] <= starts[k]
    decreases |reqs|
  {
    hide *;
    LayoutLength(st, reqs, n, starts);
    EarliestFits(st, reqs, n, starts);
    EarliestFirst(st, reqs, n, starts);
    var s := AlignUp(n, st.Width(reqs[0]));
    var end := s + st.Width(reqs[0]);
    StartsStep(st, reqs, n);
    if k > 0 {
      EarliestIsLeast(st, reqs[1..], end, starts[1..], k - 1);
      assert Starts(st, reqs, n)[k] == Starts(st, reqs[1..], end)[k - 1];
    } else {
      assert Starts(st, reqs, n)[0] == s;
    }
  }

  lemma LayoutLength(st: Stack, reqs: seq<int>, n: nat, starts: seq<nat>)
    requires Layout(st, reqs, n, starts)
    ensures |starts| == |reqs|
  {
  }

  /** The first request, placed early, and the room it leaves for the others. */
  lemma EarliestFirst(st: Stack, reqs: seq<int>, n: nat, starts: seq<nat>)
    requires reqs != [] && |starts| == |reqs| && Layout(st, reqs, n, starts)
    ensures var w := st.Width(reqs[0]);
            w > 0 && (var s := AlignUp(n, w);
            s <= starts[0] && st.PortValid(s) && s + w <= st.ports
            && Layout(st, reqs[1..], s + w, starts[1..]))
  {
    hide *;
    LayoutStep(st, reqs, n, starts);
    AloneIff(st, reqs[0], n, starts[0]);
    var w := st.Width(reqs[0]);
    var s := AlignUp(n, w);
    assert s <= starts[0];
    FewerSlotsTaken(st, reqs[1..], starts[0] + w, s + w, starts[1..]);
    ValidBelow(st, s, starts[0]);
  }

  /** A request list is accepted exactly when some layout of it exists. */
  lemma FitsIffLayout(st: Stack, reqs: seq<int>)
    ensures Fits(st, reqs, 0) <==> exists starts :: Layout(st, reqs, 0, starts)
  {
    if Fits(st, reqs, 0) {
      StartsIsLayout(st, reqs, 0);
    }
    if starts :| Layout(st, reqs, 0, starts) {
      EarliestFits(st, reqs, 0, starts);
    }
  }

  /** The request that starts at slot `i`; 0 when none does. */
  function SlotAt(st: Stack, reqs: seq<int>, n: nat, i: nat): int
    requires Fits(st, reqs, n)
  {
    if reqs == [] then 0
    else
      var w := st.Width(reqs[0]);
      var s := AlignUp(n, w);
      if i <= s then if i == s then reqs[0] else 0
      else SlotAt(st, reqs[1..], s + w, i)
  }

  lemma {:induction false} LaterStarts(st: Stack, reqs: seq<int>, n: nat)
    requires Fits(st, reqs, n)
    ensures forall k :: 0 <= k < |reqs| ==> n <= Starts(st, reqs, n)[k]
  {
    if reqs != [] {
      hide AlignUp, Stack.Width;
      var w := st.Width(reqs[0]);
      LaterStarts(st, reqs[1..], AlignUp(n, w) + w);
    }
  }

  lemma StartsStep(st: Stack, reqs: seq<int>, n: nat)
    requires reqs != [] && Fits(st, reqs, n)
    ensures var w := st.Width(reqs[0]);
            w > 0 && (var s := AlignUp(n, w);
            s + w <= st.ports && st.PortValid(s) && Fits(st, reqs[1..], s + w)
            && Starts(st, reqs, n) == [s] + Starts(st, reqs[1..], s + w)
            && Placed(st, reqs, n) == [Line(st.id * st.ports + s, reqs[0])] + Placed(st, reqs[1..], s + w))
  {
  }

  lemma SlotAtStep(st: Stack, reqs: seq<int>, n: nat, i: nat)
    requires reqs != [] && Fits(st, reqs, n)
    ensures var w := st.Width(reqs[0]);
            w > 0 && (var s := AlignUp(n, w);
            Fits(st, reqs[1..], s + w)
            && (i < s ==> SlotAt(st, reqs, n, i) == 0)
            && (i == s ==> SlotAt(st, reqs, n, i) == reqs[0])
            && (i > s ==> SlotAt(st, reqs, n, i) == SlotAt(st, reqs[1..], s + w, i)))
  {
  }

  /** The slot where a request starts holds that request. */
  lemma {:induction false} SlotAtStart(st: Stack, reqs: seq<int>, n: nat, k: nat)
    requires Fits(st, reqs, n) && k < |reqs|
    ensures SlotAt(st, reqs, n, Starts(st, reqs, n)[k]) == reqs[k]
    decreases |reqs|
  {
    hide *;
    StartsStep(st, reqs, n);
    var end := AlignUp(n, st.Width(reqs[0])) + st.Width(reqs[0]);
    SlotAtStep(st, reqs, n, Starts(st, reqs, n)[k]);
    if k > 0 {
      SlotAtStart(st, reqs[1..], end, k - 1);
      LaterStarts(st, reqs[1..], end);
    }
  }

  /** Every other slot holds 0. */
  lemma {:induction false} SlotElsewhere(st: Stack, reqs: seq<int>, n: nat, i: nat)
    requires Fits(st, reqs, n) && i !in Starts(st, reqs, n)
    ensures SlotAt(st, reqs, n, i) == 0
    decreases |reqs|
  {
    if reqs != [] {
      hide *;
      StartsStep(st, reqs, n);
      SlotAtStep(st, reqs, n, i);
      assert i != Starts(st, reqs, n)[0];
      var end := AlignUp(n, st.Width(reqs[0])) + st.Width(reqs[0]);
      SlotElsewhere(st, reqs[1..], end, i);
    }
  }

  /** The requests: everything before the first -1. */
  function Requests(ports: seq<int>): seq<int> {
    if ports == [] || ports[0] == -1 then [] else [ports[0]] + Requests(ports[1..])
  }

  lemma {:induction false} RequestsUpTo(ports: seq<int>, k: nat)
    requires k <= |ports| && -1 !in ports[..k] && (k < |ports| ==> ports[k] == -1)
    ensures Requests(ports) == ports[..k]
  {
    if k > 0 {
      assert ports[0] in ports[..k] && ports[..k] == [ports[0]] + ports[1..][..k - 1];
      assert forall x :: x in ports[1..][..k - 1] ==> x in ports[..k];
      RequestsUpTo(ports[1..], k - 1);
    }
  }

  /** Greedy placement comes to a request whose start is valid and lies past the
      stack: its bifurcation is stored there before the list is rejected. */
  predicate StoresPast(st: Stack, reqs: seq<int>, n: nat) {
    reqs != [] &&
    var w := st.Width(reqs[0]);
    w > 0 &&
    var s := AlignUp(n, w);
    st.PortValid(s) && (s >= st.ports || (s + w <= st.ports && StoresPast(st, reqs[1..], s + w)))
  }

  /** stack_bif_set, up to the confirmation and the command. A store past the
      array, not `inside`, ends the model's run; the source goes on to reject. */
  method StackBifSet(st: Stack, ports: seq<int>) returns (p: array<int>, ok: bool, inside: bool)
    requires |ports| == st.ports
    ensures p.Length == st.ports && fresh(p)
    ensures ok <==> st.id >= 0 && exists starts :: Layout(st, Requests(ports), 0, starts)
    ensures inside <==> st.id < 0 || !StoresPast(st, Requests(ports), 0)
    ensures ok ==> Fits(st, Requests(ports), 0)
    ensures ok ==> forall i :: 0 <= i < st.ports ==> p[i] == SlotAt(st, Requests(ports), 0, i)
  {
    hide *;
    p := new int[st.ports](_ => 0);
    var nports := 0;
    if st.id < 0 {
      return p, false, true;
    }
    FitsIffLayout(st, Requests(ports));
    ghost var reqs := Requests(ports);
    var i := 0;
    assert ports[0..] == ports;
    FilledStart(st, reqs, p[..]);
    while i < st.ports
      invariant 0 <= i <= st.ports && 0 <= nports <= st.ports
      invariant Filled(st, reqs, Requests(ports[i..]), nports, p[..])
    {
      RequestsStep(ports, i);
      if ports[i] == -1 {
        break;
      }
      ghost var rest, before, slots := Requests(ports[i..]), nports, p[..];
      FilledStep(st, reqs, rest, before, slots);
      var w := st.Width(ports[i]);
      if w < 0 {
        return p, false, true;
      }
      WidthMask(st, ports[i], nports);
      if And(nports, w - 1) != 0 {
        nports := nports + (w - And(nports, w - 1));
      }
      AlignUpIs(before, w);
      if !st.PortValid(nports) {
        return p, false, true;
      }
      if nports >= st.ports {
        return p, false, false;
      }
      p[nports] := ports[i];
      assert p[..] == slots[nports := ports[i]];
      nports := nports + w;
      if nports > st.ports {
        return p, false, true;
      }
      assert rest[1..] == Requests(ports[i + 1..]);
      i := i + 1;
    }
    RequestsStep(ports, i);
    FilledEnd(st, reqs, nports, p[..]);
    return p, true, true;
  }

  /** The slots below `n` are as they will be, and what becomes of the list is
      what becomes of the rest of it. */
  ghost predicate Filled(st: Stack, reqs: seq<int>, rest: seq<int>, n: nat, slots: seq<int>) {
    && n <= |slots| == st.ports
    && (forall j :: n <= j < |slots| ==> slots[j] == 0)
    && (Fits(st, reqs, 0) <==> Fits(st, rest, n))
    && (StoresPast(st, reqs, 0) <==> StoresPast(st, rest, n))
    && (Fits(st, reqs, 0) ==>
          forall j :: 0 <= j < |slots| ==>
            SlotAt(st, reqs, 0, j) == if j < n then slots[j] else SlotAt(st, rest, n, j))
  }

  lemma FilledStart(st: Stack, reqs: seq<int>, slots: seq<int>)
    requires |slots| == st.ports && forall j :: 0 <= j < |slots| ==> slots[j] == 0
    ensures Filled(st, reqs, reqs, 0, slots)
  {
    hide Fits, StoresPast, SlotAt;
  }

  lemma FilledEnd(st: Stack, reqs: seq<int>, n: nat, slots: seq<int>)
    requires Filled(st, reqs, [], n, slots)
    ensures Fits(st, reqs, 0) && !StoresPast(st, reqs, 0)
    ensures forall j :: 0 <= j < |slots| ==> slots[j] == SlotAt(st, reqs, 0, j)
  {
    NoRequests(st, n);
    hide Fits, StoresPast, SlotAt;
  }

  /** One request: where the list fails, where it is stored past the stack, and
      where it goes on. */
  lemma FilledStep(st: Stack, reqs: seq<int>, rest: seq<int>, n: nat, slots: seq<int>)
    requires rest != [] && Filled(st, reqs, rest, n, slots)
    ensures var w := st.Width(rest[0]);
            && (w < 0 ==> !Fits(st, reqs, 0) && !StoresPast(st, reqs, 0))
            && (w >= 0 ==>
                  w > 0 &&
                  var s := AlignUp(n, w);
                  && (!st.PortValid(s) ==> !Fits(st, reqs, 0) && !StoresPast(st, reqs, 0))
                  && (st.PortValid(s) && s >= st.ports ==> !Fits(st, reqs, 0) && StoresPast(st, reqs, 0))
                  && (st.PortValid(s) && s < st.ports < s + w ==> !Fits(st, reqs, 0) && !StoresPast(st, reqs, 0))
                  && (st.PortValid(s) && s + w <= st.ports ==>
                        Filled(st, reqs, rest[1..], s + w, slots[s := rest[0]])))
  {
    FitsStep(st, rest, n);
    var w := st.Width(rest[0]);
    if w > 0 && st.PortValid(AlignUp(n, w)) && AlignUp(n, w) + w <= st.ports {
      FilledOn(st, reqs, rest, n, slots);
    }
    hide Fits, StoresPast, SlotAt, AlignUp, Stack.Width, Stack.PortValid;
  }

  lemma FilledOn(st: Stack, reqs: seq<int>, rest: seq<int>, n: nat, slots: seq<int>)
    requires rest != [] && Filled(st, reqs, rest, n, slots)
    requires var w := st.Width(rest[0]);
             w > 0 && AlignUp(n, w) + w <= st.ports && st.PortValid(AlignUp(n, w))
    ensures var w := st.Width(rest[0]);
            Filled(st, reqs, rest[1..], AlignUp(n, w) + w, slots[AlignUp(n, w) := rest[0]])
  {
    FitsStep(st, rest, n);
    hide Fits, StoresPast, SlotAt, AlignUp, Stack.Width, Stack.PortValid;
    if Fits(st, reqs, 0) {
      var w := st.Width(rest[0]);
      var s := AlignUp(n, w);
      forall j: nat | n <= j < st.ports
        ensures SlotAt(st, rest, n, j) ==
                if j < s + w then slots[s := rest[0]][j] else SlotAt(st, rest[1..], s + w, j)
      {
        SlotAtStep(st, rest, n, j);
        if s < j < s + w {
          SlotsAfter(st, rest[1..], s + w, j);
        }
      }
    }
  }

  lemma RequestsStep(ports: seq<int>, i: nat)
    requires i <= |ports|
    ensures Requests(ports[i..]) ==
            if i == |ports| || ports[i] == -1 then [] else [ports[i]] + Requests(ports[i + 1..])
  {
    if i < |ports| {
      assert ports[i..][0] == ports[i] && ports[i..][1..] == ports[i + 1..];
    }
  }

  lemma NoRequests(st: Stack, n: nat)
    ensures Fits(st, [], n) && !StoresPast(st, [], n) && forall i: nat :: SlotAt(st, [], n, i) == 0
  {
  }

  lemma AlignUpIs(n: nat, w: int)
    requires w > 0
    ensures AlignUp(n, w) == if n % w != 0 then n + (w - n % w) else n
  {
  }

  lemma FitsStep(st: Stack, reqs: seq<int>, n: nat)
    requires reqs != []
    ensures var w := st.Width(reqs[0]);
            Fits(st, reqs, n) <==> w > 0 && (var s := AlignUp(n, w);
            st.PortValid(s) && s + w <= st.ports && Fits(st, reqs[1..], s + w))
    ensures var w := st.Width(reqs[0]);
            StoresPast(st, reqs, n) <==> w > 0 && (var s := AlignUp(n, w);
            st.PortValid(s) && (s >= st.ports || (s + w <= st.ports && StoresPast(st, reqs[1..], s + w))))
  {
  }

  // ----- when a list is stored past the stack

  /** Where the last of the requests ends. */
  function End(st: Stack, reqs: seq<int>, n: nat): nat
    requires Fits(st, reqs, n)
  {
    if reqs == [] then n else End(st, reqs[1..], AlignUp(n, st.Width(reqs[0])) + st.Width(reqs[0]))
  }

  /** After the first `k` requests, all placed, the next one starts past the stack. */
  ghost predicate Overfull(st: Stack, reqs: seq<int>, n: nat, k: nat) {
    && k < |reqs|
    && Fits(st, reqs[..k], n)
    && st.Width(reqs[k]) > 0
    && var s := AlignUp(End(st, reqs[..k], n), st.Width(reqs[k]));
       s >= st.ports && st.PortValid(s)
  }

  lemma OverfullNow(st: Stack, reqs: seq<int>, n: nat)
    requires reqs != []
    ensures var w := st.Width(reqs[0]);
            Overfull(st, reqs, n, 0) <==> w > 0 && AlignUp(n, w) >= st.ports && st.PortValid(AlignUp(n, w))
  {
    hide AlignUp, Stack.Width, Stack.PortValid;
    assert reqs[..0] == [];
  }

  lemma OverfullLater(st: Stack, reqs: seq<int>, n: nat, k: nat)
    requires reqs != []
    ensures var w := st.Width(reqs[0]);
            Overfull(st, reqs, n, k + 1) <==> w > 0 && (var s := AlignUp(n, w);
            st.PortValid(s) && s + w <= st.ports && Overfull(st, reqs[1..], s + w, k))
  {
    if k + 1 < |reqs| {
      var first := reqs[..k + 1];
      assert first[0] == reqs[0] && first[1..] == reqs[1..][..k];
      hide AlignUp, Stack.Width, Stack.PortValid, Fits, End;
      FitsStep(st, first, n);
      EndStep(st, first, n);
      assert reqs[k + 1] == reqs[1..][k];
    }
  }

  lemma EndStep(st: Stack, reqs: seq<int>, n: nat)
    requires reqs != []
    ensures Fits(st, reqs, n) ==>
              var w := st.Width(reqs[0]);
              w > 0 && Fits(st, reqs[1..], AlignUp(n, w) + w)
              && End(st, reqs, n) == End(st, reqs[1..], AlignUp(n, w) + w)
  {
    hide AlignUp, Stack.Width, Stack.PortValid;
  }

  lemma StoresPastSome(st: Stack, reqs: seq<int>, n: nat)
    requires StoresPast(st, reqs, n)
    ensures reqs != []
  {
  }

  lemma OverfullSome(st: Stack, reqs: seq<int>, n: nat, k: nat)
    requires Overfull(st, reqs, n, k)
    ensures k < |reqs|
  {
  }

  lemma {:induction false} StoresPastHas(st: Stack, reqs: seq<int>, n: nat) returns (k: nat)
    requires StoresPast(st, reqs, n)
    ensures Overfull(st, reqs, n, k)
    decreases |reqs|
  {
    hide *;
    StoresPastSome(st, reqs, n);
    FitsStep(st, reqs, n);
    OverfullNow(st, reqs, n);
    k := 0;
    var w := st.Width(reqs[0]);
    if AlignUp(n, w) < st.ports {
      k := StoresPastHas(st, reqs[1..], AlignUp(n, w) + w);
      OverfullLater(st, reqs, n, k);
      k := k + 1;
    }
  }

  lemma {:induction false} OverfullStores(st: Stack, reqs: seq<int>, n: nat, k: nat)
    requires Overfull(st, reqs, n, k)
    ensures StoresPast(st, reqs, n)
    decreases k
  {
    hide *;
    OverfullSome(st, reqs, n, k);
    FitsStep(st, reqs, n);
    if k == 0 {
      OverfullNow(st, reqs, n);
    } else {
      OverfullLater(st, reqs, n, k - 1);
      var w := st.Width(reqs[0]);
      OverfullStores(st, reqs[1..], AlignUp(n, w) + w, k - 1);
    }
  }

  /** A bifurcation is stored past the stack exactly when some prefix of the
      requests is placed and the next request, itself valid, finds no room before
      the end although the port there is a valid one. */
  lemma StoresPastIff(st: Stack, reqs: seq<int>, n: nat)
    ensures StoresPast(st, reqs, n) <==> exists k: nat :: Overfull(st, reqs, n, k)
  {
    hide StoresPast, Overfull;
    if StoresPast(st, reqs, n) {
      var k := StoresPastHas(st, reqs, n);
    }
    if k: nat :| Overfull(st, reqs, n, k) {
      OverfullStores(st, reqs, n, k);
    }
  }

  // ----- how much room bifurcations take

  function Copies(bif: int, k: nat): seq<int> {
    if k == 0 then [] else [bif] + Copies(bif, k - 1)
  }

  /** The slots that a number of equal bifurcations take, one after another. */
  function Room(w: nat, k: nat): nat {
    if k == 0 then 0 else w + Room(w, k - 1)
  }

  lemma {:induction false} CopiesFit(st: Stack, bif: int, k: nat, n: nat)
    requires st.Width(bif) > 0 && Aligned(n, st.Width(bif))
    ensures Fits(st, Copies(bif, k + 1), n) <==>
            n + Room(st.Width(bif), k + 1) <= st.ports && st.PortValid(n + Room(st.Width(bif), k))
    decreases k
  {
    hide *;
    var w := st.Width(bif);
    CopiesHead(bif, k);
    RoomStep(w, k);
    AlignedOn(n, w);
    FitsStep(st, Copies(bif, k + 1), n);
    NoRequests(st, n + w);
    if k > 0 {
      RoomStep(w, k - 1);
      CopiesFit(st, bif, k - 1, n + w);
      ValidAbove(st, n, n + Room(w, k));
    }
  }

  lemma CopiesHead(bif: int, k: nat)
    ensures var list := Copies(bif, k + 1); list != [] && list[0] == bif && list[1..] == Copies(bif, k)
    ensures Copies(bif, 0) == []
  {
  }

  lemma RoomStep(w: nat, k: nat)
    ensures Room(w, 0) == 0 && Room(w, k + 1) == w + Room(w, k)
  {
  }

  lemma AlignedOn(n: nat, w: int)
    requires w > 0 && Aligned(n, w)
    ensures AlignUp(n, w) == n && Aligned(n + w, w)
  {
    ModAdds(n, w, w);
  }

  lemma ValidAbove(st: Stack, p: nat, q: nat)
    requires p <= q
    ensures st.PortValid(q) ==> st.PortValid(p)
  {
  }

  /** How many equal bifurcations a stack of eight ports takes: of 16 lanes one, of
      8 two, of 4 four, and eight that are smaller or disabled. The last stack of
      Gen4 has half the ports, one lane each. */
  lemma HowManyFit(st: Stack, bif: int, k: nat)
    requires st.ports == 8 && st.id >= 0 && (st.gen4 ==> st.id <= 6) && k > 0
    ensures Fits(st, Copies(bif, k), 0) <==>
            if st.gen4 && st.id == 6 then
              ((bif == 8 || bif == 4) && k <= 1) || (bif == 2 && k <= 2) || ((bif == 1 || bif == 0) && k <= 4)
            else
              (bif == 16 && k <= 1) || (bif == 8 && k <= 2) || (bif == 4 && k <= 4)
              || ((bif == 2 || bif == 1 || bif == 0) && k <= 8)
  {
    hide Fits, Copies, Room, AlignUp, Stack.Width, Aligned;
    var w := st.Width(bif);
    WidthIs(st, bif);
    CopiesHead(bif, k - 1);
    FitsStep(st, Copies(bif, k), 0);
    if w > 0 {
      ZeroAligned(w);
      CopiesFit(st, bif, k - 1, 0);
      RoomIs(k);
      RoomIs(k - 1);
    }
  }

  lemma ZeroAligned(w: int)
    requires w > 0
    ensures Aligned(0, w)
  {
  }

  lemma WidthIs(st: Stack, bif: int)
    ensures st.Width(bif) ==
            if bif == 0 || bif == 1 then 1
            else if bif != 2 && bif != 4 && bif != 8 && bif != 16 then -1
            else if st.gen4 && st.id == 6 then bif else bif / 2
  {
  }

  lemma {:induction false} RoomIs(k: nat)
    ensures Room(1, k) == k && Room(2, k) == 2 * k && Room(4, k) == 4 * k && Room(8, k) == 8 * k && Room(16, k) == 16 * k
  {
    if k > 0 {
      RoomIs(k - 1);
    }
  }

  // ----- lanes

  /** Every lane of a bifurcated port lies on a valid port. */
  predicate LanesValid(st: Stack, bif: int, start: nat) {
    forall j :: start <= j < start + st.Width(bif) ==> st.PortValid(j)
  }

  /** Only the start is checked: the last stack of Gen4 has four ports, and the
      one placement with lanes beyond them is a bifurcation of 8. */
  lemma AloneLanes(st: Stack, bif: int, n: nat, start: nat)
    requires st.ports == PORTS_PER_STACK && st.id >= 0 && Alone(st, bif, n, start)
    ensures LanesValid(st, bif, start) <==> !(st.gen4 && st.id == 6 && bif == 8)
  {
    if st.gen4 && st.id == 6 && bif == 8 {
      assert start == 0;
      assert !st.PortValid(4);
    } else if st.gen4 && st.id == 6 && bif == 4 {
      assert start % 4 == 0;
    }
  }

  /** All lanes of an accepted list are valid unless it asks for a bifurcation of
      8 in the last stack of Gen4. */
  lemma AcceptedLanes(st: Stack, reqs: seq<int>)
    requires st.ports == PORTS_PER_STACK && st.id >= 0 && Fits(st, reqs, 0)
    ensures (forall k :: 0 <= k < |reqs| ==> LanesValid(st, reqs[k], Starts(st, reqs, 0)[k])) <==>
            !(st.gen4 && st.id == 6 && 8 in reqs)
  {
    StartsIsLayout(st, reqs, 0);
    var starts := Starts(st, reqs, 0);
    hide LanesValid, Alone, Fits, Starts;
    forall k | 0 <= k < |reqs|
      ensures LanesValid(st, reqs[k], starts[k]) <==> !(st.gen4 && st.id == 6 && reqs[k] == 8)
    {
      AloneLanes(st, reqs[k], 0, starts[k]);
    }
    if st.gen4 && st.id == 6 && 8 in reqs {
      var k :| 0 <= k < |reqs| && reqs[k] == 8;
      assert !LanesValid(st, reqs[k], starts[k]);
    }
  }

  /** The one such list: a single bifurcation of 8, whose lanes 4 to 7 are no ports. */
  lemma EightInTheLastStack()
    ensures var st := Stack(true, 6, PORTS_PER_STACK);
            && Fits(st, [8], 0) && Starts(st, [8], 0) == [0]
            && forall j :: 4 <= j < 8 ==> !st.PortValid(j)
  {
    assert [8][1..] == [];
  }

  lemma {:induction false} SlotsAfter(st: Stack, reqs: seq<int>, n: nat, i: nat)
    requires Fits(st, reqs, n) && i < n
    ensures SlotAt(st, reqs, n, i) == 0
  {
    if reqs != [] {
      SlotAtStep(st, reqs, n, i);
    }
  }

  /** A printed line; 0 is printed as disabled. */
  datatype Line = Line(port: int, bif: int)

  ghost predicate Printable(st: Stack, ports: seq<int>) {
    |ports| == st.ports && forall i :: 0 <= i < |ports| ==> ports[i] < 0 || st.Width(ports[i]) > 0
  }

  function Walk(st: Stack, ports: seq<int>, i: nat): seq<Line>
    requires Printable(st, ports)
    decreases st.ports - i
  {
    if i >= st.ports || ports[i] < 0 || !st.PortValid(i) then []
    else [Line(st.id * st.ports + i, ports[i])] + Walk(st, ports, i + st.Width(ports[i]))
  }

  method StackBifPrint(st: Stack, ports: seq<int>) returns (lines: seq<Line>)
    requires Printable(st, ports)
    ensures lines == Walk(st, ports, 0)
  {
    hide Stack.Width;
    lines := [];
    var i := 0;
    while i < st.ports
      invariant i >= 0 && lines + Walk(st, ports, i) == Walk(st, ports, 0)
      decreases st.ports - i
    {
      var p := st.id * st.ports + i;
      if ports[i] < 0 {
        return;
      } else if !st.PortValid(i) {
        return;
      }
      assert lines + ([Line(p, ports[i])] + Walk(st, ports, i + st.Width(ports[i])))
          == lines + [Line(p, ports[i])] + Walk(st, ports, i + st.Width(ports[i]));
      lines := lines + [Line(p, ports[i])];
      i := i + st.Width(ports[i]);
    }
  }

  /** The lines of ports that are not disabled. */
  function Enabled(lines: seq<Line>): seq<Line> {
    if lines == [] then []
    else (if lines[0].bif != 0 then [lines[0]] else []) + Enabled(lines[1..])
  }

  /** Each request with the port it was given. */
  function Placed(st: Stack, reqs: seq<int>, n: nat): seq<Line>
    requires Fits(st, reqs, n)
  {
    if reqs == [] then []
    else
      var w := st.Width(reqs[0]);
      var s := AlignUp(n, w);
      [Line(st.id * st.ports + s, reqs[0])] + Placed(st, reqs[1..], s + w)
  }

  /** The slots from `n` on are what placing the requests there leaves. */
  ghost predicate Holds(st: Stack, ports: seq<int>, reqs: seq<int>, n: nat) {
    && Fits(st, reqs, n)
    && forall i :: n <= i < |ports| ==> ports[i] == SlotAt(st, reqs, n, i)
  }

  lemma {:induction false} WalkGap(st: Stack, ports: seq<int>, n: nat, s: nat)
    requires Printable(st, ports) && n <= s <= st.ports
    requires forall i :: n <= i < s ==> ports[i] == 0
    ensures st.PortValid(s) ==> Enabled(Walk(st, ports, n)) == Enabled(Walk(st, ports, s))
    ensures st.PortValid(s) ==> forall line :: line in Walk(st, ports, s) ==> line in Walk(st, ports, n)
    ensures s == st.ports ==> Enabled(Walk(st, ports, n)) == []
    decreases s - n
  {
    hide *;
    WalkEnd(st, ports);
    if n < s {
      WalkGap(st, ports, n + 1, s);
      if st.PortValid(n) {
        WalkStep(st, ports, n);
        EnabledCons(Line(st.id * st.ports + n, 0), Walk(st, ports, n + 1));
      } else {
        WalkStops(st, ports, n, s);
      }
    }
  }

  lemma WalkEnd(st: Stack, ports: seq<int>)
    requires Printable(st, ports)
    ensures |ports| == st.ports && Walk(st, ports, st.ports) == [] && Enabled([]) == [] && st.Width(0) == 1
  {
  }

  lemma WalkStops(st: Stack, ports: seq<int>, n: nat, s: nat)
    requires Printable(st, ports) && n <= s && !st.PortValid(n)
    ensures Walk(st, ports, n) == [] && Enabled([]) == [] && !st.PortValid(s)
  {
  }

  /** The walk, which steps by width, lands on every start: the enabled lines are
      the enabled requests, in order. */
  lemma {:induction false} WalkShowsPlaced(st: Stack, ports: seq<int>, reqs: seq<int>, n: nat)
    requires |ports| == st.ports && Printable(st, ports) && n <= st.ports && Holds(st, ports, reqs, n)
    ensures Enabled(Walk(st, ports, n)) == Enabled(Placed(st, reqs, n))
    decreases |reqs|
  {
    hide *;
    if reqs == [] {
      NothingHeld(st, ports, n);
      WalkGap(st, ports, n, st.ports);
    } else {
      var s, line := Landing(st, ports, reqs, n);
      var end := s + st.Width(reqs[0]);
      WalkShowsPlaced(st, ports, reqs[1..], end);
      EnabledCons(line, Walk(st, ports, end));
      EnabledCons(line, Placed(st, reqs[1..], end));
    }
  }

  lemma NothingHeld(st: Stack, ports: seq<int>, n: nat)
    requires |ports| == st.ports && Holds(st, ports, [], n)
    ensures forall i :: n <= i < |ports| ==> ports[i] == 0
    ensures Fits(st, [], n) && Enabled(Placed(st, [], n)) == []
  {
  }

  /** Each request, disabled ones too, has its line. */
  lemma {:induction false} WalkVisits(st: Stack, ports: seq<int>, reqs: seq<int>, n: nat, line: Line)
    requires |ports| == st.ports && Printable(st, ports) && n <= st.ports && Holds(st, ports, reqs, n)
    requires line in Placed(st, reqs, n)
    ensures line in Walk(st, ports, n)
    decreases |reqs|
  {
    if reqs != [] {
      hide *;
      var s, first := Landing(st, ports, reqs, n);
      var end := s + st.Width(reqs[0]);
      if line != first {
        assert line in Placed(st, reqs[1..], end);
        WalkVisits(st, ports, reqs[1..], end, line);
      }
      assert line in Walk(st, ports, s);
    }
  }

  /** The walk from `n` gets to the first request's start and then to its end. */
  lemma Landing(st: Stack, ports: seq<int>, reqs: seq<int>, n: nat) returns (s: nat, line: Line)
    requires |ports| == st.ports && Printable(st, ports) && n <= st.ports
    requires reqs != [] && Holds(st, ports, reqs, n)
    ensures st.Width(reqs[0]) > 0 && s + st.Width(reqs[0]) <= st.ports
    ensures Holds(st, ports, reqs[1..], s + st.Width(reqs[0])) && Fits(st, reqs, n)
    ensures Fits(st, reqs[1..], s + st.Width(reqs[0]))
    ensures Placed(st, reqs, n) == [line] + Placed(st, reqs[1..], s + st.Width(reqs[0]))
    ensures Walk(st, ports, s) == [line] + Walk(st, ports, s + st.Width(reqs[0]))
    ensures Enabled(Walk(st, ports, n)) == Enabled(Walk(st, ports, s))
    ensures forall l :: l in Walk(st, ports, s) ==> l in Walk(st, ports, n)
  {
    assert Fits(st, reqs, n);
    hide *;
    s := AlignUp(n, st.Width(reqs[0]));
    line := Line(st.id * st.ports + s, reqs[0]);
    StartsStep(st, reqs, n);
    HoldsStep(st, ports, reqs, n);
    WalkGap(st, ports, n, s);
    WalkStep(st, ports, s);
  }

  lemma HoldsStep(st: Stack, ports: seq<int>, reqs: seq<int>, n: nat)
    requires reqs != [] && |ports| == st.ports && Holds(st, ports, reqs, n)
    ensures var w := st.Width(reqs[0]);
            w > 0 && (var s := AlignUp(n, w);
            s < |ports| && ports[s] == reqs[0] && Holds(st, ports, reqs[1..], s + w)
            && forall i :: n <= i < s ==> ports[i] == 0)
  {
    hide AlignUp, Stack.Width;
    StartsStep(st, reqs, n);
    var w := st.Width(reqs[0]);
    var s := AlignUp(n, w);
    forall i: nat | n <= i < |ports| ensures ports[i] == SlotAt(st, reqs, n, i) {
    }
    SlotAtStep(st, reqs, n, s);
    forall i | n <= i < s ensures ports[i] == 0 {
      SlotAtStep(st, reqs, n, i);
    }
    forall i | s + w <= i < |ports| ensures ports[i] == SlotAt(st, reqs[1..], s + w, i) {
      SlotAtStep(st, reqs, n, i);
    }
  }

  lemma WalkStep(st: Stack, ports: seq<int>, i: nat)
    requires Printable(st, ports) && i < st.ports && st.Width(ports[i]) > 0 && st.PortValid(i)
    ensures Walk(st, ports, i) ==
            [Line(st.id * st.ports + i, ports[i])] + Walk(st, ports, i + st.Width(ports[i]))
  {
  }

  lemma EnabledCons(line: Line, lines: seq<Line>)
    ensures Enabled([line] + lines) == (if line.bif != 0 then [line] else []) + Enabled(lines)
  {
    assert ([line] + lines)[1..] == lines;
  }

  lemma {:induction false} SlotsHaveWidths(st: Stack, reqs: seq<int>, n: nat, i: nat)
    requires Fits(st, reqs, n)
    ensures st.Width(SlotAt(st, reqs, n, i)) > 0
  {
    if reqs != [] {
      StartsStep(st, reqs, n);
      SlotAtStep(st, reqs, n, i);
      var s := AlignUp(n, st.Width(reqs[0]));
      if i > s {
        SlotsHaveWidths(st, reqs[1..], s + st.Width(reqs[0]), i);
      }
    }
  }

  /** What an accepted request list leaves in the slots is printed as the
      requests, in order, each at its port. */
  lemma SetThenPrint(st: Stack, reqs: seq<int>, p: seq<int>)
    requires Fits(st, reqs, 0) && |p| == st.ports
    requires forall i :: 0 <= i < st.ports ==> p[i] == SlotAt(st, reqs, 0, i)
    ensures Printable(st, p)
    ensures Enabled(Walk(st, p, 0)) == Enabled(Placed(st, reqs, 0))
    ensures forall line :: line in Placed(st, reqs, 0) ==> line in Walk(st, p, 0)
  {
    forall i | 0 <= i < |p| ensures st.Width(p[i]) > 0 {
      SlotsHaveWidths(st, reqs, 0, i);
    }
    WalkShowsPlaced(st, p, reqs, 0);
    forall line | line in Placed(st, reqs, 0) ensures line in Walk(st, p, 0) {
      WalkVisits(st, p, reqs, 0, line);
    }
  }
}
