/** The NVMe admin command passthrough (lib/fabric.c): a payload is cut into
    fragments, and the response is collected piece by piece. */
module Passthru {
  import opened Wrappers
  import opened Bytes
  import opened Mrpc

  const FRAGMENT_LEN := MRPC_MAX_DATA_LEN - 16
  const U16 := 0x1_0000

  datatype Fragment = Fragment(offset: nat, data: bytes, more: bool)

  datatype Cmd =
    | Start(pdfid: nat, expectedRspLen: nat, fragment: Fragment)
    | Data(pdfid: nat, offset: nat)
    | End(pdfid: nat)

  datatype Rsp = Rsp(ret: int, rspLen: nat, len: nat, data: bytes)

  // ----- what is sent

  /** The fragments sent for `payload` from position `at` on: the offset, and with
      it the place the bytes are taken from, is held in 16 bits. */
  function FragmentsFrom(payload: bytes, at: nat): (fs: seq<Fragment>)
    requires at <= |payload|
    ensures |fs| > 0
    decreases |payload| - at
  {
    var offset, left := at % U16, |payload| - at;
    if left > FRAGMENT_LEN then
      [Fragment(offset, payload[offset..offset + FRAGMENT_LEN], true)] + FragmentsFrom(payload, at + FRAGMENT_LEN)
    else
      [Fragment(if left == 0 then 0 else offset, if left == 0 then [] else payload[offset..offset + left], false)]
  }

  function Fragments(payload: bytes): seq<Fragment> {
    FragmentsFrom(payload, 0)
  }

  /** A null pointer is sent like an empty payload, whatever length comes with it. */
  function Payload(src: Option<bytes>): bytes {
    match src case None => [] case Some(data) => data
  }

  /** A receiver that appends each fragment at the position it announces. */
  function Reassemble(got: bytes, fs: seq<Fragment>): Option<bytes>
    decreases |fs|
  {
    if fs == [] || fs[0].offset != |got| then None
    else if fs[0].more then Reassemble(got + fs[0].data, fs[1..])
    else if |fs| == 1 then Some(got + fs[0].data)
    else None
  }

  /** The last fragment that still starts below 64 KiB ends here. */
  const MAX_PAYLOAD := 66 * FRAGMENT_LEN

  lemma ReassembleStep(got: bytes, f: Fragment, rest: seq<Fragment>)
    ensures f.offset != |got| ==> Reassemble(got, [f] + rest) == None
    ensures f.more && f.offset == |got| ==> Reassemble(got, [f] + rest) == Reassemble(got + f.data, rest)
    ensures !f.more && rest == [] && f.offset == |got| ==> Reassemble(got, [f] + rest) == Some(got + f.data)
  {
    assert ([f] + rest)[1..] == rest;
  }

  lemma Unfold(payload: bytes, at: nat)
    requires at <= |payload|
    ensures var offset, left := at % U16, |payload| - at;
            && offset + left <= |payload|
            && (left > FRAGMENT_LEN ==>
                  FragmentsFrom(payload, at) ==
                  [Fragment(offset, payload[offset..offset + FRAGMENT_LEN], true)] + FragmentsFrom(payload, at + FRAGMENT_LEN))
            && (0 < left <= FRAGMENT_LEN ==>
                  FragmentsFrom(payload, at) == [Fragment(offset, payload[offset..offset + left], false)] + [])
            && (left == 0 ==> FragmentsFrom(payload, at) == [Fragment(0, [], false)] + [])
  {
  }

  /** From a position on, as long as every remaining fragment starts below 64 KiB. */
  lemma {:induction false} FragmentsReassemble(payload: bytes, at: nat, n: nat)
    requires at == n * FRAGMENT_LEN <= |payload| <= MAX_PAYLOAD
    requires n == 0 || at < |payload|
    ensures Reassemble(payload[..at], FragmentsFrom(payload, at)) == Some(payload)
    decreases |payload| - at
  {
    hide Reassemble, FragmentsFrom;
    Unfold(payload, at);
    var got, left := payload[..at], |payload| - at;
    assert at % U16 == at;
    if left > FRAGMENT_LEN {
      var data, rest := payload[at..at + FRAGMENT_LEN], FragmentsFrom(payload, at + FRAGMENT_LEN);
      ReassembleStep(got, Fragment(at, data, true), rest);
      assert payload[..at + FRAGMENT_LEN] == got + data;
      FragmentsReassemble(payload, at + FRAGMENT_LEN, n + 1);
    } else {
      var data := if left == 0 then [] else payload[at..at + left];
      ReassembleStep(got, Fragment(at, data, false), []);
      assert payload == got + data;
    }
  }

  /** The 67th fragment of a longer payload announces the wrong position. */
  lemma {:induction false} LongPayloadMisplaced(payload: bytes, at: nat, n: nat, got: bytes)
    requires at == n * FRAGMENT_LEN <= MAX_PAYLOAD < |payload| && |got| == at
    ensures Reassemble(got, FragmentsFrom(payload, at)) == None
    decreases MAX_PAYLOAD - at
  {
    hide Reassemble, FragmentsFrom;
    Unfold(payload, at);
    var offset, left := at % U16, |payload| - at;
    if left > FRAGMENT_LEN {
      var data, rest := payload[offset..offset + FRAGMENT_LEN], FragmentsFrom(payload, at + FRAGMENT_LEN);
      ReassembleStep(got, Fragment(offset, data, true), rest);
      if n < 66 {
        LongPayloadMisplaced(payload, at + FRAGMENT_LEN, n + 1, got + data);
      }
    } else {
      ReassembleStep(got, Fragment(offset, payload[offset..offset + left], false), []);
    }
  }

  /** The receiver gets the payload back exactly when it has at most 66528 bytes. */
  lemma FragmentationIsExact(payload: bytes)
    ensures Reassemble([], Fragments(payload)) == Some(payload) <==> |payload| <= 66528
  {
    if |payload| <= MAX_PAYLOAD {
      FragmentsReassemble(payload, 0, 0);
      assert payload[..0] == [];
    } else {
      LongPayloadMisplaced(payload, 0, 0, []);
    }
  }

  /** Only the last fragment says that no more follow; none but that of an empty
      payload is empty, and none exceeds the command. */
  lemma {:induction false} FragmentShape(payload: bytes, at: nat, i: nat)
    requires at <= |payload| && i < |FragmentsFrom(payload, at)|
    ensures var fs := FragmentsFrom(payload, at);
            && (fs[i].more <==> i + 1 < |fs|)
            && |fs[i].data| <= FRAGMENT_LEN
            && (at < |payload| ==> fs[i].data != [])
    decreases |payload| - at
  {
    if |payload| - at > FRAGMENT_LEN && i > 0 {
      FragmentShape(payload, at + FRAGMENT_LEN, i - 1);
    }
  }

  function StartCmds(pdfid: nat, fs: seq<Fragment>, rspLen: nat): (cmds: seq<Cmd>)
    ensures |cmds| == |fs|
  {
    seq(|fs|, i requires 0 <= i < |fs| =>
      Start(pdfid, if i == |fs| - 1 then rspLen % U16 else 0, fs[i]))
  }

  /** The k-th fragment and the ones after it. */
  /** From fragment `k` on, the fragments are those of the payload from `at` on. */
  ghost predicate Cutting(fs: seq<Fragment>, k: nat, payload: bytes, at: nat) {
    k < |fs| && at <= |payload| && fs[k..] == FragmentsFrom(payload, at)
  }

  lemma FirstCut(payload: bytes)
    ensures Cutting(Fragments(payload), 0, payload, 0)
  {
    assert Fragments(payload)[0..] == Fragments(payload);
  }

  lemma NextFragment(payload: bytes, at: nat, fs: seq<Fragment>, k: nat)
    requires at + FRAGMENT_LEN < |payload| && Cutting(fs, k, payload, at)
    ensures at % U16 + FRAGMENT_LEN <= |payload| && k < |fs|
    ensures fs[k] == Fragment(at % U16, payload[at % U16..at % U16 + FRAGMENT_LEN], true)
    ensures Cutting(fs, k + 1, payload, at + FRAGMENT_LEN)
  {
    assert fs[k..][0] == fs[k] && fs[k..][1..] == fs[k + 1..];
  }

  lemma LastFragment(payload: bytes, at: nat, fs: seq<Fragment>, k: nat)
    requires |payload| <= at + FRAGMENT_LEN && Cutting(fs, k, payload, at)
    ensures k == |fs| - 1
    ensures at == |payload| ==> fs[k] == Fragment(0, [], false)
    ensures at < |payload| ==>
              at % U16 + |payload| - at <= |payload|
              && fs[k] == Fragment(at % U16, payload[at % U16..at % U16 + |payload| - at], false)
  {
    assert fs[k..][0] == fs[k];
  }

  /** The replies to `cmds`, sent from turn `turn` on, were all successes. */
  ghost predicate Accepted(reply: (nat, Cmd) -> Rsp, turn: nat, cmds: seq<Cmd>) {
    forall i :: 0 <= i < |cmds| ==> reply(turn + i, cmds[i]).ret == 0
  }

  lemma AcceptedAppend(reply: (nat, Cmd) -> Rsp, turn: nat, cmds: seq<Cmd>, k: nat)
    requires k < |cmds| && Accepted(reply, turn, cmds[..k])
    ensures cmds[..k + 1] == cmds[..k] + [cmds[k]]
    ensures reply(turn + k, cmds[k]).ret == 0 ==> Accepted(reply, turn, cmds[..k + 1])
  {
  }

  lemma StartCmdAt(pdfid: nat, fs: seq<Fragment>, rspLen: nat, k: nat)
    requires k < |fs|
    ensures StartCmds(pdfid, fs, rspLen)[k] == Start(pdfid, if k == |fs| - 1 then rspLen % U16 else 0, fs[k])
  {
  }

  /** The fragments that start commands carry. */
  function FragmentsOf(cmds: seq<Cmd>): (fs: seq<Fragment>)
    requires forall i :: 0 <= i < |cmds| ==> cmds[i].Start?
    ensures |fs| == |cmds|
  {
    seq(|cmds|, i requires 0 <= i < |cmds| => cmds[i].fragment)
  }

  /** Start commands that bring the caller's bytes across: in fragments of up to
      1008 bytes, which put together are those bytes, with the expected length in
      the last command only. */
  ghost predicate Delivers(cmds: seq<Cmd>, pdfid: nat, src: Option<bytes>, rspLen: nat) {
    && cmds != []
    && (forall i :: 0 <= i < |cmds| ==>
          && cmds[i].Start? && cmds[i].pdfid == pdfid && |cmds[i].fragment.data| <= 1008
          && cmds[i].expectedRspLen == (if i == |cmds| - 1 then rspLen % 0x1_0000 else 0)
          && (cmds[i].fragment.more <==> i < |cmds| - 1))
    && (src.Some? && |src.value| <= 66528 ==> Reassemble([], FragmentsOf(cmds)) == Some(src.value))
    && (src == None ==> |cmds| == 1 && cmds[0].fragment == Fragment(0, [], false))
  }

  lemma StartCmdsDeliver(pdfid: nat, src: Option<bytes>, rspLen: nat)
    ensures Delivers(StartCmds(pdfid, Fragments(Payload(src)), rspLen), pdfid, src, rspLen)
  {
    var fs := Fragments(Payload(src));
    var cmds := StartCmds(pdfid, fs, rspLen);
    forall i | 0 <= i < |cmds|
      ensures cmds[i] == Start(pdfid, if i == |cmds| - 1 then rspLen % 0x1_0000 else 0, fs[i])
      ensures |fs[i].data| <= 1008 && (fs[i].more <==> i < |fs| - 1)
    {
      StartCmdAt(pdfid, fs, rspLen, i);
      FragmentShape(Payload(src), 0, i);
    }
    assert FragmentsOf(cmds) == fs;
    FragmentationIsExact(Payload(src));
    hide Reassemble, StartCmds;
    if src == None {
      Unfold([], 0);
    }
  }

  /** Sends the payload's fragments in order until all are sent or one is refused. */
  method AdminPassthruStart(link: Link<Cmd, Rsp>, pdfid: nat, src: Option<bytes>, rspLenIn: nat)
    returns (ret: int, rspLen: nat, ghost cmds: seq<Cmd>, ghost k: nat)
    modifies link
    ensures Delivers(cmds, pdfid, src, rspLenIn) && k < |cmds|
    ensures link.sent == old(link.sent) + cmds[..k + 1] && Accepted(link.reply, |old(link.sent)|, cmds[..k])
    ensures ret == link.reply(|old(link.sent)| + k, cmds[k]).ret
    ensures ret == 0 ==> k == |cmds| - 1 && rspLen == link.reply(|old(link.sent)| + k, cmds[k]).rspLen
  {
    hide FragmentsFrom, Accepted, StartCmds, Delivers, SoFar, Cutting;
    StartCmdsDeliver(pdfid, src, rspLenIn);
    var data := Payload(src);
    ghost var fs, before := Fragments(data), link.sent;
    cmds := StartCmds(pdfid, fs, rspLenIn);
    ghost var at: nat := 0;
    k := 0;
    rspLen := rspLenIn;
    var offset, dataLen := 0, |data|;
    var fragment := Fragment(0, [], false);
    FirstCut(data);
    NothingSent(link.sent, cmds, link.reply);
    if dataLen != 0 && src.Some? {
      var moreData := dataLen > FRAGMENT_LEN;
      while moreData
        invariant at + dataLen == |data| && dataLen > 0 && offset == at % U16 && Cutting(fs, k, data, at)
        invariant moreData <==> dataLen > FRAGMENT_LEN
        invariant SoFar(link.sent, before, cmds, k, link.reply)
        decreases dataLen
      {
        NextFragment(data, at, fs, k);
        fragment := Fragment(offset, data[offset..offset + FRAGMENT_LEN], true);
        StartCmdAt(pdfid, fs, rspLenIn, k);
        OneMore(link.sent, before, cmds, k, link.reply);
        var rsp := link.Exec(Start(pdfid, 0, fragment));
        ret := rsp.ret;
        if ret != 0 {
          return;
        }
        k := k + 1;
        at := at + FRAGMENT_LEN;
        offset := (offset + FRAGMENT_LEN) % U16;
        dataLen := dataLen - FRAGMENT_LEN;
        moreData := dataLen > FRAGMENT_LEN;
      }
      LastFragment(data, at, fs, k);
      fragment := Fragment(offset, data[offset..offset + dataLen], false);
    }
    LastFragment(data, at, fs, k);
    StartCmdAt(pdfid, fs, rspLenIn, k);
    OneMore(link.sent, before, cmds, k, link.reply);
    var rsp := link.Exec(Start(pdfid, rspLenIn % U16, fragment));
    ret := rsp.ret;
    rspLen := if ret != 0 then 0 else rsp.rspLen;
  }

  /** After `before`, the first `k` of the commands have been sent and accepted. */
  ghost predicate SoFar(sent: seq<Cmd>, before: seq<Cmd>, cmds: seq<Cmd>, k: nat, reply: (nat, Cmd) -> Rsp) {
    k <= |cmds| && sent == before + cmds[..k] && Accepted(reply, |before|, cmds[..k])
  }

  lemma NothingSent(sent: seq<Cmd>, cmds: seq<Cmd>, reply: (nat, Cmd) -> Rsp)
    ensures SoFar(sent, sent, cmds, 0, reply)
  {
    assert sent + cmds[..0] == sent;
  }

  lemma OneMore(sent: seq<Cmd>, before: seq<Cmd>, cmds: seq<Cmd>, k: nat, reply: (nat, Cmd) -> Rsp)
    requires SoFar(sent, before, cmds, k, reply) && k < |cmds|
    ensures |sent| == |before| + k && Accepted(reply, |before|, cmds[..k])
    ensures sent + [cmds[k]] == before + cmds[..k + 1]
    ensures reply(|before| + k, cmds[k]).ret == 0 ==> SoFar(sent + [cmds[k]], before, cmds, k + 1, reply)
  {
    AcceptedAppend(reply, |before|, cmds, k);
    hide Accepted;
    assert cmds[..k + 1] == cmds[..k] + [cmds[k]];
  }

  // ----- what comes back

  /** A successful reply at `offset`: the next piece of `response`, as long as the device likes. */
  ghost predicate ServesPiece(rsp: Rsp, offset: nat, response: bytes) {
    && 0 < rsp.len <= 1020
    && |rsp.data| == 1020
    && At(response, offset, rsp.data[..rsp.len])
  }

  /** A device with a response to give: its length is announced when the last
      fragment is taken, and its pieces are served on request. */
  ghost predicate Responds(reply: (nat, Cmd) -> Rsp, response: bytes) {
    && |response| < U16
    && (forall turn: nat, pdfid: nat, expected: nat, f: Fragment ::
          !f.more && reply(turn, Start(pdfid, expected, f)).ret == 0 ==>
            reply(turn, Start(pdfid, expected, f)).rspLen == |response|)
    && (forall turn: nat, pdfid: nat, offset: nat ::
          offset < |response| && reply(turn, Data(pdfid, offset)).ret == 0 ==>
            ServesPiece(reply(turn, Data(pdfid, offset)), offset, response))
  }

  lemma RespondsAt(reply: (nat, Cmd) -> Rsp, response: bytes, turn: nat, pdfid: nat, offset: nat)
    requires Responds(reply, response) && offset < |response| && reply(turn, Data(pdfid, offset)).ret == 0
    ensures ServesPiece(reply(turn, Data(pdfid, offset)), offset, response)
  {
  }

  /** Requests for response data, walking forward. */
  ghost predicate Collects(cmds: seq<Cmd>, pdfid: nat, upTo: nat) {
    && (forall i :: 0 <= i < |cmds| ==> cmds[i].Data? && cmds[i].pdfid == pdfid && cmds[i].offset < upTo)
    && (forall i, j :: 0 <= i < j < |cmds| ==> cmds[i].offset < cmds[j].offset)
  }

  /** The caller's buffer may be larger than the response; its rest is left alone.
      A copy leaves a smaller one, and there the model stops: not `inside`. */
  method AdminPassthruData(link: Link<Cmd, Rsp>, pdfid: nat, rspLen: nat, rsp: array<byte>, ghost response: bytes)
    returns (ret: int, inside: bool, ghost datas: seq<Cmd>)
    requires Responds(link.reply, response) && rspLen == |response| < U16
    modifies link, rsp
    ensures link.sent == old(link.sent) + datas && Collects(datas, pdfid, rspLen)
    ensures |response| <= rsp.Length ==> inside
    ensures ret == 0 && inside ==> |response| <= rsp.Length && Received(rsp[..], old(rsp[..]), response)
    ensures ret != 0 ==> inside && datas != [] && ret == link.reply(|link.sent| - 1, datas[|datas| - 1]).ret
  {
    hide Responds;
    datas := [];
    ghost var before := link.sent;
    var offset: nat := 0;
    while offset < rspLen
      invariant 0 <= offset <= rspLen && offset <= rsp.Length
      invariant rsp[..offset] == response[..offset] && rsp[offset..] == old(rsp[offset..])
      invariant link.sent == before + datas && Collects(datas, pdfid, offset)
      decreases rspLen - offset
    {
      ghost var turn := |link.sent|;
      var reply := link.Exec(Data(pdfid, offset % U16));
      datas := datas + [Data(pdfid, offset)];
      ret := reply.ret;
      if ret != 0 {
        return ret, true, datas;
      }
      RespondsAt(link.reply, response, turn, pdfid, offset);
      if offset + reply.len > rsp.Length {
        return 0, false, datas;
      }
      CopyChunk(rsp, offset, reply.data, reply.len, response);
      offset := offset + reply.len;
    }
    return 0, true, datas;
  }

  /** A buffer begins with the response and is otherwise as it was. */
  ghost predicate Received(buf: bytes, before: bytes, response: bytes) {
    && |response| <= |buf| == |before|
    && buf[..|response|] == response
    && buf[|response|..] == before[|response|..]
  }

  /** A whole passthrough: on success the receiver was sent the payload and an
      end marker, and the caller holds the device's response, if it wants one. */
  method NvmeAdminPassthru(link: Link<Cmd, Rsp>, pdfid: nat, src: Option<bytes>, rspLenIn: nat, rsp: array?<byte>,
                           ghost response: bytes)
    returns (ret: int, rspLen: nat, inside: bool)
    requires Responds(link.reply, response)
    modifies link, rsp
    ensures rsp == null || |response| <= rsp.Length ==> inside
    ensures ret == 0 && inside ==>
              && rspLen == |response|
              && (rsp != null ==> |response| <= rsp.Length && Received(rsp[..], old(rsp[..]), response))
              && exists starts, datas ::
                   && Delivers(starts, pdfid, src, rspLenIn)
                   && Collects(datas, pdfid, |response|) && (rsp == null ==> datas == [])
                   && link.sent == old(link.sent) + starts + datas + [End(pdfid)]
    ensures |link.sent| > |old(link.sent)|
    ensures ret != 0 ==> inside && ret == link.reply(|link.sent| - 1, link.sent[|link.sent| - 1]).ret
  {
    hide Collects, Delivers, Responds, Accepted;
    ghost var cmds, k, datas;
    inside := true;
    ret, rspLen, cmds, k := AdminPassthruStart(link, pdfid, src, rspLenIn);
    if ret != 0 {
      return;
    }
    LastAnnounces(link.reply, response, cmds, pdfid, src, rspLenIn, |old(link.sent)| + k);
    assert cmds[..k + 1] == cmds;
    datas := [];
    if rspLen != 0 && rsp != null {
      ret, inside, datas := AdminPassthruData(link, pdfid, rspLen, rsp, response);
      if !inside {
        return;
      }
      if ret != 0 {
        rspLen := 0;
        return;
      }
    } else {
      NothingToCollect(pdfid, rspLen);
    }
    var reply := link.Exec(End(pdfid));
    ret := reply.ret;
  }

  lemma NothingToCollect(pdfid: nat, upTo: nat)
    ensures Collects([], pdfid, upTo)
  {
  }

  lemma LastAnnounces(reply: (nat, Cmd) -> Rsp, response: bytes, cmds: seq<Cmd>, pdfid: nat, src: Option<bytes>,
                      rspLen: nat, turn: nat)
    requires Responds(reply, response) && Delivers(cmds, pdfid, src, rspLen)
    requires reply(turn, cmds[|cmds| - 1]).ret == 0
    ensures reply(turn, cmds[|cmds| - 1]).rspLen == |response| < U16
  {
    hide Reassemble;
    var last := cmds[|cmds| - 1];
    assert last == Start(last.pdfid, last.expectedRspLen, last.fragment) && !last.fragment.more;
  }
}
