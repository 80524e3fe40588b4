/** Writing a firmware image to the switch (lib/fw.c): block by block, waiting for
    each to be programmed, with the event interrupts masked when the registers
    are reached through the GAS. */
module FwDownload {
  import opened Bytes
  import opened Mrpc

  const EBUSY := 16
  const ENODEV := 19
  const BLOCK_LEN := MRPC_MAX_DATA_LEN - 16
  const FW_DL_MAX_RETRIES := 5
  const U32 := 0x1_0000_0000

  const DLSTAT_INPROGRESS := 0x1
  const DLSTAT_HARDWARE_ERR := 0x6
  const DLSTAT_COMPLETES := 0x7
  const DLSTAT_SUCCESS_FIRM_ACT := 0x8
  const DLSTAT_SUCCESS_DATA_ACT := 0x9
  const DLSTAT_ERROR_PROGRAM := 0x1000
  const DLSTAT_ERROR_OFFSET := 0x1001

  const BG_INPROGRESS := 1
  const BG_OFFSET := 3
  const BG_ERROR := 0xFF

  /** A device's answer to a command; the two statuses matter for status queries. */
  datatype Answer = Answer(ret: int, dlstatus: nat, bgstatus: nat)

  datatype Block = Block(offset: nat, imgLength: nat, dontActivate: bool, data: bytes)

  /** A command, and whether both event interrupts were masked when it was issued. */
  datatype Event = Sent(block: Block, ret: int, quiet: bool) | Polled(answer: Answer, quiet: bool)

  /** What reading the image file yields: up to so many bytes, try again, a
      failure with the nonzero code to report, or the end of the file. */
  datatype Read = Chunk(n: nat) | Again | Failed(code: int) | Eof

  function ClearIrq(hdr: bv32): bv32 {
    hdr & 0xffff_fff7
  }

  predicate IrqMasked(hdr: bv32) {
    hdr & 0x8 == 0
  }

  lemma ClearedIsMasked(hdr: bv32)
    ensures IrqMasked(ClearIrq(hdr))
  {
  }

  /** A device answers from a script of any length; when that ends it is gone and
      every further command fails, so each terminating run has its script. */
  class Device {
    const answers: seq<Answer>
    var log: seq<Event>
    var mrpcCompHdr: bv32
    var mrpcCompAsyncHdr: bv32
    var mapped: bool

    constructor (answers: seq<Answer>, mrpcCompHdr: bv32, mrpcCompAsyncHdr: bv32)
      ensures this.answers == answers && log == [] && !mapped
      ensures this.mrpcCompHdr == mrpcCompHdr && this.mrpcCompAsyncHdr == mrpcCompAsyncHdr
    {
      this.answers := answers;
      log, mapped := [], false;
      this.mrpcCompHdr, this.mrpcCompAsyncHdr := mrpcCompHdr, mrpcCompAsyncHdr;
    }

    predicate Quiet()
      reads this`mrpcCompHdr, this`mrpcCompAsyncHdr
    {
      IrqMasked(mrpcCompHdr) && IrqMasked(mrpcCompAsyncHdr)
    }

    function AnswerAt(i: nat): (a: Answer)
      ensures i >= |answers| ==> a.ret < 0
    {
      if i < |answers| then answers[i] else Answer(-ENODEV, 0, 0)
    }

    /** The log records what the script answered, command by command. */
    ghost predicate Honest()
      reads this`log
    {
      forall i :: 0 <= i < |log| ==>
        match log[i]
        case Sent(_, ret, _) => ret == AnswerAt(i).ret
        case Polled(a, _) => a == AnswerAt(i)
    }

    method Send(block: Block) returns (ret: int)
      modifies this`log
      ensures log == old(log) + [Sent(block, ret, Quiet())]
      ensures ret == AnswerAt(|old(log)|).ret
      ensures old(Honest()) ==> Honest()
    {
      ret := AnswerAt(|log|).ret;
      log := log + [Sent(block, ret, Quiet())];
    }

    method Poll() returns (a: Answer)
      modifies this`log
      ensures log == old(log) + [Polled(a, Quiet())]
      ensures a == AnswerAt(|old(log)|)
      ensures a.ret >= 0 ==> |log| <= |answers|
      ensures old(Honest()) ==> Honest()
    {
      a := AnswerAt(|log|);
      log := log + [Polled(a, Quiet())];
    }
  }

  // ----- waiting for a block

  /** The statuses in hand after some queries: a failed query leaves them alone. */
  function Latest(polls: seq<Answer>, status: nat, bg: nat): (nat, nat) {
    if polls == [] then (status, bg)
    else if polls[|polls| - 1].ret == 0 then (polls[|polls| - 1].dlstatus, polls[|polls| - 1].bgstatus)
    else Latest(polls[..|polls| - 1], status, bg)
  }

  lemma LatestAppend(polls: seq<Answer>, a: Answer, status: nat, bg: nat)
    ensures Latest(polls + [a], status, bg) ==
            if a.ret == 0 then (a.dlstatus, a.bgstatus) else Latest(polls, status, bg)
  {
    assert (polls + [a])[..|polls|] == polls;
  }

  predicate Done(status: nat) {
    status == DLSTAT_COMPLETES || status == DLSTAT_SUCCESS_FIRM_ACT || status == DLSTAT_SUCCESS_DATA_ACT
  }

  /** What waiting reports once it stops. */
  function WaitVerdict(lastRet: int, status: nat, bg: nat): int {
    if lastRet < 0 then lastRet
    else if bg == BG_OFFSET then DLSTAT_ERROR_OFFSET
    else if bg == BG_ERROR then
      if status != DLSTAT_INPROGRESS && !Done(status) then status else DLSTAT_ERROR_PROGRAM
    else 0
  }

  /** Waiting reports success exactly when the last query did not fail and the
      background operation is over without an error, or ended in an error while
      the download status read "ready", which is 0. */
  lemma WaitSucceedsIff(lastRet: int, status: nat, bg: nat)
    ensures WaitVerdict(lastRet, status, bg) == 0 <==> lastRet >= 0 && bg != 3 && (bg == 0xff ==> status == 0)
  {
  }

  /** How often the query going on after these polls will still be tried. */
  function Tries(polls: seq<Answer>, attempts: nat): nat {
    if polls == [] then attempts
    else
      var n := |polls| - 1;
      if polls[n].ret == 0 || Tries(polls[..n], attempts) <= 1 then attempts else Tries(polls[..n], attempts) - 1
  }

  /** The last poll answered its query, or was the query's last attempt. */
  predicate EndsQuery(polls: seq<Answer>, attempts: nat) {
    polls != [] && (polls[|polls| - 1].ret == 0 || Tries(polls[..|polls| - 1], attempts) <= 1)
  }

  /** A wait ends with the first query that fails or finds no operation in progress. */
  predicate Settled(polls: seq<Answer>, attempts: nat, status: nat, bg: nat) {
    EndsQuery(polls, attempts) && (polls[|polls| - 1].ret < 0 || Latest(polls, status, bg).1 != 1)
  }

  ghost predicate FullWait(polls: seq<Answer>, attempts: nat, status: nat, bg: nat) {
    Settled(polls, attempts, status, bg) &&
    forall k :: 0 <= k < |polls| ==> !Settled(polls[..k], attempts, status, bg)
  }

  lemma TriesAppend(polls: seq<Answer>, a: Answer, attempts: nat)
    ensures EndsQuery(polls + [a], attempts) <==> a.ret == 0 || Tries(polls, attempts) <= 1
    ensures Tries(polls + [a], attempts) ==
            if EndsQuery(polls + [a], attempts) then attempts else Tries(polls, attempts) - 1
  {
    assert (polls + [a])[..|polls|] == polls;
  }

  function PolledEvents(polls: seq<Answer>, quiet: bool): (es: seq<Event>)
    ensures |es| == |polls|
  {
    seq(|polls|, i requires 0 <= i < |polls| => Polled(polls[i], quiet))
  }

  lemma PolledEventsAppend(polls: seq<Answer>, a: Answer, quiet: bool)
    ensures PolledEvents(polls + [a], quiet) == PolledEvents(polls, quiet) + [Polled(a, quiet)]
  {
  }

  lemma {:induction false} LatestConcat(a: seq<Answer>, b: seq<Answer>, status: nat, bg: nat)
    ensures Latest(a + b, status, bg) == Latest(b, Latest(a, status, bg).0, Latest(a, status, bg).1)
    decreases |b|
  {
    if b == [] {
      assert a + b == a;
    } else {
      var n := |b| - 1;
      assert (a + b)[..|a + b| - 1] == a + b[..n];
      LatestConcat(a, b[..n], status, bg);
    }
  }

  lemma PolledEventsConcat(a: seq<Answer>, b: seq<Answer>, quiet: bool)
    ensures PolledEvents(a + b, quiet) == PolledEvents(a, quiet) + PolledEvents(b, quiet)
  {
  }

  /** One status query, repeated up to `attempts` times until one is answered,
      after the queries `earlier` of the same wait. */
  method Query(dev: Device, attempts: nat, statusIn: nat, bgIn: nat, ghost earlier: seq<Answer>)
    returns (ret: int, status: nat, bg: nat, ghost polls: seq<Answer>)
    requires attempts > 0 && Tries(earlier, attempts) == attempts
    modifies dev`log
    ensures 0 < |polls| <= attempts && dev.log == old(dev.log) + PolledEvents(polls, dev.Quiet())
    ensures (status, bg) == Latest(polls, statusIn, bgIn) && ret == polls[|polls| - 1].ret
    ensures ret >= 0 ==> |dev.log| <= |dev.answers|
    ensures old(dev.Honest()) ==> dev.Honest()
    ensures EndsQuery(earlier + polls, attempts) && Tries(earlier + polls, attempts) == attempts
    ensures forall k :: 0 < k < |polls| ==> !EndsQuery(earlier + polls[..k], attempts)
  {
    hide Latest, PolledEvents, Device.Honest, EndsQuery, Tries;
    status, bg, polls := statusIn, bgIn, [];
    ghost var quiet, before := dev.Quiet(), dev.log;
    LatestNone(statusIn, bgIn);
    PolledEventsNone(quiet);
    var retries := attempts;
    ret := 0;
    assert earlier + polls == earlier;
    while true
      invariant retries + |polls| == attempts && retries > 0
      invariant dev.log == before + PolledEvents(polls, quiet) && dev.Quiet() == quiet
      invariant (status, bg) == Latest(polls, statusIn, bgIn)
      invariant old(dev.Honest()) ==> dev.Honest()
      invariant Tries(earlier + polls, attempts) == retries
      invariant forall k :: 0 < k <= |polls| ==> !EndsQuery(earlier + polls[..k], attempts)
      decreases retries
    {
      var a := dev.Poll();
      LatestAppend(polls, a, statusIn, bgIn);
      PolledEventsAppend(polls, a, quiet);
      TriesAppend(earlier + polls, a, attempts);
      assert earlier + (polls + [a]) == earlier + polls + [a];
      assert forall k :: 0 < k <= |polls| ==> (polls + [a])[..k] == polls[..k];
      polls := polls + [a];
      assert polls[..|polls|] == polls;
      ret := a.ret;
      if ret == 0 {
        status, bg := a.dlstatus, a.bgstatus;
        break;
      }
      retries := retries - 1;
      if retries == 0 {
        break;
      }
    }
  }

  lemma PolledEventsNone(quiet: bool)
    ensures PolledEvents([], quiet) == []
  {
  }

  lemma LatestNone(status: nat, bg: nat)
    ensures Latest([], status, bg) == (status, bg)
  {
  }

  /** switchtec_fw_wait and fw_wait_gas, which query up to five times and once
      per round; `bg` is whatever their uninitialised local held. */
  method FwWait(dev: Device, attempts: nat, statusIn: nat, bg: nat)
    returns (ret: int, status: nat, ghost polls: seq<Answer>)
    requires attempts > 0
    modifies dev`log
    ensures polls != [] && dev.log == old(dev.log) + PolledEvents(polls, dev.Quiet())
    ensures old(dev.Honest()) ==> dev.Honest()
    ensures FullWait(polls, attempts, statusIn, bg)
    ensures var (st, b) := Latest(polls, statusIn, bg);
            && status == st
            && ret == WaitVerdict(polls[|polls| - 1].ret, st, b)
            && (b == BG_INPROGRESS ==> polls[|polls| - 1].ret < 0)
    ensures var (st, b) := Latest(polls, statusIn, bg);
            ret == if polls[|polls| - 1].ret < 0 then polls[|polls| - 1].ret
                   else if b == 3 then 0x1001
                   else if b == 0xff then (if st == 1 || st == 7 || st == 8 || st == 9 then 0x1000 else st)
                   else 0
  {
    hide Latest, PolledEvents, Device.Honest, EndsQuery, Tries, FullWait, Settled;
    ghost var quiet, before := dev.Quiet(), dev.log;
    status, polls := statusIn, [];
    var bgstatus := bg;
    LatestNone(statusIn, bg);
    PolledEventsNone(quiet);
    NoTries(attempts, statusIn, bg);
    while true
      invariant dev.log == before + PolledEvents(polls, quiet) && dev.Quiet() == quiet
      invariant (status, bgstatus) == Latest(polls, statusIn, bg)
      invariant old(dev.Honest()) ==> dev.Honest()
      invariant Tries(polls, attempts) == attempts && Unsettled(polls, attempts, statusIn, bg)
      decreases |dev.answers| - |dev.log|
    {
      ghost var more;
      ret, status, bgstatus, more := Query(dev, attempts, status, bgstatus, polls);
      LatestConcat(polls, more, statusIn, bg);
      PolledEventsConcat(polls, more, quiet);
      QueryEnds(polls, more, attempts, statusIn, bg);
      polls := polls + more;
      if ret < 0 {
        return;
      }
      if bgstatus == BG_OFFSET {
        ret := DLSTAT_ERROR_OFFSET;
        return;
      }
      if bgstatus == BG_ERROR {
        if status != DLSTAT_INPROGRESS && !Done(status) {
          ret := status;
        } else {
          ret := DLSTAT_ERROR_PROGRAM;
        }
        return;
      }
      if bgstatus != BG_INPROGRESS {
        ret := 0;
        return;
      }
    }
  }

  ghost predicate Unsettled(polls: seq<Answer>, attempts: nat, status: nat, bg: nat) {
    forall k :: 0 <= k <= |polls| ==> !Settled(polls[..k], attempts, status, bg)
  }

  lemma NoTries(attempts: nat, status: nat, bg: nat)
    ensures Tries([], attempts) == attempts && Unsettled([], attempts, status, bg)
  {
  }

  /** One more query: the wait is over with it, or is still unsettled. */
  lemma QueryEnds(polls: seq<Answer>, more: seq<Answer>, attempts: nat, status: nat, bg: nat)
    requires Unsettled(polls, attempts, status, bg) && more != []
    requires EndsQuery(polls + more, attempts)
    requires forall k :: 0 < k < |more| ==> !EndsQuery(polls + more[..k], attempts)
    ensures if more[|more| - 1].ret < 0 || Latest(polls + more, status, bg).1 != 1
            then FullWait(polls + more, attempts, status, bg) else Unsettled(polls + more, attempts, status, bg)
  {
    hide Latest, EndsQuery;
    var all := polls + more;
    assert all[|all| - 1] == more[|more| - 1] && all[..|all|] == all;
    forall k | 0 <= k < |all| ensures !Settled(all[..k], attempts, status, bg) {
      if k <= |polls| {
        assert all[..k] == polls[..k];
      } else {
        assert all[..k] == polls + more[..k - |polls|];
      }
    }
  }

  // ----- a run of the download

  /** One block sent, what came of it, and the queries of the wait that followed;
      `junk` is what the wait's uninitialised local held. */
  datatype Round = Round(block: Block, sendRet: int, polls: seq<Answer>, junk: nat)

  function RoundEvents(r: Round, quiet: bool): seq<Event> {
    [Sent(r.block, r.sendRet, quiet)] + PolledEvents(r.polls, quiet)
  }

  function RunEvents(rs: seq<Round>, quiet: bool): seq<Event> {
    if rs == [] then [] else RunEvents(rs[..|rs| - 1], quiet) + RoundEvents(rs[|rs| - 1], quiet)
  }

  /** The bytes sent so far. */
  function SentBytes(rs: seq<Round>): bytes {
    if rs == [] then [] else SentBytes(rs[..|rs| - 1]) + rs[|rs| - 1].block.data
  }

  /** The download status known after the run. */
  function StatusAfter(rs: seq<Round>, status: nat): nat {
    if rs == [] then status
    else Latest(rs[|rs| - 1].polls, StatusAfter(rs[..|rs| - 1], status), rs[|rs| - 1].junk).0
  }

  /** The block was accepted and the wait on it returned 0. */
  predicate Programmed(r: Round, status: nat) {
    && r.sendRet == 0
    && r.polls != []
    && var (st, bg) := Latest(r.polls, status, r.junk);
       && WaitVerdict(r.polls[|r.polls| - 1].ret, st, bg) == 0
       && bg != BG_INPROGRESS
  }

  predicate AllProgrammed(rs: seq<Round>, status: nat) {
    rs == [] || (AllProgrammed(rs[..|rs| - 1], status) &&
                 Programmed(rs[|rs| - 1], StatusAfter(rs[..|rs| - 1], status)))
  }

  /** Nothing is sent until the block before it has been programmed. */
  predicate Disciplined(rs: seq<Round>, status: nat) {
    rs == [] || AllProgrammed(rs[..|rs| - 1], status)
  }

  /** Each block is the next piece of the image, at its own offset, under the one total length. */
  predicate Tiles(rs: seq<Round>, image: bytes, dontActivate: bool) {
    rs == [] ||
    (&& Tiles(rs[..|rs| - 1], image, dontActivate)
     && var b := rs[|rs| - 1].block;
        && b.offset == |SentBytes(rs[..|rs| - 1])| % U32
        && b.imgLength == |image| % U32
        && b.dontActivate == dontActivate
        && 0 < |b.data| <= BLOCK_LEN
        && SentBytes(rs) <= image)
  }

  /** The run of the download loop. */
  method DownloadBlocks(dev: Device, image: bytes, file: seq<Read>, dontActivate: bool, useGas: bool,
                        statusIn: nat, junk: nat -> nat)
    returns (ret: int, ghost rounds: seq<Round>, ghost exit: Exit)
    requires forall i :: 0 <= i < |file| && file[i].Failed? ==> file[i].code != 0
    modifies dev`log
    ensures dev.log == old(dev.log) + RunEvents(rounds, dev.Quiet())
    ensures old(dev.Honest()) ==> dev.Honest()
    ensures Tiles(rounds, image, dontActivate) && Disciplined(rounds, statusIn)
    ensures Ended(exit, ret, rounds, image, file, statusIn) && Waited(rounds, statusIn, if useGas then 1 else 5)
  {
    hide PolledEvents, Latest, WaitVerdict, Tiles, AllProgrammed, Disciplined, RunEvents, RoundEvents, SentBytes,
         StatusAfter, Programmed, Going, Device.Honest, FullWait, Ended, Waited, Reading, Sizes, ReadSizes, ReadEnd;
    NoRounds(image, dontActivate, statusIn, dev.Quiet());
    ghost var quiet, before := dev.Quiet(), dev.log;
    var attempts := if useGas then 1 else FW_DL_MAX_RETRIES;
    rounds := [];
    NothingRead(image, file, statusIn, attempts);
    var offset, next := 0, 0;
    var status: nat := statusIn;
    ghost var stopped := false;
    while offset < |image|
      invariant 0 <= offset <= |image| && 0 <= next <= |file|
      invariant dev.log == before + RunEvents(rounds, quiet) && dev.Quiet() == quiet
      invariant old(dev.Honest()) ==> dev.Honest()
      invariant Going(rounds, image, dontActivate, statusIn, offset, status) && !stopped
      invariant Reading(rounds, file, |image|, next, |image| - offset) && Waited(rounds, statusIn, attempts)
      decreases |image| - offset, |file| - next
    {
      GoingIs(rounds, image, dontActivate, statusIn, offset, status);
      ReadsStop(rounds, file, |image|, next, |image| - offset);
      var read := Eof;
      ghost var at := next;
      if next < |file| {
        read := file[next];
        next := next + 1;
      }
      if read.Again? {
        ReadAgain(rounds, file, |image|, at, |image| - offset);
        continue;
      }
      if read.Failed? {
        ret, exit := read.code, BadRead;
        EndsReading(exit, ret, rounds, image, file, statusIn);
        return;
      }
      if read.Eof? || read.n == 0 {
        stopped := true;
        break;
      }
      var blkLen := Smallest(read.n, BLOCK_LEN, |image| - offset);
      var block := Block(offset % U32, |image| % U32, dontActivate, image[offset..offset + blkLen]);
      ghost var r, statusBefore := Round(block, 0, [], 0), status;
      ret, status, r := SendBlock(dev, block, attempts, status, junk(next));
      AddRound(rounds, r, image, dontActivate, statusIn, offset, statusBefore, quiet);
      ReadChunk(rounds, r, file, |image|, at, |image| - offset);
      ReadRound(rounds, r, file, |image|, statusIn, attempts);
      if ret != 0 {
        exit := if r.sendRet != 0 then Refused else Stopped;
        EndsUnsent(exit, ret, rounds, r, image, file, statusIn);
        rounds := rounds + [r];
        return;
      }
      rounds := rounds + [r];
      offset := offset + blkLen;
    }
    GoingIs(rounds, image, dontActivate, statusIn, offset, status);
    if !stopped {
      ReadsStop(rounds, file, |image|, next, |image| - offset);
    }
    exit := Finished;
    if Done(status) {
      ret := 0;
    } else {
      ret := if status != 0 then status else DLSTAT_HARDWARE_ERR;
    }
    EndsReading(exit, ret, rounds, image, file, statusIn);
  }

  /** One block and, if it is accepted, the wait on it. */
  method SendBlock(dev: Device, block: Block, attempts: nat, statusIn: nat, junkBg: nat)
    returns (ret: int, status: nat, ghost r: Round)
    requires attempts > 0
    modifies dev`log
    ensures r.block == block && dev.log == old(dev.log) + RoundEvents(r, dev.Quiet())
    ensures old(dev.Honest()) ==> dev.Honest()
    ensures r.sendRet != 0 ==> r.polls == [] && ret == r.sendRet
    ensures r.sendRet == 0 ==>
              && r.polls != [] && FullWait(r.polls, attempts, statusIn, r.junk)
              && var (st, bg) := Latest(r.polls, statusIn, r.junk);
                 status == st && ret == WaitVerdict(r.polls[|r.polls| - 1].ret, st, bg)
    ensures ret == 0 ==> Programmed(r, statusIn)
  {
    hide PolledEvents, Latest, WaitVerdict, RoundEvents, Programmed, Device.Honest, FullWait;
    status := statusIn;
    ret := dev.Send(block);
    if ret != 0 {
      r := Round(block, ret, [], 0);
      RefusedRound(r, dev.Quiet());
      return;
    }
    ghost var polls;
    ret, status, polls := FwWait(dev, attempts, status, junkBg);
    r := Round(block, 0, polls, junkBg);
    WaitedRound(r, statusIn, dev.Quiet());
  }

  // ----- what a run comes to

  /** Where the loop is left: at a failed read, a refused block, a wait without
      success, or at its end. */
  datatype Exit = BadRead | Refused | Stopped | Finished

  /** The sizes of the blocks that the reads yield for `left` bytes. */
  function ReadSizes(file: seq<Read>, left: nat): seq<nat>
    decreases |file|
  {
    if left == 0 || file == [] then []
    else match file[0]
      case Again => ReadSizes(file[1..], left)
      case Chunk(n) =>
        if n == 0 then []
        else [Smallest(n, 1008, left)] + ReadSizes(file[1..], left - Smallest(n, 1008, left))
      case _ => []
  }

  /** The read at which they stop yielding, or Eof. */
  function ReadEnd(file: seq<Read>, left: nat): Read
    decreases |file|
  {
    if left == 0 || file == [] then Eof
    else match file[0]
      case Again => ReadEnd(file[1..], left)
      case Chunk(n) => if n == 0 then Eof else ReadEnd(file[1..], left - Smallest(n, 1008, left))
      case Failed(_) => file[0]
      case Eof => Eof
  }

  function Sizes(rs: seq<Round>): (s: seq<nat>)
    ensures |s| == |rs|
  {
    seq(|rs|, i requires 0 <= i < |rs| => |rs[i].block.data|)
  }

  function Sum(s: seq<nat>): nat {
    if s == [] then 0 else s[0] + Sum(s[1..])
  }

  /** What each exit returns, and why it was taken. */
  ghost predicate Ended(exit: Exit, ret: int, rs: seq<Round>, image: bytes, file: seq<Read>, statusIn: nat) {
    && Sizes(rs) <= ReadSizes(file, |image|)
    && match exit
       case BadRead =>
         AllProgrammed(rs, statusIn) && Sizes(rs) == ReadSizes(file, |image|) && ReadEnd(file, |image|) == Failed(ret) && ret != 0
       case Refused =>
         rs != [] && rs[|rs| - 1].polls == [] && ret == rs[|rs| - 1].sendRet && ret != 0
       case Stopped =>
         && rs != [] && rs[|rs| - 1].sendRet == 0 && rs[|rs| - 1].polls != [] && ret != 0
         && var r := rs[|rs| - 1];
            var (st, bg) := Latest(r.polls, StatusAfter(rs[..|rs| - 1], statusIn), r.junk);
            ret == WaitVerdict(r.polls[|r.polls| - 1].ret, st, bg)
       case Finished =>
         && AllProgrammed(rs, statusIn) && Sizes(rs) == ReadSizes(file, |image|) && !ReadEnd(file, |image|).Failed?
         && var st := StatusAfter(rs, statusIn);
            ret == if st == 7 || st == 8 || st == 9 then 0 else if st != 0 then st else 6
  }

  /** Every accepted block was followed by a whole wait. */
  ghost predicate Waited(rs: seq<Round>, statusIn: nat, attempts: nat) {
    forall i :: 0 <= i < |rs| && rs[i].sendRet == 0 ==>
      FullWait(rs[i].polls, attempts, StatusAfter(rs[..i], statusIn), rs[i].junk)
  }

  /** The rounds so far are what the reads before `next` yielded. */
  ghost predicate Reading(rs: seq<Round>, file: seq<Read>, total: nat, next: nat, left: nat) {
    && next <= |file|
    && ReadSizes(file, total) == Sizes(rs) + ReadSizes(file[next..], left)
    && ReadEnd(file, total) == ReadEnd(file[next..], left)
  }

  lemma NothingRead(image: bytes, file: seq<Read>, statusIn: nat, attempts: nat)
    ensures Reading([], file, |image|, 0, |image|) && Waited([], statusIn, attempts)
  {
    assert file[0..] == file && Sizes([]) == [];
    assert [] + ReadSizes(file, |image|) == ReadSizes(file, |image|);
  }

  /** Where the reads stop yielding. */
  lemma ReadsStop(rs: seq<Round>, file: seq<Read>, total: nat, next: nat, left: nat)
    requires Reading(rs, file, total, next, left)
    ensures left == 0 || next == |file| || file[next].Failed? || file[next].Eof? || file[next] == Chunk(0) ==>
              ReadSizes(file, total) == Sizes(rs)
              && (if left > 0 && next < |file| && file[next].Failed? then ReadEnd(file, total) == file[next]
                  else !ReadEnd(file, total).Failed?)
  {
    hide Sizes;
    assert Sizes(rs) + [] == Sizes(rs);
  }

  lemma ReadAgain(rs: seq<Round>, file: seq<Read>, total: nat, next: nat, left: nat)
    requires Reading(rs, file, total, next, left) && left > 0 && next < |file| && file[next].Again?
    ensures Reading(rs, file, total, next + 1, left)
  {
    hide Sizes;
    assert file[next..][0] == file[next] && file[next..][1..] == file[next + 1..];
  }

  lemma ReadChunk(rs: seq<Round>, r: Round, file: seq<Read>, total: nat, next: nat, left: nat)
    requires Reading(rs, file, total, next, left) && left > 0 && next < |file|
    requires file[next].Chunk? && file[next].n > 0 && |r.block.data| == Smallest(file[next].n, 1008, left)
    ensures Reading(rs + [r], file, total, next + 1, left - |r.block.data|)
    ensures Sizes(rs + [r]) <= ReadSizes(file, total)
  {
    assert file[next..][0] == file[next] && file[next..][1..] == file[next + 1..];
    var k := |r.block.data|;
    var rest := ReadSizes(file[next + 1..], left - k);
    assert Sizes(rs + [r]) == Sizes(rs) + [k];
    assert ReadSizes(file[next..], left) == [k] + rest;
    hide Sizes, ReadSizes, ReadEnd;
    assert Sizes(rs) + ([k] + rest) == Sizes(rs) + [k] + rest;
  }

  /** The round just finished belongs to the reads, and its wait was whole. */
  lemma ReadRound(rs: seq<Round>, r: Round, file: seq<Read>, total: nat, statusIn: nat, attempts: nat)
    requires Waited(rs, statusIn, attempts)
    requires r.sendRet == 0 ==> FullWait(r.polls, attempts, StatusAfter(rs, statusIn), r.junk)
    ensures Waited(rs + [r], statusIn, attempts)
  {
    hide FullWait, StatusAfter;
    assert (rs + [r])[..|rs|] == rs;
    assert forall i :: 0 <= i < |rs| ==> (rs + [r])[..i] == rs[..i];
  }

  lemma EndsReading(exit: Exit, ret: int, rs: seq<Round>, image: bytes, file: seq<Read>, statusIn: nat)
    requires AllProgrammed(rs, statusIn) && ReadSizes(file, |image|) == Sizes(rs)
    requires match exit
             case BadRead => ReadEnd(file, |image|) == Failed(ret) && ret != 0
             case Finished =>
               && !ReadEnd(file, |image|).Failed?
               && var st := StatusAfter(rs, statusIn);
                  ret == if st == 7 || st == 8 || st == 9 then 0 else if st != 0 then st else 6
             case _ => false
    ensures Ended(exit, ret, rs, image, file, statusIn)
  {
  }

  lemma EndsUnsent(exit: Exit, ret: int, rs: seq<Round>, r: Round, image: bytes, file: seq<Read>, statusIn: nat)
    requires Sizes(rs + [r]) <= ReadSizes(file, |image|) && ret != 0
    requires exit == if r.sendRet != 0 then Refused else Stopped
    requires r.sendRet != 0 ==> r.polls == [] && ret == r.sendRet
    requires r.sendRet == 0 ==>
               r.polls != [] &&
               var (st, bg) := Latest(r.polls, StatusAfter(rs, statusIn), r.junk);
               ret == WaitVerdict(r.polls[|r.polls| - 1].ret, st, bg)
    ensures Ended(exit, ret, rs + [r], image, file, statusIn)
  {
    hide Sizes, ReadSizes, Latest, StatusAfter, WaitVerdict;
    assert (rs + [r])[..|rs|] == rs;
  }

  lemma {:induction false} SizesSum(rs: seq<Round>)
    ensures Sum(Sizes(rs)) == |SentBytes(rs)|
  {
    if rs != [] {
      var n := |rs| - 1;
      SizesSum(rs[..n]);
      assert Sizes(rs) == Sizes(rs[..n]) + [|rs[n].block.data|];
      SumAppend(Sizes(rs[..n]), |rs[n].block.data|);
    }
  }

  lemma {:induction false} SumAppend(s: seq<nat>, x: nat)
    ensures Sum(s + [x]) == Sum(s) + x
  {
    if s == [] {
      assert [x][1..] == [];
      assert s + [x] == [x];
    } else {
      assert (s + [x])[1..] == s[1..] + [x];
      SumAppend(s[1..], x);
    }
  }

  lemma {:induction false} EnoughRead(file: seq<Read>, left: nat)
    requires Sum(ReadSizes(file, left)) == left
    ensures ReadEnd(file, left) == Eof
    decreases |file|
  {
    if left > 0 && file != [] && (file[0].Again? || (file[0].Chunk? && file[0].n > 0)) {
      var sizes := ReadSizes(file, left);
      if file[0].Chunk? {
        var k := Smallest(file[0].n, 1008, left);
        assert sizes[1..] == ReadSizes(file[1..], left - k);
        EnoughRead(file[1..], left - k);
      } else {
        EnoughRead(file[1..], left);
      }
    }
  }

  /** Reads that yield the image and blocks that are all programmed: the whole
      image has been sent, and the run got to its end. */
  lemma WholeImage(exit: Exit, ret: int, rs: seq<Round>, image: bytes, dontActivate: bool, file: seq<Read>, statusIn: nat)
    requires Ended(exit, ret, rs, image, file, statusIn) && Tiles(rs, image, dontActivate)
    requires AllProgrammed(rs, statusIn) && Sum(ReadSizes(file, |image|)) == |image|
    ensures SentBytes(rs) == image && exit == Finished
  {
    SizesSum(rs);
    EnoughRead(file, |image|);
    hide ReadSizes, ReadEnd, Latest, Sum;
    assert SentBytes(rs) <= image by {
      if rs == [] {
        assert SentBytes(rs) == [];
      }
    }
  }

  /** The first `offset` bytes have been sent and programmed, and nothing else. */
  ghost predicate Going(rs: seq<Round>, image: bytes, dontActivate: bool, statusIn: nat, offset: nat, status: nat) {
    && offset <= |image|
    && Tiles(rs, image, dontActivate) && AllProgrammed(rs, statusIn)
    && SentBytes(rs) == image[..offset]
    && status == StatusAfter(rs, statusIn)
  }

  lemma GoingIs(rs: seq<Round>, image: bytes, dontActivate: bool, statusIn: nat, offset: nat, status: nat)
    requires Going(rs, image, dontActivate, statusIn, offset, status)
    ensures Tiles(rs, image, dontActivate) && AllProgrammed(rs, statusIn) && Disciplined(rs, statusIn)
    ensures |SentBytes(rs)| == offset <= |image| && (offset == |image| ==> SentBytes(rs) == image)
    ensures status == StatusAfter(rs, statusIn)
  {
    ProgrammedIsDisciplined(rs, statusIn);
  }

  lemma NoRounds(image: bytes, dontActivate: bool, status: nat, quiet: bool)
    ensures RunEvents([], quiet) == [] && SentBytes([]) == [] && StatusAfter([], status) == status
    ensures Tiles([], image, dontActivate) && AllProgrammed([], status)
    ensures Going([], image, dontActivate, status, 0, status)
  {
  }

  lemma ProgrammedIsDisciplined(rs: seq<Round>, status: nat)
    requires AllProgrammed(rs, status)
    ensures Disciplined(rs, status)
  {
  }

  lemma RefusedRound(r: Round, quiet: bool)
    requires r.polls == []
    ensures RoundEvents(r, quiet) == [Sent(r.block, r.sendRet, quiet)]
  {
  }

  /** A block that was accepted has been programmed when the wait on it returns 0. */
  lemma WaitedRound(r: Round, status: nat, quiet: bool)
    requires r.sendRet == 0 && r.polls != []
    ensures RoundEvents(r, quiet) == [Sent(r.block, r.sendRet, quiet)] + PolledEvents(r.polls, quiet)
    ensures var (st, bg) := Latest(r.polls, status, r.junk);
            var ret := r.polls[|r.polls| - 1].ret;
            (bg == BG_INPROGRESS ==> ret < 0) && WaitVerdict(ret, st, bg) == 0 ==> Programmed(r, status)
  {
    hide Latest, PolledEvents;
  }

  function Smallest(a: nat, b: nat, c: nat): (m: nat)
    ensures m <= a && m <= b && m <= c && (m == a || m == b || m == c)
  {
    if a <= b && a <= c then a else if b <= c then b else c
  }

  /** The round of the next block. */
  lemma AddRound(rs: seq<Round>, r: Round, image: bytes, dontActivate: bool, statusIn: nat, offset: nat, status: nat,
                 quiet: bool)
    requires Going(rs, image, dontActivate, statusIn, offset, status)
    requires r.block.offset == offset % U32 && r.block.imgLength == |image| % U32 && r.block.dontActivate == dontActivate
    requires 0 < |r.block.data| <= BLOCK_LEN && At(image, offset, r.block.data)
    ensures Tiles(rs + [r], image, dontActivate) && Disciplined(rs + [r], statusIn)
    ensures RunEvents(rs + [r], quiet) == RunEvents(rs, quiet) + RoundEvents(r, quiet)
    ensures Programmed(r, status) ==>
              Going(rs + [r], image, dontActivate, statusIn, offset + |r.block.data|, Latest(r.polls, status, r.junk).0)
  {
    AppendRound(rs, r, image, dontActivate, statusIn, quiet);
    NextBytes(image, offset, r.block.data);
    hide Programmed, Latest, PolledEvents, Tiles, AllProgrammed, Disciplined, SentBytes, StatusAfter, RunEvents, RoundEvents, At;
  }

  lemma NextBytes(image: bytes, offset: nat, data: bytes)
    requires At(image, offset, data)
    ensures image[..offset] + data == image[..offset + |data|]
  {
  }

  /** How the measures of a run grow by one round. */
  lemma AppendRound(rs: seq<Round>, r: Round, image: bytes, dontActivate: bool, statusIn: nat, quiet: bool)
    ensures var b := r.block;
            Tiles(rs + [r], image, dontActivate) <==>
            && Tiles(rs, image, dontActivate) && b.offset == |SentBytes(rs)| % U32 && b.imgLength == |image| % U32
            && b.dontActivate == dontActivate && 0 < |b.data| <= BLOCK_LEN && SentBytes(rs) + b.data <= image
    ensures AllProgrammed(rs + [r], statusIn) <==>
            AllProgrammed(rs, statusIn) && Programmed(r, StatusAfter(rs, statusIn))
    ensures Disciplined(rs + [r], statusIn) <==> AllProgrammed(rs, statusIn)
    ensures RunEvents(rs + [r], quiet) == RunEvents(rs, quiet) + RoundEvents(r, quiet)
    ensures SentBytes(rs + [r]) == SentBytes(rs) + r.block.data
    ensures StatusAfter(rs + [r], statusIn) == Latest(r.polls, StatusAfter(rs, statusIn), r.junk).0
  {
    hide Programmed, Latest, PolledEvents, RoundEvents;
    assert (rs + [r])[..|rs|] == rs;
  }

  // ----- a run, block by block

  /** Block i carries the bytes of the image at the position where the blocks before it end. */
  lemma {:induction false} TilesAt(rs: seq<Round>, image: bytes, dontActivate: bool, i: nat)
    requires Tiles(rs, image, dontActivate) && i < |rs|
    ensures var at, b := |SentBytes(rs[..i])|, rs[i].block;
            && b.offset == at % U32 && b.imgLength == |image| % U32
            && 0 < |b.data| <= BLOCK_LEN
            && At(image, at, b.data)
    decreases |rs|
  {
    var n := |rs| - 1;
    if i < n {
      TilesAt(rs[..n], image, dontActivate, i);
      assert rs[..n][..i] == rs[..i];
    } else {
      var at, b := |SentBytes(rs[..n])|, rs[n].block;
      assert image[at..at + |b.data|] == SentBytes(rs)[at..] == b.data;
    }
  }

  lemma {:induction false} ProgrammedAt(rs: seq<Round>, status: nat, i: nat)
    requires AllProgrammed(rs, status) && i < |rs|
    ensures Programmed(rs[i], StatusAfter(rs[..i], status))
    decreases |rs|
  {
    var n := |rs| - 1;
    if i < n {
      ProgrammedAt(rs[..n], status, i);
      assert rs[..n][..i] == rs[..i];
    }
  }

  /** By the time a block is sent, the one before it was accepted and its last
      query answered: the operation is over, without an error unless the
      download status read "ready". Failing queries are negative here. */
  lemma SettledBeforeNext(rs: seq<Round>, status: nat, i: nat)
    requires Disciplined(rs, status) && i + 1 < |rs|
    requires forall p :: p in rs[i].polls ==> p.ret <= 0
    ensures rs[i].sendRet == 0 && rs[i].polls != []
    ensures var last := rs[i].polls[|rs[i].polls| - 1];
            && last.ret == 0
            && last.bgstatus != 1 && last.bgstatus != 3
            && (last.bgstatus == 0xff ==> last.dlstatus == 0)
  {
    var n := |rs| - 1;
    ProgrammedAt(rs[..n], status, i);
    var polls := rs[i].polls;
    assert polls[|polls| - 1] in polls;
  }

  // ----- the whole write

  /** Bit 3 is cleared and nothing else changed. */
  predicate Masked(hdr: bv32, before: bv32) {
    hdr == before & !0x8
  }

  /** fw_gas_mask_irq: the interrupt enable of both event headers, bit 3, is cleared. */
  method MaskIrq(dev: Device) returns (compHdr: bv32, compAsyncHdr: bv32)
    modifies dev`mrpcCompHdr, dev`mrpcCompAsyncHdr
    ensures compHdr == old(dev.mrpcCompHdr) && compAsyncHdr == old(dev.mrpcCompAsyncHdr)
    ensures Masked(dev.mrpcCompHdr, compHdr) && Masked(dev.mrpcCompAsyncHdr, compAsyncHdr)
    ensures dev.Quiet()
  {
    var hdr := dev.mrpcCompHdr;
    compHdr := hdr;
    ClearedIsMasked(hdr);
    dev.mrpcCompHdr := ClearIrq(hdr);

    hdr := dev.mrpcCompAsyncHdr;
    compAsyncHdr := hdr;
    ClearedIsMasked(hdr);
    dev.mrpcCompAsyncHdr := ClearIrq(hdr);
  }

  /** fw_gas_restore_irq */
  method RestoreIrq(dev: Device, compHdr: bv32, compAsyncHdr: bv32)
    modifies dev`mrpcCompHdr, dev`mrpcCompAsyncHdr
    ensures dev.mrpcCompHdr == compHdr && dev.mrpcCompAsyncHdr == compAsyncHdr
  {
    dev.mrpcCompHdr := compHdr;
    dev.mrpcCompAsyncHdr := compAsyncHdr;
  }

  /** switchtec_fw_write_fd and _file, from the first status query on. Whatever
      the device and the file do, the blocks sent are consecutive pieces of the
      image, none is sent before the one ahead of it is programmed, commands sent
      while the GAS is mapped find both interrupts masked, on every exit the event
      headers are as they were and the map is released, and the result is what the
      exit says. */
  method FwWrite(dev: Device, image: bytes, file: seq<Read>, dontActivate: bool, force: bool, gasMaps: bool,
                 junkStatus: nat, junkBg: nat, junk: nat -> nat)
    returns (ret: int, ghost first: Answer, ghost rounds: seq<Round>, ghost exit: Exit)
    requires !dev.mapped
    requires forall i :: 0 <= i < |file| && file[i].Failed? ==> file[i].code != 0
    modifies dev
    ensures dev.mrpcCompHdr == old(dev.mrpcCompHdr) && dev.mrpcCompAsyncHdr == old(dev.mrpcCompAsyncHdr)
    ensures !dev.mapped
    ensures dev.log == old(dev.log) + [Polled(first, old(dev.Quiet()))] +
                       RunEvents(rounds, gasMaps || old(dev.Quiet()))
    ensures old(dev.Honest()) ==> dev.Honest()
    ensures Tiles(rounds, image, dontActivate)
    ensures var (st, bg) := if first.ret == 0 then (first.dlstatus, first.bgstatus) else (junkStatus, junkBg);
            if (!force && st == 1) || bg == 1 then ret == -16 && rounds == []
            else
              && Disciplined(rounds, st)
              && Ended(exit, ret, rounds, image, file, st) && Waited(rounds, st, if gasMaps then 1 else 5)
  {
    hide Tiles, AllProgrammed, Disciplined, RunEvents, Ended, Waited, Device.Honest, Device.Quiet;
    NoRounds(image, dontActivate, 0, dev.Quiet() || gasMaps);
    var status, bgstatus := junkStatus, junkBg;
    rounds, exit := [], Finished;
    var answer := dev.Poll();
    first := answer;
    if answer.ret == 0 {
      status, bgstatus := answer.dlstatus, answer.bgstatus;
    }
    if !force && status == DLSTAT_INPROGRESS {
      return -EBUSY, first, rounds, exit;
    }
    if bgstatus == BG_INPROGRESS {
      return -EBUSY, first, rounds, exit;
    }
    ret, rounds, exit := MaskedDownload(dev, image, file, dontActivate, gasMaps, status, junk);
  }

  /** The download itself, between masking the interrupts and restoring them when
      the registers can be mapped. */
  method MaskedDownload(dev: Device, image: bytes, file: seq<Read>, dontActivate: bool, gasMaps: bool,
                        status: nat, junk: nat -> nat)
    returns (ret: int, ghost rounds: seq<Round>, ghost exit: Exit)
    requires !dev.mapped
    requires forall i :: 0 <= i < |file| && file[i].Failed? ==> file[i].code != 0
    modifies dev
    ensures dev.mrpcCompHdr == old(dev.mrpcCompHdr) && dev.mrpcCompAsyncHdr == old(dev.mrpcCompAsyncHdr)
    ensures !dev.mapped
    ensures dev.log == old(dev.log) + RunEvents(rounds, gasMaps || old(dev.Quiet()))
    ensures old(dev.Honest()) ==> dev.Honest()
    ensures Tiles(rounds, image, dontActivate) && Disciplined(rounds, status)
    ensures Ended(exit, ret, rounds, image, file, status) && Waited(rounds, status, if gasMaps then 1 else 5)
  {
    hide Tiles, Disciplined, RunEvents, Ended, Waited, Masked, IrqMasked, Device.Honest;
    var useGas, compHdr, compAsyncHdr := false, 0, 0;
    if gasMaps {
      dev.mapped := true;
      useGas := true;
      compHdr, compAsyncHdr := MaskIrq(dev);
    }
    ret, rounds, exit := DownloadBlocks(dev, image, file, dontActivate, useGas, status, junk);
    if useGas {
      RestoreIrq(dev, compHdr, compAsyncHdr);
      dev.mapped := false;
    }
  }
}
