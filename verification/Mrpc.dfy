/** The command channel to the switch. A device may answer each command as it
    likes: its answer depends on the turn and on the command itself. */
module Mrpc {

  const MRPC_MAX_DATA_LEN := 1024

  class Link<Cmd(!new), Rsp> {
    var sent: seq<Cmd>
    const reply: (nat, Cmd) -> Rsp

    constructor (reply: (nat, Cmd) -> Rsp)
      ensures sent == [] && this.reply == reply
    {
      this.reply := reply;
      sent := [];
    }

    method Exec(cmd: Cmd) returns (rsp: Rsp)
      modifies this
      ensures sent == old(sent) + [cmd]
      ensures rsp == reply(|old(sent)|, cmd)
    {
      rsp := reply(|sent|, cmd);
      sent := sent + [cmd];
    }
  }
}
