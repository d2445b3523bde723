/** The remote call between the two cores (source/hardware/pxi.c): ARM11 calls, ARM9
    serves. Three actors take turns in any order: the caller's main thread, the
    caller's interrupt handler, which preempts it, and the server. Waiting is blocking:
    an actor whose guard is false has no step. */
module Pxi {
  datatype Option<T> = None | Some(value: T)

  const MAX_PARAMS: nat := 15

  // IPC_CMD_RESP_FLAG is bit 15.
  predicate HasFlag(w: nat) {
    w / 0x8000 % 2 == 1
  }

  function Flagged(w: nat): nat {
    if HasFlag(w) then w else w + 0x8000
  }

  // Parameter words a command announces: two per buffer, and the plain parameters.
  function Words(cmd: nat): nat {
    cmd / 0x40 % 4 * 2 + cmd / 0x10 % 4 * 2 + cmd % 0x10
  }

  datatype Call = Call(cmd: nat, args: seq<nat>)

  predicate GoodCall(c: Call) {
    !HasFlag(c.cmd) && |c.args| == Words(c.cmd) <= MAX_PARAMS
  }

  // The calls the client makes, the depth of both FIFOs, and what the server answers
  // to a call given everything it was asked so far.
  datatype Config = Config(calls: seq<Call>, cap: nat, handle: seq<Call> -> nat)

  datatype Main = Send | Sync | Args(i: nat) | Wait | Clear | Fetch

  // The client's interrupt handler; Stray: a word without the response flag arrived.
  datatype Handler = Off | Recv | Store(w: nat) | RecvRes | Stray

  datatype Server =
    | Idle | RecvCmd | RecvArgs(cmd: nat, got: seq<nat>)
    | SendResp(cmd: nat, res: nat) | SendRes(res: nat) | SyncBack
    | Panic

  datatype State = State(
    k: nat, main: Main, handler: Handler, server: Server,
    toServer: seq<nat>, toClient: seq<nat>, irqServer: bool, irqClient: bool,
    resp0: nat, resp1: nat, results: seq<nat>, seen: seq<Call>)

  datatype Actor = MainThread | Interrupt | Arm9

  function Init(): State {
    State(0, Send, Off, Idle, [], [], false, false, 0, 0, [], [])
  }

  // PXI_sendCmd, call after call. The main thread does not run inside the handler.
  function MainStep(c: Config, s: State): Option<State> {
    if !s.handler.Off? || s.k >= |c.calls| then None else
      var call := c.calls[s.k];
      match s.main
      case Send =>
        if |s.toServer| < c.cap then Some(s.(toServer := s.toServer + [call.cmd], main := Sync)) else None
      case Sync => Some(s.(irqServer := true, main := Args(0)))
      case Args(i) =>
        if i >= |call.args| then Some(s.(main := Wait))
        else if |s.toServer| < c.cap then Some(s.(toServer := s.toServer + [call.args[i]], main := Args(i + 1)))
        else None
      case Wait => if s.resp0 == Flagged(call.cmd) then Some(s.(main := Clear)) else None
      case Clear => Some(s.(resp0 := 0, main := Fetch))
      case Fetch => Some(s.(results := s.results + [s.resp1], k := s.k + 1, main := Send))
  }

  // pxiIrqHandler on the client: a response is stored flag word first.
  function InterruptStep(s: State): Option<State> {
    match s.handler
    case Off => if s.irqClient then Some(s.(irqClient := false, handler := Recv)) else None
    case Recv =>
      if s.toClient == [] then None else
        var w := s.toClient[0];
        Some(s.(toClient := s.toClient[1..], handler := if HasFlag(w) then Store(w) else Stray))
    case Store(w) => Some(s.(resp0 := w, handler := RecvRes))
    case RecvRes =>
      if s.toClient == [] then None
      else Some(s.(resp1 := s.toClient[0], toClient := s.toClient[1..], handler := Off))
    case Stray => None
  }

  // pxiIrqHandler on the server.
  function ServerStep(c: Config, s: State): Option<State> {
    match s.server
    case Idle => if s.irqServer then Some(s.(irqServer := false, server := RecvCmd)) else None
    case RecvCmd =>
      if s.toServer == [] then None else
        var w := s.toServer[0];
        Some(s.(toServer := s.toServer[1..],
                server := if HasFlag(w) || Words(w) > MAX_PARAMS then Panic else RecvArgs(w, [])))
    case RecvArgs(cmd, got) =>
      if |got| >= Words(cmd) then
        var seen := s.seen + [Call(cmd, got)];
        Some(s.(seen := seen, server := SendResp(cmd, c.handle(seen))))
      else if s.toServer == [] then None
      else Some(s.(toServer := s.toServer[1..], server := RecvArgs(cmd, got + [s.toServer[0]])))
    case SendResp(cmd, res) =>
      if |s.toClient| < c.cap then Some(s.(toClient := s.toClient + [Flagged(cmd)], server := SendRes(res))) else None
    case SendRes(res) =>
      if |s.toClient| < c.cap then Some(s.(toClient := s.toClient + [res], server := SyncBack)) else None
    case SyncBack => Some(s.(irqClient := true, server := Idle))
    case Panic => None
  }

  function Next(c: Config, s: State, a: Actor): Option<State> {
    match a
    case MainThread => MainStep(c, s)
    case Interrupt => InterruptStep(s)
    case Arm9 => ServerStep(c, s)
  }

  predicate Done(c: Config, s: State) {
    s.k == |c.calls|
  }

  predicate Quiet(s: State) {
    s.toServer == [] && s.toClient == [] && !s.irqServer && !s.irqClient && s.handler.Off? && s.server.Idle?
  }

  // -- The invariant --

  ghost predicate Inv(c: Config, s: State) {
    && (forall i :: 0 <= i < |c.calls| ==> GoodCall(c.calls[i]))
    && s.k <= |c.calls| && |s.results| == s.k
    && (forall j :: 0 <= j < s.k ==> s.results[j] == c.handle(c.calls[..j + 1]))
    && |s.toServer| <= c.cap && |s.toClient| <= c.cap
    && (s.main.Send? ==> Quiet(s) && s.resp0 == 0 && s.seen == c.calls[..s.k])
    && (!s.main.Send? ==> s.k < |c.calls| && InCall(c, s, c.calls[s.k], c.handle(c.calls[..s.k + 1])))
  }

  ghost predicate InCall(c: Config, s: State, call: Call, res: nat)
    requires s.k < |c.calls|
  {
    match s.main
    case Send => false
    case Sync =>
      && s.toServer == [call.cmd] && s.toClient == [] && !s.irqServer && !s.irqClient
      && s.handler.Off? && s.server.Idle? && s.resp0 == 0 && s.seen == c.calls[..s.k]
    case Args(i) => i <= |call.args| && InFlight(c, s, call, res, i)
    case Wait => InFlight(c, s, call, res, |call.args|)
    case Clear => Quiet(s) && s.resp0 == Flagged(call.cmd) && s.resp1 == res && s.seen == c.calls[..s.k + 1]
    case Fetch => Quiet(s) && s.resp0 == 0 && s.resp1 == res && s.seen == c.calls[..s.k + 1]
  }

  // Once everything is sent the server may already be past the call.
  ghost predicate InFlight(c: Config, s: State, call: Call, res: nat, i: nat)
    requires s.k < |c.calls| && i <= |call.args|
  {
    || (s.seen == c.calls[..s.k] && Transfer(s, call, i))
    || (i == |call.args| && s.seen == c.calls[..s.k + 1] && Answer(s, call, res))
  }

  // The command and i parameters are sent; the server has taken some of them.
  ghost predicate Transfer(s: State, call: Call, i: nat)
    requires i <= |call.args|
  {
    && s.toClient == [] && !s.irqClient && s.handler.Off? && s.resp0 == 0
    && match s.server
       case Idle => s.irqServer && s.toServer == [call.cmd] + call.args[..i]
       case RecvCmd => !s.irqServer && s.toServer == [call.cmd] + call.args[..i]
       case RecvArgs(cmd, got) =>
         !s.irqServer && cmd == call.cmd && |got| <= i && got == call.args[..|got|] && s.toServer == call.args[|got|..i]
       case _ => false
  }

  // The server answers, then the handler takes the answer.
  ghost predicate Answer(s: State, call: Call, res: nat) {
    && s.toServer == [] && !s.irqServer
    && match s.server
       case SendResp(cmd, r) =>
         cmd == call.cmd && r == res && s.toClient == [] && !s.irqClient && s.handler.Off? && s.resp0 == 0
       case SendRes(r) =>
         r == res && s.toClient == [Flagged(call.cmd)] && !s.irqClient && s.handler.Off? && s.resp0 == 0
       case SyncBack =>
         s.toClient == [Flagged(call.cmd), res] && !s.irqClient && s.handler.Off? && s.resp0 == 0
       case Idle => Taken(s, call, res)
       case _ => false
  }

  ghost predicate Taken(s: State, call: Call, res: nat) {
    match s.handler
    case Off =>
      if s.irqClient then s.toClient == [Flagged(call.cmd), res] && s.resp0 == 0
      else s.toClient == [] && s.resp0 == Flagged(call.cmd) && s.resp1 == res
    case Recv => !s.irqClient && s.toClient == [Flagged(call.cmd), res] && s.resp0 == 0
    case Store(w) => !s.irqClient && w == Flagged(call.cmd) && s.toClient == [res] && s.resp0 == 0
    case RecvRes => !s.irqClient && s.toClient == [res] && s.resp0 == Flagged(call.cmd)
    case Stray => false
  }

  lemma InitInv(c: Config)
    requires forall i :: 0 <= i < |c.calls| ==> GoodCall(c.calls[i])
    ensures Inv(c, Init())
  {
  }

  lemma FlagIsSet(w: nat)
    ensures HasFlag(Flagged(w)) && Flagged(w) != 0
  {
  }

  lemma MainKeepsInv(c: Config, s: State)
    requires Inv(c, s) && MainStep(c, s).Some?
    ensures Inv(c, MainStep(c, s).value)
  {
    var call, t := c.calls[s.k], MainStep(c, s).value;
    FlagIsSet(call.cmd);
    match s.main
    case Send =>
    case Sync => assert [call.cmd] + call.args[..0] == [call.cmd];
    case Args(i) => if i < |call.args| { SentOne(s, call, i, t); }
    case Wait =>
    case Clear =>
    case Fetch =>
  }

  lemma SentOne(s: State, call: Call, i: nat, t: State)
    requires i < |call.args| && Transfer(s, call, i)
    requires t == s.(toServer := s.toServer + [call.args[i]], main := Args(i + 1))
    ensures Transfer(t, call, i + 1)
  {
    assert call.args[..i + 1] == call.args[..i] + [call.args[i]];
    if s.server.RecvArgs? {
      var g := |s.server.got|;
      assert call.args[g..i + 1] == call.args[g..i] + [call.args[i]];
    }
  }

  lemma InterruptKeepsInv(c: Config, s: State)
    requires Inv(c, s) && InterruptStep(s).Some?
    ensures Inv(c, InterruptStep(s).value)
  {
    FlagIsSet(c.calls[s.k].cmd);
  }

  // A server step while parameters are on their way.
  lemma ServerReceives(c: Config, s: State, call: Call, res: nat, i: nat)
    requires s.k < |c.calls| && call == c.calls[s.k] && res == c.handle(c.calls[..s.k + 1]) && GoodCall(call)
    requires i <= |call.args| && s.seen == c.calls[..s.k] && Transfer(s, call, i) && ServerStep(c, s).Some?
    ensures InFlight(c, ServerStep(c, s).value, call, res, i)
  {
    match s.server
    case Idle =>
    case RecvCmd => assert ([call.cmd] + call.args[..i])[1..] == call.args[0..i];
    case RecvArgs(cmd, got) =>
      var g := |got|;
      if g < |call.args| {
        assert call.args[g..i][1..] == call.args[g + 1..i];
        assert call.args[..g + 1] == call.args[..g] + [call.args[g]];
      } else {
        assert call.args[..g] == call.args;
        assert c.calls[..s.k + 1] == c.calls[..s.k] + [call];
      }
  }

  lemma ServerKeepsInv(c: Config, s: State)
    requires Inv(c, s) && ServerStep(c, s).Some?
    ensures Inv(c, ServerStep(c, s).value)
  {
    hide Transfer;
    var call := c.calls[s.k];
    var res := c.handle(c.calls[..s.k + 1]);
    var i := if s.main.Args? then s.main.i else |call.args|;
    assert InFlight(c, s, call, res, i);
    if s.seen == c.calls[..s.k] {
      ServerReceives(c, s, call, res, i);
    }
  }
}
