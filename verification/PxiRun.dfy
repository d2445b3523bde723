/** Runs of the remote call protocol (source/hardware/pxi.c): what holds in every
    interleaving, how long a run can be, and when it can get stuck. */
module PxiRun {
  import opened Pxi

  // An actor that is waiting does nothing when it gets a turn.
  function Turn(c: Config, s: State, a: Actor): State {
    match Next(c, s, a)
    case Some(t) => t
    case None => s
  }

  function Execute(c: Config, s: State, turns: seq<Actor>): State
    decreases |turns|
  {
    if turns == [] then s else Execute(c, Turn(c, s, turns[0]), turns[1..])
  }

  predicate GoodConfig(c: Config) {
    forall i :: 0 <= i < |c.calls| ==> GoodCall(c.calls[i])
  }

  predicate Stuck(c: Config, s: State) {
    forall a: Actor :: Next(c, s, a) == None
  }

  lemma TurnKeepsInv(c: Config, s: State, a: Actor)
    requires Inv(c, s)
    ensures Inv(c, Turn(c, s, a))
  {
    hide Inv, MainStep, InterruptStep, ServerStep;
    if Next(c, s, a).Some? {
      match a
      case MainThread => MainKeepsInv(c, s);
      case Interrupt => InterruptKeepsInv(c, s);
      case Arm9 => ServerKeepsInv(c, s);
    }
  }

  lemma {:induction false} RunKeepsInv(c: Config, s: State, turns: seq<Actor>)
    requires Inv(c, s)
    ensures Inv(c, Execute(c, s, turns))
    decreases |turns|
  {
    if turns != [] {
      TurnKeepsInv(c, s, turns[0]);
      RunKeepsInv(c, Turn(c, s, turns[0]), turns[1..]);
    }
  }

  // In every interleaving: each finished call got the answer to that very call, the
  // server saw exactly the calls made so far, in order, and between calls both FIFOs
  // are empty and no interrupt is pending.
  lemma CallsAreCorrect(c: Config, turns: seq<Actor>)
    requires GoodConfig(c)
    ensures var s := Execute(c, Init(), turns);
            && s.k <= |c.calls| && |s.results| == s.k
            && (forall j :: 0 <= j < s.k ==> s.results[j] == c.handle(c.calls[..j + 1]))
            && (s.seen == c.calls[..s.k] || (s.k < |c.calls| && s.seen == c.calls[..s.k + 1]))
            && (s.main.Send? ==> Quiet(s) && s.seen == c.calls[..s.k])
            && |s.toServer| <= c.cap && |s.toClient| <= c.cap
            && !s.server.Panic? && !s.handler.Stray?
  {
    InitInv(c);
    RunKeepsInv(c, Init(), turns);
  }

  // -- Progress --

  // With room for a whole answer somebody can always move until all calls are done.
  lemma NeverStuck(c: Config, s: State)
    requires Inv(c, s) && c.cap >= 2 && !Done(c, s)
    ensures !Stuck(c, s)
  {
    if s.main.Send? {
      assert Next(c, s, MainThread).Some?;
    } else {
      SomeoneMoves(c, s, c.calls[s.k], c.handle(c.calls[..s.k + 1]));
    }
  }

  lemma SomeoneMoves(c: Config, s: State, call: Call, res: nat)
    requires c.cap >= 2 && s.k < |c.calls| && call == c.calls[s.k] && GoodCall(call) && InCall(c, s, call, res)
    ensures !Stuck(c, s)
  {
    match s.main
    case Sync => assert Next(c, s, MainThread).Some?;
    case Clear => assert Next(c, s, MainThread).Some?;
    case Fetch => assert Next(c, s, MainThread).Some?;
    case Args(i) => InFlightMoves(c, s, call, res, i);
    case Wait => InFlightMoves(c, s, call, res, |call.args|);
    case Send =>
  }

  lemma InFlightMoves(c: Config, s: State, call: Call, res: nat, i: nat)
    requires c.cap >= 2 && s.k < |c.calls| && call == c.calls[s.k] && GoodCall(call)
    requires i <= |call.args| && InFlight(c, s, call, res, i) && s.main == (if s.main.Args? then Args(i) else Wait)
    requires s.main.Wait? ==> i == |call.args|
    ensures !Stuck(c, s)
  {
    if s.main == Args(|call.args|) && s.handler.Off? {
      assert Next(c, s, MainThread).Some?;
    } else if s.server.Idle? && !s.irqServer {
      assert Next(c, s, Interrupt).Some? || Next(c, s, MainThread).Some?;
    } else if s.server.RecvArgs? && s.toServer == [] && |s.server.got| < Words(s.server.cmd) {
      assert Next(c, s, MainThread).Some?;
    } else {
      assert Next(c, s, Arm9).Some?;
    }
  }

  // Steps still to be made for the current call, by actor.
  function MainLeft(m: Main, n: nat): nat {
    match m
    case Send => n + 6
    case Sync => n + 5
    case Args(i) => if i <= n then n - i + 4 else 0
    case Wait => 3
    case Clear => 2
    case Fetch => 1
  }

  function ServerLeft(s: State, n: nat): nat {
    if |s.seen| > s.k then
      match s.server case SendResp(_, _) => 3 case SendRes(_) => 2 case SyncBack => 1 case _ => 0
    else
      match s.server
      case RecvCmd => n + 5
      case RecvArgs(_, got) => if |got| <= n then n - |got| + 4 else 0
      case _ => n + 6
  }

  function HandlerLeft(s: State): nat {
    match s.handler
    case Off => if s.main.Clear? || s.main.Fetch? || s.resp0 != 0 then 0 else 4
    case Recv => 3
    case Store(_) => 2
    case RecvRes => 1
    case Stray => 0
  }

  // Steps of the calls from the k-th on.
  function Cost(calls: seq<Call>, k: nat): nat
    decreases |calls| - k
  {
    if k >= |calls| then 0 else 2 * |calls[k].args| + 16 + Cost(calls, k + 1)
  }

  function Left(c: Config, s: State): nat {
    if s.k >= |c.calls| then 0 else
      var n := |c.calls[s.k].args|;
      MainLeft(s.main, n) + ServerLeft(s, n) + HandlerLeft(s) + Cost(c.calls, s.k + 1)
  }

  // Every step brings the end one step closer.
  lemma StepCounts(c: Config, s: State, a: Actor)
    requires Inv(c, s) && Next(c, s, a).Some?
    ensures Left(c, Next(c, s, a).value) + 1 == Left(c, s)
  {
    match a
    case MainThread => MainCounts(c, s);
    case Interrupt => InterruptCounts(c, s);
    case Arm9 => ServerCounts(c, s);
  }

  lemma MainCounts(c: Config, s: State)
    requires Inv(c, s) && MainStep(c, s).Some?
    ensures Left(c, MainStep(c, s).value) + 1 == Left(c, s)
  {
    hide Cost;
    FlagIsSet(c.calls[s.k].cmd);
    if s.main.Fetch? { FetchCounts(c, s); }
  }

  lemma FetchCounts(c: Config, s: State)
    requires Inv(c, s) && s.main.Fetch?
    ensures MainStep(c, s).Some? && Left(c, MainStep(c, s).value) + 1 == Left(c, s)
  {
    assert Cost(c.calls, s.k + 1) ==
           if s.k + 1 >= |c.calls| then 0 else 2 * |c.calls[s.k + 1].args| + 16 + Cost(c.calls, s.k + 2);
  }

  lemma InterruptCounts(c: Config, s: State)
    requires Inv(c, s) && InterruptStep(s).Some?
    ensures Left(c, InterruptStep(s).value) + 1 == Left(c, s)
  {
    FlagIsSet(c.calls[s.k].cmd);
  }

  lemma ServerCounts(c: Config, s: State)
    requires Inv(c, s) && ServerStep(c, s).Some?
    ensures Left(c, ServerStep(c, s).value) + 1 == Left(c, s)
  {
    hide Cost, Flagged, HasFlag;
  }

  // -- Complete runs --

  // A run in which every turn is a step.
  predicate Busy(c: Config, s: State, turns: seq<Actor>)
    decreases |turns|
  {
    turns == [] || (Next(c, s, turns[0]).Some? && Busy(c, Turn(c, s, turns[0]), turns[1..]))
  }

  lemma {:induction false} BusyCounts(c: Config, s: State, turns: seq<Actor>)
    requires Inv(c, s) && Busy(c, s, turns)
    ensures Left(c, Execute(c, s, turns)) + |turns| == Left(c, s)
    decreases |turns|
  {
    hide Inv, Left, Next;
    if turns != [] {
      TurnKeepsInv(c, s, turns[0]);
      StepCounts(c, s, turns[0]);
      BusyCounts(c, Turn(c, s, turns[0]), turns[1..]);
    }
  }

  // No run makes more than Left(Init) steps, whoever moves; and one that cannot go on
  // has finished every call, has made exactly that many, and leaves everything quiet.
  lemma RunsFinish(c: Config, turns: seq<Actor>)
    requires GoodConfig(c) && c.cap >= 2 && Busy(c, Init(), turns)
    ensures |turns| <= Left(c, Init())
    ensures var s := Execute(c, Init(), turns);
            Stuck(c, s) <==> |turns| == Left(c, Init())
    ensures var s := Execute(c, Init(), turns);
            Stuck(c, s) ==> Done(c, s) && Quiet(s) && s.seen == c.calls && |s.results| == |c.calls|
  {
    var s := Execute(c, Init(), turns);
    InitInv(c);
    RunKeepsInv(c, Init(), turns);
    BusyCounts(c, Init(), turns);
    if Stuck(c, s) {
      if !Done(c, s) { NeverStuck(c, s); }
      assert c.calls[..s.k] == c.calls;
    } else {
      var a :| Next(c, s, a) != None;
      StepCounts(c, s, a);
    }
  }

  // -- Less room is not enough --

  // Nothing of the first call's answer beyond its first word exists.
  ghost predicate Early(c: Config, s: State) {
    && s.k == 0 && !s.main.Clear? && !s.main.Fetch? && s.handler.Off? && !s.irqClient && s.resp0 == 0
    && !s.server.SyncBack? && (s.server.Idle? ==> s.seen == [])
  }

  lemma SmallKeepsEarly(c: Config, s: State, a: Actor)
    requires Inv(c, s) && Early(c, s) && c.cap < 2 && |c.calls| > 0 && Next(c, s, a).Some?
    ensures Early(c, Next(c, s, a).value)
  {
    FlagIsSet(c.calls[0].cmd);
  }

  // With a FIFO of less than two words no call ever completes: every run reaches a
  // state from which nobody can move, with the first call unanswered.
  lemma {:induction false} SmallGetsStuck(c: Config, s: State) returns (turns: seq<Actor>)
    requires Inv(c, s) && Early(c, s) && c.cap < 2 && |c.calls| > 0
    ensures Busy(c, s, turns)
    ensures var t := Execute(c, s, turns); Stuck(c, t) && !Done(c, t) && t.results == []
    decreases Left(c, s)
  {
    hide Left, Next;
    if Stuck(c, s) {
      turns := [];
    } else {
      var a: Actor :| Next(c, s, a) != None;
      StepCounts(c, s, a);
      TurnKeepsInv(c, s, a);
      SmallKeepsEarly(c, s, a);
      var rest := SmallGetsStuck(c, Turn(c, s, a));
      turns := [a] + rest;
      assert turns[1..] == rest;
    }
  }

  // A depth of two is exactly what the protocol needs.
  lemma DepthTwoIsNeeded(c: Config)
    requires GoodConfig(c) && |c.calls| > 0
    ensures c.cap >= 2 <==>
            forall turns :: Busy(c, Init(), turns) && Stuck(c, Execute(c, Init(), turns)) ==> Done(c, Execute(c, Init(), turns))
  {
    InitInv(c);
    if c.cap >= 2 {
      forall turns | Busy(c, Init(), turns) && Stuck(c, Execute(c, Init(), turns)) ensures Done(c, Execute(c, Init(), turns)) {
        RunsFinish(c, turns);
      }
    } else {
      var turns := SmallGetsStuck(c, Init());
      assert Busy(c, Init(), turns);
    }
  }
}
