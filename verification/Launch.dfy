/** The final launch handshake (source/arm9/firm.c and source/arm11/firm.c, both
    firmLaunchStub): every interleaving of the two cores, the copy engine's channels,
    and the code that is launched. */
module Launch {
  datatype Option<T> = None | Some(value: T)

  const READY: nat := 0xA8E4
  const CONFIRM: nat := 0x94C6

  // A section of the image: methods 0 and 1 use the copy engine, the others the CPU.
  datatype Section = Section(size: nat, method_: nat)

  datatype Config = Config(sections: seq<Section>, entry11: nat)

  datatype Arm11 = ClearFallback | PostReady | WaitEntry | PostConfirm(e: nat) | Enter(e: nat) | Running(at: nat)

  datatype Arm9 = WaitReady | Copy(i: nat) | WaitDma | PostEntry | WaitConfirm | Jumped

  datatype State = State(
    arm11: Arm11, arm9: Arm9, to9: seq<nat>, to11: seq<nat>,
    dma: set<nat>, copied: set<nat>, fallback: nat)

  // Code(v): the launched ARM9 code stores v as ARM11's fallback entry.
  datatype Actor = Core11 | Core9 | Channel(i: nat) | Code(v: nat)

  function Init(fallback: nat): State {
    State(ClearFallback, WaitReady, [], [], {}, {}, fallback)
  }

  function Step11(s: State): Option<State> {
    match s.arm11
    case ClearFallback => Some(s.(fallback := 0, arm11 := PostReady))
    case PostReady => Some(s.(to9 := s.to9 + [READY], arm11 := WaitEntry))
    case WaitEntry =>
      if s.to11 == [] then None else Some(s.(to11 := s.to11[1..], arm11 := PostConfirm(s.to11[0])))
    case PostConfirm(e) => Some(s.(to9 := s.to9 + [CONFIRM], arm11 := Enter(e)))
    case Enter(e) =>
      if e != 0 then Some(s.(arm11 := Running(e)))
      else if s.fallback != 0 then Some(s.(arm11 := Running(s.fallback)))
      else None
    case Running(_) => None
  }

  // Words other than the expected one are read and dropped.
  function Await(s: State, word: nat, then_: Arm9): Option<State> {
    if s.to9 == [] then None
    else Some(s.(to9 := s.to9[1..], arm9 := if s.to9[0] == word then then_ else s.arm9))
  }

  function Step9(c: Config, s: State): Option<State> {
    match s.arm9
    case WaitReady => Await(s, READY, Copy(0))
    case Copy(i) =>
      if i >= |c.sections| then Some(s.(arm9 := WaitDma))
      else if c.sections[i].size == 0 then Some(s.(arm9 := Copy(i + 1)))
      else if c.sections[i].method_ < 2 then Some(s.(dma := s.dma + {i}, arm9 := Copy(i + 1)))
      else Some(s.(copied := s.copied + {i}, arm9 := Copy(i + 1)))
    case WaitDma => if s.dma == {} then Some(s.(arm9 := PostEntry)) else None
    case PostEntry => Some(s.(to11 := s.to11 + [c.entry11], arm9 := WaitConfirm))
    case WaitConfirm => Await(s, CONFIRM, Jumped)
    case Jumped => None
  }

  function Next(c: Config, s: State, a: Actor): Option<State> {
    match a
    case Core11 => Step11(s)
    case Core9 => Step9(c, s)
    case Channel(i) => if i in s.dma then Some(s.(dma := s.dma - {i}, copied := s.copied + {i})) else None
    case Code(v) => if s.arm9.Jumped? then Some(s.(fallback := v)) else None
  }

  // The sections that have anything to copy, among the first n.
  function Wanted(c: Config, n: nat): set<nat> {
    set i: nat | i < n && i < |c.sections| && c.sections[i].size != 0
  }

  ghost predicate CopyInv(c: Config, s: State) {
    && s.dma !! s.copied
    && match s.arm9
       case WaitReady => s.dma == {} && s.copied == {}
       case Copy(i) => i <= |c.sections| && s.dma + s.copied == Wanted(c, i)
       case WaitDma => s.dma + s.copied == Wanted(c, |c.sections|)
       case _ => s.dma == {} && s.copied == Wanted(c, |c.sections|)
  }

  ghost predicate Inv(c: Config, s: State) {
    && CopyInv(c, s)
    && (!s.arm9.Jumped? && !s.arm11.ClearFallback? ==> s.fallback == 0)
    && match s.arm11
       case ClearFallback => s.arm9.WaitReady? && s.to9 == [] && s.to11 == []
       case PostReady => s.arm9.WaitReady? && s.to9 == [] && s.to11 == []
       case WaitEntry =>
         && !s.arm9.Jumped?
         && s.to9 == (if s.arm9.WaitReady? then [READY] else [])
         && s.to11 == (if s.arm9.WaitConfirm? then [c.entry11] else [])
       case PostConfirm(e) => s.arm9.WaitConfirm? && e == c.entry11 && s.to9 == [] && s.to11 == []
       case Enter(e) => e == c.entry11 && Confirmed(s)
       case Running(at) => Confirmed(s) && (if c.entry11 != 0 then at == c.entry11 else at != 0 && s.arm9.Jumped?)
  }

  ghost predicate Confirmed(s: State) {
    s.to11 == [] && ((s.arm9.WaitConfirm? && s.to9 == [CONFIRM]) || (s.arm9.Jumped? && s.to9 == []))
  }

  lemma InitInv(c: Config, f: nat)
    ensures Inv(c, Init(f))
  {
  }

  lemma WantedNext(c: Config, i: nat)
    requires i < |c.sections|
    ensures Wanted(c, i + 1) == Wanted(c, i) + (if c.sections[i].size != 0 then {i} else {})
    ensures i !in Wanted(c, i)
  {
  }

  lemma NextKeepsInv(c: Config, s: State, a: Actor)
    requires Inv(c, s) && Next(c, s, a).Some?
    ensures Inv(c, Next(c, s, a).value)
  {
    hide Wanted;
    if a.Core9? && s.arm9.Copy? && s.arm9.i < |c.sections| { WantedNext(c, s.arm9.i); }
    if a.Core9? && s.arm9.WaitReady? { assert Wanted(c, 0) == {} by { NothingWanted(c); } }
  }

  lemma NothingWanted(c: Config)
    ensures Wanted(c, 0) == {}
  {
  }

  function Turn(c: Config, s: State, a: Actor): State {
    match Next(c, s, a)
    case Some(t) => t
    case None => s
  }

  function Execute(c: Config, s: State, turns: seq<Actor>): State
    decreases |turns|
  {
    if turns == [] then s else Execute(c, Turn(c, s, turns[0]), turns[1..])
  }

  lemma {:induction false} RunKeepsInv(c: Config, s: State, turns: seq<Actor>)
    requires Inv(c, s)
    ensures Inv(c, Execute(c, s, turns))
    decreases |turns|
  {
    if turns != [] {
      if Next(c, s, turns[0]).Some? { NextKeepsInv(c, s, turns[0]); }
      RunKeepsInv(c, Turn(c, s, turns[0]), turns[1..]);
    }
  }

  // In every interleaving: nothing is copied before ARM11 has posted from its stub;
  // ARM11 enters new code only when every section is in place, and at the entry point
  // of the image; ARM9 jumps only after ARM11 has read that entry point.
  lemma HandshakeIsSafe(c: Config, fallback: nat, turns: seq<Actor>)
    ensures var s := Execute(c, Init(fallback), turns);
            && (s.dma + s.copied != {} ==> !s.arm11.ClearFallback? && !s.arm11.PostReady?)
            && (s.arm11.Running? ==> s.dma == {} && s.copied == Wanted(c, |c.sections|))
            && (s.arm11.Running? && c.entry11 != 0 ==> s.arm11.at == c.entry11)
            && (s.arm11.Running? && c.entry11 == 0 ==> s.arm9.Jumped?)
            && (s.arm9.Jumped? ==> (s.arm11.Enter? && s.arm11.e == c.entry11) || s.arm11.Running?)
            && |s.to9| <= 1 && |s.to11| <= 1
  {
    InitInv(c, fallback);
    RunKeepsInv(c, Init(fallback), turns);
  }

  // -- Progress --

  predicate Finished(s: State) {
    s.arm11.Running? && s.arm9.Jumped?
  }

  // Somebody can always move, without help from the launched code, when the image has
  // an ARM11 entry point.
  lemma NeverStuck(c: Config, s: State) returns (a: Actor)
    requires Inv(c, s) && !Finished(s) && c.entry11 != 0
    ensures Next(c, s, a).Some? && !a.Code?
  {
    if s.arm9.WaitDma? && s.dma != {} {
      var i :| i in s.dma;
      a := Channel(i);
    } else if Step9(c, s).Some? {
      a := Core9;
    } else {
      a := Core11;
    }
  }

  // Without one, ARM11 waits until the launched code stores a fallback entry.
  lemma WaitsForFallback(c: Config, s: State)
    requires Inv(c, s) && c.entry11 == 0 && s.arm11.Enter? && s.arm9.Jumped?
    ensures Next(c, s, Core11).Some? <==> s.fallback != 0
    ensures Next(c, s, Core9) == None
  {
  }

  function Left11(a: Arm11): nat {
    match a
    case ClearFallback => 5
    case PostReady => 4
    case WaitEntry => 3
    case PostConfirm(_) => 2
    case Enter(_) => 1
    case Running(_) => 0
  }

  function Left9(c: Config, a: Arm9): nat {
    match a
    case WaitReady => |c.sections| + 5
    case Copy(i) => if i <= |c.sections| then |c.sections| - i + 4 else 0
    case WaitDma => 3
    case PostEntry => 2
    case WaitConfirm => 1
    case Jumped => 0
  }

  // Sections whose copy engine channel has yet to finish.
  function EngineLeft(c: Config, s: State): nat {
    |s.dma| + (match s.arm9
               case WaitReady => Engine(c, 0)
               case Copy(i) => Engine(c, i)
               case _ => 0)
  }

  function Engine(c: Config, i: nat): nat
    decreases |c.sections| - i
  {
    if i >= |c.sections| then 0
    else (if c.sections[i].size != 0 && c.sections[i].method_ < 2 then 1 else 0) + Engine(c, i + 1)
  }

  function Left(c: Config, s: State): nat {
    Left11(s.arm11) + Left9(c, s.arm9) + EngineLeft(c, s)
  }

  lemma EngineStep(c: Config, i: nat)
    requires i < |c.sections|
    ensures Engine(c, i) == (if c.sections[i].size != 0 && c.sections[i].method_ < 2 then 1 else 0) + Engine(c, i + 1)
  {
  }

  // Every step of the cores or the engine brings the end closer by one.
  lemma StepCounts(c: Config, s: State, a: Actor)
    requires Inv(c, s) && Next(c, s, a).Some? && !a.Code?
    ensures Left(c, Next(c, s, a).value) + 1 == Left(c, s)
  {
    hide Engine, Wanted;
    if a.Core9? && s.arm9.Copy? {
      hide CopyInv;
      CopyCounts(c, s, s.arm9.i);
    }
  }

  lemma CopyCounts(c: Config, s: State, i: nat)
    requires CopyInv(c, s) && s.arm9 == Copy(i) && Step9(c, s).Some?
    ensures Left(c, Step9(c, s).value) + 1 == Left(c, s)
  {
    hide Engine, Wanted;
    if i < |c.sections| {
      WantedNext(c, i);
      EngineStep(c, i);
    } else {
      NoEngine(c, i);
    }
  }

  lemma NoEngine(c: Config, i: nat)
    requires i >= |c.sections|
    ensures Engine(c, i) == 0
  {
  }

  // Without the launched code, a run has at most Left(Init) steps, and one that cannot
  // go on has launched both cores.
  predicate Busy(c: Config, s: State, turns: seq<Actor>)
    decreases |turns|
  {
    turns == [] || (!turns[0].Code? && Next(c, s, turns[0]).Some? && Busy(c, Turn(c, s, turns[0]), turns[1..]))
  }

  lemma {:induction false} BusyCounts(c: Config, s: State, turns: seq<Actor>)
    requires Inv(c, s) && Busy(c, s, turns)
    ensures Left(c, Execute(c, s, turns)) + |turns| == Left(c, s)
    decreases |turns|
  {
    hide Inv, Left, Next;
    if turns != [] {
      NextKeepsInv(c, s, turns[0]);
      StepCounts(c, s, turns[0]);
      BusyCounts(c, Turn(c, s, turns[0]), turns[1..]);
    }
  }

  lemma RunsFinish(c: Config, fallback: nat, turns: seq<Actor>)
    requires c.entry11 != 0 && Busy(c, Init(fallback), turns)
    ensures |turns| <= Left(c, Init(fallback))
    ensures var s := Execute(c, Init(fallback), turns);
            (forall a: Actor :: !a.Code? ==> Next(c, s, a) == None) ==>
              Finished(s) && s.arm11.at == c.entry11 && s.copied == Wanted(c, |c.sections|)
  {
    var s := Execute(c, Init(fallback), turns);
    InitInv(c, fallback);
    RunKeepsInv(c, Init(fallback), turns);
    BusyCounts(c, Init(fallback), turns);
    if !Finished(s) {
      var a := NeverStuck(c, s);
    }
  }
}
