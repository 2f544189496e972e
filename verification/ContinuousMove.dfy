/** The continuous-move controller: handlers that start, retarget and stop a mover thread, and the mover
    itself, which rereads the shared state before every stick command. Handlers are serialised; a step
    of the mover is one read or one send, so everything else can happen in between. */
module ContinuousMove {
  import opened SpeedTables
  import opened Wrappers

  datatype Stick = Stick(throttle: int, roll: int, pitch: int, yaw: int)

  const CENTRE := Stick(0, 0, 0, 0)

  /** MoveMode: 1 up, 2 down, 3 left, 4 right, 5 forward, 6 backward. */
  predicate Direction(d: int) { 1 <= d <= 6 }

  /** `calculateMoveOffset`. */
  function MoveStick(d: int, speed: real): Stick {
    if d == 1 then Stick(Offset(ASCEND, speed), 0, 0, 0)
    else if d == 2 then Stick(-Offset(DESCEND, speed), 0, 0, 0)
    else if d == 3 then Stick(0, -Offset(HORIZONTAL, speed), 0, 0)
    else if d == 4 then Stick(0, Offset(HORIZONTAL, speed), 0, 0)
    else if d == 5 then Stick(0, 0, Offset(HORIZONTAL, speed), 0)
    else if d == 6 then Stick(0, 0, -Offset(HORIZONTAL, speed), 0)
    else CENTRE
  }

  /** The direction a stick deflection flies in, read off its axis and sign; 0 when centred. */
  function Heading(s: Stick): int {
    if s.throttle > 0 then 1 else if s.throttle < 0 then 2
    else if s.roll < 0 then 3 else if s.roll > 0 then 4
    else if s.pitch > 0 then 5 else if s.pitch < 0 then 6
    else 0
  }

  /** Whatever the speed, the stick deflects on exactly one axis, towards the direction asked for, by at
      most the table's full deflection. */
  lemma MoveStickHeads(d: int, speed: real)
    requires Direction(d)
    ensures var s := MoveStick(d, speed);
      && Heading(s) == d && s != CENTRE && s.yaw == 0
      && -660 <= s.throttle <= 660 && -660 <= s.roll <= 660 && -660 <= s.pitch <= 660
  {
    hide Offset;
    ShippedOffsets(speed);
  }

  function MaxSpeed(d: int): real { if d == 1 || d == 2 then 6.0 else 15.0 }

  function TableFor(d: int): seq<SpeedPoint> {
    if d == 1 then ASCEND else if d == 2 then DESCEND else HORIZONTAL
  }

  /** The speed limit of a direction is exactly what its table covers: up to it the chosen entry is not
      slower than the request, beyond it the table falls back on its last entry. */
  lemma LimitIsTableEnd(d: int, speed: real)
    requires Direction(d)
    ensures var t := TableFor(d);
      t != [] && (speed <= MaxSpeed(d) <==> speed <= t[SpeedTables.Slot(t, speed)].speed)
  {
    var t := TableFor(d);
    var i := SpeedTables.Slot(t, speed);
    assert t[|t| - 1].speed == MaxSpeed(d);
    assert forall k :: 0 <= k < |t| ==> t[k].speed <= MaxSpeed(d);
  }

  /** Within the limit the deflection is the offset of the slowest table entry that is not slower than asked. */
  lemma StickForSpeed(d: int, speed: real, i: nat)
    requires Direction(d) && speed <= MaxSpeed(d) && i < |TableFor(d)|
    requires speed <= TableFor(d)[i].speed && (i > 0 ==> TableFor(d)[i - 1].speed < speed)
    ensures var s, offset := MoveStick(d, speed), TableFor(d)[i].offset;
      s == if d == 1 then Stick(offset, 0, 0, 0) else if d == 2 then Stick(-offset, 0, 0, 0)
           else if d == 3 then Stick(0, -offset, 0, 0) else if d == 4 then Stick(0, offset, 0, 0)
           else if d == 5 then Stick(0, 0, offset, 0) else Stick(0, 0, -offset, 0)
  {
    ShippedSpeeds();
    hide Slot, SpeedsAscend;
    OffsetBetween(TableFor(d), speed, i);
  }

  /** isUavUnderManualControl: manual flight, or one of the two avoidance modes within it. */
  predicate UnderManualControl(code: int) { code == 3 || code == 8 || code == 15 }

  // ---------- State ----------

  /** Where a mover stands in its loop: about to read the active flag, the control mode, the aircraft's
      mode code or the shared offset, about to send, or out of the loop. */
  datatype Pc = AtActive | AtMode | AtCode | AtOffset | AtSend(stick: Stick) | Done

  datatype Mover = Mover(direction: int, entered: bool, pc: Pc)

  /** m_continuousParams. */
  datatype Params = Params(active: bool, direction: int, stick: Stick)

  /** A handler blocked in join, and what it starts afterwards; None for a stop. */
  datatype Handler = Free | Joining(next: Option<Params>)

  /** One stick command sent, by a handler (None) or by mover number `sender`. */
  datatype Command = Command(stick: Stick, sender: Option<nat>)

  /** `movers` lists every thread ever started; `thread` is the joinable one m_continuousMoveThread owns.
      `flyto` says whether the control mode is FLYTO_MODE, `code` is the last mode code received. */
  datatype State = State(params: Params, movers: seq<Mover>, thread: Option<nat>, handler: Handler,
                         flyto: bool, code: int, log: seq<Command>)

  const Init := State(Params(false, 0, CENTRE), [], None, Free, false, -1, [])

  datatype Event =
    | Continuous(ready: bool, direction: int, speed: real)
    | Stop
    | Joined
    | MoverStep(m: nat)
    | MoverSendFails(m: nat)
    | Telemetry(code: int)
    | ControlMode(flyto: bool)

  predicate Enabled(s: State, e: Event) {
    match e
    case Continuous(_, _, _) => s.handler.Free?
    case Stop => s.handler.Free?
    case Joined =>
      s.handler.Joining? && s.thread.Some? && s.thread.value < |s.movers| && s.movers[s.thread.value].pc.Done?
    case MoverStep(m) => m < |s.movers| && !s.movers[m].pc.Done?
    case MoverSendFails(m) => m < |s.movers| && s.movers[m].pc.AtSend?
    case Telemetry(_) => true
    case ControlMode(_) => true
  }

  function Send(s: State, stick: Stick, sender: Option<nat>): State {
    s.(log := s.log + [Command(stick, sender)])
  }

  /** Fresh parameters and a new thread. */
  function StartMover(s: State, p: Params): State {
    s.(params := p, thread := Some(|s.movers|), movers := s.movers + [Mover(p.direction, false, AtActive)])
  }

  /** `handleContinuousMove` up to the join, if it has to join. The dispatcher has set FLYTO_MODE before;
      every refusal sets the mode idle. */
  function BeginContinuous(s: State, ready: bool, direction: int, speed: real): State {
    if !ready || !Direction(direction) || speed <= 0.0 || speed > MaxSpeed(direction) then s.(flyto := false)
    else
      var p := Params(true, direction, MoveStick(direction, speed));
      var s1 := s.(flyto := true);
      if s.params.active && s.params.direction == direction then s1.(params := s.params.(stick := p.stick))
      else if s.thread.Some? then s1.(params := s.params.(active := false), handler := Joining(Some(p)))
      else StartMover(s1, p)
  }

  /** `handleStopMove` up to the join. */
  function BeginStop(s: State): State {
    var s1 := s.(flyto := true, params := s.params.(active := false));
    if s.thread.Some? then s1.(handler := Joining(None)) else Send(s1, CENTRE, None)
  }

  /** After the join: the centre command, then the new mover if there is one. */
  function EndJoin(s: State): State
    requires s.handler.Joining?
  {
    var s1 := Send(s.(thread := None, handler := Free), CENTRE, None);
    match s.handler.next
    case None => s1
    case Some(p) => StartMover(s1, p)
  }

  /** One step of mover m. */
  function StepMover(s: State, m: nat): State
    requires m < |s.movers|
  {
    var v := s.movers[m];
    match v.pc
    case AtActive => s.(movers := s.movers[m := v.(pc := if s.params.active then AtMode else Done)])
    case AtMode =>
      if s.flyto then s.(movers := s.movers[m := v.(pc := AtCode)])
      else s.(movers := s.movers[m := v.(pc := Done)], params := s.params.(active := false))
    case AtCode =>
      var entered := v.entered || s.code == 3;
      if entered && !UnderManualControl(s.code)
      then s.(movers := s.movers[m := Mover(v.direction, entered, Done)],
              params := s.params.(active := false), flyto := false)
      else s.(movers := s.movers[m := Mover(v.direction, entered, AtOffset)])
    case AtOffset => s.(movers := s.movers[m := v.(pc := AtSend(s.params.stick))])
    case AtSend(stick) => Send(s.(movers := s.movers[m := v.(pc := AtActive)]), stick, Some(m))
    case Done => s
  }

  function Apply(s: State, e: Event): State
    requires Enabled(s, e)
  {
    match e
    case Continuous(ready, direction, speed) => BeginContinuous(s, ready, direction, speed)
    case Stop => BeginStop(s)
    case Joined => EndJoin(s)
    case MoverStep(m) => StepMover(s, m)
    case MoverSendFails(m) =>
      s.(movers := s.movers[m := s.movers[m].(pc := Done)], params := s.params.(active := false))
    case Telemetry(code) => s.(code := code)
    case ControlMode(flyto) => s.(flyto := flyto)
  }

  predicate IsRun(s: State, es: seq<Event>)
    decreases |es|
  {
    es == [] || (Enabled(s, es[0]) && IsRun(Apply(s, es[0]), es[1..]))
  }

  function Final(s: State, es: seq<Event>): State
    requires IsRun(s, es)
    decreases |es|
  {
    if es == [] then s else Final(Apply(s, es[0]), es[1..])
  }

  predicate Reaches(s: State, es: seq<Event>, s': State) { IsRun(s, es) && Final(s, es) == s' }

  lemma {:induction false} ReachesStep(s: State, es: seq<Event>, s': State, e: Event)
    requires Reaches(s, es, s') && Enabled(s', e)
    ensures Reaches(s, es + [e], Apply(s', e))
    decreases |es|
  {
    hide Apply, Enabled;
    var es' := es + [e];
    if es == [] {
      assert es'[0] == e && es'[1..] == [];
      assert IsRun(Apply(s, e), []) && Final(Apply(s, e), []) == Apply(s, e);
      assert IsRun(s, es');
    } else {
      ReachesStep(Apply(s, es[0]), es[1..], s', e);
      assert es'[0] == es[0] && es'[1..] == es[1..] + [e];
    }
  }

  /** Telemetry and the other modules: they set what they report and nothing else, at any time. */
  lemma OthersSet(s: State, code: int, flyto: bool)
    ensures Enabled(s, Telemetry(code)) && Apply(s, Telemetry(code)) == s.(code := code)
    ensures Enabled(s, ControlMode(flyto)) && Apply(s, ControlMode(flyto)) == s.(flyto := flyto)
  {
  }

  // ---------- What the command log must look like ----------

  /** Between two commands of different directions there is a centre command. */
  ghost predicate Separated(log: seq<Command>) {
    forall i, j :: 0 <= i < j < |log| && Heading(log[i].stick) != 0 && Heading(log[j].stick) != 0
                   && Heading(log[i].stick) != Heading(log[j].stick) ==>
      exists k :: i < k < j && log[k].stick == CENTRE
  }

  /** The direction flown since the last centre command; 0 if none. */
  function Current(log: seq<Command>): int {
    if log == [] then 0
    else
      var c := log[|log| - 1];
      if c.stick == CENTRE then 0
      else if Heading(c.stick) != 0 then Heading(c.stick)
      else Current(log[..|log| - 1])
  }

  lemma {:induction false} CurrentMeans(log: seq<Command>, i: nat)
    requires i < |log| && Heading(log[i].stick) != 0
    requires Separated(log)
    requires forall k :: i < k < |log| ==> log[k].stick != CENTRE
    ensures Current(log) == Heading(log[i].stick)
  {
    var n := |log| - 1;
    if i < n && Heading(log[n].stick) == 0 {
      var u := log[..n];
      assert forall k :: 0 <= k < n ==> u[k] == log[k];
      SeparatedPrefix(log, n);
      CurrentMeans(u, i);
    }
  }

  lemma SeparatedPrefix(log: seq<Command>, n: nat)
    requires n <= |log| && Separated(log)
    ensures Separated(log[..n])
  {
    var u := log[..n];
    forall i, j | 0 <= i < j < |u| && Heading(u[i].stick) != 0 && Heading(u[j].stick) != 0
                  && Heading(u[i].stick) != Heading(u[j].stick)
      ensures exists k :: i < k < j && u[k].stick == CENTRE
    {
      assert u[i] == log[i] && u[j] == log[j];
      var k :| i < k < j && log[k].stick == CENTRE;
      assert u[k] == log[k];
    }
  }

  /** A further command keeps the log separated if it is a centre command or keeps the direction. */
  lemma SeparatedStep(log: seq<Command>, c: Command)
    requires Separated(log)
    requires c.stick == CENTRE || Current(log) == 0 || Heading(c.stick) == Current(log)
    ensures Separated(log + [c])
    ensures c.stick == CENTRE ==> Current(log + [c]) == 0
    ensures c.stick != CENTRE && Heading(c.stick) != 0 ==> Current(log + [c]) == Heading(c.stick)
  {
    var u := log + [c];
    assert u[..|log|] == log;
    forall i, j | 0 <= i < j < |u| && Heading(u[i].stick) != 0 && Heading(u[j].stick) != 0
                  && Heading(u[i].stick) != Heading(u[j].stick)
      ensures exists k :: i < k < j && u[k].stick == CENTRE
    {
      if j < |log| {
        assert u[i] == log[i] && u[j] == log[j];
        var k :| i < k < j && log[k].stick == CENTRE;
        assert u[k] == log[k];
      } else if forall k :: i < k < |log| ==> log[k].stick != CENTRE {
        CurrentMeans(log, i);
      } else {
        var k :| i < k < |log| && log[k].stick == CENTRE;
        assert u[k] == log[k];
      }
    }
  }

  /** Commands mover m has sent. */
  function SentBy(log: seq<Command>, m: nat): nat {
    if log == [] then 0
    else SentBy(log[..|log| - 1], m) + (if log[|log| - 1].sender == Some(m) then 1 else 0)
  }

  lemma SentByStep(log: seq<Command>, c: Command, m: nat)
    ensures SentBy(log + [c], m) == SentBy(log, m) + (if c.sender == Some(m) then 1 else 0)
  {
    assert (log + [c])[..|log|] == log;
  }

  // ---------- The invariant ----------

  predicate Flies(d: int, stick: Stick) { Direction(d) && Heading(stick) == d && stick != CENTRE }

  /** Only the thread the controller still owns can be live. */
  predicate OneLive(s: State) {
    && (s.thread.Some? ==> s.thread.value < |s.movers|)
    && (s.handler.Joining? ==> s.thread.Some?)
    && (s.params.active ==> s.thread.Some? && s.handler.Free?)
    && forall m :: 0 <= m < |s.movers| && s.thread != Some(m) ==> s.movers[m].pc.Done?
  }

  /** The owned thread, the parameters and the command under way all fly one direction. */
  predicate OneDirection(s: State) {
    && (s.thread.Some? && s.thread.value < |s.movers| ==>
          var v := s.movers[s.thread.value];
          && s.params.direction == v.direction && Flies(v.direction, s.params.stick)
          && (v.pc.AtSend? ==> Flies(v.direction, v.pc.stick)))
    && (s.handler.Joining? && s.handler.next.Some? ==>
          s.handler.next.value.active && Flies(s.handler.next.value.direction, s.handler.next.value.stick))
  }

  /** The log is separated; without an owned thread it is centred, with one it flies that direction. */
  ghost predicate LogOk(s: State) {
    && Separated(s.log)
    && (s.thread.None? ==> Current(s.log) == 0)
    && (s.thread.Some? && s.thread.value < |s.movers| ==>
          Current(s.log) == 0 || Current(s.log) == s.movers[s.thread.value].direction)
  }

  /** Only threads that exist have sent anything; a deflection is current exactly when the owned thread has
      sent a command. */
  predicate SentOk(s: State) {
    && (forall k :: 0 <= k < |s.log| && s.log[k].sender.Some? ==> s.log[k].sender.value < |s.movers|)
    && (s.thread.Some? ==> (Current(s.log) == 0 <==> SentBy(s.log, s.thread.value) == 0))
  }

  ghost predicate Inv(s: State) { OneLive(s) && OneDirection(s) && LogOk(s) && SentOk(s) }

  lemma StepOneLive(s: State, e: Event)
    requires OneLive(s) && Enabled(s, e)
    ensures OneLive(Apply(s, e))
  {
  }

  lemma StepOneDirection(s: State, e: Event)
    requires OneLive(s) && OneDirection(s) && Enabled(s, e)
    ensures OneDirection(Apply(s, e))
  {
    hide MoveStick, Heading, UnderManualControl, Flies, OneLive;
    match e
    case Continuous(ready, d, speed) => BeginOneDirection(s, ready, d, speed);
    case MoverStep(m) => MoverOneDirection(s, m);
    case _ =>
  }

  lemma BeginOneDirection(s: State, ready: bool, d: int, speed: real)
    requires OneLive(s) && OneDirection(s) && s.handler.Free?
    ensures OneDirection(BeginContinuous(s, ready, d, speed))
  {
    if Direction(d) {
      MoveStickHeads(d, speed);
      assert Flies(d, MoveStick(d, speed));
    }
    hide MoveStick, Heading, Flies;
  }

  lemma MoverOneDirection(s: State, m: nat)
    requires OneLive(s) && OneDirection(s) && m < |s.movers|
    ensures OneDirection(StepMover(s, m))
  {
    hide Flies, UnderManualControl;
  }

  lemma StepLog(s: State, e: Event)
    requires Inv(s) && Enabled(s, e)
    ensures LogOk(Apply(s, e))
  {
    hide MoveStick, Heading, UnderManualControl, Separated, Current, SentOk;
    SeparatedStep(s.log, Command(CENTRE, None));
    match e
    case MoverStep(m) =>
      if s.movers[m].pc.AtSend? { SeparatedStep(s.log, Command(s.movers[m].pc.stick, Some(m))); }
    case _ =>
  }

  lemma {:induction false} NothingSent(log: seq<Command>, m: nat)
    requires forall k :: 0 <= k < |log| && log[k].sender.Some? ==> log[k].sender.value < m
    ensures SentBy(log, m) == 0
  {
    if log != [] {
      NothingSent(log[..|log| - 1], m);
    }
  }

  lemma StepSent(s: State, e: Event)
    requires Inv(s) && Enabled(s, e)
    ensures SentOk(Apply(s, e))
  {
    hide MoveStick, Heading, UnderManualControl, Separated, Current, SentBy;
    var n, centre := |s.movers|, Command(CENTRE, None);
    NothingSent(s.log, n);
    SentByStep(s.log, centre, n);
    SeparatedStep(s.log, centre);
    match e
    case MoverStep(m) =>
      if s.movers[m].pc.AtSend? {
        MoverSent(s, m, s.movers[m].pc.stick);
      }
    case _ =>
  }

  /** A command of the owned thread makes its direction the current one. */
  lemma MoverSent(s: State, m: nat, stick: Stick)
    requires Inv(s) && m < |s.movers| && s.movers[m].pc == AtSend(stick)
    ensures s.thread == Some(m)
    ensures var log := s.log + [Command(stick, Some(m))]; Current(log) != 0 && SentBy(log, m) != 0
  {
    hide MoveStick, UnderManualControl, Separated, Current, SentBy;
    SeparatedStep(s.log, Command(stick, Some(m)));
    SentByStep(s.log, Command(stick, Some(m)), m);
  }

  lemma StepInv(s: State, e: Event)
    requires Inv(s) && Enabled(s, e)
    ensures Inv(Apply(s, e))
  {
    StepLog(s, e);
    StepSent(s, e);
    hide OneLive, OneDirection, LogOk, SentOk, Apply, Enabled;
    StepOneLive(s, e);
    StepOneDirection(s, e);
  }

  lemma {:induction false} RunInv(s: State, es: seq<Event>)
    requires Inv(s) && IsRun(s, es)
    ensures Inv(Final(s, es))
    decreases |es|
  {
    hide Inv, Apply, Enabled;
    if es != [] {
      StepInv(s, es[0]);
      RunInv(Apply(s, es[0]), es[1..]);
    }
  }

  // ---------- Main results ----------

  /** In every run at most one mover is live, commands of different directions are separated by a centre
      command, and whenever the controller owns no thread the last command, if any, is no deflection. */
  lemma Safety(es: seq<Event>)
    requires IsRun(Init, es)
    ensures var s := Final(Init, es);
      && (forall i, j | 0 <= i < |s.movers| && 0 <= j < |s.movers| ::
            !s.movers[i].pc.Done? && !s.movers[j].pc.Done? ==> i == j)
      && Separated(s.log)
      && (s.thread.None? ==> Current(s.log) == 0)
  {
    RunInv(Init, es);
  }

  /** A stop is complete when it has sent its centre command, at once or after the join: that command is
      the last one, no mover is live, and nothing is sent until a new continuous move starts one. */
  lemma StopLeavesCentre(s: State, e: Event)
    requires Inv(s) && Enabled(s, e)
    requires (e.Stop? && s.thread.None?) || (e.Joined? && s.handler.next.None?)
    ensures var s' := Apply(s, e);
      && s'.log == s.log + [Command(CENTRE, None)] && s'.thread.None? && s'.handler.Free?
      && forall m :: 0 <= m < |s'.movers| ==> s'.movers[m].pc.Done?
  {
    hide LogOk, OneDirection, SentOk;
    StepOneLive(s, e);
  }

  /** Commands a mover may still send before it next reads the mode code. */
  function Pending(v: Mover): nat {
    if v.pc.AtOffset? || v.pc.AtSend? then 1 else 0
  }

  /** The aircraft has left manual control and no telemetry brings it back. */
  predicate StaysTaken(es: seq<Event>) {
    forall i :: 0 <= i < |es| && es[i].Telemetry? ==> !UnderManualControl(es[i].code)
  }

  lemma TakenStep(s: State, e: Event, m: nat)
    requires m < |s.movers| && s.movers[m].entered && !UnderManualControl(s.code)
    requires Enabled(s, e) && (e.Telemetry? ==> !UnderManualControl(e.code))
    ensures var s' := Apply(s, e);
      && m < |s'.movers| && s'.movers[m].entered && !UnderManualControl(s'.code)
      && SentBy(s'.log, m) + Pending(s'.movers[m]) <= SentBy(s.log, m) + Pending(s.movers[m])
      && (s.movers[m].pc.Done? ==> s'.movers[m].pc.Done?)
  {
    hide SentBy, MoveStick;
    SentByStep(s.log, Command(CENTRE, None), m);
    match e
    case MoverStep(i) =>
      if s.movers[i].pc.AtSend? { SentByStep(s.log, Command(s.movers[i].pc.stick, Some(i)), m); }
    case _ =>
  }

  /** Takeover: once the aircraft has left manual control for good, a mover that had seen manual flight
      sends at most the one command already under way, whatever else happens; a mover that has noticed
      (it is out of its loop) sends none. */
  lemma {:induction false} TakeoverSilences(s: State, es: seq<Event>, m: nat)
    requires IsRun(s, es) && m < |s.movers| && s.movers[m].entered
    requires !UnderManualControl(s.code) && StaysTaken(es)
    ensures SentBy(Final(s, es).log, m) <= SentBy(s.log, m) + Pending(s.movers[m])
    decreases |es|
  {
    if es != [] {
      TakenStep(s, es[0], m);
      assert forall i :: 0 <= i < |es| - 1 ==> es[1..][i] == es[i + 1];
      assert es[0].Telemetry? ==> !UnderManualControl(es[0].code);
      TakeoverSilences(Apply(s, es[0]), es[1..], m);
    }
  }

  /** A mover out of its loop never sends again, even if the aircraft returns to manual flight. */
  lemma {:induction false} DoneForGood(s: State, es: seq<Event>, m: nat)
    requires IsRun(s, es) && m < |s.movers| && s.movers[m].pc.Done?
    ensures SentBy(Final(s, es).log, m) == SentBy(s.log, m)
    decreases |es|
  {
    if es != [] {
      DoneStep(s, es[0], m);
      DoneForGood(Apply(s, es[0]), es[1..], m);
    }
  }

  lemma DoneStep(s: State, e: Event, m: nat)
    requires Enabled(s, e) && m < |s.movers| && s.movers[m].pc.Done?
    ensures var s' := Apply(s, e);
      m < |s'.movers| && s'.movers[m].pc.Done? && SentBy(s'.log, m) == SentBy(s.log, m)
  {
    hide SentBy, MoveStick;
    SentByStep(s.log, Command(CENTRE, None), m);
    match e
    case MoverStep(i) =>
      if s.movers[i].pc.AtSend? { SentByStep(s.log, Command(s.movers[i].pc.stick, Some(i)), m); }
    case _ =>
  }

  /** Steps the mover can still make once the active flag is down. */
  function StepsLeft(v: Mover): nat {
    match v.pc
    case Done => 0
    case AtActive => 1
    case AtSend(_) => 2
    case AtOffset => 3
    case AtCode => 4
    case AtMode => 5
  }

  /** The join ends: while a handler waits, each step of the thread brings it nearer its end, and nothing
      else puts it off. */
  lemma JoinEnds(s: State, e: Event)
    requires Inv(s) && s.handler.Joining? && Enabled(s, e) && !e.Joined?
    ensures var s', m := Apply(s, e), s.thread.value;
      && s'.handler == s.handler && s'.thread == s.thread
      && StepsLeft(s'.movers[m]) <= StepsLeft(s.movers[m])
      && (e == MoverStep(m) || e == MoverSendFails(m) ==> StepsLeft(s'.movers[m]) < StepsLeft(s.movers[m]))
    ensures StepsLeft(s.movers[s.thread.value]) == 0 ==> Enabled(s, Joined)
    ensures StepsLeft(s.movers[s.thread.value]) > 0 ==> Enabled(s, MoverStep(s.thread.value))
  {
    hide LogOk, OneDirection, SentOk;
  }

  // ---------- What a continuous move does ----------

  /** What the handler accepts. */
  predicate Acceptable(ready: bool, d: int, speed: real) {
    ready && 1 <= d <= 6 && 0.0 < speed <= if d <= 2 then 6.0 else 15.0
  }

  /** The second state has p as shared parameters and a new mover for it that has done nothing yet. */
  predicate Starts(s: State, s': State, p: Params) {
    s'.params == p && s'.thread == Some(|s.movers|) && s'.movers == s.movers + [Mover(p.direction, false, AtActive)]
  }

  /** A request that is not acceptable only sets the control mode idle. An acceptable one retargets the owned
      mover if that flies the same direction; else the shared state takes the new direction and stick with a
      new mover, at once or, after the owned mover's end and a centre command, when the join returns. */
  lemma RequestTakesHold(s: State, ready: bool, d: int, speed: real)
    requires Inv(s) && s.handler.Free?
    ensures var s', p := Apply(s, Continuous(ready, d, speed)), Params(true, d, MoveStick(d, speed));
      if !Acceptable(ready, d, speed) then s' == s.(flyto := false)
      else
        && s'.flyto && s'.log == s.log
        && (s.params.active && s.params.direction == d ==>
              s'.handler.Free? && s'.params == p && s'.thread == s.thread && s'.movers == s.movers)
        && (!(s.params.active && s.params.direction == d) && s.thread.Some? ==>
              s'.handler == Joining(Some(p)) && !s'.params.active && s'.thread == s.thread && s'.movers == s.movers)
        && (s.thread.None? ==> s'.handler.Free? && Starts(s, s', p))
  {
    hide MoveStick, LogOk, SentOk, OneDirection;
  }

  /** A stop lowers the flag and takes the control mode; it sends its centre command at once or after the join. */
  lemma StopTakesHold(s: State)
    requires Inv(s) && s.handler.Free?
    ensures Enabled(s, Stop) && var s' := Apply(s, Stop);
      && s'.flyto && !s'.params.active && s'.movers == s.movers && s'.thread == s.thread
      && if s.thread.Some? then s'.handler == Joining(None) && s'.log == s.log
         else s'.handler.Free? && s'.log == s.log + [Command(CENTRE, None)]
  {
    hide LogOk, SentOk, OneDirection;
  }

  /** When the join returns, a centre command is sent and what the handler waited for happens. */
  lemma JoinTakesHold(s: State)
    requires Inv(s) && Enabled(s, Joined)
    ensures var s' := Apply(s, Joined);
      && s'.handler.Free? && s'.log == s.log + [Command(CENTRE, None)]
      && (match s.handler.next
          case Some(p) => Starts(s, s', p)
          case None => s'.thread.None? && s'.movers == s.movers)
  {
    hide LogOk, SentOk, OneDirection;
  }

  /** Every turn of an undisturbed mover sends the shared stick once: while the flag is up, the mode is
      FLYTO_MODE and the aircraft has not been taken over, five of its steps append one command. */
  lemma TurnSends(s: State, m: nat)
    requires m < |s.movers| && s.movers[m].pc.AtActive? && s.params.active && s.flyto
    requires !s.movers[m].entered || s.code == 3 || s.code == 8 || s.code == 15
    ensures var step, v := MoverStep(m), s.movers[m].(entered := s.movers[m].entered || s.code == 3);
            var sent := s.(movers := s.movers[m := v], log := s.log + [Command(s.params.stick, Some(m))]);
      Reaches(s, [step] + [step] + [step] + [step] + [step], sent)
  {
    var step, v := MoverStep(m), s.movers[m];
    var v' := v.(entered := v.entered || s.code == 3);
    assert Reaches(s, [], s);
    hide Reaches, Apply, MoveStick;
    var s1 := s.(movers := s.movers[m := v.(pc := AtMode)]);
    StepTo(s, [], s, m, s1);
    assert [] + [step] == [step];
    var s2 := s.(movers := s.movers[m := v.(pc := AtCode)]);
    StepTo(s, [step], s1, m, s2);
    var s3 := s.(movers := s.movers[m := v'.(pc := AtOffset)]);
    StepTo(s, [step] + [step], s2, m, s3);
    var s4 := s.(movers := s.movers[m := v'.(pc := AtSend(s.params.stick))]);
    StepTo(s, [step] + [step] + [step], s3, m, s4);
    var s5 := s.(movers := s.movers[m := v'], log := s.log + [Command(s.params.stick, Some(m))]);
    StepTo(s, [step] + [step] + [step] + [step], s4, m, s5);
  }

  lemma StepTo(s: State, es: seq<Event>, s1: State, m: nat, s2: State)
    requires Reaches(s, es, s1) && Enabled(s1, MoverStep(m)) && Apply(s1, MoverStep(m)) == s2
    ensures Reaches(s, es + [MoverStep(m)], s2)
  {
    hide Reaches, Apply, Enabled;
    ReachesStep(s, es, s1, MoverStep(m));
  }

  /** A mover that leaves its loop lowers the flag; on a takeover it gives the control mode up as well. A send
      can fail whenever one is due. */
  lemma MoverLeaves(s: State, m: nat)
    requires m < |s.movers|
    ensures s.movers[m].pc.AtSend? ==>
      Enabled(s, MoverSendFails(m)) && var s' := Apply(s, MoverSendFails(m));
      s'.movers[m].pc.Done? && !s'.params.active && s'.log == s.log
    ensures !s.movers[m].pc.Done? && Apply(s, MoverStep(m)).movers[m].pc.Done? ==>
      var s' := Apply(s, MoverStep(m));
      && !s'.params.active && s'.log == s.log
      && (s.params.active && s.flyto ==> !s'.flyto && s.code !in {3, 8, 15})
  {
    hide MoveStick;
    var v := s.movers[m];
    assert v.pc.AtActive? || v.pc.AtMode? || v.pc.AtCode? || v.pc.AtOffset? || v.pc.AtSend? || v.pc.Done?;
  }

  // ---------- What a change of mode does ----------

  /** Commands a mover may still send before it next reads the control mode. */
  function BeforeMode(v: Mover): nat {
    if v.pc.AtCode? || v.pc.AtOffset? || v.pc.AtSend? then 1 else 0
  }

  /** Nothing puts the control mode back to FLYTO_MODE. */
  predicate StaysIdle(es: seq<Event>) {
    forall i :: 0 <= i < |es| ==> !es[i].Continuous? && !es[i].Stop? && es[i] != ControlMode(true)
  }

  lemma IdleStep(s: State, e: Event, m: nat)
    requires m < |s.movers| && !s.flyto && Enabled(s, e)
    requires !e.Continuous? && !e.Stop? && e != ControlMode(true)
    ensures var s' := Apply(s, e);
      && m < |s'.movers| && !s'.flyto
      && SentBy(s'.log, m) + BeforeMode(s'.movers[m]) <= SentBy(s.log, m) + BeforeMode(s.movers[m])
  {
    hide SentBy, MoveStick;
    SentByStep(s.log, Command(CENTRE, None), m);
    match e
    case MoverStep(i) =>
      if s.movers[i].pc.AtSend? { SentByStep(s.log, Command(s.movers[i].pc.stick, Some(i)), m); }
    case _ =>
  }

  /** Once another module has taken the control mode away, a mover sends at most the one command under way. */
  lemma {:induction false} IdleSilences(s: State, es: seq<Event>, m: nat)
    requires IsRun(s, es) && m < |s.movers| && !s.flyto && StaysIdle(es)
    ensures SentBy(Final(s, es).log, m) <= SentBy(s.log, m) + BeforeMode(s.movers[m])
    decreases |es|
  {
    if es != [] {
      IdleStep(s, es[0], m);
      assert forall i :: 0 <= i < |es| - 1 ==> es[1..][i] == es[i + 1];
      IdleSilences(Apply(s, es[0]), es[1..], m);
    }
  }

  // ---------- What a takeover leaves behind ----------

  /** No handler runs and none returns from its join. */
  predicate NoHandler(es: seq<Event>) {
    forall i :: 0 <= i < |es| ==> !es[i].Continuous? && !es[i].Stop? && !es[i].Joined?
  }

  /** With no live mover nothing is sent until a handler runs or returns from its join. */
  lemma {:induction false} LogStands(s: State, es: seq<Event>)
    requires IsRun(s, es) && NoHandler(es)
    requires forall i :: 0 <= i < |s.movers| ==> s.movers[i].pc.Done?
    ensures Final(s, es).log == s.log
    decreases |es|
  {
    if es != [] {
      assert forall i :: 0 <= i < |es| - 1 ==> es[1..][i] == es[i + 1];
      LogStands(Apply(s, es[0]), es[1..]);
    }
  }

  /** A mover that leaves its loop on a takeover sends no centre command: until a handler runs, the aircraft
      keeps the mover's direction as its last deflection if and only if the mover had sent a command. */
  lemma TakeoverLeavesDeflection(s: State, m: nat, es: seq<Event>)
    requires Inv(s) && m < |s.movers| && s.movers[m].pc.AtCode?
    requires (s.movers[m].entered || s.code == 3) && !UnderManualControl(s.code)
    requires IsRun(Apply(s, MoverStep(m)), es) && NoHandler(es)
    ensures var s1 := Apply(s, MoverStep(m)); !s1.flyto && !s1.params.active && s1.movers[m].pc.Done?
    ensures var s' := Final(Apply(s, MoverStep(m)), es);
      Current(s'.log) == if SentBy(s.log, m) > 0 then s.movers[m].direction else 0
  {
    hide OneDirection, Current, SentBy, Final, IsRun;
    assert s.thread == Some(m);
    LogStands(Apply(s, MoverStep(m)), es);
  }

  /** A flight with one forward mover. */
  function Forward(stick: Stick, pc: Pc, entered: bool, code: int, log: seq<Command>): State {
    State(Params(true, 5, stick), [Mover(5, entered, pc)], Some(0), Free, true, code, log)
  }

  /** That flight after one more step of the mover. */
  function Onward(stick: Stick, pc: Pc, entered: bool, code: int, log: seq<Command>): State {
    match pc
    case AtActive => Forward(stick, AtMode, entered, code, log)
    case AtMode => Forward(stick, AtCode, entered, code, log)
    case AtCode => Forward(stick, AtOffset, entered || code == 3, code, log)
    case AtOffset => Forward(stick, AtSend(stick), entered, code, log)
    case AtSend(out) => Forward(stick, AtActive, entered, code, log + [Command(out, Some(0))])
    case Done => Forward(stick, Done, entered, code, log)
  }

  lemma OnwardReached(es0: seq<Event>, stick: Stick, pc: Pc, entered: bool, code: int, log: seq<Command>)
    returns (es: seq<Event>)
    requires Reaches(Init, es0, Forward(stick, pc, entered, code, log))
    requires !pc.Done? && (pc.AtCode? && (entered || code == 3) ==> UnderManualControl(code))
    ensures Reaches(Init, es, Onward(stick, pc, entered, code, log))
  {
    hide Reaches, MoveStick;
    var s := Forward(stick, pc, entered, code, log);
    assert Apply(s, MoverStep(0)) == Onward(stick, pc, entered, code, log);
    ReachesStep(Init, es0, s, MoverStep(0));
    es := es0 + [MoverStep(0)];
  }

  lemma ForwardAccepted()
    ensures Enabled(Init, Continuous(true, 5, 5.0))
    ensures var s := Forward(MoveStick(5, 5.0), AtActive, false, -1, []);
      && Apply(Init, Continuous(true, 5, 5.0)) == s && Enabled(s, Telemetry(3))
      && Apply(s, Telemetry(3)) == Forward(MoveStick(5, 5.0), AtActive, false, 3, [])
  {
    hide MoveStick;
  }

  /** The start of a forward flight at 5 m/s, and manual flight reported. */
  lemma ForwardStarts() returns (es: seq<Event>)
    ensures Reaches(Init, es, Forward(MoveStick(5, 5.0), AtActive, false, 3, []))
  {
    var s := Forward(MoveStick(5, 5.0), AtActive, false, -1, []);
    ForwardAccepted();
    assert Reaches(Init, [], Init);
    hide *;
    ReachesStep(Init, [], Init, Continuous(true, 5, 5.0));
    es := [] + [Continuous(true, 5, 5.0)];
    ReachesStep(Init, es, s, Telemetry(3));
    es := es + [Telemetry(3)];
  }

  /** One turn sends one command. */
  lemma OneTurn(es0: seq<Event>, stick: Stick) returns (es: seq<Event>)
    requires Reaches(Init, es0, Forward(stick, AtActive, false, 3, []))
    ensures Reaches(Init, es, Forward(stick, AtActive, true, 3, [] + [Command(stick, Some(0))]))
  {
    hide Reaches;
    es := OnwardReached(es0, stick, AtActive, false, 3, []);
    es := OnwardReached(es, stick, AtMode, false, 3, []);
    es := OnwardReached(es, stick, AtCode, false, 3, []);
    es := OnwardReached(es, stick, AtOffset, true, 3, []);
    es := OnwardReached(es, stick, AtSend(stick), true, 3, []);
  }

  /** Mode code 9 arrives before the next turn. */
  lemma TakenOver(es0: seq<Event>, stick: Stick) returns (es: seq<Event>)
    requires Reaches(Init, es0, Forward(stick, AtActive, true, 3, [] + [Command(stick, Some(0))]))
    requires stick != CENTRE && Heading(stick) == 5
    ensures IsRun(Init, es) && var s := Final(Init, es);
      && s.handler.Free? && (forall i :: 0 <= i < |s.movers| ==> s.movers[i].pc.Done?)
      && Current(s.log) == 5
  {
    var log := [] + [Command(stick, Some(0))];
    assert Current(log) == 5;
    hide Heading, Current, MoveStick;
    ReachesStep(Init, es0, Forward(stick, AtActive, true, 3, log), Telemetry(9));
    es := es0 + [Telemetry(9)];
    es := OnwardReached(es, stick, AtActive, true, 9, log);
    es := OnwardReached(es, stick, AtMode, true, 9, log);
    ReachesStep(Init, es, Forward(stick, AtCode, true, 9, log), MoverStep(0));
    es := es + [MoverStep(0)];
  }

  /** It does happen: forward flight at 5 m/s, manual flight reported and one command sent, then mode code 9,
      a return home. The mover leaves, no handler waits, and the last command still flies forward. */
  lemma TakeoverHappens() returns (es: seq<Event>)
    ensures IsRun(Init, es) && var s := Final(Init, es);
      && s.handler.Free? && (forall i :: 0 <= i < |s.movers| ==> s.movers[i].pc.Done?)
      && Current(s.log) == 5
  {
    MoveStickHeads(5, 5.0);
    es := ForwardStarts();
    hide *;
    es := OneTurn(es, MoveStick(5, 5.0));
    es := TakenOver(es, MoveStick(5, 5.0));
  }
}
