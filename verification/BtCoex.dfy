// The Bluetooth-coexistence session machine (btcoex.c): while an address is being
// negotiated over Wi-Fi, eight firmware registers are overridden in two groups and must
// all be given back.

module BtCoexSpec {
  import opened Wrappers

  const REG50: nat := 0x8022
  const REG51: nat := 0
  const REG64: nat := 0
  const REG65: nat := 0
  const REG71: nat := 0
  const REG66: nat := 0x2710
  const REG41: nat := 0x33
  const REG68: nat := 0x190
  const SCO_SAMPLES: nat := 12

  type Vif = nat

  // The eight btc_params registers, on the device or as saved by the driver.
  datatype Regs = Regs(r41: nat, r66: nat, r68: nat, r50: nat, r51: nat, r64: nat, r65: nat, r71: nat)

  function ReadReg(regs: Regs, addr: nat): nat {
    match addr
    case 41 => regs.r41
    case 66 => regs.r66
    case 68 => regs.r68
    case 50 => regs.r50
    case 51 => regs.r51
    case 64 => regs.r64
    case 65 => regs.r65
    case 71 => regs.r71
    case _ => 0
  }

  function Written(regs: Regs, addr: nat, data: nat): (regs': Regs) {
    match addr
    case 41 => regs.(r41 := data)
    case 66 => regs.(r66 := data)
    case 68 => regs.(r68 := data)
    case 50 => regs.(r50 := data)
    case 51 => regs.(r51 := data)
    case 64 => regs.(r64 := data)
    case 65 => regs.(r65 := data)
    case 71 => regs.(r71 := data)
    case _ => regs
  }

  // `a` with the first group (66, 41, 68), or the second, taken from `b`.
  function WithPart1(a: Regs, b: Regs): Regs {
    a.(r66 := b.r66, r41 := b.r41, r68 := b.r68)
  }

  function WithPart2(a: Regs, b: Regs): Regs {
    a.(r50 := b.r50, r51 := b.r51, r64 := b.r64, r65 := b.r65, r71 := b.r71)
  }

  const SESSION: Regs := Regs(REG41, REG66, REG68, REG50, REG51, REG64, REG65, REG71)

  datatype Phase = Idle | Start | OpprWin | ForceTimeout

  // The driver's record, the kernel's timer and work item, and the device's registers.
  datatype Machine = Machine(
    phase: Phase,
    vif: Option<Vif>,
    timeout: nat,
    timerOn: bool,
    dhcpDone: bool,
    saved: Regs,
    savedPart1: bool,
    savedPart2: bool,
    timerArmed: bool,
    workPending: bool,
    regs: Regs
  )

  datatype Event =
    | Begin(vif: Vif, duration: nat, sco: bool)  // set_mode(DISABLED), with the SCO samples' verdict
    | Finish(vif: Vif)                           // set_mode(ENABLED)
    | TimerFires
    | WorkRuns

  // restore_part1 and boost_wifi(false): a group that was saved goes back.
  function RestorePart1(m: Machine): Machine {
    if m.savedPart1 then m.(savedPart1 := false, regs := WithPart1(m.regs, m.saved)) else m
  }

  function RestorePart2(m: Machine): Machine {
    if m.savedPart2 then m.(savedPart2 := false, regs := WithPart2(m.regs, m.saved)) else m
  }

  function Boost(m: Machine): Machine {
    if m.savedPart2 then RestorePart2(m)
    else m.(savedPart2 := true, saved := WithPart2(m.saved, m.regs), regs := WithPart2(m.regs, SESSION))
  }

  function SavePart1(m: Machine): Machine {
    if m.savedPart1 then m else m.(savedPart1 := true, saved := WithPart1(m.saved, m.regs))
  }

  function GoIdle(m: Machine): Machine {
    RestorePart1(RestorePart2(m.(phase := Idle, timerOn := false))).(vif := None)
  }

  function Started(m: Machine, vif: Vif, duration: nat): Machine {
    var m1 := SavePart1(m.(timeout := duration, vif := Some(vif)));
    m1.(regs := WithPart1(m1.regs, SESSION), dhcpDone := false, phase := Start, workPending := true)
  }

  function Ended(m: Machine): Machine {
    var m1 := m.(dhcpDone := true);
    if m.timerOn then m1.(timerOn := false, timerArmed := false, workPending := m.workPending || m.phase != Idle)
    else RestorePart1(m1)
  }

  // The work handler; `window` is the length of the opportunity window.
  function Handled(m: Machine, window: nat): Machine {
    var m0 := m.(workPending := false, timerOn := false, timerArmed := m.timerArmed && !m.timerOn);
    match m.phase
    case Start =>
      m0.(phase := OpprWin, timeout := if m.timeout < window then m.timeout else m.timeout - window,
          timerArmed := true, timerOn := true)
    case OpprWin =>
      if m.dhcpDone then GoIdle(m0)
      else Boost(m0).(phase := ForceTimeout, timerArmed := true, timerOn := true)
    case ForceTimeout => GoIdle(m0)
    case Idle => GoIdle(m0)
  }

  function Detached(m: Machine): Machine {
    RestorePart1(RestorePart2(m.(timerArmed := false, timerOn := false, workPending := false)))
  }

  function Apply(m: Machine, e: Event, window: nat): Machine {
    match e
    case Begin(vif, duration, sco) =>
      if m.phase != Idle || !sco then m else Started(m, vif, duration)
    case Finish(vif) =>
      if m.phase != Idle && m.vif == Some(vif) then Ended(m) else m
    case TimerFires => m.(timerArmed := false, timerOn := false, workPending := true)
    case WorkRuns => Handled(m, window)
  }

  predicate Enabled(m: Machine, e: Event) {
    match e
    case Begin(_, _, _) | Finish(_) => true
    case TimerFires => m.timerArmed
    case WorkRuns => m.workPending
  }

  function Initial(regs: Regs, saved: Regs, timeout: nat): Machine {
    Machine(Idle, None, timeout, false, false, saved, false, false, false, false, regs)
  }

  // SCO is taken to be active when more than two of the samples up to the first read
  // error (None) show it.
  predicate ShowsSco(param27: nat) {
    param27 / 2 % 4 == 1
  }

  function ScoCount(samples: seq<Option<nat>>): nat {
    if samples == [] || samples[0].None? then 0
    else (if ShowsSco(samples[0].value) then 1 else 0) + ScoCount(samples[1..])
  }
}

module BtCoexRuns {
  import opened BtCoexSpec

  // `base` is what the registers held before the session.
  ghost predicate Inv(m: Machine, base: Regs) {
    if m.phase == Idle then
      !m.timerArmed && !m.timerOn && !m.workPending && !m.savedPart1 && !m.savedPart2 && m.regs == base
    else
      && m.vif.Some?
      && m.timerOn == m.timerArmed && m.timerArmed != m.workPending
      && (m.phase == Start ==> m.workPending)
      && (m.savedPart2 <==> m.phase == ForceTimeout)
      && (m.savedPart1 || m.dhcpDone)
      && (m.savedPart1 ==> WithPart1(m.saved, base) == m.saved)
      && (m.savedPart2 ==> WithPart2(m.saved, base) == m.saved)
      // exactly the groups that are saved are overridden
      && m.regs == WithPart1(WithPart2(base, if m.savedPart2 then SESSION else base),
                             if m.savedPart1 then SESSION else base)
  }

  lemma StepInv(m: Machine, e: Event, window: nat, base: Regs)
    requires Inv(m, base) && Enabled(m, e)
    ensures Inv(Apply(m, e, window), base)
  {
  }

  predicate Legal(m: Machine, events: seq<Event>, window: nat)
    decreases |events|
  {
    events == [] || (Enabled(m, events[0]) && Legal(Apply(m, events[0], window), events[1..], window))
  }

  function After(m: Machine, events: seq<Event>, window: nat): Machine
    decreases |events|
  {
    if events == [] then m else After(Apply(m, events[0], window), events[1..], window)
  }

  lemma {:induction false} RunInv(m: Machine, events: seq<Event>, window: nat, base: Regs)
    requires Inv(m, base) && Legal(m, events, window)
    ensures Inv(After(m, events, window), base)
    decreases |events|
  {
    if events != [] {
      StepInv(m, events[0], window, base);
      RunInv(Apply(m, events[0], window), events[1..], window, base);
    }
  }

  // In every run, whenever the machine is idle all eight registers hold what they held at
  // the start, and so they do whenever it is detached; neither leaves a timer or work
  // behind.
  lemma RegistersRestored(regs: Regs, saved: Regs, timeout: nat, events: seq<Event>, window: nat)
    requires Legal(Initial(regs, saved, timeout), events, window)
    ensures var m := After(Initial(regs, saved, timeout), events, window);
            && (m.phase == Idle ==> m.regs == regs && !m.timerArmed && !m.workPending)
            && Detached(m).regs == regs && !Detached(m).timerArmed && !Detached(m).workPending
  {
    RunInv(Initial(regs, saved, timeout), events, window, regs);
  }

  // In every run outside idle exactly one of timer and work is under way, so no session is
  // stuck; the handler never runs idle and always finds the session's interface; and the
  // second group is overridden exactly in the forced phase.
  lemma NeverStuck(regs: Regs, saved: Regs, timeout: nat, events: seq<Event>, window: nat)
    requires Legal(Initial(regs, saved, timeout), events, window)
    ensures var m := After(Initial(regs, saved, timeout), events, window);
            && (m.phase != Idle ==> (Enabled(m, TimerFires) <==> !Enabled(m, WorkRuns)))
            && (Enabled(m, WorkRuns) ==> m.phase != Idle && m.vif.Some?)
            && (m.phase == ForceTimeout ==> WithPart2(m.regs, SESSION) == m.regs)
            && (m.phase != ForceTimeout ==> WithPart2(m.regs, regs) == m.regs)
  {
    RunInv(Initial(regs, saved, timeout), events, window, regs);
  }

  // Handler runs left before the session is over.
  function Rank(p: Phase): nat {
    match p
    case Start => 3
    case OpprWin => 2
    case ForceTimeout => 1
    case Idle => 0
  }

  function HandlerRuns(events: seq<Event>): nat {
    if events == [] then 0 else (if events[0].WorkRuns? then 1 else 0) + HandlerRuns(events[1..])
  }

  lemma RankStep(m: Machine, e: Event, window: nat)
    requires m.phase != Idle
    ensures Rank(Apply(m, e, window).phase) <= Rank(m.phase) - if e.WorkRuns? then 1 else 0
  {
    match e
    case Begin(vif, duration, sco) =>
    case Finish(vif) => EndedPhase(m);
    case TimerFires =>
    case WorkRuns => HandledPhase(m, window);
  }

  lemma EndedPhase(m: Machine)
    ensures Ended(m).phase == m.phase
  {
  }

  lemma HandledPhase(m: Machine, window: nat)
    requires m.phase != Idle
    ensures Rank(Handled(m, window).phase) < Rank(m.phase)
  {
    hide WithPart1, WithPart2;
  }

  // From any point of a session, however begin and end requests, timer and work
  // interleave, three handler runs -- fewer later in the session -- are enough to be idle
  // again.
  lemma {:induction false} IdleWithinThreeHandlerRuns(m: Machine, events: seq<Event>, window: nat, base: Regs)
    returns (k: nat)
    requires Inv(m, base) && Legal(m, events, window) && m.phase != Idle
    requires HandlerRuns(events) >= Rank(m.phase)
    ensures k <= |events| && After(m, events[..k], window).phase == Idle
    ensures HandlerRuns(events[..k]) <= Rank(m.phase) <= 3
    decreases |events|
  {
    var m' := Apply(m, events[0], window);
    StepInv(m, events[0], window, base);
    RankStep(m, events[0], window);
    if m'.phase == Idle {
      k := 1;
      assert events[..1] == [events[0]] && [events[0]][1..] == [];
    } else {
      k := IdleWithinThreeHandlerRuns(m', events[1..], window, base);
      assert events[..k + 1][0] == events[0] && events[..k + 1][1..] == events[1..][..k];
      k := k + 1;
    }
  }
}

module BtCoex {
  import opened Wrappers
  import opened BtCoexSpec

  class Firmware {
    var regs: Regs

    method ParamsWrite(addr: nat, data: nat)
      modifies this
      ensures regs == Written(old(regs), addr, data)
    {
      regs := Written(regs, addr, data);
    }

    method ParamsRead(addr: nat) returns (data: nat)
      ensures data == ReadReg(regs, addr)
    {
      data := ReadReg(regs, addr);
    }
  }

  // is_sco_active: twelve samples of parameter 27, a read error ends the sampling.
  method IsScoActive(samples: seq<Option<nat>>) returns (res: bool)
    requires |samples| == SCO_SAMPLES
    ensures res <==> ScoCount(samples) > 2
  {
    var scoIdCnt := 0;
    var i := 0;
    while i < SCO_SAMPLES
      invariant i <= SCO_SAMPLES && scoIdCnt <= 2
      invariant ScoCount(samples) == scoIdCnt + ScoCount(samples[i..])
    {
      if samples[i].None? {
        return false;
      }
      if ShowsSco(samples[i].value) {
        scoIdCnt := scoIdCnt + 1;
      }
      if scoIdCnt > 2 {
        return true;
      }
      i := i + 1;
    }
    return false;
  }

  class Session {
    const fw: Firmware
    const window: nat
    var phase: Phase
    var vif: Option<Vif>
    var timeout: nat
    var timerOn: bool
    var dhcpDone: bool
    var saved: Regs
    var savedPart1: bool
    var savedPart2: bool
    var timerArmed: bool
    var workPending: bool

    ghost function State(): Machine
      reads this, fw
    {
      Machine(phase, vif, timeout, timerOn, dhcpDone, saved, savedPart1, savedPart2,
              timerArmed, workPending, fw.regs)
    }

    constructor (fw: Firmware, window: nat, saved: Regs, dhcpDone: bool)
      ensures this.fw == fw && this.window == window
      ensures State() == Initial(fw.regs, saved, window).(dhcpDone := dhcpDone)
    {
      this.fw, this.window, this.saved, this.dhcpDone := fw, window, saved, dhcpDone;
      phase, vif, timerOn, timeout := Idle, None, false, window;
      savedPart1, savedPart2, timerArmed, workPending := false, false, false, false;
    }

    method BoostWifi(trumpSco: bool)
      modifies this, fw
      ensures State() == if trumpSco then Boost(old(State())) else RestorePart2(old(State()))
    {
      if trumpSco && !savedPart2 {
        var r50 := fw.ParamsRead(50);
        var r51 := fw.ParamsRead(51);
        var r64 := fw.ParamsRead(64);
        var r65 := fw.ParamsRead(65);
        var r71 := fw.ParamsRead(71);
        saved := saved.(r50 := r50, r51 := r51, r64 := r64, r65 := r65, r71 := r71);
        savedPart2 := true;
        fw.ParamsWrite(50, REG50);
        fw.ParamsWrite(51, REG51);
        fw.ParamsWrite(64, REG64);
        fw.ParamsWrite(65, REG65);
        fw.ParamsWrite(71, REG71);
      } else if savedPart2 {
        fw.ParamsWrite(50, saved.r50);
        fw.ParamsWrite(51, saved.r51);
        fw.ParamsWrite(64, saved.r64);
        fw.ParamsWrite(65, saved.r65);
        fw.ParamsWrite(71, saved.r71);
        savedPart2 := false;
      }
    }

    method DoSavePart1()
      modifies this
      ensures State() == SavePart1(old(State()))
    {
      if !savedPart1 {
        var r66 := fw.ParamsRead(66);
        var r41 := fw.ParamsRead(41);
        var r68 := fw.ParamsRead(68);
        saved := saved.(r66 := r66, r41 := r41, r68 := r68);
        savedPart1 := true;
      }
    }

    method DoRestorePart1()
      modifies this, fw
      ensures State() == RestorePart1(old(State()))
    {
      if savedPart1 {
        savedPart1 := false;
        fw.ParamsWrite(66, saved.r66);
        fw.ParamsWrite(41, saved.r41);
        fw.ParamsWrite(68, saved.r68);
      }
    }

    method TimerFunc()
      requires timerArmed
      modifies this
      ensures State() == Apply(old(State()), TimerFires, window)
    {
      timerArmed := false;
      timerOn := false;
      workPending := true;
    }

    // The timer is on again, towards the next phase.
    method Rearm(next: Phase)
      modifies this`phase, this`timerArmed, this`timerOn
      ensures State() == old(State()).(phase := next, timerArmed := true, timerOn := true)
    {
      phase := next;
      timerArmed := true;
      timerOn := true;
    }

    // The interface is looked at only on the way to idle.
    method Handler()
      requires workPending
      requires phase != Start && (phase != OpprWin || dhcpDone) ==> vif.Some?
      modifies this, fw
      ensures State() == Apply(old(State()), WorkRuns, window)
    {
      hide Boost, RestorePart1, RestorePart2, GoIdle;
      workPending := false;
      if timerOn {
        timerOn := false;
        timerArmed := false;
      }
      match phase {
        case Start =>
          if timeout >= window {
            timeout := timeout - window;
          }
          Rearm(OpprWin);
          return;
        case OpprWin =>
          if !dhcpDone {
            BoostWifi(true);
            Rearm(ForceTimeout);
            return;
          }
        case ForceTimeout =>
        case Idle =>
      }
      ToIdle();
    }

    // The handler's way back to idle.
    method ToIdle()
      modifies this, fw
      ensures State() == GoIdle(old(State()))
    {
      hide RestorePart1, RestorePart2;
      phase := Idle;
      timerOn := false;
      BoostWifi(false);
      DoRestorePart1();
      vif := None;
    }

    method DhcpStart()
      requires vif.Some?
      modifies this, fw
      ensures State() == Started(old(State()), old(vif).value, old(timeout))
    {
      DoSavePart1();
      fw.ParamsWrite(66, REG66);
      fw.ParamsWrite(41, REG41);
      fw.ParamsWrite(68, REG68);
      dhcpDone := false;
      phase := Start;
      workPending := true;
    }

    method DhcpEnd()
      modifies this, fw
      ensures State() == Ended(old(State()))
    {
      dhcpDone := true;
      if timerOn {
        timerOn := false;
        timerArmed := false;
        if phase != Idle {
          workPending := true;
        }
      } else {
        DoRestorePart1();
      }
    }

    // set_mode(BRCMF_BTCOEX_DISABLED): a session starts; busy is -EBUSY.
    method SetModeDisabled(vif: Vif, duration: nat, samples: seq<Option<nat>>) returns (busy: bool)
      requires |samples| == SCO_SAMPLES
      modifies this, fw
      ensures busy == (old(phase) != Idle)
      ensures State() == Apply(old(State()), Begin(vif, duration, ScoCount(samples) > 2), window)
    {
      if phase != Idle {
        return true;
      }
      var sco := IsScoActive(samples);
      if sco {
        timeout := duration;
        this.vif := Some(vif);
        DhcpStart();
      }
      return false;
    }

    // set_mode(BRCMF_BTCOEX_ENABLED): a session ends.
    method SetModeEnabled(vif: Vif)
      modifies this, fw
      ensures State() == Apply(old(State()), Finish(vif), window)
    {
      if phase != Idle && this.vif == Some(vif) {
        DhcpEnd();
      }
    }

    method Detach()
      modifies this, fw
      ensures State() == BtCoexSpec.Detached(old(State()))
    {
      timerArmed := false;
      timerOn := false;
      workPending := false;
      BoostWifi(false);
      DoRestorePart1();
    }
  }
}
