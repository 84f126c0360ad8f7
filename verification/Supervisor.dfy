/**
 * Handing one delegated cgroup root from the native supervisor to a coordinator that may fork: every
 * interleaving of the supervisor, the coordinator and any number of descendants.
 */
module Supervisor {

  // ----- One process

  /** Descriptor 4: closed, inherited but untouched, or owned by an inheritance or a capability. */
  datatype Control = NoControl | Unclaimed | Owned

  datatype Stage =
    | Running
    | Inheriting // inside the one-shot receive, issuance lock held
    | Cleaning // unwinding a failed receive, issuance lock held
    | Closing // closing a capability, its lock held
    | ChildHook // forked, before any other code of the child runs
    | Exiting // no code of the process runs any more; the kernel closes its descriptors in some order
    | Gone

  /** `roots` counts the descriptors of the delegated root; `pinned` says the backend has duplicated its own. */
  datatype Proc = Proc(stage: Stage, control: Control, roots: nat, pinned: bool, capability: bool) {
    predicate HoldsControl() {
      control != NoControl
    }
  }

  datatype Local =
    | Claim | ClaimFails | Pin | DropOriginal | Issue | Fail | CleanRoot | CleanControl
    | StartClose | CloseRoot | CloseControl | HookRoot | HookControl | HookDone
    | StartExit | ExitRoot | ExitControl | ExitDone

  predicate LocalEnabled(p: Proc, a: Local) {
    match a
    case Claim => p.stage == Running && p.control == Unclaimed
    case ClaimFails => p.stage == Running && p.control == Unclaimed
    case Pin => p.stage == Inheriting && p.roots == 1 && !p.pinned
    case DropOriginal => p.stage == Inheriting && p.roots == 2
    case Issue => p.stage == Inheriting && p.roots == 1 && p.pinned
    case Fail => p.stage == Inheriting
    case CleanRoot => p.stage == Cleaning && p.roots > 0
    case CleanControl => p.stage == Cleaning && p.roots == 0
    case StartClose => p.stage == Running && p.capability
    case CloseRoot => p.stage == Closing && p.roots > 0
    case CloseControl => p.stage == Closing && p.roots == 0
    case HookRoot => p.stage == ChildHook && p.capability && p.roots > 0
    case HookControl => p.stage == ChildHook && p.capability && p.roots == 0
    case HookDone => p.stage == ChildHook && !p.capability
    case StartExit => p.stage !in {Exiting, Gone}
    case ExitRoot => p.stage == Exiting && p.roots > 0
    case ExitControl => p.stage == Exiting && p.HoldsControl()
    case ExitDone => p.stage == Exiting && p.roots == 0 && !p.HoldsControl()
  }

  function LocalStep(p: Proc, a: Local): Proc
    requires LocalEnabled(p, a)
  {
    match a
    case Claim => p.(stage := Inheriting, control := Owned)
    case ClaimFails => p.(control := NoControl)
    case Pin => p.(roots := 2, pinned := true)
    case DropOriginal => p.(roots := 1)
    case Issue => p.(stage := Running, capability := true)
    case Fail => p.(stage := Cleaning)
    case CleanRoot => p.(roots := p.roots - 1)
    case CleanControl => p.(stage := Running, control := NoControl, pinned := false)
    case StartClose => p.(stage := Closing)
    case CloseRoot => p.(roots := p.roots - 1)
    case CloseControl => p.(stage := Running, control := NoControl, pinned := false, capability := false)
    case HookRoot => p.(roots := p.roots - 1)
    case HookControl => p.(stage := Running, control := NoControl, pinned := false, capability := false)
    case HookDone => p.(stage := Running)
    case StartExit => p.(stage := Exiting, pinned := false, capability := false)
    case ExitRoot => p.(roots := p.roots - 1)
    case ExitControl => p.(control := NoControl)
    case ExitDone => p.(stage := Gone)
  }

  /** The fork hook waits for the issuance lock and every capability lock. */
  predicate CanFork(p: Proc) {
    p.stage == Running
  }

  function Forked(p: Proc): Proc {
    p.(stage := ChildHook)
  }

  /** A root is held only by the code that owns the control socket, or by a process that is already exiting. */
  predicate ProcOk(p: Proc) {
    && (p.roots > 0 ==> p.control == Owned || p.stage == Exiting)
    && (p.roots > 0 ==> p.capability || p.stage in {Inheriting, Cleaning, Exiting})
    && (p.control == Owned ==> p.capability || p.stage in {Inheriting, Cleaning, Exiting})
    && (p.capability ==> p.control == Owned && p.stage in {Running, Closing, ChildHook})
    && (p.stage in {Inheriting, Cleaning} ==> p.control == Owned)
    && (p.stage == Closing ==> p.capability)
    && (p.stage == Gone ==> p.control == NoControl && p.roots == 0)
  }

  /** A root is never held without the control socket. */
  predicate RootImpliesControl(p: Proc) {
    p.roots > 0 ==> p.HoldsControl()
  }

  /** An exiting process releases its roots before its control socket, as `close` and the fork hook do. */
  predicate OrderlyStep(p: Proc, a: Local) {
    a == ExitControl ==> p.roots == 0
  }

  /**
   * Every step keeps the ownership of descriptors. It keeps roots from outliving the control socket exactly
   * if it is not an exit that closes the control socket while a root is still open.
   */
  lemma LocalStepKeepsOrder(p: Proc, a: Local)
    requires ProcOk(p) && LocalEnabled(p, a)
    ensures ProcOk(LocalStep(p, a)) && LocalStep(p, a).roots <= p.roots + 1
    ensures RootImpliesControl(p) ==> (RootImpliesControl(LocalStep(p, a)) <==> OrderlyStep(p, a))
    ensures p.roots == 0 ==> LocalStep(p, a).roots == 0
    ensures !p.HoldsControl() ==> !LocalStep(p, a).HoldsControl()
  {
  }

  /** The fork hook of the child, run to its end. */
  function AfterHooks(p: Proc): Proc
    requires p.stage == ChildHook
    decreases p.roots
  {
    if p.capability && p.roots > 0 then AfterHooks(LocalStep(p, HookRoot))
    else if p.capability then LocalStep(p, HookControl)
    else LocalStep(p, HookDone)
  }

  /**
   * After its hooks a forked child holds no root and no claimed control socket. It holds the control
   * descriptor exactly when its parent had not claimed it yet.
   */
  lemma {:induction false} ChildHoldsNeither(p: Proc)
    requires ProcOk(p) && CanFork(p)
    ensures var child := AfterHooks(Forked(p));
            && child.stage == Running && child.roots == 0 && !child.capability
            && (child.HoldsControl() <==> p.control == Unclaimed)
  {
    HooksRelease(Forked(p));
  }

  lemma {:induction false} HooksRelease(p: Proc)
    requires ProcOk(p) && p.stage == ChildHook
    ensures var child := AfterHooks(p);
            && child.stage == Running && child.roots == 0 && !child.capability
            && (child.HoldsControl() <==> p.control == Unclaimed)
    decreases p.roots
  {
    if p.capability && p.roots > 0 {
      LocalStepKeepsOrder(p, HookRoot);
      HooksRelease(LocalStep(p, HookRoot));
    }
  }

  // ----- The whole system

  datatype Phase = Configuring | AwaitingReady | Sending | AwaitingEof | CleanedUp | Suppressed

  /** What the supervisor observes at each of its decisions. */
  datatype Decision =
    | Configured | ConfigureFailed
    | Ready | ReadyFailed
    | Sent | SendFailed // no transfer possible
    | SendUnclear // an error after which the packet may still have been delivered
    | EofVerified | EofUnverified

  /** `inFlight`: the packet carrying the root waits, unread, at the coordinator's end of the socket. */
  datatype State = State(phase: Phase, decisions: seq<Decision>, inFlight: bool, procs: seq<Proc>)

  datatype Step =
    | Decide(decision: Decision, delivered: bool)
    | Act(pid: nat, action: Local)
    | Receive(pid: nat)
    | Fork(pid: nat)

  predicate SomeoneHoldsControl(procs: seq<Proc>) {
    exists p | p in procs :: p.HoldsControl()
  }

  predicate DecisionEnabled(phase: Phase, d: Decision) {
    match d
    case Configured => phase == Configuring
    case ConfigureFailed => phase == Configuring
    case Ready => phase == AwaitingReady
    case ReadyFailed => phase == AwaitingReady
    case Sent => phase == Sending
    case SendFailed => phase == Sending
    case SendUnclear => phase == Sending
    case EofVerified => phase == AwaitingEof
    case EofUnverified => phase == AwaitingEof
  }

  function NextPhase(d: Decision): Phase {
    match d
    case Configured => AwaitingReady
    case Ready => Sending
    case Sent => AwaitingEof
    case SendUnclear => AwaitingEof
    case EofUnverified => Suppressed
    case _ => CleanedUp
  }

  predicate Enabled(s: State, step: Step) {
    match step
    case Decide(d, _) => DecisionEnabled(s.phase, d) && (d == EofVerified ==> !SomeoneHoldsControl(s.procs))
    case Act(pid, a) => pid < |s.procs| && LocalEnabled(s.procs[pid], a)
    case Receive(pid) => pid < |s.procs| && s.inFlight && s.procs[pid].stage == Inheriting && s.procs[pid].roots == 0
    case Fork(pid) => pid < |s.procs| && CanFork(s.procs[pid])
  }

  function After(s: State, step: Step): State
    requires Enabled(s, step)
  {
    match step
    case Decide(d, delivered) =>
      var inFlight := s.inFlight || d == Sent || (d == SendUnclear && delivered);
      s.(phase := NextPhase(d), decisions := s.decisions + [d], inFlight := inFlight && SomeoneHoldsControl(s.procs))
    case Act(pid, a) =>
      // closing the last descriptor of the coordinator's end discards a packet nobody read
      var procs := s.procs[pid := LocalStep(s.procs[pid], a)];
      s.(procs := procs, inFlight := s.inFlight && SomeoneHoldsControl(procs))
    case Receive(pid) => s.(procs := s.procs[pid := s.procs[pid].(roots := 1, pinned := false)], inFlight := false)
    case Fork(pid) => s.(procs := s.procs + [Forked(s.procs[pid])])
  }

  /** One coordinator with descriptor 4, before the supervisor has configured anything. */
  predicate Initial(s: State) {
    s == State(Configuring, [], false, [Proc(Running, Unclaimed, 0, false, false)])
  }

  predicate NoRoots(s: State) {
    !s.inFlight && forall p | p in s.procs :: p.roots == 0
  }

  /** The only roots left are those of exiting processes that lost their control socket first. */
  predicate OnlyLeftovers(s: State) {
    !s.inFlight && forall p | p in s.procs && p.roots > 0 :: p.stage == Exiting && !p.HoldsControl()
  }

  ghost predicate Inv(s: State) {
    && (forall p | p in s.procs :: ProcOk(p))
    && (s.inFlight ==> SomeoneHoldsControl(s.procs))
    && (s.phase !in {AwaitingEof, Suppressed} ==> OnlyLeftovers(s))
    && DecisionsLead(s.decisions, s.phase)
  }

  predicate NoLeftovers(s: State) {
    forall p | p in s.procs :: RootImpliesControl(p)
  }

  lemma ActKeepsInv(s: State, pid: nat, a: Local)
    requires Inv(s) && Enabled(s, Act(pid, a))
    ensures Inv(After(s, Act(pid, a)))
  {
    hide DecisionsLead;
    var p, s' := s.procs[pid], After(s, Act(pid, a));
    assert p in s.procs;
    LocalStepKeepsOrder(p, a);
    assert forall q | q in s'.procs :: q in s.procs || q == LocalStep(p, a);
  }

  lemma ReceiveKeepsInv(s: State, pid: nat)
    requires Inv(s) && Enabled(s, Receive(pid))
    ensures Inv(After(s, Receive(pid)))
  {
    hide DecisionsLead;
    var p, s' := s.procs[pid], After(s, Receive(pid));
    assert p in s.procs;
    assert forall q | q in s'.procs :: q in s.procs || q == p.(roots := 1, pinned := false);
  }

  lemma ForkKeepsInv(s: State, pid: nat)
    requires Inv(s) && Enabled(s, Fork(pid))
    ensures Inv(After(s, Fork(pid)))
  {
    hide DecisionsLead;
    var p, s' := s.procs[pid], After(s, Fork(pid));
    assert p in s.procs;
    assert forall q :: q in s'.procs <==> q in s.procs || q == Forked(p);
    if s.inFlight {
      var holder :| holder in s.procs && holder.HoldsControl();
      assert holder in s'.procs;
    }
  }

  /** Verified end of file means that nothing but leftovers of exiting processes remains. */
  lemma EofMeansNoRoots(s: State)
    requires Inv(s) && !SomeoneHoldsControl(s.procs)
    ensures OnlyLeftovers(s) && (NoLeftovers(s) ==> NoRoots(s))
  {
    hide DecisionsLead;
    forall p | p in s.procs
      ensures p.roots > 0 ==> p.stage == Exiting && !p.HoldsControl()
    {
      assert ProcOk(p) && !p.HoldsControl();
    }
  }

  lemma DecideKeepsInv(s: State, d: Decision, delivered: bool)
    requires Inv(s) && Enabled(s, Decide(d, delivered))
    ensures Inv(After(s, Decide(d, delivered)))
  {
    LeadOneMore(s.decisions, s.phase, d);
    hide DecisionsLead;
    if d == EofVerified {
      EofMeansNoRoots(s);
    }
  }

  lemma StepKeepsInv(s: State, step: Step)
    requires Inv(s) && Enabled(s, step)
    ensures Inv(After(s, step))
  {
    hide Inv, Enabled, After;
    match step
    case Decide(d, delivered) => DecideKeepsInv(s, d, delivered);
    case Act(pid, a) => ActKeepsInv(s, pid, a);
    case Receive(pid) => ReceiveKeepsInv(s, pid);
    case Fork(pid) => ForkKeepsInv(s, pid);
  }

  /** `trace` is a run: it starts initially and each state follows by an enabled step. */
  predicate Run(trace: seq<State>, steps: seq<Step>) {
    && |trace| == |steps| + 1 && Initial(trace[0])
    && forall i | 0 <= i < |steps| :: Enabled(trace[i], steps[i]) && trace[i + 1] == After(trace[i], steps[i])
  }

  lemma {:induction false} RunKeepsInv(trace: seq<State>, steps: seq<Step>, n: nat)
    requires Run(trace, steps) && n < |trace|
    ensures Inv(trace[n])
    decreases n
  {
    hide Inv, Enabled, After;
    if n == 0 {
      InitialInv(trace[0]);
    } else {
      RunKeepsInv(trace, steps, n - 1);
      StepKeepsInv(trace[n - 1], steps[n - 1]);
    }
  }

  lemma InitialInv(s: State)
    requires Initial(s)
    ensures Inv(s)
  {
    var a := Answers(true, true, Sent, true);
    assert a.Valid() && [] <= Lifecycle(a);
  }

  /** In this run every exiting process releases its roots before its control socket. */
  predicate OrderlyRun(trace: seq<State>, steps: seq<Step>)
    requires Run(trace, steps)
  {
    forall i | 0 <= i < |steps| && steps[i].Act? :: OrderlyAct(trace, steps, i)
  }

  predicate OrderlyAct(trace: seq<State>, steps: seq<Step>, i: nat)
    requires Run(trace, steps) && i < |steps| && steps[i].Act?
  {
    assert Enabled(trace[i], steps[i]);
    OrderlyStep(trace[i].procs[steps[i].pid], steps[i].action)
  }

  lemma OrderlyStepLeavesNothing(s: State, step: Step)
    requires Inv(s) && Enabled(s, step) && NoLeftovers(s)
    requires step.Act? ==> OrderlyStep(s.procs[step.pid], step.action)
    ensures NoLeftovers(After(s, step))
  {
    hide DecisionsLead;
    var s' := After(s, step);
    match step
    case Decide(_, _) =>
    case Act(pid, a) =>
      assert s.procs[pid] in s.procs;
      LocalStepKeepsOrder(s.procs[pid], a);
      assert forall q | q in s'.procs :: q in s.procs || q == LocalStep(s.procs[pid], a);
    case Receive(pid) =>
      assert s.procs[pid] in s.procs;
      assert forall q | q in s'.procs :: q in s.procs || q == s.procs[pid].(roots := 1, pinned := false);
    case Fork(pid) =>
      assert s.procs[pid] in s.procs;
      assert forall q | q in s'.procs :: q in s.procs || q == Forked(s.procs[pid]);
  }

  lemma {:induction false} OrderlyRunLeavesNothing(trace: seq<State>, steps: seq<Step>, n: nat)
    requires Run(trace, steps) && OrderlyRun(trace, steps) && n < |trace|
    ensures NoLeftovers(trace[n])
    decreases n
  {
    hide Inv, Enabled, After;
    if n > 0 {
      OrderlyRunLeavesNothing(trace, steps, n - 1);
      RunKeepsInv(trace, steps, n - 1);
      assert steps[n - 1].Act? ==> OrderlyAct(trace, steps, n - 1);
      OrderlyStepLeavesNothing(trace[n - 1], steps[n - 1]);
    }
  }

  /**
   * In every run the supervisor cleans up only when no packet carrying the root is under way and no process
   * holds the root, except for exiting processes whose control socket was closed before their roots; and it
   * stays so. If exiting processes release their roots first, no process holds the root then or ever again.
   */
  lemma CleanupIsSafe(trace: seq<State>, steps: seq<Step>, n: nat, later: nat)
    requires Run(trace, steps) && n <= later < |trace| && trace[n].phase == CleanedUp
    ensures OnlyLeftovers(trace[n]) && trace[later].phase == CleanedUp && OnlyLeftovers(trace[later])
    ensures OrderlyRun(trace, steps) ==> NoRoots(trace[n]) && NoRoots(trace[later])
  {
    hide DecisionsLead, Run, OrderlyRun;
    RunKeepsInv(trace, steps, n);
    CleanedUpIsFinal(trace, steps, n, later);
    RunKeepsInv(trace, steps, later);
    if OrderlyRun(trace, steps) {
      OrderlyRunLeavesNothing(trace, steps, n);
      OrderlyRunLeavesNothing(trace, steps, later);
    }
  }

  /** Some enabled steps lead from one state to the other. */
  ghost predicate CanReach(from: State, to: State) {
    exists trace: seq<State>, steps: seq<Step> :: Path(trace, steps) && trace[0] == from && trace[|steps|] == to
  }

  predicate Path(trace: seq<State>, steps: seq<Step>) {
    && |trace| == |steps| + 1
    && forall i | 0 <= i < |steps| :: Enabled(trace[i], steps[i]) && trace[i + 1] == After(trace[i], steps[i])
  }

  ghost predicate Reachable(s: State) {
    exists s0 :: Initial(s0) && CanReach(s0, s)
  }

  lemma CanReachItself(s: State)
    ensures CanReach(s, s)
  {
    var none: seq<Step> := [];
    assert Path([s], none) && [s][|none|] == s;
  }

  lemma CanReachOneMore(from: State, s: State, step: Step)
    requires CanReach(from, s) && Enabled(s, step)
    ensures CanReach(from, After(s, step))
  {
    hide Enabled, After;
    var trace: seq<State>, steps: seq<Step> :| Path(trace, steps) && trace[0] == from && trace[|steps|] == s;
    var trace', steps' := trace + [After(s, step)], steps + [step];
    forall i | 0 <= i < |steps'|
      ensures Enabled(trace'[i], steps'[i]) && trace'[i + 1] == After(trace'[i], steps'[i])
    {
      assert trace'[i] == trace[i];
      assert i < |steps| ==> steps'[i] == steps[i] && trace'[i + 1] == trace[i + 1];
    }
    assert Path(trace', steps') && trace'[0] == from && trace'[|steps'|] == After(s, step);
  }

  lemma ReachableOneMore(s: State, step: Step, next: State)
    requires Reachable(s) && Enabled(s, step)
    requires next.phase == After(s, step).phase && next.decisions == After(s, step).decisions
    requires next.inFlight == After(s, step).inFlight && next.procs == After(s, step).procs
    ensures Reachable(next)
  {
    assert next == After(s, step);
    hide Enabled, After, CanReach;
    var s0 :| Initial(s0) && CanReach(s0, s);
    CanReachOneMore(s0, s, step);
  }

  lemma ReachableHasInv(s: State)
    requires Reachable(s)
    ensures Inv(s)
  {
    hide Inv, Enabled, After;
    var s0 :| Initial(s0) && CanReach(s0, s);
    var trace: seq<State>, steps: seq<Step> :| Path(trace, steps) && trace[0] == s0 && trace[|steps|] == s;
    RunKeepsInv(trace, steps, |steps|);
  }

  /** The packet is sent; the only process is as given. */
  function SentTo(p: Proc, inFlight: bool): State {
    State(AwaitingEof, [Configured, Ready, Sent], inFlight, [p])
  }

  lemma SendingIsReachable()
    ensures Reachable(SentTo(Proc(Inheriting, Owned, 0, false, false), true))
  {
    hide Reachable;
    var s0 := State(Configuring, [], false, [Proc(Running, Unclaimed, 0, false, false)]);
    FirstIsReachable(s0);
    var s1 := s0.(phase := AwaitingReady, decisions := [Configured]);
    ReachableOneMore(s0, Decide(Configured, false), s1);
    var s2 := s1.(phase := Sending, decisions := [Configured, Ready]);
    ReachableOneMore(s1, Decide(Ready, false), s2);
    var s3 := s2.(procs := [Proc(Inheriting, Owned, 0, false, false)]);
    ReachableOneMore(s2, Act(0, Claim), s3);
    assert s3.procs[0] in s3.procs;
    ReachableOneMore(s3, Decide(Sent, true), SentTo(s3.procs[0], true));
  }

  /**
   * Without an orderly exit the claim fails: a coordinator receives the root and is killed, its control socket
   * is closed first, and the supervisor cleans up while the exiting process still holds the root.
   */
  lemma DisorderlyExitLeavesARoot()
    ensures exists s :: Reachable(s) && s.phase == CleanedUp && OnlyLeftovers(s) && !NoRoots(s)
  {
    hide Reachable;
    SendingIsReachable();
    var p4 := Proc(Inheriting, Owned, 0, false, false);
    var p5, p6, p7 := p4.(roots := 1), p4.(roots := 1, stage := Exiting), Proc(Exiting, NoControl, 1, false, false);
    ReachableOneMore(SentTo(p4, true), Receive(0), SentTo(p5, false));
    ReachableOneMore(SentTo(p5, false), Act(0, StartExit), SentTo(p6, false));
    ReachableOneMore(SentTo(p6, false), Act(0, ExitControl), SentTo(p7, false));
    var s8 := State(CleanedUp, [Configured, Ready, Sent, EofVerified], false, [p7]);
    ReachableOneMore(SentTo(p7, false), Decide(EofVerified, false), s8);
    assert s8.procs[0] in s8.procs;
  }

  lemma FirstIsReachable(s: State)
    requires Initial(s)
    ensures Reachable(s)
  {
    CanReachItself(s);
  }

  /** The packet is sent; the processes are as given. */
  function SentToAll(procs: seq<Proc>): State {
    State(AwaitingEof, [Configured, Ready, Sent], false, procs)
  }

  /** The coordinator receives the root and issues its capability. */
  lemma CapabilityIsReachable()
    ensures Reachable(SentToAll([Proc(Running, Owned, 1, true, true)]))
  {
    hide Reachable;
    SendingIsReachable();
    var p0 := Proc(Inheriting, Owned, 0, false, false);
    var p1, p2, p3 := p0.(roots := 1), p0.(roots := 2, pinned := true), p0.(roots := 1, pinned := true);
    ReachableOneMore(SentTo(p0, true), Receive(0), SentToAll([p1]));
    ReachableOneMore(SentToAll([p1]), Act(0, Pin), SentToAll([p2]));
    ReachableOneMore(SentToAll([p2]), Act(0, DropOriginal), SentToAll([p3]));
    ReachableOneMore(SentToAll([p3]), Act(0, Issue), SentToAll([Proc(Running, Owned, 1, true, true)]));
  }

  /**
   * The ordinary course with a fork happens: a coordinator that holds the root forks a child that holds it too,
   * the child's hooks and then the coordinator release it, and the supervisor sees end of file and cleans up.
   */
  lemma ForkedRunCleansUp()
    ensures Reachable(SentToAll([Proc(Running, Owned, 1, true, true), Proc(ChildHook, Owned, 1, true, true)]))
    ensures Reachable(State(CleanedUp, [Configured, Ready, Sent, EofVerified], false,
                            [Proc(Running, NoControl, 0, false, false), Proc(Running, NoControl, 0, false, false)]))
  {
    hide Reachable;
    CapabilityIsReachable();
    var p, idle := Proc(Running, Owned, 1, true, true), Proc(Running, NoControl, 0, false, false);
    var c0 := p.(stage := ChildHook);
    var c1 := c0.(roots := 0);
    var closing := p.(stage := Closing);
    ReachableOneMore(SentToAll([p]), Fork(0), SentToAll([p, c0]));
    ReachableOneMore(SentToAll([p, c0]), Act(1, HookRoot), SentToAll([p, c1]));
    ReachableOneMore(SentToAll([p, c1]), Act(1, HookControl), SentToAll([p, idle]));
    ReachableOneMore(SentToAll([p, idle]), Act(0, StartClose), SentToAll([closing, idle]));
    ReachableOneMore(SentToAll([closing, idle]), Act(0, CloseRoot), SentToAll([closing.(roots := 0), idle]));
    ReachableOneMore(SentToAll([closing.(roots := 0), idle]), Act(0, CloseControl), SentToAll([idle, idle]));
    ReachableOneMore(SentToAll([idle, idle]), Decide(EofVerified, false),
                     State(CleanedUp, [Configured, Ready, Sent, EofVerified], false, [idle, idle]));
  }

  // ----- A waiting supervisor is never stuck

  /** What leaving changes: one process's own state, and an unread packet may be discarded. */
  predicate Left(s: State, s': State, pid: nat)
    requires pid < |s.procs|
  {
    && s'.phase == s.phase && s'.decisions == s.decisions && |s'.procs| == |s.procs|
    && (s'.inFlight ==> s.inFlight)
    && (forall j | 0 <= j < |s.procs| && j != pid :: s'.procs[j] == s.procs[j])
    && s'.procs[pid].roots == 0 && !s'.procs[pid].HoldsControl()
  }

  /** An exiting process releases its roots, then its control socket. */
  lemma {:induction false} ExitingLeaves(from: State, s: State, pid: nat) returns (s': State)
    requires CanReach(from, s) && pid < |s.procs| && s.procs[pid].stage == Exiting
    ensures CanReach(from, s') && Left(s, s', pid)
    decreases s.procs[pid].roots
  {
    hide CanReach;
    var p := s.procs[pid];
    s' := s;
    if p.roots > 0 {
      CanReachOneMore(from, s, Act(pid, ExitRoot));
      s' := ExitingLeaves(from, After(s, Act(pid, ExitRoot)), pid);
    } else if p.HoldsControl() {
      CanReachOneMore(from, s, Act(pid, ExitControl));
      s' := After(s, Act(pid, ExitControl));
    }
  }

  lemma ProcessLeaves(from: State, s: State, pid: nat) returns (s': State)
    requires CanReach(from, s) && pid < |s.procs| && ProcOk(s.procs[pid])
    ensures CanReach(from, s') && Left(s, s', pid)
  {
    hide CanReach;
    s' := s;
    if s.procs[pid].stage == Exiting {
      s' := ExitingLeaves(from, s, pid);
    } else if s.procs[pid].stage != Gone {
      CanReachOneMore(from, s, Act(pid, StartExit));
      s' := ExitingLeaves(from, After(s, Act(pid, StartExit)), pid);
    }
  }

  lemma {:induction false} AllLeave(from: State, s: State, n: nat) returns (s': State)
    requires CanReach(from, s) && n <= |s.procs| && (forall p | p in s.procs :: ProcOk(p))
    ensures CanReach(from, s') && s'.phase == s.phase && s'.decisions == s.decisions && |s'.procs| == |s.procs|
    ensures s'.inFlight ==> s.inFlight
    ensures forall j | 0 <= j < n :: s'.procs[j].roots == 0 && !s'.procs[j].HoldsControl()
    ensures forall j | n <= j < |s.procs| :: s'.procs[j] == s.procs[j]
    decreases n
  {
    hide CanReach, ProcOk;
    s' := s;
    if n > 0 {
      var s1 := AllLeave(from, s, n - 1);
      assert s1.procs[n - 1] == s.procs[n - 1] && s.procs[n - 1] in s.procs;
      s' := ProcessLeaves(from, s1, n - 1);
    }
  }

  /**
   * From every reachable state in which the supervisor waits for end of file there is a way on to a cleanup
   * with no root left anywhere: that every process exits in order.
   */
  lemma CleanupStaysInReach(s: State)
    requires Reachable(s) && s.phase == AwaitingEof
    ensures exists s' :: CanReach(s, s') && s'.phase == CleanedUp && NoRoots(s')
  {
    hide CanReach, Reachable, DecisionsLead;
    ReachableHasInv(s);
    CanReachItself(s);
    var s1 := AllLeave(s, s, |s.procs|);
    assert !SomeoneHoldsControl(s1.procs);
    CanReachOneMore(s, s1, Decide(EofVerified, false));
  }

  lemma {:induction false} CleanedUpIsFinal(trace: seq<State>, steps: seq<Step>, n: nat, later: nat)
    requires Run(trace, steps) && n <= later < |trace| && trace[n].phase == CleanedUp
    ensures trace[later].phase == CleanedUp
    decreases later
  {
    if n < later {
      CleanedUpIsFinal(trace, steps, n, later - 1);
      assert Enabled(trace[later - 1], steps[later - 1]);
    }
  }

  // ----- The supervisor's lifecycle as it runs

  /** What the environment answers at each point of one lifecycle. */
  datatype Answers = Answers(configured: bool, ready: bool, send: Decision, eofVerified: bool) {
    predicate Valid() {
      send in {Sent, SendFailed, SendUnclear}
    }
  }

  function Lifecycle(a: Answers): seq<Decision>
    requires a.Valid()
  {
    if !a.configured then [ConfigureFailed]
    else if !a.ready then [Configured, ReadyFailed]
    else if a.send == SendFailed then [Configured, Ready, SendFailed]
    else [Configured, Ready, a.send, if a.eofVerified then EofVerified else EofUnverified]
  }

  /** The decisions made so far are the beginning of a lifecycle, the whole of it once the phase is final. */
  ghost predicate DecisionsLead(decisions: seq<Decision>, phase: Phase) {
    exists a: Answers | a.Valid() ::
      && decisions <= Lifecycle(a)
      && (phase in {CleanedUp, Suppressed} <==> decisions == Lifecycle(a))
      && phase == if decisions == [] then Configuring else NextPhase(decisions[|decisions| - 1])
  }

  lemma LeadOneMore(decisions: seq<Decision>, phase: Phase, d: Decision)
    requires DecisionsLead(decisions, phase) && DecisionEnabled(phase, d)
    ensures DecisionsLead(decisions + [d], NextPhase(d))
  {
    var a: Answers :| a.Valid() && decisions <= Lifecycle(a)
      && (phase in {CleanedUp, Suppressed} <==> decisions == Lifecycle(a))
      && phase == if decisions == [] then Configuring else NextPhase(decisions[|decisions| - 1]);
    var a' := match d
      case Configured => a.(configured := true)
      case ConfigureFailed => a.(configured := false)
      case Ready => a.(ready := true)
      case ReadyFailed => a.(ready := false)
      case EofVerified => a.(eofVerified := true)
      case EofUnverified => a.(eofVerified := false)
      case _ => a.(send := d);
    var all := decisions + [d];
    assert |decisions| <= 3;
    assert all <= Lifecycle(a');
    assert all[|all| - 1] == d;
    assert NextPhase(d) in {CleanedUp, Suppressed} <==> all == Lifecycle(a');
  }

  /** The delegated session; dropping it cleans up unless that was already attempted or suppressed. */
  class Session {
    var cleanupAttempted: bool
    ghost var cleanups: nat

    constructor ()
      ensures !cleanupAttempted && cleanups == 0
    {
      cleanupAttempted, cleanups := false, 0;
    }

    method Cleanup()
      modifies this
      ensures cleanupAttempted && cleanups == old(cleanups) + 1
    {
      cleanupAttempted, cleanups := true, cleanups + 1;
    }

    method SuppressCleanupForRecovery()
      modifies this
      ensures cleanupAttempted && cleanups == old(cleanups)
    {
      cleanupAttempted := true;
    }

    method Drop()
      modifies this
      ensures cleanupAttempted && cleanups == old(cleanups) + (if old(cleanupAttempted) then 0 else 1)
    {
      if cleanupAttempted { return; }
      Cleanup();
    }
  }

  /**
   * The step sequence of `run`. The session is cleaned up exactly once if the last decision allows it and
   * never otherwise, its drop included; `peerClean` and `cleanupOk` are the remaining causes of failure.
   */
  method RunLifecycle(session: Session, a: Answers, peerClean: bool, cleanupOk: bool)
    returns (ok: bool, decisions: seq<Decision>)
    requires a.Valid() && !session.cleanupAttempted && session.cleanups == 0
    modifies session
    ensures decisions == Lifecycle(a)
    ensures session.cleanups == if NextPhase(decisions[|decisions| - 1]) == CleanedUp then 1 else 0
    ensures ok <==> decisions == [Configured, Ready, Sent, EofVerified] && peerClean && cleanupOk
  {
    ok, decisions := RunUntilDrop(session, a, peerClean, cleanupOk);
    session.Drop();
  }

  method RunUntilDrop(session: Session, a: Answers, peerClean: bool, cleanupOk: bool)
    returns (ok: bool, decisions: seq<Decision>)
    requires a.Valid() && !session.cleanupAttempted && session.cleanups == 0
    modifies session
    ensures decisions == Lifecycle(a) && session.cleanupAttempted
    ensures session.cleanups == if NextPhase(decisions[|decisions| - 1]) == CleanedUp then 1 else 0
    ensures ok <==> decisions == [Configured, Ready, Sent, EofVerified] && peerClean && cleanupOk
  {
    ok, decisions := false, [];
    if !a.configured {
      session.Cleanup();
      return false, decisions + [ConfigureFailed];
    }
    decisions := decisions + [Configured];
    if !a.ready {
      session.Cleanup();
      return false, decisions + [ReadyFailed];
    }
    decisions := decisions + [Ready];
    if a.send == SendFailed {
      session.Cleanup();
      return false, decisions + [SendFailed];
    }
    var initialFailure := a.send == SendUnclear;
    decisions := decisions + [a.send];
    if a.eofVerified {
      session.Cleanup();
      decisions := decisions + [EofVerified];
      ok := !initialFailure && peerClean && cleanupOk;
    } else {
      session.SuppressCleanupForRecovery();
      decisions := decisions + [EofUnverified];
    }
  }

  // ----- The coordinator's one-shot inheritance and its closing, as they run

  /** A move of one process: a local step, or taking the packet off the socket. */
  datatype Move = Do(action: Local) | TakePacket

  predicate MoveEnabled(p: Proc, m: Move) {
    match m
    case Do(a) => LocalEnabled(p, a)
    case TakePacket => p.stage == Inheriting && p.roots == 0
  }

  function Moved(p: Proc, m: Move): Proc
    requires MoveEnabled(p, m)
  {
    match m
    case Do(a) => LocalStep(p, a)
    case TakePacket => p.(roots := 1, pinned := false)
  }

  /** The moves lead from `p` to `q`, each of them enabled: they are steps of the system above. */
  predicate Leads(p: Proc, moves: seq<Move>, q: Proc)
    decreases |moves|
  {
    if moves == [] then p == q
    else MoveEnabled(p, moves[0]) && Leads(Moved(p, moves[0]), moves[1..], q)
  }

  lemma {:induction false} LeadsOneMore(p: Proc, moves: seq<Move>, q: Proc, m: Move)
    requires Leads(p, moves, q) && MoveEnabled(q, m)
    ensures Leads(p, moves + [m], Moved(q, m))
    decreases |moves|
  {
    if moves == [] {
      assert (moves + [m])[1..] == [];
    } else {
      assert (moves + [m])[1..] == moves[1..] + [m];
      LeadsOneMore(Moved(p, moves[0]), moves[1..], q, m);
    }
  }

  /** One process's descriptors, with the moves it has made since `origin`. */
  class Coordinator {
    var proc: Proc
    ghost var origin: Proc
    ghost var moves: seq<Move>

    ghost predicate Valid()
      reads this
    {
      Leads(origin, moves, proc) && ProcOk(proc)
    }

    constructor (p: Proc)
      requires ProcOk(p)
      ensures Valid() && proc == origin == p && moves == []
    {
      proc, origin, moves := p, p, [];
    }

    method Make(m: Move)
      requires Valid() && MoveEnabled(proc, m)
      modifies this
      ensures Valid() && origin == old(origin) && moves == old(moves) + [m] && proc == Moved(old(proc), m)
    {
      LeadsOneMore(origin, moves, proc, m);
      if m.Do? {
        LocalStepKeepsOrder(proc, m.action);
      }
      proc, moves := Moved(proc, m), moves + [m];
    }

    /** Closes what a failed inheritance still holds: every root, then the control socket. */
    method CleanUp()
      requires Valid() && proc.stage == Cleaning
      modifies this
      ensures Valid() && origin == old(origin) && proc == Proc(Running, NoControl, 0, false, old(proc.capability))
    {
      while proc.roots > 0
        invariant Valid() && origin == old(origin)
        invariant proc == old(proc).(roots := proc.roots)
        decreases proc.roots
      {
        Make(Do(CleanRoot));
      }
      Make(Do(CleanControl));
    }

    /**
     * The one-shot receive. Whichever of its seven stages fails, the process ends up holding nothing;
     * if none fails it holds the control socket and one root, inside an issued capability.
     */
    method Inherit(failing: set<nat>) returns (ok: bool)
      requires Valid() && proc == Proc(Running, Unclaimed, 0, false, false)
      modifies this
      ensures Valid() && origin == old(origin)
      ensures ok <==> failing !! {0, 1, 2, 3, 4, 5, 6}
      ensures proc == if ok then Proc(Running, Owned, 1, true, true) else Proc(Running, NoControl, 0, false, false)
    {
      hide Leads, ProcOk;
      if 0 in failing { // wrapping descriptor 4
        Make(Do(ClaimFails));
        return false;
      }
      Make(Do(Claim));
      if 1 in failing || 2 in failing { // the checks before the receive, or the receive itself
        Make(Do(Fail));
        CleanUp();
        return false;
      }
      Make(TakePacket);
      if 3 in failing { // the packet, its credentials, or the descriptor
        Make(Do(Fail));
        CleanUp();
        return false;
      }
      Make(Do(Pin));
      if 4 in failing { // after the backend has duplicated the root
        Make(Do(Fail));
        CleanUp();
        return false;
      }
      Make(Do(DropOriginal));
      if 5 in failing || 6 in failing { // the close of the original, or initialising the capability
        Make(Do(Fail));
        CleanUp();
        return false;
      }
      Make(Do(Issue));
      ok := true;
    }

    /** Revokes the capability: its root first, then its control socket. */
    method Close()
      requires Valid() && proc.stage == Running
      modifies this
      ensures Valid() && origin == old(origin)
      ensures proc == if old(proc.capability) then Proc(Running, NoControl, 0, false, false) else old(proc)
    {
      if !proc.capability { return; }
      Make(Do(StartClose));
      while proc.roots > 0
        invariant Valid() && origin == old(origin)
        invariant proc == old(proc).(stage := Closing, roots := proc.roots)
        decreases proc.roots
      {
        Make(Do(CloseRoot));
      }
      Make(Do(CloseControl));
    }
  }
}
