/** The lease on one cgroup leaf: its calls in any order, with any backend call failing. */
module CgroupLease {

  datatype State = Ready | AttachmentUncertain | Attached | Finalizing | Measured | TerminationRequested

  /** What the lease does to the leaf and reads from it. */
  datatype Event =
    | AuthorityChecked(ok: bool) // the issuing process, and the delegated root of a production lease
    | CpusetVerified(ok: bool)
    | ProcsWritten(pid: int)
    | MembershipConfirmed(pid: int)
    | PopulatedRead(populated: bool)
    | PeakRead(bytes: int)
    | PeakReturned(bytes: int)
    | KillWritten
    | RemovalTried

  /** The backend's answer to one call. */
  datatype Answer = Answer(ok: bool, populated: bool, members: set<int>, bytes: int)

  const MAX_SIGNED_64 := 0x7FFF_FFFF_FFFF_FFFF

  /** No process was placed, and nothing was measured or killed. */
  predicate Untouched(log: seq<Event>) {
    forall e | e in log :: !e.ProcsWritten? && !e.MembershipConfirmed? && !e.PeakReturned? && !e.KillWritten?
  }

  predicate NotKilled(log: seq<Event>) {
    KillWritten !in log
  }

  predicate NotMeasured(log: seq<Event>) {
    forall e | e in log :: !e.PeakReturned?
  }

  /** One process was placed and its membership was read back. */
  predicate ConfirmedIn(log: seq<Event>) {
    exists w, c | 0 <= w < c < |log| :: log[w].ProcsWritten? && log[c] == MembershipConfirmed(log[w].pid)
  }

  /** The process was placed right after authority was checked and the cpuset verified. */
  predicate ProperPlacement(log: seq<Event>, i: nat)
    requires i < |log|
  {
    && i >= 3 && log[i - 3] == AuthorityChecked(true) && log[i - 2] == AuthorityChecked(true)
    && log[i - 1] == CpusetVerified(true)
  }

  /**
   * The value returned at `i` was read between two unpopulated readings, with the cpuset verified under
   * authority before and after them, after a confirmed attach and before any kill.
   */
  predicate ProperMeasurement(log: seq<Event>, i: nat)
    requires i < |log| && log[i].PeakReturned?
  {
    && i >= 7 && 0 < log[i].bytes <= MAX_SIGNED_64
    && log[i - 7..i] == Capture(log[i].bytes)
    && ConfirmedIn(log[..i]) && NotKilled(log[..i])
  }

  function Capture(bytes: int): seq<Event> {
    [AuthorityChecked(true), CpusetVerified(true), PopulatedRead(false), PeakRead(bytes), PopulatedRead(false),
     AuthorityChecked(true), CpusetVerified(true)]
  }

  /**
   * What entitles the lease to the event at `i`: a kill comes right after authority was checked, a removal
   * right after the leaf was read as unpopulated.
   */
  predicate Justified(log: seq<Event>, i: nat)
    requires i < |log|
  {
    match log[i]
    case ProcsWritten(_) => ProperPlacement(log, i)
    case PeakReturned(_) => ProperMeasurement(log, i)
    case KillWritten => i > 0 && log[i - 1] == AuthorityChecked(true)
    case RemovalTried => i > 0 && log[i - 1] == PopulatedRead(false)
    case _ => true
  }

  /** What holds of everything a lease has done, whatever was called and whatever failed. */
  ghost predicate Safe(log: seq<Event>, production: bool) {
    && (forall i, j | 0 <= i < |log| && 0 <= j < |log| && log[i].ProcsWritten? && log[j].ProcsWritten? :: i == j)
    && (production ==> forall e | e in log :: !e.ProcsWritten?)
    && (forall i, j | 0 <= i < |log| && 0 <= j < |log| && log[i].PeakReturned? && log[j].PeakReturned? :: i == j)
    && (forall i | 0 <= i < |log| :: Justified(log, i))
  }

  /** Readings and checks, which do nothing to the leaf. */
  predicate Reads(e: Event) {
    e.AuthorityChecked? || e.CpusetVerified? || e.PopulatedRead? || e.PeakRead?
  }

  predicate OnlyReads(before: seq<Event>, after: seq<Event>) {
    before <= after && forall i | |before| <= i < |after| :: Reads(after[i])
  }

  /** No process can be attached any more, and no peak be returned, from these states. */
  predicate Spent(state: State) {
    state in {AttachmentUncertain, Finalizing, Measured, TerminationRequested}
  }

  /** All that a successful placement does. */
  function Placement(pid: int): seq<Event> {
    [AuthorityChecked(true), AuthorityChecked(true), CpusetVerified(true), ProcsWritten(pid), MembershipConfirmed(pid)]
  }

  predicate NothingMeasured(before: seq<Event>, after: seq<Event>) {
    before <= after && forall i | |before| <= i < |after| :: !after[i].PeakReturned?
  }

  predicate EndsUnpopulated(log: seq<Event>) {
    log != [] && log[|log| - 1] == PopulatedRead(false)
  }

  /** What each state says about the past. */
  predicate Remembers(state: State, log: seq<Event>) {
    match state
    case Ready => Untouched(log)
    case AttachmentUncertain => NotMeasured(log) && NotKilled(log)
    case Attached => NotMeasured(log) && NotKilled(log) && ConfirmedIn(log)
    case Finalizing => NotMeasured(log) && NotKilled(log) && ConfirmedIn(log)
    case Measured => NotKilled(log)
    case TerminationRequested => true
  }

  lemma ConfirmedLater(log: seq<Event>, more: seq<Event>)
    requires ConfirmedIn(log)
    ensures ConfirmedIn(log + more)
  {
    var w, c :| 0 <= w < c < |log| && log[w].ProcsWritten? && log[c] == MembershipConfirmed(log[w].pid);
    assert (log + more)[w] == log[w] && (log + more)[c] == log[c];
  }

  /** An event that places, measures and kills nothing changes nothing that matters. */
  lemma HarmlessEvent(state: State, log: seq<Event>, production: bool, e: Event)
    requires Safe(log, production) && Remembers(state, log)
    requires Reads(e) || (e.RemovalTried? && EndsUnpopulated(log))
    ensures Safe(log + [e], production) && Remembers(state, log + [e])
  {
    SafeSnoc(log, production, e);
    if state.Attached? || state.Finalizing? {
      ConfirmedLater(log, [e]);
    }
  }

  /** Appending an event that is justified, and no second placement or measurement, keeps the log safe. */
  lemma SafeSnoc(log: seq<Event>, production: bool, e: Event)
    requires Safe(log, production) && Justified(log + [e], |log|)
    requires e.ProcsWritten? ==> !production && forall x | x in log :: !x.ProcsWritten?
    requires e.PeakReturned? ==> NotMeasured(log)
    ensures Safe(log + [e], production)
  {
    hide Justified;
    var all := log + [e];
    assert forall i | 0 <= i < |log| :: all[i] == log[i] && all[i] in log;
    forall i | 0 <= i < |all|
      ensures Justified(all, i)
    {
      if i < |log| {
        StaysJustified(log, e, i);
      }
    }
  }

  lemma StaysJustified(log: seq<Event>, e: Event, i: nat)
    requires i < |log| && Justified(log, i)
    ensures Justified(log + [e], i)
  {
    hide ConfirmedIn, NotKilled;
    assert (log + [e])[..i] == log[..i];
    assert i >= 7 ==> (log + [e])[i - 7..i] == log[i - 7..i];
  }

  lemma Measurement(log: seq<Event>, production: bool, bytes: int)
    requires Safe(log, production) && NotMeasured(log) && NotKilled(log) && ConfirmedIn(log) && 0 < bytes <= MAX_SIGNED_64
    requires |log| >= 7 && log[|log| - 7..] == Capture(bytes)
    ensures Safe(log + [PeakReturned(bytes)], production) && NotKilled(log + [PeakReturned(bytes)])
  {
    hide Safe, ConfirmedIn, Capture;
    var n, all := |log|, log + [PeakReturned(bytes)];
    assert all[..n] == log && all[n - 7..n] == log[n - 7..];
    assert ProperMeasurement(all, n);
    SafeSnoc(log, production, PeakReturned(bytes));
  }

  lemma CaptureAtEnd(before: seq<Event>, log: seq<Event>, bytes: int)
    requires |before| >= 2 && before[|before| - 2..] == [AuthorityChecked(true), CpusetVerified(true)]
    requires log == before + [PopulatedRead(false)] + [PeakRead(bytes)] + [PopulatedRead(false)]
                    + [AuthorityChecked(true), CpusetVerified(true)]
    ensures |log| >= 7 && log[|log| - 7..] == Capture(bytes)
  {
    assert log == before[..|before| - 2] + Capture(bytes);
  }

  /** The first thing read is whether the leaf is populated; if it was, the kill came next; the removal came last. */
  predicate CleanedUp(before: seq<Event>, after: seq<Event>) {
    && before <= after && |before| + 4 < |after| && after[|before|] == AuthorityChecked(true)
    && after[|before| + 1].PopulatedRead?
    && (after[|before| + 1].populated ==> after[|before| + 2] == AuthorityChecked(true) && after[|before| + 3] == KillWritten)
    && after[|after| - 2] == PopulatedRead(false) && after[|after| - 1] == RemovalTried
  }

  datatype Call = AttachCall(pid: int) | VerifyCall | PeakCall | AwaitCall | KillCall | CleanupCall

  /** From `start` on the environment agrees to everything, and reports the leaf empty. */
  ghost predicate Agreeable(answers: nat -> Answer, start: nat) {
    forall t | t >= start :: answers(t).ok && !answers(t).populated
  }

  /** The next `n` answers are all given. */
  predicate AllOk(answers: nat -> Answer, start: nat, n: nat)
    decreases n
  {
    n == 0 || (answers(start).ok && AllOk(answers, start + 1, n - 1))
  }

  lemma SixOk(answers: nat -> Answer, t: nat)
    ensures AllOk(answers, t, 6) <==>
              && answers(t).ok && answers(t + 1).ok && answers(t + 2).ok
              && answers(t + 3).ok && answers(t + 4).ok && answers(t + 5).ok
  {
    assert AllOk(answers, t, 6) == (answers(t).ok && AllOk(answers, t + 1, 5));
    assert AllOk(answers, t + 1, 5) == (answers(t + 1).ok && answers(t + 2).ok && AllOk(answers, t + 3, 3));
    assert AllOk(answers, t + 3, 3) == (answers(t + 3).ok && answers(t + 4).ok && answers(t + 5).ok);
  }

  ghost predicate PeaksInRange(answers: nat -> Answer) {
    forall t :: 0 < answers(t).bytes <= MAX_SIGNED_64
  }

  class Lease {
    const production: bool
    const answers: nat -> Answer
    var clock: nat
    var state: State
    var closed: bool
    ghost var log: seq<Event>

    ghost predicate Valid()
      reads this
    {
      Safe(log, production) && Remembers(state, log)
    }

    constructor (production: bool, answers: nat -> Answer)
      ensures Valid() && state == Ready && !closed && log == []
      ensures this.production == production && this.answers == answers && clock == 0
    {
      this.production, this.answers := production, answers;
      clock, state, closed, log := 0, Ready, false, [];
    }

    method Ask() returns (a: Answer)
      modifies this`clock
      ensures a == answers(old(clock)) && clock == old(clock) + 1
    {
      a := answers(clock);
      clock := clock + 1;
    }

    /** Whether the calling process issued the lease and the delegated root still authorises it. */
    method Authorised() returns (ok: bool)
      requires Valid()
      modifies this`clock, this`log
      ensures Valid() && log == old(log) + [AuthorityChecked(ok)]
      ensures ok == answers(old(clock)).ok && clock == old(clock) + 1
    {
      var a := Ask();
      ok := a.ok;
      HarmlessEvent(state, log, production, AuthorityChecked(ok));
      log := log + [AuthorityChecked(ok)];
    }

    method IsPopulated() returns (ok: bool, populated: bool)
      requires Valid()
      modifies this`clock, this`log
      ensures Valid()
      ensures log == if ok then old(log) + [PopulatedRead(populated)] else old(log)
      ensures (ok, populated) == (answers(old(clock)).ok, answers(old(clock)).populated) && clock == old(clock) + 1
    {
      var a := Ask();
      ok, populated := a.ok, a.populated;
      if ok {
        HarmlessEvent(state, log, production, PopulatedRead(populated));
        log := log + [PopulatedRead(populated)];
      }
    }

    /** Under authority, both effective sets are read and compared. */
    method VerifyEffectiveCpuset() returns (ok: bool)
      requires Valid()
      modifies this`clock, this`log
      ensures Valid() && OnlyReads(old(log), log) && old(clock) <= clock
      ensures old(closed) ==> !ok && log == old(log)
      ensures ok <==> !closed && answers(old(clock)).ok && answers(old(clock) + 1).ok && answers(old(clock) + 2).ok
      ensures ok ==> log == old(log) + [AuthorityChecked(true), CpusetVerified(true)] && clock == old(clock) + 3
    {
      hide Safe, Remembers;
      if closed { return false; }
      ok := Authorised();
      if !ok { return; }
      var cpus := Ask();
      ok := cpus.ok;
      if ok {
        var mems := Ask();
        ok := mems.ok;
      }
      HarmlessEvent(state, log, production, CpusetVerified(ok));
      log := log + [CpusetVerified(ok)];
    }

    /**
     * At most one process is ever placed, under authority and in the verified cpuset; it counts as attached
     * only once its membership was read back, and then it does.
     */
    method AttachProcess(pid: int) returns (ok: bool)
      requires Valid()
      modifies this
      ensures Valid() && closed == old(closed) && NothingMeasured(old(log), log)
      ensures Spent(old(state)) ==> state == old(state)
      ensures old(closed) || production ==> log == old(log)
      ensures old(closed) || production || pid <= 0 || old(state) != Ready ==>
                !ok && state == old(state) && OnlyReads(old(log), log)
      ensures ok ==> state == Attached && log == old(log) + Placement(pid)
      ensures ok <==> && !old(closed) && !production && pid > 0 && old(state) == Ready
                      && AllOk(answers, old(clock), 6)
                      && pid in answers(old(clock) + 5).members
    {
      hide Safe, Remembers;
      SixOk(answers, clock);
      hide AllOk;
      ok := false;
      if closed || production { return; }
      var authorised := Authorised();
      if !authorised || pid <= 0 || state != Ready { return; }
      var verified := VerifyEffectiveCpuset();
      if !verified { return; }
      ok := PlaceVerified(pid);
    }

    method PlaceVerified(pid: int) returns (ok: bool)
      requires Valid() && !production && state == Ready
      requires |log| >= 3 && log[|log| - 3..] == [AuthorityChecked(true), AuthorityChecked(true), CpusetVerified(true)]
      modifies this
      ensures Valid() && closed == old(closed) && NothingMeasured(old(log), log)
      ensures ok ==> state == Attached && log == old(log) + [ProcsWritten(pid), MembershipConfirmed(pid)]
      ensures ok <==> answers(old(clock)).ok && answers(old(clock) + 1).ok && pid in answers(old(clock) + 1).members
    {
      hide Safe, ConfirmedIn;
      ok := false;
      assert forall e | e in log :: !e.ProcsWritten?;
      state := AttachmentUncertain;
      var placed := Place(pid);
      if !placed { return; }
      var readback := Ask();
      if !readback.ok || pid !in readback.members { return; }
      Confirm(pid);
      state, ok := Attached, true;
    }

    /** The write to the control file. It counts even if it fails: its effect is then unknown. */
    method Place(pid: int) returns (ok: bool)
      requires Valid() && !production && state == AttachmentUncertain && forall e | e in log :: !e.ProcsWritten?
      requires |log| >= 3 && log[|log| - 3..] == [AuthorityChecked(true), AuthorityChecked(true), CpusetVerified(true)]
      modifies this`clock, this`log
      ensures Valid() && log == old(log) + [ProcsWritten(pid)]
      ensures ok == answers(old(clock)).ok && clock == old(clock) + 1
    {
      var written := Ask();
      var n := |log|;
      assert log[n - 3] == log[n - 3..][0] && log[n - 2] == log[n - 3..][1] && log[n - 1] == log[n - 3..][2];
      SafeSnoc(log, production, ProcsWritten(pid));
      log := log + [ProcsWritten(pid)];
      ok := written.ok;
    }

    ghost method Confirm(pid: int)
      requires Valid() && state == AttachmentUncertain && log != [] && log[|log| - 1] == ProcsWritten(pid)
      modifies this`log
      ensures Safe(log, production) && Remembers(AttachmentUncertain, log) && Remembers(Attached, log)
      ensures log == old(log) + [MembershipConfirmed(pid)]
    {
      SafeSnoc(log, production, MembershipConfirmed(pid));
      log := log + [MembershipConfirmed(pid)];
      assert log[|log| - 2] == ProcsWritten(pid) && log[|log| - 1] == MembershipConfirmed(pid);
    }

    /** Polls until the leaf is unpopulated or the deadline, which comes after at most `polls` readings. */
    method AwaitUnpopulated(polls: nat) returns (ok: bool)
      requires Valid()
      modifies this`clock, this`log
      ensures Valid() && OnlyReads(old(log), log) && old(clock) <= clock && (old(closed) ==> log == old(log) && !ok)
      ensures ok ==> |old(log)| + 2 <= |log| && EndsUnpopulated(log)
      ensures !closed && Agreeable(answers, old(clock)) ==> ok
    {
      hide Safe, Remembers;
      if closed { return false; }
      ok := Authorised();
      if !ok { return; }
      var left, populated := polls, false;
      ok, populated := IsPopulated();
      while ok && populated
        invariant Valid() && OnlyReads(old(log), log) && old(clock) <= clock
        invariant ok ==> |old(log)| + 2 <= |log| && log[|log| - 1] == PopulatedRead(populated)
        invariant Agreeable(answers, old(clock)) ==> ok && !populated
        decreases left, ok
      {
        var now := Ask();
        if !now.ok || left == 0 { return false; }
        var slept := Ask();
        if !slept.ok { return false; }
        left := left - 1;
        ok, populated := IsPopulated();
      }
    }

    /**
     * The peak, once: only from the attached state, and only between two unpopulated readings. A call that is
     * not authorised only checks; any later failure leaves the lease in a state that returns no peak. In an
     * agreeable environment that reports a positive peak, it is returned.
     */
    method ReadMemoryPeakBytes(polls: nat) returns (ok: bool, bytes: int)
      requires Valid()
      modifies this
      ensures Valid() && old(log) <= log && closed == old(closed)
      ensures old(closed) ==> log == old(log)
      ensures old(closed) || old(state) != Attached ==> !ok && OnlyReads(old(log), log) && state == old(state)
      ensures ok ==> state == Measured && |log| >= 1 && log[|log| - 1] == PeakReturned(bytes)
      ensures !ok ==> OnlyReads(old(log), log)
      ensures !ok ==> state == Finalizing || state == old(state)
      ensures !old(closed) && old(state) == Attached && Agreeable(answers, old(clock)) && PeaksInRange(answers) ==> ok
    {
      hide Safe, ConfirmedIn, NotKilled, ProperMeasurement, NotMeasured;
      ok, bytes := false, 0;
      if closed { return; }
      var authorised := Authorised();
      if !authorised || state != Attached { return; }
      state := Finalizing;
      var calm := AwaitUnpopulated(polls);
      if !calm { return; }
      var verified := VerifyEffectiveCpuset();
      if !verified { return; }
      ok, bytes := CapturePeak();
    }

    method CapturePeak() returns (ok: bool, bytes: int)
      requires Valid() && state == Finalizing && !closed
      requires |log| >= 2 && log[|log| - 2..] == [AuthorityChecked(true), CpusetVerified(true)]
      modifies this
      ensures Valid() && old(log) <= log && closed == old(closed)
      ensures ok ==> state == Measured && |log| >= 1 && log[|log| - 1] == PeakReturned(bytes)
      ensures !ok ==> OnlyReads(old(log), log) && state == Finalizing
      ensures Agreeable(answers, old(clock)) && PeaksInRange(answers) ==> ok
    {
      hide Safe, ConfirmedIn, NotKilled, ProperMeasurement, NotMeasured;
      ok, bytes := false, 0;
      ghost var before := log;
      var read, populated := IsPopulated();
      if !read || populated { return; }
      var peak := Ask();
      if !peak.ok { return; }
      HarmlessEvent(state, log, production, PeakRead(peak.bytes));
      log := log + [PeakRead(peak.bytes)];
      read, populated := IsPopulated();
      if !read || populated { return; }
      var verified := VerifyEffectiveCpuset();
      if !verified || peak.bytes <= 0 || peak.bytes > MAX_SIGNED_64 { return; }
      CaptureAtEnd(before, log, peak.bytes);
      Measurement(log, production, peak.bytes);
      log := log + [PeakReturned(peak.bytes)];
      state, ok, bytes := Measured, true, peak.bytes;
    }

    /** The state changes before the write, so that nothing can be measured after it. */
    method Kill() returns (ok: bool)
      requires Valid()
      modifies this`clock, this`log, this`state
      ensures Valid() && old(log) <= log && old(clock) <= clock
      ensures old(closed) ==> !ok && log == old(log) && state == old(state)
      ensures !old(closed) ==>
                if answers(old(clock)).ok
                then state == TerminationRequested && log == old(log) + [AuthorityChecked(true), KillWritten]
                else state == old(state) && log == old(log) + [AuthorityChecked(false)]
      ensures ok <==> !old(closed) && answers(old(clock)).ok && answers(old(clock) + 1).ok
    {
      if closed { return false; }
      ok := Authorised();
      if !ok { return; }
      state := TerminationRequested;
      var written := Ask();
      SafeSnoc(log, production, KillWritten);
      log := log + [KillWritten];
      ok := written.ok;
    }

    /**
     * Reads whether the leaf is populated, kills what is in it, waits until it is empty, and removes it. The
     * lease closes only if all of that succeeds, and does if the environment agrees.
     */
    method Cleanup(polls: nat) returns (ok: bool)
      requires Valid()
      modifies this
      ensures Valid() && NothingMeasured(old(log), log)
      ensures old(closed) ==> closed && log == old(log) && state == old(state)
      ensures !old(closed) ==> (ok <==> closed)
      ensures closed && !old(closed) ==> CleanedUp(old(log), log)
      ensures state in {old(state), TerminationRequested}
      ensures !old(closed) && Agreeable(answers, old(clock)) ==> closed
    {
      hide Safe, Remembers;
      if closed {
        var same := Ask();
        return same.ok;
      }
      ghost var before := log;
      ok := Empty(polls);
      if !ok { return; }
      ghost var emptied := log;
      HarmlessEvent(state, log, production, RemovalTried);
      log := log + [RemovalTried];
      var removed := Ask();
      if !removed.ok { return false; }
      closed, ok := true, true;
    }

    /** Kills what is in the leaf, if anything is, and waits until nothing is. */
    method Empty(polls: nat) returns (ok: bool)
      requires Valid() && !closed
      modifies this`clock, this`log, this`state
      ensures Valid() && NothingMeasured(old(log), log) && old(clock) <= clock
      ensures forall i | |old(log)| <= i < |log| :: !log[i].RemovalTried?
      ensures state in {old(state), TerminationRequested}
      ensures ok ==> CleanedUp(old(log), log + [RemovalTried]) && EndsUnpopulated(log)
      ensures Agreeable(answers, old(clock)) ==> ok
    {
      hide Safe, Remembers;
      ok := Authorised();
      if !ok { return; }
      var read, populated := IsPopulated();
      if !read { return false; }
      if populated {
        var killed := Kill();
        if !killed { return false; }
      }
      ghost var killed := log;
      ok := AwaitUnpopulated(polls);
      assert killed <= log;
    }

    /** Any calls in any order. The log stays safe, and nothing at all happens after the lease is closed. */
    method Drive(calls: seq<Call>, polls: nat)
      requires Valid()
      modifies this
      ensures Valid() && old(log) <= log
      ensures old(closed) ==> closed && log == old(log) && state == old(state)
      ensures Spent(old(state)) ==> Spent(state) && NothingMeasured(old(log), log)
    {
      for i := 0 to |calls|
        invariant Valid() && old(log) <= log
        invariant old(closed) ==> closed && log == old(log) && state == old(state)
        invariant Spent(old(state)) ==> Spent(state) && NothingMeasured(old(log), log)
      {
        var ok, bytes;
        match calls[i]
        case AttachCall(pid) => ok := AttachProcess(pid);
        case VerifyCall => ok := VerifyEffectiveCpuset();
        case PeakCall => ok, bytes := ReadMemoryPeakBytes(polls);
        case AwaitCall => ok := AwaitUnpopulated(polls);
        case KillCall => ok := Kill();
        case CleanupCall => ok := Cleanup(polls);
      }
    }
  }
}
