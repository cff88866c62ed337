/** The driver's code for the job pipeline: each method is a run of the step system. */
module PipelineExec {
  import opened Bytes
  import opened Pipeline
  import opened PipelineRuns

  /** One thing that can happen between two polls of a waiting task. */
  datatype Tick = BinEnds | RenderEnds | ServiceTaskWakes

  // ---- What the polling loops do, as a function of the ticks ----

  /** The events a tick stands for: one, if it is possible now. */
  function TickEvents(s: State, t: Tick): seq<Event> {
    match t
    case BinEnds => if s.ct0.Some? then [BinDone] else []
    case RenderEnds => if s.ct1.Some? && s.sem > 0 then [RenderDone] else []
    case ServiceTaskWakes => [Service]
  }

  function Ticked(s: State, t: Tick): State {
    match t
    case BinEnds => if s.ct0.Some? then BinEnded(s) else s
    case RenderEnds => if s.ct1.Some? && s.sem > 0 then RenderEnded(s) else s
    case ServiceTaskWakes => Serviced(s)
  }

  /** The state after polling once for each tick. */
  function Polled(s: State, ticks: seq<Tick>): State {
    if ticks == [] then s
    else Advanced(Serviced(Ticked(Polled(s, ticks[..|ticks| - 1]), ticks[|ticks| - 1])))
  }

  function PollEvents(s: State, ticks: seq<Tick>): seq<Event> {
    if ticks == [] then []
    else
      var front := ticks[..|ticks| - 1];
      PollEvents(s, front) + (TickEvents(Polled(s, front), ticks[|ticks| - 1]) + [Service, Advance])
  }

  lemma PolledSnoc(s: State, ticks: seq<Tick>, i: nat)
    requires i < |ticks|
    ensures Polled(s, ticks[..i + 1]) == Advanced(Serviced(Ticked(Polled(s, ticks[..i]), ticks[i])))
    ensures PollEvents(s, ticks[..i + 1])
         == PollEvents(s, ticks[..i]) + (TickEvents(Polled(s, ticks[..i]), ticks[i]) + [Service, Advance])
  {
    hide Advanced, Serviced, Ticked, TickEvents;
    assert ticks[..i + 1][..i] == ticks[..i];
  }

  /** Polling resets nothing. */
  lemma {:induction false} NoResets(s: State, ticks: seq<Tick>)
    ensures forall e <- PollEvents(s, ticks) :: !e.Reset?
  {
    hide Advanced, Serviced, Ticked;
    if ticks != [] {
      NoResets(s, ticks[..|ticks| - 1]);
    }
  }

  lemma NoPolls(s: State, ticks: seq<Tick>)
    ensures Polled(s, ticks[..0]) == s && PollEvents(s, ticks[..0]) == []
  {
  }

  /** The drain loop has something to wait for. */
  predicate Busy(s: State) {
    s.ct0.Some? || s.pending.Some?
  }

  /** The unlocked part of a submission, with a tick before and one after the binner is started. */
  function HandoverEvents(s: State, between: Tick, after: Tick): seq<Event>
  {
    var s1 := Ticked(JobStashed(s), between);
    [Stash] + TickEvents(JobStashed(s), between) + [Start] + TickEvents(BinnerStarted(s1), after) + [Service] + [Tag]
  }

  lemma RunSnoc(s: State, es: seq<Event>, e: Event)
    requires Run(s, es).Some? && Enabled(Run(s, es).value, e)
    ensures Run(s, es + [e]) == Some(Next(Run(s, es).value, e))
  {
    hide Next, Enabled;
    RunAppend(s, es, [e]);
    RunIf(Run(s, es).value, true, e);
  }

  datatype Regs = Regs(ct0: Option<nat>, ct1: Option<nat>, sem: nat, fldone: bool, frdone: bool, bfc: byte, rfc: byte)

  datatype Past = Past(binned: nat, retired: nat, kicks: seq<Kick>, stale: bool, owners: seq<nat>)

  class V3d {
    // driver state
    var seqno: nat
    var pendingRender: bool
    var pendingCt1: nat
    var finishedSeqno: nat
    var bfcCompleted: nat
    var rfcCompleted: nat
    var lastBfc: byte
    var lastRfc: byte
    var pools: seq<nat>
    var poolIdx: nat
    // the register file, and what the history remembers
    var regs: Regs
    ghost var phase: Phase
    ghost var past: Past

    ghost function Abs(): State
      reads this
    {
      State(seqno, if pendingRender then Some(pendingCt1) else None, finishedSeqno,
            bfcCompleted, rfcCompleted, lastBfc, lastRfc, pools, poolIdx, phase,
            regs.ct0, regs.ct1, regs.sem, regs.fldone, regs.frdone, regs.bfc, regs.rfc,
            past.binned, past.retired, past.kicks, past.stale, past.owners)
    }

    constructor (bfc: byte, rfc: byte)
      ensures Abs() == Initial(bfc, rfc)
    {
      seqno, pendingRender, pendingCt1, finishedSeqno, bfcCompleted, rfcCompleted := 0, false, 0, 0, 0, 0;
      lastBfc, lastRfc, pools, poolIdx := bfc, rfc, [0, 0, 0], 0;
      regs := Regs(None, None, 0, false, false, bfc, rfc);
      phase, past := Quiet, Past(0, 0, [], false, []);
    }

    /** The register writes that start CT1; the hardware ignores them while CT1 runs. */
    method WriteCt1(job: nat)
      requires regs.ct1.None?
      modifies this`regs, this`past
      ensures regs == old(regs).(ct1 := Some(job))
      ensures past == old(past).(kicks := old(past.kicks) + [Kick(job, past.binned >= job, past.stale)])
    {
      regs := regs.(ct1 := Some(job));
      past := past.(kicks := past.kicks + [Kick(job, past.binned >= job, past.stale)]);
    }

    method KickPendingRender()
      modifies this`pendingRender, this`regs, this`past
      ensures Abs() == Kicked(old(Abs()))
    {
      if !pendingRender {
        return;
      }
      if regs.ct1.Some? {
        return;
      }
      pendingRender := false;
      WriteCt1(pendingCt1);
    }

    method ServiceInterrupts()
      modifies this
      ensures Abs() == Serviced(old(Abs()))
    {
      var ints := regs;
      if ints.fldone {
        KickPendingRender();
      }
      regs := regs.(fldone := regs.fldone && !ints.fldone, frdone := regs.frdone && !ints.frdone);
      past := past.(stale := false);
    }

    method SampleCounters()
      modifies this`bfcCompleted, this`rfcCompleted, this`lastBfc, this`lastRfc
      ensures Abs() == Sampled(old(Abs()))
    {
      bfcCompleted := bfcCompleted + (regs.bfc - lastBfc) % 0x100;
      rfcCompleted := rfcCompleted + (regs.rfc - lastRfc) % 0x100;
      lastBfc, lastRfc := regs.bfc, regs.rfc;
    }

    method AdvanceCounters()
      modifies this
      ensures Abs() == Advanced(old(Abs()))
    {
      hide Kicked, Sampled, Counted;
      KickedNothing(Abs());
      SampleCounters();
      ghost var c := Abs();
      KickedNothing(c);
      if pendingRender && bfcCompleted >= seqno {
        KickPendingRender();
      }
      assert Abs() == if c.bfcCompleted >= c.seqno then Kicked(c) else c;
      CountFinished();
    }

    method CountFinished()
      modifies this`bfcCompleted, this`rfcCompleted, this`finishedSeqno
      ensures Abs() == Counted(old(Abs()))
    {
      if rfcCompleted < seqno && !pendingRender && regs.rfc == seqno % 0x100 && regs.ct0.None? && regs.ct1.None? {
        bfcCompleted, rfcCompleted := seqno, seqno;
      }
      var done := rfcCompleted;
      if done > seqno {
        done := seqno;
      }
      finishedSeqno := done;
    }

    method EndBin()
      requires regs.ct0.Some?
      modifies this`regs, this`past
      ensures Abs() == BinEnded(old(Abs()))
    {
      regs := regs.(ct0 := None, sem := regs.sem + 1, fldone := true, bfc := (regs.bfc + 1) % 0x100);
      past := past.(binned := past.binned + 1);
    }

    method EndRender()
      requires regs.ct1.Some? && regs.sem > 0
      modifies this`regs, this`past
      ensures Abs() == RenderEnded(old(Abs()))
    {
      regs := regs.(ct1 := None, sem := regs.sem - 1, frdone := true, rfc := (regs.rfc + 1) % 0x100);
      past := past.(retired := past.retired + 1);
    }

    /** The environment: one tick, if it is possible now. */
    method Environment(t: Tick) returns (ghost run: seq<Event>)
      requires Inv(Abs())
      modifies this
      ensures Run(old(Abs()), run) == Some(Abs()) && Inv(Abs()) && phase == old(phase) && seqno == old(seqno)
      ensures run == TickEvents(old(Abs()), t) && Abs() == Ticked(old(Abs()), t)
    {
      hide Inv, Run, Next, Serviced, BinEnded, RenderEnded;
      ghost var s := Abs();
      if t.BinEnds? && regs.ct0.Some? {
        EndBin();
        EnvironmentFrame(s, BinDone);
        run := [BinDone];
      } else if t.RenderEnds? && regs.ct1.Some? && regs.sem > 0 {
        EndRender();
        EnvironmentFrame(s, RenderDone);
        run := [RenderDone];
      } else if t.ServiceTaskWakes? {
        ServiceInterrupts();
        EnvironmentFrame(s, Service);
        run := [Service];
      } else {
        RunIf(s, false, Service);
        run := [];
      }
    }

    /** One round of the polling loops: the environment moves, then the task services and samples. */
    method Poll(t: Tick) returns (ghost run: seq<Event>)
      requires Inv(Abs()) && (phase.Quiet? || phase.Writing?)
      modifies this
      ensures Run(old(Abs()), run) == Some(Abs()) && Inv(Abs()) && phase == old(phase) && seqno == old(seqno)
      ensures finishedSeqno == past.retired
      ensures run == TickEvents(old(Abs()), t) + [Service, Advance]
      ensures Abs() == Advanced(Serviced(Ticked(old(Abs()), t)))
    {
      hide Inv, Run, Serviced, Advanced, Ticked, TickEvents;
      ghost var s := Abs();
      run := Environment(t);
      ghost var s1 := Abs();
      ServiceInterrupts();
      StepKeeps(s1, Service);
      RunSnoc(s, run, Service);
      ghost var s2 := Abs();
      ServiceFrame(s1);
      AdvanceCounters();
      AdvanceKeeps(s2);
      RunSnoc(s, run + [Service], Advance);
      assert run + [Service] + [Advance] == run + [Service, Advance];
      AdvanceFrame(s2);
      run := run + [Service, Advance];
    }

    /** The timeout branch of v3d_wait_seqno. */
    method AbortJobs(newBfc: byte, newRfc: byte)
      modifies this
      ensures Abs() == JobsReset(old(Abs()), newBfc, newRfc)
    {
      regs := regs.(ct0 := None, ct1 := None, sem := 0, bfc := newBfc, rfc := newRfc);
      pendingRender, finishedSeqno := false, seqno;
      lastBfc, lastRfc, bfcCompleted, rfcCompleted := regs.bfc, regs.rfc, seqno, seqno;
      past := past.(binned := seqno, retired := seqno);
    }

    /**
     * v3d_wait_seqno: polls once a tick until the job has finished, and resets
     * everything when the ticks are used up and it has not. The run is exactly that.
     */
    method WaitSeqno(want: nat, ticks: seq<Tick>, newBfc: byte, newRfc: byte)
      returns (ok: bool, ghost run: seq<Event>, ghost polls: nat)
      requires Inv(Abs()) && phase.Quiet?
      modifies this
      ensures Run(old(Abs()), run) == Some(Abs()) && Inv(Abs()) && phase.Quiet? && seqno == old(seqno)
      ensures finishedSeqno <= past.retired && (ok ==> want <= finishedSeqno)
      ensures !ok ==> finishedSeqno == seqno && regs.ct0.None? && regs.ct1.None? && !pendingRender
      ensures polls <= |ticks| && forall i :: 0 <= i < polls ==> Polled(old(Abs()), ticks[..i]).finished < want
      ensures ok <==> Polled(old(Abs()), ticks[..polls]).finished >= want
      ensures ok ==> run == PollEvents(old(Abs()), ticks[..polls]) && Abs() == Polled(old(Abs()), ticks[..polls])
      ensures !ok ==> polls == |ticks| && run == PollEvents(old(Abs()), ticks) + [Reset(newBfc, newRfc)]
      ensures !ok ==> Abs() == JobsReset(Polled(old(Abs()), ticks), newBfc, newRfc)
    {
      hide Inv, Run, Polled, PollEvents, Ticked, TickEvents, Advanced, Serviced;
      ghost var s := Abs();
      RunIf(s, false, Service);
      NoPolls(s, ticks);
      run := [];
      var i := 0;
      while finishedSeqno < want
        invariant 0 <= i <= |ticks| && Run(s, run) == Some(Abs()) && Inv(Abs()) && phase.Quiet? && seqno == old(seqno)
        invariant run == PollEvents(s, ticks[..i]) && Abs() == Polled(s, ticks[..i])
        invariant forall j :: 0 <= j < i ==> Polled(s, ticks[..j]).finished < want
        decreases |ticks| - i
      {
        if i == |ticks| {
          assert ticks[..i] == ticks;
          RunSnoc(s, run, Reset(newBfc, newRfc));
          StepKeeps(Abs(), Reset(newBfc, newRfc));
          AbortJobs(newBfc, newRfc);
          run := run + [Reset(newBfc, newRfc)];
          return false, run, i;
        }
        PolledSnoc(s, ticks, i);
        ghost var more := Poll(ticks[i]);
        RunAppend(s, run, more);
        run, i := run + more, i + 1;
      }
      FinishedRetired(Abs());
      ok, polls := true, i;
    }

    /**
     * do_submit_cl before its drain loop: wait until the pool set about to be
     * written is free. It polls only while it is not, and resets only when the
     * ticks are used up.
     */
    method ClaimPoolSet(ticks: seq<Tick>, newBfc: byte, newRfc: byte) returns (ghost run: seq<Event>, ghost polls: nat)
      requires Inv(Abs()) && phase.Quiet?
      modifies this
      ensures Run(old(Abs()), run) == Some(Abs()) && Inv(Abs()) && phase.Writing? && seqno == old(seqno)
      ensures old(poolIdx < |pools|) && polls <= |ticks|
      ensures forall i :: 0 <= i < polls ==> Polled(old(Abs()), ticks[..i]).finished < old(pools[poolIdx])
      ensures run == if Polled(old(Abs()), ticks[..polls]).finished >= old(pools[poolIdx])
                     then PollEvents(old(Abs()), ticks[..polls]) + [Begin]
                     else PollEvents(old(Abs()), ticks) + [Reset(newBfc, newRfc)] + [Begin]
    {
      hide Inv, Run, Polled, PollEvents;
      ghost var s := Abs();
      RunIf(s, false, Service);
      NoPolls(s, ticks);
      run, polls := [], 0;
      PoolTags(Abs());
      if pools[poolIdx] > finishedSeqno {
        var waited;
        waited, run, polls := WaitSeqno(pools[poolIdx], ticks, newBfc, newRfc);
        SamePools(s, run);
      }
      RunSnoc(s, run, Begin);
      StepKeeps(Abs(), Begin);
      phase := Writing;
      run := run + [Begin];
    }

    /**
     * The rest of do_submit_cl once the buffers are written: drain, stash the
     * render list, start the binner, poll once, assign the sequence number.
     * The ticks say what happens during the drain; it polls only while something
     * is running or pending, and gives up only when they are used up.
     */
    method StartJob(ticks: seq<Tick>, between: Tick, after: Tick)
      returns (drained: bool, ghost run: seq<Event>, ghost polls: nat)
      requires Inv(Abs()) && phase.Writing?
      modifies this
      ensures Run(old(Abs()), run) == Some(Abs()) && Inv(Abs())
      ensures if drained then phase.Quiet? && seqno == old(seqno) + 1 && Owner(Abs(), seqno) == old(poolIdx)
              else phase.Writing? && seqno == old(seqno)
      ensures polls <= |ticks| && forall i :: 0 <= i < polls ==> Busy(Polled(old(Abs()), ticks[..i]))
      ensures drained <==> !Busy(Polled(old(Abs()), ticks[..polls]))
      ensures !drained ==> polls == |ticks| && run == PollEvents(old(Abs()), ticks)
      ensures drained ==> run == PollEvents(old(Abs()), ticks[..polls])
                               + HandoverEvents(Polled(old(Abs()), ticks[..polls]), between, after)
    {
      hide Inv, Run, Next, Serviced, Polled, PollEvents, HandoverEvents, TickEvents, Ticked, Advanced;
      ghost var s := Abs();
      RunIf(s, false, Service);
      NoPolls(s, ticks);
      run := [];
      var i := 0;
      while (regs.ct0.Some? || pendingRender) && i < |ticks|
        invariant 0 <= i <= |ticks| && Run(s, run) == Some(Abs()) && Inv(Abs()) && phase.Writing? && seqno == old(seqno)
        invariant run == PollEvents(s, ticks[..i]) && Abs() == Polled(s, ticks[..i])
        invariant forall j :: 0 <= j < i ==> Busy(Polled(s, ticks[..j]))
      {
        PolledSnoc(s, ticks, i);
        ghost var more := Poll(ticks[i]);
        RunAppend(s, run, more);
        run, i := run + more, i + 1;
      }
      polls := i;
      if regs.ct0.Some? || pendingRender {
        assert ticks[..i] == ticks;
        return false, run, polls;
      }
      SamePools(s, run);
      ghost var more := Handover(between, after);
      RunAppend(s, run, more);
      run := run + more;
      drained := true;
    }

    /** pending_ct1ca and pending_ct1ea are stored before pending_render is set. */
    method StashJob()
      requires phase.Writing? && regs.ct0.None? && !pendingRender
      modifies this`pendingCt1, this`pendingRender, this`phase, this`past
      ensures Abs() == JobStashed(old(Abs()))
    {
      pendingCt1 := seqno + 1;
      pendingRender, phase, past := true, Stashed, past.(stale := regs.fldone);
    }

    method StartBinner()
      requires phase.Stashed?
      modifies this`regs, this`phase
      ensures Abs() == BinnerStarted(old(Abs()))
    {
      regs, phase := regs.(ct0 := Some(seqno + 1)), Started;
    }

    method TagJob()
      requires phase.Started? && poolIdx < |pools|
      modifies this
      ensures Abs() == JobTagged(old(Abs()))
    {
      seqno := seqno + 1;
      pools, past := pools[poolIdx := seqno], past.(owners := past.owners + [poolIdx]);
      poolIdx, phase := (poolIdx + 1) % POOL_SETS, Quiet;
    }

    /** The unlocked part: the service task may run before and after the binner is started. */
    method Handover(between: Tick, after: Tick) returns (ghost run: seq<Event>)
      requires Inv(Abs()) && phase.Writing? && regs.ct0.None? && !pendingRender
      modifies this
      ensures Run(old(Abs()), run) == Some(Abs()) && Inv(Abs())
      ensures phase.Quiet? && seqno == old(seqno) + 1 && Owner(Abs(), seqno) == old(poolIdx)
      ensures run == HandoverEvents(old(Abs()), between, after)
    {
      hide Inv, Run, Next, Serviced, JobStashed, BinnerStarted, JobTagged, Rotation, TickEvents, Ticked;
      ghost var s := Abs();
      SubmitFrame(s, Stash);
      StashJob();
      run := [Stash];
      ghost var more := Environment(between);
      RunAppend(s, run, more);
      run := run + more;
      SubmitFrame(Abs(), Start);
      RunSnoc(s, run, Start);
      StartBinner();
      run := run + [Start];
      more := Environment(after);
      RunAppend(s, run, more);
      run := run + more;
      RunSnoc(s, run, Service);
      EnvironmentFrame(Abs(), Service);
      ServiceInterrupts();
      run := run + [Service];
      SamePools(s, run);
      PoolTags(Abs());
      SubmitFrame(Abs(), Tag);
      RunSnoc(s, run, Tag);
      TagJob();
      run := run + [Tag];
    }
  }

  /** One job submitted and nothing done yet. */
  function OneJob(bfc: byte, rfc: byte): State {
    Initial(bfc, rfc).(seqno := 1, pending := Some(1), pools := [1, 0, 0], poolIdx := 1, ct0 := Some(1), owners := [0])
  }

  lemma OneJobRun(bfc: byte, rfc: byte)
    ensures Run(Initial(bfc, rfc), [Begin, Stash, Start, Service, Tag]) == Some(OneJob(bfc, rfc))
  {
    hide Run;
    var s0 := Initial(bfc, rfc);
    RunIf(s0, true, Begin);
    var s1 := Next(s0, Begin);
    RunSnoc(s0, [Begin], Stash);
    var s2 := Next(s1, Stash);
    RunSnoc(s0, [Begin] + [Stash], Start);
    var s3 := Next(s2, Start);
    RunSnoc(s0, [Begin] + [Stash] + [Start], Service);
    var s4 := Next(s3, Service);
    RunSnoc(s0, [Begin] + [Stash] + [Start] + [Service], Tag);
    assert [Begin] + [Stash] + [Start] + [Service] + [Tag] == [Begin, Stash, Start, Service, Tag];
    assert s4.pools[0 := 1] == [1, 0, 0] && s4.owners + [0] == [0];
    assert Next(s4, Tag) == OneJob(bfc, rfc);
  }

  /** Its bin and its render list end before the first two polls: the second one finds it finished, not the first. */
  lemma TwoPollsFinish(bfc: byte, rfc: byte)
    ensures Polled(OneJob(bfc, rfc), [BinEnds]).finished == 0
    ensures Polled(OneJob(bfc, rfc), [BinEnds, RenderEnds]).finished == 1
  {
    var s, ticks := OneJob(bfc, rfc), [BinEnds, RenderEnds];
    NoPolls(s, ticks);
    PolledSnoc(s, ticks, 0);
    PolledSnoc(s, ticks, 1);
    assert ticks[..1] == [BinEnds] && ticks[..2] == ticks;
    hide Polled, PollEvents;
    FirstPoll(s);
    SecondPoll(Polled(s, [BinEnds]));
  }

  lemma FirstPoll(s: State)
    requires s == OneJob(s.bfc, s.rfc)
    ensures var t := Advanced(Serviced(Ticked(s, BinEnds)));
            && t.finished == 0 && t.seqno == 1 && t.pending.None? && t.ct0.None? && t.ct1 == Some(1) && t.sem == 1
            && t.rfcCompleted == 0 && t.rfc == t.lastRfc
  {
  }

  lemma SecondPoll(s: State)
    requires s.seqno == 1 && s.pending.None? && s.ct0.None? && s.ct1.Some? && s.sem > 0
    requires s.rfcCompleted == 0 && s.rfc == s.lastRfc
    ensures Advanced(Serviced(Ticked(s, RenderEnds))).finished == 1
  {
  }

  lemma KickedNothing(s: State)
    ensures s.pending.None? ==> Kicked(s) == s
  {
  }

  /** A step of the GPU or the service task leaves the submission alone. */
  lemma EnvironmentFrame(s: State, e: Event)
    requires Inv(s) && Enabled(s, e) && (e.BinDone? || e.RenderDone? || e.Service?)
    ensures Run(s, [e]) == Some(Next(s, e)) && Inv(Next(s, e))
    ensures Next(s, e).phase == s.phase && Next(s, e).seqno == s.seqno
    ensures e.BinDone? ==> Next(s, e) == BinEnded(s)
    ensures e.RenderDone? ==> Next(s, e) == RenderEnded(s)
    ensures e.Service? ==> Next(s, e) == Serviced(s)
  {
    hide Inv, Run;
    RunIf(s, true, e);
    StepKeeps(s, e);
  }

  lemma SubmitFrame(s: State, e: Event)
    requires Inv(s) && Enabled(s, e) && (e.Stash? || e.Start? || e.Tag?)
    ensures Run(s, [e]) == Some(Next(s, e)) && Inv(Next(s, e))
    ensures e.Stash? ==> Next(s, e) == JobStashed(s)
    ensures e.Start? ==> Next(s, e) == BinnerStarted(s)
    ensures e.Tag? ==> Next(s, e) == JobTagged(s)
    ensures !e.Tag? ==> Next(s, e).seqno == s.seqno && Next(s, e).phase == if e.Stash? then Stashed else Started
    ensures e.Tag? ==> Next(s, e).seqno == s.seqno + 1 && Next(s, e).phase == Quiet
    ensures e.Tag? ==> Owner(Next(s, e), s.seqno + 1) == s.poolIdx
  {
    hide Run;
    RunIf(s, true, e);
    StepKeeps(s, e);
  }

  lemma ServiceFrame(s: State)
    ensures Serviced(s).phase == s.phase && Serviced(s).seqno == s.seqno
    ensures Serviced(s).pools == s.pools && Serviced(s).poolIdx == s.poolIdx
  {
  }

  lemma AdvanceFrame(s: State)
    ensures Advanced(s).phase == s.phase && Advanced(s).seqno == s.seqno && Advanced(s).retired == s.retired
    ensures Advanced(s).pools == s.pools && Advanced(s).poolIdx == s.poolIdx
  {
  }

  lemma FinishedRetired(s: State)
    requires Inv(s)
    ensures s.finished <= s.retired
  {
  }

  lemma PoolTags(s: State)
    requires Inv(s)
    ensures s.poolIdx < |s.pools| && s.pools[s.poolIdx] <= s.seqno
  {
    assert Tagged(s, 3);
  }

  /** Only a submission moves the rotation. */
  lemma {:induction false} SamePools(s: State, es: seq<Event>)
    requires Inv(s) && Run(s, es).Some? && Run(s, es).value.seqno == s.seqno
    ensures Run(s, es).value.pools == s.pools && Run(s, es).value.poolIdx == s.poolIdx
    decreases |es|
  {
    hide Inv, Next, Enabled;
    if es != [] {
      var t := Next(s, es[0]);
      StepKeeps(s, es[0]);
      StepGrows(s, es[0]);
      RunGrows(t, es[1..]);
      StepPools(s, es[0]);
      SamePools(t, es[1..]);
    }
  }

  lemma StepPools(s: State, e: Event)
    requires Enabled(s, e) && Next(s, e).seqno == s.seqno
    ensures Next(s, e).pools == s.pools && Next(s, e).poolIdx == s.poolIdx
  {
    hide Serviced, Advanced;
    ServiceFrame(s);
    AdvanceFrame(s);
  }
}
