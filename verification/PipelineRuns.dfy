/** What holds over whole runs of the job pipeline. */
module PipelineRuns {
  import opened Bytes
  import opened Pipeline

  /** None when some step of the run is not possible where it stands. */
  function Run(s: State, es: seq<Event>): Option<State>
    decreases |es|
  {
    if es == [] then Some(s)
    else if !Enabled(s, es[0]) then None
    else Run(Next(s, es[0]), es[1..])
  }

  lemma InitialHolds(bfc: byte, rfc: byte)
    ensures Inv(Initial(bfc, rfc))
  {
  }

  lemma {:induction false} RunKeeps(s: State, es: seq<Event>)
    requires Inv(s) && Run(s, es).Some?
    ensures Inv(Run(s, es).value)
    decreases |es|
  {
    hide Inv, Next, Enabled;
    if es != [] {
      StepKeeps(s, es[0]);
      RunKeeps(Next(s, es[0]), es[1..]);
    }
  }

  /**
   * Every run of submits, GPU completions, polls, wake-ups, timeouts and failed
   * submits: render lists are started in submission order and at most once,
   * finished counts only retired (or reset) jobs and never passes seqno, and at
   * most three jobs are in flight.
   */
  lemma PipelineSafety(bfc: byte, rfc: byte, es: seq<Event>)
    requires Run(Initial(bfc, rfc), es).Some?
    ensures var t := Run(Initial(bfc, rfc), es).value;
            && (forall i, k :: 0 <= i < k < |t.kicks| ==> t.kicks[i].job < t.kicks[k].job)
            && (forall i :: 0 <= i < |t.kicks| ==> 0 < t.kicks[i].job <= Newest(t))
            && (t.pending.Some? ==> t.pending.value == Newest(t))
            && (t.pending.Some? ==> forall i :: 0 <= i < |t.kicks| ==> t.kicks[i].job < t.pending.value)
            && t.finished <= t.retired && t.finished <= t.seqno
            && Newest(t) - t.finished <= 3
  {
    InitialHolds(bfc, rfc);
    RunKeeps(Initial(bfc, rfc), es);
  }

  lemma StepGrows(s: State, e: Event)
    requires Inv(s) && Enabled(s, e)
    ensures var t := Next(s, e);
            && s.finished <= t.finished && s.retired <= t.retired && s.binned <= t.binned
            && s.seqno <= t.seqno && s.kicks <= t.kicks && s.owners <= t.owners
  {
    hide Rotation, KicksInOrder;
    if e.Advance? {
      SampleIsExact(s);
    }
  }

  /** Nothing is taken back: finished_seqno, retirements and the record of starts only grow. */
  lemma {:induction false} RunGrows(s: State, es: seq<Event>)
    requires Inv(s) && Run(s, es).Some?
    ensures var t := Run(s, es).value;
            s.finished <= t.finished && s.retired <= t.retired && s.seqno <= t.seqno && s.kicks <= t.kicks
    decreases |es|
  {
    hide Inv, Next, Enabled;
    if es != [] {
      StepKeeps(s, es[0]);
      StepGrows(s, es[0]);
      RunGrows(Next(s, es[0]), es[1..]);
    }
  }

  /** The semaphore: a list that finishes rendering is the oldest unretired one and has been binned. */
  lemma RenderAfterBin(s: State)
    requires Inv(s) && Enabled(s, RenderDone)
    ensures s.ct1.value == s.retired + 1 <= s.binned
  {
  }

  /** CT1 gets a new list only when it has none, and CT0 only when it has none. */
  lemma ThreadsStartIdle(s: State, e: Event)
    requires Inv(s) && Enabled(s, e)
    ensures |Next(s, e).kicks| > |s.kicks| ==> s.ct1.None? && s.pending.Some? && Next(s, e).ct1 == s.pending
    ensures |Next(s, e).kicks| <= |s.kicks| + 1
    ensures e.Start? ==> s.ct0.None?
    ensures s.pending.Some? && Next(s, e).pending.Some? ==> Next(s, e).pending == s.pending
  {
    hide Rotation, KicksInOrder, Bounded;
    if e.Advance? {
      SampleIsExact(s);
    }
  }

  // ---- Pool sets ----

  /** The pool set of a job that has been submitted, or is being. */
  function Owner(s: State, j: nat): nat
    requires Rotation(s) && 0 < j <= s.seqno + 1
  {
    if j <= s.seqno then s.owners[j - 1] else s.poolIdx
  }

  /** The set a submission writes is used by no unretired job; unretired jobs own different sets. */
  lemma PoolSetsApart(s: State, j: nat, k: nat)
    requires Inv(s) && !s.phase.Quiet?
    requires s.finished < j < k <= s.seqno + 1
    ensures Owner(s, j) != Owner(s, k)
    ensures Owner(s, j) != s.poolIdx && Owner(s, s.seqno + 1) == s.poolIdx
  {
    hide InOrder, Counts, KicksInOrder;
    assert k - j <= 2 && s.seqno + 1 - j <= 2;
  }

  /** Between submissions too: jobs in flight own different sets. */
  lemma FlightsApart(s: State, j: nat, k: nat)
    requires Inv(s) && s.finished < j < k <= s.seqno
    ensures Owner(s, j) != Owner(s, k)
  {
    hide InOrder, Counts, KicksInOrder;
    assert k - j <= 2;
  }

  /** A submission that may not begin yet waits for exactly one job, the last user of its set. */
  lemma BeginWaitsForOwner(s: State)
    requires Inv(s) && s.phase.Quiet?
    ensures s.poolIdx < |s.pools|
    ensures !Enabled(s, Begin) <==> s.seqno == s.finished + 3
    ensures !Enabled(s, Begin) ==> s.pools[s.poolIdx] == s.finished + 1
  {
    hide InOrder, Counts, KicksInOrder;
    assert Tagged(s, 3);
  }

  // ---- CT1 before its bin list ----

  /** The service call at the end of a submission starts CT1 exactly when an FLDONE is latched and CT1 is idle. */
  lemma ImmediateServiceKicks(s: State)
    requires Inv(s) && Enabled(s, Stash)
    ensures var t := Next(Next(s, Stash), Start);
            && (Serviced(t).pending.None? <==> s.fldone && s.ct1.None?)
            && (Serviced(t).pending.None? ==> Serviced(t).kicks == s.kicks + [Kick(s.seqno + 1, false, true)])
  {
    hide Rotation;
  }

  lemma RunOne(s: State, e: Event, es: seq<Event>)
    requires Enabled(s, e)
    ensures Run(s, [e] + es) == Run(Next(s, e), es)
  {
    assert ([e] + es)[1..] == es;
  }

  function Submit(es: seq<Event>): seq<Event> {
    [Begin] + ([Stash] + ([Start] + ([Service] + ([Tag] + es))))
  }

  /** A submission while nothing is in its way and no FLDONE is latched. */
  lemma SubmitRun(s: State, es: seq<Event>) returns (t: State)
    requires s.phase.Quiet? && s.ct0.None? && s.pending.None? && !s.fldone
    requires |s.pools| == POOL_SETS && s.poolIdx < POOL_SETS && s.pools[s.poolIdx] <= s.finished
    ensures Run(s, Submit(es)) == Run(t, es)
    ensures t == s.(seqno := s.seqno + 1, pending := Some(s.seqno + 1), ct0 := Some(s.seqno + 1), frdone := false,
                    stale := false, pools := s.pools[s.poolIdx := s.seqno + 1], owners := s.owners + [s.poolIdx],
                    poolIdx := (s.poolIdx + 1) % POOL_SETS)
  {
    hide Run;
    var s1 := Next(s, Begin);
    var s2 := Next(s1, Stash);
    var s3 := Next(s2, Start);
    var s4 := Next(s3, Service);
    RunOne(s, Begin, [Stash] + ([Start] + ([Service] + ([Tag] + es))));
    RunOne(s1, Stash, [Start] + ([Service] + ([Tag] + es)));
    RunOne(s2, Start, [Service] + ([Tag] + es));
    RunOne(s3, Service, [Tag] + es);
    RunOne(s4, Tag, es);
    t := Next(s4, Tag);
  }

  /** The first job is binned and polled, and its render list ends; then the second one is submitted. */
  function EarlyRun(): seq<Event> {
    Submit([BinDone] + ([Advance] + ([RenderDone] + ([Begin] + ([Stash] + ([Start] + ([Service] + [])))))))
  }

  /** An FLDONE consumed through the BFC path stays latched and starts the next render list before its bin list ends. */
  lemma EarlyKick(b: byte, r: byte)
    ensures Run(Initial(b, r), EarlyRun()).Some?
    ensures var t := Run(Initial(b, r), EarlyRun()).value;
            t.kicks == [Kick(1, true, false), Kick(2, false, true)] && t.ct0 == Some(2)
  {
    hide Run, Advanced, Serviced;
    var end := [Begin] + ([Stash] + ([Start] + ([Service] + [])));
    var s1 := SubmitRun(Initial(b, r), [BinDone] + ([Advance] + ([RenderDone] + end)));
    var s2 := Next(s1, BinDone);
    RunOne(s1, BinDone, [Advance] + ([RenderDone] + end));
    var s3 := Next(s2, Advance);
    PolledOnce(s2);
    RunOne(s2, Advance, [RenderDone] + end);
    var s4 := Next(s3, RenderDone);
    RunOne(s3, RenderDone, end);
    var s5 := Next(s4, Begin);
    var s6 := Next(s5, Stash);
    var s7 := Next(s6, Start);
    RunOne(s4, Begin, [Stash] + ([Start] + ([Service] + [])));
    RunOne(s5, Stash, [Start] + ([Service] + []));
    RunOne(s6, Start, [Service] + []);
    RunOne(s7, Service, []);
    RunNothing(Next(s7, Service));
    ServicedOnce(s7);
    assert s7.kicks == [] + [Kick(1, true, false)];
  }

  /** A poll of the first job's bin list kicks it. */
  lemma PolledOnce(s: State)
    requires s.seqno == 1 && s.pending == Some(1) && s.ct1.None? && s.binned == 1 && !s.stale
    requires s.bfcCompleted == s.rfcCompleted == s.finished == 0 && s.bfc == (s.lastBfc + 1) % 0x100
    requires s.rfc == s.lastRfc
    ensures Advanced(s) == s.(lastBfc := s.bfc, bfcCompleted := 1, pending := None, ct1 := Some(1),
                              kicks := s.kicks + [Kick(1, true, false)])
  {
    assert Delta(s.bfc, s.lastBfc) == 1;
  }

  lemma ServicedOnce(s: State)
    requires s.fldone && s.pending.Some? && s.ct1.None?
    ensures Serviced(s).kicks == s.kicks + [Kick(s.pending.value, s.binned >= s.pending.value, s.stale)]
    ensures Serviced(s).ct1 == s.pending && Serviced(s).ct0 == s.ct0
  {
  }

  lemma RunNothing(s: State)
    ensures Run(s, []) == Some(s)
  {
  }

  /** The second job's bin list ends while the first job is rendering. */
  function DeferredRun(): seq<Event> {
    Submit([BinDone] + ([Service] + Submit([BinDone] + [])))
  }

  /** A service call will find FLDONE latched for the pending list. */
  predicate BinLatched(s: State) {
    s.phase.Quiet? && s.pending.Some? && s.fldone && !s.stale
  }

  /** A run from the start in which the next service call finds CT1 busy. */
  lemma DeferredHappens(b: byte, r: byte)
    ensures Run(Initial(b, r), DeferredRun()).Some?
    ensures var t := Run(Initial(b, r), DeferredRun()).value; BinLatched(t) && t.pending == Some(2) && t.ct1 == Some(1)
  {
    hide Run, Serviced;
    var end := [BinDone] + [];
    var s1 := SubmitRun(Initial(b, r), [BinDone] + ([Service] + Submit(end)));
    var s2 := Next(s1, BinDone);
    RunOne(s1, BinDone, [Service] + Submit(end));
    var s3 := Next(s2, Service);
    RunOne(s2, Service, Submit(end));
    assert s3 == s2.(pending := None, ct1 := Some(1), fldone := false, frdone := false, kicks := s3.kicks) by {
      ServicedFrame(s2);
    }
    var s4 := SubmitRun(s3, end);
    RunOne(s4, BinDone, []);
    RunNothing(Next(s4, BinDone));
  }

  lemma ServicedFrame(s: State)
    requires s.fldone && s.pending.Some? && s.ct1.None? && !s.stale
    ensures Serviced(s)
              == s.(pending := None, ct1 := s.pending, fldone := false, frdone := false, kicks := Serviced(s).kicks)
  {
  }

  /** No submission of the run starts on top of a latched FLDONE. */
  predicate CleanStarts(s: State, es: seq<Event>)
    decreases |es|
  {
    es == [] || !Enabled(s, es[0])
    || ((es[0].Stash? ==> !s.fldone) && CleanStarts(Next(s, es[0]), es[1..]))
  }

  /** No latch predates the pending job, and every start so far came after its bin list. */
  predicate CleanSoFar(s: State) {
    !s.stale && forall i :: 0 <= i < |s.kicks| ==> s.kicks[i].binDone
  }

  lemma StepStaysClean(s: State, e: Event)
    requires Inv(s) && Enabled(s, e) && CleanSoFar(s) && (e.Stash? ==> !s.fldone)
    ensures CleanSoFar(Next(s, e))
  {
    hide Rotation, Bounded;
    if e.Advance? {
      SampleIsExact(s);
    }
  }

  /** Then every renderer is started only after its own bin list has finished. */
  lemma {:induction false} KickAfterBin(s: State, es: seq<Event>)
    requires Inv(s) && CleanSoFar(s) && Run(s, es).Some? && CleanStarts(s, es)
    ensures CleanSoFar(Run(s, es).value)
    decreases |es|
  {
    hide Inv, Next, Enabled, CleanSoFar;
    if es != [] {
      StepStaysClean(s, es[0]);
      StepKeeps(s, es[0]);
      KickAfterBin(Next(s, es[0]), es[1..]);
    }
  }

  // ---- Progress ----

  /** Let the GPU finish what it has, poll, let it finish what the poll started, poll again. */
  function FinishEverything(s: State): seq<Event> {
    (if s.ct0.Some? then [BinDone] else []) + (if s.ct1.Some? then [RenderDone] else []) + [Advance]
    + (if s.pending.Some? then [RenderDone] else []) + [Advance]
  }

  lemma {:induction false} RunAppend(s: State, a: seq<Event>, b: seq<Event>)
    requires Run(s, a).Some?
    ensures Run(s, a + b) == Run(Run(s, a).value, b)
    decreases |a|
  {
    hide Next, Enabled;
    if a == [] {
      assert a + b == b;
    } else {
      assert (a + b)[1..] == a[1..] + b;
      RunAppend(Next(s, a[0]), a[1..], b);
    }
  }

  lemma RunIf(s: State, c: bool, e: Event)
    requires c ==> Enabled(s, e)
    ensures Run(s, if c then [e] else []) == Some(if c then Next(s, e) else s)
  {
    if c {
      assert [e][1..] == [];
    }
  }

  /** No reset is needed: once the GPU has finished its lists two polls bring finished_seqno up to seqno. */
  lemma NothingStuck(s: State)
    requires Inv(s) && s.phase.Quiet?
    ensures Run(s, FinishEverything(s)).Some?
    ensures var t := Run(s, FinishEverything(s)).value; t.finished == t.seqno == s.seqno && t.pending.None?
  {
    hide Inv, Next, Run, Enabled;
    var a := if s.ct0.Some? then [BinDone] else [];
    FirstPhase(s);
    var s1 := if s.ct0.Some? then Next(s, BinDone) else s;
    RunIf(s, s.ct0.Some?, BinDone);
    var b := if s.ct1.Some? then [RenderDone] else [];
    var s2 := if s.ct1.Some? then Next(s1, RenderDone) else s1;
    RunIf(s1, s.ct1.Some?, RenderDone);
    RunAppend(s, a, b);
    SecondPhase(s2);
    RunIf(s2, true, Advance);
    RunAppend(s, a + b, [Advance]);
    var s3 := Next(s2, Advance);
    var c := if s.pending.Some? then [RenderDone] else [];
    RunIf(s3, s.pending.Some?, RenderDone);
    RunAppend(s, a + b + [Advance], c);
    var s4 := if s.pending.Some? then Next(s3, RenderDone) else s3;
    RunIf(s4, true, Advance);
    RunAppend(s, a + b + [Advance] + c, [Advance]);
  }

  lemma FirstPhase(s: State)
    requires Inv(s) && s.phase.Quiet?
    ensures s.ct0.Some? ==> Enabled(s, BinDone)
    ensures var s1 := if s.ct0.Some? then Next(s, BinDone) else s;
            && (s.ct1.Some? ==> Enabled(s1, RenderDone))
            && var s2 := if s.ct1.Some? then Next(s1, RenderDone) else s1;
               && Inv(s2) && s2.phase.Quiet? && s2.ct0.None? && s2.ct1.None? && s2.pending == s.pending
               && s2.seqno == s.seqno
  {
    hide Rotation, KicksInOrder, Counts, Bounded;
    var s1 := if s.ct0.Some? then Next(s, BinDone) else s;
    if s.ct0.Some? {
      StepKeeps(s, BinDone);
    }
    if s.ct1.Some? {
      assert Enabled(s1, RenderDone);
      StepKeeps(s1, RenderDone);
    }
  }

  lemma SecondPhase(s: State)
    requires Inv(s) && s.phase.Quiet? && s.ct0.None? && s.ct1.None?
    ensures Enabled(s, Advance)
    ensures var s3 := Next(s, Advance);
            && (s.pending.Some? ==> Enabled(s3, RenderDone))
            && var s4 := if s.pending.Some? then Next(s3, RenderDone) else s3;
               && Enabled(s4, Advance) && Next(s4, Advance).finished == Next(s4, Advance).seqno == s.seqno
               && Next(s4, Advance).pending.None?
  {
    hide Rotation, KicksInOrder, Bounded;
    SampleIsExact(s);
    AdvanceKeeps(s);
    var s3 := Next(s, Advance);
    var s4 := if s.pending.Some? then Next(s3, RenderDone) else s3;
    if s.pending.Some? {
      StepKeeps(s3, RenderDone);
    }
    SampleIsExact(s4);
  }

  /**
   * A service call that finds FLDONE latched leaves the list pending if and only
   * if CT1 is busy; then the latch is gone, no later service call starts the list,
   * and the next poll does.
   */
  lemma DeferredKickNeedsPoll(s: State)
    requires Inv(s) && BinLatched(s)
    ensures Serviced(s).pending.Some? <==> s.ct1.Some?
    ensures s.ct1.Some? ==>
              var t := Serviced(s);
              && t.pending == s.pending && Enabled(t, RenderDone)
              && var u := Next(t, RenderDone);
                 && u.ct1.None? && u.binned >= u.pending.value
                 && Serviced(u) == u.(frdone := false) && Serviced(Serviced(u)) == Serviced(u)
                 && Advanced(u).pending.None?
  {
    hide Rotation, Bounded;
    if s.ct1.Some? {
      var t := Serviced(s);
      ServiceKeeps(s);
      assert s.binned >= s.retired + 1;
      var u := Next(t, RenderDone);
      StepKeeps(t, RenderDone);
      SampleIsExact(u);
    }
  }

  /** The idle resync itself is sound, whatever the software counters may have lost. */
  lemma ResyncSound(s: State)
    requires InOrder(s) && Enabled(s, Advance) && Resyncs(s)
    ensures s.retired == s.seqno
  {
  }
}
