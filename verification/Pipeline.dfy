/**
 * The V3D job pipeline as a step system.
 *
 * A job is binned by control thread 0 and then rendered by control thread 1.
 * The submitting task, the waiting tasks and the service task share the state;
 * the GPU is the environment and finishes lists whenever it likes. Sections
 * between Disable and Enable, and sections under render_lock, are single steps.
 */
module Pipeline {
  import opened Bytes

  const POOL_SETS: nat := 3

  /**
   * Where a submission stands: Writing owns a pool set and fills its buffers,
   * Stashed has set pending_render but not started CT0, Started waits for its
   * sequence number.
   */
  datatype Phase = Quiet | Writing | Stashed | Started

  /** One start of CT1: the job, whether its bin list had finished, whether an old FLDONE was still latched. */
  datatype Kick = Kick(job: nat, binDone: bool, stale: bool)

  datatype State = State(
    // driver
    seqno: nat, pending: Option<nat>, finished: nat,
    bfcCompleted: nat, rfcCompleted: nat, lastBfc: byte, lastRfc: byte,
    pools: seq<nat>, poolIdx: nat, phase: Phase,
    // hardware: running lists, semaphore, interrupt latches, completion counters
    ct0: Option<nat>, ct1: Option<nat>, sem: nat, fldone: bool, frdone: bool, bfc: byte, rfc: byte,
    // history: jobs binned, jobs retired or reset, CT1 starts, whether the latch predates the pending job,
    // the pool set of each job
    binned: nat, retired: nat, kicks: seq<Kick>, stale: bool, owners: seq<nat>)

  datatype Event =
    | BinDone | RenderDone
    | Service | Advance
    | Begin | Fail | Stash | Start | Tag
    | Reset(newBfc: byte, newRfc: byte)

  // ---- The driver's critical sections ----

  /** vc4_v3d_kick_pending_render. */
  function Kicked(s: State): State {
    if s.pending.None? || s.ct1.Some? then s
    else
      var j := s.pending.value;
      s.(pending := None, ct1 := Some(j), kicks := s.kicks + [Kick(j, s.binned >= j, s.stale)])
  }

  /** vc4_v3d_service_interrupts: a latched FLDONE kicks, every latched bit is acknowledged. */
  function Serviced(s: State): State {
    (if s.fldone then Kicked(s) else s).(fldone := false, frdone := false, stale := false)
  }

  function Delta(now: byte, last: byte): byte {
    (now - last) % 0x100
  }

  /** The counter part of vc4_v3d_advance_counters. */
  function Sampled(s: State): State {
    s.(bfcCompleted := s.bfcCompleted + Delta(s.bfc, s.lastBfc),
       rfcCompleted := s.rfcCompleted + Delta(s.rfc, s.lastRfc),
       lastBfc := s.bfc, lastRfc := s.rfc)
  }

  /** The guard of the idle resync. */
  predicate Resyncs(s: State) {
    s.rfcCompleted < s.seqno && s.pending.None? && s.rfc == s.seqno % 0x100 && s.ct0.None? && s.ct1.None?
  }

  function Counted(s: State): State {
    var r := if Resyncs(s) then s.(bfcCompleted := s.seqno, rfcCompleted := s.seqno) else s;
    r.(finished := if r.rfcCompleted > r.seqno then r.seqno else r.rfcCompleted)
  }

  /** vc4_v3d_advance_counters. */
  function Advanced(s: State): State {
    var c := Sampled(s);
    Counted(if c.bfcCompleted >= c.seqno then Kicked(c) else c)
  }

  // ---- Steps ----

  predicate Enabled(s: State, e: Event) {
    match e
    case BinDone => s.ct0.Some?
    case RenderDone => s.ct1.Some? && s.sem > 0
    case Service => true
    case Advance => s.phase.Quiet? || s.phase.Writing?
    case Begin => s.phase.Quiet? && s.poolIdx < |s.pools| && s.pools[s.poolIdx] <= s.finished
    case Fail => s.phase.Writing?
    case Stash => s.phase.Writing? && s.ct0.None? && s.pending.None?
    case Start => s.phase.Stashed?
    case Tag => s.phase.Started? && s.poolIdx < |s.pools|
    case Reset(_, _) => s.phase.Quiet?
  }

  function BinEnded(s: State): State {
    s.(ct0 := None, sem := s.sem + 1, fldone := true, bfc := (s.bfc + 1) % 0x100, binned := s.binned + 1)
  }

  function RenderEnded(s: State): State
    requires s.sem > 0
  {
    s.(ct1 := None, sem := s.sem - 1, frdone := true, rfc := (s.rfc + 1) % 0x100, retired := s.retired + 1)
  }

  function JobStashed(s: State): State {
    s.(pending := Some(s.seqno + 1), stale := s.fldone, phase := Stashed)
  }

  function BinnerStarted(s: State): State {
    s.(ct0 := Some(s.seqno + 1), phase := Started)
  }

  function JobTagged(s: State): State
    requires s.poolIdx < |s.pools|
  {
    s.(seqno := s.seqno + 1, pools := s.pools[s.poolIdx := s.seqno + 1], owners := s.owners + [s.poolIdx],
       poolIdx := (s.poolIdx + 1) % POOL_SETS, phase := Quiet)
  }

  /** The timeout of v3d_wait_seqno; the counters it reads back are free. */
  function JobsReset(s: State, newBfc: byte, newRfc: byte): State {
    s.(pending := None, finished := s.seqno, bfcCompleted := s.seqno, rfcCompleted := s.seqno,
       lastBfc := newBfc, lastRfc := newRfc, ct0 := None, ct1 := None, sem := 0, bfc := newBfc, rfc := newRfc,
       binned := s.seqno, retired := s.seqno)
  }

  /** The effect of an enabled step. */
  function Next(s: State, e: Event): State
    requires Enabled(s, e)
  {
    match e
    case BinDone => BinEnded(s)
    case RenderDone => RenderEnded(s)
    case Service => Serviced(s)
    case Advance => Advanced(s)
    case Begin => s.(phase := Writing)
    case Fail => s.(phase := Quiet)
    case Stash => JobStashed(s)
    case Start => BinnerStarted(s)
    case Tag => JobTagged(s)
    case Reset(newBfc, newRfc) => JobsReset(s, newBfc, newRfc)
  }

  function Initial(bfc: byte, rfc: byte): State {
    State(0, None, 0, 0, 0, bfc, rfc, [0, 0, 0], 0, Quiet, None, None, 0, false, false, bfc, rfc, 0, 0, [], false, [])
  }

  // ---- The invariant ----

  /** The newest job whose render list has been handed over. */
  function Newest(s: State): nat {
    if s.phase.Stashed? || s.phase.Started? then s.seqno + 1 else s.seqno
  }

  /** Jobs up to this one have been kicked, or reset. */
  function LastKicked(s: State): int {
    if s.pending.Some? then Newest(s) - 1 else Newest(s)
  }

  /** Binning and rendering each work on one job, in submission order. */
  predicate InOrder(s: State) {
    && (s.pending.Some? ==> s.pending.value == Newest(s) && Newest(s) > 0)
    && (match s.ct0
        case None => s.binned == (if s.phase.Stashed? then s.seqno else Newest(s))
        case Some(j) => j == Newest(s) == s.binned + 1 && !s.phase.Stashed?)
    && (match s.ct1
        case None => s.retired == LastKicked(s)
        case Some(j) => j == LastKicked(s) == s.retired + 1)
    && s.binned == s.retired + s.sem
  }

  /** The software counters lag the hardware by exactly what the next sample adds. */
  predicate Counts(s: State) {
    && s.bfcCompleted + Delta(s.bfc, s.lastBfc) == s.binned
    && s.rfcCompleted + Delta(s.rfc, s.lastRfc) == s.retired
    && s.finished == s.rfcCompleted <= s.bfcCompleted && s.rfcCompleted <= s.seqno
  }

  /** A set carries the number of its last job; jobs take the sets in turn. */
  predicate Rotation(s: State) {
    && |s.pools| == POOL_SETS && s.poolIdx == s.seqno % POOL_SETS && |s.owners| == s.seqno
    && (forall j :: 0 <= j < |s.owners| ==> s.owners[j] == j % POOL_SETS)
    && (forall d: nat :: 1 <= d <= POOL_SETS ==> Tagged(s, d))
  }

  predicate Tagged(s: State, d: nat)
    requires |s.pools| == POOL_SETS && s.poolIdx < POOL_SETS && 1 <= d <= POOL_SETS
  {
    s.pools[(s.poolIdx + POOL_SETS - d) % POOL_SETS] == if s.seqno + 1 >= d then s.seqno + 1 - d else 0
  }

  /** The pool set being written belongs to no unretired job; three jobs in flight at most. */
  predicate Bounded(s: State) {
    && s.seqno <= s.finished + 3
    && (!s.phase.Quiet? ==> s.seqno + 1 <= s.finished + 3)
  }

  /** Lists are started in order, once each, and before their bin list only through an old latch. */
  predicate KicksInOrder(s: State) {
    && (forall i :: 0 <= i < |s.kicks| ==> 0 < s.kicks[i].job <= LastKicked(s))
    && (forall i, k :: 0 <= i < k < |s.kicks| ==> s.kicks[i].job < s.kicks[k].job)
    && (forall i :: 0 <= i < |s.kicks| ==> s.kicks[i].binDone || s.kicks[i].stale)
    && (s.pending.Some? && s.fldone && !s.stale ==> s.binned >= s.pending.value)
    && (s.stale ==> s.fldone)
  }

  predicate Inv(s: State) {
    InOrder(s) && Counts(s) && Rotation(s) && Bounded(s) && KicksInOrder(s)
  }

  // ---- Every step keeps it ----

  lemma KickKeeps(s: State)
    requires Inv(s) && (s.binned < Newest(s) ==> s.stale || s.pending.None?)
    ensures Inv(Kicked(s))
    ensures s.pending.Some? && s.ct1.None? ==> |Kicked(s).kicks| == |s.kicks| + 1
  {
    hide Counts, Rotation, Bounded;
    var t := Kicked(s);
    assert Counts(t) && Rotation(t) && Bounded(t) by {
      KickFrame(s);
    }
  }

  lemma KickFrame(s: State)
    requires Counts(s) && Rotation(s) && Bounded(s)
    ensures Counts(Kicked(s)) && Rotation(Kicked(s)) && Bounded(Kicked(s))
  {
    var t := Kicked(s);
    forall d: nat | 1 <= d <= POOL_SETS
      ensures Tagged(t, d)
    {
      assert Tagged(s, d);
    }
  }

  lemma ServiceKeeps(s: State)
    requires Inv(s)
    ensures Inv(Serviced(s))
  {
    hide Rotation, Bounded, Counts;
    if s.fldone {
      KickKeeps(s);
    }
    LatchFrame(if s.fldone then Kicked(s) else s);
  }

  lemma LatchFrame(s: State)
    requires Inv(s)
    ensures Inv(s.(fldone := false, frdone := false, stale := false))
  {
    var t := s.(fldone := false, frdone := false, stale := false);
    SameTags(s, t);
  }

  lemma SameTags(s: State, t: State)
    requires Rotation(s) && t.pools == s.pools && t.poolIdx == s.poolIdx && t.seqno == s.seqno && t.owners == s.owners
    ensures Rotation(t)
  {
    forall d: nat | 1 <= d <= POOL_SETS
      ensures Tagged(t, d)
    {
      assert Tagged(s, d);
    }
  }

  /** The state a counter sample leaves: the software counts are the hardware's, finished is what has retired. */
  function Exact(s: State): State {
    (if s.binned >= s.seqno then Kicked(s) else s).(
      bfcCompleted := s.binned, rfcCompleted := s.retired, lastBfc := s.bfc, lastRfc := s.rfc, finished := s.retired)
  }

  /**
   * In every reachable state a sample is exact: at most three jobs are in
   * flight, so the modulo-256 difference loses nothing, the resync guard is
   * never met and the cap on finished never applies.
   */
  lemma SampleIsExact(s: State)
    requires Inv(s) && Enabled(s, Advance)
    ensures Advanced(s) == Exact(s) && !Resyncs(Sampled(s))
  {
    hide Rotation, KicksInOrder;
    assert s.retired <= s.seqno;
    var c := Sampled(s);
    assert c == s.(bfcCompleted := s.binned, rfcCompleted := s.retired, lastBfc := s.bfc, lastRfc := s.rfc) by {
      hide Kicked, InOrder;
    }
    hide Sampled, Delta;
    var k := if c.bfcCompleted >= c.seqno then Kicked(c) else c;
    assert k == Exact(s).(finished := s.finished);
    assert !Resyncs(c) && !Resyncs(k);
    hide Kicked, Resyncs, InOrder;
    assert Counted(k) == k.(finished := s.retired);
  }

  lemma AdvanceKeeps(s: State)
    requires Inv(s) && Enabled(s, Advance)
    ensures Inv(Advanced(s)) && Advanced(s).finished == s.retired
  {
    hide Rotation;
    SampleIsExact(s);
    if s.binned >= s.seqno {
      KickKeeps(s);
    }
    var k := if s.binned >= s.seqno then Kicked(s) else s;
    SameTags(k, Exact(s));
  }

  lemma DeltaStep(now: byte, last: byte)
    requires Delta(now, last) < 255
    ensures Delta((now + 1) % 0x100, last) == Delta(now, last) + 1
  {
  }

  lemma BinDoneKeeps(s: State)
    requires Inv(s) && Enabled(s, BinDone)
    ensures Inv(Next(s, BinDone))
  {
    hide Rotation, Delta;
    DeltaStep(s.bfc, s.lastBfc);
    SameTags(s, Next(s, BinDone));
  }

  lemma RenderDoneKeeps(s: State)
    requires Inv(s) && Enabled(s, RenderDone)
    ensures Inv(Next(s, RenderDone))
  {
    hide Rotation, Delta;
    DeltaStep(s.rfc, s.lastRfc);
    SameTags(s, Next(s, RenderDone));
  }

  lemma SubmitKeeps(s: State, e: Event)
    requires Inv(s) && Enabled(s, e) && (e.Begin? || e.Fail? || e.Stash? || e.Start?)
    ensures Inv(Next(s, e))
  {
    SameTags(s, Next(s, e));
    assert Tagged(s, 3);
  }

  lemma TagKeeps(s: State)
    requires Inv(s) && Enabled(s, Tag)
    ensures Inv(Next(s, Tag))
  {
    hide KicksInOrder, Counts, InOrder;
    var t := Next(s, Tag);
    TagRotates(s);
    assert KicksInOrder(t) && Counts(t) && InOrder(t) by {
      TagFrame(s);
    }
  }

  lemma TagFrame(s: State)
    requires KicksInOrder(s) && Counts(s) && InOrder(s) && Enabled(s, Tag)
    ensures KicksInOrder(Next(s, Tag)) && Counts(Next(s, Tag)) && InOrder(Next(s, Tag))
  {
  }

  lemma TagRotates(s: State)
    requires Rotation(s) && Enabled(s, Tag)
    ensures Rotation(Next(s, Tag))
  {
    var t := Next(s, Tag);
    assert (s.poolIdx + 1) % POOL_SETS == (s.seqno + 1) % POOL_SETS;
    forall d: nat | 1 <= d <= POOL_SETS
      ensures Tagged(t, d)
    {
      if d > 1 {
        assert Tagged(s, d - 1);
      }
    }
  }

  lemma ResetKeeps(s: State, newBfc: byte, newRfc: byte)
    requires Inv(s) && Enabled(s, Reset(newBfc, newRfc))
    ensures Inv(Next(s, Reset(newBfc, newRfc)))
  {
    hide Rotation;
    SameTags(s, Next(s, Reset(newBfc, newRfc)));
  }

  lemma StepKeeps(s: State, e: Event)
    requires Inv(s) && Enabled(s, e)
    ensures Inv(Next(s, e))
  {
    hide Inv, Enabled;
    match e
    case BinDone => BinDoneKeeps(s);
    case RenderDone => RenderDoneKeeps(s);
    case Service => ServiceKeeps(s);
    case Advance => AdvanceKeeps(s);
    case Tag => TagKeeps(s);
    case Reset(b, r) => ResetKeeps(s, b, r);
    case _ => SubmitKeeps(s, e);
  }
}
