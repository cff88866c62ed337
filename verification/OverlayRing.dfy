/**
 * Zero-copy windowed presents: three pages rotate between render target, queue
 * and overlay plane.
 */
module OverlayRing {
  import opened Bytes

  /** A frame put on the plane, and whether its jobs had retired by then. */
  datatype Show = Show(frame: nat, page: nat, retired: bool)

  /** A job that writes a page, and whether the page was on the plane or not yet known to have left it. */
  datatype Colour = Colour(page: nat, onScan: bool)

  /** Pages are buffer handles, 0 for none. */
  datatype State = State(
    // aros_ovl, and rsc->bo of the presented resource
    bound: bool, page: nat, queued: nat, queuedSeqno: nat, onplane: nat, spare: nat, shown: bool, refused: bool,
    bo: nat,
    // the driver's pins and job numbers
    pinned: nat, displaced: nat, seqno: nat, finished: nat,
    // history: the frame being drawn, the frame and the last job of each page, what was shown and coloured
    frame: nat, holds: map<nat, nat>, job: map<nat, nat>, shows: seq<Show>, colours: seq<Colour>)

  datatype Event =
    | Submit(target: nat)
    | Retire(upTo: nat)
    | Reallocate(newBo: nat)
    | PresentWindowed(ok: bool, first: nat, second: nat)
    | PresentObscured
    | OtherResource(newBo: nat)

  function Get(m: map<nat, nat>, k: nat): nat {
    if k in m then m[k] else 0
  }

  // ---- The driver side ----

  /** vc4_aros_overlay_latch_wait. */
  function Latched(s: State): State {
    s.(displaced := 0)
  }

  /** do_submit_cl as far as the plane goes: wait for the latch when the target is the displaced page. */
  function Submitted(s: State, target: nat): State {
    var t := if s.displaced != 0 && target == s.displaced then Latched(s) else s;
    t.(seqno := t.seqno + 1, job := t.job[target := t.seqno + 1],
       colours := t.colours + [Colour(target, target == t.pinned || target == t.displaced)])
  }

  /** vc4_aros_set_overlay. */
  function Set(s: State, page: nat, ok: bool): State {
    var t := Latched(s);
    if !ok then t.(pinned := 0)
    else
      t.(pinned := page, displaced := if t.pinned != page then t.pinned else 0,
         shows := t.shows + [Show(Get(t.holds, page), page, Get(t.job, page) <= t.finished)])
  }

  function Waited(s: State, seqno: nat): State {
    s.(finished := Max(s.finished, seqno))
  }

  // ---- aros_drm_blit_resource ----

  /** aros_ovl_suspend. */
  function Suspended(s: State): State {
    (if s.shown then s.(pinned := 0, displaced := 0) else s).(shown := false)
  }

  /** aros_ovl_exit. */
  function Exited(s: State): State {
    Suspended(s).(queued := 0, onplane := 0, spare := 0, queuedSeqno := 0, bound := false, page := 0)
  }

  /** The frame in rsc->bo is complete; the next one has the next number. */
  function FrameDone(s: State): State {
    s.(holds := s.holds[s.bo := s.frame], frame := s.frame + 1)
  }

  /** The first present after entry: nothing to show yet, the parked page becomes the target. */
  function Filled(s: State): State {
    s.(queued := s.bo, queuedSeqno := s.seqno, bo := s.spare, spare := 0, page := s.spare)
  }

  /** Steady state: the queued frame is shown, the new one queued, the page leaving the plane is the next target. */
  function Rotated(s: State, ok: bool): State {
    var t := Set(Waited(s, s.queuedSeqno), s.queued, ok);
    if !ok then Exited(t).(refused := true)
    else Shifted(t)
  }

  function Shifted(t: State): State {
    t.(shown := true, onplane := t.queued, queued := t.bo, queuedSeqno := t.seqno, bo := t.onplane, page := t.onplane)
  }

  /** Entry: two more pages, wait for everything, show the frame just drawn. */
  function Entered(s: State, ok: bool, first: nat, second: nat): State {
    if first == 0 || second == 0 then s.(refused := true)
    else
      var t := Set(Waited(s, s.seqno), s.bo, ok);
      if !ok then t.(refused := true)
      else t.(bound := true, shown := true, onplane := t.bo, queued := 0, queuedSeqno := 0, spare := second,
                 bo := first, page := first)
  }

  function Windowed(s: State, ok: bool, first: nat, second: nat): State {
    var d := FrameDone(s);
    if !d.bound then if d.refused then d else Entered(d, ok, first, second)
    else if d.bo != d.page then Exited(d)
    else if d.queued == 0 then Filled(d)
    else Rotated(d, ok)
  }

  function Obscured(s: State): State {
    var d := FrameDone(s);
    if d.bound then Suspended(d) else d
  }

  // ---- Steps ----

  predicate InRing(s: State, p: nat) {
    p != 0 && (p == s.queued || p == s.onplane || p == s.spare)
  }

  /** Jobs write the resource's page, or pages the ring has nothing to do with; pages newly allocated are not in use. */
  predicate Enabled(s: State, e: Event) {
    match e
    case Submit(p) => p == s.bo || (p != 0 && !InRing(s, p))
    case Retire(n) => s.finished <= n <= s.seqno
    case Reallocate(b) => b != 0 && !InRing(s, b)
    case OtherResource(b) => b != 0 && !InRing(s, b)
    case PresentWindowed(_, first, second) =>
      (first != 0 && second != 0 && !s.bound ==> first != second && first != s.bo && second != s.bo)
    case PresentObscured => true
  }

  function Next(s: State, e: Event): State {
    match e
    case Submit(p) => Submitted(s, p)
    case Retire(n) => s.(finished := n)
    case Reallocate(b) => s.(bo := b)
    case OtherResource(b) => Exited(s).(bo := b, refused := false)
    case PresentWindowed(ok, first, second) => Windowed(s, ok, first, second)
    case PresentObscured => Obscured(s)
  }

  // ---- The invariant ----

  /** Three different pages; the plane shows the one the ring thinks it shows. */
  predicate Pages(s: State) {
    && s.bo != 0 && !InRing(s, s.bo)
    && (!s.bound ==> s.queued == s.onplane == s.spare == s.page == 0 && !s.shown)
    && (s.bound ==> s.page != 0 && !InRing(s, s.page))
    && (s.bound ==> s.onplane != 0 && s.queued != s.onplane && s.spare != s.onplane)
    && (s.bound ==> (s.queued == 0) != (s.spare == 0))
    && (if s.shown then s.pinned == s.onplane else s.pinned == s.displaced == 0)
    && (s.displaced != 0 ==> s.displaced == s.page && s.queued != 0)
  }

  /** Frames reach the plane in order, and what is queued is newer than what was shown. */
  predicate Frames(s: State) {
    && (forall i, k :: 0 <= i < k < |s.shows| ==> s.shows[i].frame < s.shows[k].frame)
    && (forall i :: 0 <= i < |s.shows| ==> s.shows[i].frame < s.frame)
    && (s.queued != 0 ==> Get(s.holds, s.queued) < s.frame)
    && (s.queued != 0 ==> forall i :: 0 <= i < |s.shows| ==> s.shows[i].frame < Get(s.holds, s.queued))
  }

  predicate Jobs(s: State) {
    && (forall p: nat :: p in s.job ==> s.job[p] <= s.seqno)
    && s.finished <= s.seqno && s.queuedSeqno <= s.seqno
    && (s.queued != 0 ==> Get(s.job, s.queued) <= s.queuedSeqno)
    && (forall i :: 0 <= i < |s.shows| ==> s.shows[i].retired)
    && (forall i :: 0 <= i < |s.colours| ==> !s.colours[i].onScan)
  }

  predicate Inv(s: State) {
    Pages(s) && Frames(s) && Jobs(s)
  }

  lemma SubmitKeeps(s: State, p: nat)
    requires Inv(s) && Enabled(s, Submit(p))
    ensures Inv(Submitted(s, p))
  {
  }

  lemma SuspendKeeps(s: State)
    requires Inv(s)
    ensures Inv(Suspended(s)) && Inv(Exited(s))
  {
  }

  lemma ObscuredKeeps(s: State)
    requires Inv(s)
    ensures Inv(Obscured(s))
  {
    hide Inv, FrameDone, Suspended;
    FrameKeeps(s);
    SuspendKeeps(FrameDone(s));
  }

  lemma StepKeeps(s: State, e: Event)
    requires Inv(s) && Enabled(s, e)
    ensures Inv(Next(s, e))
  {
    hide Submitted, Windowed, Obscured, Exited;
    if e.Submit? {
      SubmitKeeps(s, e.target);
    } else if e.PresentWindowed? {
      WindowedKeeps(s, e.ok, e.first, e.second);
    } else if e.PresentObscured? {
      ObscuredKeeps(s);
    } else if e.OtherResource? {
      SuspendKeeps(s);
      ExitFrame(s);
    }
  }

  lemma ExitFrame(s: State)
    ensures Exited(s).queued == Exited(s).onplane == Exited(s).spare == Exited(s).page == 0 && !Exited(s).bound
  {
  }

  lemma FrameKeeps(s: State)
    requires Inv(s)
    ensures Inv(FrameDone(s)) && Get(FrameDone(s).holds, s.bo) == s.frame
  {
  }

  lemma WindowedKeeps(s: State, ok: bool, first: nat, second: nat)
    requires Inv(s) && Enabled(s, PresentWindowed(ok, first, second))
    ensures Inv(Windowed(s, ok, first, second))
  {
    hide Exited, Entered, Rotated, Filled;
    var d := FrameDone(s);
    FrameKeeps(s);
    if !d.bound {
      if !d.refused {
        EnteredKeeps(d, ok, first, second);
      }
    } else if d.bo != d.page {
      SuspendKeeps(d);
    } else if d.queued == 0 {
      FilledKeeps(d);
    } else {
      RotatedKeeps(d, ok);
    }
  }

  lemma FilledKeeps(d: State)
    requires Inv(d) && d.bound && d.bo == d.page && d.queued == 0 && d.frame > 0
    requires Get(d.holds, d.bo) == d.frame - 1 && forall i :: 0 <= i < |d.shows| ==> d.shows[i].frame < d.frame - 1
    ensures Inv(Filled(d))
  {
  }

  lemma EnteredKeeps(d: State, ok: bool, first: nat, second: nat)
    requires Inv(d) && !d.bound && d.frame > 0 && Get(d.holds, d.bo) == d.frame - 1
    requires forall i :: 0 <= i < |d.shows| ==> d.shows[i].frame < d.frame - 1
    requires first != 0 && second != 0 ==> first != second && first != d.bo && second != d.bo
    ensures Inv(Entered(d, ok, first, second))
  {
  }

  lemma RotatedKeeps(d: State, ok: bool)
    requires Inv(d) && d.bound && d.bo == d.page && d.queued != 0 && d.frame > 0
    requires Get(d.holds, d.bo) == d.frame - 1 && Get(d.holds, d.queued) < d.frame - 1
    ensures Inv(Rotated(d, ok))
  {
  }

  // ---- Runs ----

  function Initial(bo: nat): State
    requires bo != 0
  {
    State(false, 0, 0, 0, 0, 0, false, false, bo, 0, 0, 0, 0, 0, map[], map[], [], [])
  }

  function Run(s: State, es: seq<Event>): Option<State>
    decreases |es|
  {
    if es == [] then Some(s)
    else if !Enabled(s, es[0]) then None
    else Run(Next(s, es[0]), es[1..])
  }

  lemma {:induction false} RunKeeps(s: State, es: seq<Event>)
    requires Inv(s) && Run(s, es).Some?
    ensures Inv(Run(s, es).value)
    decreases |es|
  {
    hide Inv, Next, Enabled;
    if es != [] {
      StepKeeps(s, es[0]);
      RunKeeps(Next(s, es[0]), es[1..]);
    }
  }

  /**
   * Over any run of draws, presents, obscured windows and refusals: the plane
   * shows frames in strictly increasing order, each one's jobs retired first,
   * and no job writes a page on the plane or displaced and not yet latched; the
   * ring's pages stay different.
   */
  lemma OverlaySafety(bo: nat, es: seq<Event>)
    requires bo != 0 && Run(Initial(bo), es).Some?
    ensures var t := Run(Initial(bo), es).value;
            && (forall i, k :: 0 <= i < k < |t.shows| ==> t.shows[i].frame < t.shows[k].frame)
            && (forall i :: 0 <= i < |t.shows| ==> t.shows[i].retired)
            && (forall i :: 0 <= i < |t.colours| ==> !t.colours[i].onScan)
            && (t.bound ==> t.onplane != 0 && t.bo != t.onplane && t.page != t.onplane)
            && (t.bound ==> var third := if t.queued != 0 then t.queued else t.spare;
                            third != 0 && third != t.onplane && third != t.bo && third != t.page)
  {
    RunKeeps(Initial(bo), es);
  }

  /** In steady state nothing is skipped: each present shows the frame before the one it is given. */
  lemma OneFrameLatency(s: State, first: nat, second: nat)
    requires Inv(s) && s.bound && s.bo == s.page && s.queued != 0 && Get(s.holds, s.queued) + 1 == s.frame
    ensures var t := Windowed(s, true, first, second);
            && t.bound && t.bo == t.page && t.queued == s.bo && t.onplane == s.queued && t.bo == s.onplane
            && Get(t.holds, t.queued) + 1 == t.frame == s.frame + 1
            && t.shows == s.shows + [Show(s.frame - 1, s.queued, true)]
  {
  }
}
