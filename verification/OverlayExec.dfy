/** The presents as the driver runs them, on its static state. */
module OverlayExec {
  import opened OverlayRing

  datatype Past = Past(frame: nat, holds: map<nat, nat>, job: map<nat, nat>, shows: seq<Show>, colours: seq<Colour>)

  class Overlay {
    // aros_ovl and rsc->bo
    var bound: bool
    var page: nat
    var queued: nat
    var queuedSeqno: nat
    var onplane: nat
    var spare: nat
    var shown: bool
    var refused: bool
    var bo: nat
    // the driver
    var pinned: nat
    var displaced: nat
    var seqno: nat
    var finished: nat
    ghost var past: Past

    ghost function Abs(): State
      reads this
    {
      State(bound, page, queued, queuedSeqno, onplane, spare, shown, refused, bo,
            pinned, displaced, seqno, finished, past.frame, past.holds, past.job, past.shows, past.colours)
    }

    constructor (bo: nat)
      requires bo != 0
      ensures Abs() == Initial(bo)
    {
      bound, page, queued, queuedSeqno, onplane, spare, shown, refused := false, 0, 0, 0, 0, 0, false, false;
      this.bo, pinned, displaced, seqno, finished := bo, 0, 0, 0, 0;
      past := Past(0, map[], map[], [], []);
    }

    method LatchWait()
      modifies this`displaced
      ensures Abs() == Latched(old(Abs()))
    {
      if displaced == 0 {
        return;
      }
      displaced := 0;
    }

    /** A submit that writes the page: colouring the displaced page waits for its latch. */
    method Submit(target: nat)
      modifies this`displaced, this`seqno, this`past
      ensures Abs() == Submitted(old(Abs()), target)
    {
      if displaced != 0 && target == displaced {
        LatchWait();
      }
      seqno := seqno + 1;
      past := past.(job := past.job[target := seqno],
                    colours := past.colours + [Colour(target, target == pinned || target == displaced)]);
    }

    method WaitFor(want: nat)
      modifies this`finished
      ensures Abs() == Waited(old(Abs()), want)
    {
      if finished < want {
        finished := want;
      }
    }

    method SetOverlay(target: nat, ok: bool)
      modifies this`pinned, this`displaced, this`past
      ensures Abs() == Set(old(Abs()), target, ok)
    {
      LatchWait();
      if !ok {
        pinned := 0;
        return;
      }
      var prev := pinned;
      pinned := target;
      if prev != target {
        displaced := prev;
      }
      past := past.(shows := past.shows + [Show(Get(past.holds, target), target, Get(past.job, target) <= finished)]);
    }

    method Suspend()
      modifies this`pinned, this`displaced, this`shown
      ensures Abs() == Suspended(old(Abs()))
    {
      if shown {
        pinned, displaced := 0, 0;
      }
      shown := false;
    }

    method Exit()
      modifies this
      ensures Abs() == Exited(old(Abs()))
    {
      Suspend();
      queued, onplane, spare, queuedSeqno := 0, 0, 0, 0;
      bound, page := false, 0;
    }

    ghost method NextFrame()
      modifies this`past
      ensures Abs() == FrameDone(old(Abs()))
    {
      past := past.(holds := past.holds[bo := past.frame], frame := past.frame + 1);
    }

    method Rotate(ok: bool)
      modifies this
      ensures Abs() == Rotated(old(Abs()), ok)
    {
      hide Set, Waited, Exited, Shifted;
      WaitFor(queuedSeqno);
      SetOverlay(queued, ok);
      if !ok {
        Exit();
        refused := true;
        return;
      }
      Shift();
    }

    method Shift()
      modifies this`shown, this`onplane, this`queued, this`queuedSeqno, this`bo, this`page
      ensures Abs() == Shifted(old(Abs()))
    {
      shown, onplane, queued, queuedSeqno, bo, page := true, queued, bo, seqno, onplane, onplane;
    }

    method Enter(ok: bool, first: nat, second: nat)
      modifies this
      ensures Abs() == Entered(old(Abs()), ok, first, second)
    {
      hide Set, Waited;
      if first == 0 || second == 0 {
        refused := true;
        return;
      }
      WaitFor(seqno);
      SetOverlay(bo, ok);
      if !ok {
        refused := true;
        return;
      }
      bound, shown, onplane := true, true, bo;
      queued, queuedSeqno, spare := 0, 0, second;
      bo, page := first, first;
    }

    /** aros_drm_blit_resource for a window that is free and fully visible. */
    method PresentWindowed(ok: bool, first: nat, second: nat)
      modifies this
      ensures Abs() == Windowed(old(Abs()), ok, first, second)
      ensures old(Inv(Abs())) && old(Enabled(Abs(), Event.PresentWindowed(ok, first, second))) ==> Inv(Abs())
    {
      hide Inv, FrameDone, Entered, Exited, Rotated;
      ghost var s := Abs();
      if Inv(s) && Enabled(s, Event.PresentWindowed(ok, first, second)) {
        WindowedKeeps(s, ok, first, second);
      }
      NextFrame();
      if bound {
        if bo == page {
          if queued == 0 {
            queued, queuedSeqno := bo, seqno;
            bo, spare := spare, 0;
            page := bo;
          } else {
            Rotate(ok);
          }
        } else {
          Exit();
        }
      } else if !refused {
        Enter(ok, first, second);
      }
    }

    /** The same for an obscured window: the plane is hidden, the pages are kept. */
    method PresentObscured()
      modifies this
      ensures Abs() == Obscured(old(Abs()))
      ensures old(Inv(Abs())) ==> Inv(Abs())
    {
      hide Inv, FrameDone, Suspended;
      if Inv(Abs()) {
        ObscuredKeeps(Abs());
      }
      NextFrame();
      if bound {
        Suspend();
      }
    }
  }
}
