/**
 * Creation taken apart: when the firmware has no memory at first, the driver
 * releases the table lock to give the pool buffers back, and the handle it has
 * chosen is not marked as used meanwhile.
 */
module BoWindow {
  import opened Bytes
  import opened Buffers
  import opened BoTable
  import opened BoRuns

  /** A creation between its two allocations. */
  datatype Waiting = Waiting(handle: nat, size: nat, shader: bool)

  /** The first half: a handle is chosen, the first allocation fails. */
  function Begin(s: Store, size: nat, shader: bool): (r: (Store, Option<Waiting>))
    requires Shape(s)
  {
    var h := FreeHandle(s);
    if h == 0 then (s, None) else (s.(next := h), Some(Waiting(h, size, shader)))
  }

  /** The second half writes the entry without looking at it. */
  function Finish(s: Store, w: Waiting, ok: bool, address: nat): Store
    requires Shape(s) && w.handle < MAX_BOS
  {
    var h := w.handle;
    if !ok then s
    else if w.shader && w.size % 8 != 0 then s.(table := s.table[h := FREE])
    else
      s.(table := s.table[h := Entry(1, true, false, address, w.size)], memBytes := s.memBytes + w.size,
         clients := s.clients[h := s.clients[h] + 1])
  }

  /** With nothing in between but the reclaim, the halves are the one call. */
  lemma CreateSplits(s: Store, size: nat, shader: bool, ok: bool, address: nat)
    requires Inv(s)
    ensures Begin(s, size, shader).1.Some? <==> FreeHandle(s) != 0
    ensures Begin(s, size, shader).1.Some? ==>
              Finish(Reclaim(Begin(s, size, shader).0), Begin(s, size, shader).1.value, ok, address)
                == Create(s, size, shader, if ok then Second else Fails, address).0
  {
  }

  // ---- Who gets a handle ----

  /** The search gives out the first free handle in scan order behind the last one given. */
  lemma FreeHandleIs(s: Store, h: nat)
    requires |s.table| == MAX_BOS && s.next < MAX_BOS && 0 < h < MAX_BOS
    ensures FreeHandle(s) == h
       <==> && h != s.next && s.table[h].refcount == 0
            && forall g :: 0 < g < MAX_BOS && g != s.next && Distance(s.next, g) < Distance(s.next, h) ==>
                 s.table[g].refcount > 0
  {
    hide Search, Distance, Candidate;
    SearchFirst(s.table, s.next, 1);
    FreeHandleExactly(s);
    var f := FreeHandle(s);
    DistanceIs(s.next, h);
    DistanceIs(s.next, f);
    if f == h {
      forall g | 0 < g < MAX_BOS && g != s.next && Distance(s.next, g) < Distance(s.next, h)
        ensures s.table[g].refcount > 0
      {
        DistanceIs(s.next, g);
        assert !Takes(s.table, s.next, Distance(s.next, g));
      }
    } else if f != 0 && h != s.next && s.table[h].refcount == 0 {
      assert Takes(s.table, s.next, Distance(s.next, h));
      assert Distance(s.next, f) < Distance(s.next, h);
    }
  }

  lemma DistanceIs(next: nat, h: nat)
    requires next < MAX_BOS && h < MAX_BOS
    ensures Candidate(next, Distance(next, h)) == h && (h != next ==> 1 <= Distance(next, h) < MAX_BOS)
  {
  }

  lemma {:induction false} SearchFirst(table: seq<Entry>, next: nat, i: nat)
    requires |table| == MAX_BOS && next < MAX_BOS && 1 <= i <= MAX_BOS
    ensures var h := Search(table, next, i);
            h != 0 ==> i <= Distance(next, h) && forall j :: i <= j < Distance(next, h) ==> !Takes(table, next, j)
    decreases MAX_BOS - i
  {
    if i < MAX_BOS && !Takes(table, next, i) {
      SearchFirst(table, next, i + 1);
    }
  }

  /** The handle a call takes from the search, 0 when it takes none. */
  function Given(s: Store, op: Op): nat
    requires Shape(s)
  {
    match op
    case CreateBo(size, shader, outcome, address) => Create(s, size, shader, outcome, address).1
    case OpenPage(name, pages, pageSize) =>
      if FindPage(s.table, name, 1) == 0 then Open(s, name, pages, pageSize).1 else 0
    case _ => 0
  }

  /** A free handle comes into use exactly when a call takes it from the search. */
  lemma TakenExactly(s: Store, op: Op, h: nat)
    requires Inv(s) && Enabled(s, op) && 0 < h < MAX_BOS && s.table[h].refcount == 0
    ensures |Apply(s, op).table| == MAX_BOS
    ensures Apply(s, op).table[h].refcount > 0 <==> Given(s, op) == h
    ensures Given(s, op) != 0 ==> Given(s, op) == FreeHandle(s)
  {
    hide BoBytes, Sum, Search, RoundUp, Ref, Unref;
    assert EntrySound(s, multiset{}, h);
    if !op.CreateBo? && !op.OpenPage? {
      StaysFree(s, op, h);
    } else if op.OpenPage? {
      var page := FindPage(s.table, op.name, 1);
      if page != 0 {
        RefLeaves(s, page, h);
      }
    }
  }

  lemma RefLeaves(s: Store, x: nat, h: nat)
    requires |s.table| == MAX_BOS && x < MAX_BOS && h < MAX_BOS && x != h
    ensures |Ref(s, x).table| == MAX_BOS && Ref(s, x).table[h] == s.table[h]
  {
  }

  /** No other call touches a free entry. */
  lemma StaysFree(s: Store, op: Op, h: nat)
    requires Inv(s) && Enabled(s, op) && 0 < h < MAX_BOS && s.table[h] == FREE && !op.CreateBo? && !op.OpenPage?
    ensures |Apply(s, op).table| == MAX_BOS && Apply(s, op).table[h] == FREE
  {
    hide BoBytes, Sum, Sound, RoundUp, Search, Ref, Unref;
    if op.CloseBo? {
      UnrefSurvives(s, s, op.handle, h);
    } else if op.StartBlit? {
      if 0 < op.handle < MAX_BOS && s.table[op.handle].refcount > 0 {
        RefLeaves(s, op.handle, h);
      }
    } else if op.FinishBlit? {
      var t := s.(blits := s.blits[op.handle := s.blits[op.handle] - 1]);
      UnrefSurvives(s, t, op.handle, h);
      UnrefSurvives(s, t.(dma := op.handle), s.dma, h);
    } else if op.Flip? {
      UnrefSurvives(s, s, s.dma, h);
    } else if op.Latch? {
      UnrefSurvives(s, s, s.displaced, h);
    } else if op.ClearOverlay? {
      UnrefSurvives(s, s, s.pinned, h);
      var t := if s.pinned != 0 then Unref(s, s.pinned).(pinned := 0) else s;
      UnrefSurvives(s, t, t.displaced, h);
    } else if op.SwitchOverlay? {
      RefLeaves(s, op.handle, h);
    } else if op.SwitchDone? {
      var t := s.(replaced := None);
      UnrefSurvives(s, t, s.pinned, h);
      if s.replaced.Some? {
        UnrefSurvives(s, Unref(t, s.pinned).(pinned := 0), s.replaced.value, h);
      }
    }
  }

  // ---- The entry is written twice ----

  /** The second half keeps counts and account if and only if the handle is still free. */
  lemma FinishKeepsExactly(s: Store, w: Waiting, ok: bool, address: nat)
    requires Inv(s) && 0 < w.handle < MAX_BOS
    ensures Inv(Finish(s, w, ok, address)) <==> !ok || s.table[w.handle].refcount == 0
  {
    hide BoBytes, Sum;
    var h := w.handle;
    assert EntrySound(s, multiset{}, h);
    if ok && s.table[h].refcount == 0 {
      assert s.table[h := FREE] == s.table;
      var e := Entry(1, true, false, address, w.size);
      FillKeeps(s, multiset{}, h, e);
      var t := s.(table := s.table[h := e], memBytes := s.memBytes + w.size);
      Rehold(t, multiset{} + multiset{h}, t.(clients := t.clients[h := t.clients[h] + 1]), multiset{});
    } else if ok {
      assert !EntrySound(Finish(s, w, ok, address), multiset{}, h);
    }
  }

  // ---- Runs ----

  datatype System = System(store: Store, waiting: seq<Waiting>)

  datatype Event =
    | Call(op: Op)
    | BeginWait(size: nat, shader: bool)
    | Resume(i: nat, ok: bool, address: nat)

  predicate Possible(y: System, e: Event) {
    && Shape(y.store)
    && match e
       case Call(op) => Enabled(y.store, op)
       case BeginWait(_, _) => true
       case Resume(i, _, _) => i < |y.waiting| && y.waiting[i].handle < MAX_BOS
  }

  function After(y: System, e: Event): System
    requires Possible(y, e)
  {
    match e
    case Call(op) => y.(store := Apply(y.store, op))
    case BeginWait(size, shader) =>
      var (s, w) := Begin(y.store, size, shader);
      System(s, if w.Some? then y.waiting + [w.value] else y.waiting)
    case Resume(i, ok, address) =>
      System(Finish(y.store, y.waiting[i], ok, address), y.waiting[..i] + y.waiting[i + 1..])
  }

  /** The states a run passes through, the first one included; None when an event is not possible. */
  function Trace(y: System, es: seq<Event>): (r: Option<seq<System>>)
    ensures r.Some? ==> |r.value| == |es| + 1 && r.value[0] == y
    decreases |es|
  {
    if es == [] then Some([y])
    else if !Possible(y, es[0]) then None
    else
      match Trace(After(y, es[0]), es[1..])
      case None => None
      case Some(ys) => Some([y] + ys)
  }

  /** A creation that resumes with memory finds its handle still free. */
  predicate FindsFree(y: System, e: Event)
    requires Possible(y, e)
  {
    e.Resume? && e.ok ==> y.store.table[y.waiting[e.i].handle].refcount == 0
  }

  predicate AllFree(y: System, es: seq<Event>)
    decreases |es|
  {
    es != [] ==> Possible(y, es[0]) && FindsFree(y, es[0]) && AllFree(After(y, es[0]), es[1..])
  }

  predicate WaitingSound(y: System) {
    forall w <- y.waiting :: 0 < w.handle < MAX_BOS
  }

  lemma EventKeepsExactly(y: System, e: Event)
    requires Inv(y.store) && WaitingSound(y) && Possible(y, e)
    ensures Inv(After(y, e).store) <==> FindsFree(y, e)
    ensures WaitingSound(After(y, e))
  {
    hide Inv, Apply, Enabled, Finish, Search;
    match e
    case Call(op) => StepKeeps(y.store, op);
    case BeginWait(size, shader) => BeginKeeps(y.store, size, shader);
    case Resume(i, ok, address) => FinishKeepsExactly(y.store, y.waiting[i], ok, address);
  }

  lemma BeginKeeps(s: Store, size: nat, shader: bool)
    requires Inv(s)
    ensures Inv(Begin(s, size, shader).0)
    ensures Begin(s, size, shader).1.Some? ==> 0 < Begin(s, size, shader).1.value.handle < MAX_BOS
  {
    hide BoBytes, Sum, Search;
    SameEntries(s, Begin(s, size, shader).0);
  }

  /** Counts and account are exact all along a run if and only if every resumed creation finds its handle free. */
  lemma {:induction false} RunKeepsExactly(y: System, es: seq<Event>)
    requires Inv(y.store) && WaitingSound(y) && Trace(y, es).Some?
    ensures (forall t <- Trace(y, es).value :: Inv(t.store)) <==> AllFree(y, es)
    decreases |es|
  {
    hide Inv, After, Possible, FindsFree;
    if es != [] {
      var ys := Trace(After(y, es[0]), es[1..]).value;
      EventKeepsExactly(y, es[0]);
      assert Trace(y, es).value == [y] + ys;
      assert ys[0] == After(y, es[0]);
      if FindsFree(y, es[0]) {
        RunKeepsExactly(After(y, es[0]), es[1..]);
        assert forall t <- Trace(y, es).value :: t == y || t in ys;
        assert forall t <- ys :: t in Trace(y, es).value;
      } else {
        assert ys[0] in Trace(y, es).value;
      }
    }
  }

  // ---- A handle given out twice ----

  /** Two handles are left. One creation waits with the first, one takes the second, one is given the first again. */
  const CLASH: seq<Event> :=
    [BeginWait(4096, false), Call(CreateBo(4096, false, First, 4096)), Call(CreateBo(4096, false, First, 8192)),
     Resume(0, true, 12288)]

  /** A run from the start; at its end two clients hold a handle whose entry counts one reference. */
  lemma GivenTwice()
    ensures Run(Blank(), Creates(MAX_BOS - 3)) == Some(Filled(MAX_BOS - 3))
    ensures Trace(System(Filled(MAX_BOS - 3), []), CLASH).Some?
    ensures var y := Trace(System(Filled(MAX_BOS - 3), []), CLASH).value[4];
            && |y.store.table| == |y.store.clients| == MAX_BOS && !Inv(y.store)
            && y.store.clients[MAX_BOS - 2] == 2 && y.store.table[MAX_BOS - 2].refcount == 1
  {
    CreatesFill(MAX_BOS - 3);
    hide Search, Run, Creates, Inv;
    var y0 := System(Filled(MAX_BOS - 3), []);
    NextTaken(y0.store);
    var y1 := After(y0, CLASH[0]);
    NextTaken(y1.store);
    var y2 := After(y1, CLASH[1]);
    ComesRound(y2.store);
    var y3 := After(y2, CLASH[2]);
    var y4 := After(y3, CLASH[3]);
    Steps(y0, CLASH);
    assert !EntrySound(y4.store, multiset{}, MAX_BOS - 2);
  }

  lemma Steps(y: System, es: seq<Event>)
    requires |es| == 4 && Possible(y, es[0]) && Possible(After(y, es[0]), es[1])
    requires Possible(After(After(y, es[0]), es[1]), es[2])
    requires Possible(After(After(After(y, es[0]), es[1]), es[2]), es[3])
    ensures Trace(y, es).Some?
    ensures Trace(y, es).value[4] == After(After(After(After(y, es[0]), es[1]), es[2]), es[3])
  {
    hide Possible, After;
    var y1 := After(y, es[0]);
    var y2 := After(y1, es[1]);
    var y3 := After(y2, es[2]);
    assert Trace(After(y3, es[3]), []) == Some([After(y3, es[3])]);
    assert es[3..] == [es[3]] && es[3..][1..] == [];
    assert Trace(y3, es[3..]) == Some([y3] + [After(y3, es[3])]);
    assert es[2..][1..] == es[3..] && es[1..][1..] == es[2..];
    assert Trace(y2, es[2..]).Some? && Trace(y1, es[1..]).Some?;
  }

  /** With all other handles used the search comes round to the one a creation waits with. */
  lemma ComesRound(s: Store)
    requires |s.table| == MAX_BOS && s.next == MAX_BOS - 1
    requires forall h :: 0 < h < MAX_BOS ==> (s.table[h].refcount == 0 <==> h == MAX_BOS - 2)
    ensures FreeHandle(s) == MAX_BOS - 2
  {
    hide Search;
    FreeHandleExactly(s);
    assert s.table[MAX_BOS - 2].refcount == 0;
  }
}
