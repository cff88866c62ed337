/** Any sequence of buffer-object calls: who keeps a buffer alive, and what memory is accounted for. */
module BoRuns {
  import opened Bytes
  import opened Buffers
  import opened BoTable

  datatype Op =
    | CreateBo(size: nat, shader: bool, outcome: Alloc, address: nat)
    | OpenPage(name: nat, pages: (nat, nat), pageSize: nat)
    | CloseBo(handle: nat)
    | StartBlit(handle: nat) | FinishBlit(handle: nat, usedDma: bool)
    | Flip
    | SwitchOverlay(handle: nat) | SwitchDone(active: bool) | Latch | ClearOverlay
    | GetPool(i: nat, bytes: nat, outcome: Alloc) | ReclaimPools

  /**
   * What callers owe: a client closes what it opened, a blit ends once, and
   * overlay calls do not overlap (a set waits for the latch before it pins).
   */
  predicate Enabled(s: Store, op: Op) {
    && Shape(s)
    && match op
       case CloseBo(h) => 0 < h < MAX_BOS && s.table[h].refcount > 0 ==> s.clients[h] > 0
       case FinishBlit(h, _) => h < MAX_BOS && s.blits[h] > 0
       case SwitchOverlay(h) => s.replaced.None? && s.displaced == 0 && h < MAX_BOS && s.table[h].address != 0
       case SwitchDone(_) => s.displaced == 0 && s.pinned != 0
       case Latch => s.replaced.None?
       case ClearOverlay => s.replaced.None?
       case GetPool(i, _, _) => i < POOLS
       case _ => true
  }

  function Apply(s: Store, op: Op): Store
    requires Enabled(s, op)
  {
    match op
    case CreateBo(size, shader, outcome, address) => Create(s, size, shader, outcome, address).0
    case OpenPage(name, pages, pageSize) => Open(s, name, pages, pageSize).0
    case CloseBo(h) => Close(s, h)
    case StartBlit(h) => BlitBegin(s, h)
    case FinishBlit(h, usedDma) => BlitEnd(s, h, usedDma)
    case Flip => FlipUnpin(s)
    case SwitchOverlay(h) => SetBegin(s, h)
    case SwitchDone(active) => SetEnd(s, active)
    case Latch => LatchRetire(s)
    case ClearOverlay => Clear(s)
    case GetPool(i, bytes, outcome) => PoolGet(s, i, bytes, outcome)
    case ReclaimPools => Reclaim(s)
  }

  function Run(s: Store, ops: seq<Op>): Option<Store>
    decreases |ops|
  {
    if ops == [] then Some(s)
    else if !Enabled(s, ops[0]) then None
    else Run(Apply(s, ops[0]), ops[1..])
  }

  lemma StepKeeps(s: Store, op: Op)
    requires Inv(s) && Enabled(s, op)
    ensures Inv(Apply(s, op))
  {
    hide Inv;
    match op
    case CreateBo(size, shader, outcome, address) => CreateKeeps(s, size, shader, outcome, address);
    case OpenPage(name, pages, pageSize) => OpenKeeps(s, name, pages, pageSize);
    case CloseBo(h) => CloseKeeps(s, h);
    case StartBlit(h) => BlitKeeps(s, h, false);
    case FinishBlit(h, usedDma) => BlitKeeps(s, h, usedDma);
    case Flip => FlipKeeps(s);
    case SwitchOverlay(h) => SetBeginKeeps(s, h);
    case SwitchDone(active) => SetEndKeeps(s, active);
    case Latch => LatchKeeps(s);
    case ClearOverlay => ClearKeeps(s);
    case GetPool(i, bytes, outcome) => PoolKeeps(s, i, bytes, outcome);
    case ReclaimPools => ReclaimKeeps(s);
  }

  /** After any calls: counts are references held, and the account is live firmware buffers plus all pool buffers. */
  lemma {:induction false} RunKeeps(s: Store, ops: seq<Op>)
    requires Inv(s) && Run(s, ops).Some?
    ensures Inv(Run(s, ops).value)
    decreases |ops|
  {
    hide Inv, Apply, Enabled;
    if ops != [] {
      StepKeeps(s, ops[0]);
      RunKeeps(Apply(s, ops[0]), ops[1..]);
    }
  }

  function Blank(): Store {
    Store(seq(MAX_BOS, h => FREE), 0, 0, seq(POOLS, i => 0), 0, 0, 0, seq(MAX_BOS, h => 0), seq(MAX_BOS, h => 0), None)
  }

  lemma {:induction false} NothingHeld(table: seq<Entry>)
    requires forall e <- table :: !e.backed
    ensures BoBytes(table) == 0
  {
    if table != [] {
      NothingHeld(table[..|table| - 1]);
    }
  }

  lemma BlankHolds()
    ensures Inv(Blank())
  {
    hide BoBytes, Sum;
    NothingHeld(Blank().table);
    SumZero(POOLS);
    assert Blank().pools == seq(POOLS, i => 0);
  }

  // ---- Pinned buffers stay ----

  predicate SameBuffer(e: Entry, f: Entry) {
    e.(refcount := 0) == f.(refcount := 0)
  }

  /** The entry is the same buffer, or has lost its last reference. */
  predicate Survives(s: Store, t: Store, h: nat)
    requires |s.table| == |t.table| == MAX_BOS && h < MAX_BOS
  {
    s.table[h].refcount > 0 ==> SameBuffer(s.table[h], t.table[h]) || t.table[h] == FREE
  }

  lemma UnrefSurvives(s: Store, t: Store, x: nat, h: nat)
    requires |s.table| == |t.table| == MAX_BOS && h < MAX_BOS && Survives(s, t, h)
    requires s.table[h].refcount == 0 ==> t.table[h] == s.table[h]
    ensures |Unref(t, x).table| == MAX_BOS && Survives(s, Unref(t, x), h)
    ensures s.table[h].refcount == 0 ==> Unref(t, x).table[h] == s.table[h]
  {
  }

  lemma RefSurvives(s: Store, x: nat, h: nat)
    requires |s.table| == MAX_BOS && x < MAX_BOS && h < MAX_BOS && s.table[x].refcount > 0
    ensures |Ref(s, x).table| == MAX_BOS && Survives(s, Ref(s, x), h)
  {
  }

  lemma StepSurvives(s: Store, op: Op, h: nat)
    requires Inv(s) && Enabled(s, op) && h < MAX_BOS
    ensures |Apply(s, op).table| == MAX_BOS && Survives(s, Apply(s, op), h)
  {
    hide BoBytes, Sum, Sound, RoundUp, Search, Ref, Unref;
    if op.CloseBo? {
      UnrefSurvives(s, s, op.handle, h);
    } else if op.StartBlit? {
      if 0 < op.handle < MAX_BOS && s.table[op.handle].refcount > 0 {
        RefSurvives(s, op.handle, h);
      }
    } else if op.FinishBlit? {
      var t := s.(blits := s.blits[op.handle := s.blits[op.handle] - 1]);
      UnrefSurvives(s, t, op.handle, h);
      UnrefSurvives(s, t.(dma := op.handle), s.dma, h);
    } else if op.Flip? {
      UnrefSurvives(s, s, s.dma, h);
    } else if op.Latch? {
      UnrefSurvives(s, s, s.displaced, h);
    } else if op.ClearOverlay? {
      ClearSurvives(s, h);
    } else if op.SwitchOverlay? || op.SwitchDone? {
      SwitchSurvives(s, op, h);
    } else if op.CreateBo? || op.OpenPage? {
      AllocSurvives(s, op, h);
    }
  }

  lemma ClearSurvives(s: Store, h: nat)
    requires |s.table| == MAX_BOS && h < MAX_BOS
    ensures |Clear(s).table| == MAX_BOS && Survives(s, Clear(s), h)
  {
    hide Unref;
    UnrefSurvives(s, s, s.pinned, h);
    var t := if s.pinned != 0 then Unref(s, s.pinned).(pinned := 0) else s;
    UnrefSurvives(s, t, t.displaced, h);
  }

  lemma SwitchSurvives(s: Store, op: Op, h: nat)
    requires Inv(s) && Enabled(s, op) && h < MAX_BOS && (op.SwitchOverlay? || op.SwitchDone?)
    ensures |Apply(s, op).table| == MAX_BOS && Survives(s, Apply(s, op), h)
  {
    hide BoBytes, Sum, Ref, Unref;
    if op.SwitchOverlay? {
      assert EntrySound(s, multiset{}, op.handle);
      RefSurvives(s, op.handle, h);
    } else {
      var t := s.(replaced := None);
      UnrefSurvives(s, t, s.pinned, h);
      if s.replaced.Some? {
        UnrefSurvives(s, Unref(t, s.pinned).(pinned := 0), s.replaced.value, h);
      }
    }
  }

  lemma AllocSurvives(s: Store, op: Op, h: nat)
    requires Inv(s) && Enabled(s, op) && h < MAX_BOS && (op.CreateBo? || op.OpenPage?)
    ensures |Apply(s, op).table| == MAX_BOS && Survives(s, Apply(s, op), h)
  {
    hide BoBytes, Sum, Ref, Search;
    if op.OpenPage? {
      var page := FindPage(s.table, op.name, 1);
      if page != 0 {
        RefSurvives(s, page, h);
      }
    }
  }

  /** While anything holds a buffer across a call, its memory, size and kind do not change under it. */
  lemma PinnedStays(s: Store, op: Op, h: nat)
    requires Inv(s) && Enabled(s, op) && 0 < h < MAX_BOS && Holders(s, h) > 0
    ensures s.table[h].refcount > 0
    ensures Inv(Apply(s, op)) && (Holders(Apply(s, op), h) > 0 ==> SameBuffer(s.table[h], Apply(s, op).table[h]))
    ensures Holders(Apply(s, op), h) == 0 ==> Apply(s, op).table[h] == FREE
  {
    hide Apply, Enabled, Holders;
    StepKeeps(s, op);
    StepSurvives(s, op, h);
    var t := Apply(s, op);
    assert EntrySound(s, multiset{}, h) && EntrySound(t, multiset{}, h);
  }

  /** The overlay and the DMA engine read live memory: their pins are references. */
  lemma PinsAreLive(s: Store)
    requires Inv(s)
    ensures s.pinned != 0 ==> s.table[s.pinned].refcount > 0
    ensures s.displaced != 0 ==> s.table[s.displaced].refcount > 0
    ensures s.dma != 0 ==> s.table[s.dma].refcount > 0
    ensures s.replaced.Some? ==> s.table[s.replaced.value].refcount > 0
    ensures forall h :: 0 < h < MAX_BOS && s.blits[h] > 0 ==> s.table[h].refcount > 0
  {
    assert EntrySound(s, multiset{}, s.pinned) && EntrySound(s, multiset{}, s.displaced) &&
        EntrySound(s, multiset{}, s.dma);
    if s.replaced.Some? {
      assert EntrySound(s, multiset{}, s.replaced.value);
    }
    forall h | 0 < h < MAX_BOS && s.blits[h] > 0
      ensures s.table[h].refcount > 0
    {
      assert EntrySound(s, multiset{}, h);
    }
  }

  // ---- The handle search ----

  /** One client has created n pages, which were given the handles 1 to n. */
  function Filled(n: nat): Store
    requires n < MAX_BOS
  {
    Blank().(table := seq(MAX_BOS, h => if 0 < h <= n then Entry(1, true, false, 4096 * h, 4096) else FREE),
             next := n, memBytes := 4096 * n, clients := seq(MAX_BOS, h => if 0 < h <= n then 1 else 0))
  }

  function Creates(n: nat): seq<Op> {
    if n == 0 then [] else Creates(n - 1) + [CreateBo(4096, false, First, 4096 * n)]
  }

  lemma {:induction false} RunSnoc(s: Store, ops: seq<Op>, op: Op)
    requires Run(s, ops).Some? && Enabled(Run(s, ops).value, op)
    ensures Run(s, ops + [op]) == Some(Apply(Run(s, ops).value, op))
    decreases |ops|
  {
    hide Apply, Enabled;
    if ops == [] {
      assert [op][1..] == [];
    } else {
      RunSnoc(Apply(s, ops[0]), ops[1..], op);
      assert (ops + [op])[1..] == ops[1..] + [op];
    }
  }

  lemma {:induction false} CreatesFill(n: nat)
    requires n < MAX_BOS
    ensures Run(Blank(), Creates(n)) == Some(Filled(n))
  {
    hide Search, Run;
    if n == 0 {
      assert Run(Blank(), []) == Some(Blank()) by {
        NoOps(Blank());
      }
      assert Filled(0) == Blank();
    } else {
      var s, op := Filled(n - 1), CreateBo(4096, false, First, 4096 * n);
      CreatesFill(n - 1);
      RunSnoc(Blank(), Creates(n - 1), op);
      assert FreeHandle(s) == n by {
        NextTaken(s);
      }
      assert Apply(s, op) == Filled(n);
    }
  }

  lemma NoOps(s: Store)
    ensures Run(s, []) == Some(s)
  {
  }

  lemma NextTaken(s: Store)
    requires |s.table| == MAX_BOS && s.next + 1 < MAX_BOS && s.table[s.next + 1].refcount == 0
    ensures FreeHandle(s) == s.next + 1
  {
    assert Candidate(s.next, 1) == s.next + 1;
  }

  /** A client creates as many buffers as there are handles and closes the last, which is free but never found. */
  lemma SearchMissesFreeHandle()
    ensures Run(Blank(), Creates(MAX_BOS - 1) + [CloseBo(MAX_BOS - 1)]).Some?
    ensures var s := Run(Blank(), Creates(MAX_BOS - 1) + [CloseBo(MAX_BOS - 1)]).value;
            |s.table| == MAX_BOS && FreeHandle(s) == 0 && s.table[MAX_BOS - 1] == FREE
  {
    hide Search, Run, Creates;
    CreatesFill(MAX_BOS - 1);
    RunSnoc(Blank(), Creates(MAX_BOS - 1), CloseBo(MAX_BOS - 1));
    FreeHandleExactly(Apply(Filled(MAX_BOS - 1), CloseBo(MAX_BOS - 1)));
  }

  // ---- Sweeping everything ----

  /** Only the vertex scratch of each set is left. */
  function AttrOnly(pools: seq<nat>): seq<nat> {
    seq(|pools|, i requires 0 <= i < |pools| => if i % 5 == ATTR then pools[i] else 0)
  }

  /** vc4_aros_release_all_bos: the overlay is cleared, every entry and four of the five pool buffers are freed. */
  function ReleaseAll(s: Store): Store
    requires Shape(s)
  {
    var c := Clear(s);
    c.(table := seq(MAX_BOS, h => FREE), pools := AttrOnly(s.pools), dma := 0,
       clients := seq(MAX_BOS, h => 0), blits := seq(MAX_BOS, h => 0),
       memBytes := c.memBytes - BoBytes(c.table) - (Sum(s.pools) - Sum(AttrOnly(s.pools))))
  }

  /** What stays allocated is exactly the attr buffers: none only if no submission ever needed one. */
  lemma ReleaseLeavesAttr(s: Store)
    requires Inv(s) && s.replaced.None?
    ensures Inv(ReleaseAll(s))
    ensures ReleaseAll(s).memBytes == Sum(AttrOnly(s.pools))
    ensures ReleaseAll(s).memBytes == 0 <==> s.pools[ATTR] == s.pools[5 + ATTR] == s.pools[10 + ATTR] == 0
  {
    hide BoBytes, Sum, Clear, AttrOnly;
    ClearKeeps(s);
    ClearFrame(s);
    var t := ReleaseAll(s);
    NothingHeld(t.table);
    AttrSum(s.pools);
    forall h | 0 <= h < MAX_BOS
      ensures EntrySound(t, multiset{}, h)
    {
    }
  }

  lemma ClearFrame(s: Store)
    requires Shape(s)
    ensures Clear(s).pools == s.pools && Clear(s).next == s.next && Clear(s).replaced == s.replaced
    ensures Clear(s).pinned == 0 && Clear(s).displaced == 0 && |Clear(s).table| == MAX_BOS
  {
  }

  lemma {:induction false} SumZeroes(sizes: seq<nat>)
    ensures Sum(sizes) == 0 <==> forall i :: 0 <= i < |sizes| ==> sizes[i] == 0
  {
    if sizes != [] {
      SumZeroes(sizes[..|sizes| - 1]);
      assert forall i :: 0 <= i < |sizes| - 1 ==> sizes[i] == sizes[..|sizes| - 1][i];
    }
  }

  lemma AttrSum(pools: seq<nat>)
    requires |pools| == POOLS
    ensures |AttrOnly(pools)| == POOLS
    ensures Sum(AttrOnly(pools)) == 0 <==> pools[ATTR] == pools[5 + ATTR] == pools[10 + ATTR] == 0
  {
    var a := AttrOnly(pools);
    SumZeroes(a);
    assert a[ATTR] == pools[ATTR] && a[5 + ATTR] == pools[5 + ATTR] && a[10 + ATTR] == pools[10 + ATTR];
    assert forall i :: 0 <= i < POOLS && i % 5 == ATTR ==> i == 2 || i == 7 || i == 12;
  }
}
