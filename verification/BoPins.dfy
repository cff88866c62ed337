/** What buffer-object calls leave behind: new entries, and which buffer each pin names. */
module BoPins {
  import opened Bytes
  import opened Buffers
  import opened BoTable
  import opened BoRuns

  // ---- New handles ----

  /** A created buffer has the memory it was given; a failed call leaves table and clients alone. */
  lemma CreateGives(s: Store, size: nat, shader: bool, outcome: Alloc, address: nat)
    requires Inv(s)
    ensures var (t, h) := Create(s, size, shader, outcome, address);
            && |t.table| == |s.table| == |t.clients| == |s.clients| == MAX_BOS
            && (h == 0 ==> t.table == s.table && t.clients == s.clients)
            && (h != 0 ==>
                 && 0 < h < MAX_BOS && s.table[h] == FREE && t.next == h
                 && t.table == s.table[h := Entry(1, true, false, address, size)]
                 && t.clients == s.clients[h := s.clients[h] + 1])
    ensures Create(s, size, shader, outcome, address).1 != 0
       <==> FreeHandle(s) != 0 && !outcome.Fails? && (shader ==> size % 8 == 0)
  {
    hide BoBytes, Sum, Search;
    var h := FreeHandle(s);
    if h != 0 {
      assert EntrySound(s, multiset{}, h);
      assert s.table[h := FREE] == s.table;
    }
  }

  lemma {:induction false} FindPageExactly(table: seq<Entry>, name: nat, h: nat)
    requires 0 < h <= |table|
    ensures FindPage(table, name, h) == 0 <==> forall k :: h <= k < |table| ==> !Wraps(table[k], name)
    decreases |table| - h
  {
    if h < |table| {
      FindPageExactly(table, name, h + 1);
    }
  }

  /** An opened page is shared when some entry wraps it already, and gets an entry of its own otherwise. */
  lemma OpenGives(s: Store, name: nat, pages: (nat, nat), pageSize: nat)
    requires Inv(s)
    ensures var (t, h) := Open(s, name, pages, pageSize);
            && |t.table| == |s.table| == MAX_BOS
            && (h != 0 ==> 0 < h < MAX_BOS && name in {pages.0, pages.1} && Wraps(t.table[h], name))
            && (h != 0 && (exists k :: 1 <= k < MAX_BOS && Wraps(s.table[k], name)) ==>
                 t.next == s.next && t.table[h] == s.table[h].(refcount := s.table[h].refcount + 1))
            && (h != 0 && (forall k :: 1 <= k < MAX_BOS ==> !Wraps(s.table[k], name)) ==>
                 t.next == h && s.table[h] == FREE && t.table[h] == Entry(1, false, true, name, pageSize))
  {
    hide BoBytes, Sum, Search;
    FindPageExactly(s.table, name, 1);
    var h := FreeHandle(s);
    assert EntrySound(s, multiset{}, h);
  }

  /** A pool buffer that is large enough is kept; a new one has whole pages, a quarter more than asked if possible. */
  lemma PoolGives(s: Store, i: nat, size: nat, outcome: Alloc)
    requires i < |s.pools|
    ensures var t := PoolGet(s, i, size, outcome);
            && |t.pools| == |s.pools| && (forall k :: 0 <= k < |s.pools| && k != i ==> t.pools[k] == s.pools[k])
            && if 0 < s.pools[i] && size <= s.pools[i] then t == s
               else
                 match outcome
                 case First => size + size / 4 <= t.pools[i] < size + size / 4 + 4096 && t.pools[i] % 4096 == 0
                 case Second => size <= t.pools[i] < size + 4096 && t.pools[i] % 4096 == 0
                 case Fails => t.pools[i] == 0
  {
  }

  // ---- Pins ----

  predicate HeldBy(s: Store, h: nat)
    requires |s.table| == MAX_BOS
  {
    0 < h < MAX_BOS && s.table[h].refcount > 0
  }

  /** The end of a DMA blit hands the engine's pin to its buffer; the end of a CPU blit leaves that pin alone. */
  lemma BlitEndNames(s: Store, h: nat, usedDma: bool)
    requires Inv(s) && 0 < h < MAX_BOS && s.blits[h] > 0
    ensures var t := BlitEnd(s, h, usedDma);
            && Inv(t) && t.dma == (if usedDma then h else s.dma) && t.blits == s.blits[h := s.blits[h] - 1]
            && t.pinned == s.pinned && t.displaced == s.displaced && t.clients == s.clients
            && (usedDma ==> HeldBy(t, h)) && (t.dma != 0 ==> HeldBy(t, t.dma))
  {
    hide BoBytes, Sum;
    BlitEndKeeps(s, h, usedDma);
    var t := BlitEnd(s, h, usedDma);
    assert t.dma < MAX_BOS;
    hide Unref, BlitEnd;
    PinsAreLive(t);
  }

  /**
   * A set that is accepted leaves the new page pinned, and the old one displaced
   * and still held unless they are the same; a refused one leaves no page pinned.
   */
  lemma SetNames(s: Store, h: nat, active: bool)
    requires Inv(s) && s.replaced.None? && s.displaced == 0 && 0 < h < MAX_BOS && s.table[h].address != 0
    ensures var t := SetEnd(SetBegin(s, h), active);
            && Inv(t) && t.replaced.None? && t.dma == s.dma && t.blits == s.blits && t.clients == s.clients
            && t.pinned == (if active then h else 0)
            && t.displaced == (if active && s.pinned != h then s.pinned else 0)
            && (t.pinned != 0 ==> HeldBy(t, t.pinned)) && (t.displaced != 0 ==> HeldBy(t, t.displaced))
  {
    hide BoBytes, Sum;
    SetBeginKeeps(s, h);
    SetEndKeeps(SetBegin(s, h), active);
    var t := SetEnd(SetBegin(s, h), active);
    hide Ref;
    UnrefHolds(SetBegin(s, h).(replaced := None), SetBegin(s, h).pinned);
    if s.pinned != 0 {
      UnrefHolds(Unref(SetBegin(s, h).(replaced := None), h).(pinned := 0), s.pinned);
    }
    hide Unref, SetEnd, SetBegin;
    PinsAreLive(t);
  }

  /** Unref changes table and account only. */
  lemma UnrefHolds(s: Store, h: nat)
    requires |s.table| == MAX_BOS
    ensures Unref(s, h) == s.(table := Unref(s, h).table, memBytes := Unref(s, h).memBytes)
    ensures |Unref(s, h).table| == MAX_BOS
  {
  }

  /** A displaced page stays displaced, and its buffer stays what it is, until the latch or the plane is cleared. */
  lemma DisplacedStays(s: Store, op: Op)
    requires Inv(s) && Enabled(s, op) && s.displaced != 0 && !op.Latch? && !op.ClearOverlay?
    ensures var t := Apply(s, op);
            Inv(t) && t.displaced == s.displaced && HeldBy(t, s.displaced)
            && SameBuffer(s.table[s.displaced], t.table[s.displaced])
  {
    var h := s.displaced;
    StepKeeps(s, op);
    assert Apply(s, op).displaced == h by {
      hide BoBytes, Sum, Sound, RoundUp, Search, Ref, Unref;
      DisplacedFrame(s, op);
    }
    hide Apply, Enabled;
    PinnedStays(s, op, h);
    PinsAreLive(Apply(s, op));
  }

  lemma DisplacedFrame(s: Store, op: Op)
    requires Inv(s) && Enabled(s, op) && s.displaced != 0 && !op.Latch? && !op.ClearOverlay?
    ensures Apply(s, op).displaced == s.displaced
  {
    hide BoBytes, Sum, Sound, RoundUp, Search;
  }

  /** Waiting for the latch lets go of the displaced page, clearing the plane of both. */
  lemma PlaneReleased(s: Store)
    requires Inv(s) && s.replaced.None?
    ensures Inv(LatchRetire(s)) && LatchRetire(s).displaced == 0 && LatchRetire(s).pinned == s.pinned
    ensures Inv(Clear(s)) && Clear(s).displaced == Clear(s).pinned == 0
  {
    hide BoBytes, Sum;
    LatchKeeps(s);
    ClearKeeps(s);
  }
}
