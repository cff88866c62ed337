/** What the console keeps under every interleaving, and when lines stay in one piece. */
module ConsoleRuns {
  import opened Bytes
  import opened Console

  lemma SentSnoc(wire: seq<(nat, byte)>, w: (nat, byte), i: nat)
    ensures Sent(wire + [w], i) == Sent(wire, i) + if w.0 == i then [w.1] else []
  {
    assert (wire + [w])[..|wire|] == wire;
  }

  /** One core replaced by a step of its producer: nothing the drainer can see is taken back. */
  lemma ReplaceKeeps(s: State, x: nat, d: Core)
    requires Inv(s) && x < CORES && CoreInv(d)
    requires |d.data| == RING_SIZE && d.tail == s.cores[x].tail && d.sent == s.cores[x].sent
    requires s.cores[x].published <= d.published
    ensures Inv(s.(cores := s.cores[x := d]))
  {
    hide CoreInv, Sent;
    var t := s.(cores := s.cores[x := d]);
    forall i | 0 <= i < CORES
      ensures CoreInv(t.cores[i]) && WireSound(t, i)
    {
      assert CoreInv(s.cores[i]) && WireSound(s, i);
    }
  }

  function ProducerStep(c: Core, e: Event): Core
    requires |c.data| == RING_SIZE
    requires e.Copy? ==> c.producer.Copying? && c.producer.copied < |c.line|
  {
    match e
    case Put(_, chr) => PutChar(c, chr)
    case Load(_) => LoadIndices(c)
    case Copy(_) => CopyByte(c)
    case Publish(_) => PublishLine(c)
    case _ => c
  }

  lemma ProducerStepKeeps(s: State, e: Event)
    requires Inv(s) && Enabled(s, e) && (e.Put? || e.Load? || e.Copy? || e.Publish?)
    ensures CoreInv(ProducerStep(s.cores[e.core], e))
  {
    hide CoreInv, WireSound, DrainerSound, PutChar, LoadIndices, CopyByte, PublishLine;
    var c := s.cores[e.core];
    assert CoreInv(c);
    if e.Put? {
      PutKeeps(c, e.chr);
    } else if e.Load? {
      LoadKeeps(c);
    } else if e.Copy? {
      CopyKeeps(c);
    } else {
      PublishKeeps(c);
    }
  }

  lemma ProducerFrame(s: State, e: Event)
    requires Enabled(s, e) && (e.Put? || e.Load? || e.Copy? || e.Publish?)
    ensures var c, d := s.cores[e.core], ProducerStep(s.cores[e.core], e);
            && |d.data| == RING_SIZE && d.tail == c.tail && d.sent == c.sent && c.published <= d.published
            && Next(s, e) == s.(cores := s.cores[e.core := d])
  {
  }

  lemma ProducerKeeps(s: State, e: Event)
    requires Inv(s) && Enabled(s, e) && (e.Put? || e.Load? || e.Copy? || e.Publish?)
    ensures Inv(Next(s, e))
  {
    hide Inv, Next, ProducerStep;
    ProducerFrame(s, e);
    ProducerStepKeeps(s, e);
    ReplaceKeeps(s, e.core, ProducerStep(s.cores[e.core], e));
  }

  lemma ScanKeeps(s: State)
    requires Inv(s) && Enabled(s, Scan)
    ensures Inv(Next(s, Scan))
  {
    hide Sent, Conserved, ProducerSound;
    var c := s.cores[Looked(s)];
    assert CoreInv(c);
    if c.tail != c.head {
      assert c.sent != |c.published|;
    }
    forall i | 0 <= i < CORES
      ensures WireSound(Next(s, Scan), i)
    {
      assert WireSound(s, i);
    }
  }

  lemma EmitKeeps(s: State)
    requires Inv(s) && Enabled(s, Emit)
    ensures Inv(Next(s, Emit))
  {
    hide Sent, Conserved, ProducerSound;
    var x := s.drainer.core;
    var c := s.cores[x];
    assert CoreInv(c) && c.data[Cell(c.sent)] == c.published[c.sent];
    forall i | 0 <= i < CORES
      ensures WireSound(Next(s, Emit), i)
    {
      assert WireSound(s, i);
      SentSnoc(s.wire, (x, c.published[c.sent]), i);
      if i == x {
        assert c.published[..c.sent] + [c.published[c.sent]] == c.published[..c.sent + 1];
      }
    }
  }

  lemma RetiringKeeps(s: State)
    requires Inv(s) && Enabled(s, Retire)
    ensures Inv(Next(s, Retire))
  {
    hide Sent, CoreInv, Cell;
    var x := s.drainer.core;
    RetireKeeps(s.cores[x]);
    forall i | 0 <= i < CORES
      ensures CoreInv(Next(s, Retire).cores[i]) && WireSound(Next(s, Retire), i)
    {
      assert CoreInv(s.cores[i]) && WireSound(s, i);
    }
  }

  lemma StepKeeps(s: State, e: Event)
    requires Inv(s) && Enabled(s, e)
    ensures Inv(Next(s, e))
  {
    hide Inv, Next;
    if e.Scan? {
      ScanKeeps(s);
    } else if e.Emit? {
      EmitKeeps(s);
    } else if e.Retire? {
      RetiringKeeps(s);
    } else {
      ProducerKeeps(s, e);
    }
  }

  function Run(s: State, es: seq<Event>): Option<State>
    decreases |es|
  {
    if es == [] then Some(s)
    else if !Enabled(s, es[0]) then None
    else Run(Next(s, es[0]), es[1..])
  }

  lemma {:induction false} RunKeeps(s: State, es: seq<Event>)
    requires Inv(s) && Run(s, es).Some?
    ensures Inv(Run(s, es).value)
    decreases |es|
  {
    hide Inv, Next, Enabled;
    if es != [] {
      StepKeeps(s, es[0]);
      RunKeeps(Next(s, es[0]), es[1..]);
    }
  }

  function Fresh(): Core {
    Core([], Collecting, 0, 0, seq(RING_SIZE, i => 0), 0, [], [], [], 0)
  }

  function Initial(): State {
    State([Fresh(), Fresh(), Fresh(), Fresh()], Scanning(0), 0, 0, [])
  }

  /**
   * After any interleaving, core by core: what it put is its chunks and its
   * partial line; the kept chunks are what is on the wire followed by what is in
   * its ring; dropped chunks are counted; all in order, nothing twice.
   */
  lemma ConsoleConserves(es: seq<Event>, i: nat)
    requires Run(Initial(), es).Some? && i < CORES
    ensures var t := Run(Initial(), es).value;
            && |t.cores| == CORES
            && var c := t.cores[i];
            && c.put == Text(c.chunks) + c.line && c.dropped == Lost(c.chunks)
            && c.sent <= |Sent(t.wire, i)| <= c.sent + 1 && |Sent(t.wire, i)| <= |c.published|
            && Kept(c.chunks) == Sent(t.wire, i) + c.published[|Sent(t.wire, i)|..]
  {
    hide Sent;
    assert Inv(Initial()) by {
      InitialHolds();
    }
    RunKeeps(Initial(), es);
    var t := Run(Initial(), es).value;
    assert CoreInv(t.cores[i]) && WireSound(t, i);
    var n := |Sent(t.wire, i)|;
    assert t.cores[i].published == t.cores[i].published[..n] + t.cores[i].published[n..];
  }

  lemma FreshHolds()
    ensures CoreInv(Fresh()) && |Fresh().data| == RING_SIZE && Fresh().tail == Fresh().sent == |Fresh().published| == 0
  {
  }

  lemma InitialHolds()
    ensures Inv(Initial())
  {
    hide CoreInv, Fresh;
    var s := Initial();
    FreshHolds();
    forall i | 0 <= i < CORES
      ensures CoreInv(s.cores[i]) && WireSound(s, i)
    {
      assert s.cores[i] == Fresh();
    }
  }
}
