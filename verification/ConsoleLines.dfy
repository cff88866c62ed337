/** When the drainer keeps a line in one piece, and exactly when it does not. */
module ConsoleLines {
  import opened Bytes
  import opened Console
  import opened ConsoleRuns

  /** The core has published bytes that are not retired. */
  predicate Ready(s: State, c: nat)
    requires c < |s.cores|
  {
    s.cores[c].sent < |s.cores[c].published|
  }

  /** Nothing to drain in the first d cores. */
  predicate EmptyBefore(s: State, d: nat)
    requires Shape(s)
  {
    forall j: nat :: j < d ==> !Ready(s, At(s.next, j))
  }

  /** The core whose line is open on the wire, if it has more to send. */
  function Owed(s: State): Option<nat>
    requires Shape(s)
  {
    if s.wire == [] then None
    else
      var last := s.wire[|s.wire| - 1];
      if last.1 != NEWLINE && last.0 < CORES && Ready(s, last.0) then Some(last.0) else None
  }

  // ---- One turn of the drainer, from a scan to the byte it sends ----

  lemma ReadySteps(s: State, e: Event, c: nat)
    requires Inv(s) && Enabled(s, e) && c < CORES
    ensures Shape(Next(s, e))
    ensures Ready(Next(s, e), c) ==> Ready(s, c) || e == Publish(c)
    ensures Ready(s, c) ==> Ready(Next(s, e), c) || (e.Retire? && s.drainer.core == c)
  {
    assert Shape(Next(s, e)) by {
      hide Next, Enabled;
      StepKeeps(s, e);
    }
  }

  lemma ScanLooks(s: State)
    requires Inv(s) && Enabled(s, Scan)
    ensures Looked(s) == At(s.next, s.drainer.k) && Distance(s.next, Looked(s)) == s.drainer.k
    ensures Next(s, Scan).drainer ==
      if Ready(s, Looked(s)) then Chosen(Looked(s))
      else if s.drainer.k + 1 < CORES then Scanning(s.drainer.k + 1) else Scanning(0)
    ensures Next(s, Scan).cores == s.cores && Next(s, Scan).next == s.next && Next(s, Scan).wire == s.wire
  {
    hide Conserved, ProducerSound, WireSound;
    assert CoreInv(s.cores[Looked(s)]);
    UsedExact(s.cores[Looked(s)]);
    DistanceUnique(s.next, s.drainer.k);
  }

  /** In the scan that es lets happen the drainer comes upon a ready core other than x. */
  predicate Overtaken(s: State, es: seq<Event>, x: nat)
    decreases |es|
  {
    es != [] && Enabled(s, es[0])
    && ((es[0].Scan? && Looked(s) != x && Ready(s, Looked(s))) || Overtaken(Next(s, es[0]), es[1..], x))
  }

  predicate NoByte(es: seq<Event>) {
    forall e <- es :: !e.Emit? && !e.Retire?
  }

  /** Once chosen, the core stays chosen until its byte is sent. */
  lemma {:induction false} ChoiceStays(s: State, es: seq<Event>, x: nat)
    requires s.drainer.Chosen? && Run(s, es).Some? && NoByte(es)
    ensures Run(s, es).value.drainer == s.drainer && !Overtaken(s, es, x)
    decreases |es|
  {
    if es != [] {
      ChoiceStays(Next(s, es[0]), es[1..], x);
    }
  }

  /**
   * Exactly when x is passed over, whatever the producers do meanwhile: x has
   * something to send and is still ahead of the scan; the byte sent next comes
   * from another core if and only if the scan comes upon a ready one before x.
   */
  lemma {:induction false} NextByteExactly(s: State, es: seq<Event>, x: nat)
    requires Inv(s) && x < CORES && s.drainer.Scanning? && s.drainer.k <= Distance(s.next, x) && Ready(s, x)
    requires Run(s, es).Some? && NoByte(es) && Run(s, es).value.drainer.Chosen?
    ensures Run(s, es).value.drainer.core != x <==> Overtaken(s, es, x)
    decreases |es|
  {
    hide Inv, Next;
    var e, t := es[0], Next(s, es[0]);
    assert !e.Emit? && !e.Retire?;
    StepKeeps(s, e);
    ReadySteps(s, e, x);
    if e.Scan? {
      ScanLooks(s);
      assert Distance(s.next, x) == s.drainer.k ==> Looked(s) == x;
      if t.drainer.Chosen? {
        ChoiceStays(t, es[1..], x);
      } else {
        NextByteExactly(t, es[1..], x);
      }
    } else {
      assert t.drainer == s.drainer && t.next == s.next by {
        ProducerFrame(s, e);
      }
      NextByteExactly(t, es[1..], x);
    }
  }

  /** A ready core between the scan and x is always come upon first. */
  lemma {:induction false} NearerOvertakes(s: State, es: seq<Event>, x: nat, j: nat)
    requires Inv(s) && x < CORES && s.drainer.Scanning? && Ready(s, x)
    requires s.drainer.k <= j < Distance(s.next, x) && Ready(s, At(s.next, j))
    requires Run(s, es).Some? && NoByte(es) && Run(s, es).value.drainer.Chosen?
    ensures Overtaken(s, es, x)
    decreases |es|
  {
    hide Inv, Next;
    var e, t := es[0], Next(s, es[0]);
    assert !e.Emit? && !e.Retire?;
    StepKeeps(s, e);
    ReadySteps(s, e, x);
    ReadySteps(s, e, At(s.next, j));
    if e.Scan? {
      ScanLooks(s);
      if !t.drainer.Chosen? {
        NearerOvertakes(t, es[1..], x, j);
      }
    } else {
      assert t.drainer == s.drainer && t.next == s.next by {
        ProducerFrame(s, e);
      }
      NearerOvertakes(t, es[1..], x, j);
    }
  }

  /** No core nearer than x publishes. */
  predicate NoNearerPublish(es: seq<Event>, next: nat, x: nat)
    requires next < CORES && x < CORES
  {
    forall e <- es :: e.Publish? && e.core < CORES ==> Distance(next, e.core) >= Distance(next, x)
  }

  lemma {:induction false} NobodyOvertakes(s: State, es: seq<Event>, x: nat)
    requires Inv(s) && x < CORES && s.drainer.Scanning? && s.drainer.k <= Distance(s.next, x) && Ready(s, x)
    requires forall j: nat :: s.drainer.k <= j < Distance(s.next, x) ==> !Ready(s, At(s.next, j))
    requires Run(s, es).Some? && NoByte(es) && NoNearerPublish(es, s.next, x)
    ensures !Overtaken(s, es, x)
    decreases |es|
  {
    hide Inv, Next;
    if es != [] {
      var e, t := es[0], Next(s, es[0]);
      assert !e.Emit? && !e.Retire?;
      StepKeeps(s, e);
      ReadySteps(s, e, x);
      forall j: nat | s.drainer.k <= j < Distance(s.next, x)
        ensures !Ready(t, At(s.next, j))
      {
        ReadySteps(s, e, At(s.next, j));
        DistanceUnique(s.next, j);
      }
      if e.Scan? {
        ScanLooks(s);
        assert Distance(s.next, x) == s.drainer.k ==> Looked(s) == x;
        if t.drainer.Chosen? {
          ChoiceStays(t, es[1..], x);
        } else {
          NobodyOvertakes(t, es[1..], x);
        }
      } else {
        assert t.drainer == s.drainer && t.next == s.next by {
          ProducerFrame(s, e);
        }
        NobodyOvertakes(t, es[1..], x);
      }
    }
  }

  /**
   * With x ready, its line open or not, and no nearer core publishing during the
   * turn: the next byte comes from another core if and only if a nearer one is ready.
   */
  lemma QuietTurnExactly(s: State, es: seq<Event>, x: nat)
    requires Inv(s) && x < CORES && s.drainer == Scanning(0) && Ready(s, x)
    requires Run(s, es).Some? && NoByte(es) && Run(s, es).value.drainer.Chosen? && NoNearerPublish(es, s.next, x)
    ensures Run(s, es).value.drainer.core != x
       <==> exists y: nat :: y < CORES && Distance(s.next, y) < Distance(s.next, x) && Ready(s, y)
  {
    hide CoreInv, WireSound, DrainerSound, Run, Overtaken;
    NextByteExactly(s, es, x);
    if y: nat :| y < CORES && Distance(s.next, y) < Distance(s.next, x) && Ready(s, y) {
      NearerOvertakes(s, es, x, Distance(s.next, y));
    } else {
      forall j: nat | j < Distance(s.next, x)
        ensures !Ready(s, At(s.next, j))
      {
        DistanceUnique(s.next, j);
      }
      NobodyOvertakes(s, es, x);
    }
  }

  // ---- Whole runs ----

  /** What the drainer is held to: from one turn to the next, the core whose line is open and that has more. */
  function NextOwed(s: State, e: Event, owed: Option<nat>): Option<nat>
    requires Inv(s) && Enabled(s, e)
  {
    StepKeeps(s, e);
    var t := Next(s, e);
    if e.Emit? then None
    else if (e.Retire? || e.Scan?) && t.drainer == Scanning(0) then Owed(t)
    else owed
  }

  /** No line is cut: a turn that starts with a line open and more of it ready sends a byte of that line. */
  predicate Uncut(s: State, es: seq<Event>, owed: Option<nat>)
    requires Inv(s) && Run(s, es).Some?
    decreases |es|
  {
    es == []
    || (&& (es[0].Emit? && owed.Some? ==> s.drainer.core == owed.value)
        && (StepKeeps(s, es[0]); Uncut(Next(s, es[0]), es[1..], NextOwed(s, es[0], owed))))
  }

  /** A publish by a core the scan has not passed and that lies behind the one being served. */
  predicate Harmless(s: State, owed: Option<nat>, y: nat)
    requires Shape(s) && y < CORES
  {
    match s.drainer
    case Scanning(k) =>
      && k <= Distance(s.next, y)
      && (owed.Some? && owed.value < CORES ==> Distance(s.next, owed.value) <= Distance(s.next, y))
    case Chosen(c) => Distance(s.next, c) <= Distance(s.next, y)
    case Retiring(c, out) => out == NEWLINE || Distance(s.next, c) <= Distance(s.next, y)
  }

  /** Every publish of a run is harmless. */
  predicate Orderly(s: State, es: seq<Event>, owed: Option<nat>)
    requires Inv(s) && Run(s, es).Some?
    decreases |es|
  {
    es == []
    || (&& (es[0].Publish? ==> Harmless(s, owed, es[0].core))
        && (StepKeeps(s, es[0]); Orderly(Next(s, es[0]), es[1..], NextOwed(s, es[0], owed))))
  }

  /** Cores the scan has passed, and cores before the one being served, have nothing. */
  predicate Focused(s: State, owed: Option<nat>)
    requires Shape(s)
  {
    match s.drainer
    case Scanning(k) =>
      EmptyBefore(s, k)
      && (owed.Some? ==> owed.value < CORES && Ready(s, owed.value) && EmptyBefore(s, Distance(s.next, owed.value)))
    case Chosen(c) => EmptyBefore(s, Distance(s.next, c)) && (owed.Some? ==> owed.value == c)
    case Retiring(c, out) =>
      s.wire != [] && s.wire[|s.wire| - 1] == (c, out) && (out != NEWLINE ==> EmptyBefore(s, Distance(s.next, c)))
  }

  lemma EmptyStays(s: State, e: Event, d: nat)
    requires Inv(s) && Enabled(s, e) && EmptyBefore(s, d) && d <= CORES
    requires e.Publish? ==> d <= Distance(s.next, e.core)
    ensures Shape(Next(s, e)) && (Next(s, e).next == s.next ==> EmptyBefore(Next(s, e), d))
  {
    hide Next, Enabled, Inv;
    StepKeeps(s, e);
    ReadySteps(s, e, 0);
    if Next(s, e).next == s.next {
      forall j: nat | j < d
        ensures !Ready(Next(s, e), At(s.next, j))
      {
        ReadySteps(s, e, At(s.next, j));
        DistanceUnique(s.next, j);
      }
    }
  }

  lemma ScanFocus(s: State, owed: Option<nat>)
    requires Inv(s) && Focused(s, owed) && Enabled(s, Scan)
    ensures Shape(Next(s, Scan)) && Focused(Next(s, Scan), NextOwed(s, Scan, owed))
  {
    hide CoreInv, WireSound, DrainerSound, Next, Ready, Distance;
    var k, t := s.drainer.k, Next(s, Scan);
    ScanLooks(s);
    ReadySteps(s, Scan, 0);
    EmptyStays(s, Scan, k);
    if owed.Some? {
      EmptyStays(s, Scan, Distance(s.next, owed.value));
      ReadySteps(s, Scan, owed.value);
    }
    if !t.drainer.Chosen? {
      ReadySteps(s, Scan, Looked(s));
      assert EmptyBefore(t, k + 1);
    }
    if t.drainer.Chosen? && owed.Some? {
    }
    if t.drainer == Scanning(0) {
    }
  }

  lemma SendFocus(s: State, e: Event, owed: Option<nat>)
    requires Inv(s) && Focused(s, owed) && Enabled(s, e) && (e.Emit? || e.Retire?)
    ensures Shape(Next(s, e)) && Focused(Next(s, e), NextOwed(s, e, owed))
  {
    hide Inv, EmptyBefore, Ready, Distance;
    var t := Next(s, e);
    StepKeeps(s, e);
    ReadySteps(s, e, 0);
    if e.Emit? || s.drainer.out != NEWLINE {
      EmptyStays(s, e, Distance(s.next, s.drainer.core));
    }
    assert EmptyBefore(t, 0) by {
      NothingBefore(t);
    }
  }

  lemma NothingBefore(s: State)
    requires Shape(s)
    ensures EmptyBefore(s, 0)
  {
  }

  lemma ProducerFocus(s: State, e: Event, owed: Option<nat>)
    requires Inv(s) && Focused(s, owed) && Enabled(s, e) && !e.Scan? && !e.Emit? && !e.Retire?
    requires e.Publish? ==> Harmless(s, owed, e.core)
    ensures Shape(Next(s, e)) && Focused(Next(s, e), NextOwed(s, e, owed))
  {
    hide Inv, EmptyBefore, Ready, Distance;
    var t := Next(s, e);
    ReadySteps(s, e, 0);
    match s.drainer
    case Scanning(k) =>
      EmptyStays(s, e, k);
      if owed.Some? {
        EmptyStays(s, e, Distance(s.next, owed.value));
        ReadySteps(s, e, owed.value);
      }
    case Chosen(c) => EmptyStays(s, e, Distance(s.next, c));
    case Retiring(c, out) =>
      if out != NEWLINE {
        EmptyStays(s, e, Distance(s.next, c));
      }
  }

  /**
   * Over any run whose publishes come from cores the scan has not passed and
   * that lie behind the one being served, no line is cut.
   */
  lemma {:induction false} LinesUncut(s: State, es: seq<Event>, owed: Option<nat>)
    requires Inv(s) && Focused(s, owed) && Run(s, es).Some? && Orderly(s, es, owed)
    ensures Uncut(s, es, owed)
    decreases |es|
  {
    hide Inv, Next, NextOwed, Harmless, EmptyBefore, Distance;
    if es != [] {
      var e := es[0];
      StepKeeps(s, e);
      if e.Scan? {
        ScanFocus(s, owed);
      } else if e.Emit? || e.Retire? {
        SendFocus(s, e, owed);
      } else {
        ProducerFocus(s, e, owed);
      }
      LinesUncut(Next(s, e), es[1..], NextOwed(s, e, owed));
    }
  }

  predicate SendsByte(es: seq<Event>) {
    exists e :: e in es && e.Emit?
  }

  /** In some turn that starts with a line open, the scan comes upon a ready core before that of the line. */
  predicate PassedOver(s: State, es: seq<Event>, owed: Option<nat>)
    requires Inv(s) && Run(s, es).Some?
    decreases |es|
  {
    es != []
    && ((es[0].Scan? && owed.Some? && Looked(s) != owed.value && Ready(s, Looked(s)) && SendsByte(es[1..]))
        || (StepKeeps(s, es[0]); PassedOver(Next(s, es[0]), es[1..], NextOwed(s, es[0], owed))))
  }

  /** The core the drainer is held to is still ahead of the scan, or chosen. */
  predicate Held(s: State, owed: Option<nat>)
    requires Shape(s)
  {
    owed.Some? ==>
      match s.drainer
      case Scanning(k) => owed.value < CORES && Ready(s, owed.value) && k <= Distance(s.next, owed.value)
      case Chosen(c) => owed.value == c
      case Retiring(_, _) => true
  }

  lemma HeldStays(s: State, e: Event, owed: Option<nat>)
    requires Inv(s) && Held(s, owed) && Enabled(s, e)
    requires e.Scan? && owed.Some? ==> Looked(s) == owed.value || !Ready(s, Looked(s))
    ensures Shape(Next(s, e)) && Held(Next(s, e), NextOwed(s, e, owed))
  {
    hide CoreInv, WireSound, DrainerSound, Ready, Distance;
    ReadySteps(s, e, 0);
    if s.drainer.Scanning? && owed.Some? {
      ReadySteps(s, e, owed.value);
    }
    if e.Scan? {
      ScanLooks(s);
      if owed.Some? && s.drainer.k == Distance(s.next, owed.value) {
        assert Looked(s) == owed.value;
      }
    }
    var t := Next(s, e);
    if t.drainer == Scanning(0) && Owed(t).Some? {
      assert 0 <= Distance(t.next, Owed(t).value);
    }
  }

  /** The wrong core once chosen, its byte cuts the line, if it is sent at all. */
  lemma {:induction false} ChosenCuts(s: State, es: seq<Event>, x: nat)
    requires Inv(s) && s.drainer.Chosen? && s.drainer.core != x && Run(s, es).Some?
    ensures !Uncut(s, es, Some(x)) <==> SendsByte(es)
    ensures PassedOver(s, es, Some(x)) ==> SendsByte(es)
    decreases |es|
  {
    hide Inv, Ready;
    if es != [] {
      StepKeeps(s, es[0]);
      if !es[0].Emit? {
        assert Next(s, es[0]).drainer == s.drainer;
        ChosenCuts(Next(s, es[0]), es[1..], x);
        assert es == [es[0]] + es[1..];
      }
    }
  }

  /**
   * Exactly when a run cuts a line: some turn starts with a line open and more of
   * it ready, and its scan comes upon another ready core first.
   */
  lemma {:induction false} CutExactly(s: State, es: seq<Event>, owed: Option<nat>)
    requires Inv(s) && Held(s, owed) && Run(s, es).Some?
    ensures !Uncut(s, es, owed) <==> PassedOver(s, es, owed)
    decreases |es|
  {
    hide Inv, Next, Ready, Distance;
    if es != [] {
      var e, t := es[0], Next(s, es[0]);
      StepKeeps(s, e);
      if e.Scan? && owed.Some? && Looked(s) != owed.value && Ready(s, Looked(s)) {
        ScanLooks(s);
        ChosenCuts(t, es[1..], owed.value);
      } else {
        HeldStays(s, e, owed);
        CutExactly(t, es[1..], NextOwed(s, e, owed));
      }
    }
  }

  // ---- A line that is cut ----

  lemma RunOn(s: State, e: Event, es: seq<Event>)
    requires Enabled(s, e)
    ensures Run(s, [e] + es) == Run(Next(s, e), es)
  {
    assert ([e] + es)[1..] == es;
  }

  lemma PutRun(s: State, c: nat, chr: byte, es: seq<Event>) returns (t: State)
    requires Inv(s) && c < CORES && s.cores[c].producer == Collecting
    ensures Run(s, [Put(c, chr)] + es) == Run(t, es) && Inv(t)
    ensures t == s.(cores := s.cores[c := PutChar(s.cores[c], chr)])
  {
    hide CoreInv, WireSound, DrainerSound, Run;
    StepKeeps(s, Put(c, chr));
    RunOn(s, Put(c, chr), es);
    t := Next(s, Put(c, chr));
  }

  function Copies(c: nat, n: nat): seq<Event> {
    if n == 0 then [] else [Copy(c)] + Copies(c, n - 1)
  }

  lemma {:induction false} CopiesRun(s: State, c: nat, n: nat, es: seq<Event>) returns (t: State)
    requires Inv(s) && c < CORES && s.cores[c].producer.Copying? && s.cores[c].producer.copied + n == |s.cores[c].line|
    ensures Run(s, Copies(c, n) + es) == Run(t, es) && Inv(t)
    ensures t == s.(cores := t.cores) && |t.cores| == CORES &&
              (forall i :: 0 <= i < CORES && i != c ==> t.cores[i] == s.cores[i])
    ensures t.cores[c] == s.cores[c].(data := t.cores[c].data, producer := t.cores[c].producer)
    ensures t.cores[c].producer.Copying? && t.cores[c].producer.copied == |t.cores[c].line|
    decreases n
  {
    hide CoreInv, WireSound, DrainerSound, Run;
    if n == 0 {
      t := s;
      assert [] + es == es;
    } else {
      StepKeeps(s, Copy(c));
      t := CopiesRun(Next(s, Copy(c)), c, n - 1, es);
      RunOn(s, Copy(c), Copies(c, n - 1) + es);
      assert [Copy(c)] + (Copies(c, n - 1) + es) == Copies(c, n) + es;
    }
  }

  /** A complete line finds room and is published. */
  lemma PublishRun(s: State, c: nat, es: seq<Event>) returns (t: State)
    requires Inv(s) && c < CORES && s.cores[c].producer == Complete && s.cores[c].published == []
    ensures Run(s, [Load(c)] + (Copies(c, |s.cores[c].line|) + ([Publish(c)] + es))) == Run(t, es) && Inv(t)
    ensures t == s.(cores := t.cores) && |t.cores| == CORES &&
              (forall i :: 0 <= i < CORES && i != c ==> t.cores[i] == s.cores[i])
    ensures t.cores[c].published == s.cores[c].line && t.cores[c].sent == s.cores[c].sent == 0
  {
    hide WireSound, DrainerSound, Run, Conserved;
    var n, rest := |s.cores[c].line|, [Publish(c)] + es;
    assert CoreInv(s.cores[c]);
    UsedExact(s.cores[c]);
    var s1 := Next(s, Load(c));
    StepKeeps(s, Load(c));
    RunOn(s, Load(c), Copies(c, n) + rest);
    var s2 := CopiesRun(s1, c, n, rest);
    StepKeeps(s2, Publish(c));
    RunOn(s2, Publish(c), es);
    t := Next(s2, Publish(c));
  }

  /** A scan that finds its core ready, and the byte sent. */
  lemma SendRun(s: State, es: seq<Event>) returns (t: State)
    requires Inv(s) && s.drainer.Scanning? && Ready(s, Looked(s))
    ensures Run(s, [Scan] + ([Emit] + es)) == Run(t, es) && Inv(t)
    ensures var c := Looked(s);
            && s.cores[c].sent < |s.cores[c].published|
            && t == s.(drainer := Retiring(c, s.cores[c].published[s.cores[c].sent]),
                       wire := s.wire + [(c, s.cores[c].published[s.cores[c].sent])])
  {
    hide WireSound, Run, Conserved;
    ScanLooks(s);
    StepKeeps(s, Scan);
    var s1 := Next(s, Scan);
    RunOn(s, Scan, [Emit] + es);
    assert CoreInv(s.cores[Looked(s)]);
    StepKeeps(s1, Emit);
    RunOn(s1, Emit, es);
    t := Next(s1, Emit);
  }

  /** Core 1 has a line of two characters under way, and core 0 publishes one after the first of them is sent. */
  function CutRun(): seq<Event> {
    [Put(1, 65)] + ([Put(1, NEWLINE)] + ([Load(1)] + (Copies(1, 2) + ([Publish(1)] + ([Scan] + ([Scan] + ([Emit]
    + ([Retire] + ([Put(0, NEWLINE)] + ([Load(0)] + (Copies(0, 1) + ([Publish(0)] + ([Scan] + ([Emit] + []))))))))))))))
  }

  function SendPart(): seq<Event> {
    [Scan] + ([Scan] + ([Emit] + ([Retire]
    + ([Put(0, NEWLINE)] + ([Load(0)] + (Copies(0, 1) + ([Publish(0)] + ([Scan] + ([Emit] + [])))))))))
  }

  lemma FirstPublished() returns (t: State)
    ensures Run(Initial(), CutRun()) == Run(t, SendPart()) && Inv(t)
    ensures t == Initial().(cores := t.cores) && t.cores[0] == Fresh()
    ensures t.cores[1].published == [65, NEWLINE] && t.cores[1].sent == 0
  {
    hide CoreInv, WireSound, DrainerSound, Run;
    InitialHolds();
    var first := [Load(1)] + (Copies(1, 2) + ([Publish(1)] + SendPart()));
    var s1 := PutRun(Initial(), 1, 65, [Put(1, NEWLINE)] + first);
    var s2 := PutRun(s1, 1, NEWLINE, first);
    assert [] + [65] == [65] && [65] + [NEWLINE] == [65, NEWLINE];
    t := PublishRun(s2, 1, SendPart());
  }

  /** The run is possible from the start, and core 0's byte comes while core 1 still has the end of its line. */
  lemma CutHappens()
    ensures Run(Initial(), CutRun()).Some?
    ensures var t := Run(Initial(), CutRun()).value;
            && t.wire == [(1, 65), (0, NEWLINE)]
            && |t.cores| == CORES && Ready(t, 1) && t.cores[1].published == [65, NEWLINE]
  {
    hide CoreInv, WireSound, DrainerSound, Run, CutRun;
    var end := [Scan] + ([Emit] + []);
    var publish := [Load(0)] + (Copies(0, 1) + ([Publish(0)] + end));
    var s2 := FirstPublished();
    ScanLooks(s2);
    StepKeeps(s2, Scan);
    RunOn(s2, Scan, [Scan] + ([Emit] + ([Retire] + ([Put(0, NEWLINE)] + publish))));
    var s3 := Next(s2, Scan);
    var s4 := SendRun(s3, [Retire] + ([Put(0, NEWLINE)] + publish));
    StepKeeps(s4, Retire);
    RunOn(s4, Retire, [Put(0, NEWLINE)] + publish);
    var s5 := Next(s4, Retire);
    var s6 := PutRun(s5, 0, NEWLINE, publish);
    assert [] + [NEWLINE] == [NEWLINE];
    var s7 := PublishRun(s6, 0, end);
    var s8 := SendRun(s7, []);
    assert Run(s8, []) == Some(s8) by {
      RunKeepsNothing(s8);
    }
  }

  lemma RunKeepsNothing(s: State)
    ensures Run(s, []) == Some(s)
  {
  }
}
