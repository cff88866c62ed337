/** ring_push, console_putc and amiga_console_drain on their buffers. */
module ConsoleExec {
  import opened Bytes
  import opened Console
  import opened ConsoleRuns

  class Ring {
    const data: array<byte>
    var head: nat
    var tail: nat
    var dropped: nat
    ghost var published: seq<byte>
    ghost var sent: nat

    /** The part of the step system's ring invariant this object carries. */
    ghost predicate Valid()
      reads this, data
    {
      && data.Length == RING_SIZE && sent <= |published| <= sent + RING_SIZE - 1
      && head == Cell(|published|) && tail == Cell(sent)
      && (forall j :: sent <= j < |published| ==> data[Cell(j)] == published[j])
    }

    constructor ()
      ensures Valid() && published == [] && sent == dropped == 0 && fresh(data)
    {
      data := new byte[RING_SIZE](i => 0);
      head, tail, dropped, published, sent := 0, 0, 0, [], 0;
    }

    lemma Filled()
      requires Valid()
      ensures Used(head, tail) == |published| - sent
    {
      UsedExact(Core([], Collecting, head, tail, data[..], dropped, [], [], published, sent));
    }

    /** ring_push: all of src or, when it does not fit, none of it. */
    method Push(src: seq<byte>)
      requires Valid() && |src| <= LINE_MAX
      modifies this`head, this`dropped, this`published, data
      ensures Valid()
      ensures var fits := |old(published)| - sent + |src| <= RING_SIZE - 1;
              && published == old(published) + (if fits then src else [])
              && dropped == old(dropped) + (if fits then 0 else 1)
    {
      hide Cell;
      var used := (head - tail) % RING_SIZE;
      Filled();
      if |src| > RING_SIZE - 1 - used {
        dropped := dropped + 1;
        return;
      }
      CopyIn(src);
      ghost var n := |published|;
      head := (head + |src|) % RING_SIZE;
      CellAdd(n, |src|);
      assert head == Cell(n + |src|) by {
        CellIsMod(Cell(n) + |src|);
      }
      published := published + src;
      forall j | sent <= j < |published|
        ensures data[Cell(j)] == published[j]
      {
        if j >= n {
          assert data[Cell(n + (j - n))] == src[j - n];
        }
      }
    }

    /** The line goes into the free cells behind the published ones. */
    method CopyIn(src: seq<byte>)
      requires Valid() && |published| + |src| <= sent + RING_SIZE - 1
      modifies data
      ensures forall j :: sent <= j < |published| ==> data[Cell(j)] == published[j]
      ensures forall j :: 0 <= j < |src| ==> data[Cell(|published| + j)] == src[j]
    {
      hide Cell;
      var h := head;
      ghost var n := |published|;
      for i := 0 to |src|
        invariant h == Cell(n + i)
        invariant forall j :: sent <= j < n ==> data[Cell(j)] == published[j]
        invariant forall j :: 0 <= j < i ==> data[Cell(n + j)] == src[j]
      {
        CellsApart(sent, n, i);
        data[h] := src[i];
        NextCell(n + i);
        h := (h + 1) % RING_SIZE;
      }
    }

    /** The byte at the tail, and the tail moved on. */
    method Pop() returns (out: byte)
      requires Valid() && sent < |published|
      modifies this`tail, this`sent
      ensures Valid() && out == published[old(sent)] && sent == old(sent) + 1
    {
      hide Cell;
      out := data[tail];
      NextCell(sent);
      tail := (tail + 1) % RING_SIZE;
      sent := sent + 1;
    }

    predicate Empty()
      reads this
    {
      tail == head
    }

    lemma EmptyMeans()
      requires Valid()
      ensures Empty() <==> sent == |published|
    {
      if sent < |published| {
        CellsDiffer(sent, |published|);
      }
    }
  }

  lemma CellIsMod(position: nat)
    ensures position % RING_SIZE == Cell(position)
  {
  }

  lemma NextCell(position: nat)
    ensures (Cell(position) + 1) % RING_SIZE == Cell(position + 1)
  {
    CellAdd(position, 1);
  }

  /** The next free cell is no cell in use. */
  lemma CellsApart(sent: nat, n: nat, i: nat)
    requires sent <= n && n + i < sent + RING_SIZE
    ensures forall j: nat :: sent <= j < n + i ==> Cell(j) != Cell(n + i)
  {
    forall j: nat | sent <= j < n + i
      ensures Cell(j) != Cell(n + i)
    {
      CellsDiffer(j, n + i);
    }
  }

  /** One core's console: its line buffer in front of its ring. */
  class Producer {
    const ring: Ring
    var line: seq<byte>
    ghost var put: seq<byte>
    ghost var chunks: seq<Chunk>

    ghost predicate Valid()
      reads this, ring, ring.data
    {
      && ring.Valid() && |line| < LINE_MAX && NEWLINE !in line
      && put == Text(chunks) + line && ring.published == Kept(chunks) && ring.dropped == Lost(chunks)
      && forall i :: 0 <= i < |chunks| ==> Whole(chunks[i].text)
    }

    constructor ()
      ensures Valid() && put == [] && fresh(ring) && fresh(ring.data)
    {
      ring := new Ring();
      line, put, chunks := [], [], [];
    }

    /** console_putc: no character is refused; a full or finished line goes to the ring. */
    method Putc(chr: byte)
      requires Valid()
      modifies this, ring`head, ring`dropped, ring`published, ring.data
      ensures Valid() && put == old(put) + [chr]
    {
      hide Text, Kept, Lost;
      put := put + [chr];
      line := line + [chr];
      assert put == Text(chunks) + line;
      if chr != NEWLINE && |line| < LINE_MAX {
        return;
      }
      assert line[..|line| - 1] == old(line);
      ghost var fits := |ring.published| - ring.sent + |line| <= RING_SIZE - 1;
      ring.Push(line);
      ChunkAdded(chunks, Chunk(line, fits));
      chunks := chunks + [Chunk(line, fits)];
      line := [];
      assert put == Text(chunks) + [];
    }
  }

  ghost predicate Rings(rings: seq<Ring>)
    reads rings, set r <- rings :: r.data
  {
    && |rings| == CORES
    && (forall i, j :: 0 <= i < j < CORES ==> rings[i] != rings[j])
    && (forall r <- rings :: r.Valid())
  }

  ghost predicate Emptied(r: Ring)
    reads r
  {
    r.sent == |r.published|
  }

  /** The first ring with something in it, counting from next. */
  method Find(rings: seq<Ring>, next: nat) returns (c: nat)
    requires Rings(rings) && next < CORES
    ensures c <= CORES
    ensures c < CORES ==> rings[c].sent < |rings[c].published|
    ensures c == CORES ==> forall i :: 0 <= i < CORES ==> Emptied(rings[i])
  {
    var scanned := 0;
    while scanned < CORES
      invariant 0 <= scanned <= CORES
      invariant forall k: nat :: k < scanned ==> Emptied(rings[At(next, k)])
    {
      c := At(next, scanned);
      rings[c].EmptyMeans();
      if rings[c].tail != rings[c].head {
        return;
      }
      scanned := scanned + 1;
    }
    c := CORES;
    forall i | 0 <= i < CORES
      ensures Emptied(rings[i])
    {
      assert At(next, Distance(next, i)) == i;
    }
  }
  /** What has left ring r since it had retired was bytes. */
  ghost predicate Popped(was: nat, r: Ring, out: seq<(nat, byte)>, i: nat)
    reads r
  {
    was <= r.sent <= |r.published| && Sent(out, i) == r.published[was..r.sent]
  }

  ghost predicate AllPopped(was: seq<nat>, rings: seq<Ring>, out: seq<(nat, byte)>)
    requires |was| == |rings| == CORES
    reads rings
  {
    forall i :: 0 <= i < CORES ==> Popped(was[i], rings[i], out, i)
  }

  /** Retire one byte of ring c; the others are left alone. */
  method PopFrom(rings: seq<Ring>, c: nat, ghost was: seq<nat>, ghost out: seq<(nat, byte)>) returns (chr: byte)
    requires Rings(rings) && c < CORES && rings[c].sent < |rings[c].published|
    requires |was| == CORES && AllPopped(was, rings, out)
    modifies rings[c]
    ensures Rings(rings) && AllPopped(was, rings, out + [(c, chr)])
    ensures rings[c].published == old(rings[c].published)
  {
    hide Sent, Cell, Ring.Valid;
    ghost var n := rings[c].sent;
    chr := rings[c].Pop();
    forall i | 0 <= i < CORES
      ensures Popped(was[i], rings[i], out + [(c, chr)], i)
    {
      SentSnoc(out, (c, chr), i);
      if i == c {
        assert rings[c].published[was[c]..n] + [chr] == rings[c].published[was[c]..n + 1];
      } else {
        assert out + [] == out;
        assert rings[i] != rings[c];
      }
    }
    forall r | r in rings
      ensures r.Valid()
    {
    }
  }

  /**
   * amiga_console_drain: what goes to the wire is, ring by ring, what leaves the
   * ring; fewer than 512 bytes means every ring is empty.
   */
  method Drain(rings: seq<Ring>, nextCore: nat) returns (next: nat, out: seq<(nat, byte)>)
    requires Rings(rings) && nextCore < CORES
    modifies rings
    ensures Rings(rings) && next < CORES && |out| <= DRAIN_MAX
    ensures forall i :: 0 <= i < CORES ==> rings[i].published == old(rings[i].published)
    ensures forall i :: 0 <= i < CORES ==> Popped(old(rings[i].sent), rings[i], out, i)
    ensures |out| < DRAIN_MAX ==> forall i :: 0 <= i < CORES ==> Emptied(rings[i])
  {
    hide Sent, Cell, Ring.Valid;
    next, out := nextCore, [];
    ghost var was := seq(CORES, i requires 0 <= i < CORES => old(rings[i].sent));
    NothingSent(rings, was);
    while |out| < DRAIN_MAX
      invariant Rings(rings) && next < CORES && |out| <= DRAIN_MAX && AllPopped(was, rings, out)
      invariant forall i :: 0 <= i < CORES ==> rings[i].published == old(rings[i].published)
      decreases DRAIN_MAX - |out|
    {
      var c := Find(rings, next);
      if c == CORES {
        return;
      }
      var chr := PopFrom(rings, c, was, out);
      out := out + [(c, chr)];
      if chr == NEWLINE {
        next := (c + 1) % CORES;
      }
    }
  }

  lemma NothingSent(rings: seq<Ring>, was: seq<nat>)
    requires Rings(rings) && |was| == CORES && forall i :: 0 <= i < CORES ==> was[i] == rings[i].sent
    ensures AllPopped(was, rings, [])
  {
    forall i | 0 <= i < CORES
      ensures Popped(was[i], rings[i], [], i)
    {
      assert rings[i].Valid();
    }
  }
}
