/**
 * The console rings: four producers and one drainer, one memory access a step.
 *
 * Stream positions count bytes since the start; the ring's indices are those
 * positions modulo its size.
 */
module Console {
  import opened Bytes

  const RING_SIZE: nat := 4096
  const LINE_MAX: nat := 240
  const DRAIN_MAX: nat := 512
  const CORES: nat := 4
  const NEWLINE: byte := 10

  /** A finished line or line piece, and whether there was room for it. */
  datatype Chunk = Chunk(text: seq<byte>, kept: bool)

  /** Collecting characters; line complete; copying it into the ring. */
  datatype Producer = Collecting | Complete | Copying(seen: nat, copied: nat)

  datatype Core = Core(
    line: seq<byte>, producer: Producer,
    head: nat, tail: nat, data: seq<byte>, dropped: nat,
    // history: characters put, chunks finished, bytes published and how many of them are on the wire
    put: seq<byte>, chunks: seq<Chunk>, published: seq<byte>, sent: nat)

  /** The drainer: looking at the k-th core from next, one chosen, its byte on the wire but not yet retired. */
  datatype Drainer = Scanning(k: nat) | Chosen(core: nat) | Retiring(core: nat, out: byte)

  datatype State = State(cores: seq<Core>, drainer: Drainer, next: nat, drained: nat, wire: seq<(nat, byte)>)

  datatype Event =
    | Put(core: nat, chr: byte) | Load(core: nat) | Copy(core: nat) | Publish(core: nat)
    | Scan | Emit | Retire

  function Text(chunks: seq<Chunk>): seq<byte> {
    if chunks == [] then [] else Text(chunks[..|chunks| - 1]) + chunks[|chunks| - 1].text
  }

  function Kept(chunks: seq<Chunk>): seq<byte> {
    if chunks == [] then []
    else Kept(chunks[..|chunks| - 1]) + (if chunks[|chunks| - 1].kept then chunks[|chunks| - 1].text else [])
  }

  function Lost(chunks: seq<Chunk>): nat {
    if chunks == [] then 0 else Lost(chunks[..|chunks| - 1]) + (if chunks[|chunks| - 1].kept then 0 else 1)
  }

  function Cell(position: nat): (r: nat)
    ensures r < RING_SIZE
  {
    position % RING_SIZE
  }

  /** The d-th core the drainer looks at. */
  function At(next: nat, d: nat): (c: nat)
    ensures c < CORES
  {
    (next + d) % CORES
  }

  function Distance(next: nat, c: nat): (d: nat)
    requires next < CORES && c < CORES
    ensures d < CORES && At(next, d) == c
  {
    (c + CORES - next) % CORES
  }

  lemma DistanceUnique(next: nat, d: nat)
    requires next < CORES && d < CORES
    ensures Distance(next, At(next, d)) == d
  {
  }

  // ---- Steps of one core ----

  /** (head - tail) & MASK. */
  function Used(head: nat, tail: nat): nat {
    (head - tail) % RING_SIZE
  }

  function PutChar(c: Core, chr: byte): Core {
    var line := c.line + [chr];
    c.(line := line, put := c.put + [chr],
       producer := if chr != NEWLINE && |line| < LINE_MAX then Collecting else Complete)
  }

  /** Load both indices; a line that does not fit is dropped whole and counted. */
  function LoadIndices(c: Core): Core {
    if |c.line| > RING_SIZE - 1 - Used(c.head, c.tail) then
      c.(line := [], producer := Collecting, dropped := c.dropped + 1, chunks := c.chunks + [Chunk(c.line, false)])
    else c.(producer := Copying(c.sent, 0))
  }

  function CopyByte(c: Core): Core
    requires c.producer.Copying? && c.producer.copied < |c.line| && |c.data| == RING_SIZE
  {
    c.(data := c.data[Cell(c.head + c.producer.copied) := c.line[c.producer.copied]],
       producer := c.producer.(copied := c.producer.copied + 1))
  }

  function PublishLine(c: Core): Core {
    c.(head := Cell(c.head + |c.line|), line := [], producer := Collecting,
       chunks := c.chunks + [Chunk(c.line, true)], published := c.published + c.line)
  }

  function RetireByte(c: Core): Core {
    c.(tail := Cell(c.tail + 1), sent := c.sent + 1)
  }

  // ---- Steps of the system ----

  predicate Shape(s: State) {
    && |s.cores| == CORES && s.next < CORES && s.drained < DRAIN_MAX
    && (forall i :: 0 <= i < CORES ==> |s.cores[i].data| == RING_SIZE && s.cores[i].tail < RING_SIZE)
    && (match s.drainer
        case Scanning(k) => k < CORES
        case Chosen(c) => c < CORES
        case Retiring(c, _) => c < CORES)
  }

  predicate Enabled(s: State, e: Event) {
    && Shape(s)
    && match e
       case Put(c, _) => c < CORES && s.cores[c].producer.Collecting?
       case Load(c) => c < CORES && s.cores[c].producer.Complete?
       case Copy(c) => c < CORES && s.cores[c].producer.Copying? && s.cores[c].producer.copied < |s.cores[c].line|
       case Publish(c) => c < CORES && s.cores[c].producer.Copying? && s.cores[c].producer.copied == |s.cores[c].line|
       case Scan => s.drainer.Scanning?
       case Emit => s.drainer.Chosen?
       case Retire => s.drainer.Retiring?
  }

  function Looked(s: State): nat
    requires s.drainer.Scanning?
  {
    (s.next + s.drainer.k) % CORES
  }

  function Next(s: State, e: Event): State
    requires Enabled(s, e)
  {
    match e
    case Put(c, chr) => s.(cores := s.cores[c := PutChar(s.cores[c], chr)])
    case Load(c) => s.(cores := s.cores[c := LoadIndices(s.cores[c])])
    case Copy(c) => s.(cores := s.cores[c := CopyByte(s.cores[c])])
    case Publish(c) => s.(cores := s.cores[c := PublishLine(s.cores[c])])
    case Scan =>
      var c := Looked(s);
      if s.cores[c].tail != s.cores[c].head then s.(drainer := Chosen(c))
      else if s.drainer.k + 1 < CORES then s.(drainer := Scanning(s.drainer.k + 1))
      else s.(drainer := Scanning(0), drained := 0)
    case Emit =>
      var c := s.drainer.core;
      var out := s.cores[c].data[s.cores[c].tail];
      s.(drainer := Retiring(c, out), wire := s.wire + [(c, out)])
    case Retire =>
      var c := s.drainer.core;
      s.(cores := s.cores[c := RetireByte(s.cores[c])], drainer := Scanning(0),
         next := if s.drainer.out == NEWLINE then (c + 1) % CORES else s.next,
         drained := if s.drained + 1 == DRAIN_MAX then 0 else s.drained + 1)
  }

  // ---- The invariant ----

  /** The bytes of core i on the wire, in order. */
  function Sent(wire: seq<(nat, byte)>, i: nat): seq<byte> {
    if wire == [] then []
    else Sent(wire[..|wire| - 1], i) + (if wire[|wire| - 1].0 == i then [wire[|wire| - 1].1] else [])
  }

  /** Indices are positions modulo the size, unread cells hold what was published, at most one short of full. */
  predicate RingSound(c: Core) {
    && |c.data| == RING_SIZE && c.sent <= |c.published| <= c.sent + RING_SIZE - 1
    && c.head == Cell(|c.published|) && c.tail == Cell(c.sent)
    && (forall j :: c.sent <= j < |c.published| ==> c.data[Cell(j)] == c.published[j])
  }

  /** A chunk: up to its newline, or 240 characters without one before the last. */
  predicate Whole(text: seq<byte>) {
    && 0 < |text| <= LINE_MAX && NEWLINE !in text[..|text| - 1]
    && (text[|text| - 1] == NEWLINE || |text| == LINE_MAX)
  }

  /** What is being copied fits between the published end and the oldest cell seen unread. */
  predicate ProducerSound(c: Core) {
    match c.producer
    case Collecting => |c.line| < LINE_MAX && NEWLINE !in c.line
    case Complete => Whole(c.line)
    case Copying(seen, copied) =>
      && Whole(c.line) && copied <= |c.line| && seen <= c.sent
      && |c.published| + |c.line| <= seen + RING_SIZE - 1
      && (forall j :: 0 <= j < copied && |c.data| == RING_SIZE ==> c.data[Cell(|c.published| + j)] == c.line[j])
  }

  /** Nothing is lost, duplicated or reordered: put = chunks + line, kept chunks = sent + unread. */
  predicate Conserved(c: Core) {
    && c.put == Text(c.chunks) + c.line
    && c.published == Kept(c.chunks)
    && c.dropped == Lost(c.chunks)
    && (forall i :: 0 <= i < |c.chunks| ==> Whole(c.chunks[i].text))
  }

  predicate CoreInv(c: Core) {
    RingSound(c) && ProducerSound(c) && Conserved(c)
  }

  /** The wire carries exactly the retired bytes of each core, plus the one being retired. */
  predicate WireSound(s: State, i: nat)
    requires i < |s.cores|
  {
    var c := s.cores[i];
    var n := c.sent + if s.drainer.Retiring? && s.drainer.core == i then 1 else 0;
    n <= |c.published| && Sent(s.wire, i) == c.published[..n]
  }

  predicate DrainerSound(s: State)
    requires |s.cores| == CORES
  {
    match s.drainer
    case Scanning(_) => true
    case Chosen(c) => c < CORES && s.cores[c].sent < |s.cores[c].published|
    case Retiring(c, out) =>
      c < CORES && s.cores[c].sent < |s.cores[c].published| && out == s.cores[c].published[s.cores[c].sent]
  }

  predicate Inv(s: State) {
    && Shape(s)
    && (forall i :: 0 <= i < CORES ==> CoreInv(s.cores[i]) && WireSound(s, i))
    && DrainerSound(s)
  }

  // ---- One core ----

  lemma CellsDiffer(i: nat, j: nat)
    requires i < j < i + RING_SIZE
    ensures Cell(i) != Cell(j)
  {
  }

  lemma CellAdd(position: nat, k: nat)
    ensures Cell(Cell(position) + k) == Cell(position + k)
  {
  }

  lemma UsedExact(c: Core)
    requires RingSound(c)
    ensures Used(c.head, c.tail) == |c.published| - c.sent
  {
    var h, t := |c.published|, c.sent;
    assert (Cell(h) - Cell(t)) % RING_SIZE == (h - t) % RING_SIZE by {
    }
  }

  lemma PutKeeps(c: Core, chr: byte)
    requires CoreInv(c) && c.producer.Collecting?
    ensures CoreInv(PutChar(c, chr))
  {
    hide RingSound, Kept, Lost, Text;
    assert RingSound(PutChar(c, chr)) by {
      RingFrame(c, PutChar(c, chr));
    }
    assert c.put + [chr] == Text(c.chunks) + (c.line + [chr]);
    assert (c.line + [chr])[..|c.line|] == c.line;
  }

  lemma RingFrame(c: Core, d: Core)
    requires RingSound(c) && d.data == c.data && d.published == c.published && d.sent == c.sent && d.head == c.head
    requires d.tail == c.tail
    ensures RingSound(d)
  {
  }

  lemma ChunkAdded(chunks: seq<Chunk>, x: Chunk)
    ensures Text(chunks + [x]) == Text(chunks) + x.text
    ensures Kept(chunks + [x]) == Kept(chunks) + if x.kept then x.text else []
    ensures Lost(chunks + [x]) == Lost(chunks) + if x.kept then 0 else 1
  {
    assert (chunks + [x])[..|chunks|] == chunks;
  }

  lemma LoadKeeps(c: Core)
    requires CoreInv(c) && c.producer.Complete?
    ensures CoreInv(LoadIndices(c))
    ensures LoadIndices(c).dropped > c.dropped <==> |c.published| - c.sent + |c.line| > RING_SIZE - 1
  {
    hide Kept, Lost, Text;
    UsedExact(c);
    ChunkAdded(c.chunks, Chunk(c.line, false));
    hide Used, Cell;
    assert c.published + [] == c.published;
    assert Text(c.chunks) + c.line + [] == Text(c.chunks) + c.line;
  }

  /** The cell a producer writes holds nothing the drainer has yet to read. */
  lemma CopyMissesUnread(c: Core, j: nat)
    requires CoreInv(c) && c.producer.Copying? && c.producer.copied < |c.line| && c.sent <= j < |c.published|
    ensures Cell(c.head + c.producer.copied) != Cell(j)
  {
    CellAdd(|c.published|, c.producer.copied);
    CellsDiffer(j, |c.published| + c.producer.copied);
  }

  lemma CopyKeeps(c: Core)
    requires CoreInv(c) && c.producer.Copying? && c.producer.copied < |c.line|
    ensures CoreInv(CopyByte(c))
  {
    hide Conserved, Whole, CopyByte;
    assert CoreInv(CopyByte(c)) by {
      CopyConserves(c);
      CopyRing(c);
      CopyProducer(c);
    }
  }

  lemma CopyConserves(c: Core)
    requires c.producer.Copying? && c.producer.copied < |c.line| && |c.data| == RING_SIZE && Conserved(c)
    ensures Conserved(CopyByte(c))
  {
    hide Kept, Lost, Text, Whole;
  }

  lemma CopyRing(c: Core)
    requires CoreInv(c) && c.producer.Copying? && c.producer.copied < |c.line|
    ensures RingSound(CopyByte(c))
  {
    hide Conserved, Whole, Cell, ProducerSound;
    var d := CopyByte(c);
    forall j | c.sent <= j < |c.published|
      ensures d.data[Cell(j)] == c.published[j]
    {
      CopyMissesUnread(c, j);
    }
  }

  lemma CopyProducer(c: Core)
    requires CoreInv(c) && c.producer.Copying? && c.producer.copied < |c.line|
    ensures ProducerSound(CopyByte(c))
  {
    hide Conserved, Whole, Cell;
    var d, n := CopyByte(c), c.producer.copied;
    CellAdd(|c.published|, n);
    forall j | 0 <= j < n + 1
      ensures d.data[Cell(|c.published| + j)] == c.line[j]
    {
      if j < n {
        CellsDiffer(|c.published| + j, |c.published| + n);
      }
    }
  }

  lemma PublishKeeps(c: Core)
    requires CoreInv(c) && c.producer.Copying? && c.producer.copied == |c.line|
    ensures CoreInv(PublishLine(c))
  {
    hide Kept, Lost, Text;
    ChunkAdded(c.chunks, Chunk(c.line, true));
    CellAdd(|c.published|, |c.line|);
    hide Cell;
    var d := PublishLine(c);
    forall j | d.sent <= j < |d.published|
      ensures d.data[Cell(j)] == d.published[j]
    {
      if j >= |c.published| {
        assert c.data[Cell(|c.published| + (j - |c.published|))] == c.line[j - |c.published|];
      }
    }
    assert Text(c.chunks) + c.line + [] == Text(c.chunks) + c.line;
  }

  lemma RetireKeeps(c: Core)
    requires CoreInv(c) && c.sent < |c.published|
    ensures CoreInv(RetireByte(c))
  {
    hide Kept, Lost, Text;
    CellAdd(c.sent, 1);
  }
}
