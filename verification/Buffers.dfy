/** The buffer-object table as the submit path reads it. */
module Buffers {
  import opened Bytes

  const MAX_BOS: nat := 1024

  /**
   * One TMU submission found by the shader scanner. offsets holds the byte
   * offsets P0, P1, ... that were recorded, at most four; the slots the source
   * marks ~0 are the missing ones.
   */
  datatype Sample = Sample(isDirect: bool, offsets: seq<u32>)

  /** A table entry. A live entry is mapped: mem is its contents, |mem| its size. */
  datatype Bo = Bo(
    refcount: nat, bus: u32, mem: seq<byte>,
    uniformsSize: u32, samples: seq<Sample>, uniformAddrs: seq<u32>)

  /** The handle list of a submission together with the table it indexes. */
  datatype Handles = Handles(list: seq<u32>, table: seq<Bo>)

  predicate ValidHandles(h: Handles) {
    |h.table| == MAX_BOS && forall bo <- h.table :: |bo.mem| < 0x1_0000_0000
  }

  /** The checks every consumer of a handle index repeats. */
  function Resolve(h: Handles, hindex: u32): (r: Option<Bo>)
    requires ValidHandles(h)
    ensures r.Some? ==> r.value in h.table && r.value.refcount > 0
  {
    if hindex >= |h.list| then None
    else
      var handle := h.list[hindex];
      if handle == 0 || handle >= MAX_BOS || h.table[handle].refcount == 0 then None
      else Some(h.table[handle])
  }

  /** bo_bus_addr: 0 when the index does not resolve. */
  function BusAddr(h: Handles, hindex: u32): u32
    requires ValidHandles(h)
  {
    match Resolve(h, hindex)
    case None => 0
    case Some(bo) => bo.bus
  }

  // ---- What an index names ----

  /** Entry i of the submission's list is the number of a live table entry. */
  predicate Live(list: seq<u32>, table: seq<Bo>, i: nat)
    requires |table| == MAX_BOS
  {
    i < |list| && 0 < list[i] < 1024 && table[list[i]].refcount > 0
  }

  /** The bus address of the buffer entry i names, 0 if it names none. */
  function BusOf(list: seq<u32>, table: seq<Bo>, i: nat): u32
    requires |table| == MAX_BOS
  {
    if Live(list, table, i) then table[list[i]].bus else 0
  }

  lemma ResolveExactly(h: Handles, i: u32)
    requires ValidHandles(h)
    ensures Resolve(h, i) == if Live(h.list, h.table, i) then Some(h.table[h.list[i]]) else None
    ensures BusAddr(h, i) == BusOf(h.list, h.table, i)
  {
  }
}
