/** Chipset time: real time turned into colour clocks, and spent in steps. */
module Clock {
  import opened Bytes

  const CCK_PER_SECOND: nat := 3546895
  const MAX_CATCHUP: nat := 80000
  const MAX_STEP: nat := 512
  const LOCK_BUDGET: nat := 4096

  /** uint64_t arithmetic. */
  function Wrap64(x: nat): (r: nat)
    ensures r <= x && (x < 0x1_0000_0000_0000_0000 ==> r == x)
  {
    x % 0x1_0000_0000_0000_0000
  }

  // ---- Time conversion ----

  /** Whole colour clocks and the remainder carried, for a rate of CCK_PER_SECOND over d ticks a second. */
  datatype Carry = Carry(cck: nat, rest: nat)

  function Split(scaled: nat, d: nat): Carry
    requires d > 0
  {
    Carry(scaled / d, scaled % d)
  }

  /** What one poll adds: elapsed ticks on top of the carried remainder. */
  function Convert(c: Carry, elapsed: nat, d: nat): Carry
    requires d > 0
  {
    var more := Split(elapsed * CCK_PER_SECOND + c.rest, d);
    Carry(c.cck + more.cck, more.rest)
  }

  /** The exact conversion of a number of ticks. */
  function Exactly(ticks: nat, d: nat): Carry
    requires d > 0
  {
    Split(ticks * CCK_PER_SECOND, d)
  }

  function Total(polls: seq<nat>): nat {
    if polls == [] then 0 else Total(polls[..|polls| - 1]) + polls[|polls| - 1]
  }

  function Polled(polls: seq<nat>, d: nat): Carry
    requires d > 0
  {
    if polls == [] then Carry(0, 0) else Convert(Polled(polls[..|polls| - 1], d), polls[|polls| - 1], d)
  }

  lemma ConvertExact(ticks: nat, elapsed: nat, d: nat)
    requires d > 0
    ensures Convert(Exactly(ticks, d), elapsed, d) == Exactly(ticks + elapsed, d)
  {
    var x, y := ticks * CCK_PER_SECOND, elapsed * CCK_PER_SECOND;
    assert (ticks + elapsed) * CCK_PER_SECOND == x + y;
    var scaled := y + x % d;
    assert x + y == (x / d + scaled / d) * d + scaled % d;
    DivUnique(x + y, x / d + scaled / d, d, scaled % d);
  }

  /** However time is split into polls, the colour clocks are the floor of the exact amount: nothing drifts. */
  lemma {:induction false} PollsExact(polls: seq<nat>, d: nat)
    requires d > 0
    ensures Polled(polls, d) == Exactly(Total(polls), d)
  {
    hide Convert, Exactly;
    if polls == [] {
      assert Exactly(0, d) == Carry(0, 0) by {
        ZeroTicks(d);
      }
    } else {
      PollsExact(polls[..|polls| - 1], d);
      ConvertExact(Total(polls[..|polls| - 1]), polls[|polls| - 1], d);
    }
  }

  lemma ZeroTicks(d: nat)
    requires d > 0
    ensures Exactly(0, d) == Carry(0, 0)
  {
  }

  /** One poll keeps its 64-bit product: at 54 MHz, anything up to a day between two polls. */
  predicate Fits(elapsed: nat, rest: nat) {
    elapsed * CCK_PER_SECOND + rest < 0x1_0000_0000_0000_0000
  }

  lemma PollKeeps(cck: nat, rest: nat, ticks: nat, elapsed: nat, d: nat)
    requires d > 0 && Carry(cck, rest) == Exactly(ticks, d) && Fits(elapsed, rest)
    ensures var more := Split(Wrap64(elapsed * CCK_PER_SECOND + rest), d);
            Carry(cck + more.cck, more.rest) == Exactly(ticks + elapsed, d)
  {
    ConvertExact(ticks, elapsed, d);
  }

  // ---- Spending it ----

  /** A step of the chipset: when, how far, the deadline known at the time, and what was banked. */
  datatype Step = Step(at: nat, length: nat, deadline: nat, banked: nat)

  /** Never more than banked or than 512, and never past a deadline still to come. */
  predicate Sane(s: Step) {
    && 0 < s.length <= MAX_STEP && s.length <= s.banked
    && (s.at < s.deadline ==> s.at + s.length <= s.deadline)
  }

  class Chipset {
    /** CNTFRQ_EL0 and the boot-time divisor. */
    const freq: nat
    const divisor: nat
    const floor: bool

    var wallLast: nat
    var wallRemainder: nat
    var pending: nat
    /** Rigel's clock. */
    var time: nat
    ghost var start: nat
    ghost var ticks: nat
    ghost var forgiven: nat
    ghost var steps: seq<Step>

    ghost predicate Valid()
      reads this
    {
      && divisor > 0 && start <= time && pending <= MAX_CATCHUP
      && (freq == 0 ==> ticks == pending == forgiven == 0 && time == start)
      && (freq > 0 ==> Carry(time - start + pending + forgiven, wallRemainder) == Exactly(ticks, freq * divisor))
      && (forall s <- steps :: Sane(s))
    }

    constructor (freq: nat, divisor: nat, floor: bool, time: nat)
      requires divisor > 0
      ensures Valid() && wallLast == ticks == pending == 0 && steps == [] && this.time == time == start
      ensures this.freq == freq && this.divisor == divisor && this.floor == floor
    {
      this.freq, this.divisor, this.floor, this.time := freq, divisor, floor, time;
      wallLast, wallRemainder, pending := 0, 0, 0;
      start, ticks, forgiven, steps := time, 0, 0, [];
      new;
      if freq > 0 {
        ZeroTicks(freq * divisor);
      }
    }

    /** amiga_clock_advance_wall at counter value now. */
    method AdvanceWall(now: nat)
      requires Valid() && wallLast <= now
      requires Fits(now - wallLast, wallRemainder)
      modifies this`wallLast, this`wallRemainder, this`pending, this`ticks, this`forgiven
      ensures Valid()
      ensures wallLast == if freq == 0 then old(wallLast) else now
      ensures ticks == old(ticks) + if freq == 0 || old(wallLast) == 0 then 0 else now - old(wallLast)
      ensures forgiven > old(forgiven) ==> pending == MAX_CATCHUP
      ensures forgiven >= old(forgiven)
    {
      hide Exactly, Fits, Wrap64, Split;
      if freq == 0 {
        return;
      }
      if wallLast == 0 {
        wallLast := now;
        return;
      }
      var elapsed := now - wallLast;
      wallLast := now;
      var d := freq * divisor;
      var more := Split(Wrap64(elapsed * CCK_PER_SECOND + wallRemainder), d);
      PollKeeps(time - start + pending + forgiven, wallRemainder, ticks, elapsed, d);
      pending := pending + more.cck;
      wallRemainder := more.rest;
      ticks := ticks + elapsed;
      if pending > MAX_CATCHUP {
        forgiven := forgiven + pending - MAX_CATCHUP;
        pending := MAX_CATCHUP;
      }
    }

    /** amiga_clock_quantum: the distance to the next observable deadline, at most 512, at least 1. */
    function Quantum(deadline: nat): (q: nat)
      reads this
      ensures 1 <= q <= MAX_STEP && (time < deadline ==> time + q <= deadline)
      ensures time < deadline && q < MAX_STEP ==> time + q == deadline
      ensures deadline <= time ==> q == 1
    {
      if deadline <= time then 1 else if deadline - time < MAX_STEP then deadline - time else MAX_STEP
    }

    /** amiga_clock_floor_reached. */
    predicate FloorReached(deadline: nat)
      reads this
    {
      !floor || pending >= Quantum(deadline)
    }

    method StepChipset(quantum: nat, ghost deadline: nat)
      requires Valid() && 0 < quantum <= pending && quantum <= Quantum(deadline)
      modifies this`time, this`pending, this`steps
      ensures Valid() && time == old(time) + quantum && pending == old(pending) - quantum
      ensures steps == old(steps) + [Step(old(time), quantum, deadline, old(pending))]
    {
      steps := steps + [Step(time, quantum, deadline, pending)];
      time := time + quantum;
      pending := pending - quantum;
    }

    /** amiga_clock_consume: everything banked is spent. deadlines is Rigel's answer at each time. */
    method Consume(deadlines: nat -> nat)
      requires Valid()
      modifies this`time, this`pending, this`steps
      ensures Valid() && pending == 0 && time == old(time) + old(pending) && old(steps) <= steps
    {
      while pending != 0
        invariant Valid() && time + pending == old(time) + old(pending) && old(steps) <= steps
        decreases pending
      {
        var quantum := Quantum(deadlines(time));
        if pending < quantum {
          quantum := pending;
        }
        StepChipset(quantum, deadlines(time));
      }
    }

    /**
     * One lock hold of the chipset core: at most 4096 colour clocks; with the
     * floor on, time is held back only while it is less than the quantum.
     */
    method RunOnce(now: nat, deadlines: nat -> nat) returns (held: bool)
      requires Valid() && wallLast <= now
      requires Fits(now - wallLast, wallRemainder)
      modifies this
      ensures Valid() && old(time) <= time <= old(time) + LOCK_BUDGET && old(steps) <= steps
      ensures held ==> floor && time == old(time) && pending < Quantum(deadlines(time)) <= MAX_STEP
      ensures !held ==> pending == 0 || time == old(time) + LOCK_BUDGET
      ensures wallLast == if freq == 0 then old(wallLast) else now
    {
      hide Valid, Fits;
      AdvanceWall(now);
      if !FloorReached(deadlines(time)) {
        return true;
      }
      var budget: nat := LOCK_BUDGET;
      while pending != 0 && budget != 0
        invariant Valid() && 0 <= budget <= LOCK_BUDGET && time == old(time) + LOCK_BUDGET - budget
        invariant old(steps) <= steps
        invariant wallLast == if freq == 0 then old(wallLast) else now
        decreases budget
      {
        var quantum: nat := Quantum(deadlines(time));
        if pending < quantum {
          quantum := pending;
        }
        if budget < quantum {
          quantum := budget;
        }
        StepChipset(quantum, deadlines(time));
        budget := budget - quantum;
      }
      held := false;
    }

    /** Everything so far, in one equation. */
    lemma Account()
      requires Valid() && freq > 0
      ensures freq * divisor > 0
      ensures (time - start) + pending + forgiven == ticks * CCK_PER_SECOND / (freq * divisor)
      ensures wallRemainder < freq * divisor && pending <= MAX_CATCHUP
    {
      assert Carry(time - start + pending + forgiven, wallRemainder) == Exactly(ticks, freq * divisor);
    }
  }
}
