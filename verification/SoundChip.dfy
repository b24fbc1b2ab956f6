/** The Apple sound chip: two sample FIFOs, their status bits, and a sample clock with a fractional remainder. */
module SoundChip {
  import opened Bytes

  const MODE: nat := 0x801
  const CONTROL: nat := 0x802
  const FIFO_MODE: nat := 0x803
  const FIFO_STATUS: nat := 0x804
  const CLOCK_RATE: nat := 0x807
  const FIFO_A_IRQ: nat := 0xf09
  const FIFO_B_IRQ: nat := 0xf29
  const CPU_CLOCK: nat := 15_667_200
  const FIFO: nat := 0x400
  const HALF: nat := 0x200

  // ---------- bits ----------

  function With(register: byte, bits: byte): byte { register | bits }

  function Without(register: byte, bits: byte): byte { register & !bits }

  predicate Has(register: byte, bits: byte) { register & bits != 0 }

  function Low2(value: byte): byte { value & 3 }

  function Low1(value: byte): byte { value & 1 }

  // ---------- the state ----------

  datatype Channel = Channel(read: nat, write: nat, capacity: nat)
  {
    predicate Valid() { read < 1024 && write < 1024 && capacity <= 1024 }

    /** The pointers are as far apart as the FIFO is full. */
    predicate Ring() { (write - read - capacity) % 1024 == 0 }

    function Pushed(): Channel { Channel(read, (write + 1) % FIFO, if capacity < FIFO then capacity + 1 else capacity) }

    function Popped(): Channel { if capacity == 0 then this else Channel((read + 1) % FIFO, write, capacity - 1) }
  }

  const EMPTY := Channel(0, 0, 0)

  datatype Chip = Chip(enhanced: bool, memory: seq<byte>, fifoA: seq<byte>, fifoB: seq<byte>,
                       a: Channel, b: Channel, accumulator: nat, irq: bool)
  {
    predicate Valid()
    {
      |memory| == 0x1000 && |fifoA| == FIFO && |fifoB| == FIFO && a.Valid() && b.Valid()
    }

    function Rate(): nat { if enhanced then 44_100 else 22_257 }

    predicate Playing()
      requires Valid()
    {
      Low2(memory[MODE]) == 1
    }

    predicate Stereo()
      requires Valid()
    {
      enhanced || Low1(memory[CONTROL]) != 0
    }

    function WithStatus(status: byte): Chip
      requires Valid()
    {
      this.(memory := memory[FIFO_STATUS := status])
    }
  }

  function HalfBit(second: bool): byte { if second then 0x04 else 0x01 }

  function EdgeBit(second: bool): byte { if second then 0x08 else 0x02 }

  // ---------- register access ----------

  function StatusAfterWrite(status: byte, second: bool, capacity: nat): byte
  {
    var half := if capacity >= HALF then Without(status, HalfBit(second)) else status;
    if capacity >= FIFO - 1 then With(half, EdgeBit(second))
    else if capacity > 0 then Without(half, EdgeBit(second))
    else half
  }

  function WriteFifo(c: Chip, second: bool, value: byte): (r: Chip)
    requires c.Valid()
    ensures r.Valid()
  {
    if second then
      var b := c.b.Pushed();
      c.(fifoB := c.fifoB[c.b.write := value], b := b).WithStatus(StatusAfterWrite(c.memory[FIFO_STATUS], true, b.capacity))
    else
      var a := c.a.Pushed();
      c.(fifoA := c.fifoA[c.a.write := value], a := a).WithStatus(StatusAfterWrite(c.memory[FIFO_STATUS], false, a.capacity))
  }

  /** The value a register takes: the enhanced chip keeps one bit of some. */
  function Kept(enhanced: bool, offset: nat, value: byte): byte
  {
    if enhanced && (offset == MODE || offset == FIFO_A_IRQ || offset == FIFO_B_IRQ) then Low1(value) else value
  }

  function WriteRegister(c: Chip, offset: nat, value: byte): (r: Chip)
    requires c.Valid() && 0x800 < offset < 0x1000
    ensures r.Valid()
  {
    var restarted := if offset == MODE && Low2(value) != Low2(c.memory[MODE]) then c.(a := EMPTY, b := EMPTY, accumulator := 0) else c;
    var marked := if c.enhanced && offset == MODE then restarted.WithStatus(With(c.memory[FIFO_STATUS], 0x08)) else restarted;
    var cleared := if offset == FIFO_MODE && Has(value, 0x80) then
                     marked.(a := EMPTY, b := EMPTY).WithStatus(With(c.memory[FIFO_STATUS], 0x0a))
                   else marked;
    cleared.(memory := cleared.memory[offset := Kept(c.enhanced, offset, value)])
  }

  function Write(c: Chip, offset: nat, value: byte): (r: Chip)
    requires c.Valid()
    ensures r.Valid()
  {
    var at := offset % 0x1000;
    if at < 0x800 then WriteFifo(c, at >= 0x400, value)
    else if at == 0x800 || (c.enhanced && at == CONTROL) then c
    else WriteRegister(c, at, value)
  }

  function Read(c: Chip, offset: nat): (r: (Chip, byte))
    requires c.Valid()
    ensures r.0.Valid()
  {
    var at := offset % 0x1000;
    if at < 0x400 then (c, c.fifoA[at])
    else if at < 0x800 then (c, c.fifoB[at - 0x400])
    else if at == 0x800 then (c, if c.enhanced then 0xb0 else 0)
    else if c.enhanced && at == CLOCK_RATE then (c, 3)
    else if at == FIFO_STATUS then
      ((if c.enhanced then c else c.WithStatus(0)).(irq := false), c.memory[FIFO_STATUS])
    else (c, c.memory[at])
  }

  // ---------- playing ----------

  /** The status bits after one sample was taken from a FIFO that held `capacity`. */
  function StatusAfterSample(status: byte, second: bool, capacity: nat): byte
  {
    var half := if capacity == HALF then Without(With(status, HalfBit(second)), EdgeBit(second)) else status;
    if capacity == 1 then With(With(half, HalfBit(second)), EdgeBit(second)) else half
  }

  function Consume(c: Chip, second: bool): (r: Chip)
    requires c.Valid()
    ensures r.Valid()
  {
    var capacity := if second then c.b.capacity else c.a.capacity;
    var r := c.WithStatus(StatusAfterSample(c.memory[FIFO_STATUS], second, capacity)).(irq := c.irq || capacity == HALF || capacity == 1);
    if second then r.(b := c.b.Popped()) else r.(a := c.a.Popped())
  }

  function Sample(c: Chip): (r: Chip)
    requires c.Valid()
    ensures r.Valid()
  {
    if c.Stereo() then Consume(Consume(c, false), true) else Consume(c, false)
  }

  function Samples(c: Chip, n: nat): (r: Chip)
    requires c.Valid()
    ensures r.Valid()
    decreases n
  {
    if n == 0 then c else Sample(Samples(c, n - 1))
  }

  /** The accumulator is 64 bits wide. */
  function Tick(c: Chip, cycles: nat): (r: Chip)
    requires c.Valid()
    ensures r.Valid()
  {
    if !c.Playing() then c
    else
      var total := (c.accumulator + cycles * c.Rate()) % 0x1_0000_0000_0000_0000;
      Samples(c.(accumulator := total % CPU_CLOCK), total / CPU_CLOCK)
  }

  // ---------- the sample clock ----------

  /** Taking samples changes neither what is played nor the remainder of the clock, and does not depend on it. */
  lemma {:induction false} SamplesKeepClock(c: Chip, n: nat, accumulator: nat)
    requires c.Valid()
    ensures var r := Samples(c, n);
            && r.accumulator == c.accumulator && r.enhanced == c.enhanced
            && r.memory[MODE] == c.memory[MODE] && r.memory[CONTROL] == c.memory[CONTROL]
            && Samples(c.(accumulator := accumulator), n) == r.(accumulator := accumulator)
    decreases n
  {
    hide Sample;
    if n > 0 {
      SamplesKeepClock(c, n - 1, accumulator);
      SampleKeepsClock(Samples(c, n - 1), accumulator);
    }
  }

  lemma SampleKeepsClock(c: Chip, accumulator: nat)
    requires c.Valid()
    ensures var r := Sample(c);
            && r.accumulator == c.accumulator && r.enhanced == c.enhanced
            && r.memory[MODE] == c.memory[MODE] && r.memory[CONTROL] == c.memory[CONTROL]
            && Sample(c.(accumulator := accumulator)) == r.(accumulator := accumulator)
  {
    hide StatusAfterSample, Low1, Channel.Popped;
  }

  lemma {:induction false} SamplesAdd(c: Chip, m: nat, n: nat)
    requires c.Valid()
    ensures Samples(Samples(c, m), n) == Samples(c, m + n)
    decreases n
  {
    hide Sample;
    if n > 0 { SamplesAdd(c, m, n - 1); }
  }

  lemma DivisionAdds(x: nat, y: nat)
    ensures (x % CPU_CLOCK + y) / CPU_CLOCK + x / CPU_CLOCK == (x + y) / CPU_CLOCK
    ensures (x % CPU_CLOCK + y) % CPU_CLOCK == (x + y) % CPU_CLOCK
  {}

  predicate NoOverflow(c: Chip, cycles: nat) { c.accumulator + cycles * c.Rate() < 0x1_0000_0000_0000_0000 }

  lemma SmallRemainder(total: nat)
    requires total < 0x1_0000_0000_0000_0000
    ensures total % 0x1_0000_0000_0000_0000 == total
  {}

  lemma TickIs(c: Chip, cycles: nat)
    requires c.Valid() && c.Playing() && NoOverflow(c, cycles)
    ensures var total := c.accumulator + cycles * c.Rate();
            Tick(c, cycles) == Samples(c, total / CPU_CLOCK).(accumulator := total % CPU_CLOCK)
  {
    hide Samples, Low2, Chip.Rate;
    var total := c.accumulator + cycles * c.Rate();
    SmallRemainder(total);
    SamplesKeepClock(c, total / CPU_CLOCK, total % CPU_CLOCK);
  }

  lemma SameRate(c: Chip, d: Chip)
    ensures c.enhanced == d.enhanced ==> c.Rate() == d.Rate()
  {}

  /** Two ticks do what one tick of their sum does: no cycle is lost between them. */
  lemma TicksAdd(c: Chip, a: nat, b: nat)
    requires c.Valid() && NoOverflow(c, a + b)
    ensures Tick(Tick(c, a), b) == Tick(c, a + b)
  {
    hide Samples, Low2, Chip.Rate;
    if c.Playing() {
      var rate := c.Rate();
      assert (a + b) * rate == a * rate + b * rate;
      var x := c.accumulator + a * rate;
      var first := Tick(c, a);
      TickIs(c, a);
      SamplesKeepClock(c, x / CPU_CLOCK, x % CPU_CLOCK);
      assert first.Rate() == rate by { SameRate(c, first); }
      TickIs(first, b);
      TickIs(c, a + b);
      DivisionAdds(x, b * rate);
      SamplesKeepClock(Samples(c, x / CPU_CLOCK), (x % CPU_CLOCK + b * rate) / CPU_CLOCK, x % CPU_CLOCK);
      SamplesAdd(c, x / CPU_CLOCK, (x % CPU_CLOCK + b * rate) / CPU_CLOCK);
    }
  }

  function Total(parts: seq<nat>): nat
  {
    if parts == [] then 0 else Total(parts[..|parts| - 1]) + parts[|parts| - 1]
  }

  function TickAll(c: Chip, parts: seq<nat>): (r: Chip)
    requires c.Valid()
    ensures r.Valid()
    decreases |parts|
  {
    if parts == [] then c else Tick(TickAll(c, parts[..|parts| - 1]), parts[|parts| - 1])
  }

  lemma LessOverflow(c: Chip, a: nat, b: nat)
    requires NoOverflow(c, a + b)
    ensures NoOverflow(c, a)
  {
    assert (a + b) * c.Rate() == a * c.Rate() + b * c.Rate();
  }

  lemma TickNothing(c: Chip)
    requires c.Valid() && c.accumulator < CPU_CLOCK
    ensures Tick(c, 0) == c
  {}

  lemma TickStands(c: Chip, cycles: nat)
    requires c.Valid() && !c.Playing()
    ensures Tick(c, cycles) == c
  {}

  /**
   However a stretch of cycles is cut up, the chip takes the same samples; from an empty accumulator
   exactly as many as fit into it, rounded down, so the clock never drifts; a chip that does not play
   stands still.
   */
  lemma {:induction false} ClockNeverDrifts(c: Chip, parts: seq<nat>)
    requires c.Valid() && c.accumulator < CPU_CLOCK && NoOverflow(c, Total(parts))
    ensures TickAll(c, parts) == Tick(c, Total(parts))
    ensures c.memory[0x801] & 3 == 1 && c.accumulator == 0 ==>
              var progress := Total(parts) * if c.enhanced then 44_100 else 22_257;
              TickAll(c, parts) == Samples(c, progress / 15_667_200).(accumulator := progress % 15_667_200)
    ensures c.memory[0x801] & 3 != 1 ==> TickAll(c, parts) == c
    decreases |parts|
  {
    hide Tick, Samples;
    assert c.Playing() <==> c.memory[0x801] & 3 == 1;
    hide Low2;
    if parts == [] {
      TickNothing(c);
    } else {
      var start, last := parts[..|parts| - 1], parts[|parts| - 1];
      LessOverflow(c, Total(start), last);
      ClockNeverDrifts(c, start);
      TicksAdd(c, Total(start), last);
    }
    if c.Playing() { TickIs(c, Total(parts)); } else { TickStands(c, Total(parts)); }
  }

  // ---------- the FIFOs ----------

  /** Taking samples in a row, in closed form. */
  function Drained(ch: Channel, n: nat): Channel
  {
    if n < ch.capacity then Channel((ch.read + n) % 1024, ch.write, ch.capacity - n)
    else Channel((ch.read + ch.capacity) % 1024, ch.write, 0)
  }

  /** Whether a FIFO runs half empty, or empty, within `n` samples. */
  predicate RunsLow(ch: Channel, n: nat)
  {
    (ch.capacity >= 512 && n > ch.capacity - 512) || (0 < ch.capacity <= n)
  }

  lemma DrainOne(ch: Channel, n: nat)
    requires ch.Valid()
    ensures Drained(ch, n).Popped() == Drained(ch, n + 1)
    ensures Drained(ch, 0) == ch && !RunsLow(ch, 0)
    ensures RunsLow(ch, n + 1) <==> RunsLow(ch, n) || Drained(ch, n).capacity == HALF || Drained(ch, n).capacity == 1
  {
    NextPlace(ch.read + n);
  }

  lemma NextPlace(x: nat)
    ensures (x % FIFO + 1) % FIFO == (x + 1) % FIFO
  {}

  lemma SampleDrains(c: Chip)
    requires c.Valid()
    ensures var r := Sample(c);
            && r.a == c.a.Popped() && r.b == (if c.Stereo() then c.b.Popped() else c.b)
            && (r.irq <==> c.irq || c.a.capacity == HALF || c.a.capacity == 1
                           || (c.Stereo() && (c.b.capacity == HALF || c.b.capacity == 1)))
  {
    hide StatusAfterSample, Low1, Channel.Popped;
  }

  /**
   What any number of samples does: each FIFO that plays is drained by as many, down to empty, and
   the interrupt goes up exactly if one of them runs half empty or empty on the way.
   */
  lemma {:induction false} SamplesDrain(c: Chip, n: nat)
    requires c.Valid()
    ensures var r := Samples(c, n);
            && r.a == Drained(c.a, n) && r.b == (if c.Stereo() then Drained(c.b, n) else c.b)
            && (r.irq <==> c.irq || RunsLow(c.a, n) || (c.Stereo() && RunsLow(c.b, n)))
    decreases n
  {
    hide Sample, Low1, Drained, RunsLow, Channel.Popped;
    if n == 0 {
      DrainOne(c.a, 0);
      DrainOne(c.b, 0);
    } else {
      SamplesDrain(c, n - 1);
      SamplesKeepClock(c, n - 1, 0);
      SampleDrains(Samples(c, n - 1));
      DrainOne(c.a, n - 1);
      DrainOne(c.b, n - 1);
    }
  }

  lemma HalfBits(s: byte)
    ensures Has(With(s, 0x01), 0x01) && Has(With(s, 0x04), 0x04)
    ensures Has(With(s, 0x04), 0x01) == Has(s, 0x01) && Has(With(s, 0x01), 0x04) == Has(s, 0x04)
  {}

  lemma EdgeBitsApart(s: byte)
    ensures Has(With(s, 0x02), 0x01) == Has(s, 0x01) && Has(With(s, 0x08), 0x01) == Has(s, 0x01)
    ensures Has(With(s, 0x02), 0x04) == Has(s, 0x04) && Has(With(s, 0x08), 0x04) == Has(s, 0x04)
  {}

  lemma EdgeBitsCleared(s: byte)
    ensures Has(Without(s, 0x02), 0x01) == Has(s, 0x01) && Has(Without(s, 0x08), 0x01) == Has(s, 0x01)
    ensures Has(Without(s, 0x02), 0x04) == Has(s, 0x04) && Has(Without(s, 0x08), 0x04) == Has(s, 0x04)
  {}

  lemma SampleMarks(status: byte, second: bool, capacity: nat)
    ensures var r, low := StatusAfterSample(status, second, capacity), capacity == HALF || capacity == 1;
            && (Has(r, 0x01) <==> Has(status, 0x01) || (!second && low))
            && (Has(r, 0x04) <==> Has(status, 0x04) || (second && low))
  {
    hide Has, With, Without;
    var half := With(status, HalfBit(second));
    HalfBits(status);
    EdgeBitsApart(half);
    EdgeBitsCleared(half);
  }

  /** The half-empty bits report just that: a FIFO that ran low since they were last cleared. */
  lemma {:induction false} SamplesMark(c: Chip, n: nat)
    requires c.Valid()
    ensures var before, after := c.memory[FIFO_STATUS], Samples(c, n).memory[FIFO_STATUS];
            && (Has(after, 0x01) <==> Has(before, 0x01) || RunsLow(c.a, n))
            && (Has(after, 0x04) <==> Has(before, 0x04) || (c.Stereo() && RunsLow(c.b, n)))
    decreases n
  {
    hide Has, Sample, Low1, Drained, RunsLow, Channel.Popped;
    DrainOne(c.a, if n == 0 then 0 else n - 1);
    DrainOne(c.b, if n == 0 then 0 else n - 1);
    if n > 0 {
      SamplesMark(c, n - 1);
      SamplesDrain(c, n - 1);
      SamplesKeepClock(c, n - 1, 0);
      SampleStatus(Samples(c, n - 1));
    }
  }

  lemma SampleStatus(c: Chip)
    requires c.Valid()
    ensures var before, after := c.memory[FIFO_STATUS], Sample(c).memory[FIFO_STATUS];
            && (Has(after, 0x01) <==> Has(before, 0x01) || c.a.capacity == HALF || c.a.capacity == 1)
            && (Has(after, 0x04) <==> Has(before, 0x04) || (c.Stereo() && (c.b.capacity == HALF || c.b.capacity == 1)))
  {
    hide Has, StatusAfterSample, Low1, Channel.Popped;
    var first := StatusAfterSample(c.memory[FIFO_STATUS], false, c.a.capacity);
    SampleMarks(c.memory[FIFO_STATUS], false, c.a.capacity);
    SampleMarks(first, true, c.b.capacity);
  }

  /** A write keeps the pointers in step with the capacity exactly if the FIFO was not full. */
  lemma PushKeepsRing(ch: Channel)
    requires ch.Valid() && ch.Ring()
    ensures ch.Pushed().Valid()
    ensures ch.Pushed().Ring() <==> ch.capacity < FIFO
  {}

  lemma DrainKeepsRing(ch: Channel, n: nat)
    requires ch.Valid() && ch.Ring()
    ensures Drained(ch, n).Valid() && Drained(ch, n).Ring()
  {}

  datatype Op = WriteOp(offset: nat, value: byte) | ReadOp(offset: nat) | TickOp(cycles: nat)

  function Apply(c: Chip, op: Op): (r: Chip)
    requires c.Valid()
    ensures r.Valid()
  {
    match op
    case WriteOp(offset, value) => Write(c, offset, value)
    case ReadOp(offset) => Read(c, offset).0
    case TickOp(cycles) => Tick(c, cycles)
  }

  /** A write of a sample to a FIFO that is full. */
  predicate Overfills(c: Chip, op: Op)
  {
    op.WriteOp? && op.offset % 0x1000 < 0x800 && (if op.offset % 0x1000 < 0x400 then c.a else c.b).capacity == 1024
  }

  predicate Rings(c: Chip) { c.a.Ring() && c.b.Ring() }

  lemma ApplyKeepsRings(c: Chip, op: Op)
    requires c.Valid() && Rings(c)
    ensures Rings(Apply(c, op)) <==> !Overfills(c, op)
  {
    hide Samples, Low1, Low2, StatusAfterWrite, Channel.Pushed, Channel.Ring;
    assert EMPTY.Ring() by { EmptyRings(); }
    match op
    case WriteOp(offset, value) =>
      PushKeepsRing(c.a);
      PushKeepsRing(c.b);
    case ReadOp(_) =>
    case TickOp(cycles) =>
      if c.Playing() {
        var total := (c.accumulator + cycles * c.Rate()) % 0x1_0000_0000_0000_0000;
        SamplesDrain(c.(accumulator := total % CPU_CLOCK), total / CPU_CLOCK);
        DrainKeepsRing(c.a, total / CPU_CLOCK);
        DrainKeepsRing(c.b, total / CPU_CLOCK);
      }
  }

  lemma EmptyRings()
    ensures EMPTY.Ring()
  {}

  ghost predicate NeverOverfills(c: Chip, ops: seq<Op>)
    requires c.Valid()
    decreases |ops|
  {
    ops == [] || (!Overfills(c, ops[0]) && NeverOverfills(Apply(c, ops[0]), ops[1..]))
  }

  function Run(c: Chip, ops: seq<Op>): (r: Chip)
    requires c.Valid()
    ensures r.Valid()
    decreases |ops|
  {
    if ops == [] then c else Run(Apply(c, ops[0]), ops[1..])
  }

  /** Over runs that never write a full FIFO, the pointers stay as far apart as the FIFOs are full. */
  lemma {:induction false} RunKeepsRings(c: Chip, ops: seq<Op>)
    requires c.Valid() && Rings(c) && NeverOverfills(c, ops)
    ensures Rings(Run(c, ops))
    decreases |ops|
  {
    hide Apply, Overfills, Rings;
    if ops != [] {
      ApplyKeepsRings(c, ops[0]);
      RunKeepsRings(Apply(c, ops[0]), ops[1..]);
    }
  }

  /** `n` samples written to the first FIFO. */
  function Filling(n: nat, value: byte): seq<Op> { seq(n, _ => WriteOp(0, value)) }

  lemma {:induction false} FillThenOverfill(c: Chip, n: nat, value: byte)
    requires c.Valid() && Rings(c) && c.a.capacity + n == FIFO
    ensures var full := Run(c, Filling(n, value));
            full.a.capacity == 1024 && Rings(full)
    ensures !Rings(Run(c, Filling(n + 1, value)))
    decreases n
  {
    hide StatusAfterWrite, Rings;
    var ops := Filling(n + 1, value);
    var next := Apply(c, ops[0]);
    ApplyKeepsRings(c, ops[0]);
    assert ops[1..] == Filling(n, value);
    if n == 0 {
      assert Run(next, Filling(0, value)) == next;
    } else {
      assert Filling(n, value)[1..] == Filling(n - 1, value);
      FillThenOverfill(next, n - 1, value);
    }
  }

  /** On a chip after reset, 1,024 samples fill a FIFO with its pointers in step, and one more puts them out of step. */
  lemma OverfillingBreaksRings(enhanced: bool, value: byte)
    ensures AfterReset(enhanced).Valid()
    ensures var full := Run(AfterReset(enhanced), Filling(1024, value));
            full.a.capacity == 1024 && Rings(full)
    ensures !Rings(Run(AfterReset(enhanced), Filling(1025, value)))
  {
    FillThenOverfill(AfterReset(enhanced), FIFO, value);
  }

  // ---------- the chip itself ----------

  class AppleSoundChip {
    const enhanced: bool
    const memory: array<byte>
    const fifoA: array<byte>
    const fifoB: array<byte>
    var channelA: Channel
    var channelB: Channel
    var sampleCycleAccumulator: nat
    var irq: bool

    ghost function View(): Chip
      reads this, memory, fifoA, fifoB
    {
      Chip(enhanced, memory[..], fifoA[..], fifoB[..], channelA, channelB, sampleCycleAccumulator, irq)
    }

    ghost predicate Valid()
      reads this, memory, fifoA, fifoB
    {
      memory != fifoA && memory != fifoB && fifoA != fifoB && View().Valid()
    }

    constructor (enhanced: bool)
      ensures Valid() && this.enhanced == enhanced && fresh(memory) && fresh(fifoA) && fresh(fifoB)
      ensures View() == Chip(enhanced, Repeat(0, 0x1000), Repeat(0, FIFO), Repeat(0, FIFO), EMPTY, EMPTY, 0, false)
    {
      this.enhanced := enhanced;
      memory := new byte[0x1000](_ => 0);
      fifoA := new byte[FIFO](_ => 0);
      fifoB := new byte[FIFO](_ => 0);
      channelA, channelB, sampleCycleAccumulator, irq := EMPTY, EMPTY, 0, false;
      new;
      assert memory[..] == Repeat(0, 0x1000) && fifoA[..] == Repeat(0, FIFO) && fifoB[..] == Repeat(0, FIFO);
    }

    method ReadRegister(offset: nat) returns (value: byte)
      requires Valid()
      modifies this`irq, memory
      ensures Valid() && (View(), value) == Read(old(View()), offset)
    {
      var at := offset % 0x1000;
      if at < 0x400 { return fifoA[at]; }
      if at < 0x800 { return fifoB[at - 0x400]; }
      if at == 0x800 { return if enhanced then 0xb0 else 0; }
      if enhanced && at == CLOCK_RATE { return 3; }
      if at == FIFO_STATUS {
        value := memory[at];
        if !enhanced { memory[at] := 0; }
        irq := false;
        return;
      }
      value := memory[at];
    }

    method WriteRegisterAt(offset: nat, byteWritten: byte)
      requires Valid()
      modifies this`channelA, this`channelB, this`sampleCycleAccumulator, memory, fifoA, fifoB
      ensures Valid() && View() == Write(old(View()), offset, byteWritten)
    {
      var at := offset % 0x1000;
      if at < 0x800 {
        if at < 0x400 { PushA(byteWritten); } else { PushB(byteWritten); }
        return;
      }
      if at == 0x800 { return; }
      if enhanced && at == CONTROL { return; }
      SetRegister(at, byteWritten);
    }

    method PushA(value: byte)
      requires Valid()
      modifies this`channelA, memory, fifoA
      ensures Valid() && View() == WriteFifo(old(View()), false, value)
    {
      hide StatusAfterWrite;
      fifoA[channelA.write] := value;
      channelA := Channel(channelA.read, (channelA.write + 1) % FIFO, channelA.capacity);
      if channelA.capacity < FIFO { channelA := channelA.(capacity := channelA.capacity + 1); }
      MarkWritten(false, channelA.capacity);
    }

    method PushB(value: byte)
      requires Valid()
      modifies this`channelB, memory, fifoB
      ensures Valid() && View() == WriteFifo(old(View()), true, value)
    {
      hide StatusAfterWrite;
      fifoB[channelB.write] := value;
      channelB := Channel(channelB.read, (channelB.write + 1) % FIFO, channelB.capacity);
      if channelB.capacity < FIFO { channelB := channelB.(capacity := channelB.capacity + 1); }
      MarkWritten(true, channelB.capacity);
    }

    /** The status bits after a sample was stored. */
    method MarkWritten(second: bool, capacity: nat)
      requires memory.Length == 0x1000
      modifies memory
      ensures memory[..] == old(memory[..])[FIFO_STATUS := StatusAfterWrite(old(memory[FIFO_STATUS]), second, capacity)]
    {
      hide With, Without, HalfBit, EdgeBit;
      if capacity >= HALF { memory[FIFO_STATUS] := Without(memory[FIFO_STATUS], HalfBit(second)); }
      if capacity >= FIFO - 1 {
        memory[FIFO_STATUS] := With(memory[FIFO_STATUS], EdgeBit(second));
      } else if capacity > 0 {
        memory[FIFO_STATUS] := Without(memory[FIFO_STATUS], EdgeBit(second));
      }
    }

    method SetRegister(at: nat, byteWritten: byte)
      requires Valid() && 0x800 < at < 0x1000
      modifies this`channelA, this`channelB, this`sampleCycleAccumulator, memory
      ensures Valid() && View() == WriteRegister(old(View()), at, byteWritten)
    {
      hide Low1, Low2, With, Has, Kept;
      if at == MODE && Low2(byteWritten) != Low2(memory[at]) {
        channelA, channelB, sampleCycleAccumulator := EMPTY, EMPTY, 0;
      }
      var value := Kept(enhanced, at, byteWritten);
      if enhanced && at == MODE {
        memory[FIFO_STATUS] := With(memory[FIFO_STATUS], 0x08);
      }
      if at == FIFO_MODE && Has(byteWritten, 0x80) {
        channelA, channelB := EMPTY, EMPTY;
        memory[FIFO_STATUS] := With(memory[FIFO_STATUS], 0x0a);
      }
      memory[at] := value;
    }

    method Advance(cpuCycles: nat)
      requires Valid()
      modifies this`channelA, this`channelB, this`sampleCycleAccumulator, this`irq, memory
      ensures Valid() && View() == Tick(old(View()), cpuCycles)
    {
      hide Sample, Low1, Low2;
      if Low2(memory[MODE]) != 1 { return; }
      var sampleRate := if enhanced then 44_100 else 22_257;
      var total := (sampleCycleAccumulator + cpuCycles * sampleRate) % 0x1_0000_0000_0000_0000;
      var samples := total / CPU_CLOCK;
      sampleCycleAccumulator := total % CPU_CLOCK;
      var stereo := enhanced || Low1(memory[CONTROL]) != 0;
      ghost var start := View();
      for sample := 0 to samples
        invariant Valid() && View() == Samples(start, sample)
        invariant stereo == View().Stereo()
      {
        SamplesKeepClock(start, sample + 1, 0);
        SamplesKeepClock(start, sample, 0);
        TakeSample(stereo);
      }
    }

    method TakeSample(stereo: bool)
      requires Valid() && stereo == View().Stereo()
      modifies this`channelA, this`channelB, this`irq, memory
      ensures Valid() && View() == Sample(old(View()))
    {
      hide Consume, Low1;
      ConsumeA();
      if stereo { ConsumeB(); }
    }

    method ConsumeA()
      requires Valid()
      modifies this`channelA, this`irq, memory
      ensures Valid() && View() == Consume(old(View()), false)
    {
      hide StatusAfterSample;
      channelA := ConsumeFrom(channelA, false);
    }

    method ConsumeB()
      requires Valid()
      modifies this`channelB, this`irq, memory
      ensures Valid() && View() == Consume(old(View()), true)
    {
      hide StatusAfterSample;
      channelB := ConsumeFrom(channelB, true);
    }

    /** Takes a sample from one FIFO, if there is one, and marks its running low. */
    method ConsumeFrom(channel: Channel, second: bool) returns (after: Channel)
      requires memory.Length == 0x1000 && channel.Valid()
      modifies this`irq, memory
      ensures after == channel.Popped() && irq == (old(irq) || channel.capacity == HALF || channel.capacity == 1)
      ensures memory[..] == old(memory[..])[FIFO_STATUS := StatusAfterSample(old(memory[FIFO_STATUS]), second, channel.capacity)]
    {
      hide With, Without, HalfBit, EdgeBit;
      after := channel;
      if channel.capacity != 0 {
        after := Channel((after.read + 1) % FIFO, after.write, after.capacity - 1);
      }
      if channel.capacity == HALF {
        memory[FIFO_STATUS] := With(memory[FIFO_STATUS], HalfBit(second));
        memory[FIFO_STATUS] := Without(memory[FIFO_STATUS], EdgeBit(second));
        irq := true;
      }
      if channel.capacity != 0 && after.capacity == 0 {
        memory[FIFO_STATUS] := With(With(memory[FIFO_STATUS], HalfBit(second)), EdgeBit(second));
        irq := true;
      }
    }

    method Reset()
      requires Valid()
      modifies this`channelA, this`channelB, this`sampleCycleAccumulator, this`irq, memory, fifoA, fifoB
      ensures Valid() && View() == AfterReset(enhanced)
    {
      Zero(memory);
      Zero(fifoA);
      Zero(fifoB);
      channelA, channelB, sampleCycleAccumulator, irq := EMPTY, EMPTY, 0, false;
      if enhanced {
        memory[FIFO_STATUS] := 0x0f;
        memory[FIFO_A_IRQ] := 1;
        memory[FIFO_B_IRQ] := 1;
      }
    }

    method Zero(a: array<byte>)
      modifies a
      ensures a[..] == Repeat(0, a.Length)
    {
      for i := 0 to a.Length
        invariant forall j :: 0 <= j < i ==> a[j] == 0
      {
        a[i] := 0;
      }
    }
  }

  function AfterReset(enhanced: bool): Chip
  {
    var zeros := Repeat(0, 0x1000);
    Chip(enhanced, if enhanced then zeros[FIFO_STATUS := 0x0f][FIFO_A_IRQ := 1][FIFO_B_IRQ := 1] else zeros,
         Repeat(0, FIFO), Repeat(0, FIFO), EMPTY, EMPTY, 0, false)
  }
}
