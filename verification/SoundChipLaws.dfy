/**
 The sound chip as its programs know it: registers by their addresses, status bits by their values,
 levels in samples, time in clock rates.
 */
module SoundChipLaws {
  import opened Bytes
  import opened SoundChip

  // ---------- writing samples ----------

  /** The status after a write that brings a FIFO to `level`: its half-empty and its full bit, and all others. */
  predicate WriteMarks(before: byte, after: byte, level: nat, half: byte, full: byte)
  {
    && after & half == (if level >= 512 then 0 else before & half)
    && after & full == (if level >= 1023 then full else 0)
    && after & !(half | full) == before & !(half | full)
  }

  lemma FirstMarks(status: byte, level: nat)
    requires level > 0
    ensures WriteMarks(status, StatusAfterWrite(status, false, level), level, 0x01, 0x02)
  {}

  lemma SecondMarks(status: byte, level: nat)
    requires level > 0
    ensures WriteMarks(status, StatusAfterWrite(status, true, level), level, 0x04, 0x08)
  {}

  /** A channel that took a sample; a full one keeps its level. */
  predicate Took(before: Channel, after: Channel)
  {
    && after.read == before.read && after.write == (if before.write == 1023 then 0 else before.write + 1)
    && after.capacity == (if before.capacity == 1024 then 1024 else before.capacity + 1)
  }

  /**
   A sample written below 0x400 goes to the first FIFO, below 0x800 to the second. Its half-empty bit
   goes out from 512 samples on, and its full bit shows 1,023 or more; nothing else changes.
   */
  lemma SampleIsStored(c: Chip, offset: nat, value: byte)
    requires c.Valid() && offset % 4096 < 2048
    ensures var r := Write(c, offset, value);
            && r.memory == c.memory[0x804 := r.memory[0x804]]
            && r.enhanced == c.enhanced && r.accumulator == c.accumulator && r.irq == c.irq
            && (if offset % 4096 < 1024 then
                  && r.fifoA == c.fifoA[c.a.write := value] && Took(c.a, r.a) && r.fifoB == c.fifoB && r.b == c.b
                  && WriteMarks(c.memory[0x804], r.memory[0x804], r.a.capacity, 0x01, 0x02)
                else
                  && r.fifoB == c.fifoB[c.b.write := value] && Took(c.b, r.b) && r.fifoA == c.fifoA && r.a == c.a
                  && WriteMarks(c.memory[0x804], r.memory[0x804], r.b.capacity, 0x04, 0x08))
  {
    hide StatusAfterWrite, WriteMarks;
    FirstMarks(c.memory[0x804], c.a.Pushed().capacity);
    SecondMarks(c.memory[0x804], c.b.Pushed().capacity);
  }

  // ---------- registers ----------

  /**
   Reading the status acknowledges the interrupt; the original chip clears the status as well, the
   enhanced one keeps it. No other read changes anything.
   */
  lemma StatusIsAcknowledged(c: Chip, offset: nat)
    requires c.Valid()
    ensures var (after, value) := Read(c, offset);
            if offset % 4096 == 0x804 then
              value == c.memory[0x804]
              && after == c.(irq := false, memory := c.memory[0x804 := if c.enhanced then value else 0])
            else after == c
  {
    if c.enhanced { assert c.memory[0x804 := c.memory[0x804]] == c.memory; }
  }

  /** A register other than the status is read as it was written, but for the version, the clock rate and the single-bit registers. */
  lemma RegisterReadsBack(c: Chip, offset: nat, value: byte)
    requires c.Valid() && offset % 4096 >= 2048
    ensures Write(c, offset, value).Valid()
    ensures var at, back := offset % 4096, Read(Write(c, offset, value), offset).1;
            back == if at == 0x800 then (if c.enhanced then 0xb0 else 0)
                    else if !c.enhanced then value
                    else if at == 0x802 then c.memory[0x802]
                    else if at == 0x807 then 3
                    else if at in {0x801, 0xf09, 0xf29} then value & 1
                    else value
  {
    hide Has, Low2, With;
  }

  lemma Restarts(c: Chip, at: nat, value: byte)
    requires c.Valid() && 2048 <= at < 4096
    ensures var r, newMode := Write(c, at, value), at == 0x801 && Low2(value) != Low2(c.memory[0x801]);
            && r.fifoA == c.fifoA && r.fifoB == c.fifoB && r.irq == c.irq && r.enhanced == c.enhanced
            && (if newMode || (at == 0x803 && Has(value, 0x80)) then r.a == Channel(0, 0, 0) && r.b == Channel(0, 0, 0)
                else r.a == c.a && r.b == c.b)
            && r.accumulator == (if newMode then 0 else c.accumulator)
            && (forall other :: 0 <= other < 4096 && other != at && other != 0x804 ==> r.memory[other] == c.memory[other])
  {
    hide With, Kept, Low2, Has;
  }

  lemma BitsAre(value: byte, mode: byte)
    ensures (Low2(value) != Low2(mode) <==> value & 3 != mode & 3) && (Has(value, 0x80) <==> value & 0x80 != 0)
  {}

  /**
   A new mode, and a reset of the FIFOs by bit 7 of register 0x803, empty both; a new mode restarts the
   sample clock as well. Otherwise a register leaves FIFOs and clock alone, and always the samples and
   the other registers but the status.
   */
  lemma RegistersRestart(c: Chip, offset: nat, value: byte)
    requires c.Valid() && offset % 4096 >= 2048
    ensures var at, r := offset % 4096, Write(c, offset, value);
            var newMode := at == 0x801 && value & 3 != c.memory[0x801] & 3;
            && r.fifoA == c.fifoA && r.fifoB == c.fifoB && r.irq == c.irq && r.enhanced == c.enhanced
            && (if newMode || (at == 0x803 && value & 0x80 != 0) then r.a == Channel(0, 0, 0) && r.b == Channel(0, 0, 0)
                else r.a == c.a && r.b == c.b)
            && r.accumulator == (if newMode then 0 else c.accumulator)
            && (forall other :: 0 <= other < 4096 && other != at && other != 0x804 ==> r.memory[other] == c.memory[other])
  {
    hide Write, Low2, Has;
    Restarts(c, offset % 4096, value);
    BitsAre(value, c.memory[0x801]);
    SameRegister(c, offset, value);
  }

  lemma SameRegister(c: Chip, offset: nat, value: byte)
    requires c.Valid()
    ensures Write(c, offset, value) == Write(c, offset % 4096, value)
  {
    hide WriteFifo, WriteRegister;
  }

  /** The bits of `bits` set, all others kept. */
  predicate Sets(before: byte, after: byte, bits: byte) { after & bits == bits && after & !bits == before & !bits }

  lemma WithSets(before: byte, bits: byte)
    ensures Sets(before, With(before, bits), bits)
  {}

  /** What registers do to the status: the mode of the enhanced chip and the FIFO reset show full bits. */
  lemma RegistersMark(c: Chip, offset: nat, value: byte)
    requires c.Valid() && offset % 4096 >= 2048
    ensures var at, before, after := offset % 4096, c.memory[0x804], Write(c, offset, value).memory[0x804];
            && (at == 0x801 && c.enhanced ==> Sets(before, after, 0x08))
            && (at == 0x803 && value & 0x80 != 0 ==> Sets(before, after, 0x0a))
            && (at == 0x804 ==> after == value)
            && (at !in {0x801, 0x803, 0x804} || (at == 0x801 && !c.enhanced) || (at == 0x803 && value & 0x80 == 0) ==> after == before)
  {
    hide Write, Sets, Has;
    Marks(c, offset % 4096, value);
    BitsAre(value, c.memory[0x801]);
    SameRegister(c, offset, value);
    WithSets(c.memory[0x804], 0x08);
    WithSets(c.memory[0x804], 0x0a);
  }

  lemma Marks(c: Chip, at: nat, value: byte)
    requires c.Valid() && 2048 <= at < 4096
    ensures Write(c, at, value).memory[0x804] ==
              if at == 0x801 && c.enhanced then With(c.memory[0x804], 0x08)
              else if at == 0x803 && Has(value, 0x80) then With(c.memory[0x804], 0x0a)
              else if at == 0x804 then value
              else c.memory[0x804]
  {
    hide With, Low1, Low2, Has;
  }

  // ---------- playing ----------

  /** The chip plays in mode 1, and plays both FIFOs if it is enhanced or told to. */
  lemma WhatPlays(c: Chip)
    requires c.Valid()
    ensures c.Playing() <==> c.memory[0x801] & 3 == 1
    ensures c.Stereo() <==> c.enhanced || c.memory[0x802] & 1 != 0
  {}

  /** A FIFO that runs empty within `n` samples, and one that passes the middle. */
  predicate Empties(ch: Channel, n: nat) { 0 < ch.capacity <= n }

  predicate Halves(ch: Channel, n: nat) { ch.capacity >= 512 && n > ch.capacity - 512 }

  /** How a full bit goes on: it comes on when its FIFO runs empty, and goes out when the FIFO passes the middle. */
  predicate FullBit(before: bool, after: bool, ch: Channel, n: nat)
  {
    after <==> if Empties(ch, n) then true else if Halves(ch, n) then false else before
  }

  lemma OtherBitsStay(s: byte, bit: byte)
    requires bit == 0x01 || bit == 0x02 || bit == 0x04 || bit == 0x08
    ensures Has(With(s, bit), 0x02) == (Has(s, 0x02) || bit == 0x02)
    ensures Has(With(s, bit), 0x08) == (Has(s, 0x08) || bit == 0x08)
    ensures Has(Without(s, bit), 0x02) == (Has(s, 0x02) && bit != 0x02)
    ensures Has(Without(s, bit), 0x08) == (Has(s, 0x08) && bit != 0x08)
  {}

  lemma SampleFullBits(status: byte, second: bool, level: nat)
    ensures var r, own, other := StatusAfterSample(status, second, level), if second then 0x08 else 0x02, if second then 0x02 else 0x08;
            && (Has(r, own) <==> if level == 1 then true else if level == 512 then false else Has(status, own))
            && (Has(r, other) <==> Has(status, other))
  {
    hide Has, With, Without;
    var half := With(status, HalfBit(second));
    OtherBitsStay(status, HalfBit(second));
    OtherBitsStay(half, EdgeBit(second));
  }

  lemma SampleFull(c: Chip)
    requires c.Valid()
    ensures var before, after := c.memory[0x804], Sample(c).memory[0x804];
            && (Has(after, 0x02) <==> if c.a.capacity == 1 then true else if c.a.capacity == 512 then false else Has(before, 0x02))
            && (Has(after, 0x08) <==> if !c.Stereo() then Has(before, 0x08)
                                      else if c.b.capacity == 1 then true else if c.b.capacity == 512 then false else Has(before, 0x08))
  {
    hide Has, StatusAfterSample, Low1, Channel.Popped;
    var first := StatusAfterSample(c.memory[0x804], false, c.a.capacity);
    SampleFullBits(c.memory[0x804], false, c.a.capacity);
    SampleFullBits(first, true, c.b.capacity);
  }

  lemma FullBitSteps(before: bool, middle: bool, after: bool, ch: Channel, n: nat)
    requires ch.Valid() && FullBit(before, middle, ch, n)
    requires var level := Drained(ch, n).capacity;
             after <==> if level == 1 then true else if level == 512 then false else middle
    ensures FullBit(before, after, ch, n + 1)
  {}

  /** The full bits after any number of samples: on from empty, off from the middle, and otherwise as before. */
  lemma {:induction false} SamplesMarkFull(c: Chip, n: nat)
    requires c.Valid()
    ensures var before, after := c.memory[0x804], Samples(c, n).memory[0x804];
            && FullBit(Has(before, 0x02), Has(after, 0x02), c.a, n)
            && (if c.Stereo() then FullBit(Has(before, 0x08), Has(after, 0x08), c.b, n) else Has(after, 0x08) == Has(before, 0x08))
    decreases n
  {
    hide Has, Sample, Low1, Drained, Channel.Popped;
    if n > 0 {
      hide FullBit;
      var before, middle, after := c.memory[0x804], Samples(c, n - 1).memory[0x804], Samples(c, n).memory[0x804];
      SamplesMarkFull(c, n - 1);
      SamplesDrain(c, n - 1);
      SamplesKeepClock(c, n - 1, 0);
      SampleFull(Samples(c, n - 1));
      FullBitSteps(Has(before, 0x02), Has(middle, 0x02), Has(after, 0x02), c.a, n - 1);
      if c.Stereo() { FullBitSteps(Has(before, 0x08), Has(middle, 0x08), Has(after, 0x08), c.b, n - 1); }
    }
  }

  lemma UpperBits(s: byte, second: bool, level: nat)
    ensures StatusAfterSample(s, second, level) & 0xf0 == s & 0xf0
  {}

  /** Playing changes the level and the status, never a sample or another register. */
  lemma {:induction false} SamplesKeepTheRest(c: Chip, n: nat)
    requires c.Valid()
    ensures var r := Samples(c, n);
            && r.fifoA == c.fifoA && r.fifoB == c.fifoB
            && r.memory == c.memory[0x804 := r.memory[0x804]] && r.memory[0x804] & 0xf0 == c.memory[0x804] & 0xf0
    decreases n
  {
    hide StatusAfterSample, Low1, Channel.Popped;
    if n > 0 {
      SamplesKeepTheRest(c, n - 1);
      var s := Samples(c, n - 1);
      UpperBits(s.memory[0x804], false, s.a.capacity);
      UpperBits(StatusAfterSample(s.memory[0x804], false, s.a.capacity), true, s.b.capacity);
    }
  }
}
