/**
 Where sectors live: the zoned geometry of group-coded disks, the regular one of high-density
 disks, and the order in which the sectors of a group-coded track follow each other.
 */
module FloppyGeometry {
  const TRACKS: nat := 80

  function SectorsForTrack(track: nat): (n: nat)
    ensures 8 <= n <= 12
  {
    if track < 16 then 12
    else if track < 32 then 11
    else if track < 48 then 10
    else if track < 64 then 9
    else 8
  }

  function Heads(doubleSided: bool): nat { if doubleSided then 2 else 1 }

  function BlocksBefore(track: nat, doubleSided: bool): nat
  {
    if track == 0 then 0
    else BlocksBefore(track - 1, doubleSided) + SectorsForTrack(track - 1) * Heads(doubleSided)
  }

  function FirstBlockForTrack(track: nat, side: nat, doubleSided: bool): nat
  {
    BlocksBefore(track, doubleSided) + if doubleSided then side * SectorsForTrack(track) else 0
  }

  /** The loop over the tracks below. */
  method ComputeFirstBlockForTrack(track: nat, side: nat, doubleSided: bool) returns (block: nat)
    ensures block == FirstBlockForTrack(track, side, doubleSided)
  {
    block := 0;
    var heads := if doubleSided then 2 else 1;
    for t := 0 to track
      invariant block == BlocksBefore(t, doubleSided)
    {
      block := block + SectorsForTrack(t) * heads;
    }
    block := block + if doubleSided then side * SectorsForTrack(track) else 0;
  }

  /** Sectors on one side of a track, for either recording. */
  function SectorsPerTrack(highDensity: bool, track: nat): nat
  {
    if highDensity then 18 else SectorsForTrack(track)
  }

  /** The block a commit writes and a track is built from. */
  function BlockOf(highDensity: bool, doubleSided: bool, track: nat, side: nat, sector: nat): nat
  {
    if highDensity then (track * 2 + side) * 18 + sector
    else FirstBlockForTrack(track, side, doubleSided) + sector
  }

  function BlockCount(highDensity: bool, doubleSided: bool): nat
  {
    if highDensity then 2880 else if doubleSided then 1600 else 800
  }

  /** A place on the disk: high-density disks are always double sided. */
  predicate IsPlace(highDensity: bool, doubleSided: bool, track: nat, side: nat, sector: nat)
  {
    && (highDensity ==> doubleSided)
    && track < TRACKS && side < Heads(doubleSided) && sector < SectorsPerTrack(highDensity, track)
  }

  lemma {:induction false} ZonesAddUp(track: nat, doubleSided: bool)
    requires track <= TRACKS
    ensures BlocksBefore(track, doubleSided)
         == Heads(doubleSided) * (if track <= 16 then 12 * track
                                  else if track <= 32 then 192 + 11 * (track - 16)
                                  else if track <= 48 then 368 + 10 * (track - 32)
                                  else if track <= 64 then 528 + 9 * (track - 48)
                                  else 672 + 8 * (track - 64))
  {
    if track > 0 {
      ZonesAddUp(track - 1, doubleSided);
    }
  }

  lemma {:induction false} TracksFollow(low: nat, high: nat, doubleSided: bool)
    requires low < high
    ensures BlocksBefore(low, doubleSided) + SectorsForTrack(low) * Heads(doubleSided) <= BlocksBefore(high, doubleSided)
    decreases high
  {
    if low < high - 1 {
      TracksFollow(low, high - 1, doubleSided);
    }
  }

  /** Every place has its own block, and the block exists. */
  lemma BlocksAreDistinct(hd: bool, ds: bool, track: nat, side: nat, sector: nat, track': nat, side': nat, sector': nat)
    requires IsPlace(hd, ds, track, side, sector) && IsPlace(hd, ds, track', side', sector')
    ensures BlockOf(hd, ds, track, side, sector) < BlockCount(hd, ds)
    ensures BlockOf(hd, ds, track, side, sector) == BlockOf(hd, ds, track', side', sector')
            <==> track == track' && side == side' && sector == sector'
  {
    if !hd {
      hide BlockOf, BlocksBefore, SectorsForTrack;
      BlockInTrack(ds, track, side, sector);
      BlockInTrack(ds, track', side', sector');
      TracksFollow(track, TRACKS, ds);
      ZonesAddUp(TRACKS, ds);
      if track < track' {
        TracksFollow(track, track', ds);
      } else if track' < track {
        TracksFollow(track', track, ds);
      } else {
        SidesAreDistinct(SectorsForTrack(track), side, sector, side', sector');
      }
    }
  }

  lemma BlockInTrack(ds: bool, track: nat, side: nat, sector: nat)
    requires IsPlace(false, ds, track, side, sector)
    ensures var block := BlockOf(false, ds, track, side, sector);
            && block == BlocksBefore(track, ds) + side * SectorsForTrack(track) + sector
            && block < BlocksBefore(track, ds) + SectorsForTrack(track) * Heads(ds)
  {
    hide BlocksBefore, SectorsForTrack;
    if side == 0 {} else {}
  }

  lemma SidesAreDistinct(sectors: nat, side: nat, sector: nat, side': nat, sector': nat)
    requires side < 2 && side' < 2 && sector < sectors && sector' < sectors
    ensures side * sectors + sector == side' * sectors + sector' <==> side == side' && sector == sector'
  {
    if side == 0 {} else {}
    if side' == 0 {} else {}
  }

  lemma {:induction false} TrackHolding(block: nat, ds: bool, high: nat) returns (track: nat)
    requires block < BlocksBefore(high, ds)
    ensures track < high
    ensures BlocksBefore(track, ds) <= block < BlocksBefore(track, ds) + SectorsForTrack(track) * Heads(ds)
  {
    if block < BlocksBefore(high - 1, ds) {
      track := TrackHolding(block, ds, high - 1);
    } else {
      track := high - 1;
    }
  }

  /** Every block is somewhere: the numbering is onto. */
  lemma EveryBlockHasAPlace(hd: bool, ds: bool, block: nat) returns (track: nat, side: nat, sector: nat)
    requires (hd ==> ds) && block < BlockCount(hd, ds)
    ensures IsPlace(hd, ds, track, side, sector) && BlockOf(hd, ds, track, side, sector) == block
  {
    if hd {
      track, side, sector := block / 36, block / 18 % 2, block % 18;
      DensePlace(block);
    } else {
      ZonesAddUp(TRACKS, ds);
      track := TrackHolding(block, ds, TRACKS);
      var inTrack := block - BlocksBefore(track, ds);
      side := if inTrack < SectorsForTrack(track) then 0 else 1;
      sector := inTrack - side * SectorsForTrack(track);
    }
  }

  lemma DensePlace(block: nat)
    requires block < 2880
    ensures block / 36 < 80 && block / 18 % 2 < 2 && block % 18 < 18
    ensures (block / 36 * 2 + block / 18 % 2) * 18 + block % 18 == block
  {}

  // ---------- sector interleave ----------

  /** The slot of a logical sector: even slots are filled first, then the odd ones. */
  function SlotOf(n: nat, sector: nat): nat
  {
    if 2 * sector < n then 2 * sector else 2 * (sector - (n + 1) / 2) + 1
  }

  /** The logical sector in each slot. */
  function InterleavedOrder(n: nat): (order: seq<nat>)
    ensures |order| == n
  {
    seq(n, slot => if slot % 2 == 0 then slot / 2 else (n + 1) / 2 + slot / 2)
  }

  lemma Wrap(x: nat, n: nat)
    requires 0 < n && n <= x < 2 * n
    ensures x % n == x - n
  {
    assert x == 1 * n + (x - n);
  }

  lemma NextSlot(n: nat, sector: nat, next: nat)
    requires sector + 1 < n && next == (SlotOf(n, sector) + 2) % n
    ensures SlotOf(n, sector + 1) == if next == 0 then 1 else next
  {
    var half := (n + 1) / 2;
    assert 2 * half == n || 2 * half == n + 1;
    var skipped := SlotOf(n, sector) + 2;
    assert skipped < n + 2;
    if n <= skipped {
      Wrap(skipped, n);
    } else {
      NoWrap(skipped, n);
    }
  }

  lemma NoWrap(x: nat, n: nat)
    requires x < n
    ensures x % n == x
  {}

  /** `interleavedSectorOrder`: skips two slots at a time, stepping aside when it comes back to the first. */
  method InterleavedSectorOrder(n: nat) returns (order: seq<nat>)
    ensures order == InterleavedOrder(n)
  {
    order := seq(n, _ => 0);
    var slot := 0;
    for sector := 0 to n
      invariant |order| == n
      invariant sector < n ==> slot == SlotOf(n, sector)
      invariant forall placed :: 0 <= placed < sector ==> order[SlotOf(n, placed)] == placed
    {
      order := order[slot := sector];
      slot := (slot + 2) % n;
      if sector + 1 < n { NextSlot(n, sector, slot); }
      if slot == 0 {
        slot := slot + 1;
      }
    }
    forall j | 0 <= j < n
      ensures order[j] == InterleavedOrder(n)[j]
    {
      assert SlotOf(n, InterleavedOrder(n)[j]) == j;
    }
  }

  /** The order is a permutation: each sector stands in its slot and nowhere else. */
  lemma InterleaveIsPermutation(n: nat, sector: nat)
    requires sector < n
    ensures SlotOf(n, sector) < n && InterleavedOrder(n)[SlotOf(n, sector)] == sector
    ensures forall slot :: 0 <= slot < n && InterleavedOrder(n)[slot] == sector ==> slot == SlotOf(n, sector)
    ensures forall slot :: 0 <= slot < n ==> InterleavedOrder(n)[slot] < n
  {}
}
