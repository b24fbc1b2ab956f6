/** What a complete record in the write buffer does, decided by its own bytes. */
module FloppyRecords {
  import opened Bytes
  import opened FloppyGeometry
  import opened FloppyMedia
  import opened FloppyWrites
  import opened GcrCodec
  import opened MfmCheck
  import opened MfmWriteBack

  lemma RecordIsField(record: seq<byte>)
    requires |record| >= 4 && record[..3] == [0xa1, 0xa1, 0xa1]
    requires (|record| == 10 && record[3] == 0xfe) || (|record| == 518 && record[3] in {0xfb, 0xf8})
    ensures IsField(record)
  {}

  /**
   An ID field sets the sector register exactly if its check comes out even and it names the track
   and the side under the head and sectors of 512 bytes; otherwise it does nothing.
   */
  lemma IdFieldDecides(host: Host, at: Place, m: Media, junk: seq<byte>, record: seq<byte>)
    requires m.highDensity && NoSyncBefore(junk)
    requires |record| == 10 && record[..3] == [0xa1, 0xa1, 0xa1] && record[3] == 0xfe
    ensures var named := MfmCrc(record) == 0 && record[4] as nat == at.track && record[5] as nat == at.side && record[7] == 2;
            Parse(host, at, m, junk + record)
            == Parsed(if named then m.(sector := record[6] as nat - 1) else m, [], false)
  {
    hide Parse, Take, CheckHolds, MfmCrc, NoSyncBefore;
    RecordIsField(record);
    CheckIsResidue(record);
    FieldParses(host, at, m, junk, record);
  }

  /**
   A data field, deleted or not, is committed to the sector in the register exactly if there is one
   of the eighteen and the check comes out even; otherwise it raises the failure flag.
   */
  lemma DataFieldDecides(host: Host, at: Place, m: Media, junk: seq<byte>, record: seq<byte>)
    requires m.highDensity && NoSyncBefore(junk)
    requires |record| == 518 && record[..3] == [0xa1, 0xa1, 0xa1] && record[3] in {0xfb, 0xf8}
    ensures Parse(host, at, m, junk + record) ==
              if 0 <= m.sector < 18 && MfmCrc(record) == 0 then
                var done := Commit(host, at, m, m.sector, record[4..516], []);
                Parsed(done.media, [], done.committed)
              else Parsed(m.(failed := true), [], false)
  {
    hide Parse, Take, CheckHolds, MfmCrc, NoSyncBefore, Commit;
    RecordIsField(record);
    CheckIsResidue(record);
    FieldParses(host, at, m, junk, record);
  }

  /** A field of any other kind is passed over. */
  lemma OtherFieldsArePassed(host: Host, at: Place, m: Media, record: seq<byte>)
    requires m.highDensity && |record| >= 4 && record[..3] == [0xa1, 0xa1, 0xa1] && record[3] !in {0xfe, 0xfb, 0xf8}
    ensures Parse(host, at, m, record) == Parse(host, at, m, record[1..])
  {
    hide Act;
    StartsWithMarks(record);
    FindIs(record, Sync(true), 0);
    assert record[0..] == record;
    ParseTurns(host, at, m, record, record, 1);
    SkipsOne(host, at, m, record[..1]);
  }

  lemma OpensRecord(record: seq<byte>)
    requires |record| == 710 && record[..3] == [0xd5, 0xaa, 0xad]
    ensures MatchAt(record, Sync(false), 0) && Find(record, Sync(false), 0) == 0 && record[0..] == record
  {
    assert record[0] == record[..3][0] && record[1] == record[..3][1] && record[2] == record[..3][2];
    FindIs(record, Sync(false), 0);
  }

  /**
   A group-coded data record is committed exactly if it names a sector of its track and its payload
   decodes, which includes its checksums; otherwise it raises the failure flag. Without the closing
   bytes it is no record.
   */
  lemma GcrRecordDecides(host: Host, at: Place, m: Media, record: seq<byte>)
    requires !m.highDensity && |record| == 710 && record[..3] == [0xd5, 0xaa, 0xad]
    ensures record[707..] != [0xde, 0xaa, 0xff] ==> Parse(host, at, m, record) == Parse(host, at, m, record[1..])
    ensures record[707..] == [0xde, 0xaa, 0xff] ==>
              var sector, payload := DecodeGcr(record[3]), DecodePayload(record[4..707]);
              Parse(host, at, m, record) ==
                if sector.Some? && sector.value as nat < SectorsForTrack(at.track) && payload.Some? then
                  var done := Commit(host, at, m, sector.value as nat, payload.value[12..], payload.value[..12]);
                  Parsed(done.media, [], done.committed)
                else Parsed(m.(failed := true), [], false)
  {
    OpensRecord(record);
    assert record[707..710] == record[707..];
    if record[707..] == [0xde, 0xaa, 0xff] {
      hide Parse, DecodeGcr, DecodePayload, Commit;
      ParseTurns(host, at, m, record, record, 710);
      assert record[..710] == record && record[710..] == [];
      EmptyParse(host, at, Act(host, at, m, record).media);
    } else {
      hide Parse, Act;
      ParseTurns(host, at, m, record, record, 1);
      SkipsOne(host, at, m, record[..1]);
    }
  }
}
