/** Bytes that other programs read. */
module Formats {
  // A record of each file format and of the wire format, byte by byte (util/coding.cc; util/crc32c.h; db/dbformat.h;
  // db/log_format.h; db/write_batch.cc; db/version_edit.cc; table/block_builder.cc; table/filter_block.cc; nanopb).

  import opened Basics
  import opened Coding
  import opened LogWriter
  import LogRecovery
  import WriteBatches
  import EditCodec
  import MemTables
  import BlockBuilders
  import FilterBlocks
  import DbFormat
  import opened PbFields
  import opened PbWire
  import opened PbEncode

  /** Fixed-width numbers are little-endian, variable-length ones have seven bits in a byte, the low ones first, and a
      checksum is rotated right by 15 bits before the constant is added. */
  lemma Numbers()
    ensures Fixed32(0x0201) == [1, 2, 0, 0] && Fixed64(0x0201) == [1, 2, 0, 0, 0, 0, 0, 0]
    ensures Varint(1) == [1] && Varint(300) == [0xAC, 0x02]
    ensures Mask(1) == 0xa284ead8 && Mask(0x8000) == 0xa282ead9
  {
    Little(4);
    Little(8);
    assert Varint(300) == [0xAC] + Varint(2);
  }

  lemma Little(width: nat)
    requires width >= 2
    ensures Fixed(0x0201, width) == [1, 2] + Zeros(width - 2)
  {
    assert Fixed(0x0201, width) == [1] + Fixed(2, width - 1) && Fixed(2, width - 1) == [2] + Fixed(0, width - 2);
    Nothing(width - 2);
  }

  lemma {:induction false} Nothing(width: nat)
    ensures Fixed(0, width) == Zeros(width)
  {
    if width > 0 { Nothing(width - 1); }
  }

  /** A short record in the log: checksum, length, kind, payload. */
  lemma LogRecord(crc: Checksum)
    ensures LogRecovery.LogFile(crc, [[97, 98]]) == Fixed32(Mask(crc([1, 97, 98]))) + [2, 0, 1, 97, 98]
  {
    hide Fixed, Mask;
    var r: Bytes := [97, 98];
    assert [r][..0] == [];
    assert Aligned(0) == 0 && FragmentLength(0, r) == 2 && r[..2] == r;
    var ps := Pieces(0, r, true);
    assert ps == [Piece(0, 1, r)];
    assert [r][1..] == [] && LogRecovery.AllPieces(0, [r]) == ps + [] == ps;
    assert Render(crc, 0, ps) == Zeros(0) + Physical(crc, 1, r) + [] == Physical(crc, 1, r);
    assert [1] + r == [1, 97, 98];
  }

  lemma Operations()
    ensures WriteBatches.Record(WriteBatches.Put([97], [98, 99])) == [1, 1, 97, 2, 98, 99]
    ensures WriteBatches.Record(WriteBatches.Delete([100])) == [0, 1, 100]
  {
    assert LengthPrefixed([97]) == [1, 97] && LengthPrefixed([98, 99]) == [2, 98, 99];
    assert LengthPrefixed([100]) == [1, 100];
  }

  /** A batch: sequence number, count, and for each operation its kind and its lengths and bytes. */
  lemma Batch()
    ensures WriteBatches.Rep(5, [WriteBatches.Put([97], [98, 99]), WriteBatches.Delete([100])]) ==
      Fixed64(5) + Fixed32(2) + [1, 1, 97, 2, 98, 99] + [0, 1, 100]
  {
    hide Fixed, WriteBatches.Record;
    Operations();
    var put, delete := WriteBatches.Put([97], [98, 99]), WriteBatches.Delete([100]);
    assert [put, delete][..1] == [put] && [put][..0] == [];
    assert WriteBatches.Records([put]) == [] + WriteBatches.Record(put);
  }

  /** The tag numbers of the version edit; its number 8 is no longer in use. */
  lemma Edits()
    ensures EditCodec.EncodeItem(EditCodec.Comparator([97])) == [1, 1, 97]
    ensures EditCodec.EncodeItem(EditCodec.LogNumber(7)) == [2, 7]
    ensures EditCodec.EncodeItem(EditCodec.NextFileNumber(7)) == [3, 7]
    ensures EditCodec.EncodeItem(EditCodec.LastSequence(7)) == [4, 7]
    ensures EditCodec.EncodeItem(EditCodec.CompactPointer(2, [97])) == [5, 2, 1, 97]
    ensures EditCodec.EncodeItem(EditCodec.DeletedFile(2, 7)) == [6, 2, 7]
    ensures EditCodec.EncodeItem(EditCodec.NewFile(2, EditCodec.FileMeta(7, 9, [97], [98]))) ==
      [7, 2, 7, 9, 1, 97, 1, 98]
    ensures EditCodec.EncodeItem(EditCodec.PrevLogNumber(7)) == [9, 7]
  {
  }

  /** An internal key ends with its sequence number and kind in one 64-bit number; a value is kind 1, a deletion 0. */
  lemma MemtableEntry()
    ensures MemTables.EncodeEntry(3, DbFormat.Value, [97], [98]) == [9, 97] + Fixed64(0x301) + [1, 98]
    ensures MemTables.EncodeEntry(3, DbFormat.Deletion, [97], []) == [9, 97] + Fixed64(0x300) + [0]
    ensures MemTables.MemtableKey([97], 3) == [9, 97] + Fixed64(0x301)
  {
    hide Fixed;
    assert forall kind :: |MemTables.InternalKey(3, kind, [97])| == 9;
  }

  /** Entries with their shared, unshared and value lengths, the restart array and its length. */
  lemma Block()
    ensures BlockBuilders.BlockBytes([BlockBuilders.Pair([97], [1]), BlockBuilders.Pair([97, 98], [2])], 16) ==
      [0, 1, 1, 97, 1] + [1, 1, 1, 98, 2] + Fixed32(0) + Fixed32(1)
  {
    hide Fixed;
    var a, b := BlockBuilders.Pair([97], [1]), BlockBuilders.Pair([97, 98], [2]);
    assert [a, b][..1] == [a] && [a][..0] == [] && [0][..0] == [];
    assert BlockBuilders.CommonPrefix([97], [97, 98]) == 1;
    assert BlockBuilders.Data([a], 16) == BlockBuilders.EncodeEntry(0, a) == [0, 1, 1, 97, 1];
    assert BlockBuilders.EncodeEntry(1, b) == [1, 1, 1, 98, 2];
    assert BlockBuilders.Restarts([a, b], 16) == [0];
    assert FixedAll([0]) == Fixed32(0);
  }

  /** One filter: its bytes, where it begins, where the offsets begin, and the base parameter. */
  lemma Filters(p: FilterBlocks.Policy, k: Bytes)
    ensures var filter := p.create([k]);
      |filter| < TWO32 ==>
        FilterBlocks.FilterBlock(p, [[k]]) == filter + Fixed32(0) + Fixed32(|filter|) + [11]
  {
    hide Fixed;
    assert [[k]][..0] == [] && [0][..0] == [];
    assert FilterBlocks.Filters(p, []) == [];
    assert FixedAll([0]) == Fixed32(0);
  }

  lemma WireNumbers()
    ensures EncodeNum(UVarintK, 4, 150) == Some([0x96, 0x01])
    ensures EncodeNum(SVarintK, 4, -1) == Some([1]) && EncodeNum(SVarintK, 4, 1) == Some([2])
    ensures EncodeNum(VarintK, 4, 1) == Some([1]) && EncodeNum(Fixed32K, 4, 0x0201) == Some([1, 2, 0, 0])
  {
    Widths();
    Numbers();
    assert ToVarint(UVarintK, 4, 150) == 150 && Varint(150) == [0x96] + Varint(1) == [0x96, 0x01];
    assert ToVarint(VarintK, 4, 1) == 1 && ToVarint(SVarintK, 4, -1) == 1 && ToVarint(SVarintK, 4, 1) == 2;
  }

  /** A packed array is one record with the items' bytes under the field's tag. */
  lemma PackedArray()
    ensures var f := Field(6, Repeated, VarintK, 0, 0, 4, 8, None);
      && ItemsShape(f.kind, f.dataSize, [Num(3), Num(5)], false)
      && EncodeArray(f, [Num(3), Num(5)]) == Some([0x32, 2, 3, 5])
  {
    Widths();
    var items := [Num(3), Num(5)];
    assert items[1..] == [Num(5)] && items[1..][1..] == [];
    assert ToVarint(VarintK, 4, 3) == 3 && ToVarint(VarintK, 4, 5) == 5;
    assert Num(3) in items && Num(5) in items[1..];
    assert EncodeNum(VarintK, 4, 3) == Some([3]) && EncodeNum(VarintK, 4, 5) == Some([5]);
    assert [5] + [] == [5] && [3] + [5] == [3, 5];
    assert EncodePacked(VarintK, 4, []) == Some([]);
    assert EncodePacked(VarintK, 4, items[1..]) == Cat(Some([5]), Some([]));
    assert EncodePacked(VarintK, 4, items) == Some([3, 5]);
    assert Tag(STRING, 6) == [0x32] && Delimited([3, 5]) == [2] + [3, 5];
    var f := Field(6, Repeated, VarintK, 0, 0, 4, 8, None);
    assert Tag(STRING, f.tag) + Delimited([3, 5]) == [0x32, 2, 3, 5];
    assert EncodeArray(f, items) == Some(Tag(STRING, f.tag) + Delimited([3, 5]));
  }
}
