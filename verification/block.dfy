/** One UF2 block: the decoded form of a fixed 512-byte record, the magic-number
    check that accepts or rejects it, the flag queries and the payload slice. */
module Block {
  import opened Bytes
  import opened Bits
  import opened Results

  const RECORD_SIZE: nat := 512
  const PAYLOAD_SIZE: nat := 476
  /** Byte offset of the payload inside a record; bytes 28..32 are skipped. */
  const PAYLOAD_START: nat := 32
  const END_MAGIC_AT: nat := 508

  const CORRECT_START_MAGIC_NUMS: (u32, u32) := (0x0A32_4655, 0x9E5D_5157)
  const CORRECT_END_MAGIC_NUM: u32 := 0x0AB1_6F30

  const NOT_MAIN_FLASH: u32 := 0x0000_0001
  const FILE_CONTAINER: u32 := 0x0000_1000
  const MD5_CHECKSUM_PRESENT: u32 := 0x0000_4000
  /** The extension-tags constant as the flag table declares it (same value as FILE_CONTAINER). */
  const EXTENSION_TAGS_PRESENT_AS_WRITTEN: u32 := 0x0000_1000
  /** The extension-tags bit the UF2 format assigns ("Flags" section of the UF2 specification). */
  const EXTENSION_TAGS_PRESENT: u32 := 0x0000_8000

  type Payload = s: seq<byte> | |s| == PAYLOAD_SIZE witness seq(PAYLOAD_SIZE, _ => 0)
  type Record = s: seq<byte> | |s| == RECORD_SIZE witness seq(RECORD_SIZE, _ => 0)

  /** The "file size or family ID" word at bytes 28..32 is not kept. */
  datatype UF2Block = UF2Block(
    startMagicNums: (u32, u32),
    flags: u32,
    address: u32,
    len: u32,
    blockNum: u32,
    totalBlocks: u32,
    data: Payload,
    endMagicNum: u32)

  /** `io::Error` of kind `InvalidData`, the only way decoding a record fails. */
  datatype DecodeError = InvalidData

  /** `verify_magic_nums`: the two start words and the end word are the UF2 constants. */
  predicate VerifyMagicNums(b: UF2Block)
    ensures VerifyMagicNums(b) <==>
      b.startMagicNums.0 == 0x0A32_4655 && b.startMagicNums.1 == 0x9E5D_5157 && b.endMagicNum == 0x0AB1_6F30
  {
    b.startMagicNums == CORRECT_START_MAGIC_NUMS && b.endMagicNum == CORRECT_END_MAGIC_NUM
  }

  /** On the wire, the first start magic of an accepted block is the ASCII text "UF2\n". */
  lemma StartMagicSpellsUF2(b: UF2Block, reserved: u32)
    requires VerifyMagicNums(b)
    ensures Encode(b, reserved)[..4] == ['U' as int, 'F' as int, '2' as int, '\n' as int]
  {
    assert Encode(b, reserved)[..4] == EncodeU32(b.startMagicNums.0);
  }

  /** `flags & flag == flag`: every bit of `flag` is set in the block's flags. */
  predicate CheckFlag(b: UF2Block, flag: u32)
    ensures CheckFlag(b, flag) <==> Covers(b.flags, flag)
  {
    MaskCoversBits(b.flags, flag);
    BitAnd(b.flags, flag) == flag
  }

  predicate IsMainFlash(b: UF2Block)
    ensures IsMainFlash(b) <==> b.flags % 2 == 0
  {
    FlagPowers();
    SingleBitMask(b.flags, 0);
    !CheckFlag(b, NOT_MAIN_FLASH)
  }

  predicate IsFileContainer(b: UF2Block)
    ensures IsFileContainer(b) <==> Bit(b.flags, 12)
  {
    FlagPowers();
    SingleBitMask(b.flags, 12);
    CheckFlag(b, FILE_CONTAINER)
  }

  predicate HasChecksum(b: UF2Block)
    ensures HasChecksum(b) <==> Bit(b.flags, 14)
  {
    FlagPowers();
    SingleBitMask(b.flags, 14);
    CheckFlag(b, MD5_CHECKSUM_PRESENT)
  }

  /** `has_extension_tags` as written: it tests bit 12, the file-container bit. */
  predicate HasExtensionTagsAsWritten(b: UF2Block)
    ensures HasExtensionTagsAsWritten(b) <==> Bit(b.flags, 12)
  {
    FlagPowers();
    SingleBitMask(b.flags, 12);
    CheckFlag(b, EXTENSION_TAGS_PRESENT_AS_WRITTEN)
  }

  /** `has_extension_tags` with the bit the UF2 format assigns. */
  predicate HasExtensionTags(b: UF2Block)
    ensures HasExtensionTags(b) <==> Bit(b.flags, 15)
  {
    FlagPowers();
    SingleBitMask(b.flags, 15);
    CheckFlag(b, EXTENSION_TAGS_PRESENT)
  }

  /** As written, the extension-tags query cannot be told apart from the file-container query. */
  lemma ExtensionTagsAsWrittenIsFileContainer(b: UF2Block)
    ensures HasExtensionTagsAsWritten(b) <==> IsFileContainer(b)
  {
  }

  /** A block flagged only as a file container reports extension tags as written,
      while a block with just the extension-tags bit does not; the corrected query
      answers the other way round on both. */
  lemma ExtensionTagsCounterexample(b: UF2Block)
    ensures HasExtensionTagsAsWritten(b.(flags := 0x1000)) && !HasExtensionTags(b.(flags := 0x1000))
    ensures !HasExtensionTagsAsWritten(b.(flags := 0x8000)) && HasExtensionTags(b.(flags := 0x8000))
  {
    FlagPowers();
    Pow2SingleBit(12, 12);
    Pow2SingleBit(12, 15);
    Pow2SingleBit(15, 12);
    Pow2SingleBit(15, 15);
  }

  /** The meaningful payload bytes, `data[0..len]`; a larger `len` panics. */
  function Contents(b: UF2Block): (r: seq<byte>)
    requires b.len <= PAYLOAD_SIZE
    ensures |r| == b.len
    ensures forall i :: 0 <= i < b.len ==> r[i] == b.data[i]
  {
    b.data[..b.len]
  }

  /** `TryFrom<[u8; 512]>`: read the fields little-endian at their fixed offsets,
      then accept the block only if its three magic numbers are the UF2 constants. */
  function Decode(record: Record): (r: Result<UF2Block, DecodeError>)
    ensures r.Ok? <==>
      && LeU32(record, 0) == CORRECT_START_MAGIC_NUMS.0
      && LeU32(record, 4) == CORRECT_START_MAGIC_NUMS.1
      && LeU32(record, END_MAGIC_AT) == CORRECT_END_MAGIC_NUM
    ensures r.Err? ==> r.error == InvalidData
    ensures r.Ok? ==> VerifyMagicNums(r.value)
    ensures r.Ok? ==>
      var b := r.value;
      && b.flags == LeU32(record, 8)
      && b.address == LeU32(record, 12)
      && b.len == LeU32(record, 16)
      && b.blockNum == LeU32(record, 20)
      && b.totalBlocks == LeU32(record, 24)
      && (forall i :: 0 <= i < PAYLOAD_SIZE ==> b.data[i] == record[PAYLOAD_START + i])
  {
    var ans := UF2Block(
      (LeU32(record, 0), LeU32(record, 4)),
      LeU32(record, 8),
      LeU32(record, 12),
      LeU32(record, 16),
      LeU32(record, 20),
      LeU32(record, 24),
      record[PAYLOAD_START..END_MAGIC_AT],
      LeU32(record, END_MAGIC_AT));
    if VerifyMagicNums(ans) then Ok(ans) else Err(InvalidData)
  }

  /** The 512-byte record of a block, with `reserved` as the skipped word at bytes 28..32;
      the inverse of Decode (used to state round trips, not part of the system). */
  function Encode(b: UF2Block, reserved: u32): (r: Record)
  {
    EncodeU32(b.startMagicNums.0) + EncodeU32(b.startMagicNums.1)
      + EncodeU32(b.flags) + EncodeU32(b.address) + EncodeU32(b.len)
      + EncodeU32(b.blockNum) + EncodeU32(b.totalBlocks) + EncodeU32(reserved)
      + b.data + EncodeU32(b.endMagicNum)
  }

  /** Every field survives encoding then decoding, whatever the skipped word holds. */
  lemma DecodeEncode(b: UF2Block, reserved: u32)
    requires VerifyMagicNums(b)
    ensures Decode(Encode(b, reserved)) == Ok(b)
  {
    var e := Encode(b, reserved);
    var tail := b.data + EncodeU32(b.endMagicNum);
    var words := [b.startMagicNums.0, b.startMagicNums.1, b.flags, b.address, b.len,
                  b.blockNum, b.totalBlocks, reserved];
    var head := EncodeU32(words[0]) + EncodeU32(words[1]) + EncodeU32(words[2]) + EncodeU32(words[3])
      + EncodeU32(words[4]) + EncodeU32(words[5]) + EncodeU32(words[6]) + EncodeU32(words[7]);
    assert e == head + tail;
    forall k | 0 <= k < 8
      ensures LeU32(e, 4 * k) == words[k]
    {
      assert e[4 * k..4 * k + 4] == EncodeU32(words[k]);
      DecodeEncodeU32(words[k]);
    }
    assert e[PAYLOAD_START..END_MAGIC_AT] == b.data;
    assert e[END_MAGIC_AT..] == EncodeU32(b.endMagicNum);
    DecodeEncodeU32(b.endMagicNum);
  }

  /** A record that decodes is the encoding of its block with its own bytes 28..32. */
  lemma EncodeDecode(record: Record)
    requires Decode(record).Ok?
    ensures Encode(Decode(record).value, LeU32(record, 28)) == record
  {
    var b := Decode(record).value;
    // Rebuild the record one field at a time, left to right, as Encode concatenates.
    EncodeDecodeU32(record, 0);
    var p := EncodeU32(b.startMagicNums.0);
    assert p == record[..4];
    EncodeDecodeU32(record, 4);
    SlicesJoin(record, 0, 4, 8);
    p := p + EncodeU32(b.startMagicNums.1);
    assert p == record[..8];
    EncodeDecodeU32(record, 8);
    SlicesJoin(record, 0, 8, 12);
    p := p + EncodeU32(b.flags);
    assert p == record[..12];
    EncodeDecodeU32(record, 12);
    SlicesJoin(record, 0, 12, 16);
    p := p + EncodeU32(b.address);
    assert p == record[..16];
    EncodeDecodeU32(record, 16);
    SlicesJoin(record, 0, 16, 20);
    p := p + EncodeU32(b.len);
    assert p == record[..20];
    EncodeDecodeU32(record, 20);
    SlicesJoin(record, 0, 20, 24);
    p := p + EncodeU32(b.blockNum);
    assert p == record[..24];
    EncodeDecodeU32(record, 24);
    SlicesJoin(record, 0, 24, 28);
    p := p + EncodeU32(b.totalBlocks);
    assert p == record[..28];
    EncodeDecodeU32(record, 28);
    SlicesJoin(record, 0, 28, 32);
    p := p + EncodeU32(LeU32(record, 28));
    assert p == record[..32];
    assert b.data == record[PAYLOAD_START..END_MAGIC_AT];
    SlicesJoin(record, 0, 32, 508);
    p := p + b.data;
    assert p == record[..508];
    EncodeDecodeU32(record, END_MAGIC_AT);
    SlicesJoin(record, 0, 508, 512);
    p := p + EncodeU32(b.endMagicNum);
    assert p == record;
  }

  lemma SlicesJoin<T>(s: seq<T>, i: nat, j: nat, k: nat)
    requires i <= j <= k <= |s|
    ensures s[i..j] + s[j..k] == s[i..k]
  {
  }

  /** Decoding never looks at bytes 28..32. */
  lemma DecodeIgnoresReserved(r1: Record, r2: Record)
    requires forall i :: 0 <= i < RECORD_SIZE && !(28 <= i < PAYLOAD_START) ==> r1[i] == r2[i]
    ensures Decode(r1) == Decode(r2)
  {
    assert r1[PAYLOAD_START..END_MAGIC_AT] == r2[PAYLOAD_START..END_MAGIC_AT];
  }
}
