/** The UF2 container: a byte buffer cut into consecutive 512-byte records,
    each decoded in file order; the first record that fails to decode fails the parse. */
module Uf2 {
  import opened Bytes
  import opened Results
  import opened Block

  const BLOCK_SIZE: nat := 512

  /** The blocks in file order; no reordering or deduplication by address or block number. */
  datatype UF2 = UF2(blocks: seq<UF2Block>)

  /** Number of whole records in `input`; a shorter trailing piece is not counted. */
  function RecordCount(input: seq<byte>): nat
  {
    |input| / BLOCK_SIZE
  }

  /** The `i`-th 512-byte record of `input`. */
  function Chunk(input: seq<byte>, i: nat): Record
    requires i < RecordCount(input)
  {
    input[BLOCK_SIZE * i..BLOCK_SIZE * i + BLOCK_SIZE]
  }

  /** Dropping the first record shifts the record numbering by one. */
  lemma ChunksOfRest(input: seq<byte>)
    requires BLOCK_SIZE <= |input|
    ensures RecordCount(input[BLOCK_SIZE..]) == RecordCount(input) - 1
    ensures Chunk(input, 0) == input[..BLOCK_SIZE]
    ensures forall i :: 0 <= i < RecordCount(input[BLOCK_SIZE..]) ==>
      Chunk(input[BLOCK_SIZE..], i) == Chunk(input, i + 1)
  {
  }

  /** Every whole record of `input` carries the right magic numbers. */
  ghost predicate AllRecordsDecode(input: seq<byte>)
  {
    forall i :: 0 <= i < RecordCount(input) ==> Decode(Chunk(input, i)).Ok?
  }

  lemma AllRecordsDecodeStep(input: seq<byte>)
    requires BLOCK_SIZE <= |input|
    ensures AllRecordsDecode(input) <==>
      Decode(input[..BLOCK_SIZE]).Ok? && AllRecordsDecode(input[BLOCK_SIZE..])
  {
    ChunksOfRest(input);
    var rest := input[BLOCK_SIZE..];
    if Decode(input[..BLOCK_SIZE]).Ok? && AllRecordsDecode(rest) {
      forall i | 0 <= i < RecordCount(input)
        ensures Decode(Chunk(input, i)).Ok?
      {
        if i > 0 {
          assert Chunk(rest, i - 1) == Chunk(input, i);
        }
      }
    }
  }

  /** `UF2::parse`: decode records while a whole one remains. */
  function Parse(input: seq<byte>): (r: Result<UF2, DecodeError>)
    ensures |input| < BLOCK_SIZE ==> r == Ok(UF2([]))
    ensures r.Ok? <==> AllRecordsDecode(input)
    ensures r.Ok? ==>
      && |r.value.blocks| == RecordCount(input)
      && forall i :: 0 <= i < |r.value.blocks| ==> Decode(Chunk(input, i)) == Ok(r.value.blocks[i])
    decreases |input|
  {
    if |input| < BLOCK_SIZE then Ok(UF2([]))
    else
      var rest := input[BLOCK_SIZE..];
      ChunksOfRest(input);
      AllRecordsDecodeStep(input);
      match Decode(input[..BLOCK_SIZE])
      case Err(e) => Err(e)
      case Ok(b) =>
        match Parse(rest)
        case Err(e) => Err(e)
        case Ok(tail) =>
          var blocks := [b] + tail.blocks;
          assert forall i :: 1 <= i < |blocks| ==> blocks[i] == tail.blocks[i - 1];
          Ok(UF2(blocks))
  }

  /** The records of a sequence of blocks, one after the other (skipped words zero). */
  function EncodeAll(blocks: seq<UF2Block>): (r: seq<byte>)
    ensures |r| == BLOCK_SIZE * |blocks|
  {
    if blocks == [] then [] else Encode(blocks[0], 0) + EncodeAll(blocks[1..])
  }

  /** A container of N valid blocks parses back to exactly those N blocks, in order. */
  lemma {:induction false} ParseEncodeAll(blocks: seq<UF2Block>)
    requires forall i :: 0 <= i < |blocks| ==> VerifyMagicNums(blocks[i])
    ensures Parse(EncodeAll(blocks)) == Ok(UF2(blocks))
  {
    if blocks != [] {
      var input := EncodeAll(blocks);
      var head, rest := Encode(blocks[0], 0), EncodeAll(blocks[1..]);
      assert input == head + rest;
      assert input[..BLOCK_SIZE] == head;
      assert input[BLOCK_SIZE..] == rest;
      DecodeEncode(blocks[0], 0);
      assert Decode(input[..BLOCK_SIZE]) == Ok(blocks[0]);
      ParseEncodeAll(blocks[1..]);
      assert Parse(input[BLOCK_SIZE..]) == Ok(UF2(blocks[1..]));
      assert [blocks[0]] + blocks[1..] == blocks;
    }
  }

  /** A trailing piece shorter than a record is ignored, not reported. */
  lemma {:induction false} ParseIgnoresTrailing(input: seq<byte>, tail: seq<byte>)
    requires |input| % BLOCK_SIZE == 0 && |tail| < BLOCK_SIZE
    ensures Parse(input + tail) == Parse(input)
    decreases |input|
  {
    if |input| >= BLOCK_SIZE {
      var whole := input + tail;
      assert whole[..BLOCK_SIZE] == input[..BLOCK_SIZE];
      assert whole[BLOCK_SIZE..] == input[BLOCK_SIZE..] + tail;
      ParseIgnoresTrailing(input[BLOCK_SIZE..], tail);
    }
  }
}
