/** The virtual flash: a zero-filled byte buffer standing for the address window
    `[offset, offset + size)`, written block by block and then fed to a hasher. */
module Flash {
  import opened Bytes
  import opened Results
  import opened Block
  import opened Uf2
  import opened Lib

  /** `data` with its cursor `position` is the `Cursor<Vec<u8>>`; `offset` is the
      flash start address that buffer index 0 stands for. */
  datatype VirtualFlash = VirtualFlash(offset: u32, data: seq<byte>, position: nat)

  /** Errors of the bounds-checked write path. */
  datatype FlashError = OutOfRange | PayloadTooLarge

  function New(start: u32, size: u32): (f: VirtualFlash)
    ensures f.offset == start && f.position == 0
    ensures |f.data| == size && forall i :: 0 <= i < |f.data| ==> f.data[i] == 0
    ensures FlashSize(f) == size
  {
    VirtualFlash(start, seq(size, _ => 0), 0)
  }

  function NewFromParams(params: Params): (f: VirtualFlash)
    ensures f.offset == params.startAddr && f.position == 0
    ensures FlashSize(f) == params.flashSize
    ensures forall i :: 0 <= i < |f.data| ==> f.data[i] == 0
  {
    New(params.startAddr, params.flashSize)
  }

  /** `flash_size`: the buffer length cast to u32, so it keeps only the low 32 bits. */
  function FlashSize(f: VirtualFlash): (r: u32)
    ensures r <= |f.data|
    ensures |f.data| < U32_LIMIT ==> r == |f.data|
  {
    |f.data| % U32_LIMIT
  }

  /** The flash address the cursor stands at. */
  function Address(f: VirtualFlash): (r: u32)
    requires f.offset + f.position < U32_LIMIT
    ensures f.offset <= r && r - f.offset == f.position
  {
    f.position + f.offset
  }

  /** Move the cursor to flash address `address`; `address - offset` is unchecked
      u32 arithmetic, so the source needs `offset <= address`. */
  function SetAddress(f: VirtualFlash, address: u32): (g: VirtualFlash)
    requires f.offset <= address
    ensures g.offset == f.offset && g.data == f.data
    ensures g.position + f.offset == address
  {
    f.(position := address - f.offset)
  }

  lemma AddressOfSetAddress(f: VirtualFlash, address: u32)
    requires f.offset <= address
    ensures Address(SetAddress(f, address)) == address
  {
  }

  function SeekStart(f: VirtualFlash): (g: VirtualFlash)
    ensures g.offset == f.offset && g.data == f.data && g.position == 0
  {
    SetAddress(f, f.offset)
  }

  /** `write_all` on the cursor, for a write that stays inside the buffer:
      overwrite `bytes` at the cursor and advance it past them. */
  function WriteAll(f: VirtualFlash, bytes: seq<byte>): (g: VirtualFlash)
    requires f.position + |bytes| <= |f.data|
    ensures g.offset == f.offset && |g.data| == |f.data|
    ensures g.position == f.position + |bytes|
    ensures forall i :: 0 <= i < |f.data| ==>
      g.data[i] == if f.position <= i < f.position + |bytes| then bytes[i - f.position] else f.data[i]
  {
    f.(data := f.data[..f.position] + bytes + f.data[f.position + |bytes|..],
       position := f.position + |bytes|)
  }

  /** Block `b` targets bytes of a window starting at `offset` of `size` bytes only. */
  predicate InWindow(offset: u32, size: nat, b: UF2Block)
  {
    b.len <= PAYLOAD_SIZE && offset <= b.address && b.address - offset + b.len <= size
  }

  /** Buffer index `i` lies in the range block `b` writes when the window starts at `offset`. */
  predicate Touches(offset: u32, b: UF2Block, i: int)
  {
    b.address - offset <= i < b.address - offset + b.len
  }

  /** `write_block`: overwrite the block's `len` payload bytes at the buffer index its
      address translates to. Its flags play no part. */
  function WriteBlock(f: VirtualFlash, b: UF2Block): (g: VirtualFlash)
    requires InWindow(f.offset, |f.data|, b)
    ensures g.offset == f.offset && |g.data| == |f.data|
    ensures forall i :: 0 <= i < |f.data| ==>
      g.data[i] == if Touches(f.offset, b, i) then b.data[i - (b.address - f.offset)] else f.data[i]
  {
    WriteAll(SetAddress(f, b.address), Contents(b))
  }

  /** `set_address` as a release build runs it: the subtraction wraps modulo 2^32. */
  function SetAddressWrapping(f: VirtualFlash, address: u32): (g: VirtualFlash)
    ensures g.offset == f.offset && g.data == f.data && g.position < U32_LIMIT
    ensures f.offset <= address ==> g == SetAddress(f, address)
  {
    f.(position := (address - f.offset) % U32_LIMIT)
  }

  /** With the wrapping subtraction, an address below the window start lands the cursor
      near the top of the 32-bit range instead of being refused. */
  lemma WrappedBelowStart(f: VirtualFlash, address: u32)
    requires address < f.offset
    ensures SetAddressWrapping(f, address).position == U32_LIMIT - (f.offset - address)
    ensures SetAddressWrapping(f, address).position >= U32_LIMIT - f.offset
  {
  }

  /** A block 4 bytes below a 4 KiB window at 0x0800_0000 moves the cursor to
      0xFFFF_FFFC, far past the end of the buffer. */
  lemma BelowStartCounterexample()
    ensures var f := New(0x0800_0000, 0x1000);
      && SetAddressWrapping(f, 0x07FF_FFFC).position == 0xFFFF_FFFC
      && SetAddressWrapping(f, 0x07FF_FFFC).position > |f.data|
      && Translate(0x07FF_FFFC, 4, f.offset, |f.data|) == Err(OutOfRange)
  {
  }

  /** Address translation with an explicit bounds check: the buffer index of `address`
      when `len` bytes there must fit the window `[start, start + size)`. */
  function Translate(address: u32, len: u32, start: u32, size: nat): (r: Result<nat, FlashError>)
    ensures r.Ok? <==> start <= address && address + len <= start + size
    ensures r.Ok? ==> start + r.value == address && r.value + len <= size
    ensures r.Err? ==> r.error == OutOfRange
  {
    if address < start || address - start + len > size then Err(OutOfRange) else Ok(address - start)
  }

  /** `write_block` with the address translated by Translate and an oversized `len`
      refused: it fails exactly when the block does not fit, and otherwise writes it. */
  function TryWriteBlock(f: VirtualFlash, b: UF2Block): (r: Result<VirtualFlash, FlashError>)
    ensures r.Ok? <==> InWindow(f.offset, |f.data|, b)
    ensures r.Err? ==> (r.error == PayloadTooLarge <==> b.len > PAYLOAD_SIZE)
    ensures r.Ok? ==> r.value == WriteBlock(f, b)
  {
    if b.len > PAYLOAD_SIZE then Err(PayloadTooLarge)
    else
      var at :- Translate(b.address, b.len, f.offset, |f.data|);
      Ok(WriteBlock(f, b))
  }

  /** A record whose `len` field is 477 passes the magic-number check, so a decoded block
      can violate Contents' bound; the checked write refuses it instead. */
  lemma OversizedBlockCounterexample(f: VirtualFlash, b: UF2Block)
    requires VerifyMagicNums(b) && b.len == PAYLOAD_SIZE + 1
    ensures Decode(Encode(b, 0)) == Ok(b) && b.len > PAYLOAD_SIZE
    ensures TryWriteBlock(f, b) == Err(PayloadTooLarge)
  {
    DecodeEncode(b, 0);
  }

  /** An empty block whose address lies past the window is refused by the checked write,
      although the unchecked one would only move the cursor: `write_all` of no bytes never
      writes, so the source leaves the buffer as it was. */
  lemma EmptyBlockPastEnd(b: UF2Block)
    requires b.address == 0x100 && b.len == 0
    ensures TryWriteBlock(New(0, 0x10), b) == Err(OutOfRange)
    ensures SetAddress(New(0, 0x10), b.address).position == 0x100
  {
  }

  /** Every block of `blocks` fits the window. */
  ghost predicate AllInWindow(offset: u32, size: nat, blocks: seq<UF2Block>)
  {
    forall k :: 0 <= k < |blocks| ==> InWindow(offset, size, blocks[k])
  }

  /** `write_uf2`: write the blocks in container order, stopping at the first failure. */
  function WriteUf2(f: VirtualFlash, bin: UF2): (r: Result<VirtualFlash, FlashError>)
    ensures r.Ok? <==> AllInWindow(f.offset, |f.data|, bin.blocks)
    ensures r.Ok? ==> r.value.offset == f.offset && |r.value.data| == |f.data|
    decreases |bin.blocks|
  {
    if bin.blocks == [] then Ok(f)
    else
      assert AllInWindow(f.offset, |f.data|, bin.blocks) <==>
        InWindow(f.offset, |f.data|, bin.blocks[0]) && AllInWindow(f.offset, |f.data|, bin.blocks[1..]);
      var g :- TryWriteBlock(f, bin.blocks[0]);
      WriteUf2(g, UF2(bin.blocks[1..]))
  }

  /** A byte no block touches keeps its value through `write_uf2`. */
  lemma {:induction false} WriteUf2Untouched(f: VirtualFlash, bin: UF2, i: int)
    requires WriteUf2(f, bin).Ok? && 0 <= i < |f.data|
    requires forall k :: 0 <= k < |bin.blocks| ==> !Touches(f.offset, bin.blocks[k], i)
    ensures WriteUf2(f, bin).value.data[i] == f.data[i]
    decreases |bin.blocks|
  {
    if bin.blocks != [] {
      var g := TryWriteBlock(f, bin.blocks[0]).value;
      assert g.data[i] == f.data[i];
      WriteUf2Untouched(g, UF2(bin.blocks[1..]), i);
    }
  }

  /** Last write wins: a byte ends up holding the payload of the last block that touches it. */
  lemma {:induction false} WriteUf2LastWins(f: VirtualFlash, bin: UF2, k: nat, i: int)
    requires WriteUf2(f, bin).Ok? && 0 <= i < |f.data|
    requires k < |bin.blocks| && Touches(f.offset, bin.blocks[k], i)
    requires forall j :: k < j < |bin.blocks| ==> !Touches(f.offset, bin.blocks[j], i)
    ensures WriteUf2(f, bin).value.data[i] == bin.blocks[k].data[i - (bin.blocks[k].address - f.offset)]
    decreases |bin.blocks|
  {
    var g := TryWriteBlock(f, bin.blocks[0]).value;
    var rest := UF2(bin.blocks[1..]);
    if k == 0 {
      WriteUf2Untouched(g, rest, i);
    } else {
      WriteUf2LastWins(g, rest, k - 1, i);
    }
  }

  /** `write_uf2` fails with the error of the first block that does not fit. */
  lemma {:induction false} WriteUf2FirstError(f: VirtualFlash, bin: UF2, k: nat)
    requires k < |bin.blocks| && !InWindow(f.offset, |f.data|, bin.blocks[k])
    requires forall j :: 0 <= j < k ==> InWindow(f.offset, |f.data|, bin.blocks[j])
    ensures WriteUf2(f, bin) == Err(TryWriteBlock(f, bin.blocks[k]).error)
    decreases |bin.blocks|
  {
    if k > 0 {
      var g := TryWriteBlock(f, bin.blocks[0]).value;
      WriteUf2FirstError(g, UF2(bin.blocks[1..]), k - 1);
    }
  }

  /** One 4-byte block at the start of a 4 KiB window at 0x0800_0000 leaves its bytes
      at buffer index 0..4 and zeros everywhere else. */
  lemma SingleBlockImage(b: UF2Block)
    requires b.address == 0x0800_0000 && b.len == 4
    requires b.data[..4] == [0xDE, 0xAD, 0xBE, 0xEF]
    ensures var r := WriteUf2(New(0x0800_0000, 0x1000), UF2([b]));
      && r.Ok?
      && |r.value.data| == 0x1000
      && r.value.data[..4] == [0xDE, 0xAD, 0xBE, 0xEF]
      && forall i :: 4 <= i < 0x1000 ==> r.value.data[i] == 0
  {
  }

  /** Two blocks whose ranges do not overlap can be written in either order. */
  lemma WriteBlocksCommute(f: VirtualFlash, a: UF2Block, b: UF2Block)
    requires InWindow(f.offset, |f.data|, a) && InWindow(f.offset, |f.data|, b)
    requires forall i :: 0 <= i < |f.data| ==> !(Touches(f.offset, a, i) && Touches(f.offset, b, i))
    ensures WriteBlock(WriteBlock(f, a), b).data == WriteBlock(WriteBlock(f, b), a).data
  {
  }

  /** The flags of a block play no part in whether or how it is written. */
  lemma WriteIgnoresFlags(f: VirtualFlash, b: UF2Block, flags: u32)
    ensures TryWriteBlock(f, b.(flags := flags)) == TryWriteBlock(f, b)
  {
  }

  /** What a hasher has been fed: the chunks passed to `update`, in call order. */
  datatype Hasher = Hasher(updates: seq<seq<byte>>)

  /** The bytes of a sequence of chunks, in order. */
  function Flatten(chunks: seq<seq<byte>>): seq<byte>
  {
    if chunks == [] then [] else chunks[0] + Flatten(chunks[1..])
  }

  lemma {:induction false} FlattenAppend(a: seq<seq<byte>>, b: seq<seq<byte>>)
    ensures Flatten(a + b) == Flatten(a) + Flatten(b)
  {
    if a == [] {
      assert a + b == b;
    } else {
      assert (a + b)[1..] == a[1..] + b;
      FlattenAppend(a[1..], b);
    }
  }

  /** The byte stream a hasher digests: its updates concatenated. */
  function Absorbed(h: Hasher): seq<byte>
  {
    Flatten(h.updates)
  }

  function Update(h: Hasher, chunk: seq<byte>): (g: Hasher)
    ensures Absorbed(g) == Absorbed(h) + chunk
  {
    FlattenAppend(h.updates, [chunk]);
    assert Flatten([chunk]) == chunk + Flatten([]);
    Hasher(h.updates + [chunk])
  }

  /** `read_exact` on the cursor for a read that stays inside the buffer. */
  function ReadExact(f: VirtualFlash, n: nat): (r: (seq<byte>, VirtualFlash))
    requires f.position + n <= |f.data|
    ensures |r.0| == n && forall k :: 0 <= k < n ==> r.0[k] == f.data[f.position + k]
    ensures r.1.data == f.data && r.1.offset == f.offset && r.1.position == f.position + n
  {
    (f.data[f.position..f.position + n], f.(position := f.position + n))
  }

  /** `get_u8` on the cursor; it panics at the end of the buffer. */
  function GetU8(f: VirtualFlash): (r: (byte, VirtualFlash))
    requires f.position < |f.data|
    ensures r.0 == f.data[f.position]
    ensures r.1.data == f.data && r.1.offset == f.offset && r.1.position == f.position + 1
  {
    (f.data[f.position], f.(position := f.position + 1))
  }

  /** The feeding part of `sha256`: rewind, then pass `flash_size / 4` four-byte words
      and `flash_size % 4` single bytes to the hasher. The hasher ends up having absorbed
      exactly the first `flash_size` bytes of the buffer, in order; the buffer is unchanged. */
  method Sha256Feed(f: VirtualFlash) returns (h: Hasher, g: VirtualFlash)
    ensures Absorbed(h) == f.data[..FlashSize(f)]
    ensures |f.data| < U32_LIMIT ==> Absorbed(h) == f.data
    ensures |h.updates| == FlashSize(f) / 4 + FlashSize(f) % 4
    ensures forall k :: 0 <= k < |h.updates| ==> |h.updates[k]| == if k < FlashSize(f) / 4 then 4 else 1
    ensures g.offset == f.offset && g.data == f.data && g.position == FlashSize(f)
  {
    h := Hasher([]);
    g := SeekStart(f);
    var size := FlashSize(g);
    var words := size / 4;
    var i := 0;
    while i < words
      invariant i <= words
      invariant g.offset == f.offset && g.data == f.data && g.position == 4 * i
      invariant Absorbed(h) == f.data[..4 * i]
      invariant |h.updates| == i
      invariant forall k :: 0 <= k < i ==> |h.updates[k]| == 4
    {
      var (buf, next) := ReadExact(g, 4);
      assert f.data[..4 * i] + buf == f.data[..4 * i + 4];
      h := Update(h, buf);
      g := next;
      i := i + 1;
    }
    var j := 0;
    while j < size % 4
      invariant j <= size % 4
      invariant g.offset == f.offset && g.data == f.data && g.position == 4 * words + j
      invariant Absorbed(h) == f.data[..4 * words + j]
      invariant |h.updates| == words + j
      invariant forall k :: 0 <= k < |h.updates| ==> |h.updates[k]| == if k < words then 4 else 1
    {
      var (b, next) := GetU8(g);
      assert f.data[..4 * words + j] + [b] == f.data[..4 * words + j + 1];
      h := Update(h, [b]);
      g := next;
      j := j + 1;
    }
  }
}
