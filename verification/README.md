# uf2_hash core in Dafny

A model of the byte-level pipeline of `uf2_hash`, a tool that loads a UF2 firmware
file into a simulated flash window and hashes the resulting memory image:

- **Block decoder** (`block.dfy`, module `Block`): one 512-byte record becomes a
  `UF2Block`. The fields are little-endian u32 words at fixed offsets. Bytes 28..32
  are skipped. The payload is bytes 32..508 and the end magic is bytes 508..512.
  The record is accepted exactly when its two start magics are `0x0A324655`,
  `0x9E5D5157` and its end magic is `0x0AB16F30`. The flag queries (`is_main_flash`,
  `is_file_container`, `has_checksum`, `has_extension_tags`) are stated bit by bit.
  `contents()` is the first `len` payload bytes.
- **Container parser** (`uf2.dfy`, module `Uf2`): the input is cut into consecutive
  512-byte records, which are decoded in file order. A trailing piece shorter than a
  record is ignored. The first record with bad magics fails the whole parse.
- **Virtual flash** (`flash.dfy`, module `Flash`): a zero-filled buffer standing for
  flash addresses `[offset, offset + size)`, with a cursor. `write_block` moves the
  cursor to `address - offset` and overwrites `len` bytes there. `write_uf2` applies
  the blocks in order, so the last write wins. The feeding part of `sha256` rewinds
  the cursor, then hands `size / 4` four-byte words and `size % 4` single bytes to the
  hasher. The hasher is modelled by the log of its `update` calls, and the model
  proves that their concatenation is exactly the buffer.
- **Command line** (`cli.dfy`, module `Cli`): `hexstring`, the `0x`-prefixed base-16
  u32 parser, and the defaulting of an absent start address to 0 (`lib.dfy` holds
  the `Params` record).

Support modules: `Results` (Option/Result with `:-`), `Bytes` (the `byte` and `u32`
ranges as integer subset types and the little-endian word codec), `Bits` (bitwise AND
on naturals and the bit-inclusion reading of `flags & f == f`).

In these places the model follows the code as written:

- A trailing partial record is silently dropped by `UF2::parse`, not reported as
  truncated input (`Uf2.ParseIgnoresTrailing`).
- `write_block` as written has no bounds check. `Flash.WriteBlock` models the
  in-window case as written. The bounds-checked `Flash.TryWriteBlock` is the
  corrected form used by `Flash.WriteUf2` (see Findings).
- `UF2Block` flags are never consulted when writing. The source's comment marks
  file-container blocks as "discarded", but no code discards them
  (`Flash.WriteIgnoresFlags`).
- `u32::from_str_radix` accepts one leading `+`, so `hexstring("0x+ff")` is `Some(255)`.
  `Cli.FromStrRadix16` models this through `Cli.Digits`.

## Model

| member | source | states |
|---|---|---|
| Bytes.DecodeEncodeU32 | src/uf2/block.rs:70-75 | reading a little-endian word back from the four bytes of its encoding gives the word |
| Bytes.EncodeDecodeU32 | src/uf2/block.rs:70-75 | re-encoding a word read from a buffer reproduces the four bytes read |
| Block.VerifyMagicNums | src/uf2/block.rs:29-32 | a block passes iff its start words are `0x0A324655`, `0x9E5D5157` and its end word is `0x0AB16F30` |
| Block.StartMagicSpellsUF2 | src/uf2/block.rs:19 | the first four bytes of an accepted block's record are the ASCII text "UF2\n" |
| Block.CheckFlag | src/uf2/block.rs:35-37 | `flags & flag == flag` holds iff every bit set in `flag` is set in `flags` |
| Block.IsMainFlash | src/uf2/block.rs:40-42 | a block is main flash iff bit 0 (`NOT_MAIN_FLASH`) of its flags is clear, i.e. the flags are even |
| Block.IsFileContainer | src/uf2/block.rs:45-47 | the file-container query reads exactly bit 12 (`0x1000`) |
| Block.HasChecksum | src/uf2/block.rs:50-52 | the checksum query reads exactly bit 14 (`0x4000`) |
| Block.HasExtensionTagsAsWritten | src/uf2/block.rs:55-57 | as written, the extension-tags query reads bit 12, the file-container bit |
| Block.ExtensionTagsAsWrittenIsFileContainer | src/uf2/block.rs:24-27 | as written, `has_extension_tags()` equals `is_file_container()` for every block |
| Block.ExtensionTagsCounterexample | src/uf2/block.rs:27 | flags `0x1000` report extension tags as written but not when corrected; flags `0x8000` the reverse |
| Block.HasExtensionTags | src/uf2/block.rs:27 | corrected: the extension-tags query reads exactly bit 15 (`0x8000`) |
| Block.Contents | src/uf2/block.rs:59-61 | needs `len <= 476` (a larger `len` panics on the slice); yields exactly the first `len` payload bytes |
| Block.Decode | src/uf2/block.rs:67-99 | succeeds iff the words at bytes 0, 4 and 508 are the three UF2 magic constants, failing with `InvalidData` otherwise; on success the other fields are the words at 8, 12, 16, 20, 24 and the payload is bytes 32..508 |
| Block.DecodeEncode | src/uf2/block.rs:67-92 | a block with correct magics, encoded to 512 bytes with any skipped word, decodes to itself |
| Block.EncodeDecode | src/uf2/block.rs:70-81 | a record that decodes is exactly the encoding of its block with its own bytes 28..32, so no byte but 28..32 is lost |
| Block.DecodeIgnoresReserved | src/uf2/block.rs:75-79 | two records that differ only in bytes 28..32 decode identically |
| Uf2.Parse | src/uf2/mod.rs:13-27 | input shorter than a record gives zero blocks; success iff every whole record decodes; then there are `len / 512` blocks and block `i` is the decode of bytes `[512 i, 512 i + 512)` |
| Uf2.ParseEncodeAll | src/uf2/mod.rs:18-21 | N blocks with correct magics, laid out one after another, parse back to exactly those N blocks in the same order |
| Uf2.ParseIgnoresTrailing | src/uf2/mod.rs:19 | appending fewer than 512 bytes to whole records does not change the parse result |
| Flash.New | src/virtual_flash.rs:19-25 | the window starts at `start`, the cursor is at 0, the buffer is `size` zero bytes and `flash_size()` is `size` |
| Flash.NewFromParams | src/virtual_flash.rs:27-29 | a flash built from the parameters has their start address, their flash size and only zero bytes |
| Flash.FlashSize | src/virtual_flash.rs:58-60 | `flash_size()` is the buffer length when it fits a u32 and never exceeds it |
| Flash.Address | src/virtual_flash.rs:32-34 | the cursor's flash address lies `position` bytes above the window start |
| Flash.SetAddress | src/virtual_flash.rs:37-39 | needs `offset <= address`; moves the cursor to `address - offset` and changes nothing else |
| Flash.AddressOfSetAddress | src/virtual_flash.rs:32-39 | after `set_address(a)`, `address()` is `a` |
| Flash.SeekStart | src/virtual_flash.rs:42-44 | rewinding puts the cursor at buffer index 0 and leaves buffer and window unchanged |
| Flash.WriteAll | src/virtual_flash.rs:134-136 | an in-buffer write replaces exactly the bytes under the cursor, leaves every other byte and the length alone, and advances the cursor |
| Flash.WriteBlock | src/virtual_flash.rs:62-67 | for a block inside the window, bytes `[address - offset, address - offset + len)` become its payload and every other byte is unchanged |
| Flash.SetAddressWrapping | src/virtual_flash.rs:37-39 | as a release build runs it: agrees with SetAddress when `offset <= address` |
| Flash.WrappedBelowStart | src/virtual_flash.rs:37-39 | as written, an address below the window start lands the cursor at `2^32 - (offset - address)` |
| Flash.BelowStartCounterexample | src/virtual_flash.rs:62-64 | a block at `0x07FFFFFC` under a window at `0x08000000` moves the cursor to `0xFFFFFFFC`, past the 4 KiB buffer, while Translate refuses it |
| Flash.Translate | src/virtual_flash.rs:38 | corrected translation: succeeds iff `start <= address` and `address + len <= start + size`, giving the index with `start + index == address` |
| Flash.TryWriteBlock | src/virtual_flash.rs:62-67 | corrected `write_block`: succeeds iff the block fits the window and `len <= 476`, fails with `PayloadTooLarge` exactly for an oversized `len`, and on success is the in-window write |
| Flash.OversizedBlockCounterexample | src/uf2/block.rs:59-61 | a block with correct magics and `len` 477 decodes, so Contents' bound is reachable; the checked write refuses it |
| Flash.WriteUf2 | src/virtual_flash.rs:69-75 | writing a container succeeds iff every block fits the window; the window start and buffer length are preserved |
| Flash.EmptyBlockPastEnd | src/virtual_flash.rs:62-64 | an empty block addressed past the window is refused by the checked write, while the unchecked translation only moves the cursor there |
| Flash.WriteUf2Untouched | src/virtual_flash.rs:69-75 | a byte no block touches keeps its value |
| Flash.WriteUf2LastWins | src/virtual_flash.rs:69-75 | a byte ends up holding the payload byte of the last block that touches it |
| Flash.WriteUf2FirstError | src/virtual_flash.rs:70-72 | writing stops at, and reports the error of, the first block that does not fit |
| Flash.WriteBlocksCommute | src/virtual_flash.rs:62-67 | two blocks with disjoint ranges give the same buffer in either order |
| Flash.WriteIgnoresFlags | src/virtual_flash.rs:62-67 | changing a block's flags changes neither whether nor how it is written |
| Flash.SingleBlockImage | src/virtual_flash.rs:62-75 | a 4-byte `DE AD BE EF` block at the start of a 4 KiB window at `0x08000000` yields those bytes at index 0..4 and zeros elsewhere |
| Flash.FlattenAppend | src/virtual_flash.rs:85-92 | the bytes of two successive runs of updates are the bytes of the first run followed by those of the second |
| Flash.Update | src/virtual_flash.rs:87 | an `update` extends the absorbed byte stream by exactly the chunk |
| Flash.ReadExact | src/virtual_flash.rs:86 | an in-buffer `read_exact` yields the bytes under the cursor and advances it, buffer unchanged |
| Flash.GetU8 | src/virtual_flash.rs:91 | `get_u8` yields the byte under the cursor and advances it, buffer unchanged |
| Flash.Sha256Feed | src/virtual_flash.rs:77-92 | the hasher absorbs exactly the first `flash_size()` buffer bytes in order (the whole buffer when its length fits a u32), as `size/4` four-byte updates followed by `size%4` one-byte updates; the buffer is unchanged, so a second run feeds the same bytes |
| Cli.HexString | src/cli.rs:29-34 | the result is `Some(v)` iff the input starts with the exact prefix `0x` and the rest, after one optional `+`, is a non-empty run of hex digits of either case whose value `v` fits a u32 |
| Cli.HexStringAcceptsTypical | src/cli.rs:30-33 | `0x08000000` (leading zero), `0xFF` (upper case) and `0x+ff` (leading `+`) are all accepted with their values |
| Cli.HexStringRoundTrip | src/cli.rs:29-34 | for every u32 `n`, `hexstring("0x" + hex(n)) == Some(n)` |
| Cli.HexStringRejects | src/cli.rs:30-33 | an upper-case `0X` prefix, a bare `0x`, and `0x100000000` (one past the u32 range) give None |
| Cli.HexStringRejectsNonDigit | src/cli.rs:30-33 | any non-hex character in the digits gives None |
| Cli.ParamsFrom | src/cli.rs:36-53 | parameters are built iff the flash size parses and a given start address parses; the flash-size failure is reported first; an absent start address is 0 |

## Findings

| source | as written | input that shows it | evidently intended | confidence | as-written member | corrected member |
|---|---|---|---|---|---|---|
| src/uf2/block.rs:27 | `EXTENSION_TAGS_PRESENT` is `0x00001000`, the value of `FILE_CONTAINER` | flags `0x00001000`: `has_extension_tags()` is true; flags `0x00008000`: it is false | `0x00008000`, the extension-tags bit in the "Flags" section of the UF2 specification | high; not executed | Block.HasExtensionTagsAsWritten | Block.HasExtensionTags |
| src/virtual_flash.rs:38 | `address - self.offset` is unchecked u32 subtraction | window at `0x08000000`, block at `0x07FFFFFC`: a debug build panics, a release build puts the cursor at `0xFFFFFFFC` | refuse a block outside the window with an out-of-range error | medium; not executed | Flash.BelowStartCounterexample | Flash.TryWriteBlock |
| src/uf2/block.rs:60 | `data[0..len]` with `len` never checked against 476 | a record with correct magics and `len` 477 decodes, then `write_block` panics on the slice | refuse the block as too large | medium; not executed | Flash.OversizedBlockCounterexample | Flash.TryWriteBlock |

The first row's counterexample is `Block.ExtensionTagsCounterexample` and
`Block.ExtensionTagsAsWrittenIsFileContainer`. `Flash.SetAddressWrapping` and
`Flash.WrappedBelowStart` model the wrapping subtraction of the second row. The
corrected translation is `Flash.Translate`. `Flash.WriteUf2` writes through
`Flash.TryWriteBlock`.

## Left out

- `src/main.rs` and `Params::read` in `src/lib.rs`: process entry, reading the file, printing.
- The clap `Cli` struct and `File::open` in `src/cli.rs`: argument-parsing library and filesystem access. `Cli.ParamsFrom` takes the two argument strings directly.
- The SHA-256 computation itself, from the external `sha2` crate. The hasher is modelled as the log of its `update` calls. The digest is not modelled because `sha256` returns `Ok(todo!())` and never yields one.
- The `Read`/`Write` trait forwards to `std::io::Cursor`, plus `into_contents`, `get_contents_ref` and `get_contents_mut`. The model keeps only the overwrite of `write_all`, `read_exact` and `get_u8`, and the buffer is the `data` field.
- Flash.WriteAll: requires the write to stay inside the buffer. The zero-padding growth of a `Cursor<Vec<u8>>` written past its end is not modelled.
- Flash.WriteBlock: requires the block to fit the window and `len <= 476`. Out-of-window blocks are handled by Flash.TryWriteBlock, which refuses them (see Findings).
- Flash.WriteUf2: refuses every block whose range leaves the window. For a block below the window start or reaching past its end with a non-empty payload, the source underflows or grows the buffer (see Findings). For an empty block (`len` 0) whose address lies past the window's end, the source only moves the cursor, and `write_all` of no bytes leaves the buffer unchanged. The model deliberately refuses it with `OutOfRange` instead of treating it as a no-op (Flash.EmptyBlockPastEnd).
- Flash.Address: requires `offset + position < 2^32`. The release-mode wrap-around of the u32 addition is not modelled.
- Flash.ReadExact: requires the read to stay inside the buffer. Its end-of-file error is not modelled, and every call in Flash.Sha256Feed is proved in range.
- Flash.GetU8: requires a byte under the cursor. Its panic at the end of the buffer is not modelled, and every call in Flash.Sha256Feed is proved in range.
- Uf2.Parse: the `io::Error` message text is not modelled; a decode failure is the single value `InvalidData`.
- `Vec::with_capacity` in `UF2::parse` only sizes an allocation and has no observable effect.
- Bytes are integers in `[0, 256)` and u32 values integers in `[0, 2^32)`, not bit-vectors.
