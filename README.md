# rust-iff chunk identifiers and chunks, in Dafny

This project models the identifier-validation and chunk-wrapping layer of
`rust-iff`, a reader for EA IFF 85 files. In IFF every chunk starts with a
four-byte type ID and a declared byte length.

- `ChunkIds` (`chunkid.dfy`, from `src/chunkid.rs`) holds the rules for a
  type ID. `ChunkId::new` checks three things, in this order: that there are
  at least four bytes (`ShortLength`), that the first four are printable
  ASCII 0x20..0x7E (`UnsupportedChar`), and that no space is directly
  followed by a non-space among positions 0..3 (`SpacePrecedeLetter`). It
  then keeps the first four bytes. The module also models `to_str`,
  `Display`, `from_str` and the 32-entry table behind `is_reserved`.
- `Chunks` (`chunk.dfy`, from `src/chunk.rs`) pairs a `ChunkId` with a
  declared `i32` size and a read-only byte slice. `Chunk::new` refuses a size
  that, cast to `usize`, exceeds the slice length. The module also models
  `len` and `Display`.
- `Rust` (`rust.dfy`) holds the pieces of Rust the core relies on. These are
  the `u8` and `i32` ranges, the sign-extending `i32 as usize` cast on a
  64-bit target, the `isize::MAX` bound on slice lengths, the UTF-8 encoding
  behind `str::as_bytes`, and the decimal rendering of an `i32`.

`has_precede_spaces` is a loop, so it is the method
`ChunkIds.HasPrecedeSpaces`. That method is proved to compute the predicate
`SpaceBeforeLetter`. Everything else is pure and is written as functions over
datatypes. `ChunkId` keeps its `[u8; 4]` as a four-element sequence. In Rust
that field is private, so every `ChunkId` comes from `new`. The predicate
`ChunkIds.Valid` states that guarantee, and `to_str` and both `Display`s
require it. `Chunks.Valid` is the chunk invariant: a valid identifier and a
size that fits in the data.

`Chunk::new` accepts any `i32` size. A negative one is refused because
`as usize` sign-extends it past any slice length (src/chunk.rs:13).

## Model

| member | source | states |
|---|---|---|
| `ChunkIds.IsAllowedChar` | src/chunkid.rs:37-39 | a byte is allowed exactly when, read as a character, it lies between ' ' and '~'; every allowed byte is ASCII |
| `ChunkIds.HasPrecedeSpaces` | src/chunkid.rs:41-48 | the loop over the pairs (0,1), (1,2), (2,3) returns true exactly when some space is directly followed by a non-space there |
| `ChunkIds.SpacingRule` | src/chunkid.rs:41-48 | the pairwise rule passes exactly when the first four bytes are some non-space bytes followed only by spaces ("abc " and "    " pass, " abc", "a bc" and "   a" fail) |
| `ChunkIds.New` | src/chunkid.rs:59-70 | `ShortLength` exactly when there are fewer than 4 bytes, whatever they are. Otherwise `UnsupportedChar` exactly when one of the first four bytes is outside 0x20..0x7E, which wins over the spacing check. With four printable bytes, `SpacePrecedeLetter` exactly when they are not non-spaces followed only by spaces. On success the id holds exactly the first four bytes and is valid |
| `ChunkIds.NewIgnoresTail` | src/chunkid.rs:60-69 | bytes after the fourth never change the outcome of `new` |
| `ChunkIds.ValidIffConstructible` | src/chunkid.rs:59-70 | an id satisfies the character and spacing rules exactly when `new` of its own four bytes returns it |
| `ChunkIds.ToStr` | src/chunkid.rs:72-74 | on a valid id the text is 4 characters, each the character with the code of the matching byte, each between ' ' and '~', so the UTF-8 decode cannot fail |
| `ChunkIds.Display` | src/chunkid.rs:89-93 | a valid id prints as its four characters, unquoted |
| `ChunkIds.FromStr` | src/chunkid.rs:84-86 | when `from_str` succeeds, the string has at least 4 characters and the id's text is exactly the first four |
| `ChunkIds.FromStrAscii` | src/chunkid.rs:84-86 | on ASCII text, `from_str` equals `new` on the characters' codes, every error case included |
| `ChunkIds.FromStrNonAscii` | src/chunkid.rs:84-86 | a string whose first character is not ASCII never gives an id: `ShortLength` exactly when its UTF-8 encoding has fewer than 4 bytes, `UnsupportedChar` otherwise |
| `ChunkIds.FromStrAsciiPrefix` | src/chunkid.rs:84-86 | when the first four characters are ASCII, `from_str` equals `new` on their codes, whatever follows, non-ASCII characters included |
| `ChunkIds.FromStrToStr` | src/chunkid.rs:72-86 | parsing the text of a valid id gives the same id back |
| `ChunkIds.ReservedAreValid` | src/chunkid.rs:50-56 | the reserved table `RESERVED_CHUNK_IDS` has 32 entries, and every entry is itself a valid identifier |
| `ChunkIds.IsReserved` | src/chunkid.rs:76-78 | the id's four bytes are an entry of the 32-entry table, so a reserved id is valid; `IsReservedIff` gives the names it accepts |
| `ChunkIds.IsReservedIff` | src/chunkid.rs:76-78 | `is_reserved` holds exactly for LIST, FORM, "CAT " (one trailing space), PROP, four spaces, and LIS, FOR or CAT followed by a digit 1 to 9; case and spaces must match exactly |
| `ChunkIds.UnprintableExample` | src/lib.rs:26-29 | `[0, 1, 2, 3]` gives `UnsupportedChar` |
| `ChunkIds.ShortInputExample` | src/lib.rs:32-35 | "abc" gives `ShortLength`; "abcde" gives an id whose text is "abcd" |
| `ChunkIds.InnerSpaceExample` | src/lib.rs:38-44 | " abc", "a bc", "ab c", "  ab", "a  b" and "   a" give `SpacePrecedeLetter`; "abc " is accepted |
| `ChunkIds.ReservedExample` | src/lib.rs:47-51 | "FOR0" is not reserved; "FORM" and four spaces are |
| `Rust.AsUsize` | src/chunk.rs:13 | the cast leaves a non-negative size unchanged and maps a negative one to size + 2^64, which is above `isize::MAX` |
| `Rust.Encode` | src/chunkid.rs:85 | `as_bytes`: each character takes one to four bytes, so the encoding is at least as long as the string and at most four times as long; `EncodeAscii`, `EncodeAppend` and `EncodeAsciiPrefix` give the rest of its contract |
| `Rust.EncodeAscii` | src/chunkid.rs:85 | `as_bytes` of an ASCII string is the string's own character codes |
| `Rust.EncodeAppend` | src/chunkid.rs:85 | the `as_bytes` of a concatenation is the concatenation of the `as_bytes` of the parts |
| `Rust.EncodeAsciiPrefix` | src/chunkid.rs:85 | if the first n bytes of `as_bytes` are ASCII, they are the codes of the first n characters |
| `Rust.I32ToDecimal` | src/chunk.rs:28-30 | `{size}` of an `i32` is between 1 and 11 characters long (a sign and at most ten digits); `I32ToDecimalRoundTrip` gives its canonical form |
| `Rust.I32ToDecimalRoundTrip` | src/chunk.rs:28-30 | the decimal text of an `i32` is canonical: '-' first exactly when the number is negative, then digits with no leading zero (zero alone is "0"), and it reads back as the same number |
| `Chunks.New` | src/chunk.rs:12-17 | for a valid id, `Some` exactly when 0 <= size <= length of the data. In that case it holds the id, size and data unchanged, the data not cut down to the size, and satisfies the chunk invariant (valid id, size as `usize` fits in the data) |
| `Chunks.ValidSize` | src/chunk.rs:5-9 | a chunk meeting the invariant has a size between 0 and the data length |
| `Chunks.Len` | src/chunk.rs:19-21 | `len` returns the declared size, which on a chunk meeting the invariant lies between 0 and the data length; `LenOfNew` ties it to `new` |
| `Chunks.LenOfNew` | src/chunk.rs:19-21 | `len` of a constructed chunk is the size it was given, which lies between 0 and the data length |
| `Chunks.Display` | src/chunk.rs:24-32 | the rendering is `Chunk "`, then the id's four characters, then `". Size `, then the decimal text of the size, then ` bytes` |
| `Chunks.DisplayParts` | src/chunk.rs:24-32 | the size's text in the rendering is plain digits, without a sign or a leading zero (zero alone is "0"), and reads back as the size |
| `Chunks.DisplayDetermines` | src/chunk.rs:24-32 | two chunks render alike exactly when their ids and sizes are equal |
| `Chunks.SpaceForDataExample` | src/lib.rs:13-17 | with id "data" and a 4-byte buffer, size 4 gives a chunk of `len` 4 and size 8 gives none |
| `Chunks.DisplayExample` | src/lib.rs:20-23 | id "data", size 0 and an empty buffer render as `Chunk "data". Size 0 bytes` |

## Left out

- Rust lifetimes and borrowing: the data of a chunk is an immutable sequence, and the borrow has no behaviour to model.
- `fmt::Formatter`, `write!` and the `fmt::Result` plumbing: each `Display` is a function that builds a string.
- The messages of `ChunkIdError`'s `Display` (src/chunkid.rs:15-29): they are constant strings.
- General UTF-8 decoding in `str::from_utf8`: decoding only ever meets valid identifiers, which are ASCII, so `to_str` maps each byte to the character with that code.
- `usize` width: the cast is modelled for a 64-bit target only. Slices are bounded by `isize::MAX` as Rust guarantees.
- `ChunkIds.HasPrecedeSpaces` requires at least four bytes. In the source it is called only after the length check; on a shorter slice the Rust loop may index out of bounds.
- Equality of results for equal inputs: `ChunkIds.New`, `ChunkIds.FromStr` and `Chunks.New` are mathematical functions, so equal inputs give equal results by definition, and no lemma states it.
- `ChunkIds.New` checks the spacing rule through the predicate `SpaceBeforeLetter`. Dafny functions cannot call methods, so it does not call the loop; `ChunkIds.HasPrecedeSpaces` is proved to compute that same predicate.
- The `Debug`, `PartialEq` and `Eq` derivations of `ChunkId` and `ChunkIdError` (src/chunkid.rs:5,8): Dafny datatype equality plays the part of the derived equality, and no debug output is modelled. `Chunk` derives only `Debug` (src/chunk.rs:4); equality of chunks exists only in the model, where `Chunks.New`'s contract uses it to say which chunk is built.
- `Chunks.New` requires a valid identifier. Rust's `Chunk::new` does not check the id, but every `ChunkId` it can be given was built by `ChunkId::new` and so is valid.
