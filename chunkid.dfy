/** Chunk identifiers of EA IFF 85: four printable ASCII bytes, with spaces
    allowed only at the end, and a fixed table of reserved grouping IDs. */
module ChunkIds {
  import opened Rust

  const LOWER_CHAR_RANGE: u8 := 0x20
  const UPPER_CHAR_RANGE: u8 := 0x7E
  const SPACE_CHAR_CODE: u8 := 0x20

  /** The four bytes an identifier holds (`[u8; 4]`). */
  type Tag = t: seq<u8> | |t| == 4 witness [0x20, 0x20, 0x20, 0x20]

  datatype ChunkId = ChunkId(tag: Tag)

  datatype ChunkIdError = ShortLength | UnsupportedChar | SpacePrecedeLetter

  datatype Result = Ok(id: ChunkId) | Err(error: ChunkIdError)

  // ---------------------------------------------------------------------------
  // The character and spacing rules
  // ---------------------------------------------------------------------------

  /** `is_allowed_char`: the byte is printable ASCII, a space up to a tilde. */
  predicate IsAllowedChar(chr: u8)
    ensures IsAllowedChar(chr) <==> ' ' <= chr as char <= '~'
    ensures IsAllowedChar(chr) ==> chr < 0x80
  {
    LOWER_CHAR_RANGE <= chr <= UPPER_CHAR_RANGE
  }

  /** Every one of the first four bytes is printable ASCII. */
  predicate AllAllowed(b: seq<u8>)
    requires |b| >= 4
  {
    forall i | 0 <= i < 4 :: IsAllowedChar(b[i])
  }

  /** What `has_precede_spaces` computes: somewhere among positions 0..3 a
      space is directly followed by a non-space. Later bytes are not looked at. */
  predicate SpaceBeforeLetter(id: seq<u8>)
    requires |id| >= 4
  {
    exists i | 0 <= i < 3 :: id[i] == SPACE_CHAR_CODE && id[i + 1] != SPACE_CHAR_CODE
  }

  /** `has_precede_spaces`: a scan of the pairs (0,1), (1,2), (2,3) that stops
      at the first space followed by a non-space. */
  method HasPrecedeSpaces(id: seq<u8>) returns (r: bool)
    requires |id| >= 4
    ensures r == SpaceBeforeLetter(id)
  {
    for idx := 0 to 3
      invariant forall j | 0 <= j < idx :: !(id[j] == SPACE_CHAR_CODE && id[j + 1] != SPACE_CHAR_CODE)
    {
      if id[idx] == SPACE_CHAR_CODE && id[idx + 1] != SPACE_CHAR_CODE {
        return true;
      }
    }
    return false;
  }

  predicate NoSpaces(s: seq<u8>) {
    forall i | 0 <= i < |s| :: s[i] != SPACE_CHAR_CODE
  }

  predicate AllSpaces(s: seq<u8>) {
    forall i | 0 <= i < |s| :: s[i] == SPACE_CHAR_CODE
  }

  /** The layout the IFF convention asks for: some non-space characters, then
      nothing but trailing spaces. */
  predicate TrailingSpacesOnly(t: seq<u8>) {
    exists k | 0 <= k <= |t| :: NoSpaces(t[..k]) && AllSpaces(t[k..])
  }

  /** The pairwise rule of `has_precede_spaces` is exactly the trailing-spaces
      layout of the first four bytes. */
  lemma SpacingRule(t: seq<u8>)
    requires |t| >= 4
    ensures !SpaceBeforeLetter(t) <==> TrailingSpacesOnly(t[..4])
  {
    var p := t[..4];
    if !SpaceBeforeLetter(t) {
      var k := if t[0] == SPACE_CHAR_CODE then 0
               else if t[1] == SPACE_CHAR_CODE then 1
               else if t[2] == SPACE_CHAR_CODE then 2
               else if t[3] == SPACE_CHAR_CODE then 3
               else 4;
      assert t[0] == SPACE_CHAR_CODE ==> t[1] == SPACE_CHAR_CODE;
      assert t[1] == SPACE_CHAR_CODE ==> t[2] == SPACE_CHAR_CODE;
      assert t[2] == SPACE_CHAR_CODE ==> t[3] == SPACE_CHAR_CODE;
      assert NoSpaces(p[..k]);
      assert AllSpaces(p[k..]);
    }
    if TrailingSpacesOnly(p) {
      var k :| 0 <= k <= 4 && NoSpaces(p[..k]) && AllSpaces(p[k..]);
      forall j | 0 <= j < k
        ensures t[j] != SPACE_CHAR_CODE
      {
        assert p[..k][j] == t[j];
      }
      forall j | k <= j < 4
        ensures t[j] == SPACE_CHAR_CODE
      {
        assert p[k..][j - k] == t[j];
      }
    }
  }

  // ---------------------------------------------------------------------------
  // Construction
  // ---------------------------------------------------------------------------

  /** What every `ChunkId` in a program satisfies: its field is private, so
      `new` is the only way to make one. */
  predicate Valid(id: ChunkId) {
    AllAllowed(id.tag) && !SpaceBeforeLetter(id.tag)
  }

  /** `ChunkId::new`: the length check, then the character check, then the
      spacing check, the first failure winning; on success the first four
      bytes are kept and the rest ignored. */
  function New(slice: seq<u8>): (r: Result)
    ensures r == Err(ShortLength) <==> |slice| < 4
    ensures |slice| >= 4 ==>
      (r == Err(UnsupportedChar) <==> exists i | 0 <= i < 4 :: !IsAllowedChar(slice[i]))
    ensures |slice| >= 4 && AllAllowed(slice) ==>
      (r == Err(SpacePrecedeLetter) <==> !TrailingSpacesOnly(slice[..4]))
    ensures r.Ok? ==> r.id.tag == slice[..4] && Valid(r.id)
  {
    if |slice| < 4 then Err(ShortLength)
    else if !AllAllowed(slice) then Err(UnsupportedChar)
    else
      SpacingRule(slice);
      if SpaceBeforeLetter(slice) then Err(SpacePrecedeLetter)
      else Ok(ChunkId([slice[0], slice[1], slice[2], slice[3]]))
  }

  /** Only the first four bytes of the source are ever inspected. */
  lemma NewIgnoresTail(slice: seq<u8>, rest: seq<u8>)
    requires |slice| >= 4
    ensures New(slice + rest) == New(slice)
  {
    var s := slice + rest;
    assert s[..4] == slice[..4];
    assert forall i | 0 <= i < 4 :: s[i] == slice[i];
  }

  /** The identifiers `new` can produce are exactly the valid ones, and each is
      produced from its own four bytes. */
  lemma ValidIffConstructible(id: ChunkId)
    ensures Valid(id) <==> New(id.tag) == Ok(id)
  {
    assert id.tag[..4] == id.tag;
  }

  // ---------------------------------------------------------------------------
  // Text views
  // ---------------------------------------------------------------------------

  /** The four bytes read as characters. */
  function Text(t: Tag): (r: string) {
    seq(4, i requires 0 <= i < 4 => t[i] as char)
  }

  /** `to_str`: the UTF-8 decoding of the four bytes, which cannot fail on a
      valid identifier since all of them are printable ASCII. */
  function ToStr(id: ChunkId): (r: string)
    requires Valid(id)
    ensures |r| == 4
    ensures forall i | 0 <= i < 4 :: r[i] as int == id.tag[i] && ' ' <= r[i] <= '~'
  {
    Text(id.tag)
  }

  /** `Display` for `ChunkId`: the four characters, unquoted. */
  function Display(id: ChunkId): (r: string)
    requires Valid(id)
    ensures |r| == 4
    ensures forall i | 0 <= i < 4 :: r[i] as int == id.tag[i]
  {
    ToStr(id)
  }

  /** `from_str`: `new` applied to the UTF-8 bytes of the string. */
  function FromStr(s: string): (r: Result)
    ensures r.Ok? ==> Valid(r.id) && |s| >= 4 && ToStr(r.id) == s[..4]
  {
    var b := Encode(s);
    var r := New(b);
    if r.Ok? then
      EncodeAsciiPrefix(s, 4);
      r
    else r
  }

  /** On ASCII text `from_str` is `new` on the characters' own codes, errors
      included. */
  lemma FromStrAscii(s: string)
    requires IsAscii(s)
    ensures FromStr(s) == New(AsciiBytes(s))
  {
    EncodeAscii(s);
  }

  /** A string whose first character is not ASCII never names an identifier:
      its lead byte is at least 0xC0, so the outcome is `ShortLength` when the
      encoding has fewer than four bytes and `UnsupportedChar` otherwise. */
  lemma FromStrNonAscii(s: string)
    requires |s| > 0 && s[0] as int >= 0x80
    ensures FromStr(s) == Err(ShortLength) || FromStr(s) == Err(UnsupportedChar)
    ensures FromStr(s) == Err(ShortLength) <==> |Encode(s)| < 4
  {
    assert Encode(s) == EncodeChar(s[0]) + Encode(s[1..]);
    assert Encode(s)[0] == EncodeChar(s[0])[0];
  }

  /** When the first four characters are ASCII, `from_str` is `new` on their
      codes, whatever follows them, non-ASCII characters included. */
  lemma FromStrAsciiPrefix(s: string)
    requires |s| >= 4 && IsAscii(s[..4])
    ensures FromStr(s) == New(AsciiBytes(s[..4]))
  {
    assert s == s[..4] + s[4..];
    EncodeAppend(s[..4], s[4..]);
    EncodeAscii(s[..4]);
    NewIgnoresTail(Encode(s[..4]), Encode(s[4..]));
  }

  /** Printing a valid identifier and parsing the text gives it back. */
  lemma FromStrToStr(id: ChunkId)
    requires Valid(id)
    ensures FromStr(ToStr(id)) == Ok(id)
  {
    var s := ToStr(id);
    FromStrAscii(s);
    assert AsciiBytes(s) == id.tag;
    ValidIffConstructible(id);
  }

  // ---------------------------------------------------------------------------
  // Reserved identifiers
  // ---------------------------------------------------------------------------

  function TagOf(s: string): (t: Tag)
    requires |s| == 4 && IsAscii(s)
  {
    [s[0] as int, s[1] as int, s[2] as int, s[3] as int]
  }

  /** `RESERVED_CHUNK_IDS`: the grouping IDs of EA IFF 85 and the all-space ID. */
  const RESERVED_CHUNK_IDS: seq<Tag> := [
    TagOf("LIST"), TagOf("LIS1"), TagOf("LIS2"), TagOf("LIS3"), TagOf("LIS4"),
    TagOf("LIS5"), TagOf("LIS6"), TagOf("LIS7"), TagOf("LIS8"), TagOf("LIS9"),
    TagOf("FORM"), TagOf("FOR1"), TagOf("FOR2"), TagOf("FOR3"), TagOf("FOR4"),
    TagOf("FOR5"), TagOf("FOR6"), TagOf("FOR7"), TagOf("FOR8"), TagOf("FOR9"),
    TagOf("CAT "), TagOf("CAT1"), TagOf("CAT2"), TagOf("CAT3"), TagOf("CAT4"),
    TagOf("CAT5"), TagOf("CAT6"), TagOf("CAT7"), TagOf("CAT8"), TagOf("CAT9"),
    TagOf("PROP"),
    TagOf("    ")
  ]

  /** `is_reserved`: the four bytes equal one entry of the table. */
  predicate IsReserved(id: ChunkId)
    ensures IsReserved(id) ==> Valid(id)
  {
    ReservedAreValid();
    id.tag in RESERVED_CHUNK_IDS
  }

  /** The reserved names described by their shape rather than listed. */
  predicate ReservedName(s: string) {
    s == "LIST" || s == "FORM" || s == "CAT " || s == "PROP" || s == "    " ||
    (|s| == 4 && (s[..3] == "LIS" || s[..3] == "FOR" || s[..3] == "CAT") && '1' <= s[3] <= '9')
  }

  /** The table has 32 entries, each itself a valid identifier. */
  lemma ReservedAreValid()
    ensures |RESERVED_CHUNK_IDS| == 32
    ensures forall t | t in RESERVED_CHUNK_IDS :: Valid(ChunkId(t))
  {
  }

  /** `is_reserved` accepts exactly LIST, FORM, "CAT ", PROP, four spaces, and
      LIS, FOR or CAT followed by a digit 1 to 9: case and spaces are exact. */
  lemma TableNames()
    ensures forall j | 0 <= j < |RESERVED_CHUNK_IDS| :: ReservedName(Text(RESERVED_CHUNK_IDS[j]))
  {
  }

  lemma IsReservedIff(id: ChunkId)
    ensures IsReserved(id) <==> ReservedName(Text(id.tag))
  {
    var s := Text(id.tag);
    if IsReserved(id) {
      TableNames();
      var j :| 0 <= j < |RESERVED_CHUNK_IDS| && id.tag == RESERVED_CHUNK_IDS[j];
    }
    if ReservedName(s) {
      assert IsAscii(s);
      assert id.tag == TagOf(s);
    }
  }

  // ---------------------------------------------------------------------------
  // The unit tests of the crate, as facts about the model
  // ---------------------------------------------------------------------------

  /** Unprintable bytes are refused as such; the spacing check has no say. */
  lemma UnprintableExample()
    ensures New([0, 1, 2, 3]) == Err(UnsupportedChar)
  {
  }

  /** Three bytes are too few; of five bytes the last is dropped. */
  lemma ShortInputExample()
    ensures New(AsciiBytes("abc")) == Err(ShortLength)
    ensures New(AsciiBytes("abcde")).Ok? && ToStr(New(AsciiBytes("abcde")).id) == "abcd"
  {
    assert AsciiBytes("abcde")[..4] == AsciiBytes("abcd");
  }

  /** A space followed by a letter is refused wherever it stands; a trailing
      space is fine. */
  lemma InnerSpaceExample()
    ensures forall s | s in [" abc", "a bc", "ab c", "  ab", "a  b", "   a"] :: FromStr(s) == Err(SpacePrecedeLetter)
    ensures New(AsciiBytes("abc ")).Ok?
  {
    forall s | s in [" abc", "a bc", "ab c", "  ab", "a  b", "   a"]
      ensures FromStr(s) == Err(SpacePrecedeLetter)
    {
      FromStrAscii(s);
    }
  }

  /** "FOR0" is an ordinary identifier, "FORM" and four spaces are reserved. */
  lemma ReservedExample()
    ensures FromStr("FOR0").Ok? && !IsReserved(FromStr("FOR0").id)
    ensures FromStr("FORM").Ok? && IsReserved(FromStr("FORM").id)
    ensures FromStr("    ").Ok? && IsReserved(FromStr("    ").id)
  {
    ParsesTo("FOR0");
    ParsesTo("FORM");
    ParsesTo("    ");
    ReservedByName("FOR0");
    ReservedByName("FORM");
    ReservedByName("    ");
  }

  lemma ReservedByName(s: string)
    requires |s| == 4 && IsAscii(s)
    ensures IsReserved(ChunkId(TagOf(s))) <==> ReservedName(s)
  {
    var id := ChunkId(TagOf(s));
    IsReservedIff(id);
    assert Text(id.tag) == s;
  }

  lemma ParsesTo(s: string)
    requires |s| == 4 && IsAscii(s) && Valid(ChunkId(TagOf(s)))
    ensures FromStr(s) == Ok(ChunkId(TagOf(s)))
  {
    FromStrAscii(s);
    assert AsciiBytes(s) == TagOf(s);
    ValidIffConstructible(ChunkId(TagOf(s)));
  }
}
