/** A chunk: a validated identifier, the size its header declares and a
    read-only view of the bytes that are supposed to hold the payload. */
module Chunks {
  import opened Rust
  import ChunkIds

  /** `Chunk<'a>`: the borrow of `data` has no behaviour and is modelled as an
      immutable sequence. No field changes after construction. */
  datatype Chunk = Chunk(id: ChunkIds.ChunkId, size: i32, data: Slice)

  datatype Option<T> = None | Some(value: T)

  /** What every constructed chunk satisfies: its identifier is valid (as
      every `ChunkId` is) and the declared size, read as an unsigned byte
      count, fits in the data. */
  predicate Valid(c: Chunk) {
    ChunkIds.Valid(c.id) && AsUsize(c.size) <= |c.data|
  }

  /** `Chunk::new`: refuses a declared size that, after the cast to `usize`,
      exceeds the data; so a negative size is always refused. On success the
      three inputs are stored as given, the data not cut down to the size. */
  function New(id: ChunkIds.ChunkId, size: i32, data: Slice): (r: Option<Chunk>)
    requires ChunkIds.Valid(id)
    ensures r.Some? <==> 0 <= size <= |data|
    ensures r.Some? ==> r.value == Chunk(id, size, data) && Valid(r.value)
  {
    if AsUsize(size) > |data| then None else Some(Chunk(id, size, data))
  }

  /** A valid chunk's size is an ordinary non-negative count within the data. */
  lemma ValidSize(c: Chunk)
    requires Valid(c)
    ensures 0 <= c.size <= |c.data|
  {
  }

  /** `len`: the declared size, which on a valid chunk is a byte count the
      data can hold. */
  function Len(c: Chunk): (r: i32)
    ensures Valid(c) ==> 0 <= r <= |c.data|
  {
    c.size
  }

  /** The length of a constructed chunk is the size it was given. */
  lemma LenOfNew(id: ChunkIds.ChunkId, size: i32, data: Slice)
    requires ChunkIds.Valid(id) && New(id, size, data).Some?
    ensures Len(New(id, size, data).value) == size
    ensures 0 <= Len(New(id, size, data).value) <= |data|
  {
  }

  const PREFIX: string := "Chunk \""
  const MIDDLE: string := "\". Size "
  const SUFFIX: string := " bytes"

  /** `Display` for `Chunk`: `Chunk "XXXX". Size N bytes`. The fixed words sit
      at fixed places, the four characters after the opening quote are the
      identifier and the text before " bytes" is the size's decimal numeral. */
  function Display(c: Chunk): (r: string)
    requires Valid(c)
    ensures |r| > |PREFIX| + 4 + |MIDDLE| + |SUFFIX|
    ensures r[..7] == PREFIX
    ensures r[7..11] == ChunkIds.ToStr(c.id)
    ensures r[11..19] == MIDDLE
    ensures r[|r| - 6..] == SUFFIX
    ensures r[19..|r| - 6] == I32ToDecimal(c.size)
  {
    var r := PREFIX + ChunkIds.ToStr(c.id) + MIDDLE + I32ToDecimal(c.size) + SUFFIX;
    assert r[19..|r| - 6] == I32ToDecimal(c.size);
    r
  }

  /** The size in the rendered text can be read back: since a valid chunk's
      size is not negative, the numeral is plain digits without a sign or a
      leading zero (zero itself is "0"), and it reads back as the size. */
  lemma DisplayParts(c: Chunk)
    requires Valid(c)
    ensures forall i | 19 <= i < |Display(c)| - 6 :: '0' <= Display(c)[i] <= '9'
    ensures Display(c)[19] == '0' ==> Display(c)[19..|Display(c)| - 6] == "0"
    ensures ParseDecimal(Display(c)[19..|Display(c)| - 6]) == c.size
  {
    var d := I32ToDecimal(c.size);
    I32ToDecimalRoundTrip(c.size);
    var r := Display(c);
    assert r[19..|r| - 6] == d;
    forall i | 19 <= i < |r| - 6
      ensures '0' <= r[i] <= '9'
    {
      assert r[i] == d[i - 19];
    }
  }

  /** Two chunks print alike exactly when their identifiers and sizes agree. */
  lemma DisplayDetermines(c1: Chunk, c2: Chunk)
    requires Valid(c1) && Valid(c2)
    ensures Display(c1) == Display(c2) <==> c1.id == c2.id && c1.size == c2.size
  {
    if Display(c1) == Display(c2) {
      DisplayParts(c1);
      DisplayParts(c2);
      var t1, t2 := ChunkIds.ToStr(c1.id), ChunkIds.ToStr(c2.id);
      assert t1 == t2;
      assert c1.id.tag == c2.id.tag by {
        forall i | 0 <= i < 4 ensures c1.id.tag[i] == c2.id.tag[i] {
          assert t1[i] == t2[i];
        }
      }
    }
  }

  // ---------------------------------------------------------------------------
  // The unit tests of the crate, as facts about the model
  // ---------------------------------------------------------------------------

  /** Four bytes of data hold a chunk of size 4 but not one of size 8. */
  lemma SpaceForDataExample()
    ensures ChunkIds.FromStr("data").Ok?
    ensures New(ChunkIds.FromStr("data").id, 4, [0, 0, 0, 0]).Some?
    ensures Len(New(ChunkIds.FromStr("data").id, 4, [0, 0, 0, 0]).value) == 4
    ensures New(ChunkIds.FromStr("data").id, 8, [0, 0, 0, 0]).None?
  {
    ChunkIds.ParsesTo("data");
  }

  lemma DisplayExample()
    ensures ChunkIds.FromStr("data").Ok?
    ensures New(ChunkIds.FromStr("data").id, 0, []).Some?
    ensures Display(New(ChunkIds.FromStr("data").id, 0, []).value) == "Chunk \"data\". Size 0 bytes"
  {
    ChunkIds.ParsesTo("data");
    var id := ChunkIds.FromStr("data").id;
    assert ChunkIds.ToStr(id) == "data"[..4] == "data";
    DisplayOfData(id);
  }

  lemma DisplayOfData(id: ChunkIds.ChunkId)
    requires ChunkIds.Valid(id) && ChunkIds.ToStr(id) == "data"
    ensures New(id, 0, []).Some?
    ensures Display(New(id, 0, []).value) == "Chunk \"data\". Size 0 bytes"
  {
    assert I32ToDecimal(0) == "0";
  }
}
