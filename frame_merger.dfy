/** NV21Merger.mergeNV21Frames: six w x h NV21 frames tiled into one
    3w x 2h NV21 mosaic. The luma (Y) plane of the mosaic holds the six luma
    planes in a 3-column, 2-row grid; the interleaved VU plane that follows it
    holds the six VU planes in the same grid at half the vertical resolution. */
module FrameMerger {
  import opened JavaInt

  /** The mosaic always takes exactly this many frames. */
  const FRAME_COUNT: nat := 6

  datatype MergeError =
    | WrongFrameCount     // IllegalArgumentException("Exactly 6 frames are required.")
    | IndexOutOfBounds    // thrown by System.arraycopy when a frame is too short

  datatype Result<T> = Ok(value: T) | Err(error: MergeError)

  /** Length of the mosaic buffer: mergedWidth * mergedHeight * 3 / 2. */
  function MergedSize(w: nat, h: nat): nat { (w * 3) * (h * 2) * 3 / 2 }

  /** The Java `int` product behind MergedSize does not overflow. */
  predicate FitsInt(w: nat, h: nat) { (w * 3) * (h * 2) * 3 <= INT_MAX }

  /** Bytes of each source frame that the row copies read: its Y plane and
      h / 2 rows of w interleaved VU bytes. */
  function NeededLength(w: nat, h: nat): nat { w * h + (h / 2) * w }

  predicate LongEnough(frames: seq<seq<byte>>, w: nat, h: nat) {
    forall t | 0 <= t < |frames| :: |frames[t]| >= NeededLength(w, h)
  }

  /** The inputs for which mergeNV21Frames returns a buffer. */
  predicate Mergeable(frames: seq<seq<byte>>, w: nat, h: nat) {
    |frames| == FRAME_COUNT && LongEnough(frames, w, h)
  }

  // ---------------------------------------------------------------------------
  // Destination offsets, written as mergeNV21Frames computes them
  // ---------------------------------------------------------------------------

  /** dstOffsetY before the first row of tile i. */
  function LumaTileStart(w: nat, h: nat, i: nat): nat {
    (i / 3) * h * (w * 3) + (i % 3) * w
  }

  /** dstOffsetVU before the first row of tile i. The tile-row offset is
      `(i / 3) * h * mergedWidth / 2`, evaluated left to right as in Java. */
  function ChromaTileStart(w: nat, h: nat, i: nat): nat {
    (w * 3) * (h * 2) + (i / 3) * h * (w * 3) / 2 + (i % 3) * w
  }

  /** Where byte x of luma row y sits in a frame w bytes wide. */
  function LumaOffset(w: nat, y: nat, x: nat): nat { y * w + x }

  /** Where byte x of VU row y sits in a frame: after its w * h luma bytes. */
  function ChromaOffset(w: nat, h: nat, y: nat, x: nat): nat { w * h + y * w + x }

  /** Where column X of row Y sits in the 3w-wide mosaic. */
  function MosaicOffset(w: nat, X: nat, Y: nat): nat { Y * (w * 3) + X }

  /** Where byte x of luma row y of frame i lands. */
  function LumaIndex(w: nat, h: nat, i: nat, y: nat, x: nat): nat {
    LumaTileStart(w, h, i) + y * (w * 3) + x
  }

  /** Where byte x of VU row y of frame i lands. */
  function ChromaIndex(w: nat, h: nat, i: nat, y: nat, x: nat): nat {
    ChromaTileStart(w, h, i) + y * (w * 3) + x
  }

  // ---------------------------------------------------------------------------
  // Reference definition: which source byte each mosaic byte comes from
  // ---------------------------------------------------------------------------

  /** The source of one mosaic byte: byte `col` of luma or VU row `row` of
      frame `tile`, or no source at all. */
  datatype Origin =
    | Luma(tile: nat, row: nat, col: nat)
    | Chroma(tile: nat, row: nat, col: nat)
    | Unwritten

  predicate ValidOrigin(w: nat, h: nat, o: Origin) {
    match o
    case Luma(t, r, c) => t < FRAME_COUNT && r < h && c < w
    case Chroma(t, r, c) => t < FRAME_COUNT && r < h / 2 && c < w
    case Unwritten => false
  }

  /** The mosaic position an origin is copied to. */
  function IndexOf(w: nat, h: nat, o: Origin): nat
    requires o != Unwritten
  {
    match o
    case Luma(t, r, c) => LumaIndex(w, h, t, r, c)
    case Chroma(t, r, c) => ChromaIndex(w, h, t, r, c)
  }

  /** Quotient and remainder of k by d, by repeated subtraction (it is k / d
      and k % d, see DivModIsDivision). */
  function DivMod(k: nat, d: nat): (nat, nat)
    requires d > 0
    decreases k
  {
    if k < d then (0, k)
    else
      var (q, r) := DivMod(k - d, d);
      (q + 1, r)
  }

  /** Splits an offset inside a block of rows `mw` bytes wide into its row,
      the w-byte cell of that row it falls in, and the byte inside the cell. */
  function Cell(k: nat, mw: nat, w: nat): (nat, nat, nat)
    requires mw > 0 && w > 0
  {
    var (r, c) := DivMod(k, mw);
    var (cell, x) := DivMod(c, w);
    (r, cell, x)
  }

  /** Decomposes a mosaic position into grid row and column, independently of
      the copy loops: the luma plane is 2h rows of 3w bytes; the VU plane has a
      block of h / 2 rows of 3w bytes for each tile row, the second block
      starting h * 3w / 2 bytes into the plane. */
  function OriginOf(w: nat, h: nat, k: nat): Origin {
    var lumaSize := (w * 3) * (h * 2);
    if w == 0 || h == 0 then Unwritten
    else if k < lumaSize then LumaOrigin(w, h, k)
    else ChromaOrigin(w, h, k - lumaSize)
  }

  /** OriginOf for byte k of the luma plane: mosaic row r is row r % h of
      tile row r / h. */
  function LumaOrigin(w: nat, h: nat, k: nat): Origin
    requires w > 0 && h > 0
  {
    var (r, cell, x) := Cell(k, w * 3, w);
    var (band, y) := DivMod(r, h);
    Luma(band * 3 + cell, y, x)
  }

  /** OriginOf for byte c of the VU plane. */
  function ChromaOrigin(w: nat, h: nat, c: nat): Origin
    requires w > 0 && h > 0
  {
    var mw := w * 3;
    var block := (h / 2) * mw;
    var second := h * mw / 2;
    if c < block then
      var (y, cell, x) := Cell(c, mw, w);
      Chroma(cell, y, x)
    else if second <= c < second + block then
      var (y, cell, x) := Cell(c - second, mw, w);
      Chroma(3 + cell, y, x)
    else
      Unwritten
  }

  /** The source byte an origin names. */
  function SourceByte(frames: seq<seq<byte>>, w: nat, h: nat, o: Origin): byte
    requires Mergeable(frames, w, h) && ValidOrigin(w, h, o)
  {
    match o
    case Luma(t, r, c) =>
      LumaInFrame(w, h, r, c);
      frames[t][LumaOffset(w, r, c)]
    case Chroma(t, r, c) =>
      ChromaInFrame(w, h, r, c);
      frames[t][ChromaOffset(w, h, r, c)]
  }

  /** Byte k of the mosaic: its source byte, or 0 (the value `new byte[]`
      starts with) where no copy writes. */
  function ByteAt(frames: seq<seq<byte>>, w: nat, h: nat, k: nat): byte
    requires Mergeable(frames, w, h)
  {
    var o := OriginOf(w, h, k);
    if o == Unwritten then 0
    else
      OriginBounds(w, h, k);
      SourceByte(frames, w, h, o)
  }

  /** The mosaic mergeNV21Frames returns, defined byte by byte. */
  function MergedFrame(frames: seq<seq<byte>>, w: nat, h: nat): (m: seq<byte>)
    requires Mergeable(frames, w, h)
    ensures |m| == MergedSize(w, h)
  {
    seq(MergedSize(w, h), (k: int) requires 0 <= k => ByteAt(frames, w, h, k))
  }

  lemma MergedFrameAt(frames: seq<seq<byte>>, w: nat, h: nat, k: nat)
    requires Mergeable(frames, w, h) && k < MergedSize(w, h)
    ensures MergedFrame(frames, w, h)[k] == ByteAt(frames, w, h, k)
  {
  }

  // ---------------------------------------------------------------------------
  // Arithmetic helpers
  // ---------------------------------------------------------------------------

  lemma DivModUnique(a: nat, d: nat, q: nat, r: nat)
    requires d > 0 && r < d && a == q * d + r
    ensures a / d == q && a % d == r
  {
    var q', r' := a / d, a % d;
    assert a == q' * d + r';
    if q' < q {
      MulMono(q' + 1, q, d);
    } else if q < q' {
      MulMono(q + 1, q', d);
    }
  }

  lemma MulMono(a: nat, b: nat, c: nat)
    requires a <= b
    ensures a * c <= b * c
  {
  }

  /** DivMod splits k into a quotient and a remainder below d. */
  lemma {:induction false} DivModSpec(k: nat, d: nat)
    requires d > 0
    ensures DivMod(k, d).1 < d && k == DivMod(k, d).0 * d + DivMod(k, d).1
    decreases k
  {
    if k >= d {
      DivModSpec(k - d, d);
    }
  }

  /** DivMod is Euclidean division. */
  lemma DivModIsDivision(k: nat, d: nat)
    requires d > 0
    ensures DivMod(k, d) == (k / d, k % d)
  {
    DivModSpec(k, d);
    DivModUnique(k, d, DivMod(k, d).0, DivMod(k, d).1);
  }

  /** DivMod recovers the quotient and remainder an offset was built from. */
  lemma DivModOf(q: nat, r: nat, d: nat)
    requires r < d
    ensures DivMod(q * d + r, d) == (q, r)
  {
    DivModIsDivision(q * d + r, d);
    DivModUnique(q * d + r, d, q, r);
  }

  /** Row-major position inside a block of `rows` rows of `w` bytes. */
  lemma RowMajorBound(r: nat, c: nat, w: nat, rows: nat)
    requires r < rows && c < w
    ensures r * w + c < rows * w
  {
    MulMono(r + 1, rows, w);
  }

  /** Luma bytes of a frame lie in the part the copies read. */
  lemma LumaInFrame(w: nat, h: nat, r: nat, c: nat)
    requires r < h && c < w
    ensures LumaOffset(w, r, c) < NeededLength(w, h)
  {
    RowMajorBound(r, c, w, h);
  }

  /** So do its VU bytes. */
  lemma ChromaInFrame(w: nat, h: nat, r: nat, c: nat)
    requires r < h / 2 && c < w
    ensures ChromaOffset(w, h, r, c) < NeededLength(w, h)
  {
    RowMajorBound(r, c, w, h / 2);
  }

  /** The first VU block ends no later than the second begins. */
  lemma HalfBlock(h: nat, mw: nat)
    ensures (h / 2) * mw <= h * mw / 2
    ensures h % 2 == 0 ==> (h / 2) * mw == h * mw / 2
  {
    var half := h / 2;
    assert h == half * 2 + h % 2;
    assert h * mw == (half * mw) * 2 + (h % 2) * mw;
    if h % 2 == 0 {
      DivModUnique(h * mw, 2, half * mw, 0);
    } else {
      if mw > 0 {
        assert h * mw == (half * mw) * 2 + mw;
        assert h * mw == (half * mw + mw / 2) * 2 + mw % 2;
        DivModUnique(h * mw, 2, half * mw + mw / 2, mw % 2);
      }
    }
  }

  // ---------------------------------------------------------------------------
  // OriginOf and IndexOf are inverse to each other
  // ---------------------------------------------------------------------------

  /** Cell splits an offset exactly: row, cell and byte put back together give
      the offset. */
  lemma CellSplit(k: nat, w: nat, rows: nat)
    requires w > 0 && k < rows * (w * 3)
    ensures Cell(k, w * 3, w).0 < rows && Cell(k, w * 3, w).1 < 3 && Cell(k, w * 3, w).2 < w
    ensures k == Cell(k, w * 3, w).0 * (w * 3) + (Cell(k, w * 3, w).1 * w + Cell(k, w * 3, w).2)
  {
    var mw := w * 3;
    DivModSpec(k, mw);
    var (r, C) := DivMod(k, mw);
    DivModSpec(C, w);
    if r >= rows { MulMono(rows, r, mw); }
    var (cell, x) := DivMod(C, w);
    if cell >= 3 { MulMono(3, cell, w); }
  }

  /** Cell recovers the row, cell and byte an offset was built from. */
  lemma CellJoin(r: nat, cell: nat, x: nat, w: nat)
    requires cell < 3 && x < w
    ensures Cell(r * (w * 3) + (cell * w + x), w * 3, w) == (r, cell, x)
  {
    MulMono(cell, 2, w);
    DivModOf(r, cell * w + x, w * 3);
    DivModOf(cell, x, w);
  }

  /** The mosaic is the luma plane followed by a VU plane of half its size,
      which holds both blocks. */
  lemma SizeSplit(w: nat, h: nat)
    ensures MergedSize(w, h) == (w * 3) * (h * 2) + h * (w * 3)
    ensures h * (w * 3) / 2 + (h / 2) * (w * 3) <= h * (w * 3)
  {
    var mw := w * 3;
    assert (mw * (h * 2)) * 3 == (h * mw * 3) * 2;
    DivModUnique((mw * (h * 2)) * 3, 2, h * mw * 3, 0);
    HalfBlock(h, mw);
    assert h * mw / 2 * 2 <= h * mw;
  }

  /** Every origin OriginOf reports is in range. */
  lemma OriginBounds(w: nat, h: nat, k: nat)
    ensures OriginOf(w, h, k) != Unwritten ==> ValidOrigin(w, h, OriginOf(w, h, k))
  {
    var mw := w * 3;
    if w > 0 && h > 0 {
      if k < mw * (h * 2) {
        CellSplit(k, w, h * 2);
        var r := Cell(k, mw, w).0;
        DivModSpec(r, h);
        var band := DivMod(r, h).0;
        if band >= 2 { MulMono(2, band, h); }
      } else {
        var c := k - mw * (h * 2);
        var second := h * mw / 2;
        if c < (h / 2) * mw {
          CellSplit(c, w, h / 2);
        } else if second <= c < second + (h / 2) * mw {
          CellSplit(c - second, w, h / 2);
        }
      }
    }
  }

  /** Origin of a luma position, put back together. */
  lemma LumaIndexOfOrigin(w: nat, h: nat, k: nat)
    requires w > 0 && h > 0 && k < (w * 3) * (h * 2)
    ensures IndexOf(w, h, OriginOf(w, h, k)) == k
  {
    var mw := w * 3;
    CellSplit(k, w, h * 2);
    var (r, cell, x) := Cell(k, mw, w);
    DivModSpec(r, h);
    var (band, y) := DivMod(r, h);
    var t := band * 3 + cell;
    DivModUnique(t, 3, band, cell);
    assert OriginOf(w, h, k) == Luma(t, y, x);
    calc {
      IndexOf(w, h, Luma(t, y, x));
      band * h * mw + cell * w + y * mw + x;
      (band * h + y) * mw + (cell * w + x);
    }
  }

  /** Origin of a VU position, put back together. */
  lemma ChromaIndexOfOrigin(w: nat, h: nat, k: nat)
    requires w > 0 && h > 0 && (w * 3) * (h * 2) <= k
    requires OriginOf(w, h, k) != Unwritten
    ensures IndexOf(w, h, OriginOf(w, h, k)) == k
  {
    var mw := w * 3;
    var c := k - mw * (h * 2);
    var second := h * mw / 2;
    if c < (h / 2) * mw {
      CellSplit(c, w, h / 2);
      var (y, cell, x) := Cell(c, mw, w);
      assert OriginOf(w, h, k) == Chroma(cell, y, x);
      assert cell / 3 == 0 && cell % 3 == cell;
    } else {
      assert second <= c < second + (h / 2) * mw;
      CellSplit(c - second, w, h / 2);
      var (y, cell, x) := Cell(c - second, mw, w);
      assert OriginOf(w, h, k) == Chroma(3 + cell, y, x);
      assert (3 + cell) / 3 == 1 && (3 + cell) % 3 == cell;
    }
  }

  /** Every traced position is IndexOf of its origin. */
  lemma IndexOfOrigin(w: nat, h: nat, k: nat)
    requires OriginOf(w, h, k) != Unwritten
    ensures IndexOf(w, h, OriginOf(w, h, k)) == k
  {
    if k < (w * 3) * (h * 2) {
      LumaIndexOfOrigin(w, h, k);
    } else {
      ChromaIndexOfOrigin(w, h, k);
    }
  }

  /** Luma targets lie in the luma plane. */
  lemma LumaIndexBound(w: nat, h: nat, i: nat, y: nat, x: nat)
    requires i < FRAME_COUNT && y < h && x < w
    ensures LumaIndex(w, h, i, y, x) < (w * 3) * (h * 2)
  {
    var mw := w * 3;
    var R := (i / 3) * h + y;
    var C := (i % 3) * w + x;
    assert LumaIndex(w, h, i, y, x) == R * mw + C;
    MulMono(i % 3, 2, w);
    MulMono(i / 3, 1, h);
    RowMajorBound(R, C, mw, h * 2);
  }

  /** LumaIndex of tile band * 3 + cell, as a row and a column. */
  lemma LumaIndexOfBand(w: nat, h: nat, band: nat, cell: nat, y: nat, x: nat)
    requires cell < 3
    ensures LumaIndex(w, h, band * 3 + cell, y, x) == (band * h + y) * (w * 3) + (cell * w + x)
  {
    DivModUnique(band * 3 + cell, 3, band, cell);
  }

  /** LumaOrigin reads tile, row and byte back off a luma position. */
  lemma LumaOriginOfRow(w: nat, h: nat, band: nat, cell: nat, y: nat, x: nat)
    requires cell < 3 && y < h && x < w
    ensures LumaOrigin(w, h, (band * h + y) * (w * 3) + (cell * w + x)) == Luma(band * 3 + cell, y, x)
  {
    CellJoin(band * h + y, cell, x, w);
    DivModOf(band, y, h);
  }

  /** The luma byte x of row y of frame i is the one OriginOf traces back there. */
  lemma LumaOriginOfIndex(w: nat, h: nat, i: nat, y: nat, x: nat)
    requires i < FRAME_COUNT && y < h && x < w
    ensures LumaIndex(w, h, i, y, x) < (w * 3) * (h * 2)
    ensures OriginOf(w, h, LumaIndex(w, h, i, y, x)) == Luma(i, y, x)
  {
    LumaIndexBound(w, h, i, y, x);
    LumaIndexOfBand(w, h, i / 3, i % 3, y, x);
    LumaOriginOfRow(w, h, i / 3, i % 3, y, x);
  }

  /** The VU tiles of the top row start right after the luma plane, those of
      the bottom row h * 3w / 2 bytes later. */
  lemma ChromaTileStartSplit(w: nat, h: nat, i: nat)
    requires i < FRAME_COUNT
    ensures ChromaTileStart(w, h, i) == (w * 3) * (h * 2) + (if i < 3 then 0 else h * (w * 3) / 2) + (i % 3) * w
  {
    if i >= 3 {
      assert i / 3 == 1;
    }
  }

  /** The VU byte x of row y of frame i is the one OriginOf traces back there. */
  lemma ChromaOriginOfIndex(w: nat, h: nat, i: nat, y: nat, x: nat)
    requires i < FRAME_COUNT && y < h / 2 && x < w
    ensures (w * 3) * (h * 2) <= ChromaIndex(w, h, i, y, x) < MergedSize(w, h)
    ensures OriginOf(w, h, ChromaIndex(w, h, i, y, x)) == Chroma(i, y, x)
  {
    var mw := w * 3;
    var lumaSize, second, block := mw * (h * 2), h * mw / 2, (h / 2) * mw;
    var off := y * mw + ((i % 3) * w + x);
    assert off < block && Cell(off, mw, w) == (y, i % 3, x) by {
      MulMono(i % 3, 2, w);
      RowMajorBound(y, (i % 3) * w + x, mw, h / 2);
      CellJoin(y, i % 3, x, w);
    }
    assert block <= second && second + block <= h * mw && MergedSize(w, h) == lumaSize + h * mw by {
      HalfBlock(h, mw);
      SizeSplit(w, h);
    }
    ChromaTileStartSplit(w, h, i);
    var k := ChromaIndex(w, h, i, y, x);
    if i < 3 {
      assert k == lumaSize + off;
    } else {
      assert k == lumaSize + second + off;
    }
  }

  /** OriginOf undoes IndexOf, and the target lies inside the mosaic. */
  lemma OriginOfIndex(w: nat, h: nat, o: Origin)
    requires ValidOrigin(w, h, o)
    ensures IndexOf(w, h, o) < MergedSize(w, h)
    ensures OriginOf(w, h, IndexOf(w, h, o)) == o
  {
    SizeSplit(w, h);
    match o
    case Luma(t, r, c) => LumaOriginOfIndex(w, h, t, r, c);
    case Chroma(t, r, c) => ChromaOriginOfIndex(w, h, t, r, c);
  }

  /** IndexOf is injective on valid origins: no two source bytes share a
      mosaic position (and no luma byte shares one with a VU byte). */
  lemma IndexOfInjective(w: nat, h: nat, o1: Origin, o2: Origin)
    requires ValidOrigin(w, h, o1) && ValidOrigin(w, h, o2)
    requires IndexOf(w, h, o1) == IndexOf(w, h, o2)
    ensures o1 == o2
  {
    OriginOfIndex(w, h, o1);
    OriginOfIndex(w, h, o2);
  }

  /** With an even frame height the twelve tiles cover the whole mosaic: every
      byte has a source. */
  lemma FullCoverage(w: nat, h: nat, k: nat)
    requires h % 2 == 0 && k < MergedSize(w, h)
    ensures OriginOf(w, h, k) != Unwritten
  {
    var mw := w * 3;
    SizeSplit(w, h);
    HalfBlock(h, mw);
    assert w > 0 && h > 0;
  }

  // ---------------------------------------------------------------------------
  // What the mosaic holds
  // ---------------------------------------------------------------------------

  /** The mosaic byte at LumaIndex is, by definition, luma byte x of row y of
      frame i. */
  lemma LumaByteAt(frames: seq<seq<byte>>, w: nat, h: nat, i: nat, y: nat, x: nat)
    requires Mergeable(frames, w, h) && i < FRAME_COUNT && y < h && x < w
    ensures LumaOffset(w, y, x) < |frames[i]|
    ensures LumaIndex(w, h, i, y, x) < MergedSize(w, h)
    ensures ByteAt(frames, w, h, LumaIndex(w, h, i, y, x)) == frames[i][LumaOffset(w, y, x)]
  {
    assert LumaIndex(w, h, i, y, x) < MergedSize(w, h) by {
      LumaIndexBound(w, h, i, y, x);
      SizeSplit(w, h);
    }
    LumaOriginOfIndex(w, h, i, y, x);
    RowMajorBound(y, x, w, h);
  }

  /** Luma placement: byte x of luma row y of frame i is at LumaIndex in the
      mosaic, that is at column (i % 3) * w + x of mosaic row (i / 3) * h + y. */
  lemma LumaAt(frames: seq<seq<byte>>, w: nat, h: nat, i: nat, y: nat, x: nat)
    requires Mergeable(frames, w, h) && i < FRAME_COUNT && y < h && x < w
    ensures var m, k, s := MergedFrame(frames, w, h), LumaIndex(w, h, i, y, x), LumaOffset(w, y, x);
            s < |frames[i]| && k < |m| && m[k] == frames[i][s]
  {
    LumaByteAt(frames, w, h, i, y, x);
    MergedFrameAt(frames, w, h, LumaIndex(w, h, i, y, x));
  }

  /** The mosaic byte at ChromaIndex is, by definition, VU byte x of row y of
      frame i. */
  lemma ChromaByteAt(frames: seq<seq<byte>>, w: nat, h: nat, i: nat, y: nat, x: nat)
    requires Mergeable(frames, w, h) && i < FRAME_COUNT && y < h / 2 && x < w
    ensures ChromaOffset(w, h, y, x) < |frames[i]|
    ensures ChromaIndex(w, h, i, y, x) < MergedSize(w, h)
    ensures ByteAt(frames, w, h, ChromaIndex(w, h, i, y, x)) == frames[i][ChromaOffset(w, h, y, x)]
  {
    ChromaOriginOfIndex(w, h, i, y, x);
    RowMajorBound(y, x, w, h / 2);
  }

  /** VU placement: byte x of VU row y of frame i (byte w * h + y * w + x of
      the frame) is at ChromaIndex in the mosaic, for every height. */
  lemma ChromaAt(frames: seq<seq<byte>>, w: nat, h: nat, i: nat, y: nat, x: nat)
    requires Mergeable(frames, w, h) && i < FRAME_COUNT && y < h / 2 && x < w
    ensures var m, k, s := MergedFrame(frames, w, h), ChromaIndex(w, h, i, y, x), ChromaOffset(w, h, y, x);
            s < |frames[i]| && k < |m| && m[k] == frames[i][s]
  {
    ChromaByteAt(frames, w, h, i, y, x);
    MergedFrameAt(frames, w, h, ChromaIndex(w, h, i, y, x));
  }

  /** For an even height, ChromaIndex as a row and a column of the VU plane. */
  lemma ChromaIndexRowColumn(w: nat, h: nat, i: nat, y: nat, x: nat)
    requires h % 2 == 0 && i < FRAME_COUNT
    ensures ChromaIndex(w, h, i, y, x) == (w * 3) * (h * 2) + ((i / 3) * (h / 2) + y) * (w * 3) + (i % 3) * w + x
  {
    HalfBlock(h, w * 3);
    if i >= 3 {
      assert i / 3 == 1;
    }
  }

  /** A position in the first 2h rows of the 3w-wide mosaic, split into tile
      row and column, row and byte. */
  lemma LumaIndexOfPixel(w: nat, h: nat, X: nat, Y: nat)
    requires X < w * 3 && Y < h * 2
    ensures var band, y, cell, x := DivMod(Y, h).0, DivMod(Y, h).1, DivMod(X, w).0, DivMod(X, w).1;
            band < 2 && cell < 3 && y < h && x < w &&
            LumaIndex(w, h, band * 3 + cell, y, x) == MosaicOffset(w, X, Y)
  {
    DivModSpec(Y, h);
    DivModSpec(X, w);
    var band, y, cell, x := DivMod(Y, h).0, DivMod(Y, h).1, DivMod(X, w).0, DivMod(X, w).1;
    if band >= 2 { MulMono(2, band, h); }
    if cell >= 3 { MulMono(3, cell, w); }
    LumaIndexOfBand(w, h, band, cell, y, x);
  }

  /** Read from the mosaic's side: the luma byte at column X, row Y of the
      3w x 2h mosaic comes from frame (Y / h) * 3 + X / w, at column X % w of
      its row Y % h (DivMod is / and %, see DivModIsDivision). */
  lemma LumaPixel(frames: seq<seq<byte>>, w: nat, h: nat, X: nat, Y: nat)
    requires Mergeable(frames, w, h) && X < w * 3 && Y < h * 2
    ensures var t, s := DivMod(Y, h).0 * 3 + DivMod(X, w).0, LumaOffset(w, DivMod(Y, h).1, DivMod(X, w).1);
            var m, k := MergedFrame(frames, w, h), MosaicOffset(w, X, Y);
            t < FRAME_COUNT && s < |frames[t]| && k < |m| && m[k] == frames[t][s]
  {
    var t, y, x := DivMod(Y, h).0 * 3 + DivMod(X, w).0, DivMod(Y, h).1, DivMod(X, w).1;
    var m, k, s := MergedFrame(frames, w, h), MosaicOffset(w, X, Y), LumaOffset(w, y, x);
    assert t < FRAME_COUNT && y < h && x < w && LumaIndex(w, h, t, y, x) == k by {
      LumaIndexOfPixel(w, h, X, Y);
    }
    assert s < |frames[t]| && k < |m| && m[k] == frames[t][s] by {
      LumaAt(frames, w, h, t, y, x);
    }
  }

  /** Every byte of the mosaic is written at most once and, for an even height,
      exactly once: positions with a source are exactly the targets of the
      twelve tiles' bytes, and distinct source bytes have distinct targets. */
  lemma WrittenExactlyOnce(w: nat, h: nat, k: nat)
    requires k < MergedSize(w, h)
    ensures h % 2 == 0 ==> OriginOf(w, h, k) != Unwritten
    ensures OriginOf(w, h, k) != Unwritten ==>
              ValidOrigin(w, h, OriginOf(w, h, k)) && IndexOf(w, h, OriginOf(w, h, k)) == k &&
              forall o | ValidOrigin(w, h, o) && IndexOf(w, h, o) == k :: o == OriginOf(w, h, k)
  {
    if h % 2 == 0 { FullCoverage(w, h, k); }
    if OriginOf(w, h, k) != Unwritten {
      OriginBounds(w, h, k);
      IndexOfOrigin(w, h, k);
      forall o | ValidOrigin(w, h, o) && IndexOf(w, h, o) == k ensures o == OriginOf(w, h, k) {
        IndexOfInjective(w, h, o, OriginOf(w, h, k));
      }
    }
  }

  // ---------------------------------------------------------------------------
  // The copy loops
  // ---------------------------------------------------------------------------

  /** `m` with `part` written over it from position `at`. */
  function Splice(m: seq<byte>, at: nat, part: seq<byte>): (r: seq<byte>)
    requires at + |part| <= |m|
    ensures |r| == |m|
    ensures forall k | 0 <= k < |m| :: r[k] == if at <= k < at + |part| then part[k - at] else m[k]
  {
    m[..at] + part + m[at + |part|..]
  }

  /** System.arraycopy from a frame into the mosaic. */
  method ArrayCopy(src: seq<byte>, srcPos: nat, dst: array<byte>, dstPos: nat, length: nat)
    requires srcPos + length <= |src| && dstPos + length <= dst.Length
    modifies dst
    ensures dst[..] == Splice(old(dst[..]), dstPos, src[srcPos..srcPos + length])
  {
    forall k | dstPos <= k < dstPos + length {
      dst[k] := src[srcPos + (k - dstPos)];
    }
  }

  /** Position of the copy loops: the next row to copy is row `row` of tile
      `tile` of the luma plane, or of the VU plane when `chroma` holds. */
  datatype Cursor = Cursor(chroma: bool, tile: nat, row: nat)

  /** Whether the row holding origin o is copied before the loops reach
      cursor c: all luma rows come first, tile by tile and top row first, then
      the VU rows in the same order. */
  predicate Copied(o: Origin, c: Cursor)
    requires o != Unwritten
  {
    match o
    case Luma(t, r, _) => c.chroma || t < c.tile || (t == c.tile && r < c.row)
    case Chroma(t, r, _) => c.chroma && (t < c.tile || (t == c.tile && r < c.row))
  }

  /** `m` is the mosaic buffer when the loops reach cursor c: bytes of the rows
      copied so far hold their source byte, all others are still 0. */
  ghost predicate FilledUpTo(m: seq<byte>, frames: seq<seq<byte>>, w: nat, h: nat, c: Cursor)
    requires Mergeable(frames, w, h)
  {
    && |m| == MergedSize(w, h)
    && forall k | 0 <= k < |m| ::
         m[k] == if OriginOf(w, h, k) != Unwritten && Copied(OriginOf(w, h, k), c)
                 then ByteAt(frames, w, h, k) else 0
  }

  /** The zeroed buffer is the state before any row is copied. */
  lemma NothingCopied(m: seq<byte>, frames: seq<seq<byte>>, w: nat, h: nat)
    requires Mergeable(frames, w, h) && |m| == MergedSize(w, h)
    requires forall k | 0 <= k < |m| :: m[k] == 0
    ensures FilledUpTo(m, frames, w, h, Cursor(false, 0, 0))
  {
  }

  /** What one luma row copy does to byte k: inside the row it writes the
      byte's source; outside the row it changes nothing that is copied. */
  lemma LumaRowByte(frames: seq<seq<byte>>, w: nat, h: nat, i: nat, y: nat, k: nat)
    requires Mergeable(frames, w, h) && w > 0 && i < FRAME_COUNT && y < h
    ensures var d, o := LumaIndex(w, h, i, y, 0), OriginOf(w, h, k);
            && (d <= k < d + w ==>
                  o == Luma(i, y, k - d) && LumaOffset(w, y, k - d) < |frames[i]| &&
                  ByteAt(frames, w, h, k) == frames[i][LumaOffset(w, y, k - d)])
            && (!(d <= k < d + w) && o != Unwritten ==>
                  (Copied(o, Cursor(false, i, y + 1)) <==> Copied(o, Cursor(false, i, y))))
  {
    var d := LumaIndex(w, h, i, y, 0);
    var o := OriginOf(w, h, k);
    if d <= k < d + w {
      var x := k - d;
      assert LumaIndex(w, h, i, y, x) == k;
      LumaOriginOfIndex(w, h, i, y, x);
      LumaByteAt(frames, w, h, i, y, x);
    } else if o != Unwritten && o.Luma? && o.tile == i && o.row == y {
      OriginBounds(w, h, k);
      IndexOfOrigin(w, h, k);
      assert false;
    }
  }

  /** What one VU row copy does to byte k. */
  lemma ChromaRowByte(frames: seq<seq<byte>>, w: nat, h: nat, i: nat, y: nat, k: nat)
    requires Mergeable(frames, w, h) && w > 0 && i < FRAME_COUNT && y < h / 2
    ensures var d, o := ChromaIndex(w, h, i, y, 0), OriginOf(w, h, k);
            && (d <= k < d + w ==>
                  o == Chroma(i, y, k - d) && ChromaOffset(w, h, y, k - d) < |frames[i]| &&
                  ByteAt(frames, w, h, k) == frames[i][ChromaOffset(w, h, y, k - d)])
            && (!(d <= k < d + w) && o != Unwritten ==>
                  (Copied(o, Cursor(true, i, y + 1)) <==> Copied(o, Cursor(true, i, y))))
  {
    var d := ChromaIndex(w, h, i, y, 0);
    var o := OriginOf(w, h, k);
    if d <= k < d + w {
      var x := k - d;
      assert ChromaIndex(w, h, i, y, x) == k;
      ChromaOriginOfIndex(w, h, i, y, x);
      ChromaByteAt(frames, w, h, i, y, x);
    } else if o != Unwritten && o.Chroma? && o.tile == i && o.row == y {
      OriginBounds(w, h, k);
      IndexOfOrigin(w, h, k);
      assert false;
    }
  }

  /** The bytes one luma row copy reads and writes are in range. */
  lemma LumaRowBounds(frames: seq<seq<byte>>, w: nat, h: nat, i: nat, y: nat)
    requires Mergeable(frames, w, h) && i < FRAME_COUNT && y < h
    ensures LumaOffset(w, y, 0) + w <= |frames[i]| && LumaIndex(w, h, i, y, 0) + w <= MergedSize(w, h)
  {
    if w > 0 {
      assert LumaOffset(w, y, 0) + w <= |frames[i]| by {
        RowMajorBound(y, w - 1, w, h);
      }
      assert LumaIndex(w, h, i, y, 0) + w <= MergedSize(w, h) by {
        LumaIndexBound(w, h, i, y, w - 1);
        SizeSplit(w, h);
      }
    }
  }

  /** The bytes one VU row copy reads and writes are in range. */
  lemma ChromaRowBounds(frames: seq<seq<byte>>, w: nat, h: nat, i: nat, y: nat)
    requires Mergeable(frames, w, h) && i < FRAME_COUNT && y < h / 2
    ensures ChromaOffset(w, h, y, 0) + w <= |frames[i]| && ChromaIndex(w, h, i, y, 0) + w <= MergedSize(w, h)
  {
    if w > 0 {
      assert ChromaOffset(w, h, y, 0) + w <= |frames[i]| by {
        RowMajorBound(y, w - 1, w, h / 2);
      }
      assert ChromaIndex(w, h, i, y, 0) + w <= MergedSize(w, h) by {
        ChromaOriginOfIndex(w, h, i, y, w - 1);
      }
    }
  }

  /** Copying luma row y of tile i moves the cursor to the next row. */
  lemma LumaRowStep(m: seq<byte>, frames: seq<seq<byte>>, w: nat, h: nat, i: nat, y: nat)
    requires Mergeable(frames, w, h) && i < FRAME_COUNT && y < h
    requires FilledUpTo(m, frames, w, h, Cursor(false, i, y))
    ensures var d, s := LumaIndex(w, h, i, y, 0), LumaOffset(w, y, 0);
            && s + w <= |frames[i]| && d + w <= |m|
            && FilledUpTo(Splice(m, d, frames[i][s..s + w]), frames, w, h, Cursor(false, i, y + 1))
  {
    LumaRowBounds(frames, w, h, i, y);
    var d, s := LumaIndex(w, h, i, y, 0), LumaOffset(w, y, 0);
    var m' := Splice(m, d, frames[i][s..s + w]);
    forall k | 0 <= k < |m'|
      ensures m'[k] == if OriginOf(w, h, k) != Unwritten && Copied(OriginOf(w, h, k), Cursor(false, i, y + 1))
                       then ByteAt(frames, w, h, k) else 0
    {
      if w > 0 {
        LumaRowByte(frames, w, h, i, y, k);
      }
    }
  }

  /** Copying VU row y of tile i moves the cursor to the next row. */
  lemma ChromaRowStep(m: seq<byte>, frames: seq<seq<byte>>, w: nat, h: nat, i: nat, y: nat)
    requires Mergeable(frames, w, h) && i < FRAME_COUNT && y < h / 2
    requires FilledUpTo(m, frames, w, h, Cursor(true, i, y))
    ensures var d, s := ChromaIndex(w, h, i, y, 0), ChromaOffset(w, h, y, 0);
            && s + w <= |frames[i]| && d + w <= |m|
            && FilledUpTo(Splice(m, d, frames[i][s..s + w]), frames, w, h, Cursor(true, i, y + 1))
  {
    ChromaRowBounds(frames, w, h, i, y);
    var d, s := ChromaIndex(w, h, i, y, 0), ChromaOffset(w, h, y, 0);
    var m' := Splice(m, d, frames[i][s..s + w]);
    forall k | 0 <= k < |m'|
      ensures m'[k] == if OriginOf(w, h, k) != Unwritten && Copied(OriginOf(w, h, k), Cursor(true, i, y + 1))
                       then ByteAt(frames, w, h, k) else 0
    {
      if w > 0 {
        ChromaRowByte(frames, w, h, i, y, k);
      }
    }
  }

  /** Rows per tile in the luma or the VU plane. */
  function TileRows(h: nat, chroma: bool): nat { if chroma then h / 2 else h }

  /** After the last row of a tile the loops go on with the next tile. */
  lemma NextTile(m: seq<byte>, frames: seq<seq<byte>>, w: nat, h: nat, chroma: bool, i: nat)
    requires Mergeable(frames, w, h)
    requires FilledUpTo(m, frames, w, h, Cursor(chroma, i, TileRows(h, chroma)))
    ensures FilledUpTo(m, frames, w, h, Cursor(chroma, i + 1, 0))
  {
    forall k | 0 <= k < |m|
      ensures m[k] == if OriginOf(w, h, k) != Unwritten && Copied(OriginOf(w, h, k), Cursor(chroma, i + 1, 0))
                      then ByteAt(frames, w, h, k) else 0
    {
      OriginBounds(w, h, k);
    }
  }

  /** After the luma plane the loops go on with the VU plane. */
  lemma NextPlane(m: seq<byte>, frames: seq<seq<byte>>, w: nat, h: nat)
    requires Mergeable(frames, w, h)
    requires FilledUpTo(m, frames, w, h, Cursor(false, FRAME_COUNT, 0))
    ensures FilledUpTo(m, frames, w, h, Cursor(true, 0, 0))
  {
    forall k | 0 <= k < |m|
      ensures m[k] == if OriginOf(w, h, k) != Unwritten && Copied(OriginOf(w, h, k), Cursor(true, 0, 0))
                      then ByteAt(frames, w, h, k) else 0
    {
      OriginBounds(w, h, k);
    }
  }

  /** After the last VU tile the buffer is the mosaic. */
  lemma AllRowsFilled(m: seq<byte>, frames: seq<seq<byte>>, w: nat, h: nat)
    requires Mergeable(frames, w, h)
    requires FilledUpTo(m, frames, w, h, Cursor(true, FRAME_COUNT, 0))
    ensures m == MergedFrame(frames, w, h)
  {
    forall k | 0 <= k < |m| ensures m[k] == MergedFrame(frames, w, h)[k] {
      MergedFrameAt(frames, w, h, k);
      OriginBounds(w, h, k);
    }
  }

  /** NV21Merger.mergeNV21Frames. Fails with WrongFrameCount unless there are
      exactly six frames, and with IndexOutOfBounds when a frame holds fewer
      bytes than the copies read; otherwise returns a fresh buffer holding
      MergedFrame. The frames themselves are values and cannot change. */
  method MergeNV21Frames(frames: seq<seq<byte>>, frameWidth: nat, frameHeight: nat) returns (r: Result<array<byte>>)
    requires FitsInt(frameWidth, frameHeight)
    ensures |frames| != FRAME_COUNT ==> r == Err(WrongFrameCount)
    ensures |frames| == FRAME_COUNT && !LongEnough(frames, frameWidth, frameHeight) ==> r == Err(IndexOutOfBounds)
    ensures Mergeable(frames, frameWidth, frameHeight) ==>
              r.Ok? && fresh(r.value) && r.value[..] == MergedFrame(frames, frameWidth, frameHeight)
  {
    if |frames| != FRAME_COUNT {
      return Err(WrongFrameCount);
    }
    if !LongEnough(frames, frameWidth, frameHeight) {
      return Err(IndexOutOfBounds);
    }
    var w, h := frameWidth, frameHeight;
    var mergedWidth := frameWidth * 3;
    var mergedHeight := frameHeight * 2;
    var frameSize := frameWidth * frameHeight;
    var mergedFrame := new byte[mergedWidth * mergedHeight * 3 / 2](_ => 0);
    NothingCopied(mergedFrame[..], frames, w, h);

    // Y plane
    for i := 0 to 6
      invariant FilledUpTo(mergedFrame[..], frames, w, h, Cursor(false, i, 0))
    {
      CopyLumaTile(frames, w, h, i, mergedFrame);
    }
    NextPlane(mergedFrame[..], frames, w, h);

    // VU plane
    for i := 0 to 6
      invariant FilledUpTo(mergedFrame[..], frames, w, h, Cursor(true, i, 0))
    {
      CopyChromaTile(frames, w, h, i, mergedFrame);
    }

    AllRowsFilled(mergedFrame[..], frames, w, h);
    return Ok(mergedFrame);
  }

  /** One pass of the Y-plane loop of mergeNV21Frames: the h luma rows of
      frame i, each w bytes, copied into tile i of the mosaic. */
  method CopyLumaTile(frames: seq<seq<byte>>, frameWidth: nat, frameHeight: nat, i: nat, mergedFrame: array<byte>)
    requires Mergeable(frames, frameWidth, frameHeight) && i < FRAME_COUNT
    requires FilledUpTo(mergedFrame[..], frames, frameWidth, frameHeight, Cursor(false, i, 0))
    modifies mergedFrame
    ensures FilledUpTo(mergedFrame[..], frames, frameWidth, frameHeight, Cursor(false, i + 1, 0))
  {
    var w, h := frameWidth, frameHeight;
    var mergedWidth := frameWidth * 3;
    var srcOffsetY := 0;
    var dstOffsetY := ((i / 3) * frameHeight * mergedWidth) + (i % 3) * frameWidth;
    for y := 0 to frameHeight
      invariant srcOffsetY == LumaOffset(w, y, 0)
      invariant dstOffsetY == LumaIndex(w, h, i, y, 0)
      invariant FilledUpTo(mergedFrame[..], frames, w, h, Cursor(false, i, y))
    {
      LumaRowStep(mergedFrame[..], frames, w, h, i, y);
      ArrayCopy(frames[i], srcOffsetY, mergedFrame, dstOffsetY, frameWidth);
      srcOffsetY := srcOffsetY + frameWidth;
      dstOffsetY := dstOffsetY + mergedWidth;
    }
    NextTile(mergedFrame[..], frames, w, h, false, i);
  }

  /** One pass of the VU-plane loop of mergeNV21Frames: the h / 2 VU rows of
      frame i, which start at frameSize, copied into VU tile i. */
  method CopyChromaTile(frames: seq<seq<byte>>, frameWidth: nat, frameHeight: nat, i: nat, mergedFrame: array<byte>)
    requires Mergeable(frames, frameWidth, frameHeight) && i < FRAME_COUNT
    requires FilledUpTo(mergedFrame[..], frames, frameWidth, frameHeight, Cursor(true, i, 0))
    modifies mergedFrame
    ensures FilledUpTo(mergedFrame[..], frames, frameWidth, frameHeight, Cursor(true, i + 1, 0))
  {
    var w, h := frameWidth, frameHeight;
    var mergedWidth := frameWidth * 3;
    var mergedHeight := frameHeight * 2;
    var frameSize := frameWidth * frameHeight;
    var srcOffsetVU := frameSize;
    var dstOffsetVU := mergedWidth * mergedHeight + ((i / 3) * frameHeight * mergedWidth / 2) + (i % 3) * frameWidth;
    for y := 0 to frameHeight / 2
      invariant srcOffsetVU == ChromaOffset(w, h, y, 0)
      invariant dstOffsetVU == ChromaIndex(w, h, i, y, 0)
      invariant FilledUpTo(mergedFrame[..], frames, w, h, Cursor(true, i, y))
    {
      ChromaRowStep(mergedFrame[..], frames, w, h, i, y);
      ArrayCopy(frames[i], srcOffsetVU, mergedFrame, dstOffsetVU, frameWidth);
      srcOffsetVU := srcOffsetVU + frameWidth;
      dstOffsetVU := dstOffsetVU + mergedWidth;
    }
    NextTile(mergedFrame[..], frames, w, h, true, i);
  }
}
