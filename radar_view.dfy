/** `decode_radar_view`: the entry point that decodes the radar string and
    hands fixed byte ranges of the result to the three grid extractors. */
module RadarViewDecoder {
  import opened DecodeErrors
  import opened CodeTables
  import opened Base64
  import opened GridExtractors

  /** One snapshot of the agent's surroundings: 4 x 3 horizontal passages,
      3 x 4 vertical passages and 3 x 3 cells. */
  datatype RadarView = RadarView(
    horizontalPassages: seq<seq<Passage>>,
    verticalPassages: seq<seq<Passage>>,
    cells: seq<seq<RadarItem>>)

  /** The dimensions the fixed-size arrays of the view guarantee. */
  predicate WellShaped(view: RadarView) {
    IsGrid(view.horizontalPassages, 4, 3) &&
    IsGrid(view.verticalPassages, 3, 4) &&
    IsGrid(view.cells, 3, 3)
  }

  /** Number of decoded bytes a radar view needs. */
  const ViewByteCount: nat := 11

  /** The view that decoded bytes describe: bytes [0, 3) are the horizontal
      passages, [3, 6) the vertical passages and [6, 11) the cells. */
  function ViewOfBytes(data: seq<bv8>): (view: RadarView)
    requires |data| >= ViewByteCount
    ensures WellShaped(view)
  {
    RadarView(HorizontalPassages(data[0..3]), VerticalPassages(data[3..6]), Cells(data[6..11]))
  }

  /** What `decode_radar_view` returns for an encoded string: the decoder's
      error, InsufficientData when fewer than 11 bytes were decoded, and the
      view of the bytes otherwise. */
  function RadarViewOf(encoded: seq<byte>): (r: Result<RadarView>)
    ensures r.Ok? ==> WellShaped(r.value)
  {
    match Decode(encoded)
    case Err(e) => Err(e)
    case Ok(data) => if |data| < ViewByteCount then Err(InsufficientData) else Ok(ViewOfBytes(data))
  }

  /** `decode_radar_view`. */
  method DecodeRadarView(encoded: seq<byte>) returns (r: Result<RadarView>)
    ensures r == RadarViewOf(encoded)
  {
    var decoded := DecodeB64(encoded);
    if decoded.Err? {
      return Err(decoded.error);
    }
    var binaryData := decoded.value;

    if |binaryData| < 11 {
      return Err(InsufficientData);
    }

    var hPassages := ExtractHorizontalPassages(binaryData[0..3]);
    var vPassages := ExtractVerticalPassages(binaryData[3..6]);
    var cells := ExtractCells(binaryData[6..11]);

    return Ok(RadarView(hPassages, vPassages, cells));
  }

  // ---------------------------------------------------------------------
  // When decoding succeeds and how it fails
  // ---------------------------------------------------------------------

  /** A string of n valid characters (n % 4 != 1) carries at least 11 bytes
      exactly when it has at least 15 characters. */
  lemma ElevenBytesNeedFifteenChars(n: nat)
    requires n % 4 != 1
    ensures DecodedLength(n) >= ViewByteCount <==> n >= 15
  {
  }

  /** The length check comes first: a length of the form 4k + 1 always
      fails with InvalidLength, and no other string does. */
  lemma {:induction false} RadarViewLengthError(encoded: seq<byte>)
    ensures RadarViewOf(encoded) == Err(InvalidLength) <==> |encoded| % 4 == 1
  {
    DecodeLengthError(encoded);
    DecodeSuccess(encoded);
  }

  /** A bad character is reported as the decoder reports it: the first
      character outside the alphabet, when the length is acceptable. */
  lemma {:induction false} RadarViewCharacterError(encoded: seq<byte>, c: byte)
    ensures RadarViewOf(encoded) == Err(InvalidCharacter(c)) <==>
      |encoded| % 4 != 1 &&
      exists i :: 0 <= i < |encoded| && encoded[i] == c && !InAlphabet(c) &&
        forall j :: 0 <= j < i ==> InAlphabet(encoded[j])
  {
    DecodeCharacterError(encoded, c);
    DecodeSuccess(encoded);
  }

  /** A well-formed string that is too short fails with InsufficientData,
      and that is the only way to get that error. */
  lemma {:induction false} RadarViewInsufficientData(encoded: seq<byte>)
    ensures RadarViewOf(encoded) == Err(InsufficientData) <==>
      |encoded| % 4 != 1 && |encoded| < 15 && forall i :: 0 <= i < |encoded| ==> InAlphabet(encoded[i])
  {
    DecodeSuccess(encoded);
    DecodeLengthError(encoded);
    if |encoded| % 4 != 1 {
      ElevenBytesNeedFifteenChars(|encoded|);
    }
    if Decode(encoded).Err? {
      var e := Decode(encoded).error;
      assert e == InvalidLength || e.InvalidCharacter? by {
        if e != InvalidLength {
          assert FirstInvalid(encoded) < |encoded|;
        }
      }
    }
  }

  /** Decoding a view succeeds exactly on strings of at least 15 characters
      from the alphabet whose length is not of the form 4k + 1. */
  lemma {:induction false} RadarViewSuccess(encoded: seq<byte>)
    ensures RadarViewOf(encoded).Ok? <==>
      |encoded| % 4 != 1 && |encoded| >= 15 && forall i :: 0 <= i < |encoded| ==> InAlphabet(encoded[i])
  {
    DecodeSuccess(encoded);
    if |encoded| % 4 != 1 {
      ElevenBytesNeedFifteenChars(|encoded|);
    }
  }

  /** No string shorter than 15 characters decodes to a view. */
  lemma {:induction false} ShortStringsFail(encoded: seq<byte>)
    requires |encoded| < 15
    ensures RadarViewOf(encoded).Err?
  {
    RadarViewSuccess(encoded);
  }

  /** The empty string decodes to no bytes, hence too few. */
  lemma {:induction false} EmptyStringInsufficient()
    ensures RadarViewOf([]) == Err(InsufficientData)
  {
    DecodeEmpty();
  }

  // ---------------------------------------------------------------------
  // Which bytes the view depends on
  // ---------------------------------------------------------------------

  /** Each grid depends only on its own byte range, and bytes from offset 11
      on are ignored. */
  lemma {:induction false} ViewReadsItsRanges(a: seq<bv8>, b: seq<bv8>)
    requires |a| >= ViewByteCount && |b| >= ViewByteCount
    ensures a[0..3] == b[0..3] ==> ViewOfBytes(a).horizontalPassages == ViewOfBytes(b).horizontalPassages
    ensures a[3..6] == b[3..6] ==> ViewOfBytes(a).verticalPassages == ViewOfBytes(b).verticalPassages
    ensures a[6..11] == b[6..11] ==> ViewOfBytes(a).cells == ViewOfBytes(b).cells
    ensures a[..11] == b[..11] ==> ViewOfBytes(a) == ViewOfBytes(b)
  {
    if a[..11] == b[..11] {
      assert a[0..3] == a[..11][0..3] && b[0..3] == b[..11][0..3];
      assert a[3..6] == a[..11][3..6] && b[3..6] == b[..11][3..6];
      assert a[6..11] == a[..11][6..11] && b[6..11] == b[..11][6..11];
    }
  }

  /** The low nibble of byte 10 is never read. */
  lemma {:induction false} ViewIgnoresLastNibble(a: seq<bv8>, b: seq<bv8>)
    requires |a| >= ViewByteCount && |b| >= ViewByteCount
    requires a[..10] == b[..10] && HighNibble(a[10]) == HighNibble(b[10])
    ensures ViewOfBytes(a) == ViewOfBytes(b)
  {
    var ca, cb := a[6..11], b[6..11];
    assert ca[..4] == a[6..10] && cb[..4] == b[6..10];
    assert a[6..10] == a[..10][6..10] && b[6..10] == b[..10][6..10];
    assert a[0..3] == a[..10][0..3] && b[0..3] == b[..10][0..3];
    assert a[3..6] == a[..10][3..6] && b[3..6] == b[..10][3..6];
    CellsIgnoreLastNibble(ca, cb);
  }

  /** Zero bytes are a view with every passage Undefined and every cell
      Empty. */
  lemma {:induction false} ZeroBytesView(data: seq<bv8>)
    requires |data| >= ViewByteCount && forall i :: 0 <= i < |data| ==> data[i] == 0
    ensures var view := ViewOfBytes(data);
      (forall r, c :: 0 <= r < 4 && 0 <= c < 3 ==> view.horizontalPassages[r][c] == Passage.Undefined) &&
      (forall r, c :: 0 <= r < 3 && 0 <= c < 4 ==> view.verticalPassages[r][c] == Passage.Undefined) &&
      (forall r, c :: 0 <= r < 3 && 0 <= c < 3 ==> view.cells[r][c] == RadarItem.Empty)
  {
    var view := ViewOfBytes(data);
    var h, v, cs := data[0..3], data[3..6], data[6..11];
    assert h[0] == 0 && h[1] == 0 && h[2] == 0 && Word24(h) == 0;
    assert v[0] == 0 && v[1] == 0 && v[2] == 0 && Word24(v) == 0;
    forall r, c | 0 <= r < 4 && 0 <= c < 3
      ensures view.horizontalPassages[r][c] == Passage.Undefined
    {
      assert PassageBits(0, HorizontalShift(r, c)) == 0;
    }
    forall r, c | 0 <= r < 3 && 0 <= c < 4
      ensures view.verticalPassages[r][c] == Passage.Undefined
    {
      assert PassageBits(0, VerticalShift(r, c)) == 0;
    }
    forall r, c | 0 <= r < 3 && 0 <= c < 3
      ensures view.cells[r][c] == RadarItem.Empty
    {
      var k := 3 * r + c;
      assert cs[k / 2] == 0;
      assert Nibble(cs, k) == 0 && view.cells[r][c] == CellAt(cs, k);
    }
  }

  // ---------------------------------------------------------------------
  // Encoding a view: the inverse used by the round trip
  // ---------------------------------------------------------------------

  /** The 11 bytes a well-shaped view is read from. */
  function EncodeViewBytes(view: RadarView): (data: seq<bv8>)
    requires WellShaped(view)
    ensures |data| == ViewByteCount
  {
    EncodeHorizontal(view.horizontalPassages) + EncodeVertical(view.verticalPassages) + EncodeCells(view.cells)
  }

  /** The 15-character encoding of a well-shaped view: the inverse the
      round trip below uses. */
  function EncodeView(view: RadarView): (encoded: seq<byte>)
    requires WellShaped(view)
    ensures |encoded| == 15
  {
    Encode(EncodeViewBytes(view))
  }

  /** Every well-shaped view is read back from its bytes. */
  lemma {:induction false} ViewBytesRoundTrip(view: RadarView)
    requires WellShaped(view)
    ensures ViewOfBytes(EncodeViewBytes(view)) == view
  {
    var data := EncodeViewBytes(view);
    assert data[0..3] == EncodeHorizontal(view.horizontalPassages);
    assert data[3..6] == EncodeVertical(view.verticalPassages);
    assert data[6..11] == EncodeCells(view.cells);
    HorizontalRoundTrip(view.horizontalPassages);
    VerticalRoundTrip(view.verticalPassages);
    CellsRoundTrip(view.cells);
  }

  /** Decoding the encoding of a well-shaped view gives the view back. */
  lemma {:induction false} RadarViewRoundTrip(view: RadarView)
    requires WellShaped(view)
    ensures RadarViewOf(EncodeView(view)) == Ok(view)
  {
    DecodeEncode(EncodeViewBytes(view));
    ViewBytesRoundTrip(view);
  }
}
