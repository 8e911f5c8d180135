/** The three extractors that turn the 11 decoded bytes of a radar view into
    its passage grids and its cell grid, with the byte layouts they read. */
module GridExtractors {
  import opened CodeTables

  /** A grid of `rows` rows of `cols` entries each (a Rust `[[T; cols]; rows]`). */
  predicate IsGrid<T>(g: seq<seq<T>>, rows: nat, cols: nat) {
    |g| == rows && forall r :: 0 <= r < rows ==> |g[r]| == cols
  }

  /** The grid whose every entry is `x` (the array literal `[[x; cols]; rows]`). */
  function Filled<T>(rows: nat, cols: nat, x: T): (g: seq<seq<T>>)
    ensures IsGrid(g, rows, cols)
    ensures forall r, c :: 0 <= r < rows && 0 <= c < cols ==> g[r][c] == x
  {
    seq(rows, r => seq(cols, c => x))
  }

  /** The entries of a grid, read row by row: entry k is at row k / cols,
      column k % cols. */
  function ByRows<T>(g: seq<seq<T>>, rows: nat, cols: nat): (s: seq<T>)
    requires IsGrid(g, rows, cols)
    ensures |s| == rows * cols
  {
    seq(rows * cols, k requires 0 <= k < rows * cols => g[k / cols][k % cols])
  }

  /** A positive multiple of cols is at least cols. */
  lemma MultipleAtLeast(cols: nat, d: int)
    requires d >= 1
    ensures cols * d >= cols
  {
    var e := d - 1;
    assert cols * d == cols * e + cols;
    assert cols * e >= 0;
  }

  /** Entry (r, c) of a grid is entry cols * r + c of its row-by-row reading. */
  lemma RowMajorIndex(r: nat, c: nat, rows: nat, cols: nat)
    requires r < rows && c < cols
    ensures cols * r + c < rows * cols
    ensures (cols * r + c) / cols == r && (cols * r + c) % cols == c
  {
    var k := cols * r + c;
    MultipleAtLeast(cols, rows - r);
    assert rows * cols == cols * (rows - r) + cols * r;
    var q, m := k / cols, k % cols;
    assert k == cols * q + m;
    if q > r {
      MultipleAtLeast(cols, q - r);
    } else if q < r {
      MultipleAtLeast(cols, r - q);
    }
  }

  /** A grid is determined by its entries read row by row. */
  lemma {:induction false} ByRowsInjective<T>(g: seq<seq<T>>, h: seq<seq<T>>, rows: nat, cols: nat)
    requires IsGrid(g, rows, cols) && IsGrid(h, rows, cols)
    requires ByRows(g, rows, cols) == ByRows(h, rows, cols)
    ensures g == h
  {
    forall r | 0 <= r < rows
      ensures g[r] == h[r]
    {
      forall c | 0 <= c < cols
        ensures g[r][c] == h[r][c]
      {
        RowMajorIndex(r, c, rows, cols);
        var k := cols * r + c;
        assert ByRows(g, rows, cols)[k] == ByRows(h, rows, cols)[k];
      }
    }
  }

  // ---------------------------------------------------------------------
  // Passages: 12 two-bit fields of a little-endian 24-bit word
  // ---------------------------------------------------------------------

  /** The three bytes as a little-endian 24-bit word: data[0] is bits 0-7. */
  function Word24(data: seq<bv8>): bv32
    requires |data| >= 3
  {
    ((data[2] as bv32) << 16) | ((data[1] as bv32) << 8) | (data[0] as bv32)
  }

  /** The two bits of `bits` at position `shift`, as a passage code. */
  function PassageBits(bits: bv32, shift: nat): bv8
    requires shift < 32
  {
    ((bits >> shift) & 3) as bv8
  }

  /** The passage whose code sits at position `shift` of `bits`. */
  function PassageAt(bits: bv32, shift: nat): Passage
    requires shift < 32
  {
    PassageFrom(PassageBits(bits, shift))
  }

  /** Bit position of horizontal passage (row, col): 6 bits per row of 3. */
  function HorizontalShift(row: nat, col: nat): nat {
    row * 6 + col * 2
  }

  /** Bit position of vertical passage (row, col): 8 bits per row of 4. */
  function VerticalShift(row: nat, col: nat): nat {
    row * 8 + col * 2
  }

  /** The 4 x 3 horizontal passages that three bytes describe. */
  function HorizontalPassages(data: seq<bv8>): (g: seq<seq<Passage>>)
    requires |data| >= 3
    ensures IsGrid(g, 4, 3)
  {
    var bits := Word24(data);
    seq(4, r requires 0 <= r < 4 =>
      seq(3, c requires 0 <= c < 3 => PassageAt(bits, HorizontalShift(r, c))))
  }

  /** The 3 x 4 vertical passages that three bytes describe. */
  function VerticalPassages(data: seq<bv8>): (g: seq<seq<Passage>>)
    requires |data| >= 3
    ensures IsGrid(g, 3, 4)
  {
    var bits := Word24(data);
    seq(3, r requires 0 <= r < 3 =>
      seq(4, c requires 0 <= c < 4 => PassageAt(bits, VerticalShift(r, c))))
  }

  /** The first n horizontal passages of `g`, row by row, are the ones
      `bits` describes. */
  predicate HorizontalPlaced(g: seq<seq<Passage>>, bits: bv32, n: nat) {
    IsGrid(g, 4, 3) &&
    forall r, c :: 0 <= r < 4 && 0 <= c < 3 && 3 * r + c < n ==>
      g[r][c] == PassageAt(bits, HorizontalShift(r, c))
  }

  /** Writing passage (row, col) places one more passage. */
  lemma PlaceHorizontal(g: seq<seq<Passage>>, bits: bv32, row: nat, col: nat)
    requires row < 4 && col < 3 && HorizontalPlaced(g, bits, 3 * row + col)
    ensures HorizontalPlaced(g[row := g[row][col := PassageAt(bits, HorizontalShift(row, col))]], bits, 3 * row + col + 1)
  {
    var h := g[row := g[row][col := PassageAt(bits, HorizontalShift(row, col))]];
    forall r, c | 0 <= r < 4 && 0 <= c < 3 && 3 * r + c < 3 * row + col + 1
      ensures h[r][c] == PassageAt(bits, HorizontalShift(r, c))
    {
      if r != row || c != col {
        assert 3 * r + c != 3 * row + col;
      }
    }
  }

  /** A grid whose 12 passages are placed is the one the data describes. */
  lemma HorizontalComplete(g: seq<seq<Passage>>, data: seq<bv8>)
    requires |data| >= 3 && HorizontalPlaced(g, Word24(data), 12)
    ensures g == HorizontalPassages(data)
  {
    var spec := HorizontalPassages(data);
    assert forall r, c :: 0 <= r < 4 && 0 <= c < 3 ==> g[r][c] == spec[r][c];
    assert forall r :: 0 <= r < 4 ==> g[r] == spec[r];
  }

  /** `extract_horizontal_passages`: builds the word from the three bytes,
      then reads the 12 passages row by row. */
  method ExtractHorizontalPassages(data: seq<bv8>) returns (result: seq<seq<Passage>>)
    requires |data| >= 3
    ensures result == HorizontalPassages(data)
  {
    result := Filled(4, 3, Passage.Undefined);
    var bits: bv32 := 0;
    bits := bits | ((data[2] as bv32) << 16);
    bits := bits | ((data[1] as bv32) << 8);
    bits := bits | (data[0] as bv32);
    assert bits == Word24(data);

    for row := 0 to 4
      invariant HorizontalPlaced(result, bits, 3 * row)
    {
      for col := 0 to 3
        invariant HorizontalPlaced(result, bits, 3 * row + col)
      {
        var shift := (row * 6) + (col * 2);
        var passageBits := (bits >> shift) & 3;
        assert shift == HorizontalShift(row, col) && passageBits as bv8 == PassageBits(bits, shift);
        PlaceHorizontal(result, bits, row, col);
        result := result[row := result[row][col := PassageFrom(passageBits as bv8)]];
      }
    }
    HorizontalComplete(result, data);
  }

  /** The first n vertical passages of `g`, row by row, are the ones
      `bits` describes. */
  predicate VerticalPlaced(g: seq<seq<Passage>>, bits: bv32, n: nat) {
    IsGrid(g, 3, 4) &&
    forall r, c :: 0 <= r < 3 && 0 <= c < 4 && 4 * r + c < n ==>
      g[r][c] == PassageAt(bits, VerticalShift(r, c))
  }

  /** Writing passage (row, col) places one more passage. */
  lemma PlaceVertical(g: seq<seq<Passage>>, bits: bv32, row: nat, col: nat)
    requires row < 3 && col < 4 && VerticalPlaced(g, bits, 4 * row + col)
    ensures VerticalPlaced(g[row := g[row][col := PassageAt(bits, VerticalShift(row, col))]], bits, 4 * row + col + 1)
  {
    var h := g[row := g[row][col := PassageAt(bits, VerticalShift(row, col))]];
    forall r, c | 0 <= r < 3 && 0 <= c < 4 && 4 * r + c < 4 * row + col + 1
      ensures h[r][c] == PassageAt(bits, VerticalShift(r, c))
    {
      if r != row || c != col {
        assert 4 * r + c != 4 * row + col;
      }
    }
  }

  /** A grid whose 12 passages are placed is the one the data describes. */
  lemma VerticalComplete(g: seq<seq<Passage>>, data: seq<bv8>)
    requires |data| >= 3 && VerticalPlaced(g, Word24(data), 12)
    ensures g == VerticalPassages(data)
  {
    var spec := VerticalPassages(data);
    assert forall r, c :: 0 <= r < 3 && 0 <= c < 4 ==> g[r][c] == spec[r][c];
    assert forall r :: 0 <= r < 3 ==> g[r] == spec[r];
  }

  /** `extract_vertical_passages`: as the horizontal one, with rows of 4
      passages starting every 8 bits. */
  method ExtractVerticalPassages(data: seq<bv8>) returns (result: seq<seq<Passage>>)
    requires |data| >= 3
    ensures result == VerticalPassages(data)
  {
    result := Filled(3, 4, Passage.Undefined);
    var bits: bv32 := 0;
    bits := bits | ((data[2] as bv32) << 16);
    bits := bits | ((data[1] as bv32) << 8);
    bits := bits | (data[0] as bv32);
    assert bits == Word24(data);

    for row := 0 to 3
      invariant VerticalPlaced(result, bits, 4 * row)
    {
      for col := 0 to 4
        invariant VerticalPlaced(result, bits, 4 * row + col)
      {
        var shift := (row * 8) + (col * 2);
        var passageBits := (bits >> shift) & 3;
        assert shift == VerticalShift(row, col) && passageBits as bv8 == PassageBits(bits, shift);
        PlaceVertical(result, bits, row, col);
        result := result[row := result[row][col := PassageFrom(passageBits as bv8)]];
      }
    }
    VerticalComplete(result, data);
  }

  // ---------------------------------------------------------------------
  // The passage layout, stated byte by byte
  // ---------------------------------------------------------------------

  /** Two-bit field q (0 to 3, least significant first) of one byte. */
  function TwoBitField(b: bv8, q: nat): (f: bv8)
    requires q < 4
    ensures f < 4
  {
    if q == 0 then b & 3
    else if q == 1 then (b >> 2) & 3
    else if q == 2 then (b >> 4) & 3
    else b >> 6
  }

  /** Every horizontal shift is the even number 2 * (3 * row + col), so the
      12 shifts are the distinct even numbers 0 to 22. */
  lemma HorizontalShiftsAreFields(r1: nat, c1: nat, r2: nat, c2: nat)
    requires r1 < 4 && c1 < 3 && r2 < 4 && c2 < 3
    ensures HorizontalShift(r1, c1) == 2 * (3 * r1 + c1) <= 22
    ensures HorizontalShift(r1, c1) == HorizontalShift(r2, c2) <==> r1 == r2 && c1 == c2
  {
  }

  /** Every vertical shift is the even number 2 * (4 * row + col), so the
      12 shifts are the distinct even numbers 0 to 22. */
  lemma VerticalShiftsAreFields(r1: nat, c1: nat, r2: nat, c2: nat)
    requires r1 < 3 && c1 < 4 && r2 < 3 && c2 < 4
    ensures VerticalShift(r1, c1) == 2 * (4 * r1 + c1) <= 22
    ensures VerticalShift(r1, c1) == VerticalShift(r2, c2) <==> r1 == r2 && c1 == c2
  {
  }

  /** The four fields of each byte sit at bits 8j to 8j + 7 of the word. */
  lemma WordFieldsOfByte0(data: seq<bv8>)
    requires |data| >= 3
    ensures var w := Word24(data);
      PassageBits(w, 0) == TwoBitField(data[0], 0) && PassageBits(w, 2) == TwoBitField(data[0], 1) &&
      PassageBits(w, 4) == TwoBitField(data[0], 2) && PassageBits(w, 6) == TwoBitField(data[0], 3)
  {
  }

  lemma WordFieldsOfByte1(data: seq<bv8>)
    requires |data| >= 3
    ensures var w := Word24(data);
      PassageBits(w, 8) == TwoBitField(data[1], 0) && PassageBits(w, 10) == TwoBitField(data[1], 1) &&
      PassageBits(w, 12) == TwoBitField(data[1], 2) && PassageBits(w, 14) == TwoBitField(data[1], 3)
  {
  }

  lemma WordFieldsOfByte2(data: seq<bv8>)
    requires |data| >= 3
    ensures var w := Word24(data);
      PassageBits(w, 16) == TwoBitField(data[2], 0) && PassageBits(w, 18) == TwoBitField(data[2], 1) &&
      PassageBits(w, 20) == TwoBitField(data[2], 2) && PassageBits(w, 22) == TwoBitField(data[2], 3)
  {
  }

  /** Field k of the little-endian word is field k % 4 of byte k / 4. */
  lemma {:induction false} WordFields(data: seq<bv8>)
    requires |data| >= 3
    ensures forall k :: 0 <= k < 12 ==> PassageBits(Word24(data), 2 * k) == TwoBitField(data[k / 4], k % 4)
  {
    WordFieldsOfByte0(data);
    WordFieldsOfByte1(data);
    WordFieldsOfByte2(data);
    forall k | 0 <= k < 12
      ensures PassageBits(Word24(data), 2 * k) == TwoBitField(data[k / 4], k % 4)
    {
      if k == 0 { assert 2 * k == 0 && k / 4 == 0 && k % 4 == 0; }
      else if k == 1 { assert 2 * k == 2 && k / 4 == 0 && k % 4 == 1; }
      else if k == 2 { assert 2 * k == 4 && k / 4 == 0 && k % 4 == 2; }
      else if k == 3 { assert 2 * k == 6 && k / 4 == 0 && k % 4 == 3; }
      else if k == 4 { assert 2 * k == 8 && k / 4 == 1 && k % 4 == 0; }
      else if k == 5 { assert 2 * k == 10 && k / 4 == 1 && k % 4 == 1; }
      else if k == 6 { assert 2 * k == 12 && k / 4 == 1 && k % 4 == 2; }
      else if k == 7 { assert 2 * k == 14 && k / 4 == 1 && k % 4 == 3; }
      else if k == 8 { assert 2 * k == 16 && k / 4 == 2 && k % 4 == 0; }
      else if k == 9 { assert 2 * k == 18 && k / 4 == 2 && k % 4 == 1; }
      else if k == 10 { assert 2 * k == 20 && k / 4 == 2 && k % 4 == 2; }
      else { assert 2 * k == 22 && k / 4 == 2 && k % 4 == 3; }
    }
  }

  /** The reference reading of three bytes: 12 passages, four per byte,
      each byte's lowest two bits first. */
  function PassagesOfBytes(data: seq<bv8>): (p: seq<Passage>)
    requires |data| >= 3
    ensures |p| == 12
  {
    seq(12, k requires 0 <= k < 12 => PassageFrom(TwoBitField(data[k / 4], k % 4)))
  }

  /** Read row by row, the horizontal passages are the reference reading:
      each row of 3 continues where the previous one stopped, across byte
      boundaries. */
  lemma {:induction false} HorizontalPassagesOfBytes(data: seq<bv8>)
    requires |data| >= 3
    ensures ByRows(HorizontalPassages(data), 4, 3) == PassagesOfBytes(data)
  {
    WordFields(data);
    var h := HorizontalPassages(data);
    forall k | 0 <= k < 12
      ensures ByRows(h, 4, 3)[k] == PassagesOfBytes(data)[k]
    {
      var r, c := k / 3, k % 3;
      assert HorizontalShift(r, c) == 2 * k;
      assert ByRows(h, 4, 3)[k] == h[r][c] == PassageAt(Word24(data), 2 * k);
    }
  }

  /** Read row by row, the vertical passages are the reference reading:
      row r is exactly byte r. */
  lemma {:induction false} VerticalPassagesOfBytes(data: seq<bv8>)
    requires |data| >= 3
    ensures ByRows(VerticalPassages(data), 3, 4) == PassagesOfBytes(data)
  {
    WordFields(data);
    var v := VerticalPassages(data);
    forall k | 0 <= k < 12
      ensures ByRows(v, 3, 4)[k] == PassagesOfBytes(data)[k]
    {
      var r, c := k / 4, k % 4;
      assert VerticalShift(r, c) == 2 * k;
      assert ByRows(v, 3, 4)[k] == v[r][c] == PassageAt(Word24(data), 2 * k);
    }
  }

  /** Only the three bytes read matter. */
  lemma PassagesReadThreeBytes(a: seq<bv8>, b: seq<bv8>)
    requires |a| >= 3 && |b| >= 3 && a[..3] == b[..3]
    ensures HorizontalPassages(a) == HorizontalPassages(b)
    ensures VerticalPassages(a) == VerticalPassages(b)
  {
    assert a[0] == b[0] && a[1] == b[1] && a[2] == b[2] by {
      assert a[0] == a[..3][0] && a[1] == a[..3][1] && a[2] == a[..3][2];
    }
  }

  // ---------------------------------------------------------------------
  // Packing passages back into bytes
  // ---------------------------------------------------------------------

  /** The byte whose four two-bit fields are f0 (lowest) to f3 (highest). */
  function PackFields(f0: bv8, f1: bv8, f2: bv8, f3: bv8): bv8 {
    f0 | (f1 << 2) | (f2 << 4) | (f3 << 6)
  }

  lemma PackFieldsRoundTrip(f0: bv8, f1: bv8, f2: bv8, f3: bv8)
    requires f0 < 4 && f1 < 4 && f2 < 4 && f3 < 4
    ensures TwoBitField(PackFields(f0, f1, f2, f3), 0) == f0
    ensures TwoBitField(PackFields(f0, f1, f2, f3), 1) == f1
    ensures TwoBitField(PackFields(f0, f1, f2, f3), 2) == f2
    ensures TwoBitField(PackFields(f0, f1, f2, f3), 3) == f3
  {
  }

  /** Three bytes carrying the codes of 12 passages, 4 per byte, the first
      passage in the lowest bits. */
  function PackPassages(p: seq<Passage>): (data: seq<bv8>)
    requires |p| == 12
    ensures |data| == 3
  {
    [PackFields(PassageCode(p[0]), PassageCode(p[1]), PassageCode(p[2]), PassageCode(p[3])),
     PackFields(PassageCode(p[4]), PassageCode(p[5]), PassageCode(p[6]), PassageCode(p[7])),
     PackFields(PassageCode(p[8]), PassageCode(p[9]), PassageCode(p[10]), PassageCode(p[11]))]
  }

  /** Passage k of the packed bytes is the k-th passage packed. */
  lemma {:induction false} PackPassagesFields(p: seq<Passage>)
    requires |p| == 12
    ensures PassagesOfBytes(PackPassages(p)) == p
  {
    var data := PackPassages(p);
    forall k | 0 <= k < 12 {
      PassageCodeRoundTrip(p[k]);
    }
    PackFieldsRoundTrip(PassageCode(p[0]), PassageCode(p[1]), PassageCode(p[2]), PassageCode(p[3]));
    PackFieldsRoundTrip(PassageCode(p[4]), PassageCode(p[5]), PassageCode(p[6]), PassageCode(p[7]));
    PackFieldsRoundTrip(PassageCode(p[8]), PassageCode(p[9]), PassageCode(p[10]), PassageCode(p[11]));
    forall k | 0 <= k < 12
      ensures PassagesOfBytes(data)[k] == p[k]
    {
      if k == 0 { assert k / 4 == 0 && k % 4 == 0; }
      else if k == 1 { assert k / 4 == 0 && k % 4 == 1; }
      else if k == 2 { assert k / 4 == 0 && k % 4 == 2; }
      else if k == 3 { assert k / 4 == 0 && k % 4 == 3; }
      else if k == 4 { assert k / 4 == 1 && k % 4 == 0; }
      else if k == 5 { assert k / 4 == 1 && k % 4 == 1; }
      else if k == 6 { assert k / 4 == 1 && k % 4 == 2; }
      else if k == 7 { assert k / 4 == 1 && k % 4 == 3; }
      else if k == 8 { assert k / 4 == 2 && k % 4 == 0; }
      else if k == 9 { assert k / 4 == 2 && k % 4 == 1; }
      else if k == 10 { assert k / 4 == 2 && k % 4 == 2; }
      else { assert k / 4 == 2 && k % 4 == 3; }
    }
  }

  /** The bytes a horizontal grid is read from: its passages row by row. */
  function EncodeHorizontal(g: seq<seq<Passage>>): (data: seq<bv8>)
    requires IsGrid(g, 4, 3)
    ensures |data| == 3
  {
    PackPassages(ByRows(g, 4, 3))
  }

  /** The bytes a vertical grid is read from: its passages row by row. */
  function EncodeVertical(g: seq<seq<Passage>>): (data: seq<bv8>)
    requires IsGrid(g, 3, 4)
    ensures |data| == 3
  {
    PackPassages(ByRows(g, 3, 4))
  }

  /** Every horizontal grid is read back from its encoding. */
  lemma {:induction false} HorizontalRoundTrip(g: seq<seq<Passage>>)
    requires IsGrid(g, 4, 3)
    ensures HorizontalPassages(EncodeHorizontal(g)) == g
  {
    var data := EncodeHorizontal(g);
    HorizontalPassagesOfBytes(data);
    PackPassagesFields(ByRows(g, 4, 3));
    ByRowsInjective(HorizontalPassages(data), g, 4, 3);
  }

  /** Every vertical grid is read back from its encoding. */
  lemma {:induction false} VerticalRoundTrip(g: seq<seq<Passage>>)
    requires IsGrid(g, 3, 4)
    ensures VerticalPassages(EncodeVertical(g)) == g
  {
    var data := EncodeVertical(g);
    VerticalPassagesOfBytes(data);
    PackPassagesFields(ByRows(g, 3, 4));
    ByRowsInjective(VerticalPassages(data), g, 3, 4);
  }

  // ---------------------------------------------------------------------
  // Cells: nine 4-bit codes, high nibble first
  // ---------------------------------------------------------------------

  /** The high four bits of a byte. */
  function HighNibble(b: bv8): (n: bv8)
    ensures n < 16
  {
    (b >> 4) & 0x0F
  }

  /** The low four bits of a byte. */
  function LowNibble(b: bv8): (n: bv8)
    ensures n < 16
  {
    b & 0x0F
  }

  /** Nibble k of the data, reading each byte high half first: nibble 2i is
      the high half of byte i and nibble 2i+1 its low half. */
  function Nibble(data: seq<bv8>, k: nat): (n: bv8)
    requires k < 2 * |data|
    ensures n < 16
  {
    if k % 2 == 0 then HighNibble(data[k / 2]) else LowNibble(data[k / 2])
  }

  /** The item that nibble k of the data names. */
  function CellAt(data: seq<bv8>, k: nat): RadarItem
    requires k < 2 * |data|
  {
    RadarItemFrom(Nibble(data, k))
  }

  /** The 3 x 3 cells that five bytes describe: cell (row, col) is nibble
      3 * row + col. */
  function Cells(data: seq<bv8>): (g: seq<seq<RadarItem>>)
    requires |data| >= 5
    ensures IsGrid(g, 3, 3)
  {
    seq(3, r requires 0 <= r < 3 =>
      seq(3, c requires 0 <= c < 3 => CellAt(data, 3 * r + c)))
  }

  /** The first n cells of `g`, in row-major order, hold the items of the
      first n nibbles of the data. */
  predicate CellsPlaced(g: seq<seq<RadarItem>>, data: seq<bv8>, n: nat)
    requires |data| >= 5
  {
    IsGrid(g, 3, 3) &&
    forall r, c :: 0 <= r < 3 && 0 <= c < 3 && 3 * r + c < n ==> g[r][c] == CellAt(data, 3 * r + c)
  }

  /** Writing the item of nibble n into cell (n / 3, n % 3) places one more
      cell. */
  lemma PlaceCell(g: seq<seq<RadarItem>>, data: seq<bv8>, n: nat)
    requires |data| >= 5 && n < 9 && CellsPlaced(g, data, n)
    ensures n / 3 < 3 && n % 3 < 3
    ensures CellsPlaced(g[n / 3 := g[n / 3][n % 3 := CellAt(data, n)]], data, n + 1)
  {
    var row, col := n / 3, n % 3;
    assert 3 * row + col == n;
    var h := g[row := g[row][col := CellAt(data, n)]];
    forall r, c | 0 <= r < 3 && 0 <= c < 3 && 3 * r + c < n + 1
      ensures h[r][c] == CellAt(data, 3 * r + c)
    {
      if r != row || c != col {
        assert 3 * r + c != n;
      }
    }
  }

  /** A grid whose 9 cells are placed is the one the data describes. */
  lemma CellsComplete(g: seq<seq<RadarItem>>, data: seq<bv8>)
    requires |data| >= 5 && CellsPlaced(g, data, 9)
    ensures g == Cells(data)
  {
    var spec := Cells(data);
    assert forall r, c :: 0 <= r < 3 && 0 <= c < 3 ==> g[r][c] == spec[r][c];
    assert forall r :: 0 <= r < 3 ==> g[r] == spec[r];
  }

  /** `extract_cells`: walks the five bytes, placing the high then the low
      nibble of each in the next cell while fewer than 9 are placed. */
  method ExtractCells(data: seq<bv8>) returns (result: seq<seq<RadarItem>>)
    requires |data| >= 5
    ensures result == Cells(data)
  {
    result := Filled(3, 3, RadarItem.Undefined);
    var cellIndex := 0;
    for i := 0 to 5
      invariant cellIndex == if 2 * i < 9 then 2 * i else 9
      invariant CellsPlaced(result, data, cellIndex)
    {
      var byte := data[i];

      if cellIndex < 9 {
        assert cellIndex == 2 * i && Nibble(data, cellIndex) == HighNibble(byte);
        PlaceCell(result, data, cellIndex);
        var row := cellIndex / 3;
        var col := cellIndex % 3;
        result := result[row := result[row][col := RadarItemFrom((byte >> 4) & 0x0F)]];
        cellIndex := cellIndex + 1;
      }

      if cellIndex < 9 {
        assert cellIndex == 2 * i + 1 && Nibble(data, cellIndex) == LowNibble(byte);
        PlaceCell(result, data, cellIndex);
        var row := cellIndex / 3;
        var col := cellIndex % 3;
        result := result[row := result[row][col := RadarItemFrom(byte & 0x0F)]];
        cellIndex := cellIndex + 1;
      }
    }
    CellsComplete(result, data);
  }

  /** The items the first nine nibbles of the data name, in order. */
  function NibbleItems(data: seq<bv8>): (items: seq<RadarItem>)
    requires |data| >= 5
    ensures |items| == 9
  {
    seq(9, k requires 0 <= k < 9 => CellAt(data, k))
  }

  /** Read row by row, the cells are the items of nibbles 0 to 8: nibble k
      lands in cell (k / 3, k % 3). */
  lemma {:induction false} CellsInNibbleOrder(data: seq<bv8>)
    requires |data| >= 5
    ensures ByRows(Cells(data), 3, 3) == NibbleItems(data)
  {
    forall k | 0 <= k < 9
      ensures ByRows(Cells(data), 3, 3)[k] == NibbleItems(data)[k]
    {
      assert 3 * (k / 3) + k % 3 == k;
    }
  }

  /** Only the first nine nibbles matter: the low nibble of the fifth byte
      and every byte after it are ignored. */
  lemma CellsIgnoreLastNibble(a: seq<bv8>, b: seq<bv8>)
    requires |a| >= 5 && |b| >= 5
    requires a[..4] == b[..4] && HighNibble(a[4]) == HighNibble(b[4])
    ensures Cells(a) == Cells(b)
  {
    forall k | 0 <= k < 9
      ensures CellAt(a, k) == CellAt(b, k)
    {
      if k < 8 {
        assert a[k / 2] == a[..4][k / 2] && b[k / 2] == b[..4][k / 2];
      }
    }
    assert forall r, c :: 0 <= r < 3 && 0 <= c < 3 ==> Cells(a)[r][c] == Cells(b)[r][c];
    assert forall r :: 0 <= r < 3 ==> Cells(a)[r] == Cells(b)[r];
  }

  /** The byte whose high nibble is `high` and low nibble is `low`. */
  function PackNibbles(high: bv8, low: bv8): bv8 {
    (high << 4) | low
  }

  lemma PackNibblesRoundTrip(high: bv8, low: bv8)
    requires high < 16 && low < 16
    ensures HighNibble(PackNibbles(high, low)) == high
    ensures LowNibble(PackNibbles(high, low)) == low
  {
  }

  /** The two nibble reads cover all eight bits: a byte is its high nibble
      followed by its low nibble, so bytes with the same nibbles are equal. */
  lemma NibblesMakeByte(b: bv8, b': bv8)
    ensures PackNibbles(HighNibble(b), LowNibble(b)) == b
    ensures HighNibble(b) == HighNibble(b') && LowNibble(b) == LowNibble(b') ==> b == b'
  {
  }

  /** Five bytes carrying the codes of nine items, two per byte, high
      nibble first, the last low nibble zero. */
  function PackCells(items: seq<RadarItem>): (data: seq<bv8>)
    requires |items| == 9
    ensures |data| == 5
  {
    [PackNibbles(RadarItemCode(items[0]), RadarItemCode(items[1])),
     PackNibbles(RadarItemCode(items[2]), RadarItemCode(items[3])),
     PackNibbles(RadarItemCode(items[4]), RadarItemCode(items[5])),
     PackNibbles(RadarItemCode(items[6]), RadarItemCode(items[7])),
     PackNibbles(RadarItemCode(items[8]), 0)]
  }

  /** Nibble k of the packed bytes names the k-th item packed. */
  lemma {:induction false} PackCellsNibbles(items: seq<RadarItem>)
    requires |items| == 9
    ensures NibbleItems(PackCells(items)) == items
  {
    var data := PackCells(items);
    forall k | 0 <= k < 9 {
      RadarItemCodeRoundTrip(items[k]);
    }
    PackNibblesRoundTrip(RadarItemCode(items[0]), RadarItemCode(items[1]));
    PackNibblesRoundTrip(RadarItemCode(items[2]), RadarItemCode(items[3]));
    PackNibblesRoundTrip(RadarItemCode(items[4]), RadarItemCode(items[5]));
    PackNibblesRoundTrip(RadarItemCode(items[6]), RadarItemCode(items[7]));
    PackNibblesRoundTrip(RadarItemCode(items[8]), 0);
    forall k | 0 <= k < 9
      ensures NibbleItems(data)[k] == items[k]
    {
      if k == 0 { assert k / 2 == 0 && k % 2 == 0; }
      else if k == 1 { assert k / 2 == 0 && k % 2 == 1; }
      else if k == 2 { assert k / 2 == 1 && k % 2 == 0; }
      else if k == 3 { assert k / 2 == 1 && k % 2 == 1; }
      else if k == 4 { assert k / 2 == 2 && k % 2 == 0; }
      else if k == 5 { assert k / 2 == 2 && k % 2 == 1; }
      else if k == 6 { assert k / 2 == 3 && k % 2 == 0; }
      else if k == 7 { assert k / 2 == 3 && k % 2 == 1; }
      else { assert k / 2 == 4 && k % 2 == 0; }
    }
  }

  /** The bytes a cell grid is read from: its items row by row. */
  function EncodeCells(g: seq<seq<RadarItem>>): (data: seq<bv8>)
    requires IsGrid(g, 3, 3)
    ensures |data| == 5
  {
    PackCells(ByRows(g, 3, 3))
  }

  /** Every cell grid is read back from its encoding. */
  lemma {:induction false} CellsRoundTrip(g: seq<seq<RadarItem>>)
    requires IsGrid(g, 3, 3)
    ensures Cells(EncodeCells(g)) == g
  {
    var data := EncodeCells(g);
    CellsInNibbleOrder(data);
    PackCellsNibbles(ByRows(g, 3, 3));
    ByRowsInjective(Cells(data), g, 3, 3);
  }
}
