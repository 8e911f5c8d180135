/** The unpadded base64 variant of radar views: its alphabet (lower case
    first, then upper case, digits, `+` and `/`), the decoder with its own
    handling of 2- and 3-character tail groups, and an encoder used only to
    state the round trip. */
module Base64 {
  import opened DecodeErrors

  // ---------------------------------------------------------------------
  // Alphabet
  // ---------------------------------------------------------------------

  // ASCII codes: 'a' = 0x61, 'z' = 0x7A, 'A' = 0x41, 'Z' = 0x5A,
  // '0' = 0x30, '9' = 0x39, '+' = 0x2B, '/' = 0x2F.

  /** The byte of the character that stands for the 6-bit value `v`. */
  function ValueToByte(v: bv8): (c: byte)
    requires v < 64
  {
    if v < 26 then 0x61 + v
    else if v < 52 then 0x41 + (v - 26)
    else if v < 62 then 0x30 + (v - 52)
    else if v == 62 then 0x2B
    else 0x2F
  }

  /** `char_to_value`: the 6-bit value of an alphabet character, or an
      error naming the character; the inverse of ValueToByte. */
  function CharToValue(c: byte): (r: Result<bv8>)
    ensures r.Ok? ==> r.value < 64 && ValueToByte(r.value) == c
    ensures r.Err? ==> r == Err(InvalidCharacter(c))
  {
    if 0x61 <= c <= 0x7A then Ok(c - 0x61)
    else if 0x41 <= c <= 0x5A then Ok(c - 0x41 + 26)
    else if 0x30 <= c <= 0x39 then Ok(c - 0x30 + 52)
    else if c == 0x2B then Ok(62)
    else if c == 0x2F then Ok(63)
    else Err(InvalidCharacter(c))
  }

  predicate InAlphabet(c: byte) {
    CharToValue(c).Ok?
  }

  /** The value of a character; 0 for characters outside the alphabet,
      which no successful decode ever reads. */
  function Sextet(c: byte): (v: bv8)
    ensures v < 64
  {
    match CharToValue(c)
    case Ok(v) => v
    case Err(_) => 0
  }

  /** Every 6-bit value is decoded from its own character, so the map is a
      bijection between the 64 alphabet characters and 0..63. */
  lemma AlphabetRoundTrip(v: bv8)
    requires v < 64
    ensures CharToValue(ValueToByte(v)) == Ok(v)
  {
    var c := ValueToByte(v);
    if v < 26 {
      assert 0x61 <= c <= 0x7A;
    } else if v < 52 {
      assert 0x41 <= c <= 0x5A;
    } else if v < 62 {
      assert 0x30 <= c <= 0x39;
    }
  }

  /** The alphabet is exactly the 64 characters that ValueToByte produces. */
  lemma AlphabetIsImage(c: byte)
    ensures InAlphabet(c) <==> exists v: bv8 :: v < 64 && ValueToByte(v) == c
  {
    if InAlphabet(c) {
      assert ValueToByte(CharToValue(c).value) == c;
    }
  }

  /** Two alphabet characters with the same value are the same character. */
  lemma CharToValueInjective(c: byte, d: byte)
    requires InAlphabet(c) && InAlphabet(d)
    requires CharToValue(c) == CharToValue(d)
    ensures c == d
  {
  }

  // ---------------------------------------------------------------------
  // Decoder specification
  // ---------------------------------------------------------------------

  /** Number of bytes decoded from `n` characters: three per full group of
      four, then one for a 2-character tail and two for a 3-character tail. */
  function DecodedLength(n: nat): nat {
    3 * (n / 4) + (if n % 4 == 3 then 2 else if n % 4 == 2 then 1 else 0)
  }

  /** Index of the first character outside the alphabet, |s| if none. */
  function FirstInvalid(s: seq<byte>): (i: nat)
    ensures i <= |s|
  {
    if s == [] || !InAlphabet(s[0]) then 0 else 1 + FirstInvalid(s[1..])
  }

  /** Every character before FirstInvalid(s) is in the alphabet and the one
      at FirstInvalid(s), if any, is not. */
  lemma {:induction false} FirstInvalidIsFirst(s: seq<byte>)
    ensures forall j :: 0 <= j < FirstInvalid(s) ==> InAlphabet(s[j])
    ensures FirstInvalid(s) < |s| ==> !InAlphabet(s[FirstInvalid(s)])
  {
    if s != [] && InAlphabet(s[0]) {
      FirstInvalidIsFirst(s[1..]);
      forall j | 0 <= j < FirstInvalid(s) ensures InAlphabet(s[j]) {
        if j > 0 {
          assert s[j] == s[1..][j - 1];
        }
      }
    }
  }

  /** FirstInvalid(s) is the one index that the characters before it are
      all in the alphabet and the character at it is not (or it is |s|). */
  lemma FirstInvalidUnique(s: seq<byte>, i: nat)
    requires i <= |s|
    requires forall j :: 0 <= j < i ==> InAlphabet(s[j])
    requires i < |s| ==> !InAlphabet(s[i])
    ensures FirstInvalid(s) == i
  {
    FirstInvalidIsFirst(s);
  }

  /** The 6-bit values of the characters of `s`. */
  function Values(s: seq<byte>): seq<bv8> {
    seq(|s|, i requires 0 <= i < |s| => Sextet(s[i]))
  }

  /** First byte of a group: all six bits of v0, then the high two bits
      of v1. */
  function FirstByte(v0: bv8, v1: bv8): bv8 {
    (v0 << 2) | (v1 >> 4)
  }

  /** Second byte of a group: the low four bits of v1, then the high four
      bits of v2. */
  function SecondByte(v1: bv8, v2: bv8): bv8 {
    ((v1 & 0x0F) << 4) | (v2 >> 2)
  }

  /** Third byte of a group: the low two bits of v2, then v3. */
  function ThirdByte(v2: bv8, v3: bv8): bv8 {
    ((v2 & 0x03) << 6) | v3
  }

  /** The one to three bytes of a group of two to four values: a first
      byte always, a second when the group has a third value, a third when
      it has a fourth. */
  function GroupBytes(q: seq<bv8>): (bytes: seq<bv8>)
    requires 2 <= |q| <= 4
    ensures |bytes| == |q| - 1
  {
    if |q| == 2 then [FirstByte(q[0], q[1])]
    else if |q| == 3 then [FirstByte(q[0], q[1]), SecondByte(q[1], q[2])]
    else [FirstByte(q[0], q[1]), SecondByte(q[1], q[2]), ThirdByte(q[2], q[3])]
  }

  /** The bytes of consecutive groups of four values, in group order; a
      last group of one value (which the length check rules out) yields
      nothing. */
  function JoinGroups(vs: seq<bv8>): seq<bv8>
    decreases |vs|
  {
    if |vs| < 2 then []
    else if |vs| <= 4 then GroupBytes(vs)
    else GroupBytes(vs[..4]) + JoinGroups(vs[4..])
  }

  /** What `decode_b64` returns: a length error when the length is 1 modulo
      4 (whatever the characters), else an error naming the leftmost
      character outside the alphabet, else the bytes of every group in
      order. */
  function Decode(s: seq<byte>): Result<seq<bv8>> {
    if |s| % 4 == 1 then Err(InvalidLength)
    else if FirstInvalid(s) < |s| then Err(InvalidCharacter(s[FirstInvalid(s)]))
    else Ok(JoinGroups(Values(s)))
  }

  /** Joined groups yield DecodedLength bytes. */
  lemma {:induction false} JoinGroupsLength(vs: seq<bv8>)
    ensures |JoinGroups(vs)| == DecodedLength(|vs|)
    decreases |vs|
  {
    if |vs| > 4 {
      JoinGroupsLength(vs[4..]);
    }
  }

  /** Joining splits at any whole number of groups. */
  lemma {:induction false} JoinGroupsAppend(a: seq<bv8>, b: seq<bv8>)
    requires |a| % 4 == 0
    ensures JoinGroups(a + b) == JoinGroups(a) + JoinGroups(b)
    decreases |a|
  {
    if a == [] {
      assert a + b == b;
    } else if b == [] {
      assert a + b == a;
    } else {
      assert (a + b)[..4] == a[..4];
      assert (a + b)[4..] == a[4..] + b;
      JoinGroupsAppend(a[4..], b);
      if |a| == 4 {
        assert a[..4] == a;
        assert a[4..] == [];
      }
    }
  }

  // ---------------------------------------------------------------------
  // Decoder
  // ---------------------------------------------------------------------

  /** One more group of n values after 4g values adds that group's
      bytes to the output. */
  lemma GroupAppended(vs: seq<bv8>, g: nat, n: nat)
    requires 2 <= n <= 4 && 4 * g + n <= |vs|
    ensures JoinGroups(vs[..4 * g + n]) == JoinGroups(vs[..4 * g]) + GroupBytes(vs[4 * g..4 * g + n])
  {
    var i := 4 * g;
    assert vs[..i + n] == vs[..i] + vs[i..i + n];
    JoinGroupsAppend(vs[..i], vs[i..i + n]);
  }

  /** A length other than 1 modulo 4 leaves at least two characters for
      every group. */
  lemma GroupSizeAtLeastTwo(len: nat, g: nat)
    requires len % 4 != 1 && 4 * g < len
    ensures len - 4 * g >= 2
  {
  }

  /** Pushing the bytes of group g, whose n values are the first n of
      `values`, after the bytes of the groups before it gives the bytes of
      groups 0..g. */
  lemma GroupStep(vs: seq<bv8>, g: nat, n: nat, values: seq<bv8>, before: seq<bv8>, after: seq<bv8>)
    requires 2 <= n <= 4 && 4 * g + n <= |vs| && |values| == 4
    requires values[..n] == vs[4 * g .. 4 * g + n]
    requires before == JoinGroups(vs[..4 * g])
    requires after == before + [FirstByte(values[0], values[1])]
      + (if n >= 3 then [SecondByte(values[1], values[2])] else [])
      + (if n == 4 then [ThirdByte(values[2], values[3])] else [])
    ensures after == JoinGroups(vs[..4 * g + n])
  {
    assert after == before + GroupBytes(values[..n]);
    GroupAppended(vs, g, n);
  }

  /** The inner loop of `decode_b64`: the values of the n characters from
      position i, stopping at the first character outside the alphabet. */
  method GroupValues(encoded: seq<byte>, i: nat, n: nat) returns (r: Result<seq<bv8>>)
    requires i + n <= |encoded| && n <= 4
    requires i <= FirstInvalid(encoded)
    ensures r.Ok? ==>
      i + n <= FirstInvalid(encoded) && |r.value| == 4 &&
      r.value[..n] == Values(encoded)[i .. i + n]
    ensures r.Err? ==>
      FirstInvalid(encoded) < i + n &&
      r.error == InvalidCharacter(encoded[FirstInvalid(encoded)])
  {
    FirstInvalidIsFirst(encoded);
    var values: seq<bv8> := [0, 0, 0, 0];
    for j := 0 to n
      invariant |values| == 4
      invariant i + j <= FirstInvalid(encoded)
      invariant forall t :: 0 <= t < j ==> values[t] == Values(encoded)[i + t]
    {
      var v := CharToValue(encoded[i + j]);
      if v.Err? {
        assert FirstInvalid(encoded) == i + j;
        return Err(v.error);
      }
      values := values[j := v.value];
    }
    assert values[..n] == Values(encoded)[i .. i + n];
    return Ok(values);
  }

  /** `decode_b64`: walks the text in groups of at most four characters,
      decodes each group's characters left to right and appends the group's
      one to three bytes. */
  method DecodeB64(encoded: seq<byte>) returns (r: Result<seq<bv8>>)
    ensures r == Decode(encoded)
  {
    var len := |encoded|;
    if len % 4 == 1 {
      return Err(InvalidLength);
    }
    ghost var vs := Values(encoded);
    var result: seq<bv8> := [];
    var i := 0;
    ghost var g := 0;
    while i < len
      invariant 0 <= i <= len
      invariant i == 4 * g || i == len
      invariant i <= FirstInvalid(encoded)
      invariant result == JoinGroups(vs[..i])
    {
      assert i == 4 * g;
      var remaining := len - i;
      var groupSize := if remaining < 4 then remaining else 4;
      GroupSizeAtLeastTwo(len, g);
      var group := GroupValues(encoded, i, groupSize);
      if group.Err? {
        return Err(group.error);
      }
      var values := group.value;
      ghost var before := result;

      var byte1 := (values[0] << 2) | (values[1] >> 4);
      result := result + [byte1];

      if groupSize >= 3 {
        var byte2 := ((values[1] & 0x0F) << 4) | (values[2] >> 2);
        result := result + [byte2];
      }

      if groupSize >= 4 {
        var byte3 := ((values[2] & 0x03) << 6) | values[3];
        result := result + [byte3];
      }

      GroupStep(vs, g, groupSize, values, before, result);
      i := i + groupSize;
      g := g + 1;
    }
    assert vs[..len] == vs;
    r := Ok(result);
  }

  // ---------------------------------------------------------------------
  // Properties of the decoder
  // ---------------------------------------------------------------------

  /** The length check comes first: a length of 1 modulo 4 is reported as
      InvalidLength whatever the characters, and no other length is. */
  lemma DecodeLengthError(s: seq<byte>)
    ensures Decode(s) == Err(InvalidLength) <==> |s| % 4 == 1
  {
  }

  /** Past the length check, decoding fails on exactly one character: the
      leftmost one outside the alphabet, which the error names. */
  lemma {:induction false} DecodeCharacterError(s: seq<byte>, c: byte)
    ensures Decode(s) == Err(InvalidCharacter(c)) <==>
      |s| % 4 != 1 &&
      exists i :: 0 <= i < |s| && s[i] == c && !InAlphabet(c) &&
        forall j :: 0 <= j < i ==> InAlphabet(s[j])
  {
    if |s| % 4 != 1 {
      FirstInvalidIsFirst(s);
      var f := FirstInvalid(s);
      if f < |s| {
        assert s[f] == s[FirstInvalid(s)];
      }
      if exists i :: 0 <= i < |s| && s[i] == c && !InAlphabet(c) && forall j :: 0 <= j < i ==> InAlphabet(s[j]) {
        var i :| 0 <= i < |s| && s[i] == c && !InAlphabet(c) && forall j :: 0 <= j < i ==> InAlphabet(s[j]);
        FirstInvalidUnique(s, i);
      }
    }
  }

  /** Decoding succeeds exactly when the length is not 1 modulo 4 and every
      character is in the alphabet; it then yields 3 bytes per full group
      plus 0, 1 or 2 for a tail of 0, 2 or 3 characters. */
  lemma {:induction false} DecodeSuccess(s: seq<byte>)
    ensures Decode(s).Ok? <==> |s| % 4 != 1 && forall i :: 0 <= i < |s| ==> InAlphabet(s[i])
    ensures Decode(s).Ok? ==>
      |Decode(s).value| == 3 * (|s| / 4) + (if |s| % 4 == 0 then 0 else |s| % 4 - 1)
  {
    FirstInvalidIsFirst(s);
    if |s| % 4 != 1 && forall i :: 0 <= i < |s| ==> InAlphabet(s[i]) {
      FirstInvalidUnique(s, |s|);
    }
    JoinGroupsLength(Values(s));
  }

  /** The empty text decodes to no bytes. */
  lemma DecodeEmpty()
    ensures Decode([]) == Ok([])
  {
    assert FirstInvalid([]) == 0;
  }

  /** The output of values that start with a group of n values begins with
      that group's bytes. */
  lemma JoinGroupsHead(vs: seq<bv8>, n: nat)
    requires 2 <= n <= 4 && n <= |vs| && (n == 4 || n == |vs|)
    ensures n - 1 <= |JoinGroups(vs)|
    ensures JoinGroups(vs)[..n - 1] == GroupBytes(vs[..n])
  {
    if |vs| <= 4 {
      assert vs[..n] == vs;
    }
  }

  /** The output splits after the bytes of the first g groups, which are
      3g bytes. */
  lemma JoinGroupsSplit(vs: seq<bv8>, g: nat)
    requires 4 * g <= |vs|
    ensures JoinGroups(vs) == JoinGroups(vs[..4 * g]) + JoinGroups(vs[4 * g..])
    ensures |JoinGroups(vs[..4 * g])| == 3 * g
  {
    assert vs == vs[..4 * g] + vs[4 * g..];
    JoinGroupsAppend(vs[..4 * g], vs[4 * g..]);
    JoinGroupsLength(vs[..4 * g]);
  }

  /** Group g of the values (n = 4 of them, fewer for a short last group)
      yields bytes 3g .. 3g+n-2 of the joined output. */
  lemma {:induction false} JoinGroupsAt(vs: seq<bv8>, g: nat, n: nat)
    requires 2 <= n <= 4 && 4 * g + n <= |vs| && (n == 4 || 4 * g + n == |vs|)
    ensures 3 * g + n - 1 <= |JoinGroups(vs)|
    ensures JoinGroups(vs)[3 * g .. 3 * g + n - 1] == GroupBytes(vs[4 * g .. 4 * g + n])
  {
    var rest := vs[4 * g..];
    JoinGroupsSplit(vs, g);
    JoinGroupsHead(rest, n);
    assert rest[..n] == vs[4 * g .. 4 * g + n];
  }

  /** Group g (characters 4g .. 4g+n-1, with n = 4 except for a shorter
      last group) yields exactly bytes 3g .. 3g+n-2 of the output, and
      these depend on the group's own characters only. */
  lemma {:induction false} DecodeGroup(s: seq<byte>, g: nat)
    requires Decode(s).Ok?
    requires 4 * g + 2 <= |s|
    ensures var n := if |s| - 4 * g < 4 then |s| - 4 * g else 4;
      var out := Decode(s).value;
      3 * g + n - 1 <= |out| &&
      out[3 * g .. 3 * g + n - 1] == GroupBytes(Values(s)[4 * g .. 4 * g + n])
  {
    assert Decode(s).value == JoinGroups(Values(s));
    JoinGroupsAt(Values(s), g, if |s| - 4 * g < 4 then |s| - 4 * g else 4);
  }

  // ---------------------------------------------------------------------
  // Encoder (the inverse used to state the round trip)
  // ---------------------------------------------------------------------

  /** Number of characters for `n` bytes: four per full group of three,
      then 2 for one leftover byte and 3 for two; never 1 modulo 4. */
  function EncodedLength(n: nat): (m: nat)
    ensures m % 4 != 1
    ensures DecodedLength(m) == n
  {
    4 * (n / 3) + (if n % 3 == 2 then 3 else if n % 3 == 1 then 2 else 0)
  }

  /** The values of a group of bytes b0, b1, b2: the high six bits of
      b0; the low two bits of b0 and the high four of b1; the low four bits
      of b1 and the high two of b2; the low six bits of b2. */
  function FirstValue(b0: bv8): (v: bv8)
    ensures v < 64
  {
    b0 >> 2
  }

  function SecondValue(b0: bv8, b1: bv8): (v: bv8)
    ensures v < 64
  {
    ((b0 & 0x03) << 4) | (b1 >> 4)
  }

  function ThirdValue(b1: bv8, b2: bv8): (v: bv8)
    ensures v < 64
  {
    ((b1 & 0x0F) << 2) | (b2 >> 6)
  }

  function FourthValue(b2: bv8): (v: bv8)
    ensures v < 64
  {
    b2 & 0x3F
  }

  /** The two to four 6-bit values that encode a group of one to three
      bytes, missing bytes counting as 0. */
  function SplitGroup(t: seq<bv8>): (q: seq<bv8>)
    requires 1 <= |t| <= 3
    ensures |q| == |t| + 1
    ensures forall j :: 0 <= j < |q| ==> q[j] < 64
  {
    if |t| == 1 then [FirstValue(t[0]), SecondValue(t[0], 0)]
    else if |t| == 2 then [FirstValue(t[0]), SecondValue(t[0], t[1]), ThirdValue(t[1], 0)]
    else [FirstValue(t[0]), SecondValue(t[0], t[1]), ThirdValue(t[1], t[2]), FourthValue(t[2])]
  }

  /** Joining the values of three bytes with the group formulas gives the
      three bytes back. */
  lemma ValuesRoundTrip(b0: bv8, b1: bv8, b2: bv8)
    ensures FirstByte(FirstValue(b0), SecondValue(b0, b1)) == b0
    ensures SecondByte(SecondValue(b0, b1), ThirdValue(b1, b2)) == b1
    ensures ThirdByte(ThirdValue(b1, b2), FourthValue(b2)) == b2
  {
  }

  /** The 6-bit values that encode `b`, group by group. */
  function EncodedValues(b: seq<bv8>): (vs: seq<bv8>)
    ensures |vs| == EncodedLength(|b|)
    ensures forall j :: 0 <= j < |vs| ==> vs[j] < 64
    decreases |b|
  {
    if |b| == 0 then []
    else if |b| <= 3 then SplitGroup(b)
    else SplitGroup(b[..3]) + EncodedValues(b[3..])
  }

  /** The unpadded alphabet encoding of a byte sequence. */
  function Encode(b: seq<bv8>): (s: seq<byte>)
    ensures |s| == EncodedLength(|b|)
  {
    var vs := EncodedValues(b);
    seq(|vs|, j requires 0 <= j < |vs| => ValueToByte(vs[j]))
  }

  /** Joining the values that split a group gives the group back. */
  lemma GroupRoundTrip(t: seq<bv8>)
    requires 1 <= |t| <= 3
    ensures GroupBytes(SplitGroup(t)) == t
  {
    ValuesRoundTrip(t[0], if |t| >= 2 then t[1] else 0, if |t| == 3 then t[2] else 0);
  }

  /** Joining the groups of the encoded values gives the bytes back. */
  lemma {:induction false} JoinEncodedGroups(b: seq<bv8>)
    ensures JoinGroups(EncodedValues(b)) == b
    decreases |b|
  {
    if 1 <= |b| <= 3 {
      GroupRoundTrip(b);
    } else if |b| > 3 {
      var head := SplitGroup(b[..3]);
      JoinGroupsAppend(head, EncodedValues(b[3..]));
      GroupRoundTrip(b[..3]);
      JoinEncodedGroups(b[3..]);
      assert b == b[..3] + b[3..];
    }
  }

  /** Every character of an encoding is in the alphabet and decodes to the
      value it encodes. */
  lemma {:induction false} ValuesOfEncoding(b: seq<bv8>)
    ensures FirstInvalid(Encode(b)) == |Encode(b)|
    ensures Values(Encode(b)) == EncodedValues(b)
  {
    var s, vs := Encode(b), EncodedValues(b);
    forall j | 0 <= j < |s| ensures InAlphabet(s[j]) && Sextet(s[j]) == vs[j] {
      AlphabetRoundTrip(vs[j]);
    }
    FirstInvalidUnique(s, |s|);
  }

  /** Decoding the encoding of any byte sequence gives it back. */
  lemma {:induction false} DecodeEncode(b: seq<bv8>)
    ensures Decode(Encode(b)) == Ok(b)
  {
    ValuesOfEncoding(b);
    JoinEncodedGroups(b);
  }
}
