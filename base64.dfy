/** Base64 encoding and decoding with the standard alphabet and `=` padding of
    section 4 of RFC 4648, as the challenge-1 program implements them: a byte
    encoder that handles three bytes at a time, and a decoder that checks the
    length and the alphabet and reassembles the bytes. */
module Base64 {
  import opened Wrappers
  import opened ByteConversion

  /** BASE64_ENCODE_TABLE: the 64 characters in index order, entry by entry
      (EncodeTableLiteral spells it out). */
  const EncodeTable: seq<char> := AlphabetTable()

  function AlphabetTable(): (r: seq<char>)
    ensures |r| == 64 && forall i :: 0 <= i < 64 ==> r[i] == AlphabetChar(i)
  {
    seq(64, i requires 0 <= i < 64 => AlphabetChar(i))
  }

  /** The padding character. */
  const Pad: char := '='

  /** The alphabet of section 4 of RFC 4648 by ranges: 'A'..'Z' are 0..25,
      'a'..'z' are 26..51, '0'..'9' are 52..61, '+' is 62 and '/' is 63. */
  function AlphabetChar(i: nat): char
    requires i < 64
  {
    if i < 26 then ('A' as int + i) as char
    else if i < 52 then ('a' as int + (i - 26)) as char
    else if i < 62 then ('0' as int + (i - 52)) as char
    else if i == 62 then '+' else '/'
  }

  lemma EncodeTableAt(i: nat)
    requires i < 64
    ensures |EncodeTable| == 64 && EncodeTable[i] == AlphabetChar(i)
  {
  }

  /** The table is the source's literal: the upper-case letters, the
      lower-case letters, the digits, '+' and '/'. */
  lemma EncodeTableLiteral()
    ensures EncodeTable == "ABCDEFGHIJKLMNOPQRSTUVWXYZ" + "abcdefghijklmnopqrstuvwxyz" + "0123456789" + "+/"
  {
    var literal := "ABCDEFGHIJKLMNOPQRSTUVWXYZ" + "abcdefghijklmnopqrstuvwxyz" + "0123456789" + "+/";
    forall i | 0 <= i < 64 ensures EncodeTable[i] == literal[i] {
      LiteralAt(i);
    }
  }

  lemma LiteralAt(i: nat)
    requires i < 64
    ensures var literal := "ABCDEFGHIJKLMNOPQRSTUVWXYZ" + "abcdefghijklmnopqrstuvwxyz" + "0123456789" + "+/";
      |literal| == 64 && literal[i] == AlphabetChar(i)
  {
  }

  function AlphabetIndex(c: char): (r: Option<nat>)
    ensures r.Some? ==> r.value < 64 && AlphabetChar(r.value) == c
  {
    if 'A' <= c <= 'Z' then Some(c as int - 'A' as int)
    else if 'a' <= c <= 'z' then Some(c as int - 'a' as int + 26)
    else if '0' <= c <= '9' then Some(c as int - '0' as int + 52)
    else if c == '+' then Some(62)
    else if c == '/' then Some(63)
    else None
  }
  /** The 6-bit value of a character: its index in the table, or None for a
      character outside the alphabet. */
  function SextetOf(c: char): (r: Option<bv8>)
    ensures r.Some? ==> r.value < 64
  {
    match AlphabetIndex(c)
    case None => None
    case Some(i) => Some(i as bv8)
  }

  /** SextetOf is defined exactly on the table's characters and inverts it. */
  lemma SextetOfInverse(c: char)
    ensures SextetOf(c).Some? <==> c in EncodeTable
    ensures SextetOf(c).Some? ==> EncodeTable[SextetOf(c).value as int] == c
  {
    match AlphabetIndex(c)
    case None =>
      forall i | 0 <= i < |EncodeTable| ensures EncodeTable[i] != c {
        EncodeTableAt(i);
        AlphabetRoundTrip(i);
      }
    case Some(i) =>
      IntBv8RoundTrip(i);
      EncodeTableAt(i);
  }

  lemma AlphabetRoundTrip(i: nat)
    requires i < 64
    ensures AlphabetIndex(AlphabetChar(i)) == Some(i)
  {}
  lemma SextetOfTable(i: nat)
    requires i < 64
    ensures SextetOf(EncodeTable[i]) == Some(i as bv8)
  {
    EncodeTableAt(i);
    AlphabetRoundTrip(i);
  }

  /** The padding character is not in the alphabet and has no 6-bit value. */
  lemma PadNotInTable()
    ensures Pad !in EncodeTable && SextetOf(Pad).None?
  {
    SextetOfInverse(Pad);
  }

  // ---------------------------------------------------------------------------
  // Encoding
  // ---------------------------------------------------------------------------

  /** The four table indices of a three-byte group, exactly as `encode` slices them. */
  function FirstIndex(b0: bv8): (r: bv8)
    ensures r < 64
  {
    (b0 & 0xfc) >> 2
  }

  function SecondIndex(b0: bv8, b1: bv8): (r: bv8)
    ensures r < 64
  {
    ((b0 & 0x03) << 4) | ((b1 & 0xf0) >> 4)
  }

  function ThirdIndex(b1: bv8, b2: bv8): (r: bv8)
    ensures r < 64
  {
    ((b1 & 0x0f) << 2) | (b2 >> 6)
  }

  function FourthIndex(b2: bv8): (r: bv8)
    ensures r < 64
  {
    b2 & 0x3f
  }

  /** BASE64_ENCODE_TABLE[index]. */
  function TableChar(index: bv8): char
    requires index < 64
  {
    EncodeTable[index as int]
  }

  /** Reading a table character back gives its index. */
  lemma SextetOfTableChar(index: bv8)
    requires index < 64
    ensures SextetOf(TableChar(index)) == Some(index)
  {
    SextetOfTable(index as int);
    Bv8IntRoundTrip(index);
  }

  /** A full group: three bytes to four characters. */
  function EncodeGroup(b0: bv8, b1: bv8, b2: bv8): seq<char>
  {
    [TableChar(FirstIndex(b0)), TableChar(SecondIndex(b0, b1)),
     TableChar(ThirdIndex(b1, b2)), TableChar(FourthIndex(b2))]
  }

  /** Two trailing bytes: three characters and one `=`. */
  function EncodeTwo(b0: bv8, b1: bv8): seq<char>
  {
    [TableChar(FirstIndex(b0)), TableChar(SecondIndex(b0, b1)),
     TableChar((b1 & 0x0f) << 2), Pad]
  }

  /** One trailing byte: two characters and `==`. */
  function EncodeOne(b0: bv8): seq<char>
  {
    [TableChar(FirstIndex(b0)), TableChar((b0 & 0x03) << 4), Pad, Pad]
  }

  /** The reference encoding of a byte sequence of any length: full groups from
      the front, then the padded tail the remainder calls for. */
  function Encoding(bytes: seq<bv8>): seq<char>
    decreases |bytes|
  {
    if |bytes| == 0 then []
    else if |bytes| == 1 then EncodeOne(bytes[0])
    else if |bytes| == 2 then EncodeTwo(bytes[0], bytes[1])
    else EncodeGroup(bytes[0], bytes[1], bytes[2]) + Encoding(bytes[3..])
  }

  /** Number of `=` characters the encoding of `n` bytes ends in. */
  function PadCount(n: nat): nat
  {
    if n % 3 == 0 then 0 else 3 - n % 3
  }

  /** `encode`: the loop handles all but the last one to three bytes, the tail is
      handled by the remainder. For fewer than three bytes the loop bound
      `n - 3` underflows, so the source requires at least three. The final
      `assert!` that every byte was consumed is proved to hold. */
  method Encode(bytes: seq<bv8>) returns (encoded: seq<char>)
    requires |bytes| >= 3
    ensures encoded == Encoding(bytes)
    ensures |encoded| == 4 * ((|bytes| + 2) / 3)
  {
    var n := |bytes|;
    encoded := [];
    var i := 0;
    while i < n - 3
      invariant 0 <= i < n
      invariant encoded + Encoding(bytes[i..]) == Encoding(bytes)
    {
      EncodingAtGroup(bytes, i);
      var group := EncodeThreeBytes(bytes[i], bytes[i + 1], bytes[i + 2]);
      assert (encoded + group) + Encoding(bytes[i + 3..]) == encoded + (group + Encoding(bytes[i + 3..]));
      encoded := encoded + group;
      i := i + 3;
    }
    var group, consumed := EncodeTail(bytes, i);
    encoded := encoded + group;
    i := i + consumed;
    assert n - i == 0;
    EncodingLength(bytes);
  }

  /** The tail of `encode`: the last one, two or three bytes, by the number
      left; every one of them is consumed. */
  method EncodeTail(bytes: seq<bv8>, i: nat) returns (group: seq<char>, consumed: nat)
    requires i < |bytes| <= i + 3
    ensures group == Encoding(bytes[i..])
    ensures consumed == |bytes| - i
  {
    var n := |bytes|;
    consumed := 0;
    group := [];
    if n - i == 3 {
      EncodingAtGroup(bytes, i);
      group := EncodeThreeBytes(bytes[i], bytes[i + 1], bytes[i + 2]);
      assert bytes[i + 3..] == [];
      consumed := 3;
    } else if n - i == 2 {
      EncodingAtTwo(bytes, i);
      group := EncodeTwoBytes(bytes[i], bytes[i + 1]);
      consumed := 2;
    } else if n - i == 1 {
      EncodingAtOne(bytes, i);
      group := EncodeOneByte(bytes[i]);
      consumed := 1;
    }
  }

  /** The four pushes of a full group in `encode`, in the loop and in the tail. */
  method EncodeThreeBytes(b0: bv8, b1: bv8, b2: bv8) returns (group: seq<char>)
    ensures group == EncodeGroup(b0, b1, b2)
  {
    var first := (b0 & 0xfc) >> 2;
    var second := ((b0 & 0x03) << 4) | ((b1 & 0xf0) >> 4);
    var third := ((b1 & 0x0f) << 2) | (b2 >> 6);
    var fourth := b2 & 0x3f;
    group := [EncodeTable[first as int], EncodeTable[second as int],
              EncodeTable[third as int], EncodeTable[fourth as int]];
  }

  /** The pushes for two trailing bytes: three characters and `=`. */
  method EncodeTwoBytes(b0: bv8, b1: bv8) returns (group: seq<char>)
    ensures group == EncodeTwo(b0, b1)
  {
    var first := (b0 & 0xfc) >> 2;
    var second := ((b0 & 0x03) << 4) | ((b1 & 0xf0) >> 4);
    var third := (b1 & 0x0f) << 2;
    group := [EncodeTable[first as int], EncodeTable[second as int], EncodeTable[third as int], '='];
  }

  /** The pushes for one trailing byte: two characters and `==`. */
  method EncodeOneByte(b0: bv8) returns (group: seq<char>)
    ensures group == EncodeOne(b0)
  {
    var first := (b0 & 0xfc) >> 2;
    var second := (b0 & 0x03) << 4;
    group := [EncodeTable[first as int], EncodeTable[second as int], '=', '='];
  }

  /** Unfolds the reference encoding at a group boundary `i` with at least
      three bytes left, */
  lemma EncodingAtGroup(bytes: seq<bv8>, i: nat)
    requires i + 3 <= |bytes|
    ensures Encoding(bytes[i..]) == EncodeGroup(bytes[i], bytes[i + 1], bytes[i + 2]) + Encoding(bytes[i + 3..])
  {
    assert bytes[i..][3..] == bytes[i + 3..];
  }

  /** with exactly two left, */
  lemma EncodingAtTwo(bytes: seq<bv8>, i: nat)
    requires i + 2 == |bytes|
    ensures Encoding(bytes[i..]) == EncodeTwo(bytes[i], bytes[i + 1])
  {
  }

  /** and with exactly one left. */
  lemma EncodingAtOne(bytes: seq<bv8>, i: nat)
    requires i + 1 == |bytes|
    ensures Encoding(bytes[i..]) == EncodeOne(bytes[i])
  {
  }

  /** The encoding of three or more bytes: a full group, then the rest. */
  lemma EncodingCons(bytes: seq<bv8>)
    requires |bytes| >= 3
    ensures Encoding(bytes) == EncodeGroup(bytes[0], bytes[1], bytes[2]) + Encoding(bytes[3..])
  {
  }

  /** The encoding of exactly three bytes is one full group. */
  lemma EncodingOfThree(bytes: seq<bv8>)
    requires |bytes| == 3
    ensures Encoding(bytes) == EncodeGroup(bytes[0], bytes[1], bytes[2])
  {
    assert bytes[3..] == [];
    assert EncodeGroup(bytes[0], bytes[1], bytes[2]) + [] == EncodeGroup(bytes[0], bytes[1], bytes[2]);
  }

  /** The encoding of `n` bytes has 4 * ceil(n / 3) characters. */
  lemma {:induction false} EncodingLength(bytes: seq<bv8>)
    ensures |Encoding(bytes)| == 4 * ((|bytes| + 2) / 3)
    decreases |bytes|
  {
    if |bytes| >= 3 {
      EncodingLength(bytes[3..]);
    }
  }

  /** Shape of the encoding: all characters are from the alphabet except the
      last PadCount(n) ones, which are `=` -- none for n % 3 == 0, one for
      n % 3 == 2 and two for n % 3 == 1. */
  lemma EncodingShape(bytes: seq<bv8>)
    ensures var r := Encoding(bytes);
      |r| == 4 * ((|bytes| + 2) / 3) && PadCount(|bytes|) <= |r| &&
      (forall j :: 0 <= j < |r| - PadCount(|bytes|) ==> r[j] in EncodeTable) &&
      (forall j :: |r| - PadCount(|bytes|) <= j < |r| ==> r[j] == Pad)
  {
    EncodingLength(bytes);
    EncodingPadding(bytes);
  }

  /** The padding part of EncodingShape, by induction on the groups. */
  lemma {:induction false} EncodingPadding(bytes: seq<bv8>)
    ensures var r, p := Encoding(bytes), PadCount(|bytes|);
      p <= |r| &&
      (forall j :: 0 <= j < |r| - p ==> r[j] in EncodeTable) &&
      (forall j :: |r| - p <= j < |r| ==> r[j] == Pad)
    decreases |bytes|
  {
    if |bytes| >= 3 {
      EncodingPadding(bytes[3..]);
      DropThreeMod(|bytes|);
      EncodingPaddingStep(bytes);
    } else {
      EncodingPaddingTail(bytes);
    }
  }

  /** One full group in front keeps the shape of the rest. */
  lemma EncodingPaddingStep(bytes: seq<bv8>)
    requires |bytes| >= 3
    requires PadCount(|bytes|) == PadCount(|bytes| - 3)
    requires var r, p := Encoding(bytes[3..]), PadCount(|bytes| - 3);
      p <= |r| &&
      (forall j :: 0 <= j < |r| - p ==> r[j] in EncodeTable) &&
      (forall j :: |r| - p <= j < |r| ==> r[j] == Pad)
    ensures var r, p := Encoding(bytes), PadCount(|bytes|);
      p <= |r| &&
      (forall j :: 0 <= j < |r| - p ==> r[j] in EncodeTable) &&
      (forall j :: |r| - p <= j < |r| ==> r[j] == Pad)
  {
    var g := EncodeGroup(bytes[0], bytes[1], bytes[2]);
    var r, t, p := Encoding(bytes), Encoding(bytes[3..]), PadCount(|bytes|);
    assert r == g + t;
    forall j | 0 <= j < |r| - p ensures r[j] in EncodeTable {
      if j >= 4 { assert r[j] == t[j - 4]; }
    }
    forall j | |r| - p <= j < |r| ensures r[j] == Pad {
      assert r[j] == t[j - 4];
    }
  }

  /** The shape of the encodings of zero, one and two bytes. */
  lemma EncodingPaddingTail(bytes: seq<bv8>)
    requires |bytes| < 3
    ensures var r, p := Encoding(bytes), PadCount(|bytes|);
      p <= |r| &&
      (forall j :: 0 <= j < |r| - p ==> r[j] in EncodeTable) &&
      (forall j :: |r| - p <= j < |r| ==> r[j] == Pad)
  {
  }

  /** Every character of an encoding is in the 64-entry table or is `=`. */
  lemma EncodingAlphabet(bytes: seq<bv8>)
    ensures forall c :: c in Encoding(bytes) ==> c in EncodeTable || c == Pad
  {
    EncodingShape(bytes);
    var r := Encoding(bytes);
    forall c | c in r ensures c in EncodeTable || c == Pad {
      var j :| 0 <= j < |r| && r[j] == c;
    }
  }

  /** Group `k` of the encoding is EncodeGroup of bytes 3k, 3k+1 and 3k+2. */
  lemma {:induction false} EncodingGroupAt(bytes: seq<bv8>, k: nat)
    requires 3 * k + 3 <= |bytes|
    ensures 4 * k + 4 <= |Encoding(bytes)| &&
      Encoding(bytes)[4 * k..4 * k + 4] == EncodeGroup(bytes[3 * k], bytes[3 * k + 1], bytes[3 * k + 2])
    decreases k
  {
    EncodingLength(bytes);
    if k > 0 {
      EncodingLength(bytes[3..]);
      EncodingGroupAt(bytes[3..], k - 1);
      var g, t := EncodeGroup(bytes[0], bytes[1], bytes[2]), Encoding(bytes[3..]);
      assert Encoding(bytes) == g + t;
      assert (g + t)[4 * k..4 * k + 4] == t[4 * (k - 1)..4 * (k - 1) + 4];
    }
  }

  /** The four characters of a group carry the 24 bits of its three bytes, six
      bits each, most significant first. */
  lemma EncodeGroupBits(b0: bv8, b1: bv8, b2: bv8)
    ensures var g := EncodeGroup(b0, b1, b2);
      SextetOf(g[0]).Some? && SextetOf(g[1]).Some? && SextetOf(g[2]).Some? && SextetOf(g[3]).Some? &&
      var s0, s1, s2, s3 := SextetOf(g[0]).value, SextetOf(g[1]).value, SextetOf(g[2]).value, SextetOf(g[3]).value;
      ((s0 as bv24) << 18) | ((s1 as bv24) << 12) | ((s2 as bv24) << 6) | (s3 as bv24)
        == ((b0 as bv24) << 16) | ((b1 as bv24) << 8) | (b2 as bv24)
  {
    SextetOfTableChar(FirstIndex(b0));
    SextetOfTableChar(SecondIndex(b0, b1));
    SextetOfTableChar(ThirdIndex(b1, b2));
    SextetOfTableChar(FourthIndex(b2));
  }

  // ---------------------------------------------------------------------------
  // Decoding
  // ---------------------------------------------------------------------------

  /** Why `decode` rejects its input: the length is not a multiple of four, or
      a character is neither in the alphabet nor an allowed `=`. */
  datatype DecodeError = WrongLength | UnrecognisedChar(c: char)

  /** The three bytes reassembled from a group's four 6-bit values, exactly as
      `decode` ORs them together. */
  function FirstByte(v0: bv8, v1: bv8): bv8
  {
    ((v0 & 0x3f) << 2) | ((v1 & 0x30) >> 4)
  }

  function SecondByte(v1: bv8, v2: bv8): bv8
  {
    ((v1 & 0x0f) << 4) | ((v2 & 0x3c) >> 2)
  }

  function ThirdByte(v2: bv8, v3: bv8): bv8
  {
    ((v2 & 0x03) << 6) | (v3 & 0x3f)
  }

  /** The value of an optional sextet, 0 (nothing ORed in) when absent. */
  function ValueOrZero(v: Option<bv8>): bv8
  {
    if v.Some? then v.value else 0
  }

  /** A group other than the last, from its characters and their looked-up
      values (None for a character outside the alphabet): all four values must
      be present; the character of the first missing one is reported. */
  function GroupFromValues(c0: char, c1: char, c2: char, c3: char,
                           s0: Option<bv8>, s1: Option<bv8>, s2: Option<bv8>, s3: Option<bv8>)
    : Result<seq<bv8>, DecodeError>
  {
    if s0.None? then Err(UnrecognisedChar(c0))
    else if s1.None? then Err(UnrecognisedChar(c1))
    else if s2.None? then Err(UnrecognisedChar(c2))
    else if s3.None? then Err(UnrecognisedChar(c3))
    else Ok([FirstByte(s0.value, s1.value), SecondByte(s1.value, s2.value), ThirdByte(s2.value, s3.value)])
  }

  /** The last group: the third and fourth characters may also be `=`, which
      contributes no bits. The first two bytes are always produced; the third
      only when the third character is not `=`. */
  function FinalGroupFromValues(c0: char, c1: char, c2: char, c3: char,
                                s0: Option<bv8>, s1: Option<bv8>, s2: Option<bv8>, s3: Option<bv8>)
    : Result<seq<bv8>, DecodeError>
  {
    if s0.None? then Err(UnrecognisedChar(c0))
    else if s1.None? then Err(UnrecognisedChar(c1))
    else if s2.None? && c2 != Pad then Err(UnrecognisedChar(c2))
    else if s3.None? && c3 != Pad then Err(UnrecognisedChar(c3))
    else
      var v2, v3 := ValueOrZero(s2), ValueOrZero(s3);
      if c2 != Pad then Ok([FirstByte(s0.value, s1.value), SecondByte(s1.value, v2), ThirdByte(v2, v3)])
      else Ok([FirstByte(s0.value, s1.value), SecondByte(s1.value, v2)])
  }

  /** An inner group of characters decoded through SextetOf. */
  function DecodeGroup(c0: char, c1: char, c2: char, c3: char): Result<seq<bv8>, DecodeError>
  {
    GroupFromValues(c0, c1, c2, c3, SextetOf(c0), SextetOf(c1), SextetOf(c2), SextetOf(c3))
  }

  /** The last group of characters decoded through SextetOf. */
  function DecodeFinalGroup(c0: char, c1: char, c2: char, c3: char): Result<seq<bv8>, DecodeError>
  {
    FinalGroupFromValues(c0, c1, c2, c3, SextetOf(c0), SextetOf(c1), SextetOf(c2), SextetOf(c3))
  }

  /** `bytes` followed by the bytes of `r`, or the error of `r`. */
  function Prepend(bytes: seq<bv8>, r: Result<seq<bv8>, DecodeError>): Result<seq<bv8>, DecodeError>
  {
    if r.Ok? then Ok(bytes + r.value) else r
  }

  /** Prepending two runs of bytes is prepending their concatenation. */
  lemma PrependTwice(a: seq<bv8>, b: seq<bv8>, r: Result<seq<bv8>, DecodeError>)
    ensures Prepend(a + b, r) == Prepend(a, Prepend(b, r))
  {
    if r.Ok? {
      assert (a + b) + r.value == a + (b + r.value);
    }
  }

  /** The groups of a non-empty input whose length is a multiple of four, front to back. */
  function DecodeGroups(chars: seq<char>): Result<seq<bv8>, DecodeError>
    requires |chars| >= 4 && |chars| % 4 == 0
    decreases |chars|
  {
    if |chars| == 4 then DecodeFinalGroup(chars[0], chars[1], chars[2], chars[3])
    else
      NextMultipleOfFour(|chars|);
      var first := DecodeGroup(chars[0], chars[1], chars[2], chars[3]);
      if first.Err? then first else Prepend(first.value, DecodeGroups(chars[4..]))
  }

  /** After a multiple of four above four, another group of four follows. */
  lemma NextMultipleOfFour(n: int)
    requires n > 4 && n % 4 == 0
    ensures n >= 8 && (n - 4) % 4 == 0
  {
    var q := n / 4;
    assert n == 4 * q;
  }

  /** What `decode` returns on a non-empty input. */
  function Decoding(chars: seq<char>): Result<seq<bv8>, DecodeError>
    requires |chars| > 0
  {
    if |chars| % 4 != 0 then Err(WrongLength) else DecodeGroups(chars)
  }

  /** The loop that fills `base64_decode_map` from the table: afterwards it
      maps exactly the characters SextetOf is defined on, to their values. */
  method BuildDecodeMap() returns (decodeMap: map<char, bv8>)
    ensures IsDecodeMap(decodeMap)
  {
    decodeMap := map[];
    EncodeTableAt(0);
    for i := 0 to |EncodeTable|
      invariant DecodeMapUpTo(decodeMap, i)
    {
      DecodeMapInsert(decodeMap, i);
      decodeMap := decodeMap[EncodeTable[i] := i as bv8];
    }
  }

  /** The map after the first `i` insertions: the first `i` characters of the
      table, each to its index. */
  ghost predicate DecodeMapUpTo(decodeMap: map<char, bv8>, i: nat)
  {
    (forall c :: c in decodeMap <==> AlphabetIndex(c).Some? && AlphabetIndex(c).value < i) &&
    (forall c :: c in decodeMap ==> SextetOf(c) == Some(decodeMap[c]))
  }

  /** One insertion of the map-building loop. */
  lemma DecodeMapInsert(decodeMap: map<char, bv8>, i: nat)
    requires i < 64 && DecodeMapUpTo(decodeMap, i)
    ensures |EncodeTable| == 64 && DecodeMapUpTo(decodeMap[EncodeTable[i] := i as bv8], i + 1)
  {
    EncodeTableAt(i);
    AlphabetRoundTrip(i);
  }

  /** The map `decode` builds: exactly the characters SextetOf is defined on,
      each to its value. */
  ghost predicate IsDecodeMap(decodeMap: map<char, bv8>)
  {
    (forall c :: c in decodeMap <==> SextetOf(c).Some?) &&
    (forall c :: c in decodeMap ==> SextetOf(c) == Some(decodeMap[c]))
  }

  /** `base64_decode_map.get(&c)`. */
  function Lookup(decodeMap: map<char, bv8>, c: char): (r: Option<bv8>)
    requires IsDecodeMap(decodeMap)
    ensures r == SextetOf(c)
  {
    if c in decodeMap then Some(decodeMap[c]) else None
  }

  /** `decode`: rejects a length that is not a multiple of four, decodes every
      group but the last with all four characters required to be in the
      alphabet, and the last allowing `=` in its third and fourth places. For
      the empty input the loop bound `n - 4` underflows, so the source requires
      a non-empty input. */
  method Decode(chars: seq<char>) returns (r: Result<seq<bv8>, DecodeError>)
    requires |chars| > 0
    ensures r == Decoding(chars)
  {
    var n := |chars|;
    if n % 4 != 0 {
      return Err(WrongLength);
    }
    var decoded: seq<bv8> := [];
    var decodeMap := BuildDecodeMap();
    var i := 0;
    assert chars[0..] == chars;
    assert Prepend(decoded, DecodeGroups(chars)) == DecodeGroups(chars) by {
      if DecodeGroups(chars).Ok? { assert decoded + DecodeGroups(chars).value == DecodeGroups(chars).value; }
    }
    while i < n - 4
      invariant 0 <= i <= n - 4 && |chars[i..]| % 4 == 0
      invariant Prepend(decoded, DecodeGroups(chars[i..])) == DecodeGroups(chars)
    {
      DecodeGroupsNext(chars, i);
      var firstValue := Lookup(decodeMap, chars[i]);
      var secondValue := Lookup(decodeMap, chars[i + 1]);
      var thirdValue := Lookup(decodeMap, chars[i + 2]);
      var fourthValue := Lookup(decodeMap, chars[i + 3]);
      var group := DecodeInnerGroup(chars[i], chars[i + 1], chars[i + 2], chars[i + 3],
                                    firstValue, secondValue, thirdValue, fourthValue);
      if group.Err? {
        return group;
      }
      PrependTwice(decoded, group.value, DecodeGroups(chars[i + 4..]));
      decoded := decoded + group.value;
      i := i + 4;
    }
    DecodeGroupsFinal(chars, i);
    var firstValue := Lookup(decodeMap, chars[i]);
    var secondValue := Lookup(decodeMap, chars[i + 1]);
    var thirdValue := Lookup(decodeMap, chars[i + 2]);
    var fourthValue := Lookup(decodeMap, chars[i + 3]);
    var last := DecodeLastGroup(chars[i], chars[i + 1], chars[i + 2], chars[i + 3],
                                firstValue, secondValue, thirdValue, fourthValue);
    if last.Err? {
      return last;
    }
    return Ok(decoded + last.value);
  }

  /** The body of `decode`'s loop after the four lookups: ORs the values' bits
      into three bytes, failing on the first character the map lacks. */
  method DecodeInnerGroup(c0: char, c1: char, c2: char, c3: char,
      firstValue: Option<bv8>, secondValue: Option<bv8>, thirdValue: Option<bv8>, fourthValue: Option<bv8>)
    returns (r: Result<seq<bv8>, DecodeError>)
    ensures r == GroupFromValues(c0, c1, c2, c3, firstValue, secondValue, thirdValue, fourthValue)
  {
    var firstByte: bv8, secondByte: bv8, thirdByte: bv8 := 0x0, 0x0, 0x0;
    match firstValue {
      case Some(value) => firstByte := firstByte | ((value & 0x3f) << 2);
      case None => return Err(UnrecognisedChar(c0));
    }
    match secondValue {
      case Some(value) =>
        firstByte := firstByte | ((value & 0x30) >> 4);
        secondByte := secondByte | ((value & 0x0f) << 4);
      case None => return Err(UnrecognisedChar(c1));
    }
    match thirdValue {
      case Some(value) =>
        secondByte := secondByte | ((value & 0x3c) >> 2);
        thirdByte := thirdByte | ((value & 0x03) << 6);
      case None => return Err(UnrecognisedChar(c2));
    }
    match fourthValue {
      case Some(value) => thirdByte := thirdByte | (value & 0x3f);
      case None => return Err(UnrecognisedChar(c3));
    }
    return Ok([firstByte, secondByte, thirdByte]);
  }

  /** The code after `decode`'s loop and its lookups: as DecodeInnerGroup, except that a
      missing third or fourth character is accepted when it is `=`, and the
      third byte is kept only when the third character is not `=`. */
  method DecodeLastGroup(c0: char, c1: char, c2: char, c3: char,
      firstValue: Option<bv8>, secondValue: Option<bv8>, thirdValue: Option<bv8>, fourthValue: Option<bv8>)
    returns (r: Result<seq<bv8>, DecodeError>)
    ensures r == FinalGroupFromValues(c0, c1, c2, c3, firstValue, secondValue, thirdValue, fourthValue)
  {
    var firstByte: bv8, secondByte: bv8, thirdByte: bv8 := 0x0, 0x0, 0x0;
    match firstValue {
      case Some(value) => firstByte := firstByte | ((value & 0x3f) << 2);
      case None => return Err(UnrecognisedChar(c0));
    }
    match secondValue {
      case Some(value) =>
        firstByte := firstByte | ((value & 0x30) >> 4);
        secondByte := secondByte | ((value & 0x0f) << 4);
      case None => return Err(UnrecognisedChar(c1));
    }
    assert firstByte == FirstByte(firstValue.value, secondValue.value);
    assert secondByte == (secondValue.value & 0x0f) << 4;
    match thirdValue {
      case Some(value) =>
        secondByte := secondByte | ((value & 0x3c) >> 2);
        thirdByte := thirdByte | ((value & 0x03) << 6);
      case None =>
        if c2 != '=' {
          return Err(UnrecognisedChar(c2));
        }
    }
    assert secondByte == SecondByte(secondValue.value, ValueOrZero(thirdValue));
    assert thirdByte == (ValueOrZero(thirdValue) & 0x03) << 6;
    match fourthValue {
      case Some(value) => thirdByte := thirdByte | (value & 0x3f);
      case None =>
        if c3 != '=' {
          return Err(UnrecognisedChar(c3));
        }
    }
    assert thirdByte == ThirdByte(ValueOrZero(thirdValue), ValueOrZero(fourthValue));
    var bytes := [firstByte, secondByte];
    if c2 != '=' {
      bytes := bytes + [thirdByte];
      assert bytes == [firstByte, secondByte, thirdByte];
    }
    FinalGroupAccepted(c0, c1, c2, c3, firstValue, secondValue, thirdValue, fourthValue);
    return Ok(bytes);
  }

  /** The bytes of a last group whose values are all there or allowed `=`. */
  lemma FinalGroupAccepted(c0: char, c1: char, c2: char, c3: char,
                           s0: Option<bv8>, s1: Option<bv8>, s2: Option<bv8>, s3: Option<bv8>)
    requires s0.Some? && s1.Some? && (s2.Some? || c2 == Pad) && (s3.Some? || c3 == Pad)
    ensures var v2, v3 := ValueOrZero(s2), ValueOrZero(s3);
      FinalGroupFromValues(c0, c1, c2, c3, s0, s1, s2, s3)
        == Ok(if c2 != Pad then [FirstByte(s0.value, s1.value), SecondByte(s1.value, v2), ThirdByte(v2, v3)]
              else [FirstByte(s0.value, s1.value), SecondByte(s1.value, v2)])
  {
  }

  /** Unfolds DecodeGroups when the last group starts at `i`. */
  lemma DecodeGroupsFinal(chars: seq<char>, i: nat)
    requires i + 4 == |chars|
    ensures DecodeGroups(chars[i..]) == DecodeFinalGroup(chars[i], chars[i + 1], chars[i + 2], chars[i + 3])
  {
    var rest := chars[i..];
    assert rest[0] == chars[i] && rest[1] == chars[i + 1] && rest[2] == chars[i + 2] && rest[3] == chars[i + 3];
  }

  /** Unfolds DecodeGroups at an inner group starting at `i`. */
  lemma DecodeGroupsNext(chars: seq<char>, i: nat)
    requires i + 4 < |chars| && |chars[i..]| % 4 == 0
    ensures |chars[i + 4..]| >= 4 && |chars[i + 4..]| % 4 == 0
    ensures DecodeGroups(chars[i..]) ==
      var first := DecodeGroup(chars[i], chars[i + 1], chars[i + 2], chars[i + 3]);
      if first.Err? then first else Prepend(first.value, DecodeGroups(chars[i + 4..]))
  {
    var rest := chars[i..];
    NextMultipleOfFour(|rest|);
    assert rest[0] == chars[i] && rest[1] == chars[i + 1] && rest[2] == chars[i + 2] && rest[3] == chars[i + 3];
    assert rest[4..] == chars[i + 4..];
  }

  // ---------------------------------------------------------------------------
  // Properties of decoding
  // ---------------------------------------------------------------------------

  /** Reassembling the indices of a group gives back its bytes; the bits
      that pad a short last group are zero. */
  lemma IndexBytesRoundTrip(b0: bv8, b1: bv8, b2: bv8)
    ensures FirstByte(FirstIndex(b0), SecondIndex(b0, b1)) == b0
    ensures SecondByte(SecondIndex(b0, b1), ThirdIndex(b1, b2)) == b1
    ensures ThirdByte(ThirdIndex(b1, b2), FourthIndex(b2)) == b2
    ensures SecondByte(SecondIndex(b0, b1), (b1 & 0x0f) << 2) == b1
    ensures ThirdByte((b1 & 0x0f) << 2, 0) == 0
    ensures FirstByte(FirstIndex(b0), (b0 & 0x03) << 4) == b0
    ensures SecondByte((b0 & 0x03) << 4, 0) == 0
  {
  }

  /** A full group decodes back to its three bytes, as an inner group and as the last one. */
  lemma DecodeEncodedGroup(b0: bv8, b1: bv8, b2: bv8)
    ensures var g := EncodeGroup(b0, b1, b2);
      DecodeGroup(g[0], g[1], g[2], g[3]) == Ok([b0, b1, b2]) &&
      DecodeFinalGroup(g[0], g[1], g[2], g[3]) == Ok([b0, b1, b2])
  {
    var g := EncodeGroup(b0, b1, b2);
    var i0, i1, i2, i3 := FirstIndex(b0), SecondIndex(b0, b1), ThirdIndex(b1, b2), FourthIndex(b2);
    SextetOfTableChar(i0);
    SextetOfTableChar(i1);
    SextetOfTableChar(i2);
    SextetOfTableChar(i3);
    assert SextetOf(g[0]) == Some(i0) && SextetOf(g[1]) == Some(i1);
    assert SextetOf(g[2]) == Some(i2) && SextetOf(g[3]) == Some(i3);
    assert g[2] != Pad by { assert SextetOf(Pad).None?; }
    IndexBytesRoundTrip(b0, b1, b2);
    assert GroupFromValues(g[0], g[1], g[2], g[3], Some(i0), Some(i1), Some(i2), Some(i3))
      == Ok([FirstByte(i0, i1), SecondByte(i1, i2), ThirdByte(i2, i3)]);
    assert DecodeGroup(g[0], g[1], g[2], g[3]) == Ok([b0, b1, b2]);
    assert FinalGroupFromValues(g[0], g[1], g[2], g[3], Some(i0), Some(i1), Some(i2), Some(i3))
      == Ok([FirstByte(i0, i1), SecondByte(i1, i2), ThirdByte(i2, i3)]);
  }

  /** Two trailing bytes, encoded with one `=`, decode to three bytes: the
      third character is not `=`, so the third byte is kept, and it is zero. */
  lemma DecodeEncodedTwo(b0: bv8, b1: bv8)
    ensures var g := EncodeTwo(b0, b1);
      DecodeFinalGroup(g[0], g[1], g[2], g[3]) == Ok([b0, b1, 0])
  {
    var g := EncodeTwo(b0, b1);
    var i0, i1, i2 := FirstIndex(b0), SecondIndex(b0, b1), (b1 & 0x0f) << 2;
    SextetOfTableChar(i0);
    SextetOfTableChar(i1);
    SextetOfTableChar(i2);
    assert SextetOf(g[0]) == Some(i0) && SextetOf(g[1]) == Some(i1) && SextetOf(g[2]) == Some(i2);
    PadNotInTable();
    assert g[2] != Pad && g[3] == Pad && SextetOf(g[3]) == None;
    IndexBytesRoundTrip(b0, b1, 0);
  }

  /** One trailing byte, encoded with `==`, decodes to two bytes: the second
      byte is always kept, and it is zero. */
  lemma DecodeEncodedOne(b0: bv8)
    ensures var g := EncodeOne(b0);
      DecodeFinalGroup(g[0], g[1], g[2], g[3]) == Ok([b0, 0])
  {
    var g := EncodeOne(b0);
    var i0, i1 := FirstIndex(b0), (b0 & 0x03) << 4;
    SextetOfTableChar(i0);
    SextetOfTableChar(i1);
    assert SextetOf(g[0]) == Some(i0) && SextetOf(g[1]) == Some(i1);
    PadNotInTable();
    assert g[2] == Pad && g[3] == Pad;
    IndexBytesRoundTrip(b0, 0, 0);
  }

  /** DecodeGroups on an inner group of four followed by more groups. */
  lemma DecodeGroupsCons(g: seq<char>, t: seq<char>)
    requires |g| == 4 && |t| >= 4 && |t| % 4 == 0
    ensures |g + t| % 4 == 0
    ensures DecodeGroups(g + t) ==
      var first := DecodeGroup(g[0], g[1], g[2], g[3]);
      if first.Err? then first else Prepend(first.value, DecodeGroups(t))
  {
    var e := g + t;
    assert |e| == 4 + |t|;
    NextMultipleOfFour(|e|);
    assert e[4..] == t;
    assert e[0] == g[0] && e[1] == g[1] && e[2] == g[2] && e[3] == g[3];
  }

  /** DecodeGroups on an inner group that decodes to `head`, followed by
      groups that decode to `tail`. */
  lemma DecodeGroupsConsOk(g: seq<char>, t: seq<char>, head: seq<bv8>, tail: seq<bv8>)
    requires |g| == 4 && |t| >= 4 && |t| % 4 == 0
    requires DecodeGroup(g[0], g[1], g[2], g[3]) == Ok(head)
    requires DecodeGroups(t) == Ok(tail)
    ensures |g + t| % 4 == 0 && DecodeGroups(g + t) == Ok(head + tail)
  {
    DecodeGroupsCons(g, t);
  }

  lemma DropThreeMod(n: nat)
    requires n >= 3
    ensures (n - 3) % 3 == n % 3
  {
    var q, r := (n - 3) / 3, (n - 3) % 3;
    assert n == 3 * (q + 1) + r;
  }

  /** The bytes `decode` recovers from the encoding of `bytes`: the bytes
      themselves, followed by one zero byte when the last group is padded. */
  function DecodedEncoding(bytes: seq<bv8>): seq<bv8>
  {
    if |bytes| % 3 == 0 then bytes else bytes + [0]
  }

  /** The encodings of one, two and three bytes are single groups. */
  lemma DecodeGroupsOfOneByte(bytes: seq<bv8>)
    requires |bytes| == 1
    ensures |Encoding(bytes)| == 4 && DecodeGroups(Encoding(bytes)) == Ok(DecodedEncoding(bytes))
  {
    DecodeEncodedOne(bytes[0]);
    assert bytes + [0] == [bytes[0], 0];
  }

  lemma DecodeGroupsOfTwoBytes(bytes: seq<bv8>)
    requires |bytes| == 2
    ensures |Encoding(bytes)| == 4 && DecodeGroups(Encoding(bytes)) == Ok(DecodedEncoding(bytes))
  {
    DecodeEncodedTwo(bytes[0], bytes[1]);
    assert bytes + [0] == [bytes[0], bytes[1], 0];
  }

  lemma DecodeGroupsOfThreeBytes(bytes: seq<bv8>)
    requires |bytes| == 3
    ensures |Encoding(bytes)| == 4 && DecodeGroups(Encoding(bytes)) == Ok(DecodedEncoding(bytes))
  {
    DecodeEncodedGroup(bytes[0], bytes[1], bytes[2]);
    EncodingOfThree(bytes);
    assert bytes == [bytes[0], bytes[1], bytes[2]];
  }

  lemma {:induction false} DecodeGroupsOfEncoding(bytes: seq<bv8>)
    requires |bytes| > 0
    ensures |Encoding(bytes)| >= 4 && |Encoding(bytes)| % 4 == 0
    ensures DecodeGroups(Encoding(bytes)) == Ok(DecodedEncoding(bytes))
    decreases |bytes|
  {
    if |bytes| == 1 {
      DecodeGroupsOfOneByte(bytes);
    } else if |bytes| == 2 {
      DecodeGroupsOfTwoBytes(bytes);
    } else if |bytes| == 3 {
      DecodeGroupsOfThreeBytes(bytes);
    } else {
      DecodeGroupsOfEncoding(bytes[3..]);
      DecodeGroupsOfLongerEncoding(bytes);
    }
  }

  /** One inductive step of DecodeGroupsOfEncoding. */
  lemma DecodeGroupsOfLongerEncoding(bytes: seq<bv8>)
    requires |bytes| > 3
    requires |Encoding(bytes[3..])| >= 4 && |Encoding(bytes[3..])| % 4 == 0
    requires DecodeGroups(Encoding(bytes[3..])) == Ok(DecodedEncoding(bytes[3..]))
    ensures |Encoding(bytes)| >= 4 && |Encoding(bytes)| % 4 == 0
    ensures DecodeGroups(Encoding(bytes)) == Ok(DecodedEncoding(bytes))
  {
    var head := [bytes[0], bytes[1], bytes[2]];
    DecodedEncodingCons(bytes);
    DecodeEncodedGroup(bytes[0], bytes[1], bytes[2]);
    EncodingCons(bytes);
    DecodeGroupsConsOk(EncodeGroup(bytes[0], bytes[1], bytes[2]), Encoding(bytes[3..]), head, DecodedEncoding(bytes[3..]));
  }

  /** The recovered bytes of a longer input: its first three bytes, then those
      of the rest. */
  lemma DecodedEncodingCons(bytes: seq<bv8>)
    requires |bytes| > 3
    ensures [bytes[0], bytes[1], bytes[2]] + DecodedEncoding(bytes[3..]) == DecodedEncoding(bytes)
  {
    var head := [bytes[0], bytes[1], bytes[2]];
    DropThreeMod(|bytes|);
    assert head + bytes[3..] == bytes;
    assert head + (bytes[3..] + [0]) == bytes + [0];
  }

  /** What `decode` makes of what `encode` produced: the bytes themselves when
      their number is a multiple of three, and otherwise the bytes followed by
      one zero byte, which the source keeps from the padded last group. */
  lemma DecodeAfterEncode(bytes: seq<bv8>)
    requires |bytes| > 0
    ensures |Encoding(bytes)| > 0
    ensures Decoding(Encoding(bytes)) == Ok(if |bytes| % 3 == 0 then bytes else bytes + [0])
  {
    DecodeGroupsOfEncoding(bytes);
  }

  /** Position `j` holds a character `decode` rejects: one outside the
      alphabet that is not a `=` in one of the last two places. */
  predicate Rejected(chars: seq<char>, j: nat)
    requires j < |chars|
  {
    SextetOf(chars[j]).None? && (j + 2 < |chars| || chars[j] != Pad)
  }

  /** No position in [lo, hi) is rejected. */
  predicate NoneRejected(chars: seq<char>, lo: nat, hi: nat)
    requires hi <= |chars|
  {
    forall j :: lo <= j < hi ==> !Rejected(chars, j)
  }

  /** The last group is decoded exactly when none of its positions is rejected. */
  lemma FinalGroupAcceptance(chars: seq<char>)
    requires |chars| == 4
    ensures DecodeGroups(chars).Ok? <==> NoneRejected(chars, 0, 4)
  {
    if NoneRejected(chars, 0, 4) {
      assert !Rejected(chars, 0) && !Rejected(chars, 1) && !Rejected(chars, 2) && !Rejected(chars, 3);
    }
  }

  /** DecodeGroups unfolded once on an input of more than one group. */
  lemma DecodeGroupsUnfold(chars: seq<char>)
    requires |chars| > 4 && |chars| % 4 == 0
    ensures |chars[4..]| >= 4 && |chars[4..]| % 4 == 0
    ensures DecodeGroups(chars) ==
      var first := DecodeGroup(chars[0], chars[1], chars[2], chars[3]);
      if first.Err? then first else Prepend(first.value, DecodeGroups(chars[4..]))
  {
    NextMultipleOfFour(|chars|);
  }

  /** An inner group is decoded exactly when all four characters are in the alphabet. */
  lemma DecodeGroupAcceptance(c0: char, c1: char, c2: char, c3: char)
    ensures DecodeGroup(c0, c1, c2, c3).Ok? <==>
      SextetOf(c0).Some? && SextetOf(c1).Some? && SextetOf(c2).Some? && SextetOf(c3).Some?
  {
  }

  /** In the first group of an input of more than one group, every character
      outside the alphabet is rejected. */
  lemma FirstGroupRejected(chars: seq<char>)
    requires |chars| >= 8
    ensures NoneRejected(chars, 0, 4) <==>
      SextetOf(chars[0]).Some? && SextetOf(chars[1]).Some? && SextetOf(chars[2]).Some? && SextetOf(chars[3]).Some?
  {
    if NoneRejected(chars, 0, 4) {
      assert !Rejected(chars, 0) && !Rejected(chars, 1) && !Rejected(chars, 2) && !Rejected(chars, 3);
    }
  }

  /** An inner group: the input is decoded exactly when none of the group's
      positions is rejected and the rest is decoded. */
  lemma InnerGroupAcceptance(chars: seq<char>)
    requires |chars| > 4 && |chars| % 4 == 0
    ensures |chars[4..]| >= 4 && |chars[4..]| % 4 == 0
    ensures DecodeGroups(chars).Ok? <==> NoneRejected(chars, 0, 4) && DecodeGroups(chars[4..]).Ok?
  {
    DecodeGroupsUnfold(chars);
    DecodeGroupAcceptance(chars[0], chars[1], chars[2], chars[3]);
    FirstGroupRejected(chars);
  }

  /** Rejection at a position past the first group is rejection in the rest. */
  lemma RejectedShift(chars: seq<char>, j: nat)
    requires |chars| >= 8 && j + 4 < |chars|
    ensures Rejected(chars[4..], j) == Rejected(chars, j + 4)
  {
  }

  /** Rejection past the first group is rejection in the rest of the input. */
  lemma NoneRejectedShift(chars: seq<char>, hi: nat)
    requires |chars| >= 8 && 4 <= hi <= |chars|
    ensures NoneRejected(chars, 4, hi) <==> NoneRejected(chars[4..], 0, hi - 4)
  {
    var rest := chars[4..];
    if NoneRejected(chars, 4, hi) {
      forall j | 0 <= j < hi - 4 ensures !Rejected(rest, j) {
        RejectedShift(chars, j);
      }
    }
    if NoneRejected(rest, 0, hi - 4) {
      forall j | 4 <= j < hi ensures !Rejected(chars, j) {
        RejectedShift(chars, j - 4);
      }
    }
  }

  /** `decode` accepts a well-sized input exactly when it rejects no position. */
  lemma {:induction false} DecodeGroupsAcceptance(chars: seq<char>)
    requires |chars| >= 4 && |chars| % 4 == 0
    ensures DecodeGroups(chars).Ok? <==> NoneRejected(chars, 0, |chars|)
    decreases |chars|
  {
    if |chars| == 4 {
      FinalGroupAcceptance(chars);
    } else {
      InnerGroupAcceptance(chars);
      DecodeGroupsAcceptance(chars[4..]);
      NoneRejectedShift(chars, |chars|);
      assert NoneRejected(chars, 0, |chars|) <==> NoneRejected(chars, 0, 4) && NoneRejected(chars, 4, |chars|);
    }
  }

  /** The character at position `j` is the first one `decode` rejects. */
  predicate FirstRejected(chars: seq<char>, j: nat)
    requires j < |chars|
  {
    Rejected(chars, j) && NoneRejected(chars, 0, j)
  }

  /** A last group that fails names its first rejected character. */
  lemma FinalGroupFirstError(chars: seq<char>)
    requires |chars| == 4 && DecodeGroups(chars).Err?
    ensures exists j :: 0 <= j < 4 && FirstRejected(chars, j) && DecodeGroups(chars).error == UnrecognisedChar(chars[j])
  {
    var s0, s1, s2 := SextetOf(chars[0]), SextetOf(chars[1]), SextetOf(chars[2]);
    if s0.None? {
      assert FirstRejected(chars, 0);
    } else if s1.None? {
      assert FirstRejected(chars, 1);
    } else if s2.None? && chars[2] != Pad {
      assert FirstRejected(chars, 2);
    } else {
      assert !Rejected(chars, 2);
      assert FirstRejected(chars, 3);
    }
  }

  /** An inner group that fails names its first character outside the alphabet. */
  lemma InnerGroupFirstError(chars: seq<char>)
    requires |chars| >= 8 && DecodeGroup(chars[0], chars[1], chars[2], chars[3]).Err?
    ensures exists j :: (0 <= j < 4 && FirstRejected(chars, j) &&
      DecodeGroup(chars[0], chars[1], chars[2], chars[3]).error == UnrecognisedChar(chars[j]))
  {
    var s0, s1, s2 := SextetOf(chars[0]), SextetOf(chars[1]), SextetOf(chars[2]);
    if s0.None? {
      assert FirstRejected(chars, 0);
    } else if s1.None? {
      assert FirstRejected(chars, 1);
    } else if s2.None? {
      assert FirstRejected(chars, 2);
    } else {
      assert FirstRejected(chars, 3);
    }
  }

  /** When `decode` fails on a well-sized input it names the character at the
      first rejected position. */
  lemma {:induction false} DecodeGroupsFirstError(chars: seq<char>)
    requires |chars| >= 4 && |chars| % 4 == 0 && DecodeGroups(chars).Err?
    ensures exists j :: 0 <= j < |chars| && FirstRejected(chars, j) && DecodeGroups(chars).error == UnrecognisedChar(chars[j])
    decreases |chars|
  {
    if |chars| == 4 {
      FinalGroupFirstError(chars);
    } else {
      DecodeGroupsUnfold(chars);
      var first := DecodeGroup(chars[0], chars[1], chars[2], chars[3]);
      if first.Err? {
        InnerGroupFirstError(chars);
      } else {
        var rest := chars[4..];
        DecodeGroupsFirstError(rest);
        var k :| 0 <= k < |rest| && FirstRejected(rest, k) && DecodeGroups(rest).error == UnrecognisedChar(rest[k]);
        DecodeGroupAcceptance(chars[0], chars[1], chars[2], chars[3]);
        FirstGroupRejected(chars);
        NoneRejectedShift(chars, k + 4);
        RejectedShift(chars, k);
        assert NoneRejected(chars, 0, k + 4) by {
          assert NoneRejected(chars, 0, 4) && NoneRejected(chars, 4, k + 4);
        }
        assert FirstRejected(chars, k + 4);
      }
    }
  }

  /** One more group of four is one more quarter of the length. */
  lemma QuarterStep(n: nat)
    requires n > 4 && n % 4 == 0
    ensures (n - 4) / 4 == n / 4 - 1
  {
    var q := n / 4;
    assert n == 4 * q;
  }

  /** A decoded input of g groups has 3g bytes, one fewer when its
      second-to-last character is `=`. */
  lemma {:induction false} DecodeGroupsLength(chars: seq<char>)
    requires |chars| >= 4 && |chars| % 4 == 0 && DecodeGroups(chars).Ok?
    ensures |DecodeGroups(chars).value| == 3 * (|chars| / 4) - (if chars[|chars| - 2] == Pad then 1 else 0)
    decreases |chars|
  {
    if |chars| > 4 {
      DecodeGroupsUnfold(chars);
      var rest := chars[4..];
      DecodeGroupsLength(rest);
      QuarterStep(|chars|);
      assert rest[|rest| - 2] == chars[|chars| - 2];
    }
  }

  /** `decode` on a non-empty input: a length that is not a multiple of four
      is rejected with WrongLength; otherwise the input is accepted exactly
      when no position is rejected, a failure names the character at the
      first rejected position, and a success has three bytes per group, one
      fewer when the second-to-last character is `=`. */
  lemma DecodingOutcome(chars: seq<char>)
    requires |chars| > 0
    ensures |chars| % 4 != 0 ==> Decoding(chars) == Err(WrongLength)
    ensures |chars| % 4 == 0 ==> (Decoding(chars).Ok? <==> NoneRejected(chars, 0, |chars|))
    ensures |chars| % 4 == 0 && Decoding(chars).Err? ==>
      exists j :: 0 <= j < |chars| && FirstRejected(chars, j) && Decoding(chars).error == UnrecognisedChar(chars[j])
    ensures Decoding(chars).Ok? ==>
      |chars| >= 4 && |Decoding(chars).value| == 3 * (|chars| / 4) - (if chars[|chars| - 2] == Pad then 1 else 0)
  {
    if |chars| % 4 == 0 {
      DecodeGroupsAcceptance(chars);
      if Decoding(chars).Err? {
        DecodeGroupsFirstError(chars);
      } else {
        DecodeGroupsLength(chars);
      }
    }
  }

  /** The encoding of "Man" followed by "M" ends in the padded group "TQ==",
      and `decode` turns it back into five bytes: the four that were encoded
      and a zero byte that was not. */
  lemma PaddedRoundTripExample()
    ensures Encoding([0x4d, 0x61, 0x6e, 0x4d]) == "TWFuTQ=="
    ensures Decoding("TWFuTQ==") == Ok([0x4d, 0x61, 0x6e, 0x4d, 0x00])
  {
    var bytes: seq<bv8> := [0x4d, 0x61, 0x6e, 0x4d];
    assert bytes[3..] == [0x4d];
    EncodeTableAt(19);
    EncodeTableAt(22);
    EncodeTableAt(5);
    EncodeTableAt(46);
    EncodeTableAt(16);
    assert Encoding(bytes) == "TWFuTQ==";
    DecodeAfterEncode(bytes);
    assert bytes + [0] == [0x4d, 0x61, 0x6e, 0x4d, 0x00];
  }

  // ---------------------------------------------------------------------------
  // Strict decoding: the last group as section 4 of RFC 4648 reads it
  // ---------------------------------------------------------------------------

  /** The last group read strictly: "xxxx" gives three bytes, "xxx=" two and
      "xx==" one; a `=` anywhere else is rejected like any character outside
      the alphabet. */
  function StrictFinalGroup(c0: char, c1: char, c2: char, c3: char): Result<seq<bv8>, DecodeError>
  {
    var s0, s1, s2, s3 := SextetOf(c0), SextetOf(c1), SextetOf(c2), SextetOf(c3);
    if s0.None? then Err(UnrecognisedChar(c0))
    else if s1.None? then Err(UnrecognisedChar(c1))
    else if c2 == Pad && c3 == Pad then Ok([FirstByte(s0.value, s1.value)])
    else if s2.None? then Err(UnrecognisedChar(c2))
    else if c3 == Pad then Ok([FirstByte(s0.value, s1.value), SecondByte(s1.value, s2.value)])
    else if s3.None? then Err(UnrecognisedChar(c3))
    else Ok([FirstByte(s0.value, s1.value), SecondByte(s1.value, s2.value), ThirdByte(s2.value, s3.value)])
  }

  /** The groups of a non-empty, well-sized input, the last read strictly. */
  function StrictDecodeGroups(chars: seq<char>): Result<seq<bv8>, DecodeError>
    requires |chars| >= 4 && |chars| % 4 == 0
    decreases |chars|
  {
    if |chars| == 4 then StrictFinalGroup(chars[0], chars[1], chars[2], chars[3])
    else
      NextMultipleOfFour(|chars|);
      var first := DecodeGroup(chars[0], chars[1], chars[2], chars[3]);
      if first.Err? then first else Prepend(first.value, StrictDecodeGroups(chars[4..]))
  }

  /** The decoder the round trip calls for: the empty input decodes to no
      bytes, and a padded last group yields only the bytes it encodes. */
  function StrictDecoding(chars: seq<char>): Result<seq<bv8>, DecodeError>
  {
    if |chars| == 0 then Ok([])
    else if |chars| % 4 != 0 then Err(WrongLength)
    else StrictDecodeGroups(chars)
  }

  lemma StrictDecodeEncodedTail(b0: bv8, b1: bv8, b2: bv8)
    ensures var g := EncodeGroup(b0, b1, b2);
      StrictFinalGroup(g[0], g[1], g[2], g[3]) == Ok([b0, b1, b2])
    ensures var g := EncodeTwo(b0, b1);
      StrictFinalGroup(g[0], g[1], g[2], g[3]) == Ok([b0, b1])
    ensures var g := EncodeOne(b0);
      StrictFinalGroup(g[0], g[1], g[2], g[3]) == Ok([b0])
  {
    SextetOfTableChar(FirstIndex(b0));
    SextetOfTableChar(SecondIndex(b0, b1));
    SextetOfTableChar(ThirdIndex(b1, b2));
    SextetOfTableChar(FourthIndex(b2));
    SextetOfTableChar((b1 & 0x0f) << 2);
    SextetOfTableChar((b0 & 0x03) << 4);
    assert SextetOf(Pad).None?;
    IndexBytesRoundTrip(b0, b1, b2);
  }

  /** StrictDecodeGroups unfolded once on an input of more than one group. */
  lemma StrictDecodeGroupsUnfold(chars: seq<char>)
    requires |chars| > 4 && |chars| % 4 == 0
    ensures |chars[4..]| >= 4 && |chars[4..]| % 4 == 0
    ensures StrictDecodeGroups(chars) ==
      var first := DecodeGroup(chars[0], chars[1], chars[2], chars[3]);
      if first.Err? then first else Prepend(first.value, StrictDecodeGroups(chars[4..]))
  {
    NextMultipleOfFour(|chars|);
  }

  /** StrictDecodeGroups on an inner group followed by more groups. */
  lemma StrictDecodeGroupsConsOk(g: seq<char>, t: seq<char>, head: seq<bv8>, tail: seq<bv8>)
    requires |g| == 4 && |t| >= 4 && |t| % 4 == 0
    requires DecodeGroup(g[0], g[1], g[2], g[3]) == Ok(head)
    requires StrictDecodeGroups(t) == Ok(tail)
    ensures |g + t| % 4 == 0 && StrictDecodeGroups(g + t) == Ok(head + tail)
  {
    StrictDecodeGroupsCons(g, t);
  }

  lemma StrictDecodeGroupsCons(g: seq<char>, t: seq<char>)
    requires |g| == 4 && |t| >= 4 && |t| % 4 == 0
    ensures |g + t| % 4 == 0
    ensures StrictDecodeGroups(g + t) ==
      var first := DecodeGroup(g[0], g[1], g[2], g[3]);
      if first.Err? then first else Prepend(first.value, StrictDecodeGroups(t))
  {
    var e := g + t;
    assert |e| == 4 + |t|;
    NextMultipleOfFour(|e|);
    assert e[4..] == t;
    assert e[0] == g[0] && e[1] == g[1] && e[2] == g[2] && e[3] == g[3];
  }

  /** The strict reading of the encoding of one, two and three bytes. */
  lemma StrictDecodeOneByte(bytes: seq<bv8>)
    requires |bytes| == 1
    ensures |Encoding(bytes)| == 4 && StrictDecodeGroups(Encoding(bytes)) == Ok(bytes)
  {
    StrictDecodeEncodedTail(bytes[0], 0, 0);
    assert bytes == [bytes[0]];
  }

  lemma StrictDecodeTwoBytes(bytes: seq<bv8>)
    requires |bytes| == 2
    ensures |Encoding(bytes)| == 4 && StrictDecodeGroups(Encoding(bytes)) == Ok(bytes)
  {
    StrictDecodeEncodedTail(bytes[0], bytes[1], 0);
    assert bytes == [bytes[0], bytes[1]];
  }

  lemma StrictDecodeThreeBytes(bytes: seq<bv8>)
    requires |bytes| == 3
    ensures |Encoding(bytes)| == 4 && StrictDecodeGroups(Encoding(bytes)) == Ok(bytes)
  {
    StrictDecodeEncodedTail(bytes[0], bytes[1], bytes[2]);
    EncodingOfThree(bytes);
    assert bytes == [bytes[0], bytes[1], bytes[2]];
  }

  lemma {:induction false} StrictDecodeGroupsOfEncoding(bytes: seq<bv8>)
    requires |bytes| > 0
    ensures |Encoding(bytes)| >= 4 && |Encoding(bytes)| % 4 == 0
    ensures StrictDecodeGroups(Encoding(bytes)) == Ok(bytes)
    decreases |bytes|
  {
    if |bytes| == 1 {
      StrictDecodeOneByte(bytes);
    } else if |bytes| == 2 {
      StrictDecodeTwoBytes(bytes);
    } else if |bytes| == 3 {
      StrictDecodeThreeBytes(bytes);
    } else {
      StrictDecodeGroupsOfEncoding(bytes[3..]);
      StrictDecodeLongerEncoding(bytes);
    }
  }

  /** One inductive step of StrictDecodeGroupsOfEncoding. */
  lemma StrictDecodeLongerEncoding(bytes: seq<bv8>)
    requires |bytes| > 3
    requires |Encoding(bytes[3..])| >= 4 && |Encoding(bytes[3..])| % 4 == 0
    requires StrictDecodeGroups(Encoding(bytes[3..])) == Ok(bytes[3..])
    ensures |Encoding(bytes)| >= 4 && |Encoding(bytes)| % 4 == 0
    ensures StrictDecodeGroups(Encoding(bytes)) == Ok(bytes)
  {
    var head := [bytes[0], bytes[1], bytes[2]];
    assert head + bytes[3..] == bytes;
    DecodeEncodedGroup(bytes[0], bytes[1], bytes[2]);
    EncodingCons(bytes);
    StrictDecodeGroupsConsOk(EncodeGroup(bytes[0], bytes[1], bytes[2]), Encoding(bytes[3..]), head, bytes[3..]);
  }

  /** Strict decoding inverts the encoding for every byte sequence. */
  lemma StrictDecodeAfterEncode(bytes: seq<bv8>)
    ensures StrictDecoding(Encoding(bytes)) == Ok(bytes)
  {
    if |bytes| > 0 {
      StrictDecodeGroupsOfEncoding(bytes);
    }
  }

  /** The two decoders agree on inputs of at least two characters whose last
      two characters are not `=`. */
  lemma {:induction false} StrictAgreesUnpadded(chars: seq<char>)
    requires |chars| >= 2 && chars[|chars| - 2] != Pad && chars[|chars| - 1] != Pad
    ensures StrictDecoding(chars) == Decoding(chars)
  {
    if |chars| % 4 == 0 {
      StrictAgreesUnpaddedGroups(chars);
    }
  }

  lemma {:induction false} StrictAgreesUnpaddedGroups(chars: seq<char>)
    requires |chars| >= 4 && |chars| % 4 == 0 && chars[|chars| - 2] != Pad && chars[|chars| - 1] != Pad
    ensures StrictDecodeGroups(chars) == DecodeGroups(chars)
    decreases |chars|
  {
    if |chars| > 4 {
      DecodeGroupsUnfold(chars);
      StrictDecodeGroupsUnfold(chars);
      var rest := chars[4..];
      assert rest[|rest| - 2] == chars[|chars| - 2] && rest[|rest| - 1] == chars[|chars| - 1];
      StrictAgreesUnpaddedGroups(rest);
    }
  }
}
