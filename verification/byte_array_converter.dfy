/**
 * `ByteArrayConverter`: bytes to hex strings and back, and four bytes to an
 * `int` and back. Each conversion is stated as a function on values, and
 * the loops that build the array or the string are methods proved to
 * compute it.
 */
module ByteArrayConversion {
  import opened JavaTypes
  import opened Results
  import opened Lists
  import opened JavaStrings

  /**
   * `byteToHex`: `Integer.toHexString(0xff & b)`, with a zero in front
   * when that is a single digit: two lower-case hex digits worth the
   * unsigned value of `b`.
   */
  function ByteToHex(b: byte): (s: string)
    ensures |s| == 2 && AllDigitsOf(s, 16)
    ensures RadixValue(s, 16) == Unsigned(b)
    ensures forall i | 0 <= i < |s| :: !('A' <= s[i] <= 'Z')
  {
    var result := ToRadixString(Unsigned(b), 16);
    RadixStringLength(Unsigned(b), 16);
    RadixStringValue(Unsigned(b), 16);
    if |result| == 1 then
      LeadingZero(result, 16);
      "0" + result
    else
      result
  }

  /** `parseInt(hex, 16)` of what `byteToHex` writes gives back the unsigned value, and the cast gives back the byte. */
  lemma ParseByteToHex(b: byte)
    ensures ParseInt(ByteToHex(b), 16) == Ok(Unsigned(b) as int32)
    ensures ToByte(Unsigned(b)) == b
  {
    var s := ByteToHex(b);
    assert s[0..] == s;
    assert IsDigitOf(s[0], 16);
    UnsignedToByte(b);
  }

  /** `byteToHex` of each byte, in order. */
  function HexStrings(bytes: seq<byte>): (r: seq<string>)
    ensures |r| == |bytes| && forall i | 0 <= i < |bytes| :: r[i] == ByteToHex(bytes[i])
    decreases |bytes|
  {
    if bytes == [] then [] else HexStrings(bytes[..|bytes| - 1]) + [ByteToHex(bytes[|bytes| - 1])]
  }

  /**
   * The hex of `bytes` as `byteArrayToHex` writes it: each byte's two
   * digits, separated by single spaces when `includeSpace`.
   */
  function HexOf(bytes: seq<byte>, includeSpace: bool): string
  {
    if bytes == [] then ""
    else if includeSpace then Join(HexStrings(bytes), ' ')
    else Concat(HexStrings(bytes))
  }

  /** Writing one more byte appends a space, when spaced and not first, and its two digits. */
  lemma HexOfAppend(bytes: seq<byte>, b: byte, includeSpace: bool)
    ensures HexOf(bytes + [b], includeSpace) ==
              HexOf(bytes, includeSpace) + (if includeSpace && bytes != [] then " " else "") + ByteToHex(b)
  {
    var all := bytes + [b];
    assert all[..|all| - 1] == bytes;
    var hexes := HexStrings(bytes);
    assert HexStrings(all) == hexes + [ByteToHex(b)];
    if bytes == [] {
      assert HexStrings(all) == [ByteToHex(b)];
      ConcatLast([ByteToHex(b)]);
    } else if includeSpace {
      JoinAppend(hexes, ByteToHex(b), ' ');
    } else {
      assert (hexes + [ByteToHex(b)])[..|hexes|] == hexes;
      ConcatLast(hexes + [ByteToHex(b)]);
    }
  }

  /** Two characters per byte, and one space between neighbours when spaced. */
  lemma {:induction false} HexLength(bytes: seq<byte>, includeSpace: bool)
    ensures |HexOf(bytes, includeSpace)| == if bytes == [] then 0 else if includeSpace then 3 * |bytes| - 1 else 2 * |bytes|
    decreases |bytes|
  {
    if bytes != [] {
      var init := bytes[..|bytes| - 1];
      HexLength(init, includeSpace);
      HexOfSlice(bytes, 0, |bytes| - 1, includeSpace);
      assert bytes[0..|bytes|] == bytes && bytes[0..|bytes| - 1] == init;
    }
  }

  /** Writing the bytes of `bytes[from..to + 1]` is writing those of `bytes[from..to]` and then `bytes[to]`. */
  lemma HexOfSlice(bytes: seq<byte>, from: nat, to: nat, includeSpace: bool)
    requires from <= to < |bytes|
    ensures HexOf(bytes[from..to + 1], includeSpace) ==
              HexOf(bytes[from..to], includeSpace) + (if includeSpace && from < to then " " else "") + ByteToHex(bytes[to])
  {
    assert bytes[from..to + 1] == bytes[from..to] + [bytes[to]];
    HexOfAppend(bytes[from..to], bytes[to], includeSpace);
  }

  /** The two characters of `s` from place `2 * i` on. */
  function Pair(s: string, i: nat): string
    requires 2 * i + 2 <= |s|
  {
    s[2 * i..2 * i + 2]
  }

  /** The first `count` two-character pieces of `hex`: `hex.substring(2 * i, 2 * i + 2)` for each `i`. */
  function Pairs(hex: string, count: nat): (r: seq<string>)
    requires 2 * count <= |hex|
    ensures |r| == count && forall i | 0 <= i < count :: r[i] == Pair(hex, i)
    decreases count
  {
    if count == 0 then [] else Pairs(hex, count - 1) + [Pair(hex, count - 1)]
  }

  /** Characters after the first `count` pairs do not change them. */
  lemma {:induction false} PairsOfPrefix(prefix: string, rest: string, count: nat)
    requires 2 * count <= |prefix|
    ensures Pairs(prefix + rest, count) == Pairs(prefix, count)
    decreases count
  {
    if count > 0 {
      PairsOfPrefix(prefix, rest, count - 1);
      assert Pair(prefix + rest, count - 1) == Pair(prefix, count - 1);
    }
  }

  /** Two-character strings written one after the other are read back pair by pair. */
  lemma {:induction false} PairsOfConcat(ss: seq<string>)
    requires forall i | 0 <= i < |ss| :: |ss[i]| == 2
    ensures |Concat(ss)| == 2 * |ss| && Pairs(Concat(ss), |ss|) == ss
    decreases |ss|
  {
    if ss != [] {
      var init, last := ss[..|ss| - 1], ss[|ss| - 1];
      PairsOfConcat(init);
      var prefix := Concat(init);
      ConcatLast(ss);
      PairsOfPrefix(prefix, last, |init|);
      assert Pair(prefix + last, |init|) == last;
      InitLast(ss);
    }
  }

  /** A non-empty sequence is its front followed by its last element. */
  lemma InitLast(ss: seq<string>)
    requires ss != []
    ensures ss == ss[..|ss| - 1] + [ss[|ss| - 1]]
  {
  }

  /**
   * Each token parsed in base 16 and cast to a byte, in order; the first
   * token that does not parse throws `NumberFormatException`.
   */
  function ParseHexBytes(tokens: seq<string>): (r: Result<seq<byte>>)
    ensures r.Ok? <==> forall i {:trigger ParseInt(tokens[i], 16)} | 0 <= i < |tokens| :: ParseInt(tokens[i], 16).Ok?
    ensures r.Ok? ==> |r.value| == |tokens| &&
                      forall i {:trigger r.value[i]} | 0 <= i < |tokens| :: r.value[i] == ToByte(ParseInt(tokens[i], 16).value as int)
    ensures r.Err? ==> r.error == NumberFormat
    decreases |tokens|
  {
    if tokens == [] then Ok([])
    else
      var rest := ParseHexBytes(tokens[..|tokens| - 1]);
      var last := ParseInt(tokens[|tokens| - 1], 16);
      if rest.Err? then rest
      else if last.Err? then Err(NumberFormat)
      else Ok(rest.value + [ToByte(last.value as int)])
  }

  /** One more token that parses extends the parsed prefix by its byte. */
  lemma ParseHexBytesStep(tokens: seq<string>, i: nat)
    requires i < |tokens| && ParseHexBytes(tokens[..i]).Ok? && ParseInt(tokens[i], 16).Ok?
    ensures ParseHexBytes(tokens[..i + 1]) == Ok(ParseHexBytes(tokens[..i]).value + [ToByte(ParseInt(tokens[i], 16).value as int)])
  {
    assert tokens[..i + 1][..i] == tokens[..i];
  }

  /** The hex of each byte parses back to the bytes. */
  lemma ParseHexStrings(bytes: seq<byte>)
    ensures ParseHexBytes(HexStrings(bytes)) == Ok(bytes)
  {
    var hexes := HexStrings(bytes);
    forall i | 0 <= i < |hexes|
      ensures ParseInt(hexes[i], 16).Ok? && ToByte(ParseInt(hexes[i], 16).value as int) == bytes[i]
    {
      ParseByteToHex(bytes[i]);
    }
    ParseHexBytesAll(hexes, bytes);
  }

  /** Tokens that each parse to the byte in the same place parse to those bytes. */
  lemma {:induction false} ParseHexBytesAll(tokens: seq<string>, values: seq<byte>)
    requires |tokens| == |values|
    requires forall i | 0 <= i < |tokens| ::
               ParseInt(tokens[i], 16).Ok? && ToByte(ParseInt(tokens[i], 16).value as int) == values[i]
    ensures ParseHexBytes(tokens) == Ok(values)
    decreases |tokens|
  {
    if tokens != [] {
      var n := |tokens| - 1;
      ParseHexBytesAll(tokens[..n], values[..n]);
      assert values == values[..n] + [values[n]];
    }
  }

  /**
   * `hexToByteArray` as a value: null for a null or empty string; otherwise
   * the string's pairs of characters parsed as bytes, an odd last character
   * ignored.
   */
  function HexToBytes(hex: Option<string>): (r: Result<Option<seq<byte>>>)
    ensures r.Ok? && r.value.Some? ==> hex.Some? && |r.value.value| == |hex.value| / 2
  {
    if hex.None? || hex.value == "" then Ok(None)
    else
      match ParseHexBytes(Pairs(hex.value, |hex.value| / 2))
      case Err(e) => Err(e)
      case Ok(ba) => Ok(Some(ba))
  }

  /** `hexToByteArray`: fills a `byte[hex.length() / 2]` pair by pair. */
  method HexToByteArray(hex: Option<string>) returns (r: Result<Option<seq<byte>>>)
    ensures r == HexToBytes(hex)
  {
    if hex.None? || |hex.value| == 0 {
      return Ok(None);
    }
    var s := hex.value;
    var ba := new byte[|s| / 2];
    ghost var pairs := Pairs(s, ba.Length);
    var i := 0;
    while i < ba.Length
      invariant 0 <= i <= ba.Length
      invariant ParseHexBytes(pairs[..i]) == Ok(ba[..i])
    {
      var value := ParseInt(s[2 * i..2 * i + 2], 16);
      assert pairs[i] == s[2 * i..2 * i + 2];
      if value.Err? {
        return Err(NumberFormat);
      }
      ParseHexBytesStep(pairs, i);
      ghost var stored := ba[..i];
      ba[i] := ToByte(value.value as int);
      assert ba[..i] == stored;
      SliceExtend(ba[..], 0, i);
      i := i + 1;
    }
    assert pairs[..i] == pairs && ba[..i] == ba[..];
    return Ok(Some(ba[..]));
  }

  /**
   * `hexToByteArrayWithSpace` as a value: null for a null or empty string;
   * otherwise the pieces between single spaces parsed as bytes.
   */
  function SpacedHexToBytes(hex: Option<string>): (r: Result<Option<seq<byte>>>)
    ensures r.Ok? && r.value.Some? ==> hex.Some? && |r.value.value| == |Split(hex.value, ' ')|
  {
    if hex.None? || hex.value == "" then Ok(None)
    else
      match ParseHexBytes(Split(hex.value, ' '))
      case Err(e) => Err(e)
      case Ok(ba) => Ok(Some(ba))
  }

  /** `hexToByteArrayWithSpace`: splits on spaces and fills a `byte[]` token by token. */
  method HexToByteArrayWithSpace(hex: Option<string>) returns (r: Result<Option<seq<byte>>>)
    ensures r == SpacedHexToBytes(hex)
  {
    if hex.None? || |hex.value| == 0 {
      return Ok(None);
    }
    var eachByte := Split(hex.value, ' ');
    var ba := new byte[|eachByte|];
    var i := 0;
    while i < |eachByte|
      invariant 0 <= i <= |eachByte|
      invariant ParseHexBytes(eachByte[..i]) == Ok(ba[..i])
    {
      var value := ParseInt(eachByte[i], 16);
      if value.Err? {
        return Err(NumberFormat);
      }
      ParseHexBytesStep(eachByte, i);
      ghost var stored := ba[..i];
      ba[i] := ToByte(value.value as int);
      assert ba[..i] == stored;
      SliceExtend(ba[..], 0, i);
      i := i + 1;
    }
    assert eachByte[..i] == eachByte && ba[..i] == ba[..];
    return Ok(Some(ba[..]));
  }

  /** `hexToByteArray` reads back what `byteArrayToHexWithoutSpace` writes, for any non-empty array. */
  lemma UnspacedHexRoundTrip(bytes: seq<byte>)
    requires bytes != []
    ensures HexToBytes(Some(HexOf(bytes, false))) == Ok(Some(bytes))
  {
    var hexes := HexStrings(bytes);
    var hex := HexOf(bytes, false);
    assert hex == Concat(hexes);
    PairsOfConcat(hexes);
    assert |hex| / 2 == |hexes|;
    ParseHexStrings(bytes);
    assert ParseHexBytes(Pairs(hex, |hex| / 2)) == Ok(bytes);
  }

  /** `hexToByteArrayWithSpace` reads back what `byteArrayToHex` writes, for any non-empty array. */
  lemma SpacedHexRoundTrip(bytes: seq<byte>)
    requires bytes != []
    ensures SpacedHexToBytes(Some(HexOf(bytes, true))) == Ok(Some(bytes))
  {
    var hexes := HexStrings(bytes);
    forall i | 0 <= i < |hexes|
      ensures ' ' !in hexes[i]
    {
      assert AllDigitsOf(hexes[i], 16);
    }
    SplitJoin(hexes, ' ');
    ParseHexStrings(bytes);
  }

  /** An odd last character is never read: it makes no difference to `hexToByteArray`. */
  lemma OddLastCharacterIgnored(hex: string, c: char)
    requires hex != "" && |hex| % 2 == 0
    ensures HexToBytes(Some(hex + [c])) == HexToBytes(Some(hex))
  {
    assert |hex + [c]| / 2 == |hex| / 2;
    PairsOfPrefix(hex, [c], |hex| / 2);
  }

  /**
   * The four-argument `byteArrayToHex` as a value. A null or empty array,
   * or equal indices, give the empty string, and so does a start after the
   * end (which is logged). The end is clamped to the array's length; a
   * negative clamped end makes the `StringBuffer` capacity `endIndex * 2`
   * negative, and a negative start makes the first read throw.
   */
  function HexRange(ba: Option<seq<byte>>, startIndex: int32, endIndex: int32, includeSpace: bool): (r: Result<string>)
  {
    if ba.None? || |ba.value| == 0 || startIndex == endIndex then Ok("")
    else if startIndex > endIndex then Ok("")
    else
      var bytes := ba.value;
      var end := if |bytes| < endIndex as int then |bytes| else endIndex as int;
      if ToInt32(end * 2) < 0 then Err(NegativeArraySize)
      else if startIndex as int >= end then Ok("")
      else if startIndex < 0 then Err(IndexOutOfBounds)
      else Ok(HexOf(bytes[startIndex..end], includeSpace))
  }

  /** `byteArrayToHex(ba, startIndex, endIndex, includeSpace)`: appends each byte's hex to a `StringBuffer`. */
  method ByteArrayToHexRange(ba: Option<seq<byte>>, startIndex: int32, endIndex: int32, includeSpace: bool)
    returns (r: Result<string>)
    ensures r == HexRange(ba, startIndex, endIndex, includeSpace)
  {
    if ba.None? || |ba.value| == 0 || startIndex == endIndex {
      return Ok("");
    } else if startIndex > endIndex {
      return Ok("");
    }
    var bytes := ba.value;
    var end := if |bytes| < endIndex as int then |bytes| else endIndex as int;
    if ToInt32(end * 2) < 0 {
      return Err(NegativeArraySize);
    }
    var start := startIndex as int;
    var sb := "";
    ghost var written: seq<byte> := [];
    var x := start;
    while x < end
      invariant start <= x && (start < end ==> x <= end)
      invariant start < x ==> 0 <= start && x <= |bytes| && written == bytes[start..x]
      invariant x == start ==> written == []
      invariant sb == HexOf(written, includeSpace)
    {
      if x < 0 || x >= |bytes| {
        return Err(IndexOutOfBounds);
      }
      var separator := if includeSpace && x != start then " " else "";
      HexOfAppend(written, bytes[x], includeSpace);
      sb := sb + separator + ByteToHex(bytes[x]);
      SliceExtend(bytes, start, x);
      written := written + [bytes[x]];
      x := x + 1;
    }
    if start < end {
      assert x == end && 0 <= start;
    }
    return Ok(sb);
  }

  /** A slice one longer is the slice and the next element. */
  lemma SliceExtend(s: seq<byte>, from: int, to: int)
    requires 0 <= from <= to < |s|
    ensures s[from..to + 1] == s[from..to] + [s[to]]
  {
  }

  /** `byteArrayToHex(ba, startIndex, endIndex)`: the range with spaces. */
  method ByteArrayToHexBetween(ba: Option<seq<byte>>, startIndex: int32, endIndex: int32) returns (r: Result<string>)
    ensures r == HexRange(ba, startIndex, endIndex, true)
  {
    r := ByteArrayToHexRange(ba, startIndex, endIndex, true);
  }

  /** `byteArrayToHex(ba)`: the whole array with spaces; a null array throws on `ba.length`. */
  method ByteArrayToHex(ba: Option<seq<byte>>) returns (r: Result<string>)
    requires ba.Some? ==> |ba.value| < 0x8000_0000
    ensures ba.None? ==> r == Err(NullPointer)
    ensures ba.Some? ==> r == HexRange(ba, 0, |ba.value| as int32, true)
  {
    if ba.None? {
      return Err(NullPointer);
    }
    r := ByteArrayToHexRange(ba, 0, |ba.value| as int32, true);
  }

  /** `byteArrayToHexWithoutSpace(ba)`: the whole array without spaces; a null array throws. */
  method ByteArrayToHexWithoutSpace(ba: Option<seq<byte>>) returns (r: Result<string>)
    requires ba.Some? ==> |ba.value| < 0x8000_0000
    ensures ba.None? ==> r == Err(NullPointer)
    ensures ba.Some? ==> r == HexRange(ba, 0, |ba.value| as int32, false)
  {
    if ba.None? {
      return Err(NullPointer);
    }
    r := ByteArrayToHexRange(ba, 0, |ba.value| as int32, false);
  }

  /**
   * A whole array below 2^30 bytes is written in full: `3n - 1` characters
   * with spaces, `2n` without, and an empty array gives the empty string.
   */
  lemma WholeArrayHex(bytes: seq<byte>, includeSpace: bool)
    requires |bytes| < 0x4000_0000
    ensures HexRange(Some(bytes), 0, |bytes| as int32, includeSpace) == Ok(HexOf(bytes, includeSpace))
    ensures |HexOf(bytes, includeSpace)| == if bytes == [] then 0 else if includeSpace then 3 * |bytes| - 1 else 2 * |bytes|
  {
    ToInt32OfSmall(|bytes| * 2);
    assert bytes[0..|bytes|] == bytes;
    HexLength(bytes, includeSpace);
  }

  /** From 2^30 bytes on, the capacity `endIndex * 2` wraps negative and the whole-array forms throw. */
  lemma HugeArrayThrows(bytes: seq<byte>, includeSpace: bool)
    requires 0x4000_0000 <= |bytes| < 0x8000_0000
    ensures HexRange(Some(bytes), 0, |bytes| as int32, includeSpace) == Err(NegativeArraySize)
  {
  }

  /** An end past the array reads as the array's length. */
  lemma EndClamped(bytes: seq<byte>, startIndex: int32, endIndex: int32, includeSpace: bool)
    requires startIndex as int < |bytes| <= endIndex as int
    ensures HexRange(Some(bytes), startIndex, endIndex, includeSpace) ==
              HexRange(Some(bytes), startIndex, |bytes| as int32, includeSpace)
  {
  }

  /** A range inside the array gives the hex of exactly the bytes in it. */
  lemma InnerRangeHex(bytes: seq<byte>, startIndex: int32, endIndex: int32, includeSpace: bool)
    requires 0 <= startIndex < endIndex < 0x4000_0000 && endIndex as int <= |bytes|
    ensures HexRange(Some(bytes), startIndex, endIndex, includeSpace) == Ok(HexOf(bytes[startIndex..endIndex], includeSpace))
  {
    ToInt32OfSmall(endIndex as int * 2);
  }

  /** `java.nio.ByteOrder`. */
  datatype ByteOrder = BigEndian | LittleEndian

  /** Four bytes the other way round. */
  function Reverse4(b: seq<byte>): (r: seq<byte>)
    requires |b| == 4
    ensures |r| == 4 && forall i | 0 <= i < 4 :: r[i] == b[3 - i]
  {
    [b[3], b[2], b[1], b[0]]
  }

  /**
   * `x` as `putInt` writes it in big-endian order: `(byte) (x >> 24)`,
   * `(byte) (x >> 16)`, `(byte) (x >> 8)`, `(byte) x`. The arithmetic shift
   * is division rounding down, which is what `/` by a positive constant is.
   */
  function BigEndianBytes(x: int32): (r: seq<byte>)
    ensures |r| == 4
  {
    [ToByte(x as int / 0x100_0000), ToByte(x as int / 0x1_0000), ToByte(x as int / 0x100), ToByte(x as int)]
  }

  /** `intToByteArray`: the four bytes of `x` in the given order. */
  function IntToByteArray(x: int32, order: ByteOrder): (r: seq<byte>)
    ensures |r| == 4
  {
    if order == BigEndian then BigEndianBytes(x) else Reverse4(BigEndianBytes(x))
  }

  /** `ByteBuffer.getInt`: four bytes read in the given order as a two's-complement `int`. */
  function GetInt(b: seq<byte>, order: ByteOrder): int32
    requires |b| == 4
  {
    var m := if order == BigEndian then b else Reverse4(b);
    ToInt32(Unsigned(m[0]) * 0x100_0000 + Unsigned(m[1]) * 0x1_0000 + Unsigned(m[2]) * 0x100 + Unsigned(m[3]))
  }

  /** The unsigned value of a byte cast from `v` is `v` modulo 256. */
  lemma UnsignedOfCast(v: int)
    ensures Unsigned(ToByte(v)) == v % 256
  {
  }

  /** Shifting right by sixteen is shifting right by eight twice. */
  lemma DivDiv(x: int)
    ensures x / 0x1_0000 == (x / 0x100) / 0x100
  {
    var q, r := x / 0x100, x % 0x100;
    var q2, r2 := q / 0x100, q % 0x100;
    assert x == q2 * 0x1_0000 + (r2 * 0x100 + r);
    assert 0 <= r2 * 0x100 + r < 0x1_0000;
  }

  /** A value congruent to an `int` modulo 2^32 narrows to it. */
  lemma ToInt32Congruent(y: int, x: int32)
    requires (y - x as int) % 0x1_0000_0000 == 0
    ensures ToInt32(y) == x
  {
  }

  /** The big-endian bytes of `x`, put back together, are `x`. */
  lemma BigEndianBytesValue(x: int32)
    ensures GetInt(BigEndianBytes(x), BigEndian) == x
  {
    var v := x as int;
    var q1 := v / 0x100;
    var q2 := q1 / 0x100;
    var q3 := q2 / 0x100;
    DivDiv(v);
    DivDiv(q1);
    assert v / 0x100_0000 == q3 by {
      DivDiv(v / 0x100);
      assert v / 0x100_0000 == (v / 0x1_0000) / 0x100;
    }
    UnsignedOfCast(q3);
    UnsignedOfCast(q2);
    UnsignedOfCast(q1);
    UnsignedOfCast(v);
    var s := (q3 % 256) * 0x100_0000 + (q2 % 256) * 0x1_0000 + (q1 % 256) * 0x100 + v % 256;
    assert v == q3 * 0x100_0000 + (q2 % 256) * 0x1_0000 + (q1 % 256) * 0x100 + v % 256;
    assert s - v == (q3 % 256 - q3) * 0x100_0000;
    HighByteCongruent(q3);
    ToInt32Congruent(s, x);
  }

  /** Keeping only the low byte of the top byte changes a value by a multiple of 2^32. */
  lemma HighByteCongruent(q: int)
    ensures ((q % 256 - q) * 0x100_0000) % 0x1_0000_0000 == 0
  {
    var k := q / 256;
    assert q == k * 256 + q % 256;
    assert (q % 256 - q) * 0x100_0000 == -k * 0x1_0000_0000;
  }

  /** `getInt` reads back the `int` that `putInt` wrote, in either order. */
  lemma GetIntOfBytes(x: int32, order: ByteOrder)
    ensures GetInt(IntToByteArray(x, order), order) == x
  {
    BigEndianBytesValue(x);
    if order == LittleEndian {
      var m := BigEndianBytes(x);
      assert Reverse4(Reverse4(m)) == m;
    }
  }

  /** The byte at `index` of `bytes`, or the exception reading it throws. */
  function ReadAt(bytes: seq<byte>, index: int32): (r: Result<byte>)
    ensures r.Ok? <==> 0 <= index as int < |bytes|
    ensures r.Err? ==> r.error == IndexOutOfBounds
  {
    if 0 <= index as int < |bytes| then Ok(bytes[index]) else Err(IndexOutOfBounds)
  }

  /**
   * What the loop of `byteArrayToInt` stores at place `i` of the four-byte
   * buffer, in `int` arithmetic: big-endian pads with zeros in front and
   * reads the range's bytes after them; little-endian reads the range's
   * bytes first and pads after them.
   */
  function Place(bytes: seq<byte>, startIndex: int32, length: int32, order: ByteOrder, i: nat): Result<byte>
    requires i < 4
  {
    if order == BigEndian then
      var padding := ToInt32(4 - length as int);
      if i < padding as int then Ok(0)
      else ReadAt(bytes, ToInt32(AddInt32(startIndex, i as int32) as int - padding as int))
    else
      if i >= length as int then Ok(0)
      else ReadAt(bytes, AddInt32(startIndex, i as int32))
  }

  /** The first `count` places, in order; the first read that throws ends it. */
  function Places(bytes: seq<byte>, startIndex: int32, length: int32, order: ByteOrder, count: nat): (r: Result<seq<byte>>)
    requires count <= 4
    ensures r.Ok? ==> |r.value| == count &&
                      forall i | 0 <= i < count :: Place(bytes, startIndex, length, order, i) == Ok(r.value[i])
    ensures r.Ok? <==> forall i | 0 <= i < count :: Place(bytes, startIndex, length, order, i).Ok?
    ensures r.Err? ==> r.error == IndexOutOfBounds
    decreases count
  {
    if count == 0 then Ok([])
    else
      match Places(bytes, startIndex, length, order, count - 1)
      case Err(e) => Err(e)
      case Ok(front) =>
        match Place(bytes, startIndex, length, order, count - 1)
        case Err(e) => Err(e)
        case Ok(b) => Ok(front + [b])
  }

  /**
   * `byteArrayToInt(bytes, startIndex, length, byteOrder)` as a value: 0
   * for a null array; otherwise the four places read as an `int` in the
   * given order.
   */
  function BytesToInt(bytes: Option<seq<byte>>, startIndex: int32, length: int32, order: ByteOrder): Result<int32>
  {
    if bytes.None? then Ok(0)
    else
      match Places(bytes.value, startIndex, length, order, 4)
      case Err(e) => Err(e)
      case Ok(newBytes) => Ok(GetInt(newBytes, order))
  }

  /** `byteArrayToInt(bytes, startIndex, length, byteOrder)`: fills a `byte[4]` place by place and reads it. */
  method ByteArrayToInt(bytes: Option<seq<byte>>, startIndex: int32, length: int32, order: ByteOrder) returns (r: Result<int32>)
    ensures r == BytesToInt(bytes, startIndex, length, order)
  {
    if bytes.None? {
      return Ok(0);
    }
    var newBytes := new byte[4];
    var i: int32 := 0;
    while i < 4
      invariant 0 <= i <= 4
      invariant Places(bytes.value, startIndex, length, order, i as nat) == Ok(newBytes[..i])
    {
      var b := Place(bytes.value, startIndex, length, order, i as nat);
      if b.Err? {
        assert Places(bytes.value, startIndex, length, order, 4).Err?;
        return Err(b.error);
      }
      ghost var stored := newBytes[..i];
      newBytes[i] := b.value;
      assert newBytes[..i + 1] == stored + [b.value];
      i := i + 1;
    }
    assert newBytes[..i] == newBytes[..];
    return Ok(GetInt(newBytes[..], order));
  }

  /** `byteArrayToInt(bytes, startIndex, length)`: big-endian. */
  method ByteArrayToIntBigEndian(bytes: Option<seq<byte>>, startIndex: int32, length: int32) returns (r: Result<int32>)
    ensures r == BytesToInt(bytes, startIndex, length, BigEndian)
  {
    r := ByteArrayToInt(bytes, startIndex, length, BigEndian);
  }

  /** When every place holds the given byte, the places are those bytes. */
  lemma {:induction false} PlacesAllRead(bytes: seq<byte>, startIndex: int32, length: int32, order: ByteOrder, count: nat, expected: seq<byte>)
    requires count <= 4 && count <= |expected|
    requires forall i | 0 <= i < count :: Place(bytes, startIndex, length, order, i) == Ok(expected[i])
    ensures Places(bytes, startIndex, length, order, count) == Ok(expected[..count])
    decreases count
  {
    if count > 0 {
      PlacesAllRead(bytes, startIndex, length, order, count - 1, expected);
      assert expected[..count] == expected[..count - 1] + [expected[count - 1]];
    }
  }

  /** `byteArrayToInt` reads back what `intToByteArray` writes, in either order. */
  lemma IntRoundTrip(x: int32, order: ByteOrder)
    ensures BytesToInt(Some(IntToByteArray(x, order)), 0, 4, order) == Ok(x)
  {
    var b := IntToByteArray(x, order);
    forall i | 0 <= i < 4
      ensures Place(b, 0, 4, order, i) == Ok(b[i])
    {
    }
    PlacesAllRead(b, 0, 4, order, 4, b);
    assert b[..4] == b;
    GetIntOfBytes(x, order);
  }

  /** The unsigned value of bytes read most significant first. */
  function UnsignedBigEndian(bs: seq<byte>): nat
    decreases |bs|
  {
    if bs == [] then 0 else UnsignedBigEndian(bs[..|bs| - 1]) * 256 + Unsigned(bs[|bs| - 1])
  }

  /** The unsigned value of bytes read least significant first. */
  function UnsignedLittleEndian(bs: seq<byte>): nat
    decreases |bs|
  {
    if bs == [] then 0 else Unsigned(bs[0]) + 256 * UnsignedLittleEndian(bs[1..])
  }

  /**
   * The index `startIndex + i - (newLength - length)` that the big-endian
   * branch reads, computed in wrapping `int` arithmetic, is the exact one
   * whenever the exact one is an `int`.
   */
  lemma BigEndianIndex(startIndex: int32, length: int32, i: nat)
    requires 0 <= length <= 4 && i < 4 && 0 <= 4 - length as int <= i
    requires 0 <= startIndex as int + i - (4 - length as int) < 0x8000_0000
    ensures ToInt32(AddInt32(startIndex, i as int32) as int - ToInt32(4 - length as int) as int) as int ==
              startIndex as int + i - (4 - length as int)
  {
    ToInt32OfSmall(4 - length as int);
    var sum := AddInt32(startIndex, i as int32);
    assert (startIndex as int + i - sum as int) % 0x1_0000_0000 == 0;
    var exact := startIndex as int + i - (4 - length as int);
    ToInt32Congruent(sum as int - (4 - length as int), exact as int32);
  }

  /** Up to three bytes read big-endian are zero-padded in front: their unsigned value, never negative. */
  lemma ShortBigEndian(bytes: seq<byte>, startIndex: int32, length: int32)
    requires 0 <= length <= 3 && 0 <= startIndex && startIndex as int + length as int <= |bytes| < 0x8000_0000
    ensures UnsignedBigEndian(bytes[startIndex..startIndex as int + length as int]) < 0x100_0000
    ensures BytesToInt(Some(bytes), startIndex, length, BigEndian) ==
              Ok(UnsignedBigEndian(bytes[startIndex..startIndex as int + length as int]) as int32)
  {
    var range := bytes[startIndex..startIndex as int + length as int];
    var padded := Repeat(0 as byte, 4 - length as int) + range;
    ToInt32OfSmall(4 - length as int);
    forall i | 0 <= i < 4
      ensures Place(bytes, startIndex, length, BigEndian, i) == Ok(padded[i])
    {
      if i >= 4 - length as int {
        BigEndianIndex(startIndex, length, i);
      }
    }
    PlacesAllRead(bytes, startIndex, length, BigEndian, 4, padded);
    assert padded[..4] == padded;
    ShortValue(range, padded, length as nat);
  }

  /** Zeros in front of at most three bytes leave their unsigned value. */
  lemma ShortValue(range: seq<byte>, padded: seq<byte>, length: nat)
    requires length <= 3 && |range| == length && padded == Repeat(0 as byte, 4 - length) + range
    ensures UnsignedBigEndian(range) < 0x100_0000
    ensures GetInt(padded, BigEndian) as int == UnsignedBigEndian(range)
  {
    LeadingZerosIgnored(Repeat(0 as byte, 4 - length), range);
    GetIntBigEndian(padded);
    BigEndianBound(range);
    ToInt32OfSmall(UnsignedBigEndian(range));
  }

  /** 256 to the power `n`: one more than the largest value of `n` bytes. */
  function Scale(n: nat): (r: nat)
    ensures r >= 1
  {
    if n == 0 then 1 else 256 * Scale(n - 1)
  }

  /** `n` bytes read big-endian are below 256^n. */
  lemma {:induction false} BigEndianBound(bs: seq<byte>)
    ensures UnsignedBigEndian(bs) < Scale(|bs|)
    decreases |bs|
  {
    if bs != [] {
      BigEndianBound(bs[..|bs| - 1]);
    }
  }

  /** `n` bytes read little-endian are below 256^n. */
  lemma {:induction false} LittleEndianBound(bs: seq<byte>)
    ensures UnsignedLittleEndian(bs) < Scale(|bs|)
    decreases |bs|
  {
    if bs != [] {
      LittleEndianBound(bs[1..]);
    }
  }

  /** Leading zero bytes add nothing to a big-endian value. */
  lemma {:induction false} LeadingZerosIgnored(zeros: seq<byte>, bs: seq<byte>)
    requires forall i | 0 <= i < |zeros| :: zeros[i] == 0
    ensures UnsignedBigEndian(zeros + bs) == UnsignedBigEndian(bs)
    decreases |zeros| + |bs|
  {
    if bs == [] {
      assert zeros + bs == zeros;
      if zeros != [] {
        var init := zeros[..|zeros| - 1];
        LeadingZerosIgnored(init, []);
        assert init + [] == init;
      }
    } else {
      var init := bs[..|bs| - 1];
      LeadingZerosIgnored(zeros, init);
      assert (zeros + bs)[..|zeros + bs| - 1] == zeros + init;
    }
  }

  /** Trailing zero bytes add nothing to a little-endian value. */
  lemma {:induction false} TrailingZerosIgnored(bs: seq<byte>, zeros: seq<byte>)
    requires forall i | 0 <= i < |zeros| :: zeros[i] == 0
    ensures UnsignedLittleEndian(bs + zeros) == UnsignedLittleEndian(bs)
    decreases |bs| + |zeros|
  {
    if bs == [] {
      assert bs + zeros == zeros;
      if zeros != [] {
        var tail := zeros[1..];
        TrailingZerosIgnored([], tail);
        assert [] + tail == tail;
      }
    } else {
      TrailingZerosIgnored(bs[1..], zeros);
      assert (bs + zeros)[1..] == bs[1..] + zeros;
    }
  }

  /** `getInt` in big-endian order is the four bytes' unsigned big-endian value, narrowed to an `int`. */
  lemma GetIntBigEndian(m: seq<byte>)
    requires |m| == 4
    ensures GetInt(m, BigEndian) == ToInt32(UnsignedBigEndian(m))
  {
    var u0, u1, u2, u3 := Unsigned(m[0]), Unsigned(m[1]), Unsigned(m[2]), Unsigned(m[3]);
    assert m[..1][..0] == [];
    assert UnsignedBigEndian(m[..1]) == u0;
    assert m[..2][..1] == m[..1];
    assert UnsignedBigEndian(m[..2]) == u0 * 0x100 + u1;
    assert m[..3][..2] == m[..2];
    assert UnsignedBigEndian(m[..3]) == u0 * 0x1_0000 + u1 * 0x100 + u2;
    assert m[..3] == m[..|m| - 1];
    assert UnsignedBigEndian(m) == u0 * 0x100_0000 + u1 * 0x1_0000 + u2 * 0x100 + u3;
  }

  /** `getInt` in little-endian order is the four bytes' unsigned little-endian value, narrowed to an `int`. */
  lemma GetIntLittleEndian(m: seq<byte>)
    requires |m| == 4
    ensures GetInt(m, LittleEndian) == ToInt32(UnsignedLittleEndian(m))
  {
    var u0, u1, u2, u3 := Unsigned(m[0]), Unsigned(m[1]), Unsigned(m[2]), Unsigned(m[3]);
    assert m[3..][1..] == [];
    assert UnsignedLittleEndian(m[3..]) == u3;
    assert m[2..][1..] == m[3..];
    assert UnsignedLittleEndian(m[2..]) == u2 + 0x100 * u3;
    assert m[1..][1..] == m[2..];
    assert UnsignedLittleEndian(m[1..]) == u1 + 0x100 * u2 + 0x1_0000 * u3;
    assert UnsignedLittleEndian(m) == u0 + 0x100 * u1 + 0x1_0000 * u2 + 0x100_0000 * u3;
  }

  /** Up to three bytes read little-endian are zero-padded after: their unsigned value, never negative. */
  lemma ShortLittleEndian(bytes: seq<byte>, startIndex: int32, length: int32)
    requires 0 <= length <= 3 && 0 <= startIndex && startIndex as int + length as int <= |bytes| < 0x8000_0000
    ensures UnsignedLittleEndian(bytes[startIndex..startIndex as int + length as int]) < 0x100_0000
    ensures BytesToInt(Some(bytes), startIndex, length, LittleEndian) ==
              Ok(UnsignedLittleEndian(bytes[startIndex..startIndex as int + length as int]) as int32)
  {
    var range := bytes[startIndex..startIndex as int + length as int];
    var padded := range + Repeat(0 as byte, 4 - length as int);
    forall i | 0 <= i < 4
      ensures Place(bytes, startIndex, length, LittleEndian, i) == Ok(padded[i])
    {
      if i < length as int {
        assert AddInt32(startIndex, i as int32) as int == startIndex as int + i;
      }
    }
    PlacesAllRead(bytes, startIndex, length, LittleEndian, 4, padded);
    assert padded[..4] == padded;
    ShortLittleValue(range, padded, length as nat);
  }

  /** Zeros after at most three bytes leave their little-endian unsigned value. */
  lemma ShortLittleValue(range: seq<byte>, padded: seq<byte>, length: nat)
    requires length <= 3 && |range| == length && padded == range + Repeat(0 as byte, 4 - length)
    ensures UnsignedLittleEndian(range) < 0x100_0000
    ensures GetInt(padded, LittleEndian) as int == UnsignedLittleEndian(range)
  {
    TrailingZerosIgnored(range, Repeat(0 as byte, 4 - length));
    GetIntLittleEndian(padded);
    LittleEndianBound(range);
    ToInt32OfSmall(UnsignedLittleEndian(range));
  }

  /**
   * A length of zero or less reads nothing and gives 0, except that a
   * big-endian length within four of the smallest `int` makes
   * `newLength - length` wrap around.
   */
  lemma NoLengthGivesZero(bytes: seq<byte>, startIndex: int32, length: int32, order: ByteOrder)
    requires length <= 0 && (order == BigEndian ==> length as int > -0x7FFF_FFFC)
    ensures BytesToInt(Some(bytes), startIndex, length, order) == Ok(0)
  {
    var zeros: seq<byte> := [0, 0, 0, 0];
    forall i | 0 <= i < 4
      ensures Place(bytes, startIndex, length, order, i) == Ok(zeros[i])
    {
      if order == BigEndian {
        ToInt32OfSmall(4 - length as int);
      }
    }
    PlacesAllRead(bytes, startIndex, length, order, 4, zeros);
    assert zeros[..4] == zeros;
    assert GetInt(zeros, order) == 0;
  }

  /** A negative start throws as soon as a byte is read. */
  lemma NegativeStartThrows(bytes: seq<byte>, startIndex: int32, length: int32, order: ByteOrder)
    requires startIndex < 0 && 1 <= length <= 4
    ensures BytesToInt(Some(bytes), startIndex, length, order) == Err(IndexOutOfBounds)
  {
    var i: nat := if order == BigEndian then 4 - length as int else 0;
    ToInt32OfSmall(4 - length as int);
    ToInt32OfSmall(startIndex as int + i);
    ToInt32OfSmall(startIndex as int);
    assert Place(bytes, startIndex, length, order, i).Err?;
  }
}
