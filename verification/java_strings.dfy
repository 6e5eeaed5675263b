/**
 * The two `java.lang` string operations the utilities rely on:
 * `String.split` with a one-character separator, and `Integer.parseInt`
 * with a radix, together with the digit strings that `Integer.toString`
 * and `Integer.toHexString` write for non-negative values.
 */
module JavaStrings {
  import opened JavaTypes
  import opened Results

  /** The index of the first `sep` in `s`. */
  function SeparatorIndex(s: string, sep: char): (i: nat)
    requires sep in s
    ensures i < |s| && s[i] == sep && sep !in s[..i]
    decreases |s|
  {
    if s[0] == sep then 0
    else
      var i := 1 + SeparatorIndex(s[1..], sep);
      assert s[..i] == [s[0]] + s[1..][..i - 1];
      i
  }

  /** The pieces of `s` between separators, empty pieces included: `split` with a negative limit. */
  function Pieces(s: string, sep: char): (r: seq<string>)
    ensures |r| >= 1
    ensures forall i | 0 <= i < |r| :: sep !in r[i]
    decreases |s|
  {
    if sep !in s then [s]
    else
      var i := SeparatorIndex(s, sep);
      [s[..i]] + Pieces(s[i + 1..], sep)
  }

  /** The pieces put back together with the separator between them. */
  function Join(ps: seq<string>, sep: char): string
    requires |ps| >= 1
    decreases |ps|
  {
    if |ps| == 1 then ps[0] else ps[0] + [sep] + Join(ps[1..], sep)
  }

  /** Splitting loses nothing: joining the pieces gives back the string. */
  lemma {:induction false} PiecesJoin(s: string, sep: char)
    ensures Join(Pieces(s, sep), sep) == s
    decreases |s|
  {
    if sep in s {
      var i := SeparatorIndex(s, sep);
      PiecesJoin(s[i + 1..], sep);
      assert Pieces(s, sep)[1..] == Pieces(s[i + 1..], sep);
      assert s == s[..i] + [sep] + s[i + 1..];
    }
  }

  /** The pieces without the empty ones at the end. */
  function DropTrailingEmpty(ps: seq<string>): (r: seq<string>)
    ensures |r| <= |ps| && r == ps[..|r|]
    ensures r != [] ==> r[|r| - 1] != ""
    ensures forall i | |r| <= i < |ps| :: ps[i] == ""
    decreases |ps|
  {
    if ps == [] || ps[|ps| - 1] != "" then ps
    else
      var r := DropTrailingEmpty(ps[..|ps| - 1]);
      assert ps[..|ps| - 1][..|r|] == ps[..|r|];
      r
  }

  /**
   * `s.split(sep)`: the pieces between separators with trailing empty
   * pieces removed; a string without the separator, the empty string
   * included, is its own single piece.
   */
  function Split(s: string, sep: char): (r: seq<string>)
    ensures sep !in s ==> r == [s]
    ensures sep in s ==> r == DropTrailingEmpty(Pieces(s, sep))
    ensures forall i | 0 <= i < |r| :: sep !in r[i]
  {
    if sep !in s then [s] else DropTrailingEmpty(Pieces(s, sep))
  }

  /** Splitting a string at its first separator: the piece before it, then the pieces of the rest. */
  lemma {:induction false} PiecesAfterFirst(head: string, tail: string, sep: char)
    requires sep !in head
    ensures Pieces(head + [sep] + tail, sep) == [head] + Pieces(tail, sep)
  {
    var s := head + [sep] + tail;
    assert s[|head|] == sep;
    var i := SeparatorIndex(s, sep);
    assert s[..i] == head && s[i + 1..] == tail;
  }

  /** Splitting two strings joined by the separator gives the pieces of the first, then those of the second. */
  lemma {:induction false} PiecesAppend(v: string, w: string, sep: char)
    ensures Pieces(v + [sep] + w, sep) == Pieces(v, sep) + Pieces(w, sep)
    decreases |v|
  {
    if sep !in v {
      PiecesAfterFirst(v, w, sep);
    } else {
      var i := SeparatorIndex(v, sep);
      var head, tail := v[..i], v[i + 1..];
      assert v == head + [sep] + tail;
      assert v + [sep] + w == head + [sep] + (tail + [sep] + w);
      assert Pieces(v, sep) == [head] + Pieces(tail, sep);
      PiecesAfterFirst(head, tail + [sep] + w, sep);
      PiecesAppend(tail, w, sep);
      ConcatAssociative([head], Pieces(tail, sep), Pieces(w, sep));
    }
  }

  lemma ConcatAssociative(a: seq<string>, b: seq<string>, c: seq<string>)
    ensures a + (b + c) == (a + b) + c
  {
  }

  /** The last piece is the end of the joined string: when the string does not end with the separator, it is not empty. */
  lemma {:induction false} LastPieceEndsString(ps: seq<string>, sep: char)
    requires |ps| >= 1
    ensures ps[|ps| - 1] == "" ==> Join(ps, sep) == "" || Join(ps, sep)[|Join(ps, sep)| - 1] == sep
    decreases |ps|
  {
    if |ps| > 1 {
      LastPieceEndsString(ps[1..], sep);
    }
  }

  /** A separator-free, non-empty piece after a string that does not end with the separator becomes its last token. */
  lemma SplitAppend(v: string, w: string, sep: char)
    requires v != "" && v[|v| - 1] != sep && w != "" && sep !in w
    ensures Split(v + [sep] + w, sep) == Split(v, sep) + [w]
  {
    PiecesAppend(v, w, sep);
    assert (v + [sep] + w)[|v|] == sep;
    var ps := Pieces(v, sep);
    assert ps[|ps| - 1] != "" by {
      PiecesJoin(v, sep);
      LastPieceEndsString(ps, sep);
    }
  }

  /** Joining one more piece appends the separator and the piece. */
  lemma {:induction false} JoinAppend(ps: seq<string>, p: string, sep: char)
    requires |ps| >= 1
    ensures Join(ps + [p], sep) == Join(ps, sep) + [sep] + p
    decreases |ps|
  {
    if |ps| > 1 {
      assert (ps + [p])[1..] == ps[1..] + [p];
      JoinAppend(ps[1..], p, sep);
    } else {
      assert (ps + [p])[1..] == [p];
    }
  }

  /** Pieces free of the separator come back from splitting their join. */
  lemma {:induction false} JoinPieces(ps: seq<string>, sep: char)
    requires |ps| >= 1 && forall i | 0 <= i < |ps| :: sep !in ps[i]
    ensures Pieces(Join(ps, sep), sep) == ps
    decreases |ps|
  {
    if |ps| > 1 {
      var rest := ps[1..];
      assert forall i | 0 <= i < |rest| :: rest[i] == ps[i + 1];
      JoinPieces(rest, sep);
      assert Join(ps, sep) == ps[0] + [sep] + Join(rest, sep);
      PiecesAfterFirst(ps[0], Join(rest, sep), sep);
      assert ps == [ps[0]] + rest;
    }
  }

  /** `split` undoes the join of separator-free pieces, provided the last one is not empty. */
  lemma SplitJoin(ps: seq<string>, sep: char)
    requires |ps| >= 1 && forall i | 0 <= i < |ps| :: sep !in ps[i]
    requires ps[|ps| - 1] != ""
    ensures Split(Join(ps, sep), sep) == ps
  {
    JoinPieces(ps, sep);
    if |ps| > 1 {
      assert Join(ps, sep)[|ps[0]|] == sep;
    }
  }

  /**
   * `Character.digit(c, 36)` on ASCII: the digits, then the letters of
   * either case from ten on; -1 for any other character.
   */
  function DigitValue(c: char): (d: int)
    ensures -1 <= d < 36
    ensures d >= 0 <==> '0' <= c <= '9' || 'a' <= c <= 'z' || 'A' <= c <= 'Z'
  {
    if '0' <= c <= '9' then c as int - '0' as int
    else if 'a' <= c <= 'z' then c as int - 'a' as int + 10
    else if 'A' <= c <= 'Z' then c as int - 'A' as int + 10
    else -1
  }

  /** `c` is a digit in base `radix`. */
  predicate IsDigitOf(c: char, radix: nat)
  {
    0 <= DigitValue(c) < radix
  }

  predicate AllDigitsOf(s: string, radix: nat)
  {
    forall i | 0 <= i < |s| :: IsDigitOf(s[i], radix)
  }

  /** The value of a string of digits in base `radix`, most significant first. */
  function RadixValue(ds: string, radix: nat): nat
    requires AllDigitsOf(ds, radix)
    decreases |ds|
  {
    if ds == [] then 0 else RadixValue(ds[..|ds| - 1], radix) * radix + DigitValue(ds[|ds| - 1])
  }

  /**
   * `s` is a sign of length `k` (none, or one '+' or '-') followed by at
   * least one digit in base `radix`.
   */
  predicate SignedDigits(s: string, k: nat, radix: nat)
  {
    k <= 1 && k < |s| && (k == 1 ==> s[0] == '+' || s[0] == '-') && AllDigitsOf(s[k..], radix)
  }

  /** The value of the digits after a sign of length `k`, negated after a minus. */
  function SignedValue(s: string, k: nat, radix: nat): int
    requires SignedDigits(s, k, radix)
  {
    if k == 1 && s[0] == '-' then -(RadixValue(s[k..], radix) as int) else RadixValue(s[k..], radix)
  }

  /**
   * `Integer.parseInt(s, radix)`: an optional sign, then at least one digit
   * in base `radix`; the value must fit in an `int`. Anything else is a
   * `NumberFormatException`.
   */
  function ParseInt(s: string, radix: nat): (r: Result<int32>)
    requires 2 <= radix <= 36
    ensures s == [] ==> r == Err(NumberFormat)
    ensures r.Ok? ==> exists k: nat | SignedDigits(s, k, radix) :: r.value as int == SignedValue(s, k, radix)
    ensures r.Err? ==> r.error == NumberFormat
  {
    if s == [] then Err(NumberFormat)
    else
      var k := if s[0] == '-' || s[0] == '+' then 1 else 0;
      var digits := s[k..];
      if digits == [] || !AllDigitsOf(digits, radix) then Err(NumberFormat)
      else
        var v := if s[0] == '-' then -(RadixValue(digits, radix) as int) else RadixValue(digits, radix);
        assert SignedDigits(s, k, radix) && SignedValue(s, k, radix) == v;
        if -0x8000_0000 <= v < 0x8000_0000 then Ok(v as int32) else Err(NumberFormat)
  }

  /**
   * `parseInt` succeeds exactly on an optional sign followed by digits whose
   * value fits in an `int`, and then returns that value; the sign, when
   * present, is the only way to read the string.
   */
  lemma ParseIntIffSignedDigits(s: string, radix: nat)
    requires 2 <= radix <= 36
    ensures ParseInt(s, radix).Ok? <==>
              exists k: nat | SignedDigits(s, k, radix) :: -0x8000_0000 <= SignedValue(s, k, radix) < 0x8000_0000
    ensures ParseInt(s, radix).Ok? ==>
              forall k: nat | SignedDigits(s, k, radix) :: ParseInt(s, radix).value as int == SignedValue(s, k, radix)
  {
    if s != [] {
      var k := if s[0] == '-' || s[0] == '+' then 1 else 0;
      forall j: nat | SignedDigits(s, j, radix)
        ensures j == k
      {
        if j == 0 {
          assert IsDigitOf(s[0..][0], radix);
        }
      }
    }
  }

  /** The lower-case digit for `d` in base `radix`, as `Integer.toString` writes it. */
  function DigitChar(d: nat, radix: nat): (c: char)
    requires d < radix <= 36
    ensures IsDigitOf(c, radix) && DigitValue(c) == d
    ensures !('A' <= c <= 'Z')
  {
    if d < 10 then '0' + d as char else 'a' + (d - 10) as char
  }

  /** `Integer.toString(n, radix)` for non-negative `n`: its digits, lower case, without leading zeros. */
  function ToRadixString(n: nat, radix: nat): (s: string)
    requires 2 <= radix <= 36
    ensures s != [] && AllDigitsOf(s, radix)
    ensures forall i | 0 <= i < |s| :: !('A' <= s[i] <= 'Z')
    decreases n
  {
    var last := [DigitChar(n % radix, radix)];
    if n < radix then last
    else
      DivShrinks(n, radix);
      ToRadixString(n / radix, radix) + last
  }

  lemma DivShrinks(n: nat, radix: nat)
    requires 2 <= radix <= n
    ensures 1 <= n / radix < n
  {
    var q := n / radix;
    assert n == q * radix + n % radix;
    assert q * radix >= q * 2 by { MulMonotone(q, 2, radix); }
  }

  lemma ModBelow(n: nat, radix: nat)
    requires n < radix
    ensures n % radix == n
  {
    var q := n / radix;
    assert n == q * radix + n % radix;
    if q >= 1 {
      MulMonotone(radix, 1, q);
    }
  }

  lemma MulMonotone(q: nat, a: nat, b: nat)
    requires a <= b
    ensures q * a <= q * b
  {
  }

  /** A value below the square of the radix leaves a quotient below the radix. */
  lemma DivBelowRadix(n: nat, radix: nat)
    requires 2 <= radix && n < radix * radix
    ensures n / radix < radix
  {
    var q := n / radix;
    assert n == q * radix + n % radix;
    if q >= radix {
      MulMonotone(radix, radix, q);
    }
  }

  /** The digits written for `n` are worth `n`. */
  lemma {:induction false} RadixStringValue(n: nat, radix: nat)
    requires 2 <= radix <= 36
    ensures RadixValue(ToRadixString(n, radix), radix) == n
    decreases n
  {
    var last := DigitChar(n % radix, radix);
    if n >= radix {
      DivShrinks(n, radix);
      var q := n / radix;
      RadixStringValue(q, radix);
      RadixValueAppend(ToRadixString(q, radix), last, radix);
      DivModIdentity(n, radix);
    } else {
      RadixValueAppend([], last, radix);
      ModBelow(n, radix);
    }
  }

  /** One more digit multiplies the value so far by the radix and adds the digit. */
  lemma RadixValueAppend(ds: string, c: char, radix: nat)
    requires AllDigitsOf(ds, radix) && IsDigitOf(c, radix)
    ensures AllDigitsOf(ds + [c], radix)
    ensures RadixValue(ds + [c], radix) == RadixValue(ds, radix) * radix + DigitValue(c)
  {
    assert (ds + [c])[..|ds|] == ds;
  }

  lemma DivModIdentity(n: nat, radix: nat)
    requires radix >= 2
    ensures (n / radix) * radix + n % radix == n
  {
  }

  /** `parseInt` reads back what `toString` writes for a non-negative `int`. */
  lemma ParseRadixString(n: nat, radix: nat)
    requires 2 <= radix <= 36 && n < 0x8000_0000
    ensures ParseInt(ToRadixString(n, radix), radix) == Ok(n as int32)
  {
    RadixStringValue(n, radix);
    assert ToRadixString(n, radix)[0..] == ToRadixString(n, radix);
  }

  /** `toString` writes one digit exactly for values below the radix, and at most two below its square. */
  lemma RadixStringLength(n: nat, radix: nat)
    requires 2 <= radix <= 36
    ensures |ToRadixString(n, radix)| == 1 <==> n < radix
    ensures n < radix * radix ==> |ToRadixString(n, radix)| <= 2
  {
    if n >= radix {
      DivShrinks(n, radix);
      if n < radix * radix {
        DivBelowRadix(n, radix);
      }
    }
  }

  /** A leading zero does not change the value of a digit string. */
  lemma {:induction false} LeadingZero(ds: string, radix: nat)
    requires 2 <= radix && AllDigitsOf(ds, radix)
    ensures AllDigitsOf("0" + ds, radix) && RadixValue("0" + ds, radix) == RadixValue(ds, radix)
    decreases |ds|
  {
    if ds != [] {
      assert ("0" + ds)[..|ds|] == "0" + ds[..|ds| - 1];
      LeadingZero(ds[..|ds| - 1], radix);
    }
  }

  /** Leading zeros do not change what a string of digits parses to. */
  lemma LeadingZeroParses(ds: string, radix: nat)
    requires 2 <= radix <= 36 && ds != "" && AllDigitsOf(ds, radix)
    ensures ParseInt("0" + ds, radix) == ParseInt(ds, radix)
  {
    LeadingZero(ds, radix);
    assert ("0" + ds)[0..] == "0" + ds && ds[0..] == ds;
  }
}
