/**
 * `VersionChecker.check`: whether a dotted version lies between a minimum
 * and a maximum version, both inclusive. Each version is split on dots,
 * its pieces parsed as decimal `int`s and right-padded with zeros to the
 * longest piece count, and the padded sequences are compared
 * lexicographically. Any exception makes the check false.
 */
module VersionChecking {
  import opened JavaTypes
  import opened Results
  import opened Lists

  import opened JavaStrings

  /** `version.split("\\.")`: the tokens of a dotted version. */
  function Tokens(s: string): (r: seq<string>)
    ensures forall i | 0 <= i < |r| :: '.' !in r[i]
  {
    Split(s, '.')
  }

  /** The token counts of `versions`: a null version makes `split` throw. */
  function MaxTokenCount(versions: seq<Option<string>>): (r: Result<nat>)
    ensures r.Err? <==> exists i | 0 <= i < |versions| :: versions[i].None?
    ensures r.Err? ==> r.error == NullPointer
    ensures r.Ok? ==> forall i | 0 <= i < |versions| :: |Tokens(versions[i].value)| <= r.value
    ensures r.Ok? && r.value > 0 ==> exists i | 0 <= i < |versions| :: |Tokens(versions[i].value)| == r.value
    decreases |versions|
  {
    if versions == [] then Ok(0)
    else
      var init := versions[..|versions| - 1];
      var rest := MaxTokenCount(init);
      var last := versions[|versions| - 1];
      assert forall i | 0 <= i < |init| :: versions[i] == init[i];
      if rest.Err? then rest
      else if last.None? then Err(NullPointer)
      else
        var m := Max(rest.value, |Tokens(last.value)|);
        assert |Tokens(versions[|versions| - 1].value)| <= m;
        Ok(m)
  }

  /** `getMaxLength`: the largest token count among the versions. */
  method GetMaxLength(versions: seq<Option<string>>) returns (r: Result<nat>)
    ensures r == MaxTokenCount(versions)
  {
    var maxLength := 0;
    var i := 0;
    while i < |versions|
      invariant 0 <= i <= |versions|
      invariant MaxTokenCount(versions[..i]) == Ok(maxLength)
    {
      if versions[i].None? {
        return Err(NullPointer);
      }
      var length := |Tokens(versions[i].value)|;
      MaxTokenCountStep(versions, i);
      if length > maxLength {
        maxLength := length;
      }
      i := i + 1;
    }
    assert versions[..i] == versions;
    return Ok(maxLength);
  }

  /** The count over one more version is the larger of the count so far and that version's. */
  lemma MaxTokenCountStep(versions: seq<Option<string>>, i: nat)
    requires i < |versions| && versions[i].Some? && MaxTokenCount(versions[..i]).Ok?
    ensures MaxTokenCount(versions[..i + 1]) == Ok(Max(MaxTokenCount(versions[..i]).value, |Tokens(versions[i].value)|))
  {
    assert versions[..i + 1][..i] == versions[..i];
  }

  /** The tokens parsed in order; the first that does not parse makes the whole fail. */
  function ParseAll(tokens: seq<string>): (r: Result<seq<int32>>)
    ensures r.Ok? ==> |r.value| == |tokens| && forall i | 0 <= i < |tokens| :: ParseInt(tokens[i], 10) == Ok(r.value[i])
    ensures r.Ok? <==> forall i | 0 <= i < |tokens| :: ParseInt(tokens[i], 10).Ok?
    ensures r.Err? ==> r.error == NumberFormat
    decreases |tokens|
  {
    if tokens == [] then Ok([])
    else
      var rest := ParseAll(tokens[..|tokens| - 1]);
      var last := ParseInt(tokens[|tokens| - 1], 10);
      if rest.Err? then rest
      else if last.Err? then Err(last.error)
      else Ok(rest.value + [last.value])
  }

  /**
   * `padEnoughDigits(version, n)` as a value: the parsed tokens followed by
   * zeros up to `n`; a null version makes `split` throw.
   */
  function Padded(version: Option<string>, n: nat): (r: Result<seq<int32>>)
    ensures r.Ok? ==> |r.value| == n
    ensures r.Ok? <==> version.Some? && |Tokens(version.value)| <= n && ParseAll(Tokens(version.value)).Ok?
    ensures r.Ok? ==> r.value == ParseAll(Tokens(version.value)).value + Repeat(0 as int32, n - |Tokens(version.value)|)
  {
    if version.None? then Err(NullPointer) else PadTokens(Tokens(version.value), n)
  }

  /**
   * The tokens parsed into the `n` places of a zeroed array, in order: the
   * first token that does not parse, or the first one past the last place,
   * decides which exception is thrown.
   */
  function PadTokens(tokens: seq<string>, n: nat): (r: Result<seq<int32>>)
    ensures r.Ok? <==> |tokens| <= n && ParseAll(tokens).Ok?
    ensures r.Ok? ==> r.value == ParseAll(tokens).value + Repeat(0 as int32, n - |tokens|)
  {
    var stored := tokens[..Min(|tokens|, n)];
    match ParseAll(stored)
    case Err(e) =>
      ParseAllPrefixFails(tokens, |stored|);
      Err(e)
    case Ok(values) =>
      if |tokens| > n then
        if ParseInt(tokens[n], 10).Err? then Err(NumberFormat) else Err(IndexOutOfBounds)
      else
        assert stored == tokens;
        Ok(values + Repeat(0 as int32, n - |values|))
  }

  /** A token that does not parse, reached within the places, throws `NumberFormatException`. */
  lemma PadTokensUnparsable(tokens: seq<string>, n: nat, i: nat)
    requires i < |tokens| && i <= n && ParseAll(tokens[..i]).Ok? && ParseInt(tokens[i], 10).Err?
    ensures PadTokens(tokens, n) == Err(NumberFormat)
  {
    var stored := tokens[..Min(|tokens|, n)];
    if i < n {
      assert stored[..i + 1] == tokens[..i + 1];
      ParseAllPrefixFails(stored, i + 1);
    } else {
      assert stored == tokens[..i];
    }
  }

  /** A parseable token past the last place throws `ArrayIndexOutOfBoundsException`. */
  lemma PadTokensOverflow(tokens: seq<string>, n: nat)
    requires n < |tokens| && ParseAll(tokens[..n]).Ok? && ParseInt(tokens[n], 10).Ok?
    ensures PadTokens(tokens, n) == Err(IndexOutOfBounds)
  {
  }

  /**
   * `padEnoughDigits`: a fresh zeroed `int[n]` with each token parsed into
   * its place; a token that does not parse, or more tokens than places, throws.
   */
  method PadEnoughDigits(version: Option<string>, n: nat) returns (r: Result<seq<int32>>)
    ensures r == Padded(version, n)
  {
    var result := new int32[n](_ => 0);
    if version.None? {
      return Err(NullPointer);
    }
    r := ParseInto(result, Tokens(version.value));
  }

  /** The loop of `padEnoughDigits`, storing the parsed tokens into the zeroed `result`. */
  method ParseInto(result: array<int32>, tokens: seq<string>) returns (r: Result<seq<int32>>)
    requires result[..] == Repeat(0 as int32, result.Length)
    modifies result
    ensures r == PadTokens(tokens, result.Length)
  {
    var i := 0;
    while i < |tokens|
      invariant 0 <= i <= |tokens| && i <= result.Length
      invariant ParseAll(tokens[..i]) == Ok(result[..i])
      invariant forall j | i <= j < result.Length :: result[j] == 0
    {
      var value := ParseInt(tokens[i], 10);
      if value.Err? {
        PadTokensUnparsable(tokens, result.Length, i);
        return Err(NumberFormat);
      }
      if i >= result.Length {
        PadTokensOverflow(tokens, result.Length);
        return Err(IndexOutOfBounds);
      }
      ParseAllStep(tokens, i);
      ghost var stored := result[..i];
      result[i] := value.value;
      assert result[..i + 1] == stored + [value.value];
      i := i + 1;
    }
    assert tokens[..i] == tokens;
    ZeroTail(result[..], i);
    assert PadTokens(tokens, result.Length) == Ok(result[..i] + Repeat(0 as int32, result.Length - i));
    return Ok(result[..]);
  }

  /** A sequence whose places from `i` on are zero is its first `i` places padded with zeros. */
  lemma ZeroTail(a: seq<int32>, i: nat)
    requires i <= |a| && forall j | i <= j < |a| :: a[j] == 0
    ensures a == a[..i] + Repeat(0 as int32, |a| - i)
  {
  }

  /** One more token that parses extends the parsed prefix by its value. */
  lemma ParseAllStep(tokens: seq<string>, i: nat)
    requires i < |tokens| && ParseAll(tokens[..i]).Ok? && ParseInt(tokens[i], 10).Ok?
    ensures ParseAll(tokens[..i + 1]) == Ok(ParseAll(tokens[..i]).value + [ParseInt(tokens[i], 10).value])
  {
    assert tokens[..i + 1][..i] == tokens[..i];
  }

  /** A prefix that fails to parse makes the whole list fail. */
  lemma {:induction false} ParseAllPrefixFails(tokens: seq<string>, k: nat)
    requires k <= |tokens| && ParseAll(tokens[..k]).Err?
    ensures ParseAll(tokens).Err?
  {
    var i :| 0 <= i < k && ParseInt(tokens[..k][i], 10).Err?;
    assert tokens[i] == tokens[..k][i];
  }

  /** Lexicographic order on sequences of equal length: `a` is below `b` at the first place they differ. */
  ghost predicate LexLess(a: seq<int32>, b: seq<int32>)
    requires |a| == |b|
  {
    exists j | 0 <= j < |a| :: a[..j] == b[..j] && a[j] < b[j]
  }

  ghost predicate LexAtMost(a: seq<int32>, b: seq<int32>)
    requires |a| == |b|
  {
    a == b || LexLess(a, b)
  }

  /** The lexicographic order is strict: no sequence is both below and above another, or below itself. */
  lemma LexLessAsymmetric(a: seq<int32>, b: seq<int32>)
    requires |a| == |b| && LexLess(a, b)
    ensures !LexLess(b, a) && a != b
  {
    var j :| 0 <= j < |a| && a[..j] == b[..j] && a[j] < b[j];
  }

  /** The order is total: of two sequences of equal length, one is at most the other. */
  lemma {:induction false} LexTotal(a: seq<int32>, b: seq<int32>)
    requires |a| == |b|
    ensures LexAtMost(a, b) || LexAtMost(b, a)
  {
    if a != b {
      var j := FirstDifference(a, b);
      if a[j] < b[j] {
        assert LexLess(a, b);
      } else {
        assert LexLess(b, a);
      }
    }
  }

  function FirstDifference(a: seq<int32>, b: seq<int32>): (j: nat)
    requires |a| == |b| && a != b
    ensures j < |a| && a[..j] == b[..j] && a[j] != b[j]
    decreases |a|
  {
    if a[0] != b[0] then 0
    else
      var j := 1 + FirstDifference(a[1..], b[1..]);
      assert a[..j] == [a[0]] + a[1..][..j - 1];
      assert b[..j] == [b[0]] + b[1..][..j - 1];
      j
  }

  /**
   * What `check` decides: false for a null or empty target or when any step
   * throws; otherwise whether the padded target lies between the padded
   * minimum and maximum, both inclusive.
   */
  ghost function VersionCheck(target: Option<string>, minVersion: Option<string>, maxVersion: Option<string>): bool
  {
    if target.None? || target.value == "" then false
    else
      match MaxTokenCount([target, minVersion, maxVersion])
      case Err(_) => false
      case Ok(n) =>
        var t, lo, hi := Padded(target, n), Padded(minVersion, n), Padded(maxVersion, n);
        t.Ok? && lo.Ok? && hi.Ok? && LexAtMost(lo.value, t.value) && LexAtMost(t.value, hi.value)
  }

  /**
   * `check`: compares place by place, and returns as soon as the target is
   * known to lie outside, or strictly inside, the range.
   */
  method Check(target: Option<string>, minVersion: Option<string>, maxVersion: Option<string>) returns (r: bool)
    ensures r == VersionCheck(target, minVersion, maxVersion)
  {
    if target.None? || target.value == "" {
      return false;
    }
    var maxLength := GetMaxLength([target, minVersion, maxVersion]);
    if maxLength.Err? {
      return false;
    }
    var t := PadEnoughDigits(target, maxLength.value);
    if t.Err? {
      return false;
    }
    var lo := PadEnoughDigits(minVersion, maxLength.value);
    if lo.Err? {
      return false;
    }
    var hi := PadEnoughDigits(maxVersion, maxLength.value);
    if hi.Err? {
      return false;
    }
    r := CompareInRange(t.value, lo.value, hi.value);
  }

  /** The comparison loop of `check` on the padded sequences. */
  method CompareInRange(target: seq<int32>, min: seq<int32>, max: seq<int32>) returns (r: bool)
    requires |target| == |min| == |max|
    ensures r == (LexAtMost(min, target) && LexAtMost(target, max))
  {
    var biggerThanMin, smallerThanMax := false, false;
    var i := 0;
    while i < |target| && (!biggerThanMin || !smallerThanMax)
      invariant 0 <= i <= |target|
      invariant !biggerThanMin ==> min[..i] == target[..i]
      invariant biggerThanMin ==> LexLess(min, target)
      invariant !smallerThanMax ==> target[..i] == max[..i]
      invariant smallerThanMax ==> LexLess(target, max)
    {
      if !biggerThanMin {
        if target[i] < min[i] {
          assert LexLess(target, min);
          LexLessAsymmetric(target, min);
          return false;
        } else if target[i] > min[i] {
          biggerThanMin := true;
          assert LexLess(min, target);
        }
      }
      if !smallerThanMax {
        if target[i] > max[i] {
          assert LexLess(max, target);
          LexLessAsymmetric(max, target);
          return false;
        } else if target[i] < max[i] {
          smallerThanMax := true;
          assert LexLess(target, max);
        }
      }
      i := i + 1;
    }
    if i == |target| {
      assert min[..i] == min && target[..i] == target && max[..i] == max;
    }
    return true;
  }

  /** A version that parses is within the range it bounds on both sides. */
  lemma VersionWithinItself(v: string)
    requires v != "" && ParseAll(Tokens(v)).Ok?
    ensures VersionCheck(Some(v), Some(v), Some(v))
  {
    var one := [Some(v)];
    assert one[..0] == [] && MaxTokenCount(one) == Ok(|Tokens(v)|);
    assert (one + one)[..1] == one && MaxTokenCount(one + one) == Ok(|Tokens(v)|);
    assert [Some(v), Some(v), Some(v)] == one + one + one;
    assert (one + one + one)[..2] == one + one;
  }

  /** A zero token after fewer tokens than places stores the zero the place already held. */
  lemma PadTokensAppendZero(ps: seq<string>, n: nat)
    requires |ps| < n
    ensures PadTokens(ps + ["0"], n) == PadTokens(ps, n)
  {
    var tokens := ps + ["0"];
    assert ParseInt("0", 10) == Ok(0) by {
      assert "0"[0..] == "0";
    }
    assert tokens[..|ps|] == ps;
    if ParseAll(ps).Ok? {
      var values := ParseAll(ps).value;
      assert ParseAll(tokens) == Ok(values + [0]);
      assert Repeat(0 as int32, n - |ps|) == [0] + Repeat(0 as int32, n - |tokens|);
      assert (values + [0]) + Repeat(0 as int32, n - |tokens|) == values + Repeat(0 as int32, n - |ps|);
    }
  }

  /**
   * A trailing `.0` makes no difference once versions are padded: `1.0`
   * compares as `1`, and `1.0.4` and `1.0` are compared as `1.0.4` and `1.0.0`.
   */
  lemma ZeroPieceIgnored(v: string, n: nat)
    requires v != "" && v[|v| - 1] != '.' && |Tokens(v)| < n
    ensures Tokens(v + ".0") == Tokens(v) + ["0"]
    ensures Padded(Some(v + ".0"), n) == Padded(Some(v), n)
  {
    assert v + ".0" == v + "." + "0";
    SplitAppend(v, "0", '.');
    PadTokensAppendZero(Tokens(v), n);
  }

  /** A check that passes had its minimum at most its maximum, once padded. */
  lemma BoundsOrdered(target: Option<string>, minVersion: Option<string>, maxVersion: Option<string>)
    requires VersionCheck(target, minVersion, maxVersion)
    ensures var n := MaxTokenCount([target, minVersion, maxVersion]).value;
            LexAtMost(Padded(minVersion, n).value, Padded(maxVersion, n).value)
  {
    var n := MaxTokenCount([target, minVersion, maxVersion]).value;
    var t, lo, hi := Padded(target, n).value, Padded(minVersion, n).value, Padded(maxVersion, n).value;
    if lo != t && t != hi {
      LexLessTransitive(lo, t, hi);
    }
  }

  lemma LexLessTransitive(a: seq<int32>, b: seq<int32>, c: seq<int32>)
    requires |a| == |b| == |c| && LexLess(a, b) && LexLess(b, c)
    ensures LexLess(a, c)
  {
    var j :| 0 <= j < |a| && a[..j] == b[..j] && a[j] < b[j];
    var k :| 0 <= k < |a| && b[..k] == c[..k] && b[k] < c[k];
    var m := Min(j, k);
    assert a[..m] == c[..m] by {
      assert a[..m] == a[..j][..m] && b[..m] == b[..j][..m];
      assert b[..m] == b[..k][..m] && c[..m] == c[..k][..m];
    }
    if j < k {
      assert b[..k][j] == c[..k][j];
    } else if k < j {
      assert a[..j][k] == b[..j][k];
    }
  }

  /** A target strictly below the minimum or strictly above the maximum, once padded, fails the check. */
  lemma OutOfRangeFails(target: Option<string>, minVersion: Option<string>, maxVersion: Option<string>, n: nat)
    requires MaxTokenCount([target, minVersion, maxVersion]) == Ok(n)
    requires Padded(target, n).Ok? && Padded(minVersion, n).Ok? && Padded(maxVersion, n).Ok?
    requires LexLess(Padded(target, n).value, Padded(minVersion, n).value) ||
             LexLess(Padded(maxVersion, n).value, Padded(target, n).value)
    ensures !VersionCheck(target, minVersion, maxVersion)
  {
    var t, lo, hi := Padded(target, n).value, Padded(minVersion, n).value, Padded(maxVersion, n).value;
    if LexLess(t, lo) {
      LexLessAsymmetric(t, lo);
    } else {
      LexLessAsymmetric(hi, t);
    }
  }
}
