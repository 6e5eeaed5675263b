/**
 * Java's fixed-width integer types and the arithmetic the modelled code relies
 * on: the signed `byte`, the 32-bit `int`, narrowing casts, `& 0xff`, and the
 * truncating remainder operator `%`.
 */
module JavaTypes {

  /** A Java `byte`: a signed two's-complement 8-bit value. */
  newtype byte = x: int | -128 <= x < 128

  /** A Java `int`: a signed two's-complement 32-bit value. */
  newtype int32 = x: int | -0x8000_0000 <= x < 0x8000_0000

  /** The Java narrowing cast `(byte) x`: keeps the low eight bits. */
  function ToByte(x: int): (b: byte)
    ensures (x - b as int) % 256 == 0
  {
    var m := x % 256;
    if m < 128 then m as byte else (m - 256) as byte
  }

  /** `b & 0xff`: the unsigned value of a byte. */
  function Unsigned(b: byte): (u: nat)
    ensures u < 256
    ensures (u - b as int) % 256 == 0
  {
    if b < 0 then b as int + 256 else b as int
  }

  /** The Java narrowing cast `(int) x` of a wider integer: keeps the low 32 bits. */
  function ToInt32(x: int): (r: int32)
    ensures (x - r as int) % 0x1_0000_0000 == 0
  {
    var m := x % 0x1_0000_0000;
    if m < 0x8000_0000 then m as int32 else (m - 0x1_0000_0000) as int32
  }

  /** Java `int` addition, which wraps around on overflow. */
  function AddInt32(a: int32, b: int32): (r: int32)
    ensures -0x8000_0000 <= a as int + b as int < 0x8000_0000 ==> r as int == a as int + b as int
  {
    ToInt32(a as int + b as int)
  }

  /** Java's `%` on `int`: the remainder takes the sign of the dividend. */
  function JavaRem(a: int, n: int): (r: int)
    requires n > 0
    ensures a >= 0 ==> 0 <= r < n
    ensures a < 0 ==> -n < r <= 0
  {
    if a >= 0 then a % n else -((-a) % n)
  }

  /** `%` leaves a non-negative value below the modulus alone. */
  lemma {:induction false} RemOfSmall(a: int, n: int)
    requires 0 <= a < n
    ensures JavaRem(a, n) == a
  {
    var q := a / n;
    assert a == q * n + a % n;
    if q != 0 {
      assert false;
    }
  }

  lemma {:induction false} UnsignedToByte(b: byte)
    ensures ToByte(Unsigned(b)) == b
  {
  }

  lemma {:induction false} ToByteOfSmall(x: int)
    requires -128 <= x < 128
    ensures ToByte(x) as int == x
  {
  }

  lemma {:induction false} ToInt32OfSmall(x: int)
    requires -0x8000_0000 <= x < 0x8000_0000
    ensures ToInt32(x) as int == x
  {
  }

  function Min(a: int, b: int): int { if a <= b then a else b }

  function Max(a: int, b: int): int { if a >= b then a else b }
}

/** Option and Result, and the Java exceptions the modelled code can raise. */
module Results {
  import opened JavaTypes

  datatype Option<+T> = None | Some(value: T)

  /** The kinds of Java exception the modelled code throws or lets escape. */
  datatype Exception =
    | IllegalArgument
    | IllegalState
    | IndexOutOfBounds
    | NegativeArraySize
    | NullPointer
    | NumberFormat
    | Arithmetic
    | Io
    | UndefinedMessageId(messageId: seq<byte>)
    | Instantiation
    | UnsupportedOperation
    | Runtime(cause: Exception)
    | RuntimeError   // a `RuntimeException` thrown with a message only
    | Failure        // a plain `Exception` thrown with a message only
    | FailureCausedBy(cause: Exception)   // a plain `Exception` wrapping its cause

  datatype Result<+T> = Ok(value: T) | Err(error: Exception)

  /** The outcome of a `void` Java method: it returned, or it threw. */
  datatype Outcome = Done | Threw(error: Exception)
}

/** `java.util.List` lookups and removal by equality, and sequence helpers shared by the modules. */
module Lists {

  /** `n` copies of `x`: with a zero, the contents of a fresh Java array of length `n`. */
  function Repeat<T>(x: T, n: nat): (r: seq<T>)
    ensures |r| == n && forall i | 0 <= i < n :: r[i] == x
  {
    seq(n, _ => x)
  }

  /** The sequences one after the other. */
  function Concat<T>(ss: seq<seq<T>>): seq<T>
    decreases |ss|
  {
    if ss == [] then [] else ss[0] + Concat(ss[1..])
  }

  lemma {:induction false} ConcatAppend<T>(a: seq<seq<T>>, b: seq<seq<T>>)
    ensures Concat(a + b) == Concat(a) + Concat(b)
    decreases |a|
  {
    if a == [] {
      assert a + b == b;
    } else {
      assert (a + b)[1..] == a[1..] + b;
      ConcatAppend(a[1..], b);
    }
  }

  /** A non-empty series ends with its last sequence. */
  lemma ConcatLast<T>(ss: seq<seq<T>>)
    requires ss != []
    ensures Concat(ss) == Concat(ss[..|ss| - 1]) + ss[|ss| - 1]
  {
    var init, last := ss[..|ss| - 1], ss[|ss| - 1];
    assert ss == init + [last];
    ConcatAppend(init, [last]);
    assert [last][1..] == [];
  }

  /** `indexOf`: the position of the first `x` in `s`, or -1. */
  function IndexOf<T(==)>(s: seq<T>, x: T): (i: int)
    ensures -1 <= i < |s|
    ensures i == -1 <==> x !in s
    ensures 0 <= i ==> s[i] == x && x !in s[..i]
    decreases |s|
  {
    if s == [] then -1
    else if s[0] == x then 0
    else
      var j := IndexOf(s[1..], x);
      assert j >= 0 ==> s[..j + 1] == [s[0]] + s[1..][..j];
      if j < 0 then -1 else j + 1
  }

  /**
   * `remove(Object)`: drops the first element equal to `x`, if there is one;
   * the elements before it stay in place and those after it move down by one.
   */
  function RemoveFirst<T(==)>(s: seq<T>, x: T): (r: seq<T>)
    ensures x !in s ==> r == s
    ensures x in s ==> |r| == |s| - 1 && multiset(r) == multiset(s) - multiset{x}
    ensures x in s ==> forall j | 0 <= j < IndexOf(s, x) :: r[j] == s[j]
    ensures x in s ==> forall j | IndexOf(s, x) <= j < |r| :: r[j] == s[j + 1]
  {
    var i := IndexOf(s, x);
    if i < 0 then s
    else
      assert s == s[..i] + [x] + s[i + 1..];
      s[..i] + s[i + 1..]
  }

}
