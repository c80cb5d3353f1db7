/**
 * The parts of the Kotlin/JVM runtime that the toolbox relies on: `Char.isWhitespace`,
 * `String.trim()`, and 32-bit `Int` arithmetic (wrap-around multiplication and
 * division that truncates toward zero).
 */
module KotlinStd {

  // ---------------------------------------------------------------------------
  // Characters and trimming
  // ---------------------------------------------------------------------------

  /**
   * Kotlin's `Char.isWhitespace()` on the JVM: `Character.isWhitespace(c) || Character.isSpaceChar(c)`,
   * that is the control characters U+0009..U+000D and U+001C..U+001F together with every
   * space, line and paragraph separator of the Unicode database.
   */
  predicate IsWhitespace(c: char)
  {
    var n := c as int;
    (0x09 <= n <= 0x0D) || (0x1C <= n <= 0x20) || n == 0xA0 || n == 0x1680
    || (0x2000 <= n <= 0x200A) || n == 0x2028 || n == 0x2029 || n == 0x202F
    || n == 0x205F || n == 0x3000
  }

  /** The string without its leading whitespace. */
  function TrimStart(s: string): (r: string)
    ensures |r| <= |s|
    ensures r == [] || !IsWhitespace(r[0])
  {
    if s != [] && IsWhitespace(s[0]) then TrimStart(s[1..]) else s
  }

  /** What `TrimStart` keeps is the rest of `s`. */
  lemma {:induction false} TrimStartSuffix(s: string)
    ensures TrimStart(s) == s[|s| - |TrimStart(s)|..]
  {
    if s != [] && IsWhitespace(s[0]) {
      TrimStartSuffix(s[1..]);
      assert s[1..][|s| - 1 - |TrimStart(s)|..] == s[|s| - |TrimStart(s)|..];
    }
  }

  /** What `TrimStart` cuts off is whitespace. */
  lemma {:induction false} TrimStartCutIsWhitespace(s: string)
    ensures forall i :: 0 <= i < |s| - |TrimStart(s)| ==> IsWhitespace(s[i])
  {
    if s != [] && IsWhitespace(s[0]) {
      TrimStartCutIsWhitespace(s[1..]);
      forall i | 1 <= i < |s| - |TrimStart(s)|
        ensures IsWhitespace(s[i])
      {
        assert s[i] == s[1..][i - 1];
      }
    }
  }

  /** The string without its trailing whitespace. */
  function TrimEnd(s: string): (r: string)
    ensures |r| <= |s|
    ensures r == [] || !IsWhitespace(r[|r| - 1])
    ensures r == [] || r[0] == s[0]
  {
    if s != [] && IsWhitespace(s[|s| - 1]) then TrimEnd(s[..|s| - 1]) else s
  }

  /** What `TrimEnd` keeps is the start of `s`. */
  lemma {:induction false} TrimEndPrefix(s: string)
    ensures TrimEnd(s) == s[..|TrimEnd(s)|]
  {
    if s != [] && IsWhitespace(s[|s| - 1]) {
      TrimEndPrefix(s[..|s| - 1]);
      assert s[..|s| - 1][..|TrimEnd(s)|] == s[..|TrimEnd(s)|];
    }
  }

  /** What `TrimEnd` cuts off is whitespace. */
  lemma {:induction false} TrimEndCutIsWhitespace(s: string)
    ensures forall i :: |TrimEnd(s)| <= i < |s| ==> IsWhitespace(s[i])
  {
    if s != [] && IsWhitespace(s[|s| - 1]) {
      TrimEndCutIsWhitespace(s[..|s| - 1]);
      forall i | |TrimEnd(s)| <= i < |s| - 1
        ensures IsWhitespace(s[i])
      {
        assert s[i] == s[..|s| - 1][i];
      }
    }
  }

  /** `String.trim()`: `s` without its leading and trailing whitespace. */
  function Trim(s: string): (r: string)
    ensures |r| <= |s|
    ensures r == [] || (!IsWhitespace(r[0]) && !IsWhitespace(r[|r| - 1]))
  {
    TrimEnd(TrimStart(s))
  }

  /**
   * The trim of `s` is an infix of `s`, and everything cut off on either side of it is
   * whitespace.
   */
  lemma TrimCuts(s: string)
    ensures var a, r := |s| - |TrimStart(s)|, Trim(s);
      a + |r| <= |s| && r == s[a..a + |r|]
      && (forall i :: 0 <= i < a ==> IsWhitespace(s[i]))
      && (forall i :: a + |r| <= i < |s| ==> IsWhitespace(s[i]))
  {
    TrimIsInfix(s);
    TrimStartCutIsWhitespace(s);
    TrimEndCutIsWhitespaceIn(s);
  }

  lemma TrimIsInfix(s: string)
    ensures var a, r := |s| - |TrimStart(s)|, Trim(s);
      a + |r| <= |s| && r == s[a..a + |r|]
  {
    var t := TrimStart(s);
    TrimStartSuffix(s);
    TrimEndPrefix(t);
    PrefixOfSuffix(s, |s| - |t|, |TrimEnd(t)|);
  }

  /** `TrimEndCutIsWhitespace` read in the indices of the untrimmed string. */
  lemma TrimEndCutIsWhitespaceIn(s: string)
    ensures var a, r := |s| - |TrimStart(s)|, Trim(s);
      forall i :: a + |r| <= i < |s| ==> IsWhitespace(s[i])
  {
    var t := TrimStart(s);
    var a := |s| - |t|;
    TrimStartSuffix(s);
    TrimEndCutIsWhitespace(t);
    forall i | a + |TrimEnd(t)| <= i < |s|
      ensures IsWhitespace(s[i])
    {
      assert s[i] == t[i - a];
    }
  }

  lemma PrefixOfSuffix(s: string, a: nat, n: nat)
    requires a + n <= |s|
    ensures s[a..][..n] == s[a..a + n]
  {
  }

  /** A string that neither starts nor ends with whitespace is its own trim. */
  lemma TrimOfTrimmed(s: string)
    requires s == [] || (!IsWhitespace(s[0]) && !IsWhitespace(s[|s| - 1]))
    ensures Trim(s) == s
  {
  }

  /**
   * Kotlin's `String.length`: the number of UTF-16 code units, which is two for a character
   * outside the Basic Multilingual Plane (a surrogate pair) and one for every other character.
   */
  function Utf16Length(s: string): (n: nat)
    ensures |s| <= n <= 2 * |s|
  {
    if s == [] then 0 else (if s[0] as int >= 0x10000 then 2 else 1) + Utf16Length(s[1..])
  }

  /**
   * A string is shorter than two UTF-16 units exactly when it is empty or one character of the
   * Basic Multilingual Plane.
   */
  lemma Utf16LengthBelowTwo(s: string)
    ensures Utf16Length(s) < 2 <==> s == [] || (|s| == 1 && s[0] as int < 0x10000)
  {
    if s != [] {
      assert Utf16Length(s) == (if s[0] as int >= 0x10000 then 2 else 1) + Utf16Length(s[1..]);
    }
  }

  // ---------------------------------------------------------------------------
  // 32-bit and 64-bit integers
  // ---------------------------------------------------------------------------

  const INT_MIN: int := -0x8000_0000
  const INT_MAX: int := 0x7FFF_FFFF
  const TWO_TO_32: int := 0x1_0000_0000

  /** Kotlin `Int`. */
  type Int32 = x: int | INT_MIN <= x <= INT_MAX

  /** Kotlin `Long`. */
  type Int64 = x: int | -0x8000_0000_0000_0000 <= x <= 0x7FFF_FFFF_FFFF_FFFF

  function Abs(x: int): (r: nat)
  {
    if x < 0 then -x else x
  }

  /**
   * The two's-complement reading of the low 32 bits of `x`: what a JVM `int` holds after an
   * operation whose exact result is `x`.
   */
  function Wrap32(x: int): (r: Int32)
    ensures (x - r) % TWO_TO_32 == 0
    ensures INT_MIN <= x <= INT_MAX ==> r == x
  {
    (x - INT_MIN) % TWO_TO_32 + INT_MIN
  }

  /**
   * JVM integer division: the quotient rounded toward zero (Dafny's own `/` is Euclidean).
   * The remainder `a - q * b` is smaller than `b` in magnitude and never has the opposite sign of `a`.
   */
  function TruncDiv(a: int, b: int): (q: int)
    requires b != 0
    ensures Abs(a - q * b) < Abs(b)
    ensures a >= 0 ==> a - q * b >= 0
    ensures a <= 0 ==> a - q * b <= 0
    ensures a >= 0 && b > 0 ==> q == a / b
    ensures Abs(q) <= Abs(a)
  {
    var m := Abs(a) / Abs(b);
    var q := if (a >= 0) == (b > 0) then m else -m;
    TruncDivCases(a, b, m);
    DivAtMost(Abs(a), Abs(b));
    var r := a - q * b;
    assert Abs(r) == Abs(a) % Abs(b);
    q
  }

  lemma TruncDivCases(a: int, b: int, m: int)
    requires b != 0 && m == Abs(a) / Abs(b)
    ensures 0 <= Abs(a) % Abs(b) < Abs(b)
    ensures var q := if (a >= 0) == (b > 0) then m else -m;
      a - q * b == (if a >= 0 then Abs(a) % Abs(b) else -(Abs(a) % Abs(b)))
  {
    var x, y := Abs(a), Abs(b);
    var r := x % y;
    var p := m * y;
    assert x == p + r;

    var q := if (a >= 0) == (b > 0) then m else -m;
    if b > 0 {
      assert y == b;
      assert q * b == (if a >= 0 then p else -p);
    } else {
      assert y == -b;
      MulNeg(m, b);
      assert q * b == (if a >= 0 then p else -p);
    }
    assert a - q * b == (if a >= 0 then r else -r);
  }

  lemma DivAtMost(x: nat, y: int)
    requires y >= 1
    ensures 0 <= x / y <= x
  {
    var m := x / y;
    assert m * y <= x;
    assert m * y - m == m * (y - 1);
  }

  lemma MulNeg(m: int, b: int)
    ensures (-m) * b == m * (-b) && m * b == -(m * (-b))
  {
  }
}
