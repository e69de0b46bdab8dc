/**
 * The fragment of Java's `int`, `double` and `String` semantics that the visualizer
 * relies on: two's-complement wrap-around, the saturating `(int)` cast, truncating
 * division, `indexOf`, `substring`, `split` on a single character, `Integer.valueOf`
 * and (decimal notation only) `Double.valueOf`.
 */
module JavaLang {
  import opened Wrappers

  const MinInt32: int := -0x8000_0000
  const MaxInt32: int := 0x7fff_ffff
  const Modulus32: int := 0x1_0000_0000

  /** Values of Java's `int`. */
  type Int32 = x: int | -0x8000_0000 <= x <= 0x7fff_ffff

  /** The Java exceptions the core can throw. */
  datatype JavaException =
    | StringIndexOutOfBounds   // substring with a bad range
    | NumberFormat             // Integer.valueOf / Double.valueOf on a malformed text
    | ArrayIndexOutOfBounds    // an array access outside the array
    | Arithmetic               // integer division by zero

  // ---------------------------------------------------------------- integers

  /** The `int` result of an exact integer computation: congruent modulo 2^32. */
  function Wrap32(v: int): (r: Int32)
    ensures (r - v) % Modulus32 == 0
    ensures MinInt32 <= v <= MaxInt32 ==> r == v
  {
    (v + 0x8000_0000) % Modulus32 - 0x8000_0000
  }

  /** Java `int` addition wraps: adding a wrapped operand is adding the exact one. */
  lemma WrapAddWrap(a: int, b: int)
    ensures Wrap32(a + Wrap32(b)) == Wrap32(a + b)
  {
    var k := (Wrap32(b) - b) / Modulus32;
    assert Wrap32(b) == b + Modulus32 * k;
    assert (a + b + Modulus32 * k + 0x8000_0000) % Modulus32 == (a + b + 0x8000_0000) % Modulus32;
  }

  /** Java's `(int) d` for a double `d` that holds the integer `v`. */
  function SatInt32(v: int): Int32 {
    if v < MinInt32 then MinInt32 else if v > MaxInt32 then MaxInt32 else v
  }

  function Abs(v: int): nat {
    if v < 0 then -v else v
  }

  /** Java's `a / b` on `int`: rounds toward zero, and MIN_VALUE / -1 wraps. */
  function JavaDiv(a: Int32, b: Int32): (r: Int32)
    requires b != 0
    ensures 0 <= a && 0 < b ==> r == a / b
    ensures a < 0 && 0 < b ==> r == -(Abs(a) / b)
  {
    DivLe(Abs(a), Abs(b));
    Wrap32(if (a < 0) == (b < 0) then Abs(a) / Abs(b) else -(Abs(a) / Abs(b)))
  }

  /** A quotient by a positive divisor is no larger than the dividend. */
  lemma DivLe(n: nat, d: nat)
    requires d >= 1
    ensures n / d <= n
  {
  }

  /** Java's `(int) d` for a finite double `d`: truncation toward zero. */
  function TruncReal(t: real): int {
    if t >= 0.0 then t.Floor else -((-t).Floor)
  }

  // ---------------------------------------------------------------- strings

  predicate OccursAt(s: string, pat: string, k: int) {
    0 <= k && k + |pat| <= |s| && s[k..k + |pat|] == pat
  }

  /** `s.indexOf(pat, from)`: the first occurrence at or after `from`, or -1. */
  function IndexFrom(s: string, pat: string, from: nat): (r: int)
    requires from <= |s|
    ensures r == -1 || (from <= r && OccursAt(s, pat, r))
    ensures forall k :: from <= k < (if r == -1 then |s| + 1 else r) ==> !OccursAt(s, pat, k)
    decreases |s| - from
  {
    if OccursAt(s, pat, from) then from
    else if from == |s| then -1
    else IndexFrom(s, pat, from + 1)
  }

  /** `s.indexOf(pat)`. */
  function IndexOf(s: string, pat: string): (r: int)
    ensures r == -1 || OccursAt(s, pat, r)
    ensures forall k :: 0 <= k < (if r == -1 then |s| + 1 else r) ==> !OccursAt(s, pat, k)
  {
    IndexFrom(s, pat, 0)
  }

  /** `s.substring(b, e)`, which throws unless 0 <= b <= e <= length. */
  function Substring(s: string, b: int, e: int): (r: Result<string, JavaException>)
    ensures r.Ok? <==> 0 <= b <= e <= |s|
    ensures r.Ok? ==> |r.value| == e - b
    ensures r.Err? ==> r.error == StringIndexOutOfBounds
  {
    if 0 <= b <= e <= |s| then Ok(s[b..e]) else Err(StringIndexOutOfBounds)
  }

  /** The pieces of `s` between occurrences of `c`, empty pieces included. */
  function Pieces(s: string, c: char): (r: seq<string>)
    ensures |r| >= 1
    ensures forall k :: 0 <= k < |r| ==> c !in r[k]
    decreases |s|
  {
    if s == [] then [[]]
    else
      var rest := Pieces(s[1..], c);
      if s[0] == c then [[]] + rest else [[s[0]] + rest[0]] + rest[1..]
  }

  /** The inverse of `Pieces`: the pieces joined by `c`. */
  function Join(ps: seq<string>, c: char): string
    requires |ps| >= 1
  {
    if |ps| == 1 then ps[0] else ps[0] + [c] + Join(ps[1..], c)
  }

  /** Splitting on `c` and joining on `c` gives back the text. */
  lemma {:induction false} JoinPieces(s: string, c: char)
    ensures Join(Pieces(s, c), c) == s
    decreases |s|
  {
    if s != [] {
      JoinPieces(s[1..], c);
      var rest := Pieces(s[1..], c);
      if s[0] == c {
        assert ([[]] + rest)[1..] == rest;
      } else if |rest| == 1 {
        assert Join(rest, c) == rest[0];
      } else {
        assert ([[s[0]] + rest[0]] + rest[1..])[1..] == rest[1..];
        assert Join(rest, c) == rest[0] + [c] + Join(rest[1..], c);
      }
    }
  }

  /** A text without `c` in front of the rest extends the first piece of the rest. */
  lemma {:induction false} PiecesPrefix(a: string, rest: string, c: char)
    requires c !in a
    ensures Pieces(a + rest, c) == [a + Pieces(rest, c)[0]] + Pieces(rest, c)[1..]
    decreases |a|
  {
    if a != [] {
      PiecesPrefix(a[1..], rest, c);
      assert (a + rest)[1..] == a[1..] + rest;
      assert (a + rest)[0] == a[0];
      assert [a[0]] + (a[1..] + Pieces(rest, c)[0]) == a + Pieces(rest, c)[0];
    } else {
      var r := Pieces(rest, c);
      assert a + rest == rest;
      assert a + r[0] == r[0];
      assert r == [r[0]] + r[1..];
    }
  }

  /** Joining pieces free of `c` and cutting at `c` again gives back the pieces. */
  lemma {:induction false} PiecesJoin(ps: seq<string>, c: char)
    requires |ps| >= 1 && forall k :: 0 <= k < |ps| ==> c !in ps[k]
    ensures Pieces(Join(ps, c), c) == ps
  {
    if |ps| == 1 {
      PiecesPrefix(ps[0], [], c);
      assert ps[0] + [] == ps[0];
    } else {
      var rest := ps[1..];
      PiecesJoin(rest, c);
      var tail := [c] + Join(rest, c);
      assert Join(ps, c) == ps[0] + tail;
      PiecesPrefix(ps[0], tail, c);
      assert tail[1..] == Join(rest, c);
      assert Pieces(tail, c) == [[]] + rest;
      assert ps[0] + [] == ps[0];
    }
  }

  /** Drops the empty strings at the end of a split result. */
  function DropTrailingEmpty(ps: seq<string>): (r: seq<string>)
    ensures |r| <= |ps| && r == ps[..|r|]
    ensures forall k :: |r| <= k < |ps| ==> ps[k] == []
    ensures r == [] || r[|r| - 1] != []
  {
    if ps == [] then []
    else if ps[|ps| - 1] == [] then DropTrailingEmpty(ps[..|ps| - 1])
    else ps
  }

  /** One more empty piece adds one more separator to the join. */
  lemma {:induction false} JoinSnocEmpty(ps: seq<string>, c: char)
    requires |ps| >= 1
    ensures Join(ps + [[]], c) == Join(ps, c) + [c]
  {
    if |ps| > 1 {
      JoinSnocEmpty(ps[1..], c);
      assert (ps + [[]])[1..] == ps[1..] + [[]];
    }
  }

  /** The text joined from pieces with their trailing empty ones dropped. */
  function Joined(r: seq<string>, c: char): string {
    if r == [] then [] else Join(r, c)
  }

  /** `t` is `j` followed by separators only. */
  predicate PaddedBy(t: string, j: string, c: char) {
    |j| <= |t| && t[..|j|] == j && forall i :: |j| <= i < |t| ==> t[i] == c
  }

  /** Dropping the trailing empty pieces drops only separators at the end of the join. */
  lemma {:induction false} DropTrailingJoin(ps: seq<string>, c: char)
    requires |ps| >= 1
    ensures PaddedBy(Join(ps, c), Joined(DropTrailingEmpty(ps), c), c)
  {
    var pre := ps[..|ps| - 1];
    if ps[|ps| - 1] != [] {
    } else if |ps| == 1 {
      assert pre == [];
    } else {
      DropTrailingJoin(pre, c);
      assert ps == pre + [[]];
      JoinSnocEmpty(pre, c);
    }
  }

  /**
   * `s.split(c)` for a single non-meta character `c`: pieces free of `c` that,
   * joined on `c`, give `s` up to a run of separators at its end; when `c` occurs
   * the last piece is not empty, and the result is empty only for a text made of
   * separators alone.
   */
  function Split(s: string, c: char): (r: seq<string>)
    ensures forall k :: 0 <= k < |r| ==> c !in r[k]
    ensures c in s ==> r == [] || r[|r| - 1] != []
    ensures r == [] ==> s != []
    ensures PaddedBy(s, Joined(r, c), c)
  {
    if c !in s then
      [s]
    else
      JoinPieces(s, c);
      DropTrailingJoin(Pieces(s, c), c);
      DropTrailingEmpty(Pieces(s, c))
  }

  /**
   * `split` undoes joining on `c` pieces free of `c` whose last one is not empty
   * (`split` would drop trailing empty pieces).
   */
  lemma SplitJoin(ps: seq<string>, c: char)
    requires |ps| >= 1 && forall k :: 0 <= k < |ps| ==> c !in ps[k]
    requires ps[|ps| - 1] != []
    ensures Split(Join(ps, c), c) == ps
  {
    PiecesJoin(ps, c);
    if |ps| > 1 {
      assert Join(ps, c)[|ps[0]|] == c;
    }
  }

  // ---------------------------------------------------------------- numbers

  predicate IsDigit(ch: char) {
    '0' <= ch <= '9'
  }

  predicate AllDigits(s: string) {
    forall k :: 0 <= k < |s| ==> IsDigit(s[k])
  }

  /** The value of a string of decimal digits. */
  function DigitsValue(s: string): nat
    requires AllDigits(s)
  {
    if s == [] then 0
    else DigitsValue(s[..|s| - 1]) * 10 + (s[|s| - 1] as int - '0' as int)
  }

  /** The decimal digits of `n`, without leading zeros. */
  function DecimalDigits(n: nat): (r: string)
    ensures |r| >= 1 && AllDigits(r)
  {
    if n < 10 then [(n + '0' as int) as char]
    else DecimalDigits(n / 10) + [((n % 10) + '0' as int) as char]
  }

  /** How Java prints an `int`. */
  function IntString(n: int): (r: string)
    ensures |r| >= 1
  {
    if n < 0 then "-" + DecimalDigits(-n) else DecimalDigits(n)
  }

  lemma {:induction false} DigitsValueOfDecimal(n: nat)
    ensures DigitsValue(DecimalDigits(n)) == n
  {
    if n >= 10 {
      DigitsValueOfDecimal(n / 10);
      var d := DecimalDigits(n / 10) + [((n % 10) + '0' as int) as char];
      assert d[..|d| - 1] == DecimalDigits(n / 10);
    }
  }

  /**
   * `Integer.valueOf(s)`: an optional sign and at least one decimal digit, with a
   * value in the `int` range; anything else throws NumberFormatException.
   */
  function ParseInt(s: string): (r: Result<Int32, JavaException>)
    ensures r.Err? ==> r.error == NumberFormat
    ensures r.Ok? ==> |s| > 0 && (s[0] != '-' && s[0] != '+' ==> AllDigits(s))
  {
    if |s| == 0 then Err(NumberFormat)
    else
      var digits := if s[0] == '-' || s[0] == '+' then s[1..] else s;
      if |digits| == 0 || !AllDigits(digits) then Err(NumberFormat)
      else
        var v: int := if s[0] == '-' then -(DigitsValue(digits) as int) else DigitsValue(digits);
        if MinInt32 <= v <= MaxInt32 then Ok(v) else Err(NumberFormat)
  }

  /** Parsing what Java prints gives back the `int`. */
  lemma ParseIntString(n: Int32)
    ensures ParseInt(IntString(n)) == Ok(n)
  {
    var m: nat := if n < 0 then -(n as int) else n;
    var d := DecimalDigits(m);
    DigitsValueOfDecimal(m);
    assert IsDigit(d[0]);
    if n < 0 {
      assert IntString(n)[1..] == d;
    } else {
      assert IntString(n) == d;
    }
  }

  function Pow10(k: nat): (r: nat)
    ensures r >= 1
  {
    if k == 0 then 1 else 10 * Pow10(k - 1)
  }

  /** Java's whitespace for `String.trim`: every character up to `' '`. */
  predicate IsBlank(ch: char) {
    ch <= ' '
  }

  predicate AllBlank(s: string) {
    forall k :: 0 <= k < |s| ==> IsBlank(s[k])
  }

  function TrimStart(s: string): string
    decreases |s|
  {
    if s != [] && IsBlank(s[0]) then TrimStart(s[1..]) else s
  }

  function TrimEnd(s: string): string
    decreases |s|
  {
    if s != [] && IsBlank(s[|s| - 1]) then TrimEnd(s[..|s| - 1]) else s
  }

  /** `s.trim()`: the text without its blank characters at either end. */
  function Trim(s: string): string {
    TrimEnd(TrimStart(s))
  }

  lemma {:induction false} TrimStartPadded(pre: string, rest: string)
    requires AllBlank(pre) && rest != [] && !IsBlank(rest[0])
    ensures TrimStart(pre + rest) == rest
    decreases |pre|
  {
    if pre != [] {
      assert (pre + rest)[1..] == pre[1..] + rest;
      TrimStartPadded(pre[1..], rest);
    } else {
      assert pre + rest == rest;
    }
  }

  lemma {:induction false} TrimEndPadded(rest: string, post: string)
    requires AllBlank(post) && rest != [] && !IsBlank(rest[|rest| - 1])
    ensures TrimEnd(rest + post) == rest
    decreases |post|
  {
    if post != [] {
      var all := rest + post;
      assert all[..|all| - 1] == rest + post[..|post| - 1];
      TrimEndPadded(rest, post[..|post| - 1]);
    } else {
      assert rest + post == rest;
    }
  }

  /** Trimming drops exactly the blanks around a text that starts and ends with a non-blank. */
  lemma TrimPadded(pre: string, t: string, post: string)
    requires AllBlank(pre) && AllBlank(post)
    requires t != [] && !IsBlank(t[0]) && !IsBlank(t[|t| - 1])
    ensures Trim(pre + t + post) == t
  {
    assert pre + t + post == pre + (t + post);
    TrimStartPadded(pre, t + post);
    TrimEndPadded(t, post);
  }

  /**
   * Decimal notation as `Double.valueOf` reads it: an optional sign, digits, an
   * optional point followed by digits, with at least one digit in all; the value
   * is the exact rational number written.
   */
  function ParseDecimal(s: string): (r: Result<real, JavaException>)
    ensures r.Err? ==> r.error == NumberFormat
  {
    if |s| == 0 then Err(NumberFormat)
    else
      var body := if s[0] == '-' || s[0] == '+' then s[1..] else s;
      var dot := IndexOf(body, ".");
      var whole := if dot < 0 then body else body[..dot];
      var frac := if dot < 0 then [] else body[dot + 1..];
      if |whole| + |frac| == 0 || !AllDigits(whole) || !AllDigits(frac) then Err(NumberFormat)
      else
        var mag := DigitsValue(whole) as real + DigitsValue(frac) as real / Pow10(|frac|) as real;
        Ok(if s[0] == '-' then -mag else mag)
  }

  /** The type suffixes `Double.valueOf` accepts after the number. */
  predicate IsTypeSuffix(ch: char) {
    ch == 'd' || ch == 'D' || ch == 'f' || ch == 'F'
  }

  /**
   * `Double.valueOf(s)` on plain decimal notation: the text is trimmed, and one
   * type suffix d, D, f or F after the number is dropped.
   */
  function ParseDouble(s: string): (r: Result<real, JavaException>)
    ensures r.Err? ==> r.error == NumberFormat
  {
    var t := Trim(s);
    ParseDecimal(if |t| > 0 && IsTypeSuffix(t[|t| - 1]) then t[..|t| - 1] else t)
  }

  /** A string of digits holds no decimal point. */
  lemma NoPointInDigits(s: string)
    requires AllDigits(s)
    ensures IndexOf(s, ".") == -1
  {
    forall k | 0 <= k <= |s| ensures !OccursAt(s, ".", k) {
      if k < |s| {
        assert s[k..k + 1][0] == s[k];
      }
    }
  }

  /** A printed `int` reads as that number in decimal notation. */
  lemma ParseDecimalIntString(n: Int32)
    ensures ParseDecimal(IntString(n)) == Ok(n as real)
  {
    var m: nat := if n < 0 then -(n as int) else n;
    var body := DecimalDigits(m);
    DigitsValueOfDecimal(m);
    NoPointInDigits(body);
    if n < 0 {
      assert IntString(n)[1..] == body;
    }
  }

  /**
   * A printed `int`, with blanks around it and an optional type suffix, parses as
   * that number.
   */
  lemma ParseDoublePadded(n: Int32, pre: string, suffix: string, post: string)
    requires AllBlank(pre) && AllBlank(post)
    requires suffix == [] || (|suffix| == 1 && IsTypeSuffix(suffix[0]))
    ensures ParseDouble(pre + IntString(n) + suffix + post) == Ok(n as real)
  {
    var m: nat := if n < 0 then -(n as int) else n;
    var d := DecimalDigits(m);
    var t := IntString(n) + suffix;
    assert IsDigit(d[|d| - 1]);
    if n < 0 {
      assert IntString(n) == "-" + d;
    }
    assert t[|t| - 1] == if suffix == [] then d[|d| - 1] else suffix[0];
    assert pre + IntString(n) + suffix + post == pre + t + post;
    TrimPadded(pre, t, post);
    assert (if IsTypeSuffix(t[|t| - 1]) then t[..|t| - 1] else t) == IntString(n);
    ParseDecimalIntString(n);
  }

  /** A printed `int` parses as that number. */
  lemma ParseDoubleIntString(n: Int32)
    ensures ParseDouble(IntString(n)) == Ok(n as real)
  {
    ParseDoublePadded(n, [], [], []);
    assert [] + IntString(n) + [] + [] == IntString(n);
  }
}
