/** Text helpers the service relies on: Kotlin's `String.toIntOrNull()` and
    `Int.toString()`, lower-casing (Kotlin `lowercase()` / SQL `lower`), and
    SQL `LIKE` pattern matching as PostgreSQL performs it. */
module Text {
  import opened Common

  // ---------------------------------------------------------------------------
  // Decimal integers
  // ---------------------------------------------------------------------------

  predicate IsDigit(c: char) { '0' <= c <= '9' }

  predicate AllDigits(s: string) { forall i :: 0 <= i < |s| ==> IsDigit(s[i]) }

  function DigitValue(c: char): nat
    requires IsDigit(c)
  {
    c as int - '0' as int
  }

  /** The value of a string of decimal digits, most significant first. */
  function DecimalValue(s: string): nat
    requires AllDigits(s)
  {
    if s == [] then 0 else DecimalValue(s[..|s| - 1]) * 10 + DigitValue(s[|s| - 1])
  }

  /** The digits after an optional sign: present, all decimal, and the signed
      value inside the range of a 32-bit `Int`; otherwise `null`. */
  function SignedDigits(d: string, negative: bool): Option<Int32>
    requires d != []
  {
    if !AllDigits(d) then None
    else
      var v := if negative then -(DecimalValue(d) as int) else DecimalValue(d) as int;
      if MinInt32 <= v <= MaxInt32 then Some(v) else None
  }

  /** Kotlin `String.toIntOrNull()` in radix 10: an optional leading `-` or
      `+`, then at least one digit, and a value that fits an `Int`. A first
      character below `'0'` is read as a sign; any other non-digit rejects. */
  function ToIntOrNull(s: string): Option<Int32>
  {
    if |s| == 0 then None
    else if s[0] < '0' then
      if |s| == 1 then None
      else if s[0] == '-' then SignedDigits(s[1..], true)
      else if s[0] == '+' then SignedDigits(s[1..], false)
      else None
    else SignedDigits(s, false)
  }

  function DigitChar(d: nat): (c: char)
    requires d < 10
    ensures IsDigit(c) && DigitValue(c) == d
  {
    ('0' as int + d) as char
  }

  /** Decimal digits of a natural number, without leading zeros. */
  function NatToString(n: nat): string
  {
    if n < 10 then [DigitChar(n)] else NatToString(n / 10) + [DigitChar(n % 10)]
  }

  /** Kotlin `Int.toString()`: a `-` for negative numbers, then the digits. */
  function IntToString(n: int): string
  {
    if n < 0 then "-" + NatToString(-n) else NatToString(n)
  }

  lemma {:induction false} NatToStringValue(n: nat)
    ensures NatToString(n) != [] && AllDigits(NatToString(n))
    ensures DecimalValue(NatToString(n)) == n
  {
    if n >= 10 {
      NatToStringValue(n / 10);
      var s := NatToString(n);
      assert s[..|s| - 1] == NatToString(n / 10);
    }
  }

  /** Parsing what `Int.toString()` prints gives back the number. */
  lemma ToIntOrNullRoundTrip(n: Int32)
    ensures ToIntOrNull(IntToString(n)) == Some(n)
  {
    var s := IntToString(n);
    if n < 0 {
      var m: nat := -(n as int);
      NatToStringValue(m);
      var d := NatToString(m);
      assert s == "-" + d;
      assert s[0] == '-' && s[1..] == d && |s| >= 2;
      assert SignedDigits(d, true) == Some(n);
    } else {
      NatToStringValue(n);
      assert s == NatToString(n);
      assert IsDigit(s[0]);
      assert SignedDigits(s, false) == Some(n);
    }
  }

  /** The empty string, a lone sign and any text holding an ASCII letter
      are not numbers: `toIntOrNull` gives `null` for them. */
  lemma ToIntOrNullRejects(s: string)
    requires s == [] || s == "-" || s == "+" || (exists i :: 0 <= i < |s| && ('a' <= s[i] <= 'z' || 'A' <= s[i] <= 'Z'))
    ensures ToIntOrNull(s) == None
  {
  }

  // ---------------------------------------------------------------------------
  // Lower-casing
  // ---------------------------------------------------------------------------

  function LowerChar(c: char): char
  {
    if 'A' <= c <= 'Z' then (c as int + 32) as char else c
  }

  /** `lowercase()` / SQL `lower(...)`, on the ASCII letters. */
  function Lower(s: string): (r: string)
    ensures |r| == |s|
  {
    seq(|s|, i requires 0 <= i < |s| => LowerChar(s[i]))
  }

  // ---------------------------------------------------------------------------
  // SQL LIKE
  // ---------------------------------------------------------------------------

  /** PostgreSQL `s LIKE p` with the default escape character `\`: `%`
      matches any run of characters, `_` exactly one, `\x` the character x,
      and every other character itself. The whole of `s` must match. */
  predicate Like(s: string, p: string)
    decreases |p|, |s|
  {
    if p == [] then s == []
    else if p[0] == '%' then Like(s, p[1..]) || (s != [] && Like(s[1..], p))
    else if p[0] == '_' then s != [] && Like(s[1..], p[1..])
    else if p[0] == '\\' then
      // a pattern ending in the escape character is an error in PostgreSQL
      |p| >= 2 && s != [] && s[0] == p[1] && Like(s[1..], p[2..])
    else s != [] && s[0] == p[0] && Like(s[1..], p[1..])
  }

  /** No character of `q` has a meaning of its own in a LIKE pattern. */
  predicate NoLikeMeta(q: string)
  {
    forall i :: 0 <= i < |q| ==> q[i] != '%' && q[i] != '_' && q[i] != '\\'
  }

  lemma {:induction false} LikeAnyMatches(s: string)
    ensures Like(s, "%")
  {
    if s != [] {
      LikeAnyMatches(s[1..]);
    }
  }

  /** `s LIKE q || '%'` is a prefix test when `q` holds no metacharacter. */
  lemma {:induction false} LikePrefix(s: string, q: string)
    requires NoLikeMeta(q)
    ensures Like(s, q + "%") <==> q <= s
  {
    var p := q + "%";
    if q == [] {
      assert p == "%";
      LikeAnyMatches(s);
    } else {
      assert p[0] == q[0] && p[1..] == q[1..] + "%";
      if s != [] {
        LikePrefix(s[1..], q[1..]);
        assert q <= s <==> q[0] == s[0] && q[1..] <= s[1..];
      }
    }
  }

  lemma LowerKeepsNoLikeMeta(q: string)
    requires NoLikeMeta(q)
    ensures NoLikeMeta(Lower(q))
  {
  }
}
