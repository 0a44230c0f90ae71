/** Values and string conventions shared by the backend and frontend models:
    optional values, PHP truthiness of strings, decimal rendering of
    integers, SQL `LIKE '%x%'` matching and the ordering used for names. */
module Base {

  datatype Option<T> = None | Some(value: T) {
    function GetOr(default: T): T {
      match this
      case Some(v) => v
      case None => default
    }
  }

  datatype Result<T, E> = Ok(value: T) | Err(error: E)

  function Min(a: int, b: int): int { if a <= b then a else b }
  function Max(a: int, b: int): int { if a >= b then a else b }

  /** PHP treats the strings "" and "0" as false in a boolean context
      (`if ($s)`, `$s ?: $d`, `empty($s)`). */
  predicate Truthy(s: string) {
    s != "" && s != "0"
  }

  /** The same test on a nullable string column: null is false. */
  predicate TruthyOpt(s: Option<string>) {
    s.Some? && Truthy(s.value)
  }

  /** Laravel's `asset($path)`: the application root URL, a slash, the path. */
  function Asset(root: string, path: string): string {
    root + "/" + path
  }

  predicate IsDigit(c: char) { '0' <= c <= '9' }

  predicate AllDigits(s: string) {
    forall i :: 0 <= i < |s| ==> IsDigit(s[i])
  }

  function DigitChar(d: nat): (c: char)
    requires d < 10
    ensures IsDigit(c) && c as int - '0' as int == d
  {
    (('0' as int) + d) as char
  }

  /** Decimal rendering of a non-negative integer, as PHP's string
      interpolation and `sprintf('%d')` produce it. */
  function NatToString(n: nat): (s: string)
    ensures |s| >= 1 && AllDigits(s)
    ensures |s| > 1 ==> s[0] != '0'
    decreases n
  {
    if n < 10 then [DigitChar(n)] else NatToString(n / 10) + [DigitChar(n % 10)]
  }

  /** The value of a string of decimal digits. */
  function DigitsValue(s: string): nat
    requires AllDigits(s)
    decreases |s|
  {
    if s == [] then 0 else DigitsValue(s[..|s| - 1]) * 10 + (s[|s| - 1] as int - '0' as int)
  }

  /** Reading a rendered number back gives the number. */
  lemma {:induction false} NatToStringRoundTrip(n: nat)
    ensures DigitsValue(NatToString(n)) == n
    decreases n
  {
    if n >= 10 {
      var s := NatToString(n);
      NatToStringRoundTrip(n / 10);
      assert s[..|s| - 1] == NatToString(n / 10);
    }
  }

  /** Left-pads a digit string with zeros to at least `width` characters
      (PHP's date formats `d`, `m`, `H`, `i`, `s` and `Y`). */
  function PadZeros(s: string, width: nat): (r: string)
    ensures |r| == Max(|s|, width)
    ensures r[|r| - |s|..] == s
    ensures forall i :: 0 <= i < |r| - |s| ==> r[i] == '0'
  {
    if |s| >= width then s else seq(width - |s|, _ => '0') + s
  }

  /** Regrouping step for the round-trip proofs: concatenation is
      associative. */
  lemma ConcatAssoc(a: string, b: string, c: string)
    ensures a + b + c == a + (b + c)
  {
  }

  /** Proof helper for the round trips: the two halves of a
      concatenation, taken apart again. */
  lemma DropFront(a: string, b: string)
    ensures (a + b)[..|a|] == a && (a + b)[|a|..] == b
  {
  }

  predicate IsPrefix(p: string, s: string) {
    |p| <= |s| && s[..|p|] == p
  }

  /** `sub` occurs somewhere in `s`, character for character. */
  predicate Contains(s: string, sub: string)
    decreases |s|
  {
    IsPrefix(sub, s) || (|s| > 0 && Contains(s[1..], sub))
  }

  /** Character-code lexicographic order. */
  predicate LexLe(a: string, b: string)
    decreases |a|
  {
    a == [] || (b != [] && (a[0] < b[0] || (a[0] == b[0] && LexLe(a[1..], b[1..]))))
  }

  lemma {:induction false} LexLeTotal(a: string, b: string)
    ensures LexLe(a, b) || LexLe(b, a)
    decreases |a|
  {
    if a != [] && b != [] && a[0] == b[0] {
      LexLeTotal(a[1..], b[1..]);
    }
  }

  lemma {:induction false} LexLeTransitive(a: string, b: string, c: string)
    requires LexLe(a, b) && LexLe(b, c)
    ensures LexLe(a, c)
    decreases |a|
  {
    if a != [] && b != [] && c != [] && a[0] == b[0] && b[0] == c[0] {
      LexLeTransitive(a[1..], b[1..], c[1..]);
    }
  }

  /** Case folding of the ASCII letters, the part of the database's
      `utf8mb4_unicode_ci` collation that the model keeps. */
  function FoldChar(c: char): char {
    if 'A' <= c <= 'Z' then (c as int + 32) as char else c
  }

  function Fold(s: string): (r: string)
    ensures |r| == |s|
  {
    seq(|s|, i requires 0 <= i < |s| => FoldChar(s[i]))
  }

  lemma FoldIdempotent(s: string)
    ensures Fold(Fold(s)) == Fold(s)
  {
    assert forall i :: 0 <= i < |s| ==> FoldChar(FoldChar(s[i])) == FoldChar(s[i]);
  }

  /** Two texts the case-insensitive collation compares as equal. */
  predicate SameText(a: string, b: string) {
    Fold(a) == Fold(b)
  }

  /** SQL `column LIKE '%sub%'` under a case-insensitive collation:
      `sub` occurs in `s` once both are folded. */
  predicate Like(s: string, sub: string) {
    Contains(Fold(s), Fold(sub))
  }

  /** `ORDER BY` on a text column under a case-insensitive collation. */
  predicate CiLe(a: string, b: string) {
    LexLe(Fold(a), Fold(b))
  }

  /** The search ignores the case of both the column and the text. */
  lemma LikeIgnoresCase(s: string, sub: string)
    ensures Like(s, sub) <==> Like(Fold(s), Fold(sub))
  {
    FoldIdempotent(s);
    FoldIdempotent(sub);
  }

  /** Texts the collation holds equal are interchangeable in a search,
      on either side. */
  lemma LikeRespectsSameText(s: string, t: string, sub: string, tsub: string)
    requires SameText(s, t) && SameText(sub, tsub)
    ensures Like(s, sub) <==> Like(t, tsub)
  {
  }

  /** A text and its folded form are the same text to the collation. */
  lemma FoldIsSameText(s: string)
    ensures SameText(s, Fold(s))
  {
    FoldIdempotent(s);
  }

  lemma CiLeTotal(a: string, b: string)
    ensures CiLe(a, b) || CiLe(b, a)
  {
    LexLeTotal(Fold(a), Fold(b));
  }

  lemma CiLeTransitive(a: string, b: string, c: string)
    requires CiLe(a, b) && CiLe(b, c)
    ensures CiLe(a, c)
  {
    LexLeTransitive(Fold(a), Fold(b), Fold(c));
  }

  /** `NULL` sorts before every text, as MySQL orders it ascending. */
  predicate OptLe(a: Option<string>, b: Option<string>) {
    a.None? || (b.Some? && CiLe(a.value, b.value))
  }

  lemma OptLeTotal(a: Option<string>, b: Option<string>)
    ensures OptLe(a, b) || OptLe(b, a)
  {
    if a.Some? && b.Some? { CiLeTotal(a.value, b.value); }
  }

  lemma OptLeTransitive(a: Option<string>, b: Option<string>, c: Option<string>)
    requires OptLe(a, b) && OptLe(b, c)
    ensures OptLe(a, c)
  {
    if a.Some? { CiLeTransitive(a.value, b.value, c.value); }
  }
}
