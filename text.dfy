/**
 * The string operations the program relies on from Rust's standard library:
 * decimal formatting of integers, `repeat`, `join`, `split` on a character,
 * `contains`, `to_lowercase` (ASCII part), `trim_end`, and the ordering of
 * `String` values used by `>`.
 */
module Text {

  // ---------------------------------------------------------------------------
  // Decimal formatting (`{}` of an integer)
  // ---------------------------------------------------------------------------

  predicate IsDigit(c: char) {
    '0' <= c <= '9'
  }

  function DigitChar(d: nat): (c: char)
    requires d < 10
    ensures IsDigit(c) && c as int - '0' as int == d
  {
    ('0' as int + d) as char
  }

  /** The decimal text of a non-negative integer, without leading zeros. */
  function NatToString(n: nat): (s: string)
    ensures |s| >= 1
    ensures forall i :: 0 <= i < |s| ==> IsDigit(s[i])
    ensures s[0] == '0' ==> n == 0
    ensures n == 0 ==> s == "0"
    decreases n
  {
    if n < 10 then [DigitChar(n)] else NatToString(n / 10) + [DigitChar(n % 10)]
  }

  function DigitValue(c: char): nat
    requires IsDigit(c)
  {
    c as int - '0' as int
  }

  /** Reads back a string of decimal digits; the reference against which `NatToString` is checked. */
  function ParseDecimal(s: string): nat
    requires forall i :: 0 <= i < |s| ==> IsDigit(s[i])
  {
    if s == [] then 0
    else ParseDecimal(s[..|s| - 1]) * 10 + DigitValue(s[|s| - 1])
  }

  /** Formatting a number in decimal loses nothing: parsing the text gives the number back. */
  lemma {:induction false} DecimalRoundTrip(n: nat)
    ensures ParseDecimal(NatToString(n)) == n
  {
    if n >= 10 {
      DecimalRoundTrip(n / 10);
      var s := NatToString(n);
      assert s[..|s| - 1] == NatToString(n / 10);
    }
  }

  /** A run of decimal digits without a leading zero, as `{}` writes a `u64`. */
  predicate IsDecimalText(s: string) {
    && |s| >= 1
    && (forall i :: 0 <= i < |s| ==> IsDigit(s[i]))
    && (s[0] == '0' ==> |s| == 1)
  }

  /** `{}` of an `i64`: decimal text with a leading '-' for a negative number and no "-0". */
  predicate IsIntText(s: string) {
    || IsDecimalText(s)
    || (|s| >= 2 && s[0] == '-' && IsDecimalText(s[1..]) && s[1] != '0')
  }

  /** Reads back the text of a signed integer. */
  function ParseInt(s: string): int
    requires IsIntText(s)
  {
    if s[0] == '-' then -(ParseDecimal(s[1..]) as int) else ParseDecimal(s)
  }

  /** The decimal text of a signed integer, with a leading '-' when negative. */
  function IntToString(x: int): (s: string)
    ensures |s| >= 1
    ensures (x < 0) <==> s[0] == '-'
  {
    if x < 0 then "-" + NatToString(-x) else NatToString(x)
  }

  /** Formatting a signed integer loses nothing: the text is well formed and parses back to the number. */
  lemma IntRoundTrip(x: int)
    ensures IsIntText(IntToString(x)) && ParseInt(IntToString(x)) == x
  {
    if x < 0 {
      DecimalRoundTrip(-x);
      assert IntToString(x)[1..] == NatToString(-x);
    } else {
      DecimalRoundTrip(x);
    }
  }

  // ---------------------------------------------------------------------------
  // `str::repeat` and `join`
  // ---------------------------------------------------------------------------

  /** `s` written `n` times in a row. */
  function Repeat(s: string, n: nat): (r: string)
    ensures |r| == n * |s|
  {
    if n == 0 then "" else s + Repeat(s, n - 1)
  }

  /** Copy number `i` of `Repeat(s, n)` sits at offset `i * |s|` and is `s` itself. */
  lemma {:induction false} RepeatCopy(s: string, n: nat, i: nat)
    requires i < n
    ensures (i + 1) * |s| <= |Repeat(s, n)|
    ensures Repeat(s, n)[i * |s|..(i + 1) * |s|] == s
  {
    var rest := Repeat(s, n - 1);
    assert Repeat(s, n) == s + rest;
    if i > 0 {
      RepeatCopy(s, n - 1, i - 1);
      assert i * |s| == |s| + (i - 1) * |s| && (i + 1) * |s| == |s| + i * |s|;
      assert (s + rest)[i * |s|..(i + 1) * |s|] == rest[(i - 1) * |s|..i * |s|];
    }
  }

  /** `n` blanks. */
  function Spaces(n: nat): (r: string)
    ensures |r| == n
    ensures forall i :: 0 <= i < n ==> r[i] == ' '
  {
    if n == 0 then "" else " " + Spaces(n - 1)
  }

  /** `parts.join(sep)`: the parts in order with `sep` between neighbours; no parts give "". */
  function Join(parts: seq<string>, sep: string): (r: string)
  {
    if |parts| == 0 then ""
    else if |parts| == 1 then parts[0]
    else parts[0] + sep + Join(parts[1..], sep)
  }

  /** Appending a part appends exactly one separator and that part, after what was there. */
  lemma {:induction false} JoinSnoc(parts: seq<string>, p: string, sep: string)
    ensures Join(parts + [p], sep) == if parts == [] then p else Join(parts, sep) + sep + p
  {
    if |parts| >= 2 {
      assert (parts + [p])[1..] == parts[1..] + [p];
      JoinSnoc(parts[1..], p, sep);
    } else if |parts| == 1 {
      assert (parts + [p])[1..] == [p];
    }
  }

  function TotalLength(parts: seq<string>): nat
  {
    if parts == [] then 0 else |parts[0]| + TotalLength(parts[1..])
  }

  /** `n` parts joined hold their own characters plus exactly `n - 1` separators. */
  lemma {:induction false} JoinLength(parts: seq<string>, sep: string)
    requires |parts| >= 1
    ensures |Join(parts, sep)| == TotalLength(parts) + (|parts| - 1) * |sep|
  {
    if |parts| >= 2 {
      JoinLength(parts[1..], sep);
    }
  }

  // ---------------------------------------------------------------------------
  // `str::split` on a single character
  // ---------------------------------------------------------------------------

  /** `s.split(c)`: the maximal pieces between occurrences of `c`, always at least one. */
  function Split(s: string, c: char): (r: seq<string>)
    ensures |r| >= 1
    decreases |s|
  {
    if s == [] then [""]
    else
      var rest := Split(s[1..], c);
      if s[0] == c then [""] + rest
      else [[s[0]] + rest[0]] + rest[1..]
  }

  /** Joining the pieces back with the separator gives the original string. */
  lemma {:induction false} SplitJoin(s: string, c: char)
    ensures Join(Split(s, c), [c]) == s
  {
    if s != [] {
      var rest := Split(s[1..], c);
      SplitJoin(s[1..], c);
      assert s == [s[0]] + s[1..];
      if s[0] == c {
        assert Split(s, c) == [""] + rest;
        assert ([""] + rest)[1..] == rest;
      } else if |rest| == 1 {
        assert Split(s, c) == [[s[0]] + rest[0]];
      } else {
        assert Split(s, c) == [[s[0]] + rest[0]] + rest[1..];
        assert Split(s, c)[1..] == rest[1..];
        assert Join(rest, [c]) == rest[0] + [c] + Join(rest[1..], [c]);
      }
    }
  }

  /** No piece contains the separator. */
  lemma {:induction false} SplitPiecesFree(s: string, c: char)
    ensures forall k :: 0 <= k < |Split(s, c)| ==> c !in Split(s, c)[k]
  {
    if s != [] {
      SplitPiecesFree(s[1..], c);
    }
  }

  /** Conversely, splitting parts joined with a separator they do not contain gives the parts back. */
  lemma {:induction false} JoinSplit(parts: seq<string>, c: char)
    requires |parts| >= 1
    requires forall k :: 0 <= k < |parts| ==> c !in parts[k]
    ensures Split(Join(parts, [c]), c) == parts
  {
    if |parts| == 1 {
      SplitOfFree(parts[0], c);
    } else {
      JoinSplit(parts[1..], c);
      SplitAfterFreePrefix(parts[0], Join(parts[1..], [c]), c);
      assert [parts[0]] + parts[1..] == parts;
    }
  }

  /** A string without the separator is one piece. */
  lemma {:induction false} SplitOfFree(s: string, c: char)
    requires c !in s
    ensures Split(s, c) == [s]
  {
    if s != [] {
      SplitOfFree(s[1..], c);
      assert [s[0]] + s[1..] == s;
    }
  }

  /** Splitting `p + [c] + q` where `p` has no separator: `p` is the first piece, the pieces of `q` follow. */
  lemma {:induction false} SplitAfterFreePrefix(p: string, q: string, c: char)
    requires c !in p
    ensures Split(p + [c] + q, c) == [p] + Split(q, c)
    decreases |p|
  {
    if p == [] {
      assert (p + [c] + q)[1..] == q;
    } else {
      SplitAfterFreePrefix(p[1..], q, c);
      assert (p + [c] + q)[1..] == p[1..] + [c] + q;
      assert (p + [c] + q)[0] == p[0] && p[0] != c;
      assert [p[0]] + p[1..] == p;
    }
  }

  /**
   * Cutting at the first separator: the text before it is the first piece and
   * the pieces of the text after it follow, so the second piece runs from just
   * after the first separator to the next one (or the end).
   */
  lemma SplitAtFirst(s: string, c: char, k: nat)
    requires k < |s| && s[k] == c && c !in s[..k]
    ensures Split(s, c) == [s[..k]] + Split(s[k + 1..], c)
  {
    SplitAfterFreePrefix(s[..k], s[k + 1..], c);
    assert s[..k] + [c] + s[k + 1..] == s;
  }

  /** A string that contains the separator splits into at least two pieces. */
  lemma {:induction false} SplitAtLeastTwo(s: string, c: char)
    requires c in s
    ensures |Split(s, c)| >= 2
  {
    if s[0] != c {
      assert c in s[1..] by {
        var k :| 0 <= k < |s| && s[k] == c;
        assert s[1..][k - 1] == c;
      }
      SplitAtLeastTwo(s[1..], c);
    }
  }

  // ---------------------------------------------------------------------------
  // `str::starts_with` and `str::contains` for a string pattern
  // ---------------------------------------------------------------------------

  predicate StartsWith(s: string, p: string) {
    |p| <= |s| && s[..|p|] == p
  }

  predicate Contains(s: string, p: string)
    decreases |s|
  {
    StartsWith(s, p) || (|s| > 0 && Contains(s[1..], p))
  }

  /** `p` occurs in `s` starting at index `i`. */
  predicate OccursAt(s: string, p: string, i: int) {
    0 <= i && i + |p| <= |s| && s[i..i + |p|] == p
  }

  /** `Contains` holds exactly when the pattern occurs at some position. */
  lemma {:induction false} ContainsAt(s: string, p: string)
    ensures Contains(s, p) <==> exists i :: OccursAt(s, p, i)
    decreases |s|
  {
    if |s| > 0 {
      ContainsAt(s[1..], p);
      if exists i :: OccursAt(s, p, i) {
        var i :| OccursAt(s, p, i);
        if i > 0 {
          assert s[1..][i - 1..i - 1 + |p|] == s[i..i + |p|];
          assert OccursAt(s[1..], p, i - 1);
        }
      }
      if Contains(s[1..], p) && !StartsWith(s, p) {
        var j :| OccursAt(s[1..], p, j);
        assert s[j + 1..j + 1 + |p|] == s[1..][j..j + |p|];
        assert OccursAt(s, p, j + 1);
      }
      if StartsWith(s, p) {
        assert OccursAt(s, p, 0);
      }
    } else {
      if exists i :: OccursAt(s, p, i) {
        var i :| OccursAt(s, p, i);
        assert |p| == 0 && s[..0] == p;
      }
      if StartsWith(s, p) {
        assert OccursAt(s, p, 0);
      }
    }
  }

  /** Every character of a pattern found in `s` is a character of `s`. */
  lemma ContainsChar(s: string, p: string, k: nat)
    requires Contains(s, p) && k < |p|
    ensures p[k] in s
  {
    ContainsAt(s, p);
    var i :| OccursAt(s, p, i);
    assert s[i + k] == s[i..i + |p|][k];
  }

  // ---------------------------------------------------------------------------
  // `to_lowercase` (ASCII letters only)
  // ---------------------------------------------------------------------------

  function LowerChar(ch: char): char {
    if 'A' <= ch <= 'Z' then (ch as int + 32) as char else ch
  }

  /** Maps every ASCII capital to its small letter and leaves every other character alone. */
  function Lowercase(s: string): (r: string)
    ensures |r| == |s|
    ensures forall i :: 0 <= i < |s| ==> !('A' <= r[i] <= 'Z')
    ensures forall i :: 0 <= i < |s| ==> (r[i] == s[i] <==> !('A' <= s[i] <= 'Z'))
    ensures forall i :: 0 <= i < |s| && 'A' <= s[i] <= 'Z' ==> r[i] as int == s[i] as int + 32
  {
    if s == [] then "" else [LowerChar(s[0])] + Lowercase(s[1..])
  }

  // ---------------------------------------------------------------------------
  // `trim_end`
  // ---------------------------------------------------------------------------

  /** Rust's `char::is_whitespace`: the code points with the Unicode White_Space property. */
  predicate IsWhitespace(c: char) {
    ('\t' <= c <= '\r') || c == ' ' || c == '\U{85}' || c == '\U{A0}' || c == '\U{1680}'
    || ('\U{2000}' <= c <= '\U{200A}') || c == '\U{2028}' || c == '\U{2029}'
    || c == '\U{202F}' || c == '\U{205F}' || c == '\U{3000}'
  }

  /** `s.trim_end()`: the longest prefix of `s` that does not end in whitespace. */
  function TrimEnd(s: string): (r: string)
    ensures r <= s
    ensures r == [] || !IsWhitespace(r[|r| - 1])
    ensures forall i :: |r| <= i < |s| ==> IsWhitespace(s[i])
  {
    if s != [] && IsWhitespace(s[|s| - 1]) then TrimEnd(s[..|s| - 1]) else s
  }

  // ---------------------------------------------------------------------------
  // The order of `String` values (`<`, `>` in Rust)
  // ---------------------------------------------------------------------------

  /**
   * Lexicographic order: `a` comes before `b` when it is a proper prefix of `b`
   * or the first differing character of `a` is the smaller. On valid UTF-8 this
   * is the byte order Rust compares strings by.
   */
  predicate LexLess(a: string, b: string) {
    if a == [] then b != []
    else if b == [] then false
    else if a[0] != b[0] then a[0] < b[0]
    else LexLess(a[1..], b[1..])
  }

  lemma {:induction false} LexLessIrreflexive(a: string)
    ensures !LexLess(a, a)
  {
    if a != [] {
      LexLessIrreflexive(a[1..]);
    }
  }

  lemma {:induction false} LexLessTransitive(a: string, b: string, c: string)
    requires LexLess(a, b) && LexLess(b, c)
    ensures LexLess(a, c)
  {
    if a != [] && b != [] && c != [] && a[0] == b[0] && b[0] == c[0] {
      LexLessTransitive(a[1..], b[1..], c[1..]);
    }
  }

  lemma {:induction false} LexLessTotal(a: string, b: string)
    ensures a == b || LexLess(a, b) || LexLess(b, a)
  {
    if a != [] && b != [] && a[0] == b[0] {
      LexLessTotal(a[1..], b[1..]);
      if a[1..] == b[1..] {
        assert a == [a[0]] + a[1..] && b == [b[0]] + b[1..];
      }
    }
  }

  lemma LexLessAsymmetric(a: string, b: string)
    requires LexLess(a, b)
    ensures !LexLess(b, a)
  {
    if LexLess(b, a) {
      LexLessTransitive(a, b, a);
      LexLessIrreflexive(a);
    }
  }
}
