/** The string operations the calculator relies on: String.prototype.trim,
    String.prototype.split with a one-character separator, parseInt on a
    run of decimal digits, and the decimal rendering of a number. */
module Text {

  predicate IsDigit(c: char) {
    '0' <= c <= '9'
  }

  predicate AllDigits(s: string) {
    forall i | 0 <= i < |s| :: IsDigit(s[i])
  }

  /** The code points trim removes: ECMAScript WhiteSpace and LineTerminator. */
  predicate IsTrimmable(c: char) {
    var n := c as int;
    n == 0x09 || n == 0x0A || n == 0x0B || n == 0x0C || n == 0x0D || n == 0x20
    || n == 0xA0 || n == 0x1680 || (0x2000 <= n <= 0x200A) || n == 0x2028
    || n == 0x2029 || n == 0x202F || n == 0x205F || n == 0x3000 || n == 0xFEFF
  }

  /** The first index at or after `i` that holds a non-trimmable character,
      or |s| when there is none. */
  function SkipLeading(s: string, i: nat): (j: nat)
    requires i <= |s|
    ensures i <= j <= |s|
    decreases |s| - i
  {
    if i < |s| && IsTrimmable(s[i]) then SkipLeading(s, i + 1) else i
  }

  lemma {:induction false} SkipLeadingSkips(s: string, i: nat)
    requires i <= |s|
    ensures var j := SkipLeading(s, i);
      && (forall k | i <= k < j :: IsTrimmable(s[k]))
      && (j == |s| || !IsTrimmable(s[j]))
    decreases |s| - i
  {
    if i < |s| && IsTrimmable(s[i]) {
      SkipLeadingSkips(s, i + 1);
    }
  }

  /** Scanning down from `j` towards `lo`, the end of the last
      non-trimmable character, or `lo` when there is none. */
  function SkipTrailing(s: string, j: nat, lo: nat): (e: nat)
    requires lo <= j <= |s|
    ensures lo <= e <= j
  {
    if j > lo && IsTrimmable(s[j - 1]) then SkipTrailing(s, j - 1, lo) else j
  }

  lemma {:induction false} SkipTrailingSkips(s: string, j: nat, lo: nat)
    requires lo <= j <= |s|
    ensures var e := SkipTrailing(s, j, lo);
      && (forall k | e <= k < j :: IsTrimmable(s[k]))
      && (e == lo || !IsTrimmable(s[e - 1]))
  {
    if j > lo && IsTrimmable(s[j - 1]) {
      SkipTrailingSkips(s, j - 1, lo);
    }
  }

  /** String.prototype.trim: `s` without the trimmable characters at
      either end. */
  function Trim(s: string): (r: string)
    ensures |r| <= |s|
  {
    var b := SkipLeading(s, 0);
    s[b..SkipTrailing(s, |s|, b)]
  }

  /** trim removes only trimmable characters, and only at the ends: the
      result is the slice of `s` from its first non-trimmable character to
      its last one, and it is empty exactly when every character of `s` is
      trimmable. */
  lemma TrimSpec(s: string)
    ensures var r := Trim(s);
      && (r != [] ==> !IsTrimmable(r[0]) && !IsTrimmable(r[|r| - 1]))
      && (r == [] <==> forall k | 0 <= k < |s| :: IsTrimmable(s[k]))
    ensures var b := SkipLeading(s, 0);
      && b + |Trim(s)| <= |s| && Trim(s) == s[b..b + |Trim(s)|]
      && (forall k | 0 <= k < b :: IsTrimmable(s[k]))
      && (forall k | b + |Trim(s)| <= k < |s| :: IsTrimmable(s[k]))
  {
    var b := SkipLeading(s, 0);
    SkipLeadingSkips(s, 0);
    SkipTrailingSkips(s, |s|, b);
  }

  /** Text that neither starts nor ends with a trimmable character is left
      as it is. */
  lemma TrimUntrimmed(s: string)
    requires s == [] || (!IsTrimmable(s[0]) && !IsTrimmable(s[|s| - 1]))
    ensures Trim(s) == s
  {
    SkipLeadingSkips(s, 0);
    SkipTrailingSkips(s, |s|, SkipLeading(s, 0));
  }

  /** trim is idempotent. */
  lemma TrimIdempotent(s: string)
    ensures Trim(Trim(s)) == Trim(s)
  {
    TrimSpec(s);
    TrimUntrimmed(Trim(s));
  }

  /** String.prototype.split with a one-character separator: the maximal
      separator-free pieces of `s`, in order; "" splits into [""]. */
  function Split(s: string, sep: char): (parts: seq<string>)
    ensures |parts| >= 1
    ensures forall i | 0 <= i < |parts| :: sep !in parts[i]
  {
    if s == [] then [[]]
    else
      var rest := Split(s[1..], sep);
      if s[0] == sep then [[]] + rest else [[s[0]] + rest[0]] + rest[1..]
  }

  /** Array.prototype.join: the pieces with `sep` between neighbours. */
  function Join(parts: seq<string>, sep: char): string
    requires |parts| >= 1
  {
    if |parts| == 1 then parts[0] else parts[0] + [sep] + Join(parts[1..], sep)
  }

  /** Joining the pieces of a split gives back the text. */
  lemma {:induction false} JoinSplit(s: string, sep: char)
    ensures Join(Split(s, sep), sep) == s
  {
    if s != [] {
      var rest := Split(s[1..], sep);
      JoinSplit(s[1..], sep);
      if s[0] == sep {
        assert Split(s, sep)[1..] == rest;
      } else if |rest| == 1 {
        assert [s[0]] + rest[0] == s;
      } else {
        var parts := Split(s, sep);
        assert parts[1..] == rest[1..];
        assert Join(rest, sep) == rest[0] + [sep] + Join(rest[1..], sep);
        assert s == [s[0]] + s[1..];
      }
    }
  }

  lemma {:induction false} SplitPrepend(p: string, t: string, sep: char)
    requires sep !in p
    ensures Split(p + t, sep) == [p + Split(t, sep)[0]] + Split(t, sep)[1..]
  {
    if p != [] {
      var parts := Split(t, sep);
      SplitPrepend(p[1..], t, sep);
      assert (p + t)[1..] == p[1..] + t;
      assert [p[0]] + (p[1..] + parts[0]) == p + parts[0];
    } else {
      var parts := Split(t, sep);
      assert p + t == t;
      assert p + parts[0] == parts[0];
      assert parts == [parts[0]] + parts[1..];
    }
  }

  /** Splitting joined separator-free pieces gives back the pieces. */
  lemma {:induction false} SplitJoin(parts: seq<string>, sep: char)
    requires |parts| >= 1
    requires forall i | 0 <= i < |parts| :: sep !in parts[i]
    ensures Split(Join(parts, sep), sep) == parts
  {
    if |parts| == 1 {
      SplitPrepend(parts[0], [], sep);
      assert parts[0] + [] == parts[0];
    } else {
      var tail := Join(parts[1..], sep);
      SplitJoin(parts[1..], sep);
      SplitPrepend(parts[0], [sep] + tail, sep);
      assert parts[0] + [sep] + tail == parts[0] + ([sep] + tail);
      assert Split([sep] + tail, sep) == [[]] + Split(tail, sep) by {
        assert ([sep] + tail)[1..] == tail;
      }
      assert parts[0] + [] == parts[0];
      assert parts == [parts[0]] + parts[1..];
    }
  }

  /** A character outside every piece and different from the separator does
      not occur in the joined text. */
  lemma {:induction false} JoinAvoids(parts: seq<string>, sep: char, c: char)
    requires |parts| >= 1
    requires c != sep
    requires forall i | 0 <= i < |parts| :: c !in parts[i]
    ensures c !in Join(parts, sep)
  {
    if |parts| > 1 {
      JoinAvoids(parts[1..], sep, c);
    }
  }

  function Pow10(n: nat): (r: nat)
    ensures r >= 1
  {
    if n == 0 then 1 else 10 * Pow10(n - 1)
  }

  function DigitValue(c: char): (d: nat)
    requires IsDigit(c)
    ensures d <= 9
  {
    (c as int) - ('0' as int)
  }

  function DigitChar(d: nat): (c: char)
    requires d <= 9
    ensures IsDigit(c) && DigitValue(c) == d
  {
    ('0' as int + d) as char
  }

  /** parseInt applied to a run of decimal digits (leading zeros allowed). */
  function DecimalValue(s: string): (n: nat)
    requires AllDigits(s)
    ensures n < Pow10(|s|)
  {
    if s == [] then 0
    else 10 * DecimalValue(s[..|s| - 1]) + DigitValue(s[|s| - 1])
  }

  /** The decimal text of a number, as Number's string conversion renders a
      non-negative integer: digits only, no leading zero. */
  function DecimalString(n: nat): (s: string)
    ensures |s| >= 1 && AllDigits(s)
    ensures DecimalValue(s) == n
    ensures |s| == 1 || Pow10(|s| - 1) <= n
  {
    if n < 10 then [DigitChar(n)]
    else
      var s := DecimalString(n / 10) + [DigitChar(n % 10)];
      assert s[..|s| - 1] == DecimalString(n / 10);
      s
  }

  /** A number below 10^k is rendered with at most k digits. */
  lemma {:induction false} DecimalStringLength(n: nat, k: nat)
    requires 1 <= k && n < Pow10(k)
    ensures |DecimalString(n)| <= k
  {
    if n >= 10 {
      DecimalStringLength(n / 10, k - 1);
    }
  }
}
