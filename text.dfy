/**
 * Text utilities the header negotiation relies on: Rust's `str::split`,
 * `str::trim`, `str::to_lowercase`, `str::contains` and `str::parse::<usize>`,
 * over `string` (a sequence of Unicode scalar values) and bytes.
 */
module Text {
  import opened Wrappers

  type byte = b: int | 0 <= b < 256

  const NEWLINE: byte := 10

  /** `char::is_whitespace`: the Unicode White_Space property. */
  predicate IsWhitespace(c: char) {
    ('\t' <= c <= '\r') || c == ' ' || c == '\U{85}' || c == '\U{A0}' || c == '\U{1680}'
    || ('\U{2000}' <= c <= '\U{200A}') || c == '\U{2028}' || c == '\U{2029}'
    || c == '\U{202F}' || c == '\U{205F}' || c == '\U{3000}'
  }

  /** `str::trim_start`: the suffix left after dropping leading whitespace. */
  function TrimStart(s: string): (r: string)
    ensures |r| <= |s| && r == s[|s| - |r|..]
    ensures forall k :: 0 <= k < |s| - |r| ==> IsWhitespace(s[k])
    ensures r != [] ==> !IsWhitespace(r[0])
  {
    if s != [] && IsWhitespace(s[0]) then TrimStart(s[1..]) else s
  }

  /** `str::trim_end`: the prefix left after dropping trailing whitespace. */
  function TrimEnd(s: string): (r: string)
    ensures |r| <= |s| && r == s[..|r|]
    ensures forall k :: |r| <= k < |s| ==> IsWhitespace(s[k])
    ensures r != [] ==> !IsWhitespace(r[|r| - 1])
  {
    if s != [] && IsWhitespace(s[|s| - 1]) then TrimEnd(s[..|s| - 1]) else s
  }

  /** `r` is the slice of `s` at offset `i`, with only whitespace before and after it. */
  ghost predicate SliceBetweenWhitespace(s: string, r: string, i: int) {
    0 <= i <= |s| - |r| && r == s[i..i + |r|]
    && (forall k :: 0 <= k < i ==> IsWhitespace(s[k]))
    && (forall k :: i + |r| <= k < |s| ==> IsWhitespace(s[k]))
  }

  /**
   * `str::trim`: the slice that remains once all leading and all trailing
   * whitespace is dropped.
   */
  function Trim(s: string): (r: string)
    ensures |r| <= |s|
    ensures exists i :: SliceBetweenWhitespace(s, r, i)
    ensures r != [] ==> !IsWhitespace(r[0]) && !IsWhitespace(r[|r| - 1])
  {
    var t := TrimStart(s);
    var r := TrimEnd(t);
    assert SliceBetweenWhitespace(s, r, |s| - |t|);
    r
  }

  /** Trimming only removes characters: one absent from `s` is absent from `Trim(s)`. */
  lemma TrimSubset(s: string, c: char)
    requires c !in s
    ensures c !in Trim(s)
  {
    var r := Trim(s);
    var i :| SliceBetweenWhitespace(s, r, i);
    assert forall j :: 0 <= j < |r| ==> r[j] == s[i + j];
  }

  /** A string that neither starts nor ends with whitespace is its own trim. */
  lemma TrimUnchanged(s: string)
    requires s != [] ==> !IsWhitespace(s[0]) && !IsWhitespace(s[|s| - 1])
    ensures Trim(s) == s
  {
  }

  /** `str::split(sep)`: the pieces between separators, in order (at least one). */
  function Split(s: string, sep: char): (parts: seq<string>)
    ensures |parts| >= 1
    ensures forall i :: 0 <= i < |parts| ==> sep !in parts[i]
  {
    if s == [] then [[]]
    else
      var rest := Split(s[1..], sep);
      if s[0] == sep then [[]] + rest
      else [[s[0]] + rest[0]] + rest[1..]
  }

  /** The inverse of `Split`: the pieces glued back together with `sep`. */
  function Join(parts: seq<string>, sep: char): string
    requires |parts| >= 1
  {
    if |parts| == 1 then parts[0] else parts[0] + [sep] + Join(parts[1..], sep)
  }

  /** Splitting loses nothing: joining the pieces with the separator gives `s` back. */
  lemma {:induction false} JoinSplit(s: string, sep: char)
    ensures Join(Split(s, sep), sep) == s
  {
    if s != [] {
      var rest := Split(s[1..], sep);
      JoinSplit(s[1..], sep);
      if s[0] != sep {
        var parts := Split(s, sep);
        assert parts[1..] == rest[1..];
        if |rest| > 1 {
          calc {
            Join(parts, sep);
            ([s[0]] + rest[0]) + [sep] + Join(rest[1..], sep);
            [s[0]] + (rest[0] + [sep] + Join(rest[1..], sep));
            [s[0]] + Join(rest, sep);
          }
        }
      }
    }
  }

  /**
   * The first piece of `Split(s, sep)` (what `split(sep).next()` returns) is
   * the prefix of `s` up to, and not including, the first `sep`.
   */
  lemma {:induction false} SplitHead(s: string, sep: char)
    ensures var p := Split(s, sep)[0];
            |p| <= |s| && p == s[..|p|] && (|p| < |s| ==> s[|p|] == sep)
  {
    if s != [] && s[0] != sep {
      SplitHead(s[1..], sep);
    }
  }

  /** `char::to_ascii_lowercase`. */
  function LowerChar(c: char): char {
    if 'A' <= c <= 'Z' then (c as int + 32) as char else c
  }

  /** `str::to_lowercase`, on the ASCII letters. */
  function Lower(s: string): (r: string)
    ensures |r| == |s|
    ensures forall i :: 0 <= i < |s| ==> r[i] == LowerChar(s[i])
    ensures forall i :: 0 <= i < |r| ==> !('A' <= r[i] <= 'Z')
    ensures forall i :: 0 <= i < |s| && !('A' <= s[i] <= 'Z') ==> r[i] == s[i]
  {
    seq(|s|, i requires 0 <= i < |s| => LowerChar(s[i]))
  }

  /** `str::contains`: `t` occurs in `s` as a contiguous substring. */
  predicate Contains(s: string, t: string) {
    exists i | 0 <= i <= |s| - |t| :: OccursAt(s, t, i)
  }

  predicate OccursAt(s: string, t: string, i: int) {
    0 <= i <= |s| - |t| && s[i..i + |t|] == t
  }

  /** The largest `usize` on a 64-bit target. */
  const USIZE_MAX: nat := 0xFFFF_FFFF_FFFF_FFFF

  predicate IsDigit(c: char) {
    '0' <= c <= '9'
  }

  predicate AllDigits(s: string) {
    forall i :: 0 <= i < |s| ==> IsDigit(s[i])
  }

  /** The value of a string of decimal digits, most significant first. */
  function DecimalValue(ds: string): nat
    requires AllDigits(ds)
  {
    if ds == [] then 0
    else 10 * DecimalValue(ds[..|ds| - 1]) + (ds[|ds| - 1] as int - '0' as int)
  }

  /**
   * `str::parse::<usize>`: an optional `+`, then one or more decimal digits
   * whose value fits in a `usize`; anything else is an error.
   */
  function ParseUsize(s: string): (r: Option<nat>)
    ensures r.Some? ==> r.value <= USIZE_MAX
    ensures r.Some? ==> s != [] && s != "+"
    ensures r.Some? ==> forall i :: 0 <= i < |s| ==> IsDigit(s[i]) || (i == 0 && s[i] == '+')
  {
    var ds := if s != [] && s[0] == '+' then s[1..] else s;
    if ds != [] && AllDigits(ds) && DecimalValue(ds) <= USIZE_MAX then Some(DecimalValue(ds))
    else None
  }

  /** The decimal rendering of `n`, without sign or leading zeros. */
  function Decimal(n: nat): (r: string)
    ensures r != [] && AllDigits(r)
  {
    if n < 10 then [('0' as int + n) as char]
    else Decimal(n / 10) + [('0' as int + n % 10) as char]
  }

  lemma {:induction false} DecimalValueOfDecimal(n: nat)
    ensures DecimalValue(Decimal(n)) == n
  {
    if n >= 10 {
      var d := Decimal(n);
      assert d[..|d| - 1] == Decimal(n / 10);
      DecimalValueOfDecimal(n / 10);
    }
  }

  /** Round trip: every `usize` is read back from its decimal rendering, with or without `+`. */
  lemma ParseDecimal(n: nat)
    requires n <= USIZE_MAX
    ensures ParseUsize(Decimal(n)) == Some(n)
    ensures ParseUsize("+" + Decimal(n)) == Some(n)
  {
    DecimalValueOfDecimal(n);
    assert ("+" + Decimal(n))[1..] == Decimal(n);
  }

  /** Every optional `+` followed by one or more digits parses, unless its value overflows. */
  lemma ParseDigits(sign: string, ds: string)
    requires sign == "" || sign == "+"
    requires ds != [] && AllDigits(ds)
    ensures ParseUsize(sign + ds) == if DecimalValue(ds) <= USIZE_MAX then Some(DecimalValue(ds)) else None
  {
    if sign == "+" {
      assert (sign + ds)[1..] == ds;
    } else {
      assert sign + ds == ds;
    }
  }

  /** A string of `k` zero digits. */
  function Zeros(k: nat): (r: string)
    ensures |r| == k && forall i :: 0 <= i < k ==> r[i] == '0'
  {
    seq(k, i => '0')
  }

  lemma {:induction false} DecimalValueZeros(k: nat)
    ensures DecimalValue(Zeros(k)) == 0
  {
    if k > 0 {
      assert Zeros(k)[..k - 1] == Zeros(k - 1);
      DecimalValueZeros(k - 1);
    }
  }

  /** Leading zeros do not change the value of a string of digits. */
  lemma {:induction false} DecimalValueLeadingZeros(k: nat, ds: string)
    requires AllDigits(ds)
    ensures AllDigits(Zeros(k) + ds) && DecimalValue(Zeros(k) + ds) == DecimalValue(ds)
    decreases |ds|
  {
    var zs := Zeros(k) + ds;
    if ds == [] {
      assert zs == Zeros(k);
      DecimalValueZeros(k);
    } else {
      var init := ds[..|ds| - 1];
      assert zs[..|zs| - 1] == Zeros(k) + init;
      assert zs[|zs| - 1] == ds[|ds| - 1];
      DecimalValueLeadingZeros(k, init);
    }
  }

  /** Leading zeros are accepted: `k` zeros before the decimal form of `n` still read as `n`. */
  lemma ParseLeadingZeros(k: nat, n: nat)
    requires n <= USIZE_MAX
    ensures ParseUsize(Zeros(k) + Decimal(n)) == Some(n)
  {
    DecimalValueOfDecimal(n);
    DecimalValueLeadingZeros(k, Decimal(n));
    ParseDigits("", Zeros(k) + Decimal(n));
  }

  /** A minus sign, surrounding whitespace and a decimal point are all rejected; `007` is 7. */
  lemma ParseExamples()
    ensures ParseUsize("-1") == None
    ensures ParseUsize(" 10") == None
    ensures ParseUsize("10 ") == None
    ensures ParseUsize("1.5") == None
    ensures ParseUsize("007") == Some(7)
  {
    assert !IsDigit("-1"[0]);
    assert !IsDigit(" 10"[0]);
    assert !IsDigit("10 "[2]);
    assert !IsDigit("1.5"[1]);
    ParseLeadingZeros(2, 7);
    assert Zeros(2) + Decimal(7) == "007";
  }

  /** A number one past the largest `usize` does not parse: it overflows. */
  lemma ParseOverflow()
    ensures ParseUsize(Decimal(USIZE_MAX + 1)) == None
  {
    DecimalValueOfDecimal(USIZE_MAX + 1);
  }

  /** An ASCII string literal as the bytes that carry it. */
  function Bytes(s: string): (r: seq<byte>)
    ensures |r| == |s| && forall i :: 0 <= i < |s| && s[i] as int < 256 ==> r[i] == s[i] as int
  {
    seq(|s|, i requires 0 <= i < |s| => s[i] as int % 256)
  }
}
