/** Decimal rendering of integers the way Python's `str.format` does it:
    `"{}".format(n)` and the zero-padded `"{:0Nd}".format(n)`. The width
    counts the sign, so `-5` at width 4 is `-005`, and a number wider than
    the field is never truncated. `ParseInt` reads such text back. */
module Format {
  import opened Options

  predicate IsDigit(c: char)
  {
    '0' <= c <= '9'
  }

  predicate AllDigits(s: string)
  {
    forall i :: 0 <= i < |s| ==> IsDigit(s[i])
  }

  function DigitChar(d: nat): (c: char)
    requires d < 10
    ensures IsDigit(c)
    ensures c as int - '0' as int == d
  {
    ('0' as int + d) as char
  }

  function DigitValue(c: char): nat
    requires IsDigit(c)
  {
    c as int - '0' as int
  }

  /** The decimal digits of `n`, most significant first, without leading zeros. */
  function Digits(n: nat): (s: string)
    ensures 1 <= |s|
    ensures AllDigits(s)
    ensures n > 0 ==> s[0] != '0'
    decreases n
  {
    if n < 10 then [DigitChar(n)] else Digits(n / 10) + [DigitChar(n % 10)]
  }

  function Zeros(k: nat): (s: string)
    ensures |s| == k
    ensures forall i :: 0 <= i < k ==> s[i] == '0'
  {
    seq(k, _ => '0')
  }

  /** Left-pads a digit string with zeros up to `width` characters. */
  function PadDigits(ds: string, width: int): string
  {
    Zeros(if width > |ds| then width - |ds| else 0) + ds
  }

  /** `"{:0<width>d}".format(n)`; width 0 is plain `str(n)`. */
  function FormatInt(n: int, width: nat): string
  {
    if n < 0 then "-" + PadDigits(Digits(-n), width - 1)
    else PadDigits(Digits(n), width)
  }

  /** `str(n)`, as `"{}".format(n)` renders an int. */
  function IntText(n: int): string
  {
    FormatInt(n, 0)
  }

  /** The value of a digit string (leading zeros allowed, empty is zero). */
  function ParseDigits(s: string): nat
    requires AllDigits(s)
    decreases |s|
  {
    if |s| == 0 then 0 else 10 * ParseDigits(s[..|s| - 1]) + DigitValue(s[|s| - 1])
  }

  /** Reads an optional minus sign followed by at least one digit. */
  function ParseInt(s: string): Option<int>
  {
    if |s| > 0 && s[0] == '-' then
      if |s| > 1 && AllDigits(s[1..]) then Some(0 - ParseDigits(s[1..])) else None
    else if |s| > 0 && AllDigits(s) then Some(ParseDigits(s))
    else None
  }

  /** The position of the first `c` in `s` at or after `i`. */
  function Find(s: string, c: char, i: nat): (r: Option<nat>)
    ensures r.Some? ==> i <= r.value < |s| && s[r.value] == c
    ensures r.Some? ==> forall j :: i <= j < r.value ==> s[j] != c
    ensures r.None? ==> forall j :: i <= j < |s| ==> s[j] != c
    decreases |s| - i
  {
    if i >= |s| then None else if s[i] == c then Some(i) else Find(s, c, i + 1)
  }

  /** `Find` stops at the first occurrence: the one at `k` when none lies between `i` and `k`. */
  lemma {:induction false} FindFirst(s: string, c: char, i: nat, k: nat)
    requires i <= k < |s| && s[k] == c
    requires forall j :: i <= j < k ==> s[j] != c
    ensures Find(s, c, i) == Some(k)
    decreases k - i
  {
    if i < k {
      FindFirst(s, c, i + 1, k);
    }
  }

  function Pow10(k: nat): nat
  {
    if k == 0 then 1 else 10 * Pow10(k - 1)
  }

  lemma {:induction false} ParseDigitsOfDigits(n: nat)
    ensures ParseDigits(Digits(n)) == n
    decreases n
  {
    if n >= 10 {
      ParseDigitsOfDigits(n / 10);
      var s := Digits(n);
      assert s[..|s| - 1] == Digits(n / 10);
    }
  }

  lemma {:induction false} ParseZeros(k: nat)
    ensures ParseDigits(Zeros(k)) == 0
    decreases k
  {
    if k > 0 {
      ParseZeros(k - 1);
      assert Zeros(k)[..k - 1] == Zeros(k - 1);
    }
  }

  /** Leading zeros do not change the value of a digit string. */
  lemma {:induction false} ParseIgnoresLeadingZeros(k: nat, s: string)
    requires AllDigits(s)
    ensures AllDigits(Zeros(k) + s)
    ensures ParseDigits(Zeros(k) + s) == ParseDigits(s)
    decreases |s|
  {
    if |s| == 0 {
      assert Zeros(k) + s == Zeros(k);
      ParseZeros(k);
    } else {
      ParseIgnoresLeadingZeros(k, s[..|s| - 1]);
      var t := Zeros(k) + s;
      assert t[..|t| - 1] == Zeros(k) + s[..|s| - 1];
    }
  }

  /** Only the first character of a formatted integer can be a sign; the rest are digits. */
  lemma FormatIntShape(n: int, width: nat)
    ensures |FormatInt(n, width)| >= 1
    ensures forall j :: 1 <= j < |FormatInt(n, width)| ==> IsDigit(FormatInt(n, width)[j])
    ensures FormatInt(n, width)[0] == '-' || IsDigit(FormatInt(n, width)[0])
  {
  }

  /** Formatting is never truncating: the text is at least `width` long, and
      exactly `width` long when the value fits in the field. */
  lemma {:induction false} FormatIntWidth(n: int, width: nat)
    ensures |FormatInt(n, width)| >= width
    ensures 1 <= width && 0 <= n < Pow10(width) ==> |FormatInt(n, width)| == width
  {
    if 1 <= width && 0 <= n < Pow10(width) {
      DigitsFit(n, width);
    }
  }

  /** A value that fits its field is written as exactly `width` digits, zero-padded on
      the left, and those digits read back as the value. */
  lemma FormatFits(n: nat, width: nat)
    requires 1 <= width && n < Pow10(width)
    ensures |FormatInt(n, width)| == width
    ensures AllDigits(FormatInt(n, width))
    ensures ParseDigits(FormatInt(n, width)) == n
  {
    FormatIntWidth(n, width);
    ParsePadded(n, width);
  }

  /** A number below 10^k has at most k digits (for k >= 1). */
  lemma {:induction false} DigitsFit(n: nat, k: nat)
    requires n < Pow10(k)
    ensures k >= 1 ==> |Digits(n)| <= k
    decreases k
  {
    if n >= 10 {
      assert k >= 2;
      DigitsFit(n / 10, k - 1);
    }
  }

  /** Round trip for the unsigned part: zero-padded digits parse back to the value. */
  lemma ParsePadded(v: nat, w: int)
    ensures AllDigits(PadDigits(Digits(v), w))
    ensures ParseDigits(PadDigits(Digits(v), w)) == v
  {
    var ds := Digits(v);
    ParseIgnoresLeadingZeros(if w > |ds| then w - |ds| else 0, ds);
    ParseDigitsOfDigits(v);
  }

  /** Round trip: the formatted text of `n` parses back to `n`, at every width. */
  lemma ParseFormatInt(n: int, width: nat)
    ensures ParseInt(FormatInt(n, width)) == Some(n)
  {
    var s := FormatInt(n, width);
    if n < 0 {
      ParsePadded(-n, width - 1);
      assert s[1..] == PadDigits(Digits(-n), width - 1);
    } else {
      ParsePadded(n, width);
      assert IsDigit(s[0]);
    }
  }
}
