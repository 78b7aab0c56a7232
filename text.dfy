/** Character-level string operations the pipeline relies on: Python's
    `str.strip()` and `str.lower()`, substring tests (`'x' in s`,
    `.str.contains(',')`), `.str.replace(',', '.')`, the decimal grammar
    accepted by `pd.to_numeric`, decimal rendering of whole numbers and
    Python's code-point ordering of strings (used by `groupby` to sort keys). */
module Text {
  import opened Common

  // ---------------------------------------------------------------- strip

  /** Python's `str.isspace()` characters. */
  predicate IsSpace(c: char)
  {
    var n := c as int;
    (0x09 <= n <= 0x0D) || (0x1C <= n <= 0x20) || n == 0x85 || n == 0xA0 || n == 0x1680 ||
    (0x2000 <= n <= 0x200A) || n == 0x2028 || n == 0x2029 || n == 0x202F || n == 0x205F || n == 0x3000
  }

  predicate AllSpace(s: string)
  {
    forall i :: 0 <= i < |s| ==> IsSpace(s[i])
  }

  /** A whitespace character before a whitespace prefix extends the prefix. */
  lemma SpaceCons(s: string, w: string, r: string)
    requires s != [] && IsSpace(s[0]) && AllSpace(w) && s[1..] == w + r
    ensures AllSpace([s[0]] + w) && s == [s[0]] + w + r
  {
    assert s == [s[0]] + s[1..];
  }

  function TrimLeft(s: string): (r: string)
    ensures r == [] || !IsSpace(r[0])
    ensures exists w :: AllSpace(w) && s == w + r
  {
    if s == [] then
      assert AllSpace([]) && s == [] + s;
      s
    else if IsSpace(s[0]) then
      var r := TrimLeft(s[1..]);
      var w :| AllSpace(w) && s[1..] == w + r;
      SpaceCons(s, w, r);
      r
    else
      assert AllSpace([]) && s == [] + s;
      s
  }

  function TrimRight(s: string): (r: string)
    ensures r == [] || !IsSpace(r[|r| - 1])
    ensures exists w :: AllSpace(w) && s == r + w
  {
    if s == [] then
      assert AllSpace([]) && s == s + [];
      s
    else if IsSpace(s[|s| - 1]) then
      var r := TrimRight(s[..|s| - 1]);
      var w :| AllSpace(w) && s[..|s| - 1] == r + w;
      assert AllSpace(w + [s[|s| - 1]]) && s == r + (w + [s[|s| - 1]]);
      r
    else
      assert AllSpace([]) && s == s + [];
      s
  }

  /** `str.strip()`: removes leading and trailing whitespace. */
  function Trim(s: string): string
  {
    TrimRight(TrimLeft(s))
  }

  /** What `strip` returns is `s` without a whitespace prefix and suffix, and
      neither end of the result is whitespace. */
  lemma TrimSpec(s: string)
    ensures var r := Trim(s);
      (r == [] || (!IsSpace(r[0]) && !IsSpace(r[|r| - 1]))) &&
      exists a, b :: AllSpace(a) && AllSpace(b) && s == a + r + b
  {
    var l := TrimLeft(s);
    var r := TrimRight(l);
    var a :| AllSpace(a) && s == a + l;
    var b :| AllSpace(b) && l == r + b;
    Associate(a, r, b);
    assert AllSpace(a) && AllSpace(b) && s == a + r + b;
    if r != [] { assert r[0] == l[0]; }
  }

  lemma Associate(a: string, r: string, b: string)
    ensures a + (r + b) == a + r + b
  {
  }

  lemma {:induction false} TrimLeftNoSpace(s: string)
    requires s == [] || !IsSpace(s[0])
    ensures TrimLeft(s) == s
  {
  }

  lemma {:induction false} TrimLeftSpacePrefix(w: string, s: string)
    requires AllSpace(w)
    requires s == [] || !IsSpace(s[0])
    ensures TrimLeft(w + s) == s
    decreases |w|
  {
    if w == [] {
      assert w + s == s;
    } else {
      assert (w + s)[1..] == w[1..] + s;
      TrimLeftSpacePrefix(w[1..], s);
    }
  }

  lemma {:induction false} TrimRightSpaceSuffix(s: string, w: string)
    requires AllSpace(w)
    requires s == [] || !IsSpace(s[|s| - 1])
    ensures TrimRight(s + w) == s
    decreases |w|
  {
    if w == [] {
      assert s + w == s;
    } else {
      assert (s + w)[..|s + w| - 1] == s + w[..|w| - 1];
      TrimRightSpaceSuffix(s, w[..|w| - 1]);
    }
  }

  lemma {:induction false} TrimLeftAllSpace(w: string)
    requires AllSpace(w)
    ensures TrimLeft(w) == []
  {
    if w != [] { TrimLeftAllSpace(w[1..]); }
  }

  /** Stripping `a + r + b`, for whitespace `a` and `b` and an `r` that neither
      starts nor ends with whitespace, gives `r`. */
  lemma TrimFramed(a: string, r: string, b: string)
    requires AllSpace(a) && AllSpace(b)
    requires r == [] || (!IsSpace(r[0]) && !IsSpace(r[|r| - 1]))
    ensures Trim(a + r + b) == r
  {
    if r == [] {
      assert a + r + b == a + b;
      TrimLeftAllSpace(a + b);
    } else {
      assert a + r + b == a + (r + b);
      assert (r + b)[0] == r[0];
      TrimLeftSpacePrefix(a, r + b);
      TrimRightSpaceSuffix(r, b);
    }
  }

  lemma AllSpaceConcat(a: string, b: string)
    requires AllSpace(a) && AllSpace(b)
    ensures AllSpace(a + b)
  {
    forall i | 0 <= i < |a + b| ensures IsSpace((a + b)[i]) {
      if i >= |a| { assert (a + b)[i] == b[i - |a|]; }
    }
  }

  lemma Regroup(a: string, a': string, r: string, b': string, b: string)
    ensures a + (a' + r + b') + b == (a + a') + r + (b' + b)
  {
  }

  /** Surrounding whitespace makes no difference to `strip`. */
  lemma TrimPadding(a: string, s: string, b: string)
    requires AllSpace(a) && AllSpace(b)
    ensures Trim(a + s + b) == Trim(s)
  {
    TrimSpec(s);
    var r := Trim(s);
    var a', b' :| AllSpace(a') && AllSpace(b') && s == a' + r + b';
    Regroup(a, a', r, b', b);
    AllSpaceConcat(a, a');
    AllSpaceConcat(b', b);
    TrimFramed(a + a', r, b' + b);
  }

  // ---------------------------------------------------------------- lower

  /** Python's `str.lower()` on Latin and Cyrillic letters; every other
      character is unchanged. */
  function LowerChar(c: char): char
  {
    var n := c as int;
    if 0x41 <= n <= 0x5A then (n + 0x20) as char                       // A-Z
    else if 0xC0 <= n <= 0xDE && n != 0xD7 then (n + 0x20) as char    // Latin-1 capitals
    else if 0x410 <= n <= 0x42F then (n + 0x20) as char               // Cyrillic А-Я
    else if 0x400 <= n <= 0x40F then (n + 0x50) as char               // Cyrillic Ѐ-Џ, Ё among them
    else c
  }

  /** `str.lower()`. */
  function Lower(s: string): (r: string)
    ensures |r| == |s|
    ensures forall i :: 0 <= i < |s| ==> r[i] == LowerChar(s[i])
  {
    if s == [] then [] else [LowerChar(s[0])] + Lower(s[1..])
  }

  /** The address key used for joining: `.str.strip().str.lower()`. */
  function Normalize(s: string): string
  {
    Lower(Trim(s))
  }

  lemma LowerCharSpace(c: char)
    ensures IsSpace(LowerChar(c)) == IsSpace(c)
  {
  }

  lemma {:induction false} LowerConcat(a: string, b: string)
    ensures Lower(a + b) == Lower(a) + Lower(b)
  {
    assert Lower(a + b) == Lower(a) + Lower(b);
  }

  lemma LowerAllSpace(w: string)
    requires AllSpace(w)
    ensures AllSpace(Lower(w))
  {
    forall i | 0 <= i < |w| ensures IsSpace(Lower(w)[i]) { LowerCharSpace(w[i]); }
  }

  /** Lower-casing and stripping commute, because lower-casing maps whitespace
      to whitespace and nothing else to whitespace. */
  lemma LowerTrimCommute(s: string)
    ensures Normalize(s) == Trim(Lower(s))
  {
    TrimSpec(s);
    var r := Trim(s);
    var a, b :| AllSpace(a) && AllSpace(b) && s == a + r + b;
    LowerConcat(a + r, b);
    LowerConcat(a, r);
    assert Lower(s) == Lower(a) + Lower(r) + Lower(b);
    LowerAllSpace(a);
    LowerAllSpace(b);
    if r != [] {
      LowerCharSpace(r[0]);
      LowerCharSpace(r[|r| - 1]);
    }
    TrimFramed(Lower(a), Lower(r), Lower(b));
  }

  /** The join key ignores letter case: strings equal after lower-casing
      have the same key. */
  lemma NormalizeIgnoresCase(s: string, t: string)
    requires Lower(s) == Lower(t)
    ensures Normalize(s) == Normalize(t)
  {
    LowerTrimCommute(s);
    LowerTrimCommute(t);
  }

  /** The join key ignores surrounding whitespace. */
  lemma NormalizeIgnoresPadding(a: string, s: string, b: string)
    requires AllSpace(a) && AllSpace(b)
    ensures Normalize(a + s + b) == Normalize(s)
  {
    TrimPadding(a, s, b);
  }

  lemma LowerCharIdempotent(c: char)
    ensures LowerChar(LowerChar(c)) == LowerChar(c)
  {
  }

  lemma LowerIdempotent(s: string)
    ensures Lower(Lower(s)) == Lower(s)
  {
    forall i | 0 <= i < |s| ensures Lower(Lower(s))[i] == Lower(s)[i] {
      LowerCharIdempotent(s[i]);
    }
  }

  /** Normalising an already normalised key changes nothing. */
  lemma NormalizeIdempotent(s: string)
    ensures Normalize(Normalize(s)) == Normalize(s)
  {
    var r := Trim(s);
    TrimSpec(s);
    var l := Lower(r);
    if r != [] {
      LowerCharSpace(r[0]);
      LowerCharSpace(r[|r| - 1]);
    }
    TrimFramed([], l, []);
    assert [] + l + [] == l;
    LowerIdempotent(r);
  }

  // ---------------------------------------------------------------- search and replace

  /** `sub in s` for Python strings. */
  predicate Contains(s: string, sub: string)
  {
    (|sub| <= |s| && s[..|sub|] == sub) || (s != [] && Contains(s[1..], sub))
  }

  /** Character replacement, as `.str.replace(',', '.')` does for one-character patterns. */
  function ReplaceChar(s: string, from: char, to: char): (r: string)
    ensures |r| == |s|
    ensures forall i :: 0 <= i < |s| ==> r[i] == if s[i] == from then to else s[i]
  {
    if s == [] then [] else [if s[0] == from then to else s[0]] + ReplaceChar(s[1..], from, to)
  }

  // ---------------------------------------------------------------- numbers

  predicate IsDigit(c: char)
  {
    '0' <= c <= '9'
  }

  predicate AllDigits(s: string)
  {
    forall i :: 0 <= i < |s| ==> IsDigit(s[i])
  }

  /** Value of a string of decimal digits (0 for the empty string). */
  function DigitsValue(s: string): nat
    requires AllDigits(s)
  {
    if s == [] then 0 else DigitsValue(s[..|s| - 1]) * 10 + (s[|s| - 1] as int - '0' as int)
  }

  function Pow10(n: nat): (r: nat)
    ensures r >= 1
  {
    if n == 0 then 1 else 10 * Pow10(n - 1)
  }

  /** Position of the first '.' in `s`, or |s| when there is none. */
  function DotIndex(s: string): (i: nat)
    ensures i <= |s|
    ensures i < |s| ==> s[i] == '.'
    ensures forall j :: 0 <= j < i ==> s[j] != '.'
  {
    if s == [] then 0 else if s[0] == '.' then 0 else 1 + DotIndex(s[1..])
  }

  /** An unsigned decimal: `digits`, `digits.`, `digits.digits` or `.digits`. */
  function ParseUnsigned(s: string): Option<real>
  {
    var i := DotIndex(s);
    var whole, frac := s[..i], if i < |s| then s[i + 1..] else [];
    if AllDigits(whole) && AllDigits(frac) && |whole| + |frac| > 0 then
      Some(DigitsValue(whole) as real + DigitsValue(frac) as real / Pow10(|frac|) as real)
    else None
  }

  /** `pd.to_numeric(text, errors='coerce')` on the decimal grammar: an
      optional sign followed by an unsigned decimal; anything else is missing. */
  function ParseNumber(s: string): Option<real>
  {
    if |s| > 0 && (s[0] == '-' || s[0] == '+') then
      match ParseUnsigned(s[1..])
      case Some(v) => Some(if s[0] == '-' then -v else v)
      case None => None
    else ParseUnsigned(s)
  }

  /** Decimal rendering of a whole number, as `str(n)` / `f"{n}"` give it. */
  function NatToString(n: nat): (r: string)
    ensures |r| > 0 && AllDigits(r)
    decreases n
  {
    if n < 10 then [('0' as int + n) as char]
    else NatToString(n / 10) + [('0' as int + n % 10) as char]
  }

  /** Reading back a rendered whole number gives the number. */
  lemma {:induction false} NatToStringValue(n: nat)
    ensures DigitsValue(NatToString(n)) == n
    decreases n
  {
    if n >= 10 {
      NatToStringValue(n / 10);
      var s := NatToString(n);
      assert s[..|s| - 1] == NatToString(n / 10);
    }
  }

  lemma {:induction false} NoDotInDigits(s: string)
    requires AllDigits(s)
    ensures DotIndex(s) == |s|
  {
    if s != [] { NoDotInDigits(s[1..]); }
  }

  /** Rendering a whole number and parsing it back is the identity. */
  lemma ParseRendered(n: nat)
    ensures ParseNumber(NatToString(n)) == Some(n as real)
  {
    var s := NatToString(n);
    NoDotInDigits(s);
    NatToStringValue(n);
    assert s[..|s|] == s;
  }

  /** The unsigned parse of a string whose first dot is at `i`. */
  lemma ParseUnsignedSplit(s: string, i: nat)
    requires i < |s| && DotIndex(s) == i
    requires AllDigits(s[..i]) && AllDigits(s[i + 1..]) && i > 0
    ensures ParseUnsigned(s) ==
      Some(DigitsValue(s[..i]) as real + DigitsValue(s[i + 1..]) as real / Pow10(|s| - i - 1) as real)
  {
  }

  lemma DotIndexOfDotted(whole: string, frac: string)
    requires AllDigits(whole)
    ensures DotIndex(whole + "." + frac) == |whole|
  {
    var s := whole + "." + frac;
    assert forall j :: 0 <= j < |whole| ==> s[j] == whole[j];
    DotIndexAt(s, |whole|);
  }

  lemma UnsignedWhenDigitFirst(s: string)
    requires |s| > 0 && IsDigit(s[0])
    ensures ParseNumber(s) == ParseUnsigned(s)
  {
  }

  /** The two sides of the dot of `whole.frac`. */
  lemma DottedParts(whole: string, frac: string)
    ensures (whole + "." + frac)[..|whole|] == whole
    ensures (whole + "." + frac)[|whole| + 1..] == frac
  {
  }

  /** A dotted decimal `whole.frac` parses to whole + frac / 10^|frac|. */
  lemma ParseDotted(whole: string, frac: string)
    requires AllDigits(whole) && AllDigits(frac) && |whole| > 0
    ensures ParseNumber(whole + "." + frac) ==
      Some(DigitsValue(whole) as real + DigitsValue(frac) as real / Pow10(|frac|) as real)
  {
    var s := whole + "." + frac;
    var i := |whole|;
    assert ParseNumber(s) == ParseUnsigned(s) by {
      assert s[0] == whole[0];
      UnsignedWhenDigitFirst(s);
    }
    DottedParts(whole, frac);
    assert |s| - i - 1 == |frac|;
    assert ParseUnsigned(s) ==
      Some(DigitsValue(s[..i]) as real + DigitsValue(s[i + 1..]) as real / Pow10(|s| - i - 1) as real) by {
      DotIndexOfDotted(whole, frac);
      ParseUnsignedSplit(s, i);
    }
  }

  /** Turning the decimal comma into a dot. */
  lemma ReplaceDecimalComma(whole: string, frac: string)
    requires AllDigits(whole) && AllDigits(frac)
    ensures ReplaceChar(whole + "," + frac, ',', '.') == whole + "." + frac
  {
    var s := ReplaceChar(whole + "," + frac, ',', '.');
    var t := whole + "." + frac;
    assert |s| == |t|;
    forall i | 0 <= i < |s| ensures s[i] == t[i] {
      if i < |whole| {
        assert (whole + "," + frac)[i] == whole[i] && t[i] == whole[i];
      } else if i > |whole| {
        assert (whole + "," + frac)[i] == frac[i - |whole| - 1] && t[i] == frac[i - |whole| - 1];
      }
    }
  }

  /** A comma-decimal `whole,frac` parses, after the comma is turned into a
      dot, to whole + frac / 10^|frac|. */
  lemma CommaDecimal(whole: string, frac: string)
    requires AllDigits(whole) && AllDigits(frac) && |whole| > 0
    ensures ParseNumber(ReplaceChar(whole + "," + frac, ',', '.')) ==
      Some(DigitsValue(whole) as real + DigitsValue(frac) as real / Pow10(|frac|) as real)
  {
    ReplaceDecimalComma(whole, frac);
    ParseDotted(whole, frac);
  }

  lemma {:induction false} DotIndexAt(s: string, k: nat)
    requires k < |s| && s[k] == '.'
    requires forall j :: 0 <= j < k ==> s[j] != '.'
    ensures DotIndex(s) == k
  {
    if k > 0 { DotIndexAt(s[1..], k - 1); }
  }

  // ---------------------------------------------------------------- ordering

  /** Python's `<` on strings: lexicographic by code point. */
  predicate Less(a: string, b: string)
  {
    if a == [] then b != []
    else if b == [] then false
    else if a[0] != b[0] then a[0] < b[0]
    else Less(a[1..], b[1..])
  }

  lemma {:induction false} LessIrreflexive(a: string)
    ensures !Less(a, a)
  {
    if a != [] { LessIrreflexive(a[1..]); }
  }

  lemma {:induction false} LessTransitive(a: string, b: string, c: string)
    requires Less(a, b) && Less(b, c)
    ensures Less(a, c)
  {
    if a != [] && b != [] && c != [] && a[0] == b[0] && b[0] == c[0] {
      LessTransitive(a[1..], b[1..], c[1..]);
    }
  }

  lemma {:induction false} LessTotal(a: string, b: string)
    requires a != b
    ensures Less(a, b) || Less(b, a)
  {
    if a != [] && b != [] && a[0] == b[0] {
      assert a == [a[0]] + a[1..] && b == [b[0]] + b[1..];
      LessTotal(a[1..], b[1..]);
    }
  }
}
