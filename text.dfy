/**
 * Text helpers shared by the ingest stages: whitespace normalisation
 * (`clean_text`), substring search, `str.replace(pat, '')`, case mapping,
 * and decimal formatting and parsing of numbers.
 */
module Text {
  import opened Wrappers

  /**
   * Python's whitespace, as `\s` and `str.strip()` see it: \t, \n, \v, \f,
   * \r (codes 9 to 13), the separators 0x1C to 0x1F, the space, 0x85,
   * the no-break space 0xA0, and the Unicode spaces and line separators.
   */
  predicate IsSpace(c: char) {
    || '\t' <= c <= '\r' || '\U{001C}' <= c <= ' ' || c == '\U{0085}' || c == '\U{00A0}'
    || c == '\U{1680}' || '\U{2000}' <= c <= '\U{200A}' || c == '\U{2028}' || c == '\U{2029}'
    || c == '\U{202F}' || c == '\U{205F}' || c == '\U{3000}'
  }

  /** The characters of `s` that are not whitespace, in order. */
  function NonSpace(s: string): string {
    if s == [] then []
    else if IsSpace(s[0]) then NonSpace(s[1..])
    else [s[0]] + NonSpace(s[1..])
  }

  lemma {:induction false} NonSpaceAppend(a: string, b: string)
    ensures NonSpace(a + b) == NonSpace(a) + NonSpace(b)
  {
    if a != [] {
      assert (a + b)[1..] == a[1..] + b;
      NonSpaceAppend(a[1..], b);
    } else {
      assert a + b == b;
    }
  }

  /** Every whitespace character is a plain space and no two are adjacent. */
  ghost predicate IsSqueezed(s: string) {
    && (forall i :: 0 <= i < |s| && IsSpace(s[i]) ==> s[i] == ' ')
    && (forall i, j :: 0 <= i && j == i + 1 && j < |s| ==> !(IsSpace(s[i]) && IsSpace(s[j])))
  }

  /** The normal form `clean_text` produces: squeezed, and no whitespace at either end. */
  ghost predicate IsClean(s: string) {
    IsSqueezed(s) && (s != [] ==> !IsSpace(s[0]) && !IsSpace(s[|s| - 1]))
  }

  /** `str.lstrip()`: drops the leading whitespace. */
  function TrimStart(s: string): (r: string)
    ensures |r| <= |s|
  {
    if s != [] && IsSpace(s[0]) then TrimStart(s[1..]) else s
  }

  /** `str.rstrip()`: drops the trailing whitespace. */
  function TrimEnd(s: string): (r: string)
    ensures |r| <= |s|
  {
    if s != [] && IsSpace(s[|s| - 1]) then TrimEnd(s[..|s| - 1]) else s
  }

  /** `str.strip()`. */
  function Strip(s: string): string {
    TrimEnd(TrimStart(s))
  }

  /** `lstrip` keeps a suffix that starts with a non-space, and leaves such a text alone. */
  lemma {:induction false} TrimStartSlice(s: string)
    ensures var r := TrimStart(s);
      && r == s[|s| - |r|..]
      && (r != [] ==> !IsSpace(r[0]))
      && (s != [] && !IsSpace(s[0]) ==> r == s)
  {
    if s != [] && IsSpace(s[0]) {
      TrimStartSlice(s[1..]);
      var r := TrimStart(s[1..]);
      assert TrimStart(s) == r;
      assert s[1..][|s| - 1 - |r|..] == s[|s| - |r|..];
    } else {
      assert TrimStart(s) == s;
    }
  }

  /** `lstrip` drops only whitespace. */
  lemma {:induction false} TrimStartNonSpace(s: string)
    ensures NonSpace(TrimStart(s)) == NonSpace(s)
  {
    if s != [] && IsSpace(s[0]) {
      TrimStartNonSpace(s[1..]);
    }
  }

  /** `rstrip` keeps a prefix that ends with a non-space, and leaves such a text alone. */
  lemma {:induction false} TrimEndSlice(s: string)
    ensures var r := TrimEnd(s);
      && r == s[..|r|]
      && (r != [] ==> !IsSpace(r[|r| - 1]))
      && (s != [] && !IsSpace(s[|s| - 1]) ==> r == s)
  {
    if s != [] && IsSpace(s[|s| - 1]) {
      var t := s[..|s| - 1];
      TrimEndSlice(t);
      var r := TrimEnd(t);
      assert t[..|r|] == s[..|r|];
    }
  }

  /** `rstrip` drops only whitespace. */
  lemma {:induction false} TrimEndNonSpace(s: string)
    ensures NonSpace(TrimEnd(s)) == NonSpace(s)
  {
    if s != [] && IsSpace(s[|s| - 1]) {
      var t := s[..|s| - 1];
      TrimEndNonSpace(t);
      assert s == t + [s[|s| - 1]];
      NonSpaceAppend(t, [s[|s| - 1]]);
      assert NonSpace([s[|s| - 1]]) == [];
    }
  }

  /** Text without whitespace at either end is its own `strip()`. */
  lemma StripUnchanged(s: string)
    requires s != [] ==> !IsSpace(s[0]) && !IsSpace(s[|s| - 1])
    ensures Strip(s) == s
  {
    TrimStartSlice(s);
    TrimEndSlice(s);
  }

  /** `re.sub(r'\s+', ' ', s)`: every maximal run of whitespace becomes one space. */
  function Squeeze(s: string): (r: string)
    decreases |s|
  {
    if s == [] then []
    else if IsSpace(s[0]) then [' '] + Squeeze(TrimStart(s[1..]))
    else [s[0]] + Squeeze(s[1..])
  }

  /** The result of `Squeeze` is squeezed, and starts with a space only where `s` did. */
  lemma {:induction false} SqueezeShape(s: string)
    ensures var r := Squeeze(s);
      && IsSqueezed(r)
      && (r != [] && IsSpace(r[0]) ==> s != [] && IsSpace(s[0]))
    decreases |s|
  {
    if s != [] {
      var rest := if IsSpace(s[0]) then TrimStart(s[1..]) else s[1..];
      TrimStartSlice(s[1..]);
      SqueezeShape(rest);
      var q := Squeeze(rest);
      assert IsSpace(s[0]) && q != [] ==> !IsSpace(q[0]);
      SqueezedCons(if IsSpace(s[0]) then ' ' else s[0], q);
    }
  }

  /** Putting one character before a squeezed text keeps it squeezed, unless it makes a double space. */
  lemma SqueezedCons(c: char, q: string)
    requires IsSqueezed(q) && (IsSpace(c) ==> c == ' ')
    requires IsSpace(c) && q != [] ==> !IsSpace(q[0])
    ensures IsSqueezed([c] + q)
  {
    var r := [c] + q;
    forall i, j | 0 <= i && j == i + 1 && j < |r| ensures !(IsSpace(r[i]) && IsSpace(r[j])) {
      assert r[j] == q[i];
      if i > 0 {
        assert r[i] == q[i - 1];
      }
    }
    forall i | 0 <= i < |r| && IsSpace(r[i]) ensures r[i] == ' ' {
      if i > 0 {
        assert r[i] == q[i - 1];
      }
    }
  }

  /** `Squeeze` keeps the non-space characters. */
  lemma {:induction false} SqueezeNonSpace(s: string)
    ensures NonSpace(Squeeze(s)) == NonSpace(s)
    decreases |s|
  {
    if s != [] {
      var rest := if IsSpace(s[0]) then TrimStart(s[1..]) else s[1..];
      TrimStartNonSpace(s[1..]);
      SqueezeNonSpace(rest);
      var q := Squeeze(rest);
      var r := Squeeze(s);
      assert r == [if IsSpace(s[0]) then ' ' else s[0]] + q;
      assert r[1..] == q;
    }
  }

  /** A squeezed text is left alone by `Squeeze`. */
  lemma {:induction false} SqueezeSqueezed(s: string)
    requires IsSqueezed(s)
    ensures Squeeze(s) == s
    decreases |s|
  {
    if s != [] {
      assert IsSqueezed(s[1..]);
      if IsSpace(s[0]) {
        TrimStartSlice(s[1..]);
        assert s[1..] != [] ==> !IsSpace(s[1..][0]);
        assert TrimStart(s[1..]) == s[1..];
      }
      SqueezeSqueezed(s[1..]);
    }
  }

  /** Any slice of a squeezed text is squeezed. */
  lemma SqueezedSlice(q: string, lo: nat, hi: nat)
    requires lo <= hi <= |q| && IsSqueezed(q)
    ensures IsSqueezed(q[lo..hi])
  {
    var r := q[lo..hi];
    forall i | 0 <= i < |r| && IsSpace(r[i]) ensures r[i] == ' ' {
      assert r[i] == q[lo + i];
    }
    forall i, j | 0 <= i && j == i + 1 && j < |r| ensures !(IsSpace(r[i]) && IsSpace(r[j])) {
      assert r[i] == q[lo + i] && r[j] == q[lo + j];
    }
  }

  lemma SliceOfSuffix(s: string, lo: nat, n: nat)
    requires lo + n <= |s|
    ensures s[lo..][..n] == s[lo..lo + n]
  {
  }

  /** `strip` keeps a slice of its input that starts and ends with a non-space. */
  lemma StripSlice(s: string)
    ensures var r, lo := Strip(s), |s| - |TrimStart(s)|;
      && lo + |r| <= |s| && r == s[lo..lo + |r|]
      && (r != [] ==> !IsSpace(r[0]) && !IsSpace(r[|r| - 1]))
  {
    var t := TrimStart(s);
    var r := TrimEnd(t);
    TrimStartSlice(s);
    TrimEndSlice(t);
    assert Strip(s) == r;
    var lo := |s| - |t|;
    SliceOfSuffix(s, lo, |r|);
    if r != [] {
      assert r[0] == t[0];
    }
  }

  lemma StripSqueezed(q: string)
    requires IsSqueezed(q)
    ensures IsClean(Strip(q))
  {
    StripSlice(q);
    var lo := |q| - |TrimStart(q)|;
    SqueezedSlice(q, lo, lo + |Strip(q)|);
  }

  /** `strip()` drops only whitespace. */
  lemma StripNonSpace(s: string)
    ensures NonSpace(Strip(s)) == NonSpace(s)
  {
    TrimStartNonSpace(s);
    TrimEndNonSpace(TrimStart(s));
  }

  /** A clean text is empty exactly when it has no non-space character. */
  lemma CleanEmpty(r: string)
    requires IsClean(r)
    ensures r == "" <==> NonSpace(r) == ""
  {
    if r != "" {
      assert NonSpace(r) == [r[0]] + NonSpace(r[1..]);
    }
  }

  /**
   * `clean_text`: a missing or empty cell gives "", anything else has its
   * whitespace runs squeezed to one space and is stripped.
   */
  function CleanText(cell: Option<string>): string {
    match cell
    case None => ""
    case Some(s) => if s == "" then "" else Strip(Squeeze(s))
  }

  /**
   * A missing or empty cell cleans to ""; otherwise the result is in the
   * normal form (squeezed, no whitespace at either end), keeps exactly the
   * non-space characters of the cell, and is empty only for a blank cell.
   */
  lemma CleanTextSpec(cell: Option<string>)
    ensures cell == None || cell == Some("") ==> CleanText(cell) == ""
    ensures IsClean(CleanText(cell))
    ensures NonSpace(CleanText(cell)) == NonSpace(cell.GetOr(""))
    ensures CleanText(cell) == "" <==> NonSpace(cell.GetOr("")) == ""
  {
    if cell.Some? && cell.value != "" {
      SqueezeShape(cell.value);
      SqueezeNonSpace(cell.value);
      StripSqueezed(Squeeze(cell.value));
      StripNonSpace(Squeeze(cell.value));
      CleanEmpty(CleanText(cell));
    }
  }

  /** Squeezing and stripping a text in normal form changes nothing. */
  lemma CleanIsFixed(t: string)
    requires IsClean(t)
    ensures CleanText(Some(t)) == t
  {
    SqueezeSqueezed(t);
    StripUnchanged(t);
  }

  /** Cleaning a cleaned text changes nothing. */
  lemma CleanTextIdempotent(cell: Option<string>)
    ensures CleanText(Some(CleanText(cell))) == CleanText(cell)
  {
    CleanTextSpec(cell);
    CleanIsFixed(CleanText(cell));
  }

  /** ASCII `str.lower()` of one character. */
  function LowerChar(c: char): char {
    if 'A' <= c <= 'Z' then (c as int + 32) as char else c
  }

  /** ASCII `str.upper()` of one character. */
  function UpperChar(c: char): char {
    if 'a' <= c <= 'z' then (c as int - 32) as char else c
  }

  function Lower(s: string): string {
    seq(|s|, i requires 0 <= i < |s| => LowerChar(s[i]))
  }

  function Upper(s: string): string {
    seq(|s|, i requires 0 <= i < |s| => UpperChar(s[i]))
  }

  /** `pat` occurs in `s` starting at index `i`. */
  predicate OccursAt(s: string, pat: string, i: int) {
    0 <= i && i + |pat| <= |s| && s[i..i + |pat|] == pat
  }

  /** Python's `pat in s`. */
  function Contains(s: string, pat: string): bool
    decreases |s|
  {
    if |pat| <= |s| && s[..|pat|] == pat then true
    else if s == [] then false
    else Contains(s[1..], pat)
  }

  /** An occurrence in the tail is an occurrence one place further along in the whole. */
  lemma OccursShift(s: string, pat: string, i: nat)
    requires s != []
    ensures OccursAt(s, pat, i + 1) <==> OccursAt(s[1..], pat, i)
  {
    if i + 1 + |pat| <= |s| {
      assert s[1..][i..i + |pat|] == s[i + 1..i + 1 + |pat|];
    }
  }

  /** `pat in s` holds exactly when `pat` occurs somewhere in `s`. */
  lemma {:induction false} ContainsIff(s: string, pat: string)
    ensures Contains(s, pat) <==> exists i :: OccursAt(s, pat, i)
    decreases |s|
  {
    if |pat| <= |s| && s[..|pat|] == pat {
      assert OccursAt(s, pat, 0);
    } else if s != [] {
      ContainsIff(s[1..], pat);
      if Contains(s[1..], pat) {
        var i :| OccursAt(s[1..], pat, i);
        OccursShift(s, pat, i);
      } else {
        forall i ensures !OccursAt(s, pat, i) {
          if i == 0 && |pat| <= |s| {
            assert s[..|pat|] == s[0..|pat|];
          } else if i > 0 {
            OccursShift(s, pat, i - 1);
          }
        }
      }
    }
  }

  /** Whatever contains `q` contains every prefix `p` of `q`. */
  lemma ContainsPrefix(s: string, p: string, q: string)
    requires |p| <= |q| && q[..|p|] == p
    requires Contains(s, q)
    ensures Contains(s, p)
  {
    ContainsIff(s, q);
    ContainsIff(s, p);
    var i :| OccursAt(s, q, i);
    assert s[i..i + |p|] == s[i..i + |q|][..|p|];
    assert OccursAt(s, p, i);
  }

  /** A one-character pattern occurs exactly when the character does. */
  lemma {:induction false} ContainsChar(s: string, c: char)
    ensures Contains(s, [c]) <==> c in s
    decreases |s|
  {
    if s != [] {
      ContainsChar(s[1..], c);
      assert s[..1] == [s[0]];
      assert forall x :: x in s <==> x == s[0] || x in s[1..];
    }
  }

  /** A pattern whose first character is absent from `s` does not occur in `s`. */
  lemma AbsentFirstChar(s: string, pat: string)
    requires pat != [] && pat[0] !in s
    ensures !Contains(s, pat)
  {
    ContainsChar(s, pat[0]);
    if Contains(s, pat) {
      ContainsPrefix(s, [pat[0]], pat);
    }
  }

  /**
   * Python's `s.replace(pat, '')`: occurrences are removed in one pass from
   * left to right. A text holding the pattern loses at least one copy of it;
   * one without it is left as it is.
   */
  function DeleteAll(s: string, pat: string): (r: string)
    requires pat != []
    ensures |r| <= |s|
    ensures Contains(s, pat) ==> |r| <= |s| - |pat|
    ensures !Contains(s, pat) ==> r == s
    decreases |s|
  {
    if |pat| <= |s| && s[..|pat|] == pat then
      DeleteAll(s[|pat|..], pat)
    else if s == [] then
      []
    else
      [s[0]] + DeleteAll(s[1..], pat)
  }

  /** The characters of `s` other than `c`, in order. */
  function Without(s: string, c: char): (r: string)
    ensures forall x :: x in r <==> x in s && x != c
  {
    if s == [] then []
    else
      assert forall x :: x in s <==> x == s[0] || x in s[1..];
      (if s[0] == c then [] else [s[0]]) + Without(s[1..], c)
  }

  /**
   * Deleting a one-character pattern, as `replace(',', '')` does, drops
   * exactly that character and keeps the others in order.
   */
  lemma {:induction false} DeleteAllChar(s: string, c: char)
    ensures DeleteAll(s, [c]) == Without(s, c)
    ensures c !in DeleteAll(s, [c])
    decreases |s|
  {
    if s != [] {
      assert s[..1] == [s[0]];
      DeleteAllChar(s[1..], c);
    }
  }

  /**
   * One pass is not a fixed point for a longer pattern: removing ".0" from
   * "..00" joins its neighbours into a new ".0".
   */
  lemma DeleteAllSinglePass()
    ensures DeleteAll("..00", ".0") == ".0"
  {
    assert "..00"[1..] == ".00";
    assert ".00"[2..] == "0";
    assert DeleteAll("0", ".0") == "0" by {
      AbsentFirstChar("0", ".0");
    }
  }

  predicate IsDigit(c: char) {
    '0' <= c <= '9'
  }

  predicate IsDigits(s: string) {
    forall i :: 0 <= i < |s| ==> IsDigit(s[i])
  }

  /** A text made of digits contains no '.', so has no ".0" to remove. */
  lemma DigitsHaveNoDot(s: string, pat: string)
    requires IsDigits(s) && pat != [] && pat[0] == '.'
    ensures !Contains(s, pat)
  {
    forall i | 0 <= i && i + |pat| <= |s| ensures !OccursAt(s, pat, i) {
      assert s[i..i + |pat|][0] == s[i];
    }
    ContainsIff(s, pat);
  }

  function DigitChar(d: nat): char
    requires d < 10
  {
    ('0' as int + d) as char
  }

  function DigitValue(c: char): nat
    requires IsDigit(c)
  {
    c as int - '0' as int
  }

  /** The decimal text of `n`, as Python's `str(n)`. */
  function NatToString(n: nat): (r: string)
    ensures r != [] && IsDigits(r)
  {
    if n < 10 then [DigitChar(n)] else NatToString(n / 10) + [DigitChar(n % 10)]
  }

  /** The value of a decimal digit string ("" reads as 0). */
  function ParseNat(s: string): nat
    requires IsDigits(s)
  {
    if s == [] then 0 else ParseNat(s[..|s| - 1]) * 10 + DigitValue(s[|s| - 1])
  }

  lemma {:induction false} ParseNatToString(n: nat)
    ensures ParseNat(NatToString(n)) == n
  {
    if n >= 10 {
      var s := NatToString(n);
      assert s[..|s| - 1] == NatToString(n / 10);
      ParseNatToString(n / 10);
    }
  }

  /** Python's `str(i)` for an int: a leading '-' for negatives. */
  function IntToString(i: int): string {
    if i < 0 then "-" + NatToString(-i) else NatToString(i)
  }

  function Pow10(n: nat): (r: nat)
    ensures r >= 1
  {
    if n == 0 then 1 else 10 * Pow10(n - 1)
  }

  /** The first index of `c` in `s`, or `|s|` when it does not occur. */
  function IndexOf(s: string, c: char): (k: nat)
    ensures k <= |s|
    ensures k < |s| ==> s[k] == c
    ensures forall j :: 0 <= j < k ==> s[j] != c
  {
    if s == [] then 0 else if s[0] == c then 0 else 1 + IndexOf(s[1..], c)
  }

  /** Unsigned decimal `digits[.digits]` with at least one digit. */
  function ParseUnsigned(s: string): Option<real> {
    var k := IndexOf(s, '.');
    var whole := s[..k];
    var frac := if k < |s| then s[k + 1..] else [];
    if IsDigits(whole) && IsDigits(frac) && |whole| + |frac| > 0 then
      Some(ParseNat(whole) as real + ParseNat(frac) as real / Pow10(|frac|) as real)
    else
      None
  }

  /**
   * Python's `float(s)` on already-stripped text, restricted to an optional
   * sign and a plain decimal; `None` is the `ValueError`.
   */
  function ParseDecimal(s: string): Option<real> {
    if s != [] && (s[0] == '+' || s[0] == '-') then
      match ParseUnsigned(s[1..])
      case Some(v) => Some(if s[0] == '-' then -v else v)
      case None => None
    else
      ParseUnsigned(s)
  }

  /** A plain digit string reads as its value. */
  lemma ParseUnsignedDigits(d: string)
    requires d != [] && IsDigits(d)
    ensures ParseUnsigned(d) == Some(ParseNat(d) as real)
  {
    var k := IndexOf(d, '.');
    assert forall j :: 0 <= j < |d| ==> d[j] != '.';
    assert k == |d|;
    assert d[..k] == d;
    var frac: string := [];
    assert IsDigits(frac) && ParseNat(frac) == 0 && Pow10(|frac|) == 1;
    assert ParseNat(frac) as real / Pow10(|frac|) as real == 0.0;
  }

  /** An explicit plus sign in front of a natural number reads as the number. */
  lemma ParseDecimalPlus(n: nat)
    ensures ParseDecimal("+" + IntToString(n)) == Some(n as real)
  {
    var d := NatToString(n);
    ParseNatToString(n);
    ParseUnsignedDigits(d);
    assert ("+" + d)[1..] == d;
  }

  /** Reading back the decimal text of an integer gives the integer. */
  lemma ParseDecimalIntToString(i: int)
    ensures ParseDecimal(IntToString(i)) == Some(i as real)
  {
    var n: nat := if i < 0 then -i else i;
    var d := NatToString(n);
    ParseNatToString(n);
    ParseUnsignedDigits(d);
    if i < 0 {
      assert IntToString(i)[1..] == d;
    } else {
      assert IsDigit(d[0]);
    }
  }
}
