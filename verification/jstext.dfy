/** The JavaScript string operations the dashboard's core uses, over
    `string` = `seq<char>`: `trim`, `split`, `join`, `includes`, `indexOf`,
    `lastIndexOf`, `replace` with a global literal or `\s+` pattern,
    `substring`, ASCII case mapping, code-unit comparison, and `Number(...)`
    applied to a string or to a scalar JSON value. */
module JsText {
  import opened Common

  /** The characters `trim` removes and the regular expression `\s` matches:
      the WhiteSpace and LineTerminator code points of ECMAScript. */
  predicate IsSpace(c: char) {
    || c == ' ' || c == '\t' || c == '\n' || c == '\r'
    || c == '\U{000B}' || c == '\U{000C}' || c == '\U{00A0}' || c == '\U{1680}'
    || ('\U{2000}' <= c <= '\U{200A}')
    || c == '\U{2028}' || c == '\U{2029}' || c == '\U{202F}' || c == '\U{205F}'
    || c == '\U{3000}' || c == '\U{FEFF}'
  }

  predicate NoSpace(s: string) {
    forall i :: 0 <= i < |s| ==> !IsSpace(s[i])
  }

  /** Drops the leading run of white space. */
  function TrimStart(s: string): (r: string)
    ensures |r| <= |s| && r == s[|s| - |r|..]
    ensures forall i :: 0 <= i < |s| - |r| ==> IsSpace(s[i])
    ensures r == [] || !IsSpace(r[0])
    ensures |s| > 0 && IsSpace(s[0]) ==> |r| < |s|
    decreases |s|
  {
    if |s| > 0 && IsSpace(s[0]) then TrimStart(s[1..]) else s
  }

  /** Drops the trailing run of white space. */
  function TrimEnd(s: string): (r: string)
    ensures |r| <= |s| && r == s[..|r|]
    ensures forall i :: |r| <= i < |s| ==> IsSpace(s[i])
    ensures r == [] || !IsSpace(r[|r| - 1])
    decreases |s|
  {
    if |s| > 0 && IsSpace(s[|s| - 1]) then TrimEnd(s[..|s| - 1]) else s
  }

  /** `s.trim()`. */
  function Trim(s: string): (r: string)
    ensures |r| <= |s|
    ensures r == [] || (!IsSpace(r[0]) && !IsSpace(r[|r| - 1]))
  {
    TrimEnd(TrimStart(s))
  }

  /** Trimming never introduces a character. */
  lemma TrimKeepsOut(s: string, c: char)
    requires c !in s
    ensures c !in Trim(s)
  {
    var t := TrimStart(s);
    SliceKeepsOut(s, |s| - |t|, |s|, c);
    SliceKeepsOut(t, 0, |TrimEnd(t)|, c);
  }

  lemma SliceKeepsOut(s: string, i: nat, j: nat, c: char)
    requires i <= j <= |s| && c !in s
    ensures c !in s[i..j]
  {
    assert forall k :: 0 <= k < j - i ==> s[i..j][k] == s[i + k];
  }

  /** A string that neither starts nor ends with white space is its own trim;
      together with the ensures of `Trim` this makes `Trim` idempotent. */
  lemma TrimKeeps(s: string)
    requires s == [] || (!IsSpace(s[0]) && !IsSpace(s[|s| - 1]))
    ensures Trim(s) == s
  {
    assert TrimStart(s) == s;
    assert TrimEnd(s) == s;
  }

  lemma TrimIdempotent(s: string)
    ensures Trim(Trim(s)) == Trim(s)
  {
    TrimKeeps(Trim(s));
  }

  /** `parts.join(sep)`. */
  function Join(parts: seq<string>, sep: string): string
    decreases |parts|
  {
    if |parts| == 0 then ""
    else if |parts| == 1 then parts[0]
    else parts[0] + sep + Join(parts[1..], sep)
  }

  /** `s.split(c)` for a one-character separator: the maximal separator-free
      pieces, empty pieces included, so `"".split(c)` is `[""]`. */
  function Split(s: string, c: char): (r: seq<string>)
    ensures |r| >= 1
    ensures Join(r, [c]) == s
    ensures forall i :: 0 <= i < |r| ==> c !in r[i]
    decreases |s|
  {
    if |s| == 0 then [""]
    else
      var rest := Split(s[1..], c);
      if s[0] == c then [""] + rest
      else [[s[0]] + rest[0]] + rest[1..]
  }

  /** The converse of the round trip in `Split`'s contract: any separator-free
      decomposition that joins back to `s` is the one `Split` returns. */
  lemma {:induction false} SplitUnique(s: string, c: char, parts: seq<string>)
    requires |parts| >= 1
    requires forall i :: 0 <= i < |parts| ==> c !in parts[i]
    requires Join(parts, [c]) == s
    ensures Split(s, c) == parts
    decreases |s|
  {
    if |parts| >= 2 {
      assert s == parts[0] + ([c] + Join(parts[1..], [c]));
    }
    if |s| == 0 {
      if |parts| >= 2 {
        assert false;
      }
      assert parts == [""];
    } else if s[0] == c {
      if |parts| == 1 {
        assert false;
      } else if parts[0] != "" {
        assert false;
      } else {
        assert s[1..] == Join(parts[1..], [c]);
        SplitUnique(s[1..], c, parts[1..]);
        assert parts == [""] + parts[1..];
      }
    } else if parts[0] == "" {
      assert false;
    } else {
      var tail := parts[0][1..];
      var parts' := [tail] + parts[1..];
      assert parts'[1..] == parts[1..];
      if |parts| == 1 {
        assert Join(parts', [c]) == s[1..];
      } else {
        assert Join(parts', [c]) == tail + [c] + Join(parts[1..], [c]);
        assert Join(parts', [c]) == s[1..];
      }
      forall i | 0 <= i < |parts'|
        ensures c !in parts'[i]
      {
        if i == 0 {
          assert forall k :: 0 <= k < |tail| ==> tail[k] == parts[0][k + 1];
        } else {
          assert parts'[i] == parts[i];
        }
      }
      SplitUnique(s[1..], c, parts');
      assert parts[0] == [s[0]] + tail;
      assert parts == [[s[0]] + tail] + parts[1..];
    }
  }

  /** Splitting `a c b` on `c` when neither side contains `c`. */
  lemma SplitTwo(a: string, b: string, c: char)
    requires c !in a && c !in b
    ensures Split(a + [c] + b, c) == [a, b]
  {
    assert [a, b][1..] == [b];
    assert Join([a, b], [c]) == a + [c] + b;
    SplitUnique(a + [c] + b, c, [a, b]);
  }

  /** `s.startsWith(p)`. */
  predicate StartsWith(s: string, p: string) {
    |p| <= |s| && s[..|p|] == p
  }

  /** `s.includes(p)`. */
  predicate Contains(s: string, p: string)
    decreases |s|
  {
    StartsWith(s, p) || (|s| > 0 && Contains(s[1..], p))
  }

  /** `p` occurs in `s` starting at index `i`. */
  predicate OccursAt(s: string, p: string, i: int) {
    0 <= i <= |s| - |p| && s[i..i + |p|] == p
  }

  /** `Contains` holds exactly when `p` occurs at some position of `s`. */
  lemma {:induction false} ContainsAt(s: string, p: string)
    ensures Contains(s, p) <==> exists i :: OccursAt(s, p, i)
    decreases |s|
  {
    if StartsWith(s, p) {
      assert OccursAt(s, p, 0);
    } else if |s| > 0 {
      ContainsAt(s[1..], p);
      if Contains(s[1..], p) {
        var i :| OccursAt(s[1..], p, i);
        assert OccursAt(s, p, i + 1);
      }
      if exists i :: OccursAt(s, p, i) {
        var i :| OccursAt(s, p, i);
        assert i > 0;
        assert OccursAt(s[1..], p, i - 1);
      }
    }
  }

  /** `s.indexOf(c)`. */
  function IndexOf(s: string, c: char): (r: int)
    ensures -1 <= r < |s|
    ensures r == -1 <==> c !in s
    ensures r >= 0 ==> s[r] == c && c !in s[..r]
    decreases |s|
  {
    if |s| == 0 then -1
    else if s[0] == c then 0
    else
      var k := IndexOf(s[1..], c);
      assert s[1..][..k + 1] == s[1..k + 2] by { }
      if k == -1 then -1 else k + 1
  }

  /** `s.lastIndexOf(c)`. */
  function LastIndexOf(s: string, c: char): (r: int)
    ensures -1 <= r < |s|
    ensures r == -1 <==> c !in s
    ensures r >= 0 ==> s[r] == c && c !in s[r + 1..]
    decreases |s|
  {
    if |s| == 0 then -1
    else if s[|s| - 1] == c then |s| - 1
    else
      var k := LastIndexOf(s[..|s| - 1], c);
      assert s == s[..|s| - 1] + [s[|s| - 1]];
      k
  }

  /** No `c` comes before the first one. */
  lemma NoneBeforeFirst(s: string, c: char, i: int)
    requires 0 <= i < |s| && (IndexOf(s, c) == -1 || i < IndexOf(s, c))
    ensures s[i] != c
  {
    var r := IndexOf(s, c);
    if r >= 0 {
      assert s[i] == s[..r][i];
    }
  }

  /** No `c` comes after the last one. */
  lemma NoneAfterLast(s: string, c: char, i: int)
    requires LastIndexOf(s, c) < i < |s|
    ensures s[i] != c
  {
    var r := LastIndexOf(s, c);
    if r >= 0 {
      assert s[i] == s[r + 1..][i - r - 1];
    }
  }

  /** `s.replace(/p/g, "")` for a literal pattern: occurrences are removed
      left to right without overlapping. */
  function RemoveAll(s: string, p: string): (r: string)
    requires |p| > 0
    ensures |r| <= |s|
    ensures !Contains(s, p) ==> r == s
    decreases |s|
  {
    if |s| == 0 then s
    else if StartsWith(s, p) then RemoveAll(s[|p|..], p)
    else [s[0]] + RemoveAll(s[1..], p)
  }

  /** `s.replace(c, d)` with a one-character string pattern: only the first
      occurrence is replaced. */
  function ReplaceFirst(s: string, c: char, d: char): (r: string)
    ensures |r| == |s|
    ensures c !in s ==> r == s
    ensures c in s ==> var i := IndexOf(s, c); r == s[..i] + [d] + s[i + 1..]
  {
    var i := IndexOf(s, c);
    if i < 0 then s else s[..i] + [d] + s[i + 1..]
  }

  /** The first `c` of `a + [c] + b`, when `a` holds none, is the one after `a`. */
  lemma IndexOfAfter(a: string, b: string, c: char)
    requires c !in a
    ensures IndexOf(a + [c] + b, c) == |a|
  {
    var s := a + [c] + b;
    assert s[|a|] == c;
  }

  /** Replacing the first `c` of `a + [c] + b`, when `a` holds none, replaces the one after `a`. */
  lemma ReplaceFirstAfter(a: string, b: string, c: char, d: char)
    requires c !in a
    ensures ReplaceFirst(a + [c] + b, c, d) == a + [d] + b
  {
    IndexOfAfter(a, b, c);
    var s := a + [c] + b;
    assert s[..|a|] == a && s[|a| + 1..] == b;
  }

  /** `s.replace(/\s+/g, '-')`: every maximal run of white space becomes one dash. */
  function CollapseSpaces(s: string): (r: string)
    ensures NoSpace(r)
    ensures |r| <= |s|
    ensures NoSpace(s) ==> r == s
    decreases |s|
  {
    if |s| == 0 then ""
    else if IsSpace(s[0]) then "-" + CollapseSpaces(TrimStart(s))
    else [s[0]] + CollapseSpaces(s[1..])
  }

  predicate IsUpperAscii(c: char) {
    'A' <= c <= 'Z'
  }

  predicate IsLowerAscii(c: char) {
    'a' <= c <= 'z'
  }

  /** ASCII part of `toLowerCase` on one character. */
  function LowerChar(c: char): (r: char)
    ensures !IsUpperAscii(r)
    ensures IsSpace(r) <==> IsSpace(c)
    ensures !IsUpperAscii(c) ==> r == c
  {
    if IsUpperAscii(c) then (c as int + 32) as char else c
  }

  /** ASCII part of `toUpperCase` on one character. */
  function UpperChar(c: char): (r: char)
    ensures !IsLowerAscii(r)
    ensures !IsLowerAscii(c) ==> r == c
    ensures IsLowerAscii(c) ==> LowerChar(r) == c
  {
    if IsLowerAscii(c) then (c as int - 32) as char else c
  }

  /** `s.toLowerCase()`, ASCII letters only. */
  function ToLower(s: string): (r: string)
    ensures |r| == |s|
    ensures forall i :: 0 <= i < |s| ==> r[i] == LowerChar(s[i])
  {
    seq(|s|, i requires 0 <= i < |s| => LowerChar(s[i]))
  }

  /** `s.toUpperCase()`, ASCII letters only. */
  function ToUpper(s: string): (r: string)
    ensures |r| == |s|
    ensures forall i :: 0 <= i < |s| ==> r[i] == UpperChar(s[i])
  {
    seq(|s|, i requires 0 <= i < |s| => UpperChar(s[i]))
  }

  /** Clamps a `substring` argument into `[0, len]`. */
  function ClampIndex(i: int, len: nat): (r: nat)
    ensures r <= len
  {
    if i < 0 then 0 else if i > len then len else i
  }

  /** `s.substring(start, end)`: both arguments are clamped, and they are
      swapped when `end` is smaller than `start`. */
  function Substring(s: string, start: int, end: int): string
  {
    var a := ClampIndex(start, |s|);
    var b := ClampIndex(end, |s|);
    if a <= b then s[a..b] else s[b..a]
  }

  /** Code-unit order on strings, standing in for `a.localeCompare(b)`:
      -1, 0 or 1. A collation orders punctuation before digits and letters
      case-blind first, so the two agree only where the texts first differ
      digit against digit, or one is a prefix of the other. */
  function StrCompare(a: string, b: string): (r: int)
    ensures -1 <= r <= 1
    ensures r == 0 <==> a == b
    decreases |a|
  {
    if |a| == 0 && |b| == 0 then 0
    else if |a| == 0 then -1
    else if |b| == 0 then 1
    else if a[0] < b[0] then -1
    else if a[0] > b[0] then 1
    else
      var r := StrCompare(a[1..], b[1..]);
      assert r == 0 ==> a == [a[0]] + a[1..] == [b[0]] + b[1..] == b;
      r
  }

  lemma {:induction false} StrCompareAntisymmetric(a: string, b: string)
    ensures StrCompare(a, b) == -StrCompare(b, a)
    decreases |a|
  {
    if |a| > 0 && |b| > 0 && a[0] == b[0] {
      StrCompareAntisymmetric(a[1..], b[1..]);
    }
  }

  lemma {:induction false} StrCompareTransitive(a: string, b: string, c: string)
    requires StrCompare(a, b) <= 0 && StrCompare(b, c) <= 0
    ensures StrCompare(a, c) <= 0
    decreases |a|
  {
    if |a| > 0 && |b| > 0 && |c| > 0 && a[0] == b[0] && b[0] == c[0] {
      StrCompareTransitive(a[1..], b[1..], c[1..]);
    }
  }

  predicate IsDigit(c: char) {
    '0' <= c <= '9'
  }

  predicate AllDigits(s: string) {
    forall i :: 0 <= i < |s| ==> IsDigit(s[i])
  }

  function DigitVal(c: char): nat
    requires IsDigit(c)
  {
    c as int - '0' as int
  }

  function DigitChar(d: nat): (c: char)
    requires d < 10
    ensures IsDigit(c) && DigitVal(c) == d
  {
    ('0' as int + d) as char
  }

  /** The value of a string of decimal digits. */
  function IntVal(s: string): nat
    requires AllDigits(s)
    decreases |s|
  {
    if |s| == 0 then 0 else IntVal(s[..|s| - 1]) * 10 + DigitVal(s[|s| - 1])
  }

  function Pow10(n: nat): (r: nat)
    ensures r >= 1
  {
    if n == 0 then 1 else 10 * Pow10(n - 1)
  }

  /** `n` digits stay below `10^n`. */
  lemma {:induction false} IntValBound(s: string)
    requires AllDigits(s)
    ensures IntVal(s) < Pow10(|s|)
    decreases |s|
  {
    if |s| > 0 {
      IntValBound(s[..|s| - 1]);
    }
  }

  /** The leading digit is worth `10^(n-1)`. */
  lemma {:induction false} IntValFront(s: string)
    requires |s| > 0 && AllDigits(s)
    ensures IntVal(s) == DigitVal(s[0]) * Pow10(|s| - 1) + IntVal(s[1..])
    decreases |s|
  {
    if |s| == 1 {
      assert s[..0] == [] && s[1..] == [];
    } else {
      var init := s[..|s| - 1];
      IntValFront(init);
      assert init[1..] == s[1..][..|s| - 2];
      assert s[1..][|s| - 2] == s[|s| - 1];
      var p := Pow10(|s| - 2);
      calc {
        IntVal(s);
        IntVal(init) * 10 + DigitVal(s[|s| - 1]);
        (DigitVal(s[0]) * p + IntVal(init[1..])) * 10 + DigitVal(s[|s| - 1]);
        DigitVal(s[0]) * (10 * p) + (IntVal(init[1..]) * 10 + DigitVal(s[|s| - 1]));
        DigitVal(s[0]) * Pow10(|s| - 1) + IntVal(s[1..]);
      }
    }
  }

  /** On digit strings of one length, the code-unit order is the numeric
      order: the case where it agrees with a collation, which ranks the
      digits in the same order. */
  lemma {:induction false} DigitTextOrder(a: string, b: string)
    requires |a| == |b| && AllDigits(a) && AllDigits(b)
    ensures StrCompare(a, b) < 0 <==> IntVal(a) < IntVal(b)
    ensures StrCompare(a, b) == 0 <==> IntVal(a) == IntVal(b)
    decreases |a|
  {
    if |a| > 0 {
      IntValFront(a);
      IntValFront(b);
      IntValBound(a[1..]);
      IntValBound(b[1..]);
      var p := Pow10(|a| - 1);
      if a[0] == b[0] {
        DigitTextOrder(a[1..], b[1..]);
      } else if a[0] < b[0] {
        LeadingDigitDecides(DigitVal(a[0]), DigitVal(b[0]), IntVal(a[1..]), IntVal(b[1..]), p);
      } else {
        LeadingDigitDecides(DigitVal(b[0]), DigitVal(a[0]), IntVal(b[1..]), IntVal(a[1..]), p);
      }
    }
  }

  /** A smaller leading digit makes a smaller number, whatever follows. */
  lemma LeadingDigitDecides(da: nat, db: nat, ra: nat, rb: nat, p: nat)
    requires da < db && ra < p
    ensures da * p + ra < db * p + rb
  {
    assert (da + 1) * p <= db * p by {
      MulMonotone(da + 1, db, p);
    }
  }

  lemma MulMonotone(x: nat, y: nat, p: nat)
    requires x <= y
    ensures x * p <= y * p
  {
  }

  /** A shared prefix does not change the comparison. */
  lemma {:induction false} StrComparePrefix(p: string, a: string, b: string)
    ensures StrCompare(p + a, p + b) == StrCompare(a, b)
    decreases |p|
  {
    if |p| > 0 {
      assert (p + a)[0] == p[0] == (p + b)[0];
      assert (p + a)[1..] == p[1..] + a && (p + b)[1..] == p[1..] + b;
      StrComparePrefix(p[1..], a, b);
    } else {
      assert p + a == a && p + b == b;
    }
  }

  /** The value of the digits after a decimal point. */
  function FracVal(s: string): real
    requires AllDigits(s)
    decreases |s|
  {
    if |s| == 0 then 0.0 else (DigitVal(s[0]) as real + FracVal(s[1..])) / 10.0
  }

  /** Unsigned decimal literal: digits, optionally one point and more digits,
      at least one digit in all. */
  function ParseUnsigned(t: string): Num
  {
    var dot := IndexOf(t, '.');
    var whole := if dot < 0 then t else t[..dot];
    var frac := if dot < 0 then "" else t[dot + 1..];
    if AllDigits(whole) && AllDigits(frac) && |whole| + |frac| > 0
    then Fin(IntVal(whole) as real + FracVal(frac))
    else NaN
  }

  /** `Number(s)` for a string: surrounding white space is ignored, the empty
      string is 0, and a signed decimal literal is its value. Every other
      text is NaN here (exponent, hexadecimal and "Infinity" forms are not
      modelled). */
  function ParseNumber(s: string): (r: Num)
    ensures Trim(s) == "" ==> r == Fin(0.0)
  {
    var t := Trim(s);
    if t == "" then Fin(0.0)
    else if t[0] == '-' then
      (match ParseUnsigned(t[1..])
       case NaN => NaN
       case Fin(x) => Fin(-x))
    else if t[0] == '+' then ParseUnsigned(t[1..])
    else ParseUnsigned(t)
  }

  /** Decimal rendering of a natural number (no sign, no leading zeros). */
  function FormatNat(n: nat): (r: string)
    ensures |r| >= 1 && AllDigits(r)
    decreases n
  {
    if n < 10 then [DigitChar(n)] else FormatNat(n / 10) + [DigitChar(n % 10)]
  }

  lemma {:induction false} IntValFormat(n: nat)
    ensures IntVal(FormatNat(n)) == n
    decreases n
  {
    if n >= 10 {
      var s := FormatNat(n);
      assert s[..|s| - 1] == FormatNat(n / 10);
      IntValFormat(n / 10);
    }
  }

  /** A non-empty run of decimal digits reads as its value. */
  lemma ParseDigits(s: string)
    requires |s| > 0 && AllDigits(s)
    ensures ParseNumber(s) == Fin(IntVal(s) as real)
  {
    assert IsDigit(s[0]) && IsDigit(s[|s| - 1]);
    TrimKeeps(s);
    UnsignedDigits(s);
  }

  /** Digits without a point read as a whole number. */
  lemma UnsignedDigits(t: string)
    requires |t| > 0 && AllDigits(t)
    ensures ParseUnsigned(t) == Fin(IntVal(t) as real)
  {
    NoCharInDigits(t, '.');
    assert AllDigits("") && FracVal("") == 0.0;
  }

  /** A character other than a digit does not occur in a run of digits. */
  lemma NoCharInDigits(s: string, c: char)
    requires AllDigits(s) && !IsDigit(c)
    ensures c !in s
  {
    forall i | 0 <= i < |s|
      ensures s[i] != c
    {
      assert IsDigit(s[i]);
    }
  }

  /** `Number` reads back what `FormatNat` writes. */
  lemma ParseFormat(n: nat)
    ensures ParseNumber(FormatNat(n)) == Fin(n as real)
  {
    ParseDigits(FormatNat(n));
    IntValFormat(n);
  }

  /** A scalar JSON value as the scraper and the analysis step receive it. */
  datatype JsVal = Undefined | Null | JBool(b: bool) | JNumber(n: real) | JString(s: string)

  /** `Number(x)` for a scalar JSON value. */
  function ToNumber(x: JsVal): (r: Num)
    ensures x.Undefined? ==> r == NaN
    ensures x.Null? ==> r == Fin(0.0)
    ensures x.JNumber? ==> r == Fin(x.n)
  {
    match x
    case Undefined => NaN
    case Null => Fin(0.0)
    case JBool(b) => Fin(if b then 1.0 else 0.0)
    case JNumber(n) => Fin(n)
    case JString(s) => ParseNumber(s)
  }
}
