// Option values and the string primitives of JavaScript and Go that the
// registry server and its browser views rely on.  Strings are sequences
// of characters (JavaScript code units, Go runes).
module Wrappers {

  datatype Option<T> = None | Some(value: T)
}

module Text {

  import opened Wrappers

  type String = seq<char>

  // ---------------------------------------------------------------------
  // Character classes

  predicate IsDigit(c: char) { '0' <= c <= '9' }

  /** White space skipped by JavaScript's parseInt (WhiteSpace and LineTerminator). */
  predicate IsJsSpace(c: char)
  {
    c == '\t' || c == '\n' || c == '\U{000B}' || c == '\U{000C}' || c == '\r' || c == ' '
    || c == '\U{00A0}' || c == '\U{1680}' || ('\U{2000}' <= c <= '\U{200A}')
    || c == '\U{2028}' || c == '\U{2029}' || c == '\U{202F}' || c == '\U{205F}'
    || c == '\U{3000}' || c == '\U{FEFF}'
  }

  /** Go's unicode.IsSpace, used by strings.Fields and strings.TrimSpace. */
  predicate IsGoSpace(c: char)
  {
    c == '\t' || c == '\n' || c == '\U{000B}' || c == '\U{000C}' || c == '\r' || c == ' '
    || c == '\U{0085}' || c == '\U{00A0}' || c == '\U{1680}' || ('\U{2000}' <= c <= '\U{200A}')
    || c == '\U{2028}' || c == '\U{2029}' || c == '\U{202F}' || c == '\U{205F}' || c == '\U{3000}'
  }

  /** Value of c as a digit in the given radix, if it is one. */
  function DigitValue(c: char, radix: nat): (r: Option<nat>)
    requires radix == 10 || radix == 16
    ensures r.Some? ==> r.value < radix
    ensures r.Some? <==> (IsDigit(c) || (radix == 16 && ('a' <= c <= 'f' || 'A' <= c <= 'F')))
  {
    if IsDigit(c) then Some(c as nat - '0' as nat)
    else if radix == 16 && 'a' <= c <= 'f' then Some(c as nat - 'a' as nat + 10)
    else if radix == 16 && 'A' <= c <= 'F' then Some(c as nat - 'A' as nat + 10)
    else None
  }

  // ---------------------------------------------------------------------
  // Searching

  /** First index of c in s, or -1 (JavaScript indexOf, Go IndexByte / IndexRune). */
  function IndexOf<T(==)>(s: seq<T>, c: T): (r: int)
    ensures -1 <= r < |s|
    ensures r == -1 <==> c !in s
    ensures r >= 0 ==> s[r] == c && c !in s[..r]
  {
    if |s| == 0 then -1
    else if s[0] == c then 0
    else
      var k := IndexOf(s[1..], c);
      if k == -1 then -1
      else
        assert s[..k + 1] == [s[0]] + s[1..][..k];
        k + 1
  }

  predicate HasPrefix(s: String, p: String)
  {
    |p| <= |s| && s[..|p|] == p
  }

  /** Go strings.TrimPrefix. */
  function TrimPrefix(s: String, p: String): (r: String)
    ensures HasPrefix(s, p) ==> p + r == s
    ensures !HasPrefix(s, p) ==> r == s
  {
    if HasPrefix(s, p) then s[|p|..] else s
  }

  /** t occurs in s as a contiguous substring (JavaScript includes, Go strings.Contains). */
  predicate Contains(s: String, t: String)
    decreases |s|
  {
    HasPrefix(s, t) || (|s| > 0 && Contains(s[1..], t))
  }

  /** ASCII lower-casing (JavaScript toLowerCase / Go strings.ToLower on ASCII text). */
  function Lower(s: String): (r: String)
    ensures |r| == |s|
    ensures forall i :: 0 <= i < |s| ==> r[i] == (if 'A' <= s[i] <= 'Z' then (s[i] as int + 32) as char else s[i])
  {
    if |s| == 0 then []
    else [if 'A' <= s[0] <= 'Z' then (s[0] as int + 32) as char else s[0]] + Lower(s[1..])
  }

  // ---------------------------------------------------------------------
  // Splitting and joining

  /** s with its first c replaced by d (JavaScript replace with a one-character pattern). */
  function ReplaceFirst(s: String, c: char, d: char): (r: String)
    ensures |r| == |s|
    ensures c !in s ==> r == s
    ensures c in s ==> d in r
  {
    var k := IndexOf(s, c);
    if k == -1 then s else s[..k] + [d] + s[k + 1..]
  }

  function Join(parts: seq<String>, sep: char): (r: String)
    requires |parts| > 0
  {
    if |parts| == 1 then parts[0] else Join(parts[..|parts| - 1], sep) + [sep] + parts[|parts| - 1]
  }

  /** A character that is neither the separator nor in any part is not in the joined text. */
  lemma {:induction false} JoinAvoids(parts: seq<String>, sep: char, c: char)
    requires |parts| > 0 && c != sep
    requires forall i :: 0 <= i < |parts| ==> c !in parts[i]
    ensures c !in Join(parts, sep)
    decreases |parts|
  {
    if |parts| > 1 {
      JoinAvoids(parts[..|parts| - 1], sep, c);
    }
  }

  /** JavaScript split / Go strings.Split with a one-character separator. */
  function Split(s: String, sep: char): (r: seq<String>)
    ensures |r| >= 1
    ensures forall i :: 0 <= i < |r| ==> sep !in r[i]
    ensures Join(r, sep) == s
    decreases |s|
  {
    var k := IndexOf(s, sep);
    if k == -1 then [s]
    else
      var rest := Split(s[k + 1..], sep);
      SplitStep(s, sep, k, rest);
      [s[..k]] + rest
  }

  /** The first part of a split runs up to the first separator; the rest splits the remainder. */
  lemma SplitStep(s: String, sep: char, k: nat, rest: seq<String>)
    requires k < |s| && s[k] == sep && sep !in s[..k]
    requires |rest| >= 1 && (forall i :: 0 <= i < |rest| ==> sep !in rest[i]) && Join(rest, sep) == s[k + 1..]
    ensures forall i :: 0 <= i < |[s[..k]] + rest| ==> sep !in ([s[..k]] + rest)[i]
    ensures Join([s[..k]] + rest, sep) == s
  {
    JoinCons(s[..k], rest, sep);
    assert s == s[..k] + [sep] + s[k + 1..];
    forall i | 0 <= i < |[s[..k]] + rest|
      ensures sep !in ([s[..k]] + rest)[i]
    {
      if i > 0 {
        assert ([s[..k]] + rest)[i] == rest[i - 1];
      }
    }
  }

  lemma {:induction false} JoinCons(p: String, rest: seq<String>, sep: char)
    requires |rest| > 0
    ensures Join([p] + rest, sep) == p + [sep] + Join(rest, sep)
    decreases |rest|
  {
    if |rest| > 1 {
      JoinCons(p, rest[..|rest| - 1], sep);
      assert ([p] + rest)[..|rest|] == [p] + rest[..|rest| - 1];
    }
  }

  /** Splitting undoes joining when no part holds the separator. */
  lemma {:induction false} SplitJoin(parts: seq<String>, sep: char)
    requires |parts| > 0
    requires forall i :: 0 <= i < |parts| ==> sep !in parts[i]
    ensures Split(Join(parts, sep), sep) == parts
    decreases |parts|
  {
    if |parts| == 1 {
      assert IndexOf(parts[0], sep) == -1;
    } else {
      var rest := parts[1..];
      JoinCons(parts[0], rest, sep);
      assert parts == [parts[0]] + rest;
      var s := Join(parts, sep);
      assert s == parts[0] + [sep] + Join(rest, sep);
      IndexOfAfter(parts[0], Join(rest, sep), sep);
      assert s[|parts[0]| + 1..] == Join(rest, sep);
      assert s[..|parts[0]|] == parts[0];
      SplitJoin(rest, sep);
    }
  }

  lemma IndexOfAfter(p: String, q: String, sep: char)
    requires sep !in p
    ensures IndexOf(p + [sep] + q, sep) == |p|
  {
    var s := p + [sep] + q;
    assert s[..|p|] == p;
    assert s[|p|] == sep;
  }

  /** Go strings.TrimSpace: the text between the leading and the trailing white space. */
  function TrimSpace(s: String): (r: String)
    ensures |r| == 0 || (!IsGoSpace(r[0]) && !IsGoSpace(r[|r| - 1]))
    ensures exists i, j :: 0 <= i <= j <= |s| && r == s[i..j]
  {
    var t := DropSpaces(s);
    var r := DropTrailing(t);
    var i := |s| - |t|;
    DropSpacesSuffix(s);
    assert t == s[i..];
    assert r == t[..|r|];
    assert r == s[i..i + |r|];
    r
  }

  /** s without its trailing white space. */
  function DropTrailing(s: String): (r: String)
    ensures |r| <= |s| && r == s[..|r|]
    ensures |r| == 0 || !IsGoSpace(r[|r| - 1])
    ensures forall i :: |r| <= i < |s| ==> IsGoSpace(s[i])
  {
    if |s| > 0 && IsGoSpace(s[|s| - 1]) then DropTrailing(s[..|s| - 1]) else s
  }

  function DropSpaces(s: String): (r: String)
    ensures |r| <= |s|
    ensures |r| == 0 || !IsGoSpace(r[0])
    ensures forall i :: 0 <= i < |s| - |r| ==> IsGoSpace(s[i])
  {
    if |s| > 0 && IsGoSpace(s[0]) then DropSpaces(s[1..]) else s
  }

  /** What DropSpaces leaves is a suffix of its input. */
  lemma {:induction false} DropSpacesSuffix(s: String)
    ensures DropSpaces(s) == s[|s| - |DropSpaces(s)|..]
    decreases |s|
  {
    if |s| > 0 && IsGoSpace(s[0]) {
      DropSpacesSuffix(s[1..]);
      assert s[1..][|s| - 1 - |DropSpaces(s)|..] == s[|s| - |DropSpaces(s)|..];
    }
  }

  function Word(s: String): (r: String)
    ensures |r| <= |s|
    ensures NoSpace(r)
  {
    if |s| == 0 || IsGoSpace(s[0]) then [] else [s[0]] + Word(s[1..])
  }

  /** The word is the longest prefix without white space. */
  lemma {:induction false} WordPrefix(s: String)
    ensures Word(s) == s[..|Word(s)|]
    ensures |Word(s)| == |s| || IsGoSpace(s[|Word(s)|])
    decreases |s|
  {
    if |s| > 0 && !IsGoSpace(s[0]) {
      WordPrefix(s[1..]);
    }
  }

  predicate NoSpace(w: String)
  {
    forall k :: 0 <= k < |w| ==> !IsGoSpace(w[k])
  }

  predicate Words(ws: seq<String>)
  {
    forall i :: 0 <= i < |ws| ==> |ws[i]| > 0 && NoSpace(ws[i])
  }

  lemma WordsCons(w: String, ws: seq<String>)
    requires |w| > 0 && NoSpace(w) && Words(ws)
    ensures Words([w] + ws)
  {
    forall i | 0 <= i < |[w] + ws|
      ensures |([w] + ws)[i]| > 0 && NoSpace(([w] + ws)[i])
    {
      if i > 0 {
        assert ([w] + ws)[i] == ws[i - 1];
      }
    }
  }

  /** Go strings.Fields: the maximal runs of non-space characters. */
  function Fields(s: String): (r: seq<String>)
    ensures Words(r)
    decreases |s|
  {
    var t := DropSpaces(s);
    if |t| == 0 then []
    else
      var w := Word(t);
      assert |w| > 0;
      var rest := Fields(t[|w|..]);
      WordsCons(w, rest);
      [w] + rest
  }

  // ---------------------------------------------------------------------
  // Numbers

  /** Value of a digit string, most significant digit first. */
  function DigitsValue(ds: String, radix: nat): nat
    requires radix == 10 || radix == 16
    requires forall i :: 0 <= i < |ds| ==> DigitValue(ds[i], radix).Some?
  {
    if |ds| == 0 then 0
    else DigitsValue(ds[..|ds| - 1], radix) * radix + DigitValue(ds[|ds| - 1], radix).value
  }

  /** The longest prefix of s made of digits of the radix. */
  function LeadingDigits(s: String, radix: nat): (r: String)
    requires radix == 10 || radix == 16
    ensures |r| <= |s| && r == s[..|r|]
    ensures forall i :: 0 <= i < |r| ==> DigitValue(r[i], radix).Some?
    ensures |r| == |s| || DigitValue(s[|r|], radix).None?
  {
    if |s| == 0 || DigitValue(s[0], radix).None? then []
    else [s[0]] + LeadingDigits(s[1..], radix)
  }

  /** s without its leading JavaScript white space. */
  function TrimJsSpace(s: String): (r: String)
    ensures |r| == 0 || !IsJsSpace(r[0])
  {
    if |s| > 0 && IsJsSpace(s[0]) then TrimJsSpace(s[1..]) else s
  }

  /**
   * JavaScript parseInt with no radix: leading white space, an optional
   * sign, an optional 0x / 0X prefix selecting hexadecimal, then the
   * longest run of digits.  None stands for NaN (no digits).
   */
  function ParseInt(s: String): Option<int>
  {
    var t := TrimJsSpace(s);
    var neg := |t| > 0 && t[0] == '-';
    var u := if |t| > 0 && (t[0] == '-' || t[0] == '+') then t[1..] else t;
    var hex := |u| >= 2 && u[0] == '0' && (u[1] == 'x' || u[1] == 'X');
    match if hex then LeadingValue(u[2..], 16) else LeadingValue(u, 10)
    case None => None
    case Some(d) => Some(if neg then -(d as int) else d as int)
  }

  /** The value of the longest run of digits at the head of v, None when there is none. */
  function LeadingValue(v: String, radix: nat): Option<nat>
    requires radix == 10 || radix == 16
  {
    var ds := LeadingDigits(v, radix);
    if |ds| == 0 then None else Some(DigitsValue(ds, radix))
  }

  /** Go strconv.Atoi: optional sign and decimal digits, within the 64-bit range. */
  function Atoi(s: String): (r: Option<int>)
    ensures r.Some? ==> -0x8000_0000_0000_0000 <= r.value < 0x8000_0000_0000_0000
    ensures r.Some? ==> |s| > 0
  {
    var neg := |s| > 0 && s[0] == '-';
    var u := if |s| > 0 && (s[0] == '-' || s[0] == '+') then s[1..] else s;
    var ds := LeadingDigits(u, 10);
    if |u| == 0 || |ds| != |u| then None
    else
      var v: int := if neg then -(DigitsValue(ds, 10) as int) else DigitsValue(ds, 10) as int;
      if -0x8000_0000_0000_0000 <= v < 0x8000_0000_0000_0000 then Some(v) else None
  }

  /** Go strconv.ParseUint(s, 10, 8): decimal digits only, at most 255. */
  function ParseUint8(s: String): (r: Option<nat>)
    ensures r.Some? ==> r.value < 256
    ensures r.Some? ==> |s| > 0 && forall i :: 0 <= i < |s| ==> IsDigit(s[i])
  {
    var ds := LeadingDigits(s, 10);
    if |s| == 0 || |ds| != |s| then None
    else if DigitsValue(s, 10) < 256 then Some(DigitsValue(s, 10))
    else None
  }

  function DigitChar(d: nat, radix: nat): (c: char)
    requires (radix == 10 || radix == 16) && d < radix
    ensures DigitValue(c, radix) == Some(d)
    ensures !IsJsSpace(c) && !IsGoSpace(c) && c != '-' && c != '+'
  {
    if d < 10 then ('0' as int + d) as char else ('a' as int + d - 10) as char
  }

  /** Number.prototype.toString(radix) / Go %d for a non-negative integer. */
  function ToDigits(n: nat, radix: nat): (r: String)
    requires radix == 10 || radix == 16
    ensures |r| > 0
  {
    if n < radix then [DigitChar(n, radix)]
    else ToDigits(n / radix, radix) + [DigitChar(n % radix, radix)]
  }

  /** The digits written are digits of the radix, read back as n, without a leading zero. */
  lemma {:induction false} ToDigitsSpec(n: nat, radix: nat)
    requires radix == 10 || radix == 16
    ensures forall i :: 0 <= i < |ToDigits(n, radix)| ==> DigitValue(ToDigits(n, radix)[i], radix).Some?
    ensures DigitsValue(ToDigits(n, radix), radix) == n
    ensures ToDigits(n, radix)[0] == '0' ==> n == 0 && |ToDigits(n, radix)| == 1
    decreases n
  {
    if n >= radix {
      var r := ToDigits(n, radix);
      ToDigitsSpec(n / radix, radix);
      assert r[..|r| - 1] == ToDigits(n / radix, radix);
    }
  }

  function Decimal(n: nat): (r: String)
    ensures |r| > 0
  {
    ToDigits(n, 10)
  }

  /** The decimal form is made of digits only. */
  lemma DecimalDigits(n: nat)
    ensures forall i :: 0 <= i < |Decimal(n)| ==> IsDigit(Decimal(n)[i])
  {
    ToDigitsSpec(n, 10);
  }

  /** parseInt reads back what toString(10) wrote. */
  lemma ParseIntDecimal(n: nat)
    ensures ParseInt(Decimal(n)) == Some(n)
  {
    ToDigitsSpec(n, 10);
    ParseIntDigits(Decimal(n));
  }

  /** parseInt of a run of decimal digits is their value. */
  lemma ParseIntDigits(s: String)
    requires |s| > 0 && forall i :: 0 <= i < |s| ==> DigitValue(s[i], 10).Some?
    ensures ParseInt(s) == Some(DigitsValue(s, 10) as int)
  {
    var c0 := s[0];
    assert DigitValue(c0, 10).Some?;
    assert TrimJsSpace(s) == s;
    assert !(|s| >= 2 && c0 == '0' && (s[1] == 'x' || s[1] == 'X')) by {
      if |s| >= 2 {
        assert DigitValue(s[1], 10).Some?;
      }
    }
    LeadingValueAll(s);
  }

  lemma LeadingValueAll(s: String)
    requires |s| > 0 && forall i :: 0 <= i < |s| ==> DigitValue(s[i], 10).Some?
    ensures LeadingValue(s, 10) == Some(DigitsValue(s, 10))
  {
    LeadingDigitsAll(s, 10);
  }

  lemma {:induction false} LeadingDigitsAll(s: String, radix: nat)
    requires radix == 10 || radix == 16
    requires forall i :: 0 <= i < |s| ==> DigitValue(s[i], radix).Some?
    ensures LeadingDigits(s, radix) == s
  {
    if |s| > 0 {
      LeadingDigitsAll(s[1..], radix);
    }
  }

  /** parseInt reads back, behind a 0x prefix, what toString(16) wrote. */
  lemma ParseIntHex(n: nat)
    ensures ParseInt("0x" + ToDigits(n, 16)) == Some(n)
  {
    var h := ToDigits(n, 16);
    ToDigitsSpec(n, 16);
    var s := "0x" + h;
    assert TrimJsSpace(s) == s;
    assert s[2..] == h;
    LeadingDigitsAll(h, 16);
  }

  /** ParseUint8 reads back the decimal form of a byte. */
  lemma ParseUint8Decimal(n: nat)
    requires n < 256
    ensures ParseUint8(Decimal(n)) == Some(n)
  {
    ToDigitsSpec(n, 10);
    LeadingDigitsAll(Decimal(n), 10);
  }
}
