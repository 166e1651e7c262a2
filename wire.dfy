/**
 * Byte-level building blocks shared by the header parser, the request parser
 * and the response writer: the Go library routines they call (bytes.Index,
 * bytes.SplitN, strings.Split, bytes.TrimSpace, bytes.ToLower, strconv.Atoi,
 * the %d and %x verbs of fmt), restricted to what the wire format needs.
 */
module Wire {

  /** One octet of the wire. A Go string is a sequence of such bytes. */
  type Byte = c: char | c as int < 256 witness '\0'
  type Bytes = seq<Byte>

  const CR: Byte := '\r'
  const LF: Byte := '\n'
  const CRLF: Bytes := "\r\n"

  datatype Option<+T> = None | Some(value: T)

  datatype Result<+T, +E> = Success(value: T) | Failure(error: E)

  /** The pieces of a stream, glued back together in order. */
  function Concat(pieces: seq<Bytes>): (s: Bytes)
    ensures |pieces| == 1 ==> s == pieces[0]
  {
    if pieces == [] then [] else pieces[0] + Concat(pieces[1..])
  }

  lemma {:induction false} ConcatSnoc(pieces: seq<Bytes>, x: Bytes)
    ensures Concat(pieces + [x]) == Concat(pieces) + x
  {
    if pieces == [] {
      assert pieces + [x] == [x];
    } else {
      assert (pieces + [x])[1..] == pieces[1..] + [x];
      ConcatSnoc(pieces[1..], x);
    }
  }

  // ---------------------------------------------------------------------
  // bytes.Index(data, "\r\n") and bytes.IndexByte

  predicate IsCrlfAt(data: Bytes, i: int) {
    0 <= i && i + 1 < |data| && data[i] == CR && data[i + 1] == LF
  }

  /** The position of the first CRLF in `data`, if there is one. */
  function FindCrlf(data: Bytes): (r: Option<nat>)
    ensures r.Some? ==> IsCrlfAt(data, r.value)
    ensures r.Some? ==> forall j :: 0 <= j < r.value ==> !IsCrlfAt(data, j)
    ensures r.None? ==> forall j :: 0 <= j < |data| ==> !IsCrlfAt(data, j)
  {
    if |data| < 2 then None
    else if data[0] == CR && data[1] == LF then Some(0)
    else
      match FindCrlf(data[1..])
      case None =>
        assert forall j :: 1 <= j < |data| ==> IsCrlfAt(data, j) == IsCrlfAt(data[1..], j - 1);
        None
      case Some(i) =>
        assert forall j :: 1 <= j < |data| ==> IsCrlfAt(data, j) == IsCrlfAt(data[1..], j - 1);
        Some(i + 1)
  }

  /** Bytes without a CR hold no CRLF. */
  lemma CrlfNeedsCr(data: Bytes)
    requires forall i :: 0 <= i < |data| ==> data[i] != CR
    ensures FindCrlf(data).None?
  {
  }

  /** A CRLF found in a prefix is still the first one once more bytes arrive. */
  lemma FindCrlfExtend(a: Bytes, b: Bytes)
    requires FindCrlf(a).Some?
    ensures FindCrlf(a + b) == FindCrlf(a)
  {
    var i := FindCrlf(a).value;
    var r := FindCrlf(a + b);
    assert IsCrlfAt(a + b, i);
    assert forall j :: 0 <= j < i ==> IsCrlfAt(a + b, j) == IsCrlfAt(a, j);
  }

  /** The position of the first occurrence of `c` in `s`, if any. */
  function IndexOf(s: Bytes, c: Byte): (r: Option<nat>)
    ensures r.Some? ==> r.value < |s| && s[r.value] == c && c !in s[..r.value]
    ensures r.None? ==> c !in s
  {
    if s == [] then None
    else if s[0] == c then Some(0)
    else
      match IndexOf(s[1..], c)
      case None => None
      case Some(i) =>
        assert s[..i + 1] == [s[0]] + s[1..][..i];
        Some(i + 1)
  }

  // ---------------------------------------------------------------------
  // strings.Split

  /** The inverse of Split: the parts, with one separator between neighbours. */
  function Join(parts: seq<Bytes>, sep: Byte): Bytes
    requires |parts| >= 1
  {
    if |parts| == 1 then parts[0] else parts[0] + [sep] + Join(parts[1..], sep)
  }

  /** strings.Split(s, sep): the maximal separator-free runs of `s`, in order. */
  function Split(s: Bytes, sep: Byte): (parts: seq<Bytes>)
    ensures |parts| >= 1
    ensures Join(parts, sep) == s
    ensures forall i :: 0 <= i < |parts| ==> sep !in parts[i]
    decreases |s|
  {
    match IndexOf(s, sep)
    case None => [s]
    case Some(i) =>
      var rest := Split(s[i + 1..], sep);
      assert ([s[..i]] + rest)[1..] == rest;
      [s[..i]] + rest
  }

  /** Split undoes Join when no part holds the separator, so the two
      postconditions of Split determine its result. */
  lemma {:induction false} SplitJoin(parts: seq<Bytes>, sep: Byte)
    requires |parts| >= 1
    requires forall i :: 0 <= i < |parts| ==> sep !in parts[i]
    ensures Split(Join(parts, sep), sep) == parts
  {
    var s := Join(parts, sep);
    if |parts| == 1 {
      assert IndexOf(s, sep) == None;
    } else {
      var p := parts[0];
      assert sep !in p;
      assert s == p + [sep] + Join(parts[1..], sep);
      assert s[|p|] == sep && s[..|p|] == p;
      assert IndexOf(s, sep) == Some(|p|);
      assert s[|p| + 1..] == Join(parts[1..], sep);
      SplitJoin(parts[1..], sep);
      assert parts == [p] + parts[1..];
    }
  }

  // ---------------------------------------------------------------------
  // bytes.TrimSpace and bytes.ToLower, on ASCII

  /** ASCII white space as bytes.TrimSpace understands it. */
  predicate IsSpace(c: Byte) {
    c == ' ' || c == '\t' || c == '\n' || c == '\r' || c == '\U{000B}' || c == '\U{000C}'
  }

  /** The first index at or after `i` that does not hold white space. */
  function SkipSpace(s: Bytes, i: nat): (k: nat)
    requires i <= |s|
    ensures i <= k <= |s|
    decreases |s| - i
  {
    if i < |s| && IsSpace(s[i]) then SkipSpace(s, i + 1) else i
  }

  /** The last index at or before `j` that does not follow white space. */
  function SkipSpaceBack(s: Bytes, j: nat): (k: nat)
    requires j <= |s|
    ensures k <= j
  {
    if j > 0 && IsSpace(s[j - 1]) then SkipSpaceBack(s, j - 1) else j
  }

  /** bytes.TrimSpace: `s` without its leading and trailing white space. */
  function TrimSpace(s: Bytes): (r: Bytes)
    ensures |r| <= |s|
  {
    var i := SkipSpace(s, 0);
    var j := SkipSpaceBack(s, |s|);
    if i < j then s[i..j] else []
  }

  lemma {:induction false} SkipSpaceSpec(s: Bytes, i: nat)
    requires i <= |s|
    ensures forall m :: i <= m < SkipSpace(s, i) ==> IsSpace(s[m])
    ensures SkipSpace(s, i) < |s| ==> !IsSpace(s[SkipSpace(s, i)])
    decreases |s| - i
  {
    if i < |s| && IsSpace(s[i]) {
      SkipSpaceSpec(s, i + 1);
    }
  }

  lemma {:induction false} SkipSpaceBackSpec(s: Bytes, j: nat)
    requires j <= |s|
    ensures forall m :: SkipSpaceBack(s, j) <= m < j ==> IsSpace(s[m])
    ensures SkipSpaceBack(s, j) > 0 ==> !IsSpace(s[SkipSpaceBack(s, j) - 1])
  {
    if j > 0 && IsSpace(s[j - 1]) {
      SkipSpaceBackSpec(s, j - 1);
    }
  }

  /** What TrimSpace removes is white space at the ends and nothing else:
      the result is a slice s[i..j] with only white space outside it, and it
      neither starts nor ends with white space. */
  lemma TrimSpaceSlice(s: Bytes) returns (i: nat, j: nat)
    ensures i <= j <= |s| && TrimSpace(s) == s[i..j]
    ensures forall k :: 0 <= k < i ==> IsSpace(s[k])
    ensures forall k :: j <= k < |s| ==> IsSpace(s[k])
    ensures i < j ==> !IsSpace(s[i]) && !IsSpace(s[j - 1])
  {
    SkipSpaceSpec(s, 0);
    SkipSpaceBackSpec(s, |s|);
    i := SkipSpace(s, 0);
    j := SkipSpaceBack(s, |s|);
    if j <= i {
      i, j := |s|, |s|;
    }
  }

  /** Text that already has no white space at either end is left alone. */
  lemma TrimSpaceTrimmed(s: Bytes)
    requires s == [] || (!IsSpace(s[0]) && !IsSpace(s[|s| - 1]))
    ensures TrimSpace(s) == s
  {
  }

  /** One leading space is trimmed off a trimmed value. */
  lemma TrimSpaceOfSpaced(value: Bytes)
    requires value == [] || (!IsSpace(value[0]) && !IsSpace(value[|value| - 1]))
    ensures TrimSpace([' '] + value) == value
  {
    var s := [' '] + value;
    var i, j := TrimSpaceSlice(s);
    if value != [] {
      assert s[1] == value[0] && s[|s| - 1] == value[|value| - 1];
      assert i <= 1;
      assert j == |s|;
      assert i == 1;
      assert s[1..] == value;
    }
  }

  function LowerByte(c: Byte): Byte {
    if 'A' <= c <= 'Z' then (c as int + 32) as char else c
  }

  /** bytes.ToLower on ASCII text. */
  function ToLower(s: Bytes): (r: Bytes)
    ensures |r| == |s|
    ensures forall i :: 0 <= i < |s| ==> r[i] == LowerByte(s[i])
  {
    if s == [] then [] else [LowerByte(s[0])] + ToLower(s[1..])
  }

  /** ToLower byte by byte. */
  lemma LowerCaseOf(s: Bytes, t: Bytes)
    requires |s| == |t| && forall i :: 0 <= i < |s| ==> LowerByte(s[i]) == t[i]
    ensures ToLower(s) == t
  {
  }

  // ---------------------------------------------------------------------
  // strconv.Atoi and fmt's %d

  predicate IsDigit(c: Byte) {
    '0' <= c <= '9'
  }

  predicate IsDigits(s: Bytes) {
    |s| > 0 && forall i :: 0 <= i < |s| ==> IsDigit(s[i])
  }

  function DigitValue(c: Byte): nat
    requires IsDigit(c)
  {
    c as int - '0' as int
  }

  /** The number a run of decimal digits denotes, most significant first. */
  function DigitsValue(s: Bytes): nat
    requires forall i :: 0 <= i < |s| ==> IsDigit(s[i])
  {
    if s == [] then 0 else DigitsValue(s[..|s| - 1]) * 10 + DigitValue(s[|s| - 1])
  }

  /** strconv.Atoi without the overflow check: an optional sign and at least
      one decimal digit. */
  function Atoi(s: Bytes): (r: Option<int>)
    ensures r.Some? ==> |s| > 0
    ensures (|s| > 0 && IsDigit(s[0])) ==> (r.Some? <==> IsDigits(s))
  {
    if |s| > 0 && (s[0] == '+' || s[0] == '-') then
      var digits := s[1..];
      if IsDigits(digits) then
        var v: int := DigitsValue(digits);
        Some(if s[0] == '-' then -v else v)
      else None
    else if IsDigits(s) then Some(DigitsValue(s))
    else None
  }

  function DigitChar(d: nat): (c: Byte)
    requires d < 10
    ensures IsDigit(c) && DigitValue(c) == d
  {
    ('0' as int + d) as char
  }

  /** %d of a natural number. */
  function NatToDecimal(n: nat): (s: Bytes)
    ensures IsDigits(s)
  {
    if n < 10 then [DigitChar(n)] else NatToDecimal(n / 10) + [DigitChar(n % 10)]
  }

  /** %d of an integer: a minus sign for negative numbers, no leading zeros. */
  function Decimal(n: int): Bytes {
    if n < 0 then "-" + NatToDecimal(-n) else NatToDecimal(n)
  }

  lemma {:induction false} NatToDecimalValue(n: nat)
    ensures DigitsValue(NatToDecimal(n)) == n
    ensures n == 0 || NatToDecimal(n)[0] != '0'
    ensures |NatToDecimal(n)| == 1 <==> n < 10
  {
    if n >= 10 {
      var s := NatToDecimal(n);
      NatToDecimalValue(n / 10);
      assert s[..|s| - 1] == NatToDecimal(n / 10);
    }
  }

  /** Atoi reads back what %d writes. */
  lemma DecimalRoundTrip(n: int)
    ensures Atoi(Decimal(n)) == Some(n)
  {
    if n < 0 {
      NatToDecimalValue(-n);
      assert Decimal(n)[1..] == NatToDecimal(-n);
    } else {
      NatToDecimalValue(n);
    }
  }

  /** A three-digit status code prints as exactly three digits. */
  lemma {:induction false} DecimalThreeDigits(n: int)
    requires 100 <= n <= 999
    ensures |Decimal(n)| == 3 && IsDigits(Decimal(n))
  {
    NatToDecimalValue(n / 10);
    NatToDecimalValue(n / 100);
  }

  // ---------------------------------------------------------------------
  // fmt's %x, and the HEXDIG reading of section 7.1 of RFC 9112

  function HexChar(d: nat): (c: Byte)
    requires d < 16
    ensures IsHexDigit(c) && HexValue(c) == d
  {
    if d < 10 then DigitChar(d) else ('a' as int + d - 10) as char
  }

  predicate IsHexDigit(c: Byte) {
    IsDigit(c) || 'a' <= c <= 'f' || 'A' <= c <= 'F'
  }

  function HexValue(c: Byte): nat
    requires IsHexDigit(c)
  {
    if IsDigit(c) then DigitValue(c)
    else if 'a' <= c <= 'f' then c as int - 'a' as int + 10
    else c as int - 'A' as int + 10
  }

  /** %x of a natural number: lower-case digits, no leading zeros. */
  function LowerHex(n: nat): (s: Bytes)
    ensures |s| > 0
    ensures forall i :: 0 <= i < |s| ==> IsDigit(s[i]) || 'a' <= s[i] <= 'f'
  {
    if n < 16 then [HexChar(n)] else LowerHex(n / 16) + [HexChar(n % 16)]
  }

  /** A chunk-size field read as a hexadecimal number (section 7.1 of RFC 9112). */
  function ParseHex(s: Bytes): Option<nat> {
    if s == [] || exists i :: 0 <= i < |s| && !IsHexDigit(s[i]) then None
    else Some(HexDigitsValue(s))
  }

  function HexDigitsValue(s: Bytes): nat
    requires forall i :: 0 <= i < |s| ==> IsHexDigit(s[i])
  {
    if s == [] then 0 else HexDigitsValue(s[..|s| - 1]) * 16 + HexValue(s[|s| - 1])
  }

  /** %x is read back exactly, and never starts with a superfluous zero. */
  lemma {:induction false} LowerHexRoundTrip(n: nat)
    ensures ParseHex(LowerHex(n)) == Some(n)
    ensures n == 0 || LowerHex(n)[0] != '0'
  {
    var s := LowerHex(n);
    assert forall i :: 0 <= i < |s| ==> IsHexDigit(s[i]);
    if n >= 16 {
      LowerHexRoundTrip(n / 16);
      assert s[..|s| - 1] == LowerHex(n / 16);
      assert HexDigitsValue(s) == (n / 16) * 16 + n % 16;
    }
    assert !exists i :: 0 <= i < |s| && !IsHexDigit(s[i]);
    assert ParseHex(s) == Some(HexDigitsValue(s));
  }
}
