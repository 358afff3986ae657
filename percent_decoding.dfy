/** The percent-decoder of COSURI as a specification: a single left-to-right pass in
    which every "%XY" becomes the one character whose value is 16 * hex(X) + hex(Y)
    (not a UTF-8 decoding) and every other character is copied verbatim. */
module PercentDecoding {
  import opened Wrappers
  import opened Errors

  const UpperHexDigits: string := "0123456789ABCDEF"
  const LowerHexDigits: string := "0123456789abcdef"

  /** fromHex: the value of a hexadecimal digit; None where the source throws
      IllegalStateException. The chain of comparisons follows the source. */
  function FromHex(c: char): (r: Option<nat>)
    ensures r.Some? <==> c in UpperHexDigits || c in LowerHexDigits
    ensures r.Some? ==> r.value < 16 && (UpperHexDigits[r.value] == c || LowerHexDigits[r.value] == c)
  {
    if c < '0' then None
    else if c <= '9' then Some(c as int - '0' as int)
    else if c < 'A' then None
    else if c <= 'F' then Some(c as int - 'A' as int + 10)
    else if c < 'a' then None
    else if c <= 'f' then Some(c as int - 'a' as int + 10)
    else None
  }

  /** Every digit of either table reads back as its own position. */
  lemma HexDigitRoundTrip(v: nat)
    requires v < 16
    ensures FromHex(UpperHexDigits[v]) == Some(v)
    ensures FromHex(LowerHexDigits[v]) == Some(v)
  {
  }

  /** The character an escape with digit values high and low stands for:
      (high << 4) | low, which is 16 * high + low since low < 16. */
  function EscapedChar(high: nat, low: nat): (c: char)
    requires high < 16 && low < 16
    ensures c as int < 256
  {
    (16 * high + low) as char
  }

  /** Prefixes p to a successful result and passes a failure through. */
  function Prepend(p: string, r: Result<string, Error>): Result<string, Error> {
    if r.Success? then Success(p + r.value) else r
  }

  /** A decoded string as a present (non-null) value; a failure passes through. */
  function SomeDecoded(r: Result<string, Error>): Result<Option<string>, Error> {
    if r.Success? then Success(Some(r.value)) else Failure(r.error)
  }

  /** The character of a well-formed escape "%XY" whose '%' is at index: present when
      two characters follow index and both are hexadecimal digits. */
  function EscapeAt(s: string, index: nat): (r: Option<char>)
    ensures r.Some? <==> index + 3 <= |s| && FromHex(s[index + 1]).Some? && FromHex(s[index + 2]).Some?
  {
    if index + 3 <= |s| then
      match (FromHex(s[index + 1]), FromHex(s[index + 2]))
      case (Some(high), Some(low)) => Some(EscapedChar(high, low))
      case _ => None
    else None
  }

  /** decode(String) for a non-null string. A failure is always InvalidEscape, and
      decoding never makes a string longer. */
  function PercentDecode(s: string): (r: Result<string, Error>)
    ensures r.Failure? ==> r.error == InvalidEscape
    ensures r.Success? ==> |r.value| <= |s|
    decreases |s|
  {
    if s == [] then Success([])
    else if s[0] != '%' then Prepend([s[0]], PercentDecode(s[1..]))
    else match EscapeAt(s, 0)
      case Some(c) => Prepend([c], PercentDecode(s[3..]))
      case None => Failure(InvalidEscape)
  }

  /** Prefixing in two steps is prefixing once with the concatenation. */
  lemma PrependTwice(a: string, b: string, r: Result<string, Error>)
    ensures Prepend(a, Prepend(b, r)) == Prepend(a + b, r)
  {
    if r.Success? {
      assert a + (b + r.value) == (a + b) + r.value;
    }
  }

  /** One step of the scan at index i of s, after b has been produced: a plain
      character moves into b, a well-formed escape moves its character into b and
      skips three positions, and a malformed escape fails. */
  lemma DecodeStepAt(s: string, i: nat, b: string)
    requires i < |s|
    ensures s[i] != '%' ==>
      Prepend(b, PercentDecode(s[i..])) == Prepend(b + [s[i]], PercentDecode(s[i + 1..]))
    ensures s[i] == '%' && EscapeAt(s, i).Some? ==>
      Prepend(b, PercentDecode(s[i..])) == Prepend(b + [EscapeAt(s, i).value], PercentDecode(s[i + 3..]))
    ensures s[i] == '%' && EscapeAt(s, i).None? ==> PercentDecode(s[i..]) == Failure(InvalidEscape)
  {
    var rest := s[i..];
    assert rest[0] == s[i] && rest[1..] == s[i + 1..];
    if i + 3 <= |s| {
      assert rest[1] == s[i + 1] && rest[2] == s[i + 2] && rest[3..] == s[i + 3..];
    }
    assert EscapeAt(rest, 0) == EscapeAt(s, i);
    if s[i] != '%' {
      PrependTwice(b, [s[i]], PercentDecode(s[i + 1..]));
    } else if EscapeAt(s, i).Some? {
      PrependTwice(b, [EscapeAt(s, i).value], PercentDecode(s[i + 3..]));
    }
  }

  /** A string without '%' decodes to itself. */
  lemma {:induction false} NoPercentIsIdentity(s: string)
    requires '%' !in s
    ensures PercentDecode(s) == Success(s)
    decreases |s|
  {
    if s != [] {
      assert s[0] != '%';
      NoPercentIsIdentity(s[1..]);
      assert [s[0]] + s[1..] == s;
    }
  }

  /** Characters before the first '%' are copied verbatim and do not affect the rest. */
  lemma {:induction false} VerbatimPrefix(p: string, t: string)
    requires '%' !in p
    ensures PercentDecode(p + t) == Prepend(p, PercentDecode(t))
    decreases |p|
  {
    if p == [] {
      var r := PercentDecode(t);
      assert p + t == t;
      assert r.Success? ==> p + r.value == r.value;
    } else {
      var u := p + t;
      assert u[0] == p[0] != '%' && u[1..] == p[1..] + t;
      VerbatimPrefix(p[1..], t);
      PrependTwice([p[0]], p[1..], PercentDecode(t));
      assert [p[0]] + p[1..] == p;
    }
  }

  /** An escape "%xy" after escape-free text p becomes one character when both digits
      are hexadecimal, and the decoding fails otherwise; the text t after it is
      decoded on its own, so a character produced by the escape is never read again. */
  lemma EscapeDecoding(p: string, x: char, y: char, t: string)
    requires '%' !in p
    ensures PercentDecode(p + ['%', x, y] + t) ==
      if FromHex(x).Some? && FromHex(y).Some?
      then Prepend(p + [EscapedChar(FromHex(x).value, FromHex(y).value)], PercentDecode(t))
      else Failure(InvalidEscape)
  {
    assert p + ['%', x, y] + t == p + (['%', x, y] + t);
    VerbatimPrefix(p, ['%', x, y] + t);
    var e := ['%', x, y] + t;
    assert e[0] == '%' && e[1] == x && e[2] == y && e[3..] == t && e[0..] == e;
    DecodeStepAt(e, 0, p);
  }

  /** A '%' with fewer than two characters after it makes the whole decoding fail. */
  lemma TruncatedEscapeFails(p: string, t: string)
    requires '%' !in p
    requires |t| < 2
    ensures PercentDecode(p + ['%'] + t) == Failure(InvalidEscape)
  {
    assert p + ['%'] + t == p + (['%'] + t);
    VerbatimPrefix(p, ['%'] + t);
  }

  /** The escape "%XY" with upper-case digits for a character below 256. */
  function EncodeChar(c: char): (e: string)
    requires c as int < 256
    ensures |e| == 3 && e[0] == '%'
  {
    ['%', UpperHexDigits[c as int / 16], UpperHexDigits[c as int % 16]]
  }

  /** Every character of s escaped; s must hold only characters below 256. */
  function PercentEncode(s: string): (r: string)
    requires forall i :: 0 <= i < |s| ==> s[i] as int < 256
    ensures |r| == 3 * |s|
  {
    if s == [] then [] else EncodeChar(s[0]) + PercentEncode(s[1..])
  }

  /** The two digits of a character below 256 combine back into it. */
  lemma EscapedCharOfDigits(c: char)
    requires c as int < 256
    ensures EscapedChar(c as int / 16, c as int % 16) == c
  {
  }

  /** Decoding undoes escaping a single character: the byte-value round trip. */
  lemma SingleEscapeRoundTrip(c: char)
    requires c as int < 256
    ensures PercentDecode(EncodeChar(c)) == Success([c])
  {
    var v := c as int;
    HexDigitRoundTrip(v / 16);
    HexDigitRoundTrip(v % 16);
    var e := EncodeChar(c);
    assert e[1..3] == [e[1], e[2]] && e[3..] == [];
    assert FromHex(e[1]) == Some(v / 16) && FromHex(e[2]) == Some(v % 16);
    EscapedCharOfDigits(c);
    assert EscapeAt(e, 0) == Some(c);
    assert PercentDecode(e) == Prepend([c], PercentDecode(e[3..]));
    assert [c] + [] == [c];
  }

  /** Decoding undoes escaping every character. */
  lemma {:induction false} PercentEncodeRoundTrip(s: string)
    requires forall i :: 0 <= i < |s| ==> s[i] as int < 256
    ensures PercentDecode(PercentEncode(s)) == Success(s)
    decreases |s|
  {
    if s != [] {
      var e := EncodeChar(s[0]);
      PercentEncodeRoundTrip(s[1..]);
      SingleEscapeRoundTrip(s[0]);
      EscapeDecoding([], e[1], e[2], PercentEncode(s[1..]));
      assert [] + ['%', e[1], e[2]] + PercentEncode(s[1..]) == PercentEncode(s);
      assert [s[0]] + s[1..] == s;
    }
  }

  /** s with every '%' written as "%25" and every other character left alone. */
  function EscapePercentSigns(s: string): (r: string)
    ensures '%' !in s ==> r == s
  {
    if s == [] then []
    else (if s[0] == '%' then "%25" else [s[0]]) + EscapePercentSigns(s[1..])
  }

  /** Decoding is a single pass: the '%' that "%25" decodes to is not read as the
      start of another escape, so escaping the percent signs of any string is undone. */
  lemma {:induction false} EscapePercentSignsRoundTrip(s: string)
    ensures PercentDecode(EscapePercentSigns(s)) == Success(s)
    decreases |s|
  {
    if s != [] {
      EscapePercentSignsRoundTrip(s[1..]);
      assert [s[0]] + s[1..] == s;
      var rest := EscapePercentSigns(s[1..]);
      if s[0] == '%' {
        HexDigitRoundTrip(2);
        HexDigitRoundTrip(5);
        EscapeDecoding([], '2', '5', rest);
        assert [] + ['%', '2', '5'] + rest == EscapePercentSigns(s);
        assert EscapedChar(2, 5) == '%';
      } else {
        VerbatimPrefix([s[0]], rest);
      }
    }
  }

  /** The malformed escapes the source rejects: a lone '%', a truncated escape, and
      non-hexadecimal digits. */
  lemma RejectedEscapes()
    ensures PercentDecode("%") == Failure(InvalidEscape)
    ensures PercentDecode("%A") == Failure(InvalidEscape)
    ensures PercentDecode("%GG") == Failure(InvalidEscape)
    ensures PercentDecode("ab%4") == Failure(InvalidEscape)
  {
    TruncatedEscapeFails("ab", "4");
    assert "ab" + ['%'] + "4" == "ab%4";
  }
}
