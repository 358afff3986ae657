/** The percent-decoder as the source runs it: decode(String) looks for the first
    '%', and decode(String, int) builds the result in a StringBuilder, calling
    appendDecoded for each escape and stepping past its two digits. Each method is
    proved equal to the specification PercentDecoding.PercentDecode. */
module Decoder {
  import opened Wrappers
  import opened Errors
  import opened PercentDecoding

  /** The java.lang.StringBuilder the decoder appends to. */
  class StringBuilder {
    var chars: string

    constructor ()
      ensures chars == []
    {
      chars := [];
    }

    method Append(c: char)
      modifies this
      ensures chars == old(chars) + [c]
    {
      chars := chars + [c];
    }

    method AppendString(s: string)
      modifies this
      ensures chars == old(chars) + s
    {
      chars := chars + s;
    }
  }

  /** appendDecoded: appends the character of the escape at index, or fails, leaving
      the builder as it was, when fewer than two characters follow index or one of
      them is not a hexadecimal digit. */
  method AppendDecoded(builder: StringBuilder, str: string, index: nat) returns (ok: bool)
    modifies builder
    ensures ok <==> EscapeAt(str, index).Some?
    ensures ok ==> builder.chars == old(builder.chars) + [EscapeAt(str, index).value]
    ensures !ok ==> builder.chars == old(builder.chars)
  {
    if index + 3 > |str| {
      return false;
    }
    var first := FromHex(str[index + 1]);
    if first.None? {
      return false;
    }
    var second := FromHex(str[index + 2]);
    if second.None? {
      return false;
    }
    builder.Append(EscapedChar(first.value, second.value));
    return true;
  }

  /** One iteration of the scan in decode(String, int): an escape at i is decoded by
      appendDecoded and skipped, any other character is copied. On success the
      builder followed by the decoding of the rest from next is what the builder
      followed by the decoding from i was; on failure the decoding from i fails. */
  method ScanStep(builder: StringBuilder, str: string, i: nat) returns (ok: bool, next: nat)
    requires i < |str|
    modifies builder
    ensures ok ==> i < next <= |str|
    ensures ok ==> Prepend(builder.chars, PercentDecode(str[next..])) ==
                   Prepend(old(builder.chars), PercentDecode(str[i..]))
    ensures !ok ==> PercentDecode(str[i..]) == Failure(InvalidEscape)
  {
    DecodeStepAt(str, i, builder.chars);
    if str[i] == '%' {
      ok := AppendDecoded(builder, str, i);
      next := i + 3;
    } else {
      builder.Append(str[i]);
      ok, next := true, i + 1;
    }
  }

  /** decode(String, int): copies the text before the first escape verbatim and
      decodes the rest in one pass. */
  method DecodeFrom(str: string, firstPercent: nat) returns (r: Result<string, Error>)
    requires firstPercent < |str| && str[firstPercent] == '%'
    ensures r == Prepend(str[..firstPercent], PercentDecode(str[firstPercent..]))
  {
    var builder := new StringBuilder();
    builder.AppendString(str[..firstPercent]);
    assert builder.chars == str[..firstPercent];
    ghost var goal := Prepend(str[..firstPercent], PercentDecode(str[firstPercent..]));
    var ok, i := ScanStep(builder, str, firstPercent);
    if !ok {
      return Failure(InvalidEscape);
    }
    while i < |str|
      invariant i <= |str|
      invariant Prepend(builder.chars, PercentDecode(str[i..])) == goal
    {
      ok, i := ScanStep(builder, str, i);
      if !ok {
        return Failure(InvalidEscape);
      }
    }
    assert str[i..] == [];
    assert builder.chars + [] == builder.chars;
    return Success(builder.chars);
  }

  /** decode(String): null stays null, a string without '%' is returned as it is, and
      any other string is decoded from its first '%' on. */
  method Decode(str: Option<string>) returns (r: Result<Option<string>, Error>)
    ensures str.None? ==> r == Success(None)
    ensures str.Some? ==> r == SomeDecoded(PercentDecode(str.value))
    ensures str.Some? && '%' !in str.value ==> r == Success(str)
  {
    if str.None? {
      return Success(None);
    }
    var s := str.value;
    var i := 0;
    while i < |s|
      invariant 0 <= i <= |s|
      invariant '%' !in s[..i]
    {
      if s[i] == '%' {
        var d := DecodeFrom(s, i);
        VerbatimPrefix(s[..i], s[i..]);
        assert s[..i] + s[i..] == s;
        return SomeDecoded(d);
      }
      assert s[..i + 1] == s[..i] + [s[i]];
      i := i + 1;
    }
    assert s[..i] == s;
    NoPercentIsIdentity(s);
    return Success(Some(s));
  }
}
