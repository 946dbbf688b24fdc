/** `ParseStringToStream`: escapes resolved while a literal is copied from one stream to
    another. */
module StringReader {
  import opened Common
  import opened Streams
  import opened Tokens
  import Utf8

  /** The number `n` hexadecimal digits at `p` denote, most significant first. */
  function HexRun(s: Bytes, p: nat, n: nat): Option<nat> {
    if n == 0 then Some(0)
    else
      var before, digit := HexRun(s, p, n - 1), HexValue(Peek(s, p + n - 1));
      if before.Some? && digit.Some? then Some(before.value * 16 + digit.value) else None
  }

  lemma {:induction false} HexRunStops(s: Bytes, p: nat, n: nat, m: nat)
    requires n <= m && HexRun(s, p, n).None?
    ensures HexRun(s, p, m).None?
  {
    if n < m { HexRunStops(s, p, n, m - 1); }
  }

  lemma HexRunOf4(s: Bytes, p: nat)
    ensures HexRun(s, p, 4) == Hex4(s, p)
  {
    hide HexValue;
    var r := HexRun(s, p, 0);
    assert HexRun(s, p, 1) == HexValue(Peek(s, p));
    assert HexRun(s, p, 2).Some? ==> HexRun(s, p, 1).Some?;
    assert HexRun(s, p, 3).Some? ==> HexRun(s, p, 2).Some?;
  }

  /** Four hexadecimal digits, accumulated a nibble at a time. */
  method ParseHex4(is_: StringStream) returns (codepoint: Option<nat>)
    requires is_.pos <= |is_.text|
    modifies is_
    ensures codepoint == Hex4(is_.text, old(is_.pos))
    ensures codepoint.Some? ==> is_.pos == old(is_.pos) + 4
  {
    var value, i := 0, 0;
    ghost var start := is_.pos;
    HexRunOf4(is_.text, start);
    hide Hex4, HexValue;
    while i < 4
      invariant 0 <= i <= 4 && is_.pos == start + i
      invariant HexRun(is_.text, start, i) == Some(value)
    {
      var c := is_.Peek();
      var h := HexValue(c);
      if h.None? {
        HexRunStops(is_.text, start, i + 1, 4);
        return None;
      }
      value := value * 16 + h.value;
      var _ := is_.Take();
      i := i + 1;
    }
    codepoint := Some(value);
  }

  /** The code point of a `\u` escape whose `\u` has been taken. */
  method ParseUnicodeEscape(is_: StringStream, escapeOffset: nat) returns (codepoint: Option<nat>, code: ParseErrorCode)
    requires is_.pos == escapeOffset + 2 <= |is_.text|
    modifies is_
    ensures var (cp, error, next) := UnicodeEscape(is_.text, escapeOffset);
      codepoint == cp && (cp.Some? ==> is_.pos == next) && (cp.None? ==> code == error && next == escapeOffset)
  {
    code := ValueInvalid;
    codepoint := ParseHex4(is_);
    if codepoint.None? {
      return None, StringUnicodeEscapeInvalidHex;
    }
    var high := codepoint.value;
    if 0xD800 <= high <= 0xDFFF {
      if high > 0xDBFF {
        return None, StringUnicodeSurrogateInvalid;
      }
      var backslash := is_.Consume(BACKSLASH);
      var u := false;
      if backslash { u := is_.Consume(LOWER_U); }
      if !backslash || !u {
        return None, StringUnicodeSurrogateInvalid;
      }
      var low := ParseHex4(is_);
      if low.None? {
        return None, StringUnicodeEscapeInvalidHex;
      }
      if low.value < 0xDC00 || low.value > 0xDFFF {
        return None, StringUnicodeSurrogateInvalid;
      }
      codepoint := Some((high - 0xD800) * 0x400 + (low.value - 0xDC00) + 0x10000);
    }
  }

  /** Copies the rest of a literal, past its opening quote, to `os`, with a terminator. */
  method ParseStringToStream(is_: StringStream, os: OutputStream) returns (failure: Option<(ParseErrorCode, nat)>)
    requires is_.pos <= |is_.text|
    modifies is_, os
    ensures match StringFrom(is_.text, old(is_.pos), old(os.out))
      case StringDone(value, pos) => failure == None && os.out == value + [0] && is_.pos == pos
      case StringFailed(code, offset) => failure == Some((code, offset))
  {
    failure := None;
    ghost var whole := StringFrom(is_.text, is_.pos, os.out);
    while true
      invariant is_.pos <= |is_.text| && failure == None
      invariant StringFrom(is_.text, is_.pos, os.out) == whole
      decreases |is_.text| - is_.pos
    {
      var c := is_.Peek();
      if c == BACKSLASH {
        var escapeOffset := is_.pos;
        var _ := is_.Take();
        var e := is_.Peek();
        if EscapeOf(e).Some? {
          var _ := is_.Take();
          os.Put(EscapeOf(e).value);
        } else if e == LOWER_U {
          var _ := is_.Take();
          var codepoint, code := ParseUnicodeEscape(is_, escapeOffset);
          if codepoint.None? {
            return Some((code, escapeOffset));
          }
          Utf8.Encode(os, codepoint.value);
        } else {
          return Some((StringEscapeInvalid, escapeOffset));
        }
      } else if c == QUOTE {
        var _ := is_.Take();
        os.Put(0);
        return;
      } else if c < 0x20 {
        return Some((if c == 0 then StringMissQuotationMark else StringInvalidEncoding, is_.pos));
      } else {
        var _ := is_.Take();
        os.Put(c);
      }
    }
  }
}
