/** The encoders of util.c: hex encoding of random bytes (`generate_token_hex`),
    and the HTML and JSON escapers that write into a bounded buffer and stop
    before an escape sequence that would not fit. */
module Encoders {
  import opened Common

  /** Largest number of bytes `generate_token_hex` accepts (its local buffer). */
  const MaxTokenBytes: nat := 64

  /** The digit `%x` prints for a nibble. */
  function HexDigit(n: int): (c: char)
    requires 0 <= n < 16
    ensures '0' <= c <= '9' || 'a' <= c <= 'f'
  {
    if n < 10 then ('0' as int + n) as char else ('a' as int + n - 10) as char
  }

  /** The digits are those of the table "0123456789abcdef". */
  lemma HexDigitTable(n: int)
    requires 0 <= n < 16
    ensures HexDigit(n) == "0123456789abcdef"[n]
  {
  }

  /** The value of a lowercase hex digit. */
  function HexValue(c: char): (r: Option<int>)
    ensures r.Some? ==> 0 <= r.value < 16
  {
    if '0' <= c <= '9' then Some(c as int - '0' as int)
    else if 'a' <= c <= 'f' then Some(c as int - 'a' as int + 10)
    else None
  }

  lemma HexValueOfDigit(n: int)
    requires 0 <= n < 16
    ensures HexValue(HexDigit(n)) == Some(n)
  {
  }

  /** `%02x` of every byte, in order. */
  function Hex(bytes: seq<byte>): (r: string)
    ensures |r| == 2 * |bytes|
  {
    if bytes == [] then []
    else [HexDigit(bytes[0] as int / 16), HexDigit(bytes[0] as int % 16)] + Hex(bytes[1..])
  }

  lemma {:induction false} HexAppend(a: seq<byte>, b: seq<byte>)
    ensures Hex(a + b) == Hex(a) + Hex(b)
  {
    if a == [] {
      assert a + b == b;
    } else {
      assert (a + b)[0] == a[0];
      assert (a + b)[1..] == a[1..] + b;
      HexAppend(a[1..], b);
      var d := Hex([a[0]]);
      HexOneByte(a[0]);
      assert d + (Hex(a[1..]) + Hex(b)) == (d + Hex(a[1..])) + Hex(b);
    }
  }

  /** Byte i becomes characters 2i and 2i+1, high nibble first. */
  lemma {:induction false} HexAt(bytes: seq<byte>, i: nat)
    requires i < |bytes|
    ensures Hex(bytes)[2 * i] == HexDigit(bytes[i] as int / 16)
    ensures Hex(bytes)[2 * i + 1] == HexDigit(bytes[i] as int % 16)
  {
    if i > 0 {
      HexAt(bytes[1..], i - 1);
    }
  }

  /** Every character of an encoding is a lowercase hex digit. */
  lemma {:induction false} HexIsLowercaseHex(bytes: seq<byte>)
    ensures forall k :: 0 <= k < |Hex(bytes)| ==> HexValue(Hex(bytes)[k]).Some?
  {
    if bytes != [] {
      HexIsLowercaseHex(bytes[1..]);
      var h := Hex(bytes);
      forall k | 0 <= k < |h| ensures HexValue(h[k]).Some? {
        if k >= 2 {
          assert h[k] == Hex(bytes[1..])[k - 2];
        }
      }
    }
  }

  /** Reads pairs of lowercase hex digits back into bytes. */
  function DecodeHex(s: string): Option<seq<byte>>
    decreases |s|
  {
    if |s| < 2 then (if s == [] then Some([]) else None)
    else
      var hi, lo, rest := HexValue(s[0]), HexValue(s[1]), DecodeHex(s[2..]);
      if hi.Some? && lo.Some? && rest.Some? then Some([(hi.value * 16 + lo.value) as byte] + rest.value)
      else None
  }

  /** One byte is two digits whose values give the byte back. */
  lemma HexOneByte(b: byte)
    ensures Hex([b]) == [HexDigit(b as int / 16), HexDigit(b as int % 16)]
    ensures HexValue(HexDigit(b as int / 16)) == Some(b as int / 16)
    ensures HexValue(HexDigit(b as int % 16)) == Some(b as int % 16)
    ensures (b as int / 16) * 16 + b as int % 16 == b as int
  {
    assert [b][1..] == [];
    HexValueOfDigit(b as int / 16);
    HexValueOfDigit(b as int % 16);
  }

  /** Decoding reads the two digits of one byte back. */
  lemma DecodeHexByte(b: byte, rest: string)
    ensures DecodeHex(rest).Some? ==> DecodeHex(Hex([b]) + rest) == Some([b] + DecodeHex(rest).value)
    ensures DecodeHex(rest).None? ==> DecodeHex(Hex([b]) + rest).None?
  {
    HexOneByte(b);
    var hi, lo := b as int / 16, b as int % 16;
    var t := Hex([b]) + rest;
    assert t[0] == HexDigit(hi) && t[1] == HexDigit(lo);
    assert t[2..] == rest;
    assert HexValue(t[0]) == Some(hi) && HexValue(t[1]) == Some(lo);
    assert (hi * 16 + lo) as byte == b;
  }

  /** The token is a faithful encoding: decoding it gives back the random bytes. */
  lemma {:induction false} HexRoundTrip(bytes: seq<byte>)
    ensures DecodeHex(Hex(bytes)) == Some(bytes)
  {
    if bytes != [] {
      assert bytes == [bytes[0]] + bytes[1..];
      HexAppend([bytes[0]], bytes[1..]);
      HexRoundTrip(bytes[1..]);
      DecodeHexByte(bytes[0], Hex(bytes[1..]));
    }
  }

  lemma HexSnoc(bytes: seq<byte>, i: nat)
    requires i < |bytes|
    ensures Hex(bytes[..i + 1]) == Hex(bytes[..i]) + [HexDigit(bytes[i] as int / 16), HexDigit(bytes[i] as int % 16)]
  {
    assert bytes[..i + 1] == bytes[..i] + [bytes[i]];
    HexAppend(bytes[..i], [bytes[i]]);
    HexOneByte(bytes[i]);
  }

  /** `generate_token_hex(out, out.Length, |bytes|)` with `bytes` the random draw:
      fails (writing nothing) when the buffer cannot hold 2n digits and the NUL,
      when more than 64 bytes are asked for, or when none are (the random source
      refuses a zero-length read); otherwise writes the hex digits and a NUL. */
  method GenerateTokenHex(out: array<char>, bytes: seq<byte>) returns (rc: int)
    modifies out
    ensures rc == 0 || rc == -1
    ensures rc == 0 <==> out.Length >= 2 * |bytes| + 1 && 0 < |bytes| <= MaxTokenBytes
    ensures rc == 0 ==> out[..2 * |bytes|] == Hex(bytes) && out[2 * |bytes|] == '\0'
    ensures rc == 0 ==> forall k :: 2 * |bytes| < k < out.Length ==> out[k] == old(out[k])
    ensures rc != 0 ==> out[..] == old(out[..])
  {
    var n := |bytes|;
    if out.Length < n * 2 + 1 {
      return -1;
    }
    if n > MaxTokenBytes {
      return -1;
    }
    if n == 0 {
      return -1;
    }
    var i := 0;
    while i < n
      invariant 0 <= i <= n
      invariant out[..2 * i] == Hex(bytes[..i])
      invariant forall k :: 2 * i <= k < out.Length ==> out[k] == old(out[k])
    {
      out[2 * i] := HexDigit(bytes[i] as int / 16);
      out[2 * i + 1] := HexDigit(bytes[i] as int % 16);
      HexSnoc(bytes, i);
      assert out[..2 * (i + 1)] == out[..2 * i] + [out[2 * i], out[2 * i + 1]];
      i := i + 1;
    }
    assert bytes[..n] == bytes;
    out[2 * n] := '\0';
    rc := 0;
  }

  // ---------------------------------------------------------------------------
  // Escaping into a bounded buffer

  /** The concatenated escapes of every character of `s`. */
  function Escaped(esc: char -> string, s: string): string {
    if s == [] then [] else esc(s[0]) + Escaped(esc, s[1..])
  }

  lemma {:induction false} EscapedAppend(esc: char -> string, a: string, b: string)
    ensures Escaped(esc, a + b) == Escaped(esc, a) + Escaped(esc, b)
  {
    if a == [] {
      assert a + b == b;
    } else {
      assert (a + b)[0] == a[0];
      assert (a + b)[1..] == a[1..] + b;
      EscapedAppend(esc, a[1..], b);
      var x, y := Escaped(esc, a[1..]), Escaped(esc, b);
      assert esc(a[0]) + (x + y) == (esc(a[0]) + x) + y;
    }
  }

  lemma EscapedSnoc(esc: char -> string, s: string, i: nat)
    requires i < |s|
    ensures Escaped(esc, s[..i + 1]) == Escaped(esc, s[..i]) + esc(s[i])
  {
    assert s[..i + 1] == s[..i] + [s[i]];
    EscapedAppend(esc, s[..i], [s[i]]);
  }

  /** Escapes only grow with a longer prefix. */
  lemma {:induction false} EscapedPrefixLength(esc: char -> string, s: string, k: nat, m: nat)
    requires k <= m <= |s|
    ensures |Escaped(esc, s[..k])| <= |Escaped(esc, s[..m])|
    decreases m - k
  {
    if k < m {
      EscapedSnoc(esc, s, m - 1);
      EscapedPrefixLength(esc, s, k, m - 1);
    }
  }

  /** `memcpy(dst + j, esc, |esc|)`. */
  method CopyInto(dst: array<char>, j: nat, esc: string)
    requires j + |esc| <= dst.Length
    modifies dst
    ensures dst[..j + |esc|] == old(dst[..j]) + esc
    ensures forall k :: j + |esc| <= k < dst.Length ==> dst[k] == old(dst[k])
  {
    forall k | 0 <= k < |esc| {
      dst[j + k] := esc[k];
    }
  }

  function HtmlEntity(c: char): (r: string)
    ensures |r| >= 1
  {
    match c
    case '&' => "&amp;"
    case '<' => "&lt;"
    case '>' => "&gt;"
    case '"' => "&quot;"
    case '\'' => "&#39;"
    case _ => [c]
  }

  predicate HtmlSpecial(c: char) {
    c == '&' || c == '<' || c == '>' || c == '"' || c == '\''
  }

  function HtmlEscaped(s: string): string {
    Escaped(HtmlEntity, s)
  }

  /** Copies `src` escaped into `dst`; stops before the first character whose
      escape does not fit beside the NUL, so the output is always the escape
      of a prefix of `src`, never a cut entity. */
  method HtmlEscape(src: Option<string>, dst: array<char>) returns (j: nat)
    requires src.Some? ==> NulFree(src.value)
    modifies dst
    ensures dst.Length == 0 ==> j == 0 && dst[..] == old(dst[..])
    ensures dst.Length > 0 ==> j < dst.Length && dst[j] == '\0'
    ensures src.None? ==> j == 0
    ensures dst.Length > 0 && src.Some? ==>
      exists k :: 0 <= k <= |src.value| && dst[..j] == HtmlEscaped(src.value[..k]) &&
        (k < |src.value| ==> j + |HtmlEntity(src.value[k])| >= dst.Length)
    ensures forall k :: j < k < dst.Length ==> dst[k] == old(dst[k])
  {
    if dst.Length == 0 {
      return 0;
    }
    if src.None? {
      dst[0] := '\0';
      return 0;
    }
    var s := src.value;
    j := 0;
    var i := 0;
    while i < |s| && j < dst.Length - 1
      invariant 0 <= i <= |s| && j <= dst.Length - 1
      invariant dst[..j] == HtmlEscaped(s[..i])
      invariant forall k :: j <= k < dst.Length ==> dst[k] == old(dst[k])
    {
      var c := s[i];
      EscapedSnoc(HtmlEntity, s, i);
      if HtmlSpecial(c) {
        var esc := HtmlEntity(c);
        if j + |esc| >= dst.Length {
          break;
        }
        CopyInto(dst, j, esc);
        j := j + |esc|;
      } else {
        dst[j] := c;
        assert dst[..j + 1] == dst[..j] + [c];
        j := j + 1;
      }
      i := i + 1;
    }
    dst[j] := '\0';
  }

  /** Reads entities back; any other character stands for itself. */
  function HtmlUnescape(t: string): string
    decreases |t|
  {
    if t == [] then []
    else if |t| >= 5 && t[..5] == "&amp;" then "&" + HtmlUnescape(t[5..])
    else if |t| >= 4 && t[..4] == "&lt;" then "<" + HtmlUnescape(t[4..])
    else if |t| >= 4 && t[..4] == "&gt;" then ">" + HtmlUnescape(t[4..])
    else if |t| >= 6 && t[..6] == "&quot;" then "\"" + HtmlUnescape(t[6..])
    else if |t| >= 5 && t[..5] == "&#39;" then "'" + HtmlUnescape(t[5..])
    else [t[0]] + HtmlUnescape(t[1..])
  }

  lemma HtmlUnescapeEntity(c: char, rest: string)
    ensures HtmlUnescape(HtmlEntity(c) + rest) == [c] + HtmlUnescape(rest)
  {
    var e := HtmlEntity(c);
    var t := e + rest;
    assert t[|e|..] == rest;
    assert t[0] == e[0];
    if c == '&' {
      assert t[..5] == "&amp;";
    } else if c == '<' {
      assert |t| >= 5 ==> t[..5] != "&amp;" by { if |t| >= 5 { assert t[..5][1] == 'l'; } }
      assert t[..4] == "&lt;";
    } else if c == '>' {
      assert |t| >= 5 ==> t[..5] != "&amp;" by { if |t| >= 5 { assert t[..5][1] == 'g'; } }
      assert |t| >= 4 ==> t[..4] != "&lt;" by { if |t| >= 4 { assert t[..4][1] == 'g'; } }
      assert t[..4] == "&gt;";
    } else if c == '"' {
      assert |t| >= 5 ==> t[..5] != "&amp;" by { if |t| >= 5 { assert t[..5][1] == 'q'; } }
      assert |t| >= 4 ==> t[..4] != "&lt;" by { if |t| >= 4 { assert t[..4][1] == 'q'; } }
      assert |t| >= 4 ==> t[..4] != "&gt;" by { if |t| >= 4 { assert t[..4][1] == 'q'; } }
      assert t[..6] == "&quot;";
    } else if c == '\'' {
      assert |t| >= 5 ==> t[..5] != "&amp;" by { if |t| >= 5 { assert t[..5][1] == '#'; } }
      assert |t| >= 4 ==> t[..4] != "&lt;" by { if |t| >= 4 { assert t[..4][1] == '#'; } }
      assert |t| >= 4 ==> t[..4] != "&gt;" by { if |t| >= 4 { assert t[..4][1] == '#'; } }
      assert |t| >= 6 ==> t[..6] != "&quot;" by { if |t| >= 6 { assert t[..6][1] == '#'; } }
      assert t[..5] == "&#39;";
    } else {
      assert t[0] == c && c != '&';
      assert |t| >= 5 ==> t[..5] != "&amp;" by { if |t| >= 5 { assert t[..5][0] == c; } }
      assert |t| >= 4 ==> t[..4] != "&lt;" by { if |t| >= 4 { assert t[..4][0] == c; } }
      assert |t| >= 4 ==> t[..4] != "&gt;" by { if |t| >= 4 { assert t[..4][0] == c; } }
      assert |t| >= 6 ==> t[..6] != "&quot;" by { if |t| >= 6 { assert t[..6][0] == c; } }
      assert |t| >= 5 ==> t[..5] != "&#39;" by { if |t| >= 5 { assert t[..5][0] == c; } }
    }
  }

  /** No information is lost: the escaped text reads back as the original. */
  lemma {:induction false} HtmlRoundTrip(s: string)
    ensures HtmlUnescape(HtmlEscaped(s)) == s
  {
    if s != [] {
      assert HtmlEscaped(s) == HtmlEntity(s[0]) + HtmlEscaped(s[1..]);
      HtmlUnescapeEntity(s[0], HtmlEscaped(s[1..]));
      HtmlRoundTrip(s[1..]);
      assert [s[0]] + s[1..] == s;
    }
  }

  /** Escaped text holds none of the five special characters except the `&`
      that starts an entity. */
  lemma {:induction false} HtmlEscapedIsInert(s: string)
    ensures forall k :: 0 <= k < |HtmlEscaped(s)| ==>
      HtmlEscaped(s)[k] != '<' && HtmlEscaped(s)[k] != '>' &&
      HtmlEscaped(s)[k] != '"' && HtmlEscaped(s)[k] != '\''
  {
    if s != [] {
      HtmlEscapedIsInert(s[1..]);
      var e := HtmlEntity(s[0]);
      var t := HtmlEscaped(s);
      assert t == e + HtmlEscaped(s[1..]);
      forall k | 0 <= k < |t|
        ensures t[k] != '<' && t[k] != '>' && t[k] != '"' && t[k] != '\''
      {
        if k >= |e| {
          assert t[k] == HtmlEscaped(s[1..])[k - |e|];
        }
      }
    }
  }

  /** The escape of one byte under section 7 of RFC 8259: quote and backslash
      get a backslash, control characters become `\u00xx` in lowercase hex. */
  function JsonEscapeChar(c: char): (r: string)
    ensures |r| >= 1
  {
    if c == '"' || c == '\\' then ['\\', c]
    else if c as int < 0x20 then "\\u00" + [HexDigit(c as int / 16), HexDigit(c as int % 16)]
    else [c]
  }

  function JsonEscaped(s: string): string {
    Escaped(JsonEscapeChar, s)
  }

  /** `json_escape`: the same bounded-buffer discipline as `HtmlEscape`. */
  method JsonEscape(src: Option<string>, dst: array<char>) returns (j: nat)
    requires src.Some? ==> NulFree(src.value)
    modifies dst
    ensures dst.Length == 0 ==> j == 0 && dst[..] == old(dst[..])
    ensures dst.Length > 0 ==> j < dst.Length && dst[j] == '\0'
    ensures src.None? ==> j == 0
    ensures dst.Length > 0 && src.Some? ==>
      exists k :: 0 <= k <= |src.value| && dst[..j] == JsonEscaped(src.value[..k]) &&
        (k < |src.value| ==> j + |JsonEscapeChar(src.value[k])| >= dst.Length)
    ensures forall k :: j < k < dst.Length ==> dst[k] == old(dst[k])
  {
    if dst.Length == 0 {
      return 0;
    }
    if src.None? {
      dst[0] := '\0';
      return 0;
    }
    var s := src.value;
    j := 0;
    var i := 0;
    while i < |s| && j < dst.Length - 1
      invariant 0 <= i <= |s| && j <= dst.Length - 1
      invariant dst[..j] == JsonEscaped(s[..i])
      invariant forall k :: j <= k < dst.Length ==> dst[k] == old(dst[k])
    {
      var ch := s[i];
      EscapedSnoc(JsonEscapeChar, s, i);
      var esc := JsonEscapeChar(ch);
      if ch == '"' || ch == '\\' {
        if j + 2 >= dst.Length {
          break;
        }
        CopyInto(dst, j, esc);
        j := j + 2;
      } else if ch as int < 0x20 {
        if j + 6 >= dst.Length {
          break;
        }
        CopyInto(dst, j, esc);
        j := j + 6;
      } else {
        CopyInto(dst, j, esc);
        j := j + 1;
      }
      i := i + 1;
    }
    dst[j] := '\0';
  }

  /** The characters a JSON string may hold between its quotes (section 7 of
      RFC 8259): no raw quote, backslash or control character; escapes are a
      backslash with one of `"\/bfnrt`, or `\u` with four hex digits. */
  predicate JsonStringBody(t: string)
    decreases |t|
  {
    if t == [] then true
    else if t[0] == '\\' then
      (|t| >= 2 && t[1] in "\"\\/bfnrt" && JsonStringBody(t[2..])) ||
      (|t| >= 6 && t[1] == 'u' && HexValue(t[2]).Some? && HexValue(t[3]).Some? &&
       HexValue(t[4]).Some? && HexValue(t[5]).Some? && JsonStringBody(t[6..]))
    else t[0] != '"' && t[0] as int >= 0x20 && JsonStringBody(t[1..])
  }

  /** Whatever the input, the escaped output is a well-formed JSON string body. */
  lemma {:induction false} JsonEscapedIsStringBody(s: string)
    ensures JsonStringBody(JsonEscaped(s))
  {
    if s != [] {
      JsonEscapedIsStringBody(s[1..]);
      var e := JsonEscapeChar(s[0]);
      var t := e + JsonEscaped(s[1..]);
      assert JsonEscaped(s) == t;
      assert t[|e|..] == JsonEscaped(s[1..]);
      var c := s[0];
      if c as int < 0x20 && c != '"' && c != '\\' {
        HexValueOfDigit(c as int / 16);
        HexValueOfDigit(c as int % 16);
        assert HexValue('0').Some?;
        assert t[2] == '0' && t[3] == '0';
      }
    }
  }

  /** Reads the escapes of `JsonEscapeChar` back. */
  function JsonUnescape(t: string): string
    decreases |t|
  {
    if t == [] then []
    else if t[0] == '\\' && |t| >= 6 && t[1] == 'u' && HexValue(t[4]).Some? && HexValue(t[5]).Some? then
      [(HexValue(t[4]).value * 16 + HexValue(t[5]).value) as char] + JsonUnescape(t[6..])
    else if t[0] == '\\' && |t| >= 2 then [t[1]] + JsonUnescape(t[2..])
    else [t[0]] + JsonUnescape(t[1..])
  }

  lemma {:induction false} JsonRoundTrip(s: string)
    ensures JsonUnescape(JsonEscaped(s)) == s
  {
    if s != [] {
      var c := s[0];
      var e := JsonEscapeChar(c);
      var t := e + JsonEscaped(s[1..]);
      assert JsonEscaped(s) == t;
      assert t[|e|..] == JsonEscaped(s[1..]);
      JsonRoundTrip(s[1..]);
      if c == '"' || c == '\\' {
        assert t[0] == '\\' && t[1] == c;
      } else if c as int < 0x20 {
        HexValueOfDigit(c as int / 16);
        HexValueOfDigit(c as int % 16);
        assert t[4] == HexDigit(c as int / 16) && t[5] == HexDigit(c as int % 16);
        assert (c as int / 16 * 16 + c as int % 16) as char == c;
      } else {
        assert t[0] == c;
      }
      assert [s[0]] + s[1..] == s;
    }
  }
}
