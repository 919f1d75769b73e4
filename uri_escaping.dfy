/** `Uri.EscapeDataString` and `Uri.UnescapeDataString`: percent-encoding of
    everything outside the unreserved set of RFC 3986 (section 2.3), each
    character written as the percent-encoded octets (section 2.1) of its UTF-8
    form (RFC 3629), and the decoding back. */
module UriEscaping {
  import opened Preingest
  import Text
  import Sequences

  type Byte = b: int | 0 <= b < 256

  /** RFC 3986 section 2.3: ALPHA / DIGIT / "-" / "." / "_" / "~" */
  predicate IsUnreserved(c: char) {
    || 'A' <= c <= 'Z'
    || 'a' <= c <= 'z'
    || '0' <= c <= '9'
    || c == '-' || c == '.' || c == '_' || c == '~'
  }

  /** The UTF-8 octets of one Unicode scalar value. */
  function Utf8(c: char): (bytes: seq<Byte>)
    ensures 1 <= |bytes| <= 4
  {
    var n := c as int;
    if n < 0x80 then [n]
    else if n < 0x800 then [0xC0 + n / 64, 0x80 + n % 64]
    else if n < 0x10000 then [0xE0 + n / 4096, 0x80 + (n / 64) % 64, 0x80 + n % 64]
    else [0xF0 + n / 262144, 0x80 + (n / 4096) % 64, 0x80 + (n / 64) % 64, 0x80 + n % 64]
  }

  const HexDigits: string := "0123456789ABCDEF"

  /** One octet as "%" and two upper-case hexadecimal digits. */
  function PercentEncode(b: Byte): (r: string)
    ensures |r| == 3 && r[0] == '%'
  {
    ['%', HexDigits[b / 16], HexDigits[b % 16]]
  }

  function PercentEncodeAll(bytes: seq<Byte>): (r: string)
    ensures |r| == 3 * |bytes|
  {
    if |bytes| == 0 then "" else PercentEncode(bytes[0]) + PercentEncodeAll(bytes[1..])
  }

  function EscapeChar(c: char): string {
    if IsUnreserved(c) then [c] else PercentEncodeAll(Utf8(c))
  }

  /** `Uri.EscapeDataString(s)`: each character in turn, unreserved ones as
      they are and the others percent-encoded. */
  function EscapeDataString(s: string): string {
    if |s| == 0 then "" else EscapeChar(s[0]) + EscapeDataString(s[1..])
  }

  lemma {:induction false} PercentEncodedAlphabet(bytes: seq<Byte>)
    ensures forall c :: c in PercentEncodeAll(bytes) ==> IsUnreserved(c) || c == '%'
  {
    if |bytes| > 0 {
      PercentEncodedAlphabet(bytes[1..]);
      assert forall i :: 0 <= i < 16 ==> IsUnreserved(HexDigits[i]);
    }
  }

  /** The escaped text holds only unreserved characters and '%', so in
      particular no '/'. */
  lemma {:induction false} EscapedAlphabet(s: string)
    ensures forall c :: c in EscapeDataString(s) ==> IsUnreserved(c) || c == '%'
  {
    if |s| > 0 {
      EscapedAlphabet(s[1..]);
      PercentEncodedAlphabet(Utf8(s[0]));
    }
  }

  function HexValue(c: char): Option<int> {
    if '0' <= c <= '9' then Some(c as int - '0' as int)
    else if 'A' <= c <= 'F' then Some(c as int - 'A' as int + 10)
    else if 'a' <= c <= 'f' then Some(c as int - 'a' as int + 10)
    else None
  }

  /** The octet written as "%XY" at position `i` of `s`, if there is one. */
  function OctetAt(s: string, i: nat): (r: Option<Byte>)
    ensures r.Some? ==> i + 3 <= |s| && s[i] == '%'
  {
    if i + 3 <= |s| && s[i] == '%' then
      match (HexValue(s[i + 1]), HexValue(s[i + 2]))
      case (Some(h), Some(l)) => if 0 <= h < 16 && 0 <= l < 16 then Some(h * 16 + l) else None
      case _ => None
    else None
  }

  predicate IsContinuation(b: Option<Byte>) {
    b.Some? && 0x80 <= b.value < 0xC0
  }

  /** Decodes the character whose UTF-8 octets are percent-encoded at the
      start of `s`, with the number of characters the escapes occupy. An
      escape that is not a well-formed UTF-8 sequence decodes to nothing. */
  function DecodeEscaped(s: string): (r: Option<(char, nat)>)
    ensures r.Some? ==> 3 <= r.value.1 <= |s|
  {
    match OctetAt(s, 0)
    case None => None
    case Some(b0) =>
      if b0 < 0x80 then Some((b0 as char, 3))
      else if 0xC2 <= b0 < 0xE0 then
        var b1 := OctetAt(s, 3);
        if IsContinuation(b1) then Some((((b0 - 0xC0) * 64 + (b1.value - 0x80)) as char, 6)) else None
      else if 0xE0 <= b0 < 0xF0 then
        var b1, b2 := OctetAt(s, 3), OctetAt(s, 6);
        if IsContinuation(b1) && IsContinuation(b2) then
          var n := (b0 - 0xE0) * 4096 + (b1.value - 0x80) * 64 + (b2.value - 0x80);
          if n < 0x800 || 0xD800 <= n < 0xE000 then None else Some((n as char, 9))
        else None
      else if 0xF0 <= b0 < 0xF5 then
        var b1, b2, b3 := OctetAt(s, 3), OctetAt(s, 6), OctetAt(s, 9);
        if IsContinuation(b1) && IsContinuation(b2) && IsContinuation(b3) then
          var n := (b0 - 0xF0) * 262144 + (b1.value - 0x80) * 4096 + (b2.value - 0x80) * 64 + (b3.value - 0x80);
          if n < 0x10000 || 0x110000 <= n then None else Some((n as char, 12))
        else None
      else None
  }

  /** `Uri.UnescapeDataString(s)`: every well-formed escape is replaced by the
      character it encodes; everything else is kept as it is. */
  function UnescapeDataString(s: string): string
    decreases |s|
  {
    if |s| == 0 then ""
    else match DecodeEscaped(s)
      case Some((c, n)) => [c] + UnescapeDataString(s[n..])
      case None => [s[0]] + UnescapeDataString(s[1..])
  }

  lemma HexDigitValue(d: int)
    requires 0 <= d < 16
    ensures HexValue(HexDigits[d]) == Some(d)
  {
  }

  /** The escape of an octet, read back, is that octet. */
  lemma OctetHead(b: Byte, post: string)
    ensures OctetAt(PercentEncode(b) + post, 0) == Some(b)
  {
    var s := PercentEncode(b) + post;
    assert s[0] == '%' && s[1] == HexDigits[b / 16] && s[2] == HexDigits[b % 16];
    HexDigitValue(b / 16);
    HexDigitValue(b % 16);
  }

  /** Reading an octet is unaffected by text in front of it. */
  lemma OctetShift(pre: string, s: string, i: nat)
    ensures OctetAt(pre + s, |pre| + i) == OctetAt(s, i)
  {
    if i + 3 <= |s| {
      assert (pre + s)[|pre| + i] == s[i];
      assert (pre + s)[|pre| + i + 1] == s[i + 1];
      assert (pre + s)[|pre| + i + 2] == s[i + 2];
    }
  }

  /** The k-th escape of a run of escaped octets reads back as the k-th
      octet, whatever follows the run. */
  lemma {:induction false} OctetsAt(bytes: seq<Byte>, t: string, k: nat)
    requires k < |bytes|
    ensures OctetAt(PercentEncodeAll(bytes) + t, 3 * k) == Some(bytes[k])
  {
    var head := PercentEncode(bytes[0]);
    var rest := PercentEncodeAll(bytes[1..]) + t;
    Sequences.AppendAssoc(head, PercentEncodeAll(bytes[1..]), t);
    if k == 0 {
      OctetHead(bytes[0], rest);
    } else {
      OctetsAt(bytes[1..], t, k - 1);
      OctetShift(head, rest, 3 * (k - 1));
    }
  }

  lemma Utf8TwoOctets(n: int)
    requires 0x80 <= n < 0x800
    ensures 0xC2 <= 0xC0 + n / 64 < 0xE0 && 0x80 <= 0x80 + n % 64 < 0xC0
    ensures (n / 64) * 64 + n % 64 == n
  {
  }

  lemma Utf8ThreeOctets(n: int)
    requires 0x800 <= n < 0x10000
    ensures 0xE0 <= 0xE0 + n / 4096 < 0xF0
    ensures 0 <= (n / 64) % 64 < 64 && 0 <= n % 64 < 64
    ensures (n / 4096) * 4096 + ((n / 64) % 64) * 64 + n % 64 == n
  {
    var q := n / 64;
    assert q / 64 == n / 4096;
  }

  lemma Utf8FourOctets(n: int)
    requires 0x10000 <= n < 0x110000
    ensures 0xF0 <= 0xF0 + n / 262144 < 0xF5
    ensures 0 <= (n / 4096) % 64 < 64 && 0 <= (n / 64) % 64 < 64 && 0 <= n % 64 < 64
    ensures (n / 262144) * 262144 + ((n / 4096) % 64) * 4096 + ((n / 64) % 64) * 64 + n % 64 == n
  {
    var q := n / 64;
    assert q / 64 == n / 4096;
    assert (q / 64) / 64 == n / 262144;
  }

  /** Escaped octets of a well-formed UTF-8 sequence decode to the character
      it encodes, for each length of sequence. */
  lemma DecodeOneOctet(s: string, b0: Byte)
    requires OctetAt(s, 0) == Some(b0) && b0 < 0x80
    ensures DecodeEscaped(s) == Some((b0 as char, 3))
  {
  }

  lemma DecodeTwoOctets(s: string, b0: Byte, b1: Byte)
    requires OctetAt(s, 0) == Some(b0) && OctetAt(s, 3) == Some(b1)
    requires 0xC2 <= b0 < 0xE0 && 0x80 <= b1 < 0xC0
    ensures DecodeEscaped(s) == Some((((b0 - 0xC0) * 64 + (b1 - 0x80)) as char, 6))
  {
  }

  lemma DecodeThreeOctets(s: string, b0: Byte, b1: Byte, b2: Byte)
    requires OctetAt(s, 0) == Some(b0) && OctetAt(s, 3) == Some(b1) && OctetAt(s, 6) == Some(b2)
    requires 0xE0 <= b0 < 0xF0 && 0x80 <= b1 < 0xC0 && 0x80 <= b2 < 0xC0
    requires var n := (b0 - 0xE0) * 4096 + (b1 - 0x80) * 64 + (b2 - 0x80);
             0x800 <= n && !(0xD800 <= n < 0xE000)
    ensures DecodeEscaped(s) == Some((((b0 - 0xE0) * 4096 + (b1 - 0x80) * 64 + (b2 - 0x80)) as char, 9))
  {
  }

  lemma DecodeFourOctets(s: string, b0: Byte, b1: Byte, b2: Byte, b3: Byte)
    requires OctetAt(s, 0) == Some(b0) && OctetAt(s, 3) == Some(b1) && OctetAt(s, 6) == Some(b2) && OctetAt(s, 9) == Some(b3)
    requires 0xF0 <= b0 < 0xF5 && 0x80 <= b1 < 0xC0 && 0x80 <= b2 < 0xC0 && 0x80 <= b3 < 0xC0
    requires var n := (b0 - 0xF0) * 262144 + (b1 - 0x80) * 4096 + (b2 - 0x80) * 64 + (b3 - 0x80);
             0x10000 <= n < 0x110000
    ensures DecodeEscaped(s) == Some((((b0 - 0xF0) * 262144 + (b1 - 0x80) * 4096 + (b2 - 0x80) * 64 + (b3 - 0x80)) as char, 12))
  {
  }

  lemma DecodeEscapeOne(c: char, t: string)
    requires !IsUnreserved(c) && c as int < 0x80
    ensures DecodeEscaped(EscapeChar(c) + t) == Some((c, |EscapeChar(c)|))
  {
    var b0: Byte := c as int;
    assert Utf8(c) == [b0];
    OctetsAt(Utf8(c), t, 0);
    DecodeOneOctet(EscapeChar(c) + t, b0);
  }

  lemma DecodeEscapeTwo(c: char, t: string)
    requires 0x80 <= c as int < 0x800
    ensures DecodeEscaped(EscapeChar(c) + t) == Some((c, |EscapeChar(c)|))
  {
    var n := c as int;
    Utf8TwoOctets(n);
    var h, l := n / 64, n % 64;
    var b0: Byte, b1: Byte := 0xC0 + h, 0x80 + l;
    assert Utf8(c) == [b0, b1];
    assert !IsUnreserved(c);
    OctetsAt(Utf8(c), t, 0);
    OctetsAt(Utf8(c), t, 1);
    DecodeTwoOctets(EscapeChar(c) + t, b0, b1);
    assert (b0 - 0xC0) * 64 + (b1 - 0x80) == h * 64 + l == n;
  }

  lemma DecodeEscapeThree(c: char, t: string)
    requires 0x800 <= c as int < 0x10000
    ensures DecodeEscaped(EscapeChar(c) + t) == Some((c, |EscapeChar(c)|))
  {
    var n := c as int;
    Utf8ThreeOctets(n);
    var h, m, l := n / 4096, (n / 64) % 64, n % 64;
    var b0: Byte, b1: Byte, b2: Byte := 0xE0 + h, 0x80 + m, 0x80 + l;
    assert Utf8(c) == [b0, b1, b2];
    assert !IsUnreserved(c);
    OctetsAt(Utf8(c), t, 0);
    OctetsAt(Utf8(c), t, 1);
    OctetsAt(Utf8(c), t, 2);
    assert (b0 - 0xE0) * 4096 + (b1 - 0x80) * 64 + (b2 - 0x80) == h * 4096 + m * 64 + l == n;
    DecodeThreeOctets(EscapeChar(c) + t, b0, b1, b2);
  }

  lemma DecodeEscapeFour(c: char, t: string)
    requires 0x10000 <= c as int
    ensures DecodeEscaped(EscapeChar(c) + t) == Some((c, |EscapeChar(c)|))
  {
    var n := c as int;
    Utf8FourOctets(n);
    var h, m1, m2, l := n / 262144, (n / 4096) % 64, (n / 64) % 64, n % 64;
    var b0: Byte, b1: Byte, b2: Byte, b3: Byte := 0xF0 + h, 0x80 + m1, 0x80 + m2, 0x80 + l;
    assert Utf8(c) == [b0, b1, b2, b3];
    assert !IsUnreserved(c);
    OctetsAt(Utf8(c), t, 0);
    OctetsAt(Utf8(c), t, 1);
    OctetsAt(Utf8(c), t, 2);
    OctetsAt(Utf8(c), t, 3);
    assert (b0 - 0xF0) * 262144 + (b1 - 0x80) * 4096 + (b2 - 0x80) * 64 + (b3 - 0x80) == h * 262144 + m1 * 4096 + m2 * 64 + l == n;
    DecodeFourOctets(EscapeChar(c) + t, b0, b1, b2, b3);
  }

  /** The escapes of a reserved character decode back to that character,
      whatever follows them. */
  lemma DecodeEscapeChar(c: char, t: string)
    requires !IsUnreserved(c)
    ensures DecodeEscaped(EscapeChar(c) + t) == Some((c, |EscapeChar(c)|))
  {
    var n := c as int;
    if n < 0x80 {
      DecodeEscapeOne(c, t);
    } else if n < 0x800 {
      DecodeEscapeTwo(c, t);
    } else if n < 0x10000 {
      DecodeEscapeThree(c, t);
    } else {
      DecodeEscapeFour(c, t);
    }
  }

  /** Unescaping undoes the escape of one character, whatever follows it. */
  lemma UnescapeEscapeChar(c: char, rest: string)
    ensures UnescapeDataString(EscapeChar(c) + rest) == [c] + UnescapeDataString(rest)
  {
    var e := EscapeChar(c);
    if IsUnreserved(c) {
      assert (e + rest)[0] == c && c != '%';
      assert DecodeEscaped(e + rest).None?;
      assert (e + rest)[1..] == rest;
    } else {
      DecodeEscapeChar(c, rest);
      assert (e + rest)[|e|..] == rest;
    }
  }

  /** Unescaping undoes escaping, whatever follows the escaped text. */
  lemma {:induction false} UnescapeEscape(s: string, t: string)
    ensures UnescapeDataString(EscapeDataString(s) + t) == s + UnescapeDataString(t)
  {
    if |s| > 0 {
      UnescapeEscape(s[1..], t);
      UnescapeEscapeStep(s, t);
    } else {
      assert EscapeDataString(s) + t == t;
    }
  }

  lemma UnescapeEscapeStep(s: string, t: string)
    requires |s| > 0
    requires UnescapeDataString(EscapeDataString(s[1..]) + t) == s[1..] + UnescapeDataString(t)
    ensures UnescapeDataString(EscapeDataString(s) + t) == s + UnescapeDataString(t)
  {
    var e, tail := EscapeChar(s[0]), EscapeDataString(s[1..]);
    var rest := tail + t;
    EscapeCons(s);
    Sequences.AppendAssoc(e, tail, t);
    UnescapeEscapeChar(s[0], rest);
    var u := UnescapeDataString(t);
    Sequences.AppendAssoc([s[0]], s[1..], u);
    assert [s[0]] + s[1..] == s;
  }

  lemma EscapeCons(s: string)
    requires |s| > 0
    ensures EscapeDataString(s) == EscapeChar(s[0]) + EscapeDataString(s[1..])
  {
  }

  /** Text without '%' passes through unescaping unchanged. */
  lemma {:induction false} UnescapePlain(p: string, t: string)
    requires '%' !in p
    ensures UnescapeDataString(p + t) == p + UnescapeDataString(t)
  {
    if |p| > 0 {
      assert (p + t)[0] == p[0] && p[0] != '%';
      assert DecodeEscaped(p + t).None?;
      assert (p + t)[1..] == p[1..] + t;
      assert UnescapeDataString(p + t) == [p[0]] + UnescapeDataString(p[1..] + t);
      UnescapePlain(p[1..], t);
      Sequences.AppendAssoc([p[0]], p[1..], UnescapeDataString(t));
      assert [p[0]] + p[1..] == p;
    } else {
      assert p + t == t;
    }
  }

  /** The escaped form of a '/'-separated path: every segment escaped on its
      own, the separators kept. */
  function EscapePath(path: string): string {
    Text.Join(Sequences.Map(EscapeDataString, Text.Split(path, '/')), '/')
  }

  /** Escaping a path keeps its segments: the escaped path splits into
      exactly the escaped segments, as many as the path has. */
  lemma EscapePathSegments(path: string)
    ensures Text.Split(EscapePath(path), '/') == Sequences.Map(EscapeDataString, Text.Split(path, '/'))
    ensures |Text.Split(EscapePath(path), '/')| == |Text.Split(path, '/')|
  {
    var escaped := Sequences.Map(EscapeDataString, Text.Split(path, '/'));
    forall i | 0 <= i < |escaped|
      ensures '/' !in escaped[i]
    {
      EscapedAlphabet(Text.Split(path, '/')[i]);
      assert !IsUnreserved('/');
    }
    Text.SplitJoin(escaped, '/');
  }

  /** Unescaping the escaped path gives back the path. */
  lemma UnescapeEscapePath(path: string)
    ensures UnescapeDataString(EscapePath(path)) == path
  {
    var segments := Text.Split(path, '/');
    UnescapeJoined(segments);
    Text.JoinSplit(path, '/');
  }

  lemma {:induction false} UnescapeJoined(segments: seq<string>)
    requires |segments| >= 1
    ensures UnescapeDataString(Text.Join(Sequences.Map(EscapeDataString, segments), '/')) == Text.Join(segments, '/')
  {
    var escaped := Sequences.Map(EscapeDataString, segments);
    var head := EscapeDataString(segments[0]);
    if |segments| == 1 {
      UnescapeEscape(segments[0], "");
      assert head + "" == head;
      assert segments[0] + "" == segments[0];
    } else {
      var escapedTail := Sequences.Map(EscapeDataString, segments[1..]);
      assert escaped[1..] == escapedTail;
      var tail := Text.Join(escapedTail, '/');
      assert Text.Join(escaped, '/') == head + ['/'] + tail;
      Sequences.AppendAssoc(head, ['/'], tail);
      UnescapeJoined(segments[1..]);
      UnescapeEscape(segments[0], ['/'] + tail);
      UnescapePlain(['/'], tail);
      Sequences.AppendAssoc(segments[0], ['/'], Text.Join(segments[1..], '/'));
    }
  }
}
