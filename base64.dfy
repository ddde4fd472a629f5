/** Node's `Buffer` base64 and base64url codecs (RFC 4648 sections 4 and 5), as used to
    store and look up passkey credential ids. Encoding to 'base64' pads with '=';
    encoding to 'base64url' does not pad. Decoding accepts both alphabets. */
module Base64 {
  import opened Wrappers

  type byte = x: int | 0 <= x < 256
  type sextet = x: int | 0 <= x < 64

  /** The character for a 6-bit value in the standard (`url` false) or URL-safe alphabet. */
  function AlphabetChar(v: sextet, url: bool): (c: char)
    ensures c as int < 128 && c != '='
  {
    if v < 26 then (65 + v) as char
    else if v < 52 then (97 + v - 26) as char
    else if v < 62 then (48 + v - 52) as char
    else if v == 62 then (if url then '-' else '+')
    else (if url then '_' else '/')
  }

  /** The 6-bit value of a character of either alphabet; None for any other character. */
  function SextetOf(c: char): Option<sextet> {
    if 'A' <= c <= 'Z' then Some(c as int - 65)
    else if 'a' <= c <= 'z' then Some(c as int - 97 + 26)
    else if '0' <= c <= '9' then Some(c as int - 48 + 52)
    else if c == '+' || c == '-' then Some(62)
    else if c == '/' || c == '_' then Some(63)
    else None
  }

  lemma SextetOfAlphabetChar(v: sextet, url: bool)
    ensures SextetOf(AlphabetChar(v, url)) == Some(v)
  {
  }

  /** Bytes split into 6-bit groups, most significant bits first; a final group of one or
      two bytes yields two or three values, the missing low bits being zero. */
  function ToSextets(b: seq<byte>): seq<sextet>
    decreases |b|
  {
    if |b| == 0 then []
    else if |b| == 1 then [b[0] / 4, b[0] % 4 * 16]
    else if |b| == 2 then [b[0] / 4, b[0] % 4 * 16 + b[1] / 16, b[1] % 16 * 4]
    else [b[0] / 4, b[0] % 4 * 16 + b[1] / 16, b[1] % 16 * 4 + b[2] / 64, b[2] % 64] + ToSextets(b[3..])
  }

  /** 6-bit groups joined back into bytes; leftover bits that do not fill a byte are dropped. */
  function FromSextets(v: seq<sextet>): seq<byte>
    decreases |v|
  {
    if |v| < 2 then []
    else
      var a: int, b: int := v[0], v[1];
      if |v| == 2 then [a * 4 + b / 16]
      else
        var c: int := v[2];
        if |v| == 3 then [a * 4 + b / 16, b % 16 * 16 + c / 4]
        else [a * 4 + b / 16, b % 16 * 16 + c / 4, c % 4 * 64 + v[3]] + FromSextets(v[4..])
  }

  function Chars(v: seq<sextet>, url: bool): (s: string)
    ensures |s| == |v|
  {
    seq(|v|, i requires 0 <= i < |v| => AlphabetChar(v[i], url))
  }

  /** `Buffer.from(b).toString('base64')` (url false) or `.toString('base64url')` (url true). */
  function Encode(b: seq<byte>, url: bool): string {
    Chars(ToSextets(b), url) + if url || |b| % 3 == 0 then "" else if |b| % 3 == 1 then "==" else "="
  }

  /** The low byte of each UTF-16 code unit of `c`, which is what Node's decoder reads for
      a string holding characters above U+00FF: one unit for a character up to U+FFFF, a
      high and a low surrogate for one beyond. */
  function LowBytes(c: char): (u: seq<char>)
    ensures 1 <= |u| <= 2 && forall x :: x in u ==> x as int < 256
    ensures c as int < 256 ==> u == [c]
  {
    if c as int <= 0xFFFF then [(c as int % 256) as char]
    else
      var w := c as int - 0x1_0000;
      [((0xD800 + w / 0x400) % 256) as char, ((0xDC00 + w % 0x400) % 256) as char]
  }

  /** The 6-bit values Node's decoder reads from `s`, byte by byte over `LowBytes` of each
      character: decoding stops at the first '=' byte (or the end), and every other byte
      outside both alphabets, whitespace included, is skipped. */
  function ReadSextets(s: string): seq<sextet>
    decreases |s|, 3
  {
    if s == [] then [] else ReadUnits(LowBytes(s[0]), s[1..])
  }

  /** `ReadSextets` part-way through a character: `units` are the bytes of it not yet read. */
  function ReadUnits(units: seq<char>, rest: string): seq<sextet>
    decreases |rest| + 1, |units|
  {
    if units == [] then ReadSextets(rest)
    else if units[0] == '=' then []
    else match SextetOf(units[0])
      case None => ReadUnits(units[1..], rest)
      case Some(v) => [v] + ReadUnits(units[1..], rest)
  }

  /** `Buffer.from(s, 'base64')` or `Buffer.from(s, 'base64url')`: Node decodes either
      alphabet with either name, and a final group of two or three values gives one or two
      bytes. */
  function Decode(s: string): seq<byte> {
    FromSextets(ReadSextets(s))
  }

  /** `Buffer.from(id, 'base64url').toString('base64')`: the re-encoding applied to a WebAuthn response id. */
  function UrlToStandard(id: string): string {
    Encode(Decode(id), false)
  }

  lemma {:induction false} ReadChars(v: seq<sextet>, url: bool, tail: string)
    requires tail == [] || tail[0] == '='
    ensures ReadSextets(Chars(v, url) + tail) == v
    decreases |v|
  {
    if v != [] {
      var s := Chars(v, url) + tail;
      SextetOfAlphabetChar(v[0], url);
      assert s[0] == AlphabetChar(v[0], url);
      assert s[1..] == Chars(v[1..], url) + tail;
      ReadChars(v[1..], url, tail);
      var u := LowBytes(s[0]);
      assert u == [s[0]] && u[1..] == [];
      assert ReadUnits(u, s[1..]) == [v[0]] + ReadUnits([], s[1..]);
      assert v == [v[0]] + v[1..];
    } else {
      assert Chars(v, url) + tail == tail;
      if tail != [] {
        assert ReadUnits(['='], tail[1..]) == [];
      }
    }
  }

  /** A character whose code units' low bytes are all outside both alphabets and not '='
      (a space, a line break, 'ā') anywhere in the text changes nothing that is decoded. */
  lemma {:induction false} IllegalCharIgnored(a: string, c: char, b: string)
    requires forall x :: x in LowBytes(c) ==> x != '=' && SextetOf(x).None?
    ensures Decode(a + [c] + b) == Decode(a + b)
  {
    ReadSkips(a, c, b);
  }

  lemma {:induction false} ReadSkips(a: string, c: char, b: string)
    requires forall x :: x in LowBytes(c) ==> x != '=' && SextetOf(x).None?
    ensures ReadSextets(a + [c] + b) == ReadSextets(a + b)
    decreases |a|
  {
    if a == [] {
      assert a + [c] + b == [c] + b && ([c] + b)[1..] == b && a + b == b;
      UnitsSkipped(LowBytes(c), b);
    } else {
      assert (a + [c] + b)[0] == a[0] && (a + b)[0] == a[0];
      assert (a + [c] + b)[1..] == a[1..] + [c] + b;
      assert (a + b)[1..] == a[1..] + b;
      ReadSkips(a[1..], c, b);
      UnitsAgree(LowBytes(a[0]), a[1..] + [c] + b, a[1..] + b);
    }
  }

  lemma {:induction false} UnitsSkipped(units: seq<char>, rest: string)
    requires forall x :: x in units ==> x != '=' && SextetOf(x).None?
    ensures ReadUnits(units, rest) == ReadSextets(rest)
    decreases |units|
  {
    if units != [] {
      assert units[0] in units;
      assert forall x :: x in units[1..] ==> x in units;
      UnitsSkipped(units[1..], rest);
    }
  }

  lemma {:induction false} UnitsAgree(units: seq<char>, r1: string, r2: string)
    requires ReadSextets(r1) == ReadSextets(r2)
    ensures ReadUnits(units, r1) == ReadUnits(units, r2)
    decreases |units|
  {
    if units != [] {
      UnitsAgree(units[1..], r1, r2);
    }
  }

  /** 'Ł' (U+0141) has low byte 0x41, so Node reads it as 'A'. */
  lemma WideCharReadsAsLowByte()
    ensures Decode("\U{0141}AAA") == Decode("AAAA") == [0, 0, 0]
  {
    assert LowBytes('\U{0141}') == ['A'];
    assert ReadSextets("A") == [0];
    assert ReadSextets("AA") == [0, 0];
    assert ReadSextets("AAA") == [0, 0, 0];
    assert ReadSextets("AAAA") == [0, 0, 0, 0];
    assert ReadSextets("\U{0141}AAA") == [0, 0, 0, 0];
  }

  /** The high surrogate of U+1F600 is U+D83D, whose low byte is '=': decoding stops there. */
  lemma AstralCharStopsDecoding(b: string)
    ensures Decode("A\U{1F600}" + b) == []
  {
    var s := "A\U{1F600}" + b;
    assert LowBytes('\U{1F600}')[0] == '=';
    assert s[1..] == ['\U{1F600}'] + b;
    assert ReadSextets(s[1..]) == [];
    assert ReadUnits([], s[1..]) == [];
    assert ReadSextets(s) == ReadUnits(['A'], s[1..]) == [0];
  }

  lemma Split(q: int, r: int, k: int)
    requires k == 4 || k == 16 || k == 64
    requires 0 <= r < k
    ensures (q * k + r) / k == q && (q * k + r) % k == r
  {
  }

  /** Joining the 6-bit groups of a byte string gives the byte string back. */
  lemma {:induction false} FromToSextets(b: seq<byte>)
    ensures FromSextets(ToSextets(b)) == b
    decreases |b|
  {
    if |b| >= 1 {
      var x := b[0];
      Split(x % 4, if |b| >= 2 then b[1] / 16 else 0, 16);
      assert x / 4 * 4 + x % 4 == x;
    }
    if |b| >= 2 {
      var y := b[1];
      Split(y % 16, if |b| >= 3 then b[2] / 64 else 0, 4);
      assert y / 16 * 16 + y % 16 == y;
    }
    if |b| >= 3 {
      var z := b[2];
      assert z / 64 * 64 + z % 64 == z;
      FromToSextets(b[3..]);
      assert b == b[..3] + b[3..];
    }
  }

  /** RFC 4648 round trip, for either alphabet: decoding an encoding gives the bytes back. */
  lemma DecodeEncode(b: seq<byte>, url: bool)
    ensures Decode(Encode(b, url)) == b
  {
    var pad := if url || |b| % 3 == 0 then "" else if |b| % 3 == 1 then "==" else "=";
    ReadChars(ToSextets(b), url, pad);
    FromToSextets(b);
  }

  /** A credential id sent back in base64url re-encodes to exactly the base64 text stored
      for the same bytes at registration. */
  lemma UrlIdMatchesStoredId(b: seq<byte>)
    ensures UrlToStandard(Encode(b, true)) == Encode(b, false)
  {
    DecodeEncode(b, true);
  }
}
