/** ECMAScript's `encodeURIComponent`, used to put a course title or a member name
    into a placeholder-image URL. */
module Uri {

  /** The characters `encodeURIComponent` leaves as they are. */
  predicate Unreserved(c: char) {
    || ('A' <= c <= 'Z') || ('a' <= c <= 'z') || ('0' <= c <= '9')
    || c == '-' || c == '_' || c == '.' || c == '!' || c == '~' || c == '*' || c == '\'' || c == '(' || c == ')'
  }

  predicate IsHexDigit(c: char) {
    ('0' <= c <= '9') || ('A' <= c <= 'F')
  }

  /** What may appear in an encoded component: unreserved characters and `%XX` escapes.
      In particular no `/`, `?`, `#`, `&`, `=` or white space. */
  predicate ComponentSafe(c: char) {
    Unreserved(c) || c == '%'
  }

  function HexDigit(n: nat): (c: char)
    requires n < 16
    ensures IsHexDigit(c)
  {
    if n < 10 then ('0' as int + n) as char else ('A' as int + n - 10) as char
  }

  function HexValue(c: char): nat
    requires IsHexDigit(c)
  {
    if c <= '9' then c as int - '0' as int else c as int - 'A' as int + 10
  }

  /** The UTF-8 encoding of one Unicode scalar value. */
  function Utf8(c: char): (bytes: seq<nat>)
    ensures 1 <= |bytes| <= 4
    ensures forall i :: 0 <= i < |bytes| ==> bytes[i] < 256
    ensures |bytes| == 1 <==> c as int < 0x80
  {
    var cp := c as int;
    if cp < 0x80 then [cp]
    else if cp < 0x800 then [0xC0 + cp / 64, 0x80 + cp % 64]
    else if cp < 0x10000 then [0xE0 + cp / 4096, 0x80 + (cp / 64) % 64, 0x80 + cp % 64]
    else [0xF0 + cp / 0x40000, 0x80 + (cp / 4096) % 64, 0x80 + (cp / 64) % 64, 0x80 + cp % 64]
  }

  /** The code point a well-formed UTF-8 sequence of one to four bytes stands for. */
  function Utf8Value(bytes: seq<nat>): int
    requires 1 <= |bytes| <= 4
  {
    var b := seq(|bytes|, i requires 0 <= i < |bytes| => bytes[i] as int);
    if |b| == 1 then b[0]
    else if |b| == 2 then (b[0] - 0xC0) * 64 + (b[1] - 0x80)
    else if |b| == 3 then (b[0] - 0xE0) * 4096 + (b[1] - 0x80) * 64 + (b[2] - 0x80)
    else (b[0] - 0xF0) * 0x40000 + (b[1] - 0x80) * 4096 + (b[2] - 0x80) * 64 + (b[3] - 0x80)
  }

  /** Decoding the UTF-8 bytes of a character gives its code point back. */
  lemma Utf8RoundTrip(c: char)
    ensures Utf8Value(Utf8(c)) == c as int
  {
    var cp := c as int;
    if cp >= 0x10000 {
      FourBytes(cp);
    } else if cp >= 0x800 {
      ThreeBytes(cp);
    }
  }

  /** The four pieces of a supplementary code point put back together. */
  lemma FourBytes(cp: nat)
    ensures (cp / 0x40000) * 0x40000 + ((cp / 4096) % 64) * 4096 + ((cp / 64) % 64) * 64 + cp % 64 == cp
  {
    assert (cp / 4096) % 64 == cp / 4096 - (cp / 0x40000) * 64;
    assert (cp / 64) % 64 == cp / 64 - (cp / 4096) * 64;
  }

  /** The three pieces of a code point of the basic plane put back together. */
  lemma ThreeBytes(cp: nat)
    ensures (cp / 4096) * 4096 + ((cp / 64) % 64) * 64 + cp % 64 == cp
  {
    assert (cp / 64) % 64 == cp / 64 - (cp / 4096) * 64;
  }

  /** `%XX` with upper-case hex digits for one byte. */
  function PercentByte(b: nat): (r: string)
    requires b < 256
    ensures |r| == 3 && r[0] == '%' && IsHexDigit(r[1]) && IsHexDigit(r[2])
    ensures HexValue(r[1]) * 16 + HexValue(r[2]) == b
  {
    ['%', HexDigit(b / 16), HexDigit(b % 16)]
  }

  function PercentBytes(bytes: seq<nat>): (r: string)
    requires forall i :: 0 <= i < |bytes| ==> bytes[i] < 256
    ensures |r| == 3 * |bytes|
    ensures forall i :: 0 <= i < |r| ==> ComponentSafe(r[i])
  {
    if bytes == [] then [] else PercentByte(bytes[0]) + PercentBytes(bytes[1..])
  }

  function EncodeChar(c: char): string {
    if Unreserved(c) then [c] else PercentBytes(Utf8(c))
  }

  /** `encodeURIComponent(s)`: every character outside the unreserved set is replaced
      by the `%XX` escapes of its UTF-8 bytes. */
  function EncodeComponent(s: string): (r: string)
    ensures forall i :: 0 <= i < |r| ==> ComponentSafe(r[i])
    ensures |r| >= |s|
  {
    if s == [] then [] else EncodeChar(s[0]) + EncodeComponent(s[1..])
  }

  /** A string of unreserved characters is its own encoding. */
  lemma {:induction false} EncodeUnreserved(s: string)
    requires forall i :: 0 <= i < |s| ==> Unreserved(s[i])
    ensures EncodeComponent(s) == s
  {
    if s != [] {
      EncodeUnreserved(s[1..]);
    }
  }

  /** An encoded component put between a fixed prefix and suffix: the URL starts with the
      prefix, ends with the suffix, and what lies between is the encoding, made only of
      characters that cannot end a path segment or a query parameter. */
  predicate EmbedsComponent(url: string, prefix: string, s: string, suffix: string) {
    && |url| >= |prefix| + |suffix|
    && url[..|prefix|] == prefix
    && url[|url| - |suffix|..] == suffix
    && url[|prefix|..|url| - |suffix|] == EncodeComponent(s)
    && forall i :: |prefix| <= i < |url| - |suffix| ==> ComponentSafe(url[i])
  }

  lemma Embed(prefix: string, s: string, suffix: string)
    ensures EmbedsComponent(prefix + EncodeComponent(s) + suffix, prefix, s, suffix)
  {
    var e := EncodeComponent(s);
    var url := prefix + e + suffix;
    assert url[|prefix|..|url| - |suffix|] == e;
    forall i | |prefix| <= i < |url| - |suffix| ensures ComponentSafe(url[i]) {
      assert url[i] == e[i - |prefix|];
    }
  }

  /** Encoding maps concatenation to concatenation. */
  lemma {:induction false} EncodeAppend(s: string, t: string)
    ensures EncodeComponent(s + t) == EncodeComponent(s) + EncodeComponent(t)
  {
    if s != [] {
      assert (s + t)[1..] == s[1..] + t;
      EncodeAppend(s[1..], t);
    } else {
      assert s + t == t;
    }
  }
}
