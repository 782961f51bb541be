/** Base64 as Go's encoding/base64 does it (sections 4 and 5 of RFC 4648).

    The decoder skips CR and LF anywhere, ignores the unused low bits of a short final quantum, and
    rejects everything else outside the alphabet.  `url` picks the alphabet, `padded` whether '='
    fills the last quantum.
 */
module Base64 {
  import opened Wrappers
  import opened GoStrings

  type Sextet = x: int | 0 <= x < 64

  function CharOf(x: Sextet, url: bool): (c: Byte)
    ensures c != '=' && c != '\n' && c != '\r'
  {
    if x < 26 then ('A' as int + x) as char
    else if x < 52 then ('a' as int + x - 26) as char
    else if x < 62 then ('0' as int + x - 52) as char
    else if x == 62 then if url then '-' else '+'
    else if url then '_' else '/'
  }

  function ValueOf(c: char, url: bool): Option<Sextet> {
    if 'A' <= c <= 'Z' then Some(c as int - 'A' as int)
    else if 'a' <= c <= 'z' then Some(c as int - 'a' as int + 26)
    else if '0' <= c <= '9' then Some(c as int - '0' as int + 52)
    else if c == (if url then '-' else '+') then Some(62)
    else if c == (if url then '_' else '/') then Some(63)
    else None
  }

  lemma ValueOfCharOf(x: Sextet, url: bool)
    ensures ValueOf(CharOf(x, url), url) == Some(x)
  {
  }

  /** The four sextets of three bytes, most significant bits first. */
  function Sextets(a: Byte, b: Byte, c: Byte): (Sextet, Sextet, Sextet, Sextet) {
    var (x, y, z) := (a as int, b as int, c as int);
    (x / 4, x % 4 * 16 + y / 16, y % 16 * 4 + z / 64, z % 64)
  }

  /** The three bytes of four sextets. */
  function Bytes3(w: Sextet, x: Sextet, y: Sextet, z: Sextet): (r: seq<Byte>)
    ensures |r| == 3
  {
    [(w * 4 + x / 16) as char, (x % 16 * 16 + y / 4) as char, (y % 4 * 64 + z) as char]
  }

  function Encode(b: seq<Byte>, url: bool, padded: bool): string {
    if |b| == 0 then ""
    else if |b| == 1 then
      var (w, x, _, _) := Sextets(b[0], '\0', '\0');
      [CharOf(w, url), CharOf(x, url)] + (if padded then "==" else "")
    else if |b| == 2 then
      var (w, x, y, _) := Sextets(b[0], b[1], '\0');
      [CharOf(w, url), CharOf(x, url), CharOf(y, url)] + (if padded then "=" else "")
    else
      var (w, x, y, z) := Sextets(b[0], b[1], b[2]);
      [CharOf(w, url), CharOf(x, url), CharOf(y, url), CharOf(z, url)] + Encode(b[3..], url, padded)
  }

  function StripNewlines(s: string): string {
    if s == [] then []
    else if s[0] == '\n' || s[0] == '\r' then StripNewlines(s[1..])
    else [s[0]] + StripNewlines(s[1..])
  }

  function DecodeQuanta(s: string, url: bool, padded: bool): Option<seq<Byte>> {
    if s == [] then Some([])
    else if |s| >= 2 && ValueOf(s[0], url).Some? && ValueOf(s[1], url).Some? then
      var w, x := ValueOf(s[0], url).value, ValueOf(s[1], url).value;
      if (if padded then s[2..] == "==" else |s| == 2) then
        Some(Bytes3(w, x, 0, 0)[..1])
      else if |s| >= 3 && ValueOf(s[2], url).Some? then
        var y := ValueOf(s[2], url).value;
        if (if padded then s[3..] == "=" else |s| == 3) then
          Some(Bytes3(w, x, y, 0)[..2])
        else if |s| >= 4 && ValueOf(s[3], url).Some? then
          match DecodeQuanta(s[4..], url, padded)
          case None => None
          case Some(rest) => Some(Bytes3(w, x, y, ValueOf(s[3], url).value) + rest)
        else None
      else None
    else None
  }

  function Decode(s: string, url: bool, padded: bool): Option<seq<Byte>> {
    DecodeQuanta(StripNewlines(s), url, padded)
  }

  lemma {:induction false} EncodeHasNoNewline(b: seq<Byte>, url: bool, padded: bool)
    ensures StripNewlines(Encode(b, url, padded)) == Encode(b, url, padded)
    decreases |b|
  {
    var e := Encode(b, url, padded);
    if |b| >= 3 {
      var rest := Encode(b[3..], url, padded);
      EncodeHasNoNewline(b[3..], url, padded);
      assert e[1..][1..][1..][1..] == rest;
      StripOne(e);
      StripOne(e[1..]);
      StripOne(e[1..][1..]);
      StripOne(e[1..][1..][1..]);
    } else {
      StripNone(e);
    }
  }

  lemma StripOne(s: string)
    requires s != [] && s[0] != '\n' && s[0] != '\r'
    ensures StripNewlines(s) == [s[0]] + StripNewlines(s[1..])
  {
  }

  lemma StripNone(s: string)
    requires forall i :: 0 <= i < |s| ==> s[i] != '\n' && s[i] != '\r'
    ensures StripNewlines(s) == s
  {
  }

  lemma Quantum(a: Byte, b: Byte, c: Byte)
    ensures var (w, x, y, z) := Sextets(a, b, c); Bytes3(w, x, y, z) == [a, b, c]
  {
  }

  /** Decoding undoes encoding, for both alphabets, padded or not. */
  lemma {:induction false} RoundTrip(b: seq<Byte>, url: bool, padded: bool)
    ensures Decode(Encode(b, url, padded), url, padded) == Some(b)
  {
    EncodeHasNoNewline(b, url, padded);
    QuantaRoundTrip(b, url, padded);
  }

  lemma ShortRoundTrip(b: seq<Byte>, url: bool, padded: bool)
    requires |b| == 1
    ensures DecodeQuanta(Encode(b, url, padded), url, padded) == Some(b)
  {
    Quantum(b[0], '\0', '\0');
    var (w, x, y, z) := Sextets(b[0], '\0', '\0');
    var e := Encode(b, url, padded);
    assert e[0] == CharOf(w, url) && e[1] == CharOf(x, url);
    assert padded ==> e[2..] == "==";
    assert [b[0], '\0', '\0'][..1] == b;
  }

  lemma PairRoundTrip(b: seq<Byte>, url: bool, padded: bool)
    requires |b| == 2
    ensures DecodeQuanta(Encode(b, url, padded), url, padded) == Some(b)
  {
    Quantum(b[0], b[1], '\0');
    var (w, x, y, z) := Sextets(b[0], b[1], '\0');
    var e := Encode(b, url, padded);
    ValueOfCharOf(w, url);
    ValueOfCharOf(x, url);
    ValueOfCharOf(y, url);
    assert e[0] == CharOf(w, url) && e[1] == CharOf(x, url) && e[2] == CharOf(y, url);
    assert padded ==> e[2..][0] != '=' && e[3..] == "=";
    assert [b[0], b[1], '\0'][..2] == b;
  }

  lemma {:induction false} QuantaRoundTrip(b: seq<Byte>, url: bool, padded: bool)
    ensures DecodeQuanta(Encode(b, url, padded), url, padded) == Some(b)
    decreases |b|
  {
    if |b| == 1 {
      ShortRoundTrip(b, url, padded);
    } else if |b| == 2 {
      PairRoundTrip(b, url, padded);
    } else if |b| >= 3 {
      FullRoundTrip(b, url, padded);
    }
  }

  lemma {:induction false} FullRoundTrip(b: seq<Byte>, url: bool, padded: bool)
    requires |b| >= 3
    ensures DecodeQuanta(Encode(b, url, padded), url, padded) == Some(b)
    decreases |b|, 0
  {
    Quantum(b[0], b[1], b[2]);
    QuantaRoundTrip(b[3..], url, padded);
    var (w, x, y, z) := Sextets(b[0], b[1], b[2]);
    var e, rest := Encode(b, url, padded), Encode(b[3..], url, padded);
    ValueOfCharOf(w, url);
    ValueOfCharOf(x, url);
    ValueOfCharOf(y, url);
    ValueOfCharOf(z, url);
    assert e == [CharOf(w, url), CharOf(x, url), CharOf(y, url), CharOf(z, url)] + rest;
    assert e[4..] == rest;
    assert e[2..][0] != '=' && e[3..][0] != '=';
    assert b == [b[0], b[1], b[2]] + b[3..];
  }

  // ---- The standard's own values ----

  /** The alphabets of sections 4 and 5 of RFC 4648. */
  lemma AlphabetExact(x: Sextet, url: bool)
    ensures CharOf(x, url) == if x < 26 then UPPER[x]
                              else if x < 52 then LOWER[x - 26]
                              else (if url then "0123456789-_" else "0123456789+/")[x - 52]
  {
  }

  /** Four sextets are the three bytes read as one 24-bit number, most significant first. */
  lemma SextetsExact(a: Byte, b: Byte, c: Byte)
    ensures var (w, x, y, z) := Sextets(a, b, c);
            w * 262144 + x * 4096 + y * 64 + z == a as int * 65536 + b as int * 256 + c as int
  {
  }

  /** Test vectors of section 10 of RFC 4648. */
  lemma Vectors()
    ensures Encode("f", false, true) == "Zg==" && Encode("fo", false, true) == "Zm8=" && Encode("foo", false, true) == "Zm9v"
    ensures Encode("f", true, false) == "Zg" && Encode("fo", true, false) == "Zm8"
  {
    assert "foo"[3..] == "";
  }

  /** The decoder skips line breaks wherever they are. */
  lemma {:induction false} NewlinesSkipped(s: string, t: string, c: char, url: bool, padded: bool)
    requires c == '\n' || c == '\r'
    ensures Decode(s + [c] + t, url, padded) == Decode(s + t, url, padded)
  {
    StripSkips(s, t, c);
  }

  lemma {:induction false} StripSkips(s: string, t: string, c: char)
    requires c == '\n' || c == '\r'
    ensures StripNewlines(s + [c] + t) == StripNewlines(s + t)
  {
    if s == "" {
      assert (s + [c] + t)[1..] == t && s + t == t;
    } else {
      assert (s + [c] + t)[1..] == s[1..] + [c] + t && (s + t)[1..] == s[1..] + t;
      StripSkips(s[1..], t, c);
    }
  }

  /** A last quantum of two characters is a byte, its last four bits ignored; it needs its padding, and
      takes none, exactly as the encoding says. */
  lemma ShortQuantum(w: Sextet, x: Sextet, url: bool)
    ensures var c := [CharOf(w, url), CharOf(x, url)];
            DecodeQuanta(c + "==", url, true) == Some([(w * 4 + x / 16) as char]) &&
            DecodeQuanta(c, url, false) == Some([(w * 4 + x / 16) as char]) &&
            DecodeQuanta(c, url, true).None? && DecodeQuanta(c + "==", url, false).None?
  {
    ValueOfCharOf(w, url);
    ValueOfCharOf(x, url);
    var c := [CharOf(w, url), CharOf(x, url)];
    var p := c + "==";
    assert p[0] == c[0] && p[1] == c[1] && p[2] == '=' && p[2..] == "==" && c[2..] == "";
    assert |p| == 4 && ValueOf(p[2], url).None?;
    assert Bytes3(w, x, 0, 0)[..1] == [(w * 4 + x / 16) as char];
  }

  /** Likewise one of three characters is two bytes, its last two bits ignored. */
  lemma ThreeQuantum(w: Sextet, x: Sextet, y: Sextet, url: bool)
    ensures var c := [CharOf(w, url), CharOf(x, url), CharOf(y, url)];
            var b := [(w * 4 + x / 16) as char, (x % 16 * 16 + y / 4) as char];
            DecodeQuanta(c + "=", url, true) == Some(b) && DecodeQuanta(c, url, false) == Some(b) &&
            DecodeQuanta(c, url, true).None? && DecodeQuanta(c + "=", url, false).None?
  {
    ValueOfCharOf(w, url);
    ValueOfCharOf(x, url);
    ValueOfCharOf(y, url);
    var c := [CharOf(w, url), CharOf(x, url), CharOf(y, url)];
    var p := c + "=";
    assert p[0] == c[0] && p[1] == c[1] && p[2] == c[2] && p[3] == '=' && p[3..] == "=" && c[3..] == "";
    assert c[2..][0] != '=' && p[2..][0] != '=';
    assert |p| == 4 && ValueOf(p[3], url).None?;
    assert Bytes3(w, x, y, 0)[..2] == [(w * 4 + x / 16) as char, (x % 16 * 16 + y / 4) as char];
  }
}
