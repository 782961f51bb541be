/** The HMAC session cookie (session.go): base64url(username ':' expiry ':' hex-mac).

    The MAC is a parameter; nothing is assumed of it.  The clock is a parameter in Unix seconds.
 */
module Session {
  import opened Wrappers
  import opened GoStrings
  import Base64
  import opened Decimal

  type Mac = (seq<Byte>, seq<Byte>) -> seq<Byte>

  function HexDigit(x: int): (c: Byte)
    requires 0 <= x < 16
    ensures c != ':'
  {
    if x < 10 then ('0' as int + x) as char else ('a' as int + x - 10) as char
  }

  function HexEncode(b: seq<Byte>): (r: seq<Byte>)
    ensures ':' !in r
  {
    if b == [] then []
    else [HexDigit(b[0] as int / 16), HexDigit(b[0] as int % 16)] + HexEncode(b[1..])
  }

  function HmacHex(mac: Mac, secret: seq<Byte>, payload: seq<Byte>): (r: seq<Byte>)
    ensures ':' !in r
  {
    HexEncode(mac(secret, payload))
  }

  function PrintBytes(n: int): (r: seq<Byte>)
    ensures r == Print(n) && r != [] && ':' !in r
  {
    Print(n)
  }

  /** sessionVerifier.make, given the expiry second. */
  function Make(mac: Mac, secret: seq<Byte>, username: seq<Byte>, expiry: Int64): string {
    var payload := username + [':'] + PrintBytes(expiry);
    Base64.Encode(payload + [':'] + HmacHex(mac, secret, payload), true, true)
  }

  /** decodeB64URL: padded first, then raw. */
  function DecodeB64URL(s: string): Option<seq<Byte>> {
    var padded := Base64.Decode(s, true, true);
    if padded.Some? then padded else Base64.Decode(s, true, false)
  }

  /** sessionVerifier.verify. */
  function Verify(mac: Mac, secret: seq<Byte>, token: string, now: int): Option<seq<Byte>> {
    if secret == [] || token == [] then None
    else
      match DecodeB64URL(token)
      case None => None
      case Some(s) => VerifyBody(mac, secret, s, now)
  }

  /** The part of verify after decoding: two last-separator splits, then expiry, then MAC. */
  function VerifyBody(mac: Mac, secret: seq<Byte>, s: seq<Byte>, now: int): Option<seq<Byte>> {
    var i2 := LastIndexByte(s, ':');
    if i2 < 0 then None
    else
      var sig, rest := s[i2 + 1..], s[..i2];
      var i1 := LastIndexByte(rest, ':');
      if i1 < 0 then None
      else
        var expiryStr, username := rest[i1 + 1..], rest[..i1];
        match ParseInt64(expiryStr)
        case None => None
        case Some(expiry) =>
          if now > expiry then None
          else if sig != HmacHex(mac, secret, username + [':'] + expiryStr) then None
          else Some(username)
  }

  const HEX_DIGITS := "0123456789abcdef"

  function HexValue(c: char): Option<int> {
    if '0' <= c <= '9' then Some(c as int - '0' as int)
    else if 'a' <= c <= 'f' then Some(c as int - 'a' as int + 10)
    else None
  }

  lemma HexDigitExact(x: int)
    requires 0 <= x < 16
    ensures HexDigit(x) == HEX_DIGITS[x] && HexValue(HexDigit(x)) == Some(x)
  {
  }

  /** The bytes of a lower-case hex text, high half first; None for any other text. */
  function HexDecode(s: string): Option<seq<Byte>> {
    if s == "" then Some([])
    else if |s| == 1 || HexValue(s[0]).None? || HexValue(s[1]).None? then None
    else
      match HexDecode(s[2..])
      case None => None
      case Some(rest) => Some([(HexValue(s[0]).value * 16 + HexValue(s[1]).value) as char] + rest)
  }

  lemma {:induction false} HexRoundTrip(b: seq<Byte>)
    ensures HexDecode(HexEncode(b)) == Some(b)
  {
    if b != [] {
      HexRoundTrip(b[1..]);
      HexDigitExact(b[0] as int / 16);
      HexDigitExact(b[0] as int % 16);
      assert HexEncode(b)[2..] == HexEncode(b[1..]);
      assert [b[0]] + b[1..] == b;
    }
  }

  lemma HexValueExact(c: char)
    ensures HexValue(c).Some? ==> 0 <= HexValue(c).value < 16 && HexDigit(HexValue(c).value) == c
  {
  }

  lemma {:induction false} HexDecodeOnly(s: string)
    ensures HexDecode(s).Some? ==> HexEncode(HexDecode(s).value) == s
  {
    if |s| >= 2 && HexDecode(s).Some? {
      HexDecodeOnly(s[2..]);
      HexValueExact(s[0]);
      HexValueExact(s[1]);
      assert s == [s[0], s[1]] + s[2..];
    }
  }

  /** A signature is what hmacHex computes precisely when it decodes to the MAC of the payload. */
  lemma SignsExact(mac: Mac, secret: seq<Byte>, payload: seq<Byte>, sig: seq<Byte>)
    ensures sig == HmacHex(mac, secret, payload) <==> HexDecode(sig) == Some(mac(secret, payload))
  {
    HexRoundTrip(mac(secret, payload));
    HexDecodeOnly(sig);
  }

  /** What an acceptable token body looks like, without saying how it is taken apart: user, expiry and
      a hex signature that is the MAC of the first two. */
  ghost predicate Genuine(mac: Mac, secret: seq<Byte>, body: seq<Byte>, username: seq<Byte>, expiryStr: seq<Byte>, now: int) {
    && ':' !in expiryStr
    && ParseInt64(expiryStr).Some?
    && now <= ParseInt64(expiryStr).value
    && exists sig: seq<Byte> :: Signed(mac, secret, body, username + [':'] + expiryStr, sig)
  }

  ghost predicate Signed(mac: Mac, secret: seq<Byte>, body: seq<Byte>, payload: seq<Byte>, sig: seq<Byte>) {
    body == payload + [':'] + sig && HexDecode(sig) == Some(mac(secret, payload))
  }

  lemma GenuineBody(mac: Mac, secret: seq<Byte>, body: seq<Byte>, u: seq<Byte>, e: seq<Byte>, now: int)
    ensures Genuine(mac, secret, body, u, e, now) <==>
            ':' !in e && ParseInt64(e).Some? && now <= ParseInt64(e).value &&
            body == u + [':'] + e + [':'] + HmacHex(mac, secret, u + [':'] + e)
  {
    var payload := u + [':'] + e;
    SignsExact(mac, secret, payload, HmacHex(mac, secret, payload));
    if sig: seq<Byte> :| Signed(mac, secret, body, payload, sig) {
      SignsExact(mac, secret, payload, sig);
    }
    if body == payload + [':'] + HmacHex(mac, secret, payload) {
      assert Signed(mac, secret, body, payload, HmacHex(mac, secret, payload));
    }
  }

  lemma SplitBody(u: seq<Byte>, e: seq<Byte>, sig: seq<Byte>)
    requires ':' !in e && ':' !in sig
    ensures var s := u + [':'] + e + [':'] + sig;
            var i2 := LastIndexByte(s, ':');
            i2 == |u| + 1 + |e| && s[i2 + 1..] == sig && s[..i2] == u + [':'] + e &&
            var i1 := LastIndexByte(s[..i2], ':');
            i1 == |u| && s[..i2][i1 + 1..] == e && s[..i2][..i1] == u
  {
    var s := u + [':'] + e + [':'] + sig;
    LastIndexSplits(u + [':'] + e, ':', sig);
    assert s[..|u| + 1 + |e|] == u + [':'] + e;
    LastIndexSplits(u, ':', e);
  }

  lemma GenuineAccepted(mac: Mac, secret: seq<Byte>, body: seq<Byte>, u: seq<Byte>, e: seq<Byte>, now: int)
    requires Genuine(mac, secret, body, u, e, now)
    ensures VerifyBody(mac, secret, body, now) == Some(u)
  {
    GenuineBody(mac, secret, body, u, e, now);
    SplitBody(u, e, HmacHex(mac, secret, u + [':'] + e));
  }

  lemma AcceptedGenuine(mac: Mac, secret: seq<Byte>, body: seq<Byte>, now: int) returns (e: seq<Byte>)
    requires VerifyBody(mac, secret, body, now).Some?
    ensures Genuine(mac, secret, body, VerifyBody(mac, secret, body, now).value, e, now)
  {
    var i2 := LastIndexByte(body, ':');
    var rest := body[..i2];
    var i1 := LastIndexByte(rest, ':');
    e := rest[i1 + 1..];
    assert ':' !in e by {
      assert forall j :: 0 <= j < |e| ==> e[j] == rest[i1 + 1 + j];
    }
    assert rest == rest[..i1] + [':'] + e;
    assert body == rest + [':'] + body[i2 + 1..];
    GenuineBody(mac, secret, body, rest[..i1], e, now);
  }

  /** Exact acceptance: a token is accepted for a user precisely when its body is genuine. */
  lemma VerifyExact(mac: Mac, secret: seq<Byte>, token: string, now: int, username: seq<Byte>)
    ensures Verify(mac, secret, token, now) == Some(username) <==>
            secret != [] && token != [] && DecodeB64URL(token).Some? &&
            exists e: seq<Byte> :: Genuine(mac, secret, DecodeB64URL(token).value, username, e, now)
  {
    if secret != [] && token != [] && DecodeB64URL(token).Some? {
      var s := DecodeB64URL(token).value;
      if e: seq<Byte> :| Genuine(mac, secret, s, username, e, now) {
        GenuineAccepted(mac, secret, s, username, e, now);
      }
      if VerifyBody(mac, secret, s, now) == Some(username) {
        var e := AcceptedGenuine(mac, secret, s, now);
      }
    }
  }

  /** A body names one user and one expiry only, even when user names contain the separator. */
  lemma GenuineUnique(mac: Mac, secret: seq<Byte>, body: seq<Byte>, now: int, now': int,
                      u: seq<Byte>, e: seq<Byte>, u': seq<Byte>, e': seq<Byte>)
    requires Genuine(mac, secret, body, u, e, now) && Genuine(mac, secret, body, u', e', now')
    ensures u == u' && e == e'
  {
    GenuineBody(mac, secret, body, u, e, now);
    GenuineBody(mac, secret, body, u', e', now');
    SplitBody(u, e, HmacHex(mac, secret, u + [':'] + e));
    SplitBody(u', e', HmacHex(mac, secret, u' + [':'] + e'));
  }

  lemma AcceptedSignature(mac: Mac, secret: seq<Byte>, now: int, u: seq<Byte>, e: seq<Byte>, sig: seq<Byte>)
    requires ':' !in e && ':' !in sig && VerifyBody(mac, secret, u + [':'] + e + [':'] + sig, now).Some?
    ensures HexDecode(sig) == Some(mac(secret, u + [':'] + e))
  {
    SplitBody(u, e, sig);
    SignsExact(mac, secret, u + [':'] + e, sig);
  }

  /** A signature taken from one token is accepted on another only when the MACs of the two payloads
      are the same. */
  lemma SignatureBinds(mac: Mac, secret: seq<Byte>, now: int, now': int,
                       u: seq<Byte>, e: seq<Byte>, u': seq<Byte>, e': seq<Byte>, sig: seq<Byte>)
    requires ':' !in e && ':' !in e' && ':' !in sig
    requires VerifyBody(mac, secret, u + [':'] + e + [':'] + sig, now).Some?
    requires VerifyBody(mac, secret, u' + [':'] + e' + [':'] + sig, now').Some?
    ensures mac(secret, u + [':'] + e) == mac(secret, u' + [':'] + e')
  {
    AcceptedSignature(mac, secret, now, u, e, sig);
    AcceptedSignature(mac, secret, now', u', e', sig);
  }

  lemma EncodeNonEmpty(b: seq<Byte>, url: bool, padded: bool)
    requires b != []
    ensures Base64.Encode(b, url, padded) != []
  {
  }

  /** A minted token verifies to its user up to and including the expiry second, and never after. */
  lemma MakeVerify(mac: Mac, secret: seq<Byte>, username: seq<Byte>, expiry: Int64, now: int)
    requires secret != []
    ensures Verify(mac, secret, Make(mac, secret, username, expiry), now) ==
            if now <= expiry then Some(username) else None
  {
    var e := PrintBytes(expiry);
    var payload := username + [':'] + e;
    var body := payload + [':'] + HmacHex(mac, secret, payload);
    Base64.RoundTrip(body, true, true);
    EncodeNonEmpty(body, true, true);
    PrintParse(expiry);
    SplitBody(username, e, HmacHex(mac, secret, payload));
  }

  /** A minted token is the padded base64url text of a genuine body. */
  lemma MakeExact(mac: Mac, secret: seq<Byte>, username: seq<Byte>, expiry: Int64)
    ensures var body := Base64.Decode(Make(mac, secret, username, expiry), true, true);
            body.Some? && Genuine(mac, secret, body.value, username, PrintBytes(expiry), expiry) &&
            Make(mac, secret, username, expiry) == Base64.Encode(body.value, true, true)
  {
    var e := PrintBytes(expiry);
    var body := username + [':'] + e + [':'] + HmacHex(mac, secret, username + [':'] + e);
    Base64.RoundTrip(body, true, true);
    PrintParse(expiry);
    GenuineBody(mac, secret, body, username, e, expiry);
  }

  /** The '=' characters that complete a raw encoding of n characters. */
  function Pads(n: nat): string {
    if n % 4 == 2 then "==" else if n % 4 == 3 then "=" else ""
  }

  /** One full quantum without padding characters decodes alike in both modes. */
  lemma FullQuantum(s: string, padded: bool)
    requires |s| >= 4 && '=' !in s[..4]
    ensures Base64.DecodeQuanta(s, true, padded) ==
            if forall i :: 0 <= i < 4 ==> Base64.ValueOf(s[i], true).Some? then
              match Base64.DecodeQuanta(s[4..], true, padded)
              case None => None
              case Some(rest) =>
                Some(Base64.Bytes3(Base64.ValueOf(s[0], true).value, Base64.ValueOf(s[1], true).value,
                                   Base64.ValueOf(s[2], true).value, Base64.ValueOf(s[3], true).value) + rest)
            else None
  {
    assert s[2] in s[..4] && s[3] in s[..4];
    assert s[2..][0] == s[2] && s[3..][0] == s[3];
  }

  lemma {:induction false} PadQuanta(r: string)
    requires '=' !in r
    ensures Base64.DecodeQuanta(r + Pads(|r|), true, true) == Base64.DecodeQuanta(r, true, false)
    decreases |r|
  {
    var p := r + Pads(|r|);
    if |r| >= 4 {
      PadQuanta(r[4..]);
      assert p[4..] == r[4..] + Pads(|r[4..]|) && p[..4] == r[..4];
      FullQuantum(p, true);
      FullQuantum(r, false);
    } else if |r| == 2 {
      PadTwo(r);
    } else if |r| == 3 {
      PadThree(r);
    }
  }

  /** Padded decoding insists on its padding, raw decoding on its absence. */
  lemma {:induction false} PadsMatter(r: string)
    requires '=' !in r && Pads(|r|) != ""
    ensures Base64.DecodeQuanta(r, true, true).None?
    ensures Base64.DecodeQuanta(r + Pads(|r|), true, false).None?
    decreases |r|
  {
    var p := r + Pads(|r|);
    if |r| >= 4 {
      PadsMatter(r[4..]);
      assert p[4..] == r[4..] + Pads(|r[4..]|) && p[..4] == r[..4];
      FullQuantum(r, true);
      FullQuantum(p, false);
    } else if |r| == 2 {
      PadTwo(r);
    } else {
      PadThree(r);
    }
  }

  lemma PadTwo(r: string)
    requires '=' !in r && |r| == 2
    ensures Base64.DecodeQuanta(r + "==", true, true) == Base64.DecodeQuanta(r, true, false)
    ensures Base64.DecodeQuanta(r, true, true).None?
    ensures Base64.DecodeQuanta(r + "==", true, false).None?
  {
    var p := r + "==";
    assert p[0] == r[0] && p[1] == r[1] && p[2] == '=' && p[2..] == "==";
  }

  lemma PadThree(r: string)
    requires '=' !in r && |r| == 3
    ensures Base64.DecodeQuanta(r + "=", true, true) == Base64.DecodeQuanta(r, true, false)
    ensures Base64.DecodeQuanta(r, true, true).None?
    ensures Base64.DecodeQuanta(r + "=", true, false).None?
  {
    var p := r + "=";
    assert p[0] == r[0] && p[1] == r[1] && p[2] == r[2] && p[3] == '=' && p[3..] == "=";
    assert p[2..][0] == r[2] != '=' && r[2..][0] == r[2];
  }

  lemma {:induction false} StripConcat(a: string, b: string)
    ensures Base64.StripNewlines(a + b) == Base64.StripNewlines(a) + Base64.StripNewlines(b)
  {
    if a == [] {
      assert a + b == b;
    } else {
      assert (a + b)[1..] == a[1..] + b;
      StripConcat(a[1..], b);
    }
  }

  lemma StripKeepsOut(s: string, c: char)
    requires c !in s
    ensures c !in Base64.StripNewlines(s)
  {
  }

  lemma PaddingDecodes(raw: string)
    requires '=' !in raw
    ensures DecodeB64URL(raw + Pads(|Base64.StripNewlines(raw)|)) == DecodeB64URL(raw)
  {
    var r := Base64.StripNewlines(raw);
    var pads := Pads(|r|);
    StripKeepsOut(raw, '=');
    StripConcat(raw, pads);
    Base64.StripNone(pads);
    PadQuanta(r);
    if pads == "" {
      assert raw + pads == raw;
    } else {
      PadsMatter(r);
    }
  }

  /** The padded and the raw form of a cookie verify alike, whatever the characters are. */
  lemma PaddingIrrelevant(mac: Mac, secret: seq<Byte>, raw: string, now: int)
    requires '=' !in raw && raw != []
    ensures Verify(mac, secret, raw + Pads(|Base64.StripNewlines(raw)|), now) == Verify(mac, secret, raw, now)
  {
    PaddingDecodes(raw);
  }
}
