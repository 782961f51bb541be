/** The envelope that keeps a group's private key at rest under the root master key (kekwrap.go).

    HKDF and the AEAD are parameters.  `Ideal` is the usual idealisation: decryption undoes
    encryption, nothing else opens, and a ciphertext commits to its key and additional data.
 */
module KekWrap {
  import opened Wrappers
  import opened GoStrings
  import Base64
  import Decimal

  type Bytes = seq<Byte>

  datatype Crypto = Crypto(
    hkdf: (Bytes, Bytes, Bytes) -> Bytes,
    seal: (Bytes, Bytes, Bytes, Bytes) -> Bytes,
    open: (Bytes, Bytes, Bytes, Bytes) -> Option<Bytes>)

  const KEK_WRAP_LABEL: Bytes := ['a', 'b', 'c', '-', 'k', 'e', 'k', '-', 'w', 'r', 'a', 'p', '-', 'v', '1']
  const MK_LEN := 32
  const WRAP_SALT_LEN := 16
  const NONCE_LEN := 12

  ghost predicate Ideal(c: Crypto) {
    && (forall k, n, p, a :: c.open(k, n, c.seal(k, n, p, a), a) == Some(p) && c.seal(k, n, p, a) != [])
    && (forall k, n, ct, a :: c.open(k, n, ct, a).Some? ==> ct == c.seal(k, n, c.open(k, n, ct, a).value, a))
    && (forall k, n, p, a, k', p', a' :: c.seal(k, n, p, a) == c.seal(k', n, p', a') ==> k == k' && a == a')
    && (forall mk, mk', s, i :: c.hkdf(mk, s, i) == c.hkdf(mk', s, i) ==> mk == mk')
  }

  function Itoa(n: int): (r: Bytes)
    ensures r == Decimal.Print(n) && '|' !in r
  {
    Decimal.Print(n)
  }

  /** kekWrapAAD: both the HKDF info and the additional data. */
  function Aad(kekID: Bytes, version: int): Bytes {
    KEK_WRAP_LABEL + ['|'] + kekID + ['|'] + Itoa(version)
  }

  /** Domain separation is injective, even for ids that contain the separator. */
  lemma AadInjective(id: Bytes, v: int, id': Bytes, v': int)
    requires Aad(id, v) == Aad(id', v')
    ensures id == id' && v == v'
  {
    var p, p' := KEK_WRAP_LABEL + ['|'] + id, KEK_WRAP_LABEL + ['|'] + id';
    LastIndexSplits(p, '|', Itoa(v));
    LastIndexSplits(p', '|', Itoa(v'));
    var s := Aad(id, v);
    assert s == p + ['|'] + Itoa(v) == p' + ['|'] + Itoa(v');
    assert |p| == |p'|;
    assert s[..|p|] == p && s[..|p'|] == p' && s[|p| + 1..] == Itoa(v) && s[|p| + 1..] == Itoa(v');
    assert p[|KEK_WRAP_LABEL| + 1..] == id && p'[|KEK_WRAP_LABEL| + 1..] == id';
    Decimal.PrintInjective(v, v');
  }

  /** salt || nonce || ciphertext. */
  function Blob(c: Crypto, mk: Bytes, kekID: Bytes, version: int, kek: Bytes, salt: Bytes, nonce: Bytes): Bytes {
    var aad := Aad(kekID, version);
    salt + nonce + c.seal(c.hkdf(mk, salt, aad), nonce, kek, aad)
  }

  /** wrapKEK; salt and nonce come from the random source. */
  function WrapKEK(c: Crypto, mk: Bytes, kekID: Bytes, version: int, kek: Bytes, salt: Bytes, nonce: Bytes): Result<string>
    requires |salt| == WRAP_SALT_LEN && |nonce| == NONCE_LEN
  {
    if |mk| != MK_LEN || kek == [] then Err
    else Ok(Base64.Encode(Blob(c, mk, kekID, version, kek, salt, nonce), false, true))
  }

  /** unwrapKEK. */
  function UnwrapKEK(c: Crypto, mk: Bytes, kekID: Bytes, version: int, wrapped: string): Result<Bytes> {
    if |mk| != MK_LEN then Err
    else
      match Base64.Decode(wrapped, false, true)
      case None => Err
      case Some(blob) => OpenBlob(c, mk, Aad(kekID, version), blob)
  }

  function OpenBlob(c: Crypto, mk: Bytes, aad: Bytes, blob: Bytes): Result<Bytes> {
    if |blob| < WRAP_SALT_LEN then Err
    else
      var salt, rest := blob[..WRAP_SALT_LEN], blob[WRAP_SALT_LEN..];
      var wrapKey := c.hkdf(mk, salt, aad);
      if |rest| < NONCE_LEN + 1 then Err
      else
        match c.open(wrapKey, rest[..NONCE_LEN], rest[NONCE_LEN..], aad)
        case None => Err
        case Some(kek) => Ok(kek)
  }

  /** Opening a laid-out blob under any key and any additional data: only the sealing pair works. */
  lemma OpenLaidOut(c: Crypto, mk: Bytes, aad: Bytes, mk': Bytes, aad': Bytes, kek: Bytes, salt: Bytes, nonce: Bytes)
    requires Ideal(c) && |salt| == WRAP_SALT_LEN && |nonce| == NONCE_LEN
    ensures OpenBlob(c, mk', aad', salt + nonce + c.seal(c.hkdf(mk, salt, aad), nonce, kek, aad)) ==
            if mk == mk' && aad == aad' then Ok(kek) else Err
  {
    var ct := c.seal(c.hkdf(mk, salt, aad), nonce, kek, aad);
    var blob := salt + nonce + ct;
    assert blob[..WRAP_SALT_LEN] == salt;
    assert blob[WRAP_SALT_LEN..] == nonce + ct;
    assert (nonce + ct)[..NONCE_LEN] == nonce && (nonce + ct)[NONCE_LEN..] == ct;
    var o := c.open(c.hkdf(mk', salt, aad'), nonce, ct, aad');
    if o.Some? {
      assert ct == c.seal(c.hkdf(mk', salt, aad'), nonce, o.value, aad');
    }
  }

  /** Round trip and binding in one: a wrap opens to its secret under the same master key, id and
      version, and under no other. */
  lemma WrapBinds(c: Crypto, mk: Bytes, id: Bytes, version: int, kek: Bytes, salt: Bytes, nonce: Bytes,
                  mk': Bytes, id': Bytes, version': int)
    requires Ideal(c) && |mk| == MK_LEN && kek != []
    requires |salt| == WRAP_SALT_LEN && |nonce| == NONCE_LEN
    ensures WrapKEK(c, mk, id, version, kek, salt, nonce).Ok? && WrapKEK(c, mk, id, version, kek, salt, nonce).value != ""
    ensures UnwrapKEK(c, mk', id', version', WrapKEK(c, mk, id, version, kek, salt, nonce).value) ==
            if mk' == mk && id' == id && version' == version then Ok(kek) else Err
  {
    Base64.RoundTrip(Blob(c, mk, id, version, kek, salt, nonce), false, true);
    OpenLaidOut(c, mk, Aad(id, version), mk', Aad(id', version'), kek, salt, nonce);
    if Aad(id, version) == Aad(id', version') {
      AadInjective(id, version, id', version');
    }
  }

  /** What is stored, byte by byte: 16 bytes of salt, 12 of nonce, and the secret sealed under a key
      derived with the label, id and version that are also its additional data. */
  lemma WrapLayout(c: Crypto, mk: Bytes, id: Bytes, version: int, kek: Bytes, salt: Bytes, nonce: Bytes)
    requires |salt| == 16 && |nonce| == 12
    ensures var w := WrapKEK(c, mk, id, version, kek, salt, nonce);
            var aad := "abc-kek-wrap-v1|" + id + "|" + Decimal.Print(version);
            (w.Ok? <==> |mk| == 32 && kek != []) &&
            (w.Ok? ==> Aad(id, version) == aad &&
                       Base64.Decode(w.value, false, true) ==
                       Some(salt + nonce + c.seal(c.hkdf(mk, salt, Aad(id, version)), nonce, kek, Aad(id, version))))
  {
    Base64.RoundTrip(Blob(c, mk, id, version, kek, salt, nonce), false, true);
  }

  ghost predicate LaidOut(c: Crypto, mk: Bytes, id: Bytes, version: int, kek: Bytes, blob: Bytes, salt: Bytes, nonce: Bytes) {
    |salt| == WRAP_SALT_LEN && |nonce| == NONCE_LEN && blob == Blob(c, mk, id, version, kek, salt, nonce)
  }

  /** Exact acceptance: unwrapKEK releases a secret precisely when the stored text is base64 of a
      blob sealing that secret for that id and version; anything tampered with fails closed. */
  lemma UnwrapExact(c: Crypto, mk: Bytes, id: Bytes, version: int, wrapped: string, kek: Bytes)
    requires Ideal(c)
    ensures UnwrapKEK(c, mk, id, version, wrapped) == Ok(kek) <==>
            |mk| == MK_LEN && Base64.Decode(wrapped, false, true).Some? &&
            exists salt, nonce :: LaidOut(c, mk, id, version, kek, Base64.Decode(wrapped, false, true).value, salt, nonce)
  {
    if |mk| == MK_LEN && Base64.Decode(wrapped, false, true).Some? {
      var blob := Base64.Decode(wrapped, false, true).value;
      var aad := Aad(id, version);
      if salt, nonce :| LaidOut(c, mk, id, version, kek, blob, salt, nonce) {
        OpenLaidOut(c, mk, aad, mk, aad, kek, salt, nonce);
      }
      if OpenBlob(c, mk, aad, blob) == Ok(kek) {
        var salt, rest := blob[..WRAP_SALT_LEN], blob[WRAP_SALT_LEN..];
        var nonce, ct := rest[..NONCE_LEN], rest[NONCE_LEN..];
        assert blob == salt + nonce + ct;
        assert LaidOut(c, mk, id, version, kek, blob, salt, nonce);
      }
    }
  }

  /** A stored text opens under one id and version at most, whoever wrapped it. */
  lemma OpensOnce(c: Crypto, mk: Bytes, id: Bytes, version: int, id': Bytes, version': int, wrapped: string)
    requires Ideal(c)
    requires UnwrapKEK(c, mk, id, version, wrapped).Ok? && UnwrapKEK(c, mk, id', version', wrapped).Ok?
    ensures id == id' && version == version'
  {
    var kek := UnwrapKEK(c, mk, id, version, wrapped).value;
    UnwrapExact(c, mk, id, version, wrapped, kek);
    var blob := Base64.Decode(wrapped, false, true).value;
    var salt, nonce :| LaidOut(c, mk, id, version, kek, blob, salt, nonce);
    OpenLaidOut(c, mk, Aad(id, version), mk, Aad(id', version'), kek, salt, nonce);
    AadInjective(id, version, id', version');
  }

  // ---- The idealisation is satisfiable ----

  function Ones(n: nat): Bytes {
    if n == 0 then ['0'] else ['1'] + Ones(n - 1)
  }

  /** A prefix-free frame. */
  function Frame(x: Bytes): Bytes {
    Ones(|x|) + x
  }

  lemma {:induction false} OnesPrefixFree(m: nat, n: nat, x: Bytes, y: Bytes)
    requires Ones(m) + x == Ones(n) + y
    ensures m == n && x == y
  {
    var s := Ones(m) + x;
    assert s[0] == Ones(m)[0] && s[0] == Ones(n)[0];
    if m > 0 && n > 0 {
      assert s[1..] == Ones(m - 1) + x && s[1..] == Ones(n - 1) + y;
      OnesPrefixFree(m - 1, n - 1, x, y);
    } else {
      assert s[1..] == x && s[1..] == y;
    }
  }

  lemma FramePrefixFree(x: Bytes, y: Bytes, r: Bytes, r': Bytes)
    requires Frame(x) + r == Frame(y) + r'
    ensures x == y && r == r'
  {
    assert Frame(x) + r == Ones(|x|) + (x + r) && Frame(y) + r' == Ones(|y|) + (y + r');
    OnesPrefixFree(|x|, |y|, x + r, y + r');
    assert (x + r)[..|x|] == x && (y + r')[..|y|] == y;
    assert (x + r)[|x|..] == r && (y + r')[|y|..] == r';
  }

  function ToySeal(k: Bytes, n: Bytes, p: Bytes, a: Bytes): Bytes {
    Frame(k) + (Frame(a) + p)
  }

  function ToyOpen(k: Bytes, n: Bytes, ct: Bytes, a: Bytes): Option<Bytes> {
    var h := Frame(k) + Frame(a);
    if h <= ct then Some(ct[|h|..]) else None
  }

  function ToyKdf(mk: Bytes, salt: Bytes, info: Bytes): Bytes {
    mk
  }

  lemma ToyOpens(k: Bytes, n: Bytes, p: Bytes, a: Bytes)
    ensures ToyOpen(k, n, ToySeal(k, n, p, a), a) == Some(p) && ToySeal(k, n, p, a) != []
  {
    assert ToySeal(k, n, p, a) == Frame(k) + Frame(a) + p;
    assert Ones(|k|) != [];
  }

  lemma ToyOnly(k: Bytes, n: Bytes, ct: Bytes, a: Bytes)
    requires ToyOpen(k, n, ct, a).Some?
    ensures ct == ToySeal(k, n, ToyOpen(k, n, ct, a).value, a)
  {
    var h := Frame(k) + Frame(a);
    assert ct == h + ct[|h|..];
  }

  /** Some cryptography is ideal, so nothing here is proved from a contradiction. */
  lemma IdealExists() returns (c: Crypto)
    ensures Ideal(c)
  {
    c := Crypto(ToyKdf, ToySeal, ToyOpen);
    forall k, n, p, a
      ensures c.open(k, n, c.seal(k, n, p, a), a) == Some(p) && c.seal(k, n, p, a) != []
    {
      ToyOpens(k, n, p, a);
    }
    forall k, n, ct, a | c.open(k, n, ct, a).Some?
      ensures ct == c.seal(k, n, c.open(k, n, ct, a).value, a)
    {
      ToyOnly(k, n, ct, a);
    }
    forall k, n, p, a, k', p', a' | c.seal(k, n, p, a) == c.seal(k', n, p', a')
      ensures k == k' && a == a'
    {
      FramePrefixFree(k, k', Frame(a) + p, Frame(a') + p');
      FramePrefixFree(a, a', p, p');
    }
  }
}
