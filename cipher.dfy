/** The cryptographic collaborators of the article store. Their code (the classes
    EncryptionHelper and EncryptionUtils, and java.util.Base64) is not part of this
    model: the store receives them as a `Codec` value and relies only on the laws
    stated by `Lawful`. */
module Cipher {
  import opened Wrappers
  import opened Text

  type Byte = b: int | 0 <= b < 256
  type Octets = seq<Byte>

  /** deriveIV: `EncryptionUtils.getInitializationVector` (deterministic: a function).
      encrypt:  `encryptionHelper.encrypt(text.getBytes(), iv)`.
      decrypt:  `new String(encryptionHelper.decrypt(bytes, iv))`; None when it throws.
      encode:   `Base64.getEncoder().encodeToString`.
      decode:   `Base64.getDecoder().decode`; None when the text is not Base64. */
  datatype Codec = Codec(
    deriveIV: string -> Octets,
    encrypt: (string, Octets) -> Octets,
    decrypt: (Octets, Octets) -> Option<string>,
    encode: Octets -> string,
    decode: string -> Option<Octets>)

  /** What the store relies on: decryption under the same IV undoes encryption,
      Base64 decoding undoes encoding, and the Base64 alphabet of section 4 of
      RFC 4648 has no comma. Decryption under any other IV is left unconstrained:
      it may fail or return other text. */
  ghost predicate Lawful(c: Codec)
  {
    && (forall text, iv :: c.decrypt(c.encrypt(text, iv), iv) == Some(text))
    && (forall bytes :: c.decode(c.encode(bytes)) == Some(bytes))
    && (forall bytes :: CommaFree(c.encode(bytes)))
  }

  /** The stored form of an article body: Base64 of the body encrypted under the IV
      derived from `ivSource` (the authors, in `register` and `updateArticle`). */
  function EncryptBody(c: Codec, body: string, ivSource: string): (stored: string)
    ensures Lawful(c) ==> DecryptField(c, stored, ivSource) == Some(body)
    ensures Lawful(c) ==> CommaFree(stored)
  {
    c.encode(c.encrypt(body, c.deriveIV(ivSource)))
  }

  /** `Article.decryptField`: Base64-decode, then decrypt under the IV derived from
      `ivSource`. None stands for the exception either step throws. */
  function DecryptField(c: Codec, field: string, ivSource: string): (r: Option<string>)
    ensures c.decode(field).None? ==> r.None?
    ensures Lawful(c) ==> forall text :: field == c.encode(c.encrypt(text, c.deriveIV(ivSource))) ==> r == Some(text)
  {
    match c.decode(field)
    case None => None
    case Some(bytes) => c.decrypt(bytes, c.deriveIV(ivSource))
  }

  /** Two IV sources that derive the same IV open each other's ciphertexts. This is
      both the reuse risk of deriving the IV from metadata and the only way a body can
      be read back under a source other than the one it was sealed with. */
  lemma SameIVOpens(c: Codec, body: string, sealedWith: string, openedWith: string)
    requires Lawful(c)
    requires c.deriveIV(sealedWith) == c.deriveIV(openedWith)
    ensures DecryptField(c, EncryptBody(c, body, sealedWith), openedWith) == Some(body)
  {
  }

  // ---------------------------------------------------------------------------
  // A sample codec that satisfies the laws. It is no cipher: it only shows that the
  // laws can be met, and gives concrete values for what they leave open (decrypting
  // under a foreign IV fails here).
  // ---------------------------------------------------------------------------

  function CharOctets(ch: char): Octets
  {
    var n := ch as int;
    [n / 0x1_0000, n % 0x1_0000 / 0x100, n % 0x100]
  }

  function StringOctets(s: string): Octets
  {
    if s == [] then [] else CharOctets(s[0]) + StringOctets(s[1..])
  }

  predicate IsScalar(n: int)
  {
    0 <= n < 0xD800 || 0xE000 <= n < 0x11_0000
  }

  function OctetsString(b: Octets): Option<string>
    decreases |b|
  {
    if b == [] then Some([])
    else if |b| < 3 then None
    else
      var n := b[0] as int * 0x1_0000 + b[1] as int * 0x100 + b[2] as int;
      if !IsScalar(n) then None
      else
        match OctetsString(b[3..])
        case None => None
        case Some(rest) => Some([n as char] + rest)
  }

  lemma {:induction false} OctetsStringOfStringOctets(s: string)
    ensures OctetsString(StringOctets(s)) == Some(s)
  {
    if s != [] {
      var b := StringOctets(s);
      var n := s[0] as int;
      var hi, lo := n / 0x1_0000, n % 0x1_0000;
      assert n == hi * 0x1_0000 + lo;
      assert lo == lo / 0x100 * 0x100 + lo % 0x100;
      assert lo % 0x100 == n % 0x100;
      assert b[..3] == CharOctets(s[0]);
      assert b[0] as int * 0x1_0000 + b[1] as int * 0x100 + b[2] as int == n;
      assert b[3..] == StringOctets(s[1..]);
      assert IsScalar(n);
      assert n as char == s[0];
      OctetsStringOfStringOctets(s[1..]);
      assert [s[0]] + s[1..] == s;
    }
  }

  function SampleIV(source: string): Octets
  {
    [|source| % 256]
  }

  function SampleEncrypt(text: string, iv: Octets): Octets
  {
    iv + StringOctets(text)
  }

  function SampleDecrypt(bytes: Octets, iv: Octets): Option<string>
  {
    if |iv| <= |bytes| && bytes[..|iv|] == iv then OctetsString(bytes[|iv|..]) else None
  }

  function SampleEncode(bytes: Octets): string
  {
    seq(|bytes|, i requires 0 <= i < |bytes| => (bytes[i] as int + 65) as char)
  }

  function SampleDecode(text: string): Option<Octets>
  {
    if forall i | 0 <= i < |text| :: 65 <= text[i] as int < 321
    then Some(seq(|text|, i requires 0 <= i < |text| => text[i] as int - 65))
    else None
  }

  const SampleCodec: Codec :=
    Codec(SampleIV, SampleEncrypt, SampleDecrypt, SampleEncode, SampleDecode)

  lemma SampleCodecIsLawful()
    ensures Lawful(SampleCodec)
  {
    var c := SampleCodec;
    forall text, iv ensures c.decrypt(c.encrypt(text, iv), iv) == Some(text) {
      var bytes := iv + StringOctets(text);
      assert bytes[..|iv|] == iv;
      assert bytes[|iv|..] == StringOctets(text);
      OctetsStringOfStringOctets(text);
    }
    forall bytes ensures c.decode(c.encode(bytes)) == Some(bytes) {
      var text := SampleEncode(bytes);
      assert forall i | 0 <= i < |text| :: text[i] as int == bytes[i] as int + 65;
      var back := seq(|text|, i requires 0 <= i < |text| => text[i] as int - 65);
      assert back == bytes;
    }
    forall bytes ensures CommaFree(c.encode(bytes)) {
      var text := SampleEncode(bytes);
      assert forall i | 0 <= i < |text| :: text[i] as int >= 65;
    }
  }

  /** Under the sample codec a body sealed under one IV source does not open under a
      source of another length (modulo 256): the decryption throws. */
  lemma SampleForeignIVFails(body: string, sealedWith: string, openedWith: string)
    requires |sealedWith| % 256 != |openedWith| % 256
    ensures DecryptField(SampleCodec, EncryptBody(SampleCodec, body, sealedWith), openedWith) == None
  {
    var c := SampleCodec;
    SampleCodecIsLawful();
    var sealed := c.encrypt(body, c.deriveIV(sealedWith));
    assert c.decode(c.encode(sealed)) == Some(sealed);
    assert sealed[..1] == [|sealedWith| % 256];
  }
}
