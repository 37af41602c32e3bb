/**
 The signer: the signature base string, the signing key, and the
 percent-encoded Base64 HMAC-SHA1 digest, as in sections 3.4.1.1, 3.4.2
 and 3.6 of RFC 5849.

 HMAC-SHA1 and Base64 come from a library; they are passed in as the
 fields of a `Crypto` value and nothing is assumed about them except, where
 a lemma says so, that Base64 text uses the Base64 alphabet.
 */
module Signature {
  import opened Text
  import opened Wrappers
  import opened PercentEncoding
  import opened Normalizer

  /** The two primitives of `crypto-js` the signer calls. */
  datatype Crypto = Crypto(
    hmacSha1: (Bytes, Bytes) -> Bytes,  // digest of a message under a key
    base64: Bytes -> Bytes              // Base64 text of a digest
  )

  predicate IsLower(b: byte)
  {
    0x61 <= b <= 0x7A
  }

  function UpperByte(b: byte): byte
  {
    if IsLower(b) then b - 0x20 else b
  }

  /** Upper-casing of ASCII letters. */
  function UpperCase(s: Bytes): Bytes
  {
    if s == [] then [] else [UpperByte(s[0])] + UpperCase(s[1..])
  }

  /**
   Upper-casing leaves no lower-case letter, changes nothing else than
   lower-case letters, and so is idempotent and keeps every `&` where it was.
   */
  lemma {:induction false} UpperCaseSpec(s: Bytes)
    ensures |UpperCase(s)| == |s|
    ensures forall i :: 0 <= i < |s| ==> !IsLower(UpperCase(s)[i])
    ensures forall i :: 0 <= i < |s| && !IsLower(s[i]) ==> UpperCase(s)[i] == s[i]
    ensures forall i :: 0 <= i < |s| && IsLower(s[i]) ==> UpperCase(s)[i] == s[i] - 0x20
    ensures UpperCase(UpperCase(s)) == UpperCase(s)
    ensures AMP in s <==> AMP in UpperCase(s)
    decreases |s|
  {
    if s != [] {
      UpperCaseSpec(s[1..]);
      var u := UpperCase(s);
      assert u[1..] == UpperCase(s[1..]);
      assert UpperCase(u) == [UpperByte(u[0])] + UpperCase(u[1..]);
      assert s == [s[0]] + s[1..];
    }
  }

  /** The signature base string: upper-case method, encoded URL and encoded parameter string, joined by `&`. */
  function BaseString(httpMethod: Bytes, url: Bytes, params: Bytes): Bytes
  {
    UpperCase(httpMethod) + [AMP] + Encode(url) + [AMP] + Encode(params)
  }

  lemma JoinThree(a: Bytes, b: Bytes, c: Bytes, sep: byte)
    ensures Join([a, b, c], sep) == a + [sep] + b + [sep] + c
  {
    assert [a, b, c][1..] == [b, c];
    assert [b, c][1..] == [c];
    assert Join([b, c], sep) == b + [sep] + c;
  }

  /**
   When the method holds no `&`, splitting the base string at `&` gives back
   exactly the upper-cased method, the encoded URL and the encoded parameter
   string.
   */
  lemma BaseStringSplit(httpMethod: Bytes, url: Bytes, params: Bytes)
    requires AMP !in httpMethod
    ensures Split(BaseString(httpMethod, url, params), AMP) == [UpperCase(httpMethod), Encode(url), Encode(params)]
  {
    UpperCaseSpec(httpMethod);
    EncodeHasNoSeparators(url);
    EncodeHasNoSeparators(params);
    JoinThree(UpperCase(httpMethod), Encode(url), Encode(params), AMP);
    SplitJoin([UpperCase(httpMethod), Encode(url), Encode(params)], AMP);
  }

  /** Hence, for `&`-free methods, the base string determines URL and parameter string. */
  lemma BaseStringInjective(m1: Bytes, u1: Bytes, p1: Bytes, m2: Bytes, u2: Bytes, p2: Bytes)
    requires AMP !in m1 && AMP !in m2
    requires BaseString(m1, u1, p1) == BaseString(m2, u2, p2)
    ensures UpperCase(m1) == UpperCase(m2) && u1 == u2 && p1 == p2
  {
    BaseStringSplit(m1, u1, p1);
    BaseStringSplit(m2, u2, p2);
    EncodeInjective(u1, u2);
    EncodeInjective(p1, p2);
  }

  /** The signing key: both encoded secrets, joined by `&`. */
  function SigningKey(consumerSecret: Bytes, tokenSecret: Bytes): Bytes
  {
    Encode(consumerSecret) + [AMP] + Encode(tokenSecret)
  }

  /**
   The signing key holds exactly one `&`; splitting there recovers both
   encoded secrets, and an empty secret leaves the `&` first or last.
   */
  lemma SigningKeyStructure(consumerSecret: Bytes, tokenSecret: Bytes)
    ensures Count(SigningKey(consumerSecret, tokenSecret), AMP) == 1
    ensures Split(SigningKey(consumerSecret, tokenSecret), AMP) == [Encode(consumerSecret), Encode(tokenSecret)]
    ensures consumerSecret == [] ==> SigningKey(consumerSecret, tokenSecret)[0] == AMP
    ensures tokenSecret == [] ==>
              var key := SigningKey(consumerSecret, tokenSecret);
              key[|key| - 1] == AMP
  {
    var parts := [Encode(consumerSecret), Encode(tokenSecret)];
    EncodeHasNoSeparators(consumerSecret);
    EncodeHasNoSeparators(tokenSecret);
    assert Join(parts, AMP) == SigningKey(consumerSecret, tokenSecret) by {
      assert parts[1..] == [Encode(tokenSecret)];
    }
    SplitJoin(parts, AMP);
    CountJoin(parts, AMP);
  }

  /** Different pairs of secrets give different signing keys. */
  lemma SigningKeyInjective(cs1: Bytes, ts1: Bytes, cs2: Bytes, ts2: Bytes)
    requires SigningKey(cs1, ts1) == SigningKey(cs2, ts2)
    ensures cs1 == cs2 && ts1 == ts2
  {
    SigningKeyStructure(cs1, ts1);
    SigningKeyStructure(cs2, ts2);
    EncodeInjective(cs1, cs2);
    EncodeInjective(ts1, ts2);
  }

  /** The secrets `secret1` and `secret2` give the signing key `secret1&secret2`. */
  lemma SigningKeyExample()
    ensures var secret1: Bytes := [0x73, 0x65, 0x63, 0x72, 0x65, 0x74, 0x31];
            var secret2: Bytes := [0x73, 0x65, 0x63, 0x72, 0x65, 0x74, 0x32];
            SigningKey(secret1, secret2) == secret1 + [AMP] + secret2
  {
    var secret1: Bytes := [0x73, 0x65, 0x63, 0x72, 0x65, 0x74, 0x31];
    var secret2: Bytes := [0x73, 0x65, 0x63, 0x72, 0x65, 0x74, 0x32];
    assert forall i :: 0 <= i < |secret1| ==> IsAlpha(secret1[i]) || IsDigit(secret1[i]);
    assert forall i :: 0 <= i < |secret2| ==> IsAlpha(secret2[i]) || IsDigit(secret2[i]);
    EncodeFixedPoints(secret1);
    EncodeFixedPoints(secret2);
  }

  /** The Base64 text of the HMAC-SHA1 digest of the base string under the signing key. */
  function Digest(crypto: Crypto, consumerSecret: Bytes, tokenSecret: Bytes,
                  httpMethod: Bytes, url: Bytes, params: Bytes): Bytes
  {
    crypto.base64(crypto.hmacSha1(BaseString(httpMethod, url, params), SigningKey(consumerSecret, tokenSecret)))
  }

  /**
   The signature, over the intended parameter string: the percent-encoded
   Base64 digest. It never holds a raw `+`, `/` or `=`, and percent-decoding
   it gives back the Base64 digest text.
   */
  function Sign(crypto: Crypto, consumerSecret: Bytes, tokenSecret: Bytes,
                httpMethod: Bytes, url: Bytes, keys: Params, order: seq<Bytes>): (r: Bytes)
    requires Enumerates(order, keys)
    ensures forall i :: 0 <= i < |r| ==> IsUnreserved(r[i]) || r[i] == PERCENT
    ensures PLUS !in r && SLASH !in r && EQ !in r
    ensures Decode(r) == Some(Digest(crypto, consumerSecret, tokenSecret, httpMethod, url, ParamString(keys, order)))
  {
    var digest := Digest(crypto, consumerSecret, tokenSecret, httpMethod, url, ParamString(keys, order));
    DecodeEncode(digest);
    EncodeHasNoSeparators(digest);
    Encode(digest)
  }

  predicate IsBase64Char(b: byte)
  {
    IsAlpha(b) || IsDigit(b) || b == PLUS || b == SLASH || b == EQ
  }

  /** Reference: the Base64 text with `+`, `/` and `=` written as `%2B`, `%2F` and `%3D`. */
  function EscapeBase64(t: Bytes): Bytes
  {
    if t == [] then []
    else
      (if t[0] == PLUS then [PERCENT, 0x32, 0x42]
       else if t[0] == SLASH then [PERCENT, 0x32, 0x46]
       else if t[0] == EQ then [PERCENT, 0x33, 0x44]
       else [t[0]])
      + EscapeBase64(t[1..])
  }

  /** On Base64 text the encoder changes only `+`, `/` and `=`, into `%2B`, `%2F` and `%3D`. */
  lemma {:induction false} EncodeBase64Text(t: Bytes)
    requires forall i :: 0 <= i < |t| ==> IsBase64Char(t[i])
    ensures Encode(t) == EscapeBase64(t)
    decreases |t|
  {
    if t != [] {
      EncodeBase64Text(t[1..]);
    }
  }

  /** With a Base64 encoder that keeps to its alphabet, the signature is exactly the escaped Base64 digest. */
  lemma SignatureOfBase64(crypto: Crypto, consumerSecret: Bytes, tokenSecret: Bytes,
                          httpMethod: Bytes, url: Bytes, keys: Params, order: seq<Bytes>)
    requires Enumerates(order, keys)
    requires forall d: Bytes, i :: 0 <= i < |crypto.base64(d)| ==> IsBase64Char(crypto.base64(d)[i])
    ensures Sign(crypto, consumerSecret, tokenSecret, httpMethod, url, keys, order)
         == EscapeBase64(Digest(crypto, consumerSecret, tokenSecret, httpMethod, url, ParamString(keys, order)))
  {
    EncodeBase64Text(Digest(crypto, consumerSecret, tokenSecret, httpMethod, url, ParamString(keys, order)));
  }

  /** The signature does not depend on the order in which the parameters are visited. */
  lemma SignOrderIndependent(crypto: Crypto, consumerSecret: Bytes, tokenSecret: Bytes,
                             httpMethod: Bytes, url: Bytes, keys: Params, order1: seq<Bytes>, order2: seq<Bytes>)
    requires Enumerates(order1, keys) && Enumerates(order2, keys)
    ensures Sign(crypto, consumerSecret, tokenSecret, httpMethod, url, keys, order1)
         == Sign(crypto, consumerSecret, tokenSecret, httpMethod, url, keys, order2)
  {
    ParamStringOrderIndependent(keys, order1, order2);
  }

  /** The method is case-insensitive: signing with `m` is signing with its upper-case form. */
  lemma SignMethodCaseInsensitive(crypto: Crypto, consumerSecret: Bytes, tokenSecret: Bytes,
                                  httpMethod: Bytes, url: Bytes, keys: Params, order: seq<Bytes>)
    requires Enumerates(order, keys)
    ensures Sign(crypto, consumerSecret, tokenSecret, httpMethod, url, keys, order)
         == Sign(crypto, consumerSecret, tokenSecret, UpperCase(httpMethod), url, keys, order)
  {
    UpperCaseSpec(httpMethod);
  }

  /** The methods `post` and `POST` give the same base string. */
  lemma PostIsPOST(url: Bytes, params: Bytes)
    ensures BaseString([0x70, 0x6F, 0x73, 0x74], url, params) == BaseString([0x50, 0x4F, 0x53, 0x54], url, params)
  {
    var lower: Bytes := [0x70, 0x6F, 0x73, 0x74];
    var upper: Bytes := [0x50, 0x4F, 0x53, 0x54];
    UpperCaseSpec(lower);
    UpperCaseSpec(upper);
    assert UpperCase(lower) == upper;
  }

  /**
   The signature as the code computes it, over the parameter string as
   written: the signature of the parameters other than `__proto__`.
   */
  function SignAsWritten(crypto: Crypto, consumerSecret: Bytes, tokenSecret: Bytes,
                         httpMethod: Bytes, url: Bytes, keys: Params, order: seq<Bytes>): (r: Bytes)
    requires Enumerates(order, keys)
    ensures Enumerates(WithoutProto(order), keys - {PROTO})
    ensures r == Sign(crypto, consumerSecret, tokenSecret, httpMethod, url, keys - {PROTO}, WithoutProto(order))
  {
    var params := ParamStringAsWritten(keys, order);
    Encode(Digest(crypto, consumerSecret, tokenSecret, httpMethod, url, params))
  }

  /** Without a parameter named `__proto__`, the code computes the intended signature. */
  lemma SignAsWrittenAgrees(crypto: Crypto, consumerSecret: Bytes, tokenSecret: Bytes,
                            httpMethod: Bytes, url: Bytes, keys: Params, order: seq<Bytes>)
    requires Enumerates(order, keys) && PROTO !in keys
    ensures SignAsWritten(crypto, consumerSecret, tokenSecret, httpMethod, url, keys, order)
         == Sign(crypto, consumerSecret, tokenSecret, httpMethod, url, keys, order)
  {
    ParamStringAsWrittenAgrees(keys, order);
  }

  /** As written, the signature does not depend on the visiting order either. */
  lemma SignAsWrittenOrderIndependent(crypto: Crypto, consumerSecret: Bytes, tokenSecret: Bytes,
                                      httpMethod: Bytes, url: Bytes, keys: Params, order1: seq<Bytes>, order2: seq<Bytes>)
    requires Enumerates(order1, keys) && Enumerates(order2, keys)
    ensures SignAsWritten(crypto, consumerSecret, tokenSecret, httpMethod, url, keys, order1)
         == SignAsWritten(crypto, consumerSecret, tokenSecret, httpMethod, url, keys, order2)
  {
    ParamStringAsWrittenOrderIndependent(keys, order1, order2);
  }

  /**
   For the parameters `{"__proto__": "x"}` the code signs exactly what it
   signs for no parameters at all.
   */
  lemma SignDropsProto(crypto: Crypto, consumerSecret: Bytes, tokenSecret: Bytes, httpMethod: Bytes, url: Bytes)
    ensures Enumerates([PROTO], map[PROTO := [0x78]]) && Enumerates([], map[])
    ensures SignAsWritten(crypto, consumerSecret, tokenSecret, httpMethod, url, map[PROTO := [0x78]], [PROTO])
         == Sign(crypto, consumerSecret, tokenSecret, httpMethod, url, map[], [])
  {
    var keys := map[PROTO := [0x78]];
    assert Enumerates([PROTO], keys);
    assert keys - {PROTO} == map[];
    assert WithoutProto([PROTO]) == [] by {
      assert [PROTO][..0] == [];
    }
  }
}
