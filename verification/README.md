# oauth-sha1-signature in Dafny

A model of `index.js` of oauth-sha1-signature. That file exports one function.
It computes the OAuth 1.0 HMAC-SHA1 signature of a request, as section 3.4 of RFC 5849 describes. It has five stages:

- **Percent encoder** `encode` (module `PercentEncoding`). It is `encodeURIComponent` followed by a `replace` that also escapes `! ' ( ) *`. Both stages are modelled on the UTF-8 bytes of the text. Their composition is proved equal to the per-byte encoding of sections 2.1 and 2.3 of RFC 3986. A strict decoder is its inverse.
- **Parameter normaliser** (module `Normalizer`, using `LexOrder` for `Array.prototype.sort`). Every name and value is encoded into a fresh map, and the encoded names are sorted. A `reduce` with an index test then joins the pairs `name=value` with `&`.
- **Base string**: `METHOD&encode(url)&encode(paramString)`.
- **Signing key**: `encode(consumerSecret)&encode(tokenSecret)`.
- **Output**: the percent-encoded Base64 text of the HMAC-SHA1 digest.

The last three stages are in module `Signature`. Modules `Text` and `Wrappers` hold the shared vocabulary:
- bytes and separator constants;
- `Join` and `Split`, the latter with the semantics of JavaScript's `split`;
- `Option`.

Strings are byte sequences (`seq<byte>`). For a well-formed JavaScript string, `encodeURIComponent` works byte by byte on its UTF-8 encoding. It keeps ALPHA, DIGIT and `-_.!~*'()` and escapes every other byte, so this loses nothing for such strings.

The parameter set is a `map<Bytes, Bytes>`. `_.forEach` visits the parameters in an order chosen by the runtime. The model takes that order as an argument `order`, constrained by `Normalizer.Enumerates`, and proves that the result does not depend on it.

`Object.keys(encodedKeys)` is taken in insertion order. The sort that follows makes any other choice give the same result, because `LexOrder.SortedUnique` shows that a strictly sorted arrangement is unique.

HMAC-SHA1 and Base64 (`crypto-js`) are the two function fields of `Signature.Crypto`, passed in by the caller.

One might expect two raw names to encode to the same text, with the later write at index.js:51 winning. `encode` is injective (`PercentEncoding.EncodeInjective`), so that write never replaces another parameter's value (`Normalizer.EncodeParamsFaithful`).

The write at index.js:51 goes into a plain object (index.js:45). For the one name `__proto__`, which `encode` leaves unchanged, that write calls the inherited prototype setter. The setter ignores a string, so the parameter silently drops out of the signed string. This is logged under "## Findings". The code as written is modelled by:
- `Normalizer.EncodeParamsAsWritten`, `Normalizer.InsertionOrderAsWritten` and `Normalizer.ParamStringAsWritten`;
- `Signature.SignAsWritten`.

The intended normaliser (`Normalizer.EncodeParams`, `Normalizer.ParamString`) signs every parameter. `Signature.Sign` and the lemmas about the intended normaliser use it. The as-written functions are proved equal to the intended ones applied to the parameters other than `__proto__`. They are identical when no parameter has that name.

Functions that only compute carry no contract of their own. The lemma in the row that names them characterises them:
- `EncodeParams`, `InsertionOrder`, `Reduce` and `Pairs` in `Normalizer`;
- `UpperCase`, `BaseString`, `SigningKey` and `Digest` in `Signature`.

## Model

| member | source | states |
|---|---|---|
| PercentEncoding.Encode | index.js:23-27 | every output byte is unreserved or `%`, and every `%` opens an escape of two upper-case hex digits |
| PercentEncoding.EncodeUriComponent | index.js:24 | the `encodeURIComponent` stage outputs only unreserved bytes, the five marks `!'()*` and `%`, and leaves text made of unreserved bytes and marks unchanged |
| PercentEncoding.EscapeMarks | index.js:24-26 | the `replace` stage leaves none of the marks `!'()*` and leaves text without marks unchanged |
| PercentEncoding.EncodeMatchesIndexJs | index.js:23-27 | `encodeURIComponent` followed by the `!'()*` replacement with `toString(16).toUpperCase()` equals RFC 3986 per-byte percent-encoding |
| PercentEncoding.EncodeMarks | index.js:24-26 | `!`, `'`, `(`, `)`, `*` become `%21`, `%27`, `%28`, `%29`, `%2A`; every unreserved character maps to itself |
| PercentEncoding.EncodeCanonical | index.js:23-27 | every encoding is canonical: escapes use upper-case hex and never stand for an unreserved byte |
| PercentEncoding.DecodeDefinedIffCanonical | index.js:23-27 | the strict decoder accepts a text exactly when it is canonical |
| PercentEncoding.DecodeEncode | index.js:23-27 | decoding an encoding gives back the original bytes |
| PercentEncoding.EncodeDecode | index.js:23-27 | any text that decodes to `s` is the encoding of `s`, so the encodings are exactly the canonical texts |
| PercentEncoding.EncodeInjective | index.js:48-52 | distinct texts have distinct encodings, so two parameter names never collide in `encodedKeys` |
| PercentEncoding.EncodeConcat | index.js:23-27 | encoding distributes over concatenation |
| PercentEncoding.EncodeLength | index.js:23-27 | an encoding is never shorter than its input, and is equally long only when every input byte is unreserved |
| PercentEncoding.EncodeFixedPoints | index.js:23-27 | `encode(s) == s` exactly when every byte of `s` is unreserved |
| PercentEncoding.EncodeHasNoSeparators | index.js:23-27 | an encoding never holds `&`, `=`, `+` or `/` |
| LexOrder.LessTotal | index.js:60 | the default sort order is total on distinct texts |
| LexOrder.LessTransitive | index.js:60 | the default sort order is transitive |
| LexOrder.Sort | index.js:60 | the sorted names are strictly ascending and a permutation of the input names |
| LexOrder.SortedUnique | index.js:60 | two strictly ascending sequences with the same members are equal, so the sort result depends only on the set of names |
| Normalizer.EncodesToProtoIff | index.js:49-51 | `__proto__` is the encoding of itself and of no other name |
| Normalizer.EncodeParamsAsWrittenSkipsProto | index.js:45-52 | the loop as written, `EncodeParamsAsWritten`, builds the intended encoded map of the parameters other than `__proto__` |
| Normalizer.EncodeParamsAsWrittenFaithful | index.js:45-52 | as written, the encoded map holds each parameter other than `__proto__` under its encoded name with its encoded value, one entry each, and has no `__proto__` entry |
| Normalizer.InsertionOrderAsWrittenSkipsProto | index.js:59 | `Object.keys(encodedKeys)` as written, `InsertionOrderAsWritten`, is the intended name list of the parameters other than `__proto__` |
| Normalizer.ParamStringAsWritten | index.js:45-68 | the parameter string as written is the intended parameter string of the parameters other than `__proto__` |
| Normalizer.ParamStringAsWrittenEmpty | index.js:45-68 | as written, the parameter string is empty exactly when no parameter other than `__proto__` is given |
| Normalizer.ParamStringAsWrittenPieces | index.js:45-68 | as written, the parameter string holds one pair per parameter other than `__proto__`, with one `&` fewer |
| Normalizer.ParamStringAsWrittenAgrees | index.js:45-68 | without a parameter named `__proto__`, the parameter string as written is the intended one |
| Normalizer.ParamStringAsWrittenOrderIndependent | index.js:45-68 | as written, the parameter string does not depend on the order `_.forEach` visits the parameters |
| Normalizer.ProtoParameterDropped | index.js:45-68 | for `{"__proto__": "x"}` the parameter string as written is empty, while the intended one is not |
| Normalizer.EncodeParamsVisited | index.js:48-52 | intended normaliser: after visiting any names, each visited name `k` has the entry `encode(k)` with value `encode(keys[k])`, and every entry comes from a visited name |
| Normalizer.EncodeParamsFaithful | index.js:45-52 | intended normaliser: for every visiting order, `EncodeParams` gives the encoded parameter set, one entry per input parameter |
| Normalizer.EncodedParamsUnique | index.js:45-52 | the encoded parameter set of a map is unique |
| Normalizer.InsertionOrderDistinct | index.js:59 | the name list `InsertionOrder` lists no name twice |
| Normalizer.InsertionOrderCovers | index.js:59 | intended normaliser: `InsertionOrder` lists exactly the names of the encoded map, one per parameter |
| Normalizer.SortedNames | index.js:59-60 | intended normaliser: the sorted key list is strictly ascending, has exactly the names of the encoded map, and has one entry per parameter |
| Normalizer.ReduceIsJoin | index.js:61-68 | `Reduce`, with its `i < length - 1` test, is the `&`-join of `Pairs`, with no leading or trailing `&` |
| Normalizer.ParamString | index.js:59-68 | intended normaliser: the parameter string is the `&`-join of `name=value` over the sorted encoded names |
| Normalizer.ParamStringEmpty | index.js:59-68 | intended normaliser: the parameter string is empty exactly when there are no parameters |
| Normalizer.PairOfEncoded | index.js:65-67 | a pair holds no `&`, and splitting it at `=` gives back the encoded name and the encoded value |
| Normalizer.ParamStringPieces | index.js:59-68 | intended normaliser: a non-empty parameter string splits at `&` into one pair per parameter, so it holds one `&` fewer than there are parameters |
| Normalizer.ParamStringPairs | index.js:59-68 | intended normaliser: piece `j` splits at `=` into the `j`-th name in ascending order and the encoded value of the parameter that name encodes |
| Normalizer.SortedNamesAreEncodedNames | index.js:48-60 | intended normaliser: the sorted names are exactly the encodings of the parameter names |
| Normalizer.EncodedValueOf | index.js:49-51 | the value recorded under `encode(k)` is `encode(keys[k])` |
| Normalizer.ParamStringOrderIndependent | index.js:48-60 | intended normaliser: the parameter string does not depend on the order `_.forEach` visits the parameters |
| Signature.UpperCaseSpec | index.js:37 | `UpperCase` keeps the length, leaves no lower-case ASCII letter, shifts exactly the lower-case letters, is idempotent, and keeps `&` out if it was out |
| Signature.BaseStringSplit | index.js:76-80 | for a method without `&`, `BaseString` splits at `&` into exactly the upper-case method, the encoded URL and the encoded parameter string |
| Signature.BaseStringInjective | index.js:76-80 | for methods without `&`, equal base strings mean the same upper-case method, URL and parameter string |
| Signature.SigningKeyStructure | index.js:94 | `SigningKey` holds exactly one `&`, splits there into both encoded secrets, and starts or ends with `&` when a secret is empty |
| Signature.SigningKeyInjective | index.js:94 | different pairs of secrets give different signing keys |
| Signature.SigningKeyExample | index.js:94 | the secrets `secret1` and `secret2` give the key `secret1&secret2` |
| Signature.Sign | index.js:98-102 | over the intended parameter string, the signature uses only unreserved bytes and `%`, holds no raw `+`, `/` or `=`, and percent-decodes to `Digest`, the Base64 HMAC-SHA1 digest of the base string under the signing key |
| Signature.EncodeBase64Text | index.js:102 | on Base64 text, encoding changes only `+`, `/` and `=`, into `%2B`, `%2F` and `%3D` |
| Signature.SignatureOfBase64 | index.js:98-102 | with a Base64 encoder that keeps to its alphabet, the signature is the Base64 digest with `+`, `/`, `=` written as `%2B`, `%2F`, `%3D` |
| Signature.SignOrderIndependent | index.js:48-102 | the signature does not depend on the order `_.forEach` visits the parameters |
| Signature.SignMethodCaseInsensitive | index.js:37 | signing with a method gives the same signature as signing with its upper-case form |
| Signature.PostIsPOST | index.js:37-80 | `post` and `POST` give the same base string |
| Signature.SignAsWritten | index.js:34-104 | the signature as the code computes it is the intended signature of the parameters other than `__proto__` |
| Signature.SignAsWrittenAgrees | index.js:34-104 | without a parameter named `__proto__`, the code computes the intended signature |
| Signature.SignAsWrittenOrderIndependent | index.js:34-104 | as written, the signature does not depend on the visiting order |
| Signature.SignDropsProto | index.js:45-102 | for `{"__proto__": "x"}` the code signs exactly what it signs for no parameters |

## Left out

- HMAC-SHA1 and Base64 from `crypto-js` (index.js:98) are foreign cryptographic primitives. They are parameters of type `Crypto`. Only `Signature.SignatureOfBase64` assumes something about them: that Base64 text uses the Base64 alphabet.
- The `_.forEach` visiting order (index.js:48) is runtime-defined. It is the parameter `order`, and the results are proved independent of it.
- The `Object.keys` rule that puts integer-like names first in numeric order (index.js:59) is not modelled; insertion order is used instead. The sort that follows removes any difference.
- lodash's array-like treatment of a `keys` object that has a numeric `length` property (index.js:48) is left out. The model takes parameters as a map of names to values.
- Lone UTF-16 surrogates, on which `encodeURIComponent` throws `URIError` (index.js:24), are left out. Texts are modelled as their UTF-8 bytes, which only well-formed strings have.
- Non-string inputs are left out; callers must pass strings.
  - `encode` converts its argument to a string. This affects parameter names and values (index.js:49-50), the URL (index.js:76) and both secrets (index.js:94). For example, an `undefined` token secret gives the key `cs&undefined`.
  - A non-string method makes `toUpperCase` throw a `TypeError` (index.js:37).
- Signature.UpperCaseSpec: covers ASCII letters only. `toUpperCase` on other Unicode letters (index.js:37) is left out, because HTTP methods are ASCII tokens.
- Normalizer.EncodeParamsVisited: states the intended encoding loop. As written, the entry for a parameter named `__proto__` is never created; `EncodeParamsAsWrittenFaithful` states that, and "## Findings" records it.
- Normalizer.EncodeParamsFaithful: states the intended loop. As written, there is one entry per parameter other than `__proto__` (`EncodeParamsAsWrittenFaithful`).
- Normalizer.InsertionOrderCovers: states the intended name list. As written, `__proto__` is missing from it (`InsertionOrderAsWrittenSkipsProto`).
- Normalizer.SortedNames: states the intended normaliser, and compares bytes rather than UTF-16 code units. The two orders agree because encoded names are ASCII. As written, `__proto__` is missing from the sorted names (`InsertionOrderAsWrittenSkipsProto`).
- Normalizer.ParamStringEmpty: states the intended normaliser. As written, the string is also empty when `__proto__` is the only parameter (`ParamStringAsWrittenEmpty`).
- Normalizer.ParamStringPieces: states the intended normaliser. As written, a parameter named `__proto__` gives no piece (`ParamStringAsWrittenPieces`).
- Normalizer.ParamStringPairs: states the intended normaliser. As written, it holds for the parameters other than `__proto__` (`ParamStringAsWritten` equates the two).
- Normalizer.SortedNamesAreEncodedNames: states the intended normaliser. As written, `encode("__proto__")` is not among the sorted names (`EncodeParamsAsWrittenFaithful`).

## Findings

| source | as written | input that shows it | evidently intended | confidence | as-written member | corrected member |
|---|---|---|---|---|---|---|
| index.js:45-51 | `encodedKeys` is a plain object, so `encodedKeys["__proto__"] = v` calls the prototype setter, which ignores a string; the parameter drops out of the signed parameter string | `keys = {"__proto__": "x"}` (an own property, as `JSON.parse` creates) gives the parameter string `""` instead of `__proto__=x` | every parameter is signed, including one named `__proto__` | not executed | Normalizer.ProtoParameterDropped | Normalizer.EncodeParamsFaithful |
