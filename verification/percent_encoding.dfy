/**
 The percent encoder `encode` (`rfc3986EncodeURIComponent`): JavaScript's
 `encodeURIComponent` followed by a `replace` that additionally escapes the
 five marks `! ' ( ) *`. Both stages are modelled as written on the UTF-8
 bytes of the text; the composition is then shown to be the encoding of
 section 2.1 and 2.3 of RFC 3986 (unreserved bytes pass, every other byte
 becomes `%` and two upper-case hex digits), and a strict decoder shows it
 is injective.
 */
module PercentEncoding {
  import opened Text
  import opened Wrappers

  predicate IsAlpha(b: byte)
  {
    (0x41 <= b <= 0x5A) || (0x61 <= b <= 0x7A)
  }

  predicate IsDigit(b: byte)
  {
    0x30 <= b <= 0x39
  }

  /** The unreserved characters of section 2.3 of RFC 3986: ALPHA, DIGIT, `-`, `.`, `_`, `~`. */
  predicate IsUnreserved(b: byte)
  {
    IsAlpha(b) || IsDigit(b) || b == 0x2D || b == 0x2E || b == 0x5F || b == 0x7E
  }

  /** The marks `!`, `'`, `(`, `)`, `*` that `encodeURIComponent` leaves alone. */
  predicate IsMark(b: byte)
  {
    b == 0x21 || b == 0x27 || b == 0x28 || b == 0x29 || b == 0x2A
  }

  predicate IsHexUpper(b: byte)
  {
    IsDigit(b) || (0x41 <= b <= 0x46)
  }

  /** The upper-case hexadecimal digit for `n`. */
  function HexDigit(n: nat): (d: byte)
    requires n < 16
    ensures IsHexUpper(d)
  {
    if n < 10 then 0x30 + n else 0x41 + (n - 10)
  }

  /** The value of an upper-case hexadecimal digit; inverse of `HexDigit`. */
  function HexValue(d: byte): (n: nat)
    requires IsHexUpper(d)
    ensures n < 16 && HexDigit(n) == d
  {
    if IsDigit(d) then d - 0x30 else d - 0x41 + 10
  }

  /** The shortest upper-case hexadecimal numeral for `n`. */
  function ToHex(n: nat): (r: Bytes)
    ensures |r| > 0
    ensures forall i :: 0 <= i < |r| ==> IsHexUpper(r[i])
    decreases n
  {
    if n < 16 then [HexDigit(n)] else ToHex(n / 16) + [HexDigit(n % 16)]
  }

  /** `%XX`: the escape of one byte with two upper-case hex digits. */
  function Escape(b: byte): Bytes
  {
    [PERCENT, HexDigit(b / 16), HexDigit(b % 16)]
  }

  /**
   The first stage: every byte outside ALPHA, DIGIT, the unreserved marks
   and the five marks `! ' ( ) *` is escaped; those bytes stay as they are.
   It works byte by byte on the UTF-8 encoding of the text.
   */
  function EncodeUriComponent(s: Bytes): (r: Bytes)
    ensures forall i :: 0 <= i < |r| ==> IsUnreserved(r[i]) || IsMark(r[i]) || r[i] == PERCENT
    ensures (forall i :: 0 <= i < |s| ==> IsUnreserved(s[i]) || IsMark(s[i])) ==> r == s
    decreases |s|
  {
    if s == [] then []
    else
      (if IsUnreserved(s[0]) || IsMark(s[0]) then [s[0]] else Escape(s[0]))
      + EncodeUriComponent(s[1..])
  }

  /**
   The second stage: each of the five marks becomes `%` followed by the
   upper-case hexadecimal numeral of its code; no mark is left, and text
   without marks is unchanged.
   */
  function EscapeMarks(s: Bytes): (r: Bytes)
    ensures forall i :: 0 <= i < |r| ==> !IsMark(r[i])
    ensures (forall i :: 0 <= i < |s| ==> !IsMark(s[i])) ==> r == s
    decreases |s|
  {
    if s == [] then []
    else (if IsMark(s[0]) then [PERCENT] + ToHex(s[0]) else [s[0]]) + EscapeMarks(s[1..])
  }

  /** The RFC 3986 escaping of a single byte. */
  function EncodeByte(b: byte): Bytes
  {
    if IsUnreserved(b) then [b] else Escape(b)
  }

  /**
   The shape of every encoder output: unreserved bytes and `%XX` escapes with
   upper-case hex digits, where an escape never stands for an unreserved byte.
   */
  predicate Canonical(r: Bytes)
    decreases |r|
  {
    if r == [] then true
    else if IsUnreserved(r[0]) then Canonical(r[1..])
    else
      && |r| >= 3 && r[0] == PERCENT && IsHexUpper(r[1]) && IsHexUpper(r[2])
      && !IsUnreserved(16 * HexValue(r[1]) + HexValue(r[2]))
      && Canonical(r[3..])
  }

  /** A `%` at position `i` of `r` is followed by two upper-case hex digits. */
  predicate OpensEscape(r: Bytes, i: nat)
    requires i < |r|
  {
    r[i] == PERCENT ==> i + 2 < |r| && IsHexUpper(r[i + 1]) && IsHexUpper(r[i + 2])
  }

  /**
   The percent encoder, stated byte by byte: each unreserved
   byte stands for itself and every other byte becomes `%XX`.
   `EncodeMatchesIndexJs` shows this is `encodeURIComponent` followed by the
   mark replacement.
   */
  function Encode(s: Bytes): (r: Bytes)
    ensures forall i :: 0 <= i < |r| ==> IsUnreserved(r[i]) || r[i] == PERCENT
    ensures forall i :: 0 <= i < |r| ==> OpensEscape(r, i)
    decreases |s|
  {
    if s == [] then []
    else
      var t := Encode(s[1..]);
      EncodeByteThen(s[0], t);
      EncodeByte(s[0]) + t
  }

  /** Prefixing the escape of one byte keeps the encoder's output shape. */
  lemma EncodeByteThen(b: byte, t: Bytes)
    requires forall i :: 0 <= i < |t| ==> IsUnreserved(t[i]) || t[i] == PERCENT
    requires forall i :: 0 <= i < |t| ==> OpensEscape(t, i)
    ensures var r := EncodeByte(b) + t;
      && (forall i :: 0 <= i < |r| ==> IsUnreserved(r[i]) || r[i] == PERCENT)
      && (forall i :: 0 <= i < |r| ==> OpensEscape(r, i))
  {
    var e := EncodeByte(b);
    var r := e + t;
    forall i | 0 <= i < |r|
      ensures IsUnreserved(r[i]) || r[i] == PERCENT
      ensures OpensEscape(r, i)
    {
      if i >= |e| {
        assert r[i] == t[i - |e|];
        assert OpensEscape(t, i - |e|);
        if r[i] == PERCENT {
          assert r[i + 1] == t[i - |e| + 1] && r[i + 2] == t[i - |e| + 2];
        }
      }
    }
  }

  lemma {:induction false} EscapeMarksConcat(a: Bytes, b: Bytes)
    ensures EscapeMarks(a + b) == EscapeMarks(a) + EscapeMarks(b)
    decreases |a|
  {
    if a == [] {
      assert a + b == b;
    } else {
      assert (a + b)[1..] == a[1..] + b;
      EscapeMarksConcat(a[1..], b);
    }
  }

  /** The second stage rewrites exactly what the first stage leaves unescaped but RFC 3986 does not. */
  lemma EscapeMarksOfPiece(b: byte)
    ensures EscapeMarks(if IsUnreserved(b) || IsMark(b) then [b] else Escape(b)) == EncodeByte(b)
  {
    if IsMark(b) {
      assert ToHex(b) == [HexDigit(b / 16), HexDigit(b % 16)];
    } else if !IsUnreserved(b) {
      var e := Escape(b);
      assert e == [PERCENT] + [e[1]] + [e[2]];
      EscapeMarksConcat([PERCENT] + [e[1]], [e[2]]);
      EscapeMarksConcat([PERCENT], [e[1]]);
    }
  }

  /** `encodeURIComponent` plus the mark replacement is RFC 3986 percent-encoding. */
  lemma {:induction false} EncodeMatchesIndexJs(s: Bytes)
    ensures EscapeMarks(EncodeUriComponent(s)) == Encode(s)
    decreases |s|
  {
    if s != [] {
      var piece := if IsUnreserved(s[0]) || IsMark(s[0]) then [s[0]] else Escape(s[0]);
      EscapeMarksConcat(piece, EncodeUriComponent(s[1..]));
      EscapeMarksOfPiece(s[0]);
      EncodeMatchesIndexJs(s[1..]);
    }
  }

  /** Every encoding is canonical: escapes are upper-case and never stand for an unreserved byte. */
  lemma {:induction false} EncodeCanonical(s: Bytes)
    ensures Canonical(Encode(s))
    decreases |s|
  {
    if s != [] {
      var r := Encode(s);
      EncodeCanonical(s[1..]);
      if IsUnreserved(s[0]) {
        assert r[1..] == Encode(s[1..]);
      } else {
        assert r[3..] == Encode(s[1..]);
        assert 16 * HexValue(r[1]) + HexValue(r[2]) == s[0];
      }
    }
  }

  function Prepend(b: byte, d: Option<Bytes>): Option<Bytes>
  {
    match d
    case None => None
    case Some(t) => Some([b] + t)
  }

  /**
   Strict percent-decoding: accepts exactly the canonical texts, taking each
   unreserved byte as itself and each `%XX` to the byte it names.
   */
  function Decode(r: Bytes): Option<Bytes>
    decreases |r|
  {
    if r == [] then Some([])
    else if IsUnreserved(r[0]) then Prepend(r[0], Decode(r[1..]))
    else if
      && |r| >= 3 && r[0] == PERCENT && IsHexUpper(r[1]) && IsHexUpper(r[2])
      && !IsUnreserved(16 * HexValue(r[1]) + HexValue(r[2]))
    then Prepend(16 * HexValue(r[1]) + HexValue(r[2]), Decode(r[3..]))
    else None
  }

  /** Decoding succeeds exactly on canonical text. */
  lemma {:induction false} DecodeDefinedIffCanonical(r: Bytes)
    ensures Decode(r).Some? <==> Canonical(r)
    decreases |r|
  {
    if r != [] {
      if IsUnreserved(r[0]) {
        DecodeDefinedIffCanonical(r[1..]);
      } else if |r| >= 3 {
        DecodeDefinedIffCanonical(r[3..]);
      }
    }
  }

  /** Round trip: decoding an encoding gives back the original bytes. */
  lemma {:induction false} DecodeEncode(s: Bytes)
    ensures Decode(Encode(s)) == Some(s)
    decreases |s|
  {
    if s != [] {
      var r := Encode(s);
      DecodeEncode(s[1..]);
      if IsUnreserved(s[0]) {
        assert r[1..] == Encode(s[1..]);
      } else {
        assert r[3..] == Encode(s[1..]);
        assert 16 * HexValue(r[1]) + HexValue(r[2]) == s[0];
      }
      assert [s[0]] + s[1..] == s;
    }
  }

  /** The other direction: whatever decodes to `s` is the encoding of `s`. */
  lemma {:induction false} EncodeDecode(r: Bytes, s: Bytes)
    requires Decode(r) == Some(s)
    ensures Encode(s) == r
    decreases |r|
  {
    if r != [] {
      if IsUnreserved(r[0]) {
        var t := Decode(r[1..]).value;
        EncodeDecode(r[1..], t);
        assert s == [r[0]] + t && s[1..] == t;
        assert r == [r[0]] + r[1..];
      } else {
        var b: byte := 16 * HexValue(r[1]) + HexValue(r[2]);
        var t := Decode(r[3..]).value;
        EncodeDecode(r[3..], t);
        assert s == [b] + t && s[1..] == t;
        assert b / 16 == HexValue(r[1]) && b % 16 == HexValue(r[2]);
        assert r == r[..3] + r[3..];
        assert r[..3] == Escape(b);
      }
    }
  }

  /** `encode` is injective, so distinct parameter names never collide. */
  lemma EncodeInjective(a: Bytes, b: Bytes)
    requires Encode(a) == Encode(b)
    ensures a == b
  {
    DecodeEncode(a);
    DecodeEncode(b);
  }

  lemma {:induction false} EncodeConcat(a: Bytes, b: Bytes)
    ensures Encode(a + b) == Encode(a) + Encode(b)
    decreases |a|
  {
    if a == [] {
      assert a + b == b;
    } else {
      assert (a + b)[1..] == a[1..] + b;
      EncodeConcat(a[1..], b);
    }
  }

  lemma {:induction false} EncodeLength(s: Bytes)
    ensures |Encode(s)| >= |s|
    ensures |Encode(s)| == |s| ==> forall i :: 0 <= i < |s| ==> IsUnreserved(s[i])
    decreases |s|
  {
    if s != [] {
      EncodeLength(s[1..]);
      if |Encode(s)| == |s| {
        forall i | 0 <= i < |s| ensures IsUnreserved(s[i]) {
          if i > 0 {
            assert s[i] == s[1..][i - 1];
          }
        }
      }
    }
  }

  /** `encode` leaves a text unchanged exactly when all its bytes are unreserved. */
  lemma {:induction false} EncodeFixedPoints(s: Bytes)
    ensures Encode(s) == s <==> forall i :: 0 <= i < |s| ==> IsUnreserved(s[i])
    decreases |s|
  {
    EncodeLength(s);
    if s != [] && forall i :: 0 <= i < |s| ==> IsUnreserved(s[i]) {
      EncodeFixedPoints(s[1..]);
      assert [s[0]] + s[1..] == s;
    }
  }

  lemma EncodeSingle(b: byte)
    ensures Encode([b]) == EncodeByte(b)
  {
    assert [b][1..] == [];
  }

  /** The five marks the `replace` adds, and the unreserved characters that stay put. */
  lemma EncodeMarks()
    ensures Encode([0x21]) == [PERCENT, 0x32, 0x31]  // "!" to "%21"
    ensures Encode([0x27]) == [PERCENT, 0x32, 0x37]  // "'" to "%27"
    ensures Encode([0x28]) == [PERCENT, 0x32, 0x38]  // "(" to "%28"
    ensures Encode([0x29]) == [PERCENT, 0x32, 0x39]  // ")" to "%29"
    ensures Encode([0x2A]) == [PERCENT, 0x32, 0x41]  // "*" to "%2A"
    ensures forall b: byte :: IsUnreserved(b) ==> Encode([b]) == [b]
  {
    forall b: byte ensures Encode([b]) == EncodeByte(b) {
      EncodeSingle(b);
    }
  }

  /** The encoded text never holds the separators of the signature format. */
  lemma EncodeHasNoSeparators(s: Bytes)
    ensures AMP !in Encode(s) && EQ !in Encode(s)
    ensures PLUS !in Encode(s) && SLASH !in Encode(s)
  {
  }
}
