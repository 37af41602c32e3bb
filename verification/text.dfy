/**
 Text as the signer sees it: a JavaScript string is modelled by its UTF-8
 byte sequence, and the separators the signature format is built from are
 named byte constants. `Join` and `Split` are the two halves of the
 `a&b&c` structure that parameter strings, base strings and signing keys
 share.
 */
module Text {

  type byte = x: int | 0 <= x < 256

  type Bytes = seq<byte>

  const AMP: byte := 0x26      // '&'
  const PERCENT: byte := 0x25  // '%'
  const EQ: byte := 0x3D       // '='
  const PLUS: byte := 0x2B     // '+'
  const SLASH: byte := 0x2F    // '/'

  /** Number of occurrences of `b` in `s`. */
  function Count(s: Bytes, b: byte): nat
  {
    if s == [] then 0 else (if s[0] == b then 1 else 0) + Count(s[1..], b)
  }

  lemma {:induction false} CountConcat(s: Bytes, t: Bytes, b: byte)
    ensures Count(s + t, b) == Count(s, b) + Count(t, b)
  {
    if s == [] {
      assert s + t == t;
    } else {
      assert (s + t)[1..] == s[1..] + t;
      CountConcat(s[1..], t, b);
    }
  }

  lemma {:induction false} CountAbsent(s: Bytes, b: byte)
    requires b !in s
    ensures Count(s, b) == 0
  {
    if s != [] {
      CountAbsent(s[1..], b);
    }
  }

  /** `parts[0] sep parts[1] sep ... sep parts[n-1]`; the empty list joins to the empty text. */
  function Join(parts: seq<Bytes>, sep: byte): Bytes
  {
    if |parts| == 0 then []
    else if |parts| == 1 then parts[0]
    else parts[0] + [sep] + Join(parts[1..], sep)
  }

  /** A join of non-empty parts is empty exactly when there are no parts. */
  lemma JoinOfNonEmptyParts(parts: seq<Bytes>, sep: byte)
    requires forall i :: 0 <= i < |parts| ==> |parts[i]| > 0
    ensures Join(parts, sep) == [] <==> parts == []
  {
    if parts != [] {
      assert |parts[0]| > 0;
    }
  }

  /**
   The pieces of `s` between occurrences of `sep`, as JavaScript's
   `String.prototype.split` with a one-character separator returns them:
   the empty text splits into one empty piece, and a leading or trailing
   separator yields an empty first or last piece.
   */
  function Split(s: Bytes, sep: byte): (r: seq<Bytes>)
    ensures |r| > 0
    decreases |s|
  {
    if s == [] then [[]]
    else
      var rest := Split(s[1..], sep);
      if s[0] == sep then [[]] + rest
      else [[s[0]] + rest[0]] + rest[1..]
  }

  lemma {:induction false} SplitNoSep(p: Bytes, sep: byte)
    requires sep !in p
    ensures Split(p, sep) == [p]
    decreases |p|
  {
    if p != [] {
      SplitNoSep(p[1..], sep);
      assert [p[0]] + p[1..] == p;
    }
  }

  lemma {:induction false} SplitPrefix(p: Bytes, sep: byte, t: Bytes)
    requires sep !in p
    ensures Split(p + [sep] + t, sep) == [p] + Split(t, sep)
    decreases |p|
  {
    var s := p + [sep] + t;
    if p == [] {
      assert s[0] == sep && s[1..] == t;
    } else {
      assert s[1..] == p[1..] + [sep] + t;
      SplitPrefix(p[1..], sep, t);
      assert [p[0]] + p[1..] == p;
    }
  }

  /** Splitting a join recovers the parts, provided no part contains the separator. */
  lemma {:induction false} SplitJoin(parts: seq<Bytes>, sep: byte)
    requires |parts| > 0
    requires forall i :: 0 <= i < |parts| ==> sep !in parts[i]
    ensures Split(Join(parts, sep), sep) == parts
    decreases |parts|
  {
    if |parts| == 1 {
      SplitNoSep(parts[0], sep);
    } else {
      SplitJoin(parts[1..], sep);
      SplitPrefix(parts[0], sep, Join(parts[1..], sep));
      assert [parts[0]] + parts[1..] == parts;
    }
  }

  /** A join of separator-free parts contains exactly `|parts| - 1` separators. */
  lemma {:induction false} CountJoin(parts: seq<Bytes>, sep: byte)
    requires |parts| > 0
    requires forall i :: 0 <= i < |parts| ==> sep !in parts[i]
    ensures Count(Join(parts, sep), sep) == |parts| - 1
    decreases |parts|
  {
    if |parts| == 1 {
      CountAbsent(parts[0], sep);
    } else {
      CountJoin(parts[1..], sep);
      CountAbsent(parts[0], sep);
      CountConcat(parts[0] + [sep], Join(parts[1..], sep), sep);
      CountConcat(parts[0], [sep], sep);
      assert Count([sep], sep) == 1 by {
        assert [sep][1..] == [];
      }
    }
  }
}
