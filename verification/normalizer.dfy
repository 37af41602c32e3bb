/**
 The parameter normaliser: every name and value is percent-encoded into a
 fresh map keyed by the encoded name, the encoded names are sorted, and the
 pairs `name=value` are joined with `&`.

 The parameters are visited in an order the runtime chooses; the model takes
 that order as the argument `order` and proves the result does not depend on
 it. The names of the encoded map are listed in insertion order, which the
 sort then discards.
 */
module Normalizer {
  import opened Text
  import opened PercentEncoding
  import opened LexOrder

  /** A parameter set: names to values, names unique. */
  type Params = map<Bytes, Bytes>

  /** `order` lists every name of `keys` exactly once. */
  predicate Enumerates(order: seq<Bytes>, keys: Params)
  {
    && Distinct(order)
    && (forall i :: 0 <= i < |order| ==> order[i] in keys)
    && (forall k :: k in keys ==> k in order)
  }

  /**
   `em` is the encoded parameter set of `keys`: each name `k` appears as
   `Encode(k)` with value `Encode(keys[k])`, and nothing else appears.
   */
  predicate EncodedParamsOf(keys: Params, em: Params)
  {
    && (forall k {:trigger k in keys} :: k in keys ==> Encode(k) in em && em[Encode(k)] == Encode(keys[k]))
    && (forall n :: n in em ==> exists k :: k in keys && Encode(k) == n)
  }

  /**
   The encoding loop as intended: in visiting order, the entry of each
   parameter's encoded name is set to its encoded value, a later write to the
   same name overwriting an earlier one. `EncodeParamsAsWritten` is the loop
   as the code runs it, which differs for the one name `__proto__`.
   */
  function EncodeParams(keys: Params, order: seq<Bytes>): Params
    requires forall i :: 0 <= i < |order| ==> order[i] in keys
    decreases |order|
  {
    if order == [] then map[]
    else
      var k := order[|order| - 1];
      EncodeParams(keys, order[..|order| - 1])[Encode(k) := Encode(keys[k])]
  }

  /**
   Because `Encode` is injective no write ever overwrites another name's
   value: after visiting `order`, each visited name maps to its own encoded value.
   */
  lemma {:induction false} EncodeParamsVisited(keys: Params, order: seq<Bytes>)
    requires forall i :: 0 <= i < |order| ==> order[i] in keys
    ensures forall k {:trigger k in order} :: k in order ==>
              Encode(k) in EncodeParams(keys, order) && EncodeParams(keys, order)[Encode(k)] == Encode(keys[k])
    ensures forall n :: n in EncodeParams(keys, order) ==> exists k :: k in order && Encode(k) == n
    decreases |order|
  {
    if order != [] {
      var front := order[..|order| - 1];
      var last := order[|order| - 1];
      EncodeParamsVisited(keys, front);
      forall k | k in order
        ensures Encode(k) in EncodeParams(keys, order)
        ensures EncodeParams(keys, order)[Encode(k)] == Encode(keys[k])
      {
        if k != last {
          InFront(order, k);
        }
        WriteKeeps(keys, EncodeParams(keys, front), last, k);
      }
      forall n | n in EncodeParams(keys, order) ensures exists k :: k in order && Encode(k) == n {
        if n != Encode(last) {
          var k :| k in front && Encode(k) == n;
          InWhole(order, k);
        }
      }
    }
  }

  lemma InFront(order: seq<Bytes>, k: Bytes)
    requires k in order && k != order[|order| - 1]
    ensures k in order[..|order| - 1]
  {
    var i :| 0 <= i < |order| && order[i] == k;
    assert order[..|order| - 1][i] == k;
  }

  lemma InWhole(order: seq<Bytes>, k: Bytes)
    requires |order| > 0 && k in order[..|order| - 1]
    ensures k in order
  {
    var i :| 0 <= i < |order| - 1 && order[..|order| - 1][i] == k;
    assert order[i] == k;
  }

  /** Writing the entry of `last` leaves the entry of every other name as it was. */
  lemma WriteKeeps(keys: Params, em: Params, last: Bytes, k: Bytes)
    requires k in keys && last in keys
    requires k != last ==> Encode(k) in em && em[Encode(k)] == Encode(keys[k])
    ensures Encode(k) in em[Encode(last) := Encode(keys[last])]
    ensures em[Encode(last) := Encode(keys[last])][Encode(k)] == Encode(keys[k])
  {
    if k != last && Encode(k) == Encode(last) {
      EncodeInjective(k, last);
    }
  }

  /** The encoded names of a set of names. */
  function EncodedNames(names: set<Bytes>): set<Bytes>
  {
    set k | k in names :: Encode(k)
  }

  /** Encoding keeps distinct names distinct, so the encoded set is as large as the original. */
  lemma {:induction false} EncodedNamesCardinality(names: set<Bytes>)
    ensures |EncodedNames(names)| == |names|
    decreases names
  {
    if names != {} {
      var x :| x in names;
      var rest := names - {x};
      EncodedNamesCardinality(rest);
      assert EncodedNames(names) == EncodedNames(rest) + {Encode(x)};
      assert Encode(x) !in EncodedNames(rest) by {
        forall k | k in rest ensures Encode(k) != Encode(x) {
          if Encode(k) == Encode(x) {
            EncodeInjective(k, x);
          }
        }
      }
    }
  }

  /**
   Whatever the visiting order, the encoded map is the encoded parameter set,
   with exactly one entry per input parameter: no write overwrites another.
   */
  lemma EncodeParamsFaithful(keys: Params, order: seq<Bytes>)
    requires Enumerates(order, keys)
    ensures EncodedParamsOf(keys, EncodeParams(keys, order))
    ensures |EncodeParams(keys, order)| == |keys|
  {
    var em := EncodeParams(keys, order);
    EncodeParamsVisited(keys, order);
    EncodedParamsSize(keys, em);
  }

  /**
   Only the entry count of `EncodeParamsFaithful`, for callers that need no
   more and should not carry its quantifiers.
   */
  lemma EncodeParamsEntryCount(keys: Params, order: seq<Bytes>)
    requires Enumerates(order, keys)
    ensures |EncodeParams(keys, order)| == |keys|
  {
    EncodeParamsFaithful(keys, order);
  }

  /** An encoded parameter set has exactly the encoded names as keys, one per parameter. */
  lemma EncodedParamsSize(keys: Params, em: Params)
    requires EncodedParamsOf(keys, em)
    ensures em.Keys == EncodedNames(keys.Keys)
    ensures |em| == |keys|
  {
    EncodedNamesCardinality(keys.Keys);
  }

  /** Two maps that both are the encoded parameter set of `keys` are equal. */
  lemma EncodedParamsUnique(keys: Params, em1: Params, em2: Params)
    requires EncodedParamsOf(keys, em1) && EncodedParamsOf(keys, em2)
    ensures em1 == em2
  {
  }

  /** The names of the encoded map, in the order they were first written. */
  function InsertionOrder(order: seq<Bytes>): (names: seq<Bytes>)
    ensures |names| == |order|
    ensures forall i :: 0 <= i < |order| ==> names[i] == Encode(order[i])
  {
    if order == [] then [] else [Encode(order[0])] + InsertionOrder(order[1..])
  }

  /** The names of the encoded map in ascending order. */
  function SortedNames(keys: Params, order: seq<Bytes>): (names: seq<Bytes>)
    requires Enumerates(order, keys)
    ensures StrictlySorted(names)
    ensures forall n :: n in names <==> n in EncodeParams(keys, order)
    ensures |names| == |keys|
  {
    var ins := InsertionOrder(order);
    InsertionOrderDistinct(order);
    InsertionOrderCovers(keys, order);
    var names := Sort(ins);
    SameMultisetSameMembers(names, ins);
    names
  }

  lemma InsertionOrderDistinct(order: seq<Bytes>)
    requires Distinct(order)
    ensures Distinct(InsertionOrder(order))
  {
    var ins := InsertionOrder(order);
    forall i, j | 0 <= i < j < |ins| ensures ins[i] != ins[j] {
      if ins[i] == ins[j] {
        EncodeInjective(order[i], order[j]);
      }
    }
  }

  /** The names written are exactly the encoded names of the visited parameters. */
  lemma InsertionOrderCovers(keys: Params, order: seq<Bytes>)
    requires Enumerates(order, keys)
    ensures forall n :: n in InsertionOrder(order) <==> n in EncodeParams(keys, order)
    ensures |InsertionOrder(order)| == |keys|
  {
    var ins := InsertionOrder(order);
    EncodeParamsFaithful(keys, order);
    forall n ensures n in ins <==> n in EncodeParams(keys, order) {
      if n in ins {
        var i :| 0 <= i < |ins| && ins[i] == n;
        assert order[i] in keys;
      }
      if n in EncodeParams(keys, order) {
        var k :| k in keys && Encode(k) == n;
        var i :| 0 <= i < |order| && order[i] == k;
        assert ins[i] == n;
      }
    }
    DistinctLength(order, keys);
  }

  lemma SameMultisetSameMembers(a: seq<Bytes>, b: seq<Bytes>)
    requires multiset(a) == multiset(b)
    ensures forall x :: x in a <==> x in b
    ensures |a| == |b|
  {
    assert forall x :: x in a <==> x in multiset(a);
    assert |multiset(a)| == |multiset(b)|;
  }

  /** A duplicate-free enumeration of the names is as long as the parameter set. */
  lemma DistinctLength(order: seq<Bytes>, keys: Params)
    requires Enumerates(order, keys)
    ensures |order| == |keys|
  {
    var s := set i | 0 <= i < |order| :: order[i];
    assert s == keys.Keys;
    DistinctSetSize(order);
  }

  lemma {:induction false} DistinctSetSize(s: seq<Bytes>)
    requires Distinct(s)
    ensures |set i | 0 <= i < |s| :: s[i]| == |s|
    decreases |s|
  {
    if s != [] {
      var t := s[1..];
      DistinctSetSize(t);
      var a := set i | 0 <= i < |s| :: s[i];
      var b := set i | 0 <= i < |t| :: t[i];
      assert a == b + {s[0]} by {
        forall x | x in a ensures x in b + {s[0]} {
          var i :| 0 <= i < |s| && s[i] == x;
          if i > 0 {
            assert t[i - 1] == x;
          }
        }
        forall x | x in b ensures x in a {
          var i :| 0 <= i < |t| && t[i] == x;
          assert s[i + 1] == x;
        }
      }
      assert s[0] !in b;
    }
  }

  /** `name=value` */
  function Pair(name: Bytes, value: Bytes): Bytes
  {
    name + [EQ] + value
  }

  /** The pairs of `names`, in order, with their values in `em`. */
  function Pairs(names: seq<Bytes>, em: Params): (ps: seq<Bytes>)
    requires forall j :: 0 <= j < |names| ==> names[j] in em
    ensures |ps| == |names|
    ensures forall j :: 0 <= j < |names| ==> ps[j] == Pair(names[j], em[names[j]])
  {
    if names == [] then [] else [Pair(names[0], em[names[0]])] + Pairs(names[1..], em)
  }

  /**
   The accumulation over the sorted names with their index `i`: the pair of
   name `i` is followed by `&` while `i` is below the entry count of `em`
   less one, and stands alone otherwise.
   */
  function Reduce(names: seq<Bytes>, em: Params, i: nat, acc: Bytes): Bytes
    requires i <= |names|
    requires forall j :: 0 <= j < |names| ==> names[j] in em
    decreases |names| - i
  {
    if i == |names| then acc
    else
      var pair := Pair(names[i], em[names[i]]);
      Reduce(names, em, i + 1, acc + (if i < |em| - 1 then pair + [AMP] else pair))
  }

  /** The `reduce` is the `&`-join of the pairs, with no leading or trailing `&`. */
  lemma {:induction false} ReduceIsJoin(names: seq<Bytes>, em: Params, i: nat, acc: Bytes)
    requires i <= |names| == |em|
    requires forall j :: 0 <= j < |names| ==> names[j] in em
    ensures Reduce(names, em, i, acc) == acc + Join(Pairs(names, em)[i..], AMP)
    decreases |names| - i
  {
    var ps := Pairs(names, em);
    if i == |names| {
      assert ps[i..] == [];
    } else {
      ReduceIsJoin(names, em, i + 1, acc + (if i < |em| - 1 then ps[i] + [AMP] else ps[i]));
      assert ps[i..][1..] == ps[i + 1..];
      if i < |em| - 1 {
        assert acc + (ps[i] + [AMP]) + Join(ps[i + 1..], AMP) == acc + (ps[i] + [AMP] + Join(ps[i + 1..], AMP));
      } else {
        assert ps[i + 1..] == [];
      }
    }
  }

  /** The parameter string: the pairs of the sorted names, joined by the `Reduce` above. */
  function ParamString(keys: Params, order: seq<Bytes>): (r: Bytes)
    requires Enumerates(order, keys)
    ensures r == Join(Pairs(SortedNames(keys, order), EncodeParams(keys, order)), AMP)
  {
    ParamStringReady(keys, order);
    Reduce(SortedNames(keys, order), EncodeParams(keys, order), 0, [])
  }

  lemma ParamStringReady(keys: Params, order: seq<Bytes>)
    requires Enumerates(order, keys)
    ensures var names := SortedNames(keys, order);
            && (forall j :: 0 <= j < |names| ==> names[j] in EncodeParams(keys, order))
            && Reduce(names, EncodeParams(keys, order), 0, []) == Join(Pairs(names, EncodeParams(keys, order)), AMP)
  {
    var em := EncodeParams(keys, order);
    var names := SortedNames(keys, order);
    EncodeParamsEntryCount(keys, order);
    ReduceFromStart(names, em);
  }

  lemma ReduceFromStart(names: seq<Bytes>, em: Params)
    requires |names| == |em|
    requires forall j :: 0 <= j < |names| ==> names[j] in em
    ensures Reduce(names, em, 0, []) == Join(Pairs(names, em), AMP)
  {
    ReduceIsJoin(names, em, 0, []);
    assert Pairs(names, em)[0..] == Pairs(names, em);
  }

  /** An empty parameter set, and only that, gives the empty parameter string. */
  lemma ParamStringEmpty(keys: Params, order: seq<Bytes>)
    requires Enumerates(order, keys)
    ensures ParamString(keys, order) == [] <==> keys == map[]
  {
    var names := SortedNames(keys, order);
    var ps := Pairs(names, EncodeParams(keys, order));
    assert |names| == 0 <==> keys == map[];
    JoinOfNonEmptyParts(ps, AMP);
  }

  /** Each pair is one encoded name, `=`, and one encoded value, and holds no `&`. */
  lemma PairOfEncoded(k: Bytes, v: Bytes)
    ensures AMP !in Pair(Encode(k), Encode(v))
    ensures Split(Pair(Encode(k), Encode(v)), EQ) == [Encode(k), Encode(v)]
  {
    EncodeHasNoSeparators(k);
    EncodeHasNoSeparators(v);
    SplitJoin([Encode(k), Encode(v)], EQ);
    assert [Encode(k), Encode(v)][1..] == [Encode(v)];
  }

  /** No pair contains `&`, and each pair is one encoded name, `=`, and that name's encoded value. */
  lemma PairsHaveNoAmp(keys: Params, names: seq<Bytes>, em: Params)
    requires EncodedParamsOf(keys, em)
    requires forall j :: 0 <= j < |names| ==> names[j] in em
    ensures forall j :: 0 <= j < |names| ==> AMP !in Pairs(names, em)[j]
    ensures forall j :: 0 <= j < |names| ==> Split(Pairs(names, em)[j], EQ) == [names[j], em[names[j]]]
  {
    forall j | 0 <= j < |names|
      ensures AMP !in Pairs(names, em)[j]
      ensures Split(Pairs(names, em)[j], EQ) == [names[j], em[names[j]]]
    {
      assert names[j] in em;
      var k :| k in keys && Encode(k) == names[j];
      PairOfEncoded(k, keys[k]);
    }
  }

  /**
   Reading the parameter string back: split at `&` it gives one piece per
   parameter, so it holds exactly one `&` fewer than there are parameters.
   */
  lemma ParamStringPieces(keys: Params, order: seq<Bytes>)
    requires Enumerates(order, keys) && keys != map[]
    ensures Split(ParamString(keys, order), AMP) == Pairs(SortedNames(keys, order), EncodeParams(keys, order))
    ensures |Split(ParamString(keys, order), AMP)| == |keys|
    ensures Count(ParamString(keys, order), AMP) == |keys| - 1
  {
    var em := EncodeParams(keys, order);
    var names := SortedNames(keys, order);
    var ps := Pairs(names, em);
    EncodeParamsFaithful(keys, order);
    PairsHaveNoAmp(keys, names, em);
    SplitJoin(ps, AMP);
    CountJoin(ps, AMP);
  }

  /**
   Each piece of the parameter string splits at `=` into the encoded name in
   the strictly ascending order of `SortedNames` and the encoded value of the
   parameter with that name.
   */
  lemma ParamStringPairs(keys: Params, order: seq<Bytes>)
    requires Enumerates(order, keys) && keys != map[]
    ensures var pieces := Split(ParamString(keys, order), AMP);
      var names := SortedNames(keys, order);
      && |pieces| == |names|
      && forall j :: 0 <= j < |pieces| ==> Split(pieces[j], EQ) == [names[j], EncodedValue(keys, names[j])]
  {
    var em := EncodeParams(keys, order);
    var names := SortedNames(keys, order);
    var ps := Pairs(names, em);
    ParamStringPieces(keys, order);
    EncodeParamsFaithful(keys, order);
    forall j | 0 <= j < |ps| ensures Split(ps[j], EQ) == [names[j], EncodedValue(keys, names[j])] {
      assert names[j] in em;
      var k :| k in keys && Encode(k) == names[j];
      PairOfEncoded(k, keys[k]);
      EncodedValueOf(keys, k);
    }
  }

  /** The sorted names are exactly the encodings of the parameter names. */
  lemma SortedNamesAreEncodedNames(keys: Params, order: seq<Bytes>)
    requires Enumerates(order, keys)
    ensures forall k :: k in keys ==> Encode(k) in SortedNames(keys, order)
    ensures forall n :: n in SortedNames(keys, order) ==> exists k :: k in keys && Encode(k) == n
  {
    EncodeParamsFaithful(keys, order);
  }

  /** The encoded value recorded for the encoded name `n` (empty if none). */
  function EncodedValue(keys: Params, n: Bytes): Bytes
  {
    match Decode(n)
    case Some(k) => if k in keys then Encode(keys[k]) else []
    case None => []
  }

  lemma EncodedValueOf(keys: Params, k: Bytes)
    requires k in keys
    ensures EncodedValue(keys, Encode(k)) == Encode(keys[k])
  {
    DecodeEncode(k);
  }

  /** The parameter string depends only on the parameter set, not on the visiting order. */
  lemma ParamStringOrderIndependent(keys: Params, order1: seq<Bytes>, order2: seq<Bytes>)
    requires Enumerates(order1, keys) && Enumerates(order2, keys)
    ensures ParamString(keys, order1) == ParamString(keys, order2)
  {
    EncodeParamsFaithful(keys, order1);
    EncodeParamsFaithful(keys, order2);
    EncodedParamsUnique(keys, EncodeParams(keys, order1), EncodeParams(keys, order2));
    SortedUnique(SortedNames(keys, order1), SortedNames(keys, order2));
  }

  /**
   The name `__proto__`. On a plain object, setting a property of this name
   calls the inherited prototype setter, which ignores a string value: no
   entry is created.
   */
  const PROTO: Bytes := [0x5F, 0x5F, 0x70, 0x72, 0x6F, 0x74, 0x6F, 0x5F, 0x5F]

  /** `__proto__` is its own encoding, and the encoding of no other name. */
  lemma EncodesToProtoIff(k: Bytes)
    ensures Encode(k) == PROTO <==> k == PROTO
  {
    assert forall i :: 0 <= i < |PROTO| ==> IsAlpha(PROTO[i]) || PROTO[i] == 0x5F;
    EncodeFixedPoints(PROTO);
    if Encode(k) == PROTO {
      EncodeInjective(k, PROTO);
    }
  }

  /**
   The encoding loop as the code runs it, writing into a plain object: the
   write for a parameter whose encoded name is `__proto__` leaves the object
   unchanged.
   */
  function EncodeParamsAsWritten(keys: Params, order: seq<Bytes>): Params
    requires forall i :: 0 <= i < |order| ==> order[i] in keys
    decreases |order|
  {
    if order == [] then map[]
    else
      var k := order[|order| - 1];
      var em := EncodeParamsAsWritten(keys, order[..|order| - 1]);
      if Encode(k) == PROTO then em else em[Encode(k) := Encode(keys[k])]
  }

  /** The own property names of that object, in the order they were created. */
  function InsertionOrderAsWritten(order: seq<Bytes>): seq<Bytes>
    decreases |order|
  {
    if order == [] then []
    else
      var rest := InsertionOrderAsWritten(order[..|order| - 1]);
      var n := Encode(order[|order| - 1]);
      if n == PROTO then rest else rest + [n]
  }

  /** `order` without the name `__proto__`. */
  function WithoutProto(order: seq<Bytes>): seq<Bytes>
    decreases |order|
  {
    if order == [] then []
    else
      var rest := WithoutProto(order[..|order| - 1]);
      var k := order[|order| - 1];
      if k == PROTO then rest else rest + [k]
  }

  lemma {:induction false} WithoutProtoMembers(s: seq<Bytes>, x: Bytes)
    ensures x in WithoutProto(s) <==> x in s && x != PROTO
    decreases |s|
  {
    if s != [] {
      var front := s[..|s| - 1];
      WithoutProtoMembers(front, x);
      assert s == front + [s[|s| - 1]];
    }
  }

  lemma {:induction false} WithoutProtoDistinct(s: seq<Bytes>)
    requires Distinct(s)
    ensures Distinct(WithoutProto(s))
    decreases |s|
  {
    if s != [] {
      var front := s[..|s| - 1];
      var last := s[|s| - 1];
      assert Distinct(front);
      WithoutProtoDistinct(front);
      if last != PROTO {
        var w := WithoutProto(front);
        forall i | 0 <= i < |front| ensures front[i] != last {
          assert front[i] == s[i];
        }
        WithoutProtoMembers(front, last);
        var ws := w + [last];
        assert WithoutProto(s) == ws;
        forall i, j | 0 <= i < j < |ws| ensures ws[i] != ws[j] {
          if j == |w| {
            assert ws[i] == w[i];
          }
        }
      }
    }
  }

  lemma {:induction false} WithoutProtoUnchanged(s: seq<Bytes>)
    requires PROTO !in s
    ensures WithoutProto(s) == s
    decreases |s|
  {
    if s != [] {
      var front := s[..|s| - 1];
      forall i | 0 <= i < |front| ensures front[i] != PROTO {
        assert front[i] == s[i];
      }
      WithoutProtoUnchanged(front);
      assert s == front + [s[|s| - 1]];
    }
  }

  /** Dropping `__proto__` from an enumeration of `keys` enumerates the other parameters. */
  lemma WithoutProtoEnumerates(order: seq<Bytes>, keys: Params)
    requires Enumerates(order, keys)
    ensures Enumerates(WithoutProto(order), keys - {PROTO})
  {
    var w := WithoutProto(order);
    WithoutProtoDistinct(order);
    forall i | 0 <= i < |w| ensures w[i] in keys - {PROTO} {
      WithoutProtoMembers(order, w[i]);
    }
    forall k | k in keys - {PROTO} ensures k in w {
      WithoutProtoMembers(order, k);
    }
  }

  lemma InsertionOrderSnoc(s: seq<Bytes>, k: Bytes)
    ensures InsertionOrder(s + [k]) == InsertionOrder(s) + [Encode(k)]
  {
    assert forall i :: 0 <= i < |s| ==> (s + [k])[i] == s[i];
  }

  lemma WithoutProtoInKeys(keys: Params, order: seq<Bytes>)
    requires forall i :: 0 <= i < |order| ==> order[i] in keys
    ensures forall i :: 0 <= i < |WithoutProto(order)| ==> WithoutProto(order)[i] in keys - {PROTO}
  {
    var w := WithoutProto(order);
    forall i | 0 <= i < |w| ensures w[i] in keys - {PROTO} {
      WithoutProtoMembers(order, w[i]);
    }
  }

  /** The loop as written is the intended loop over the parameters other than `__proto__`. */
  lemma {:induction false} EncodeParamsAsWrittenSkipsProto(keys: Params, order: seq<Bytes>)
    requires forall i :: 0 <= i < |order| ==> order[i] in keys
    ensures forall i :: 0 <= i < |WithoutProto(order)| ==> WithoutProto(order)[i] in keys - {PROTO}
    ensures EncodeParamsAsWritten(keys, order) == EncodeParams(keys - {PROTO}, WithoutProto(order))
    decreases |order|
  {
    WithoutProtoInKeys(keys, order);
    if order != [] {
      var front := order[..|order| - 1];
      var k := order[|order| - 1];
      EncodeParamsAsWrittenSkipsProto(keys, front);
      EncodesToProtoIff(k);
      if k != PROTO {
        var w := WithoutProto(order);
        assert w[..|w| - 1] == WithoutProto(front);
      }
    }
  }

  /** The names the loop as written creates are those the intended loop creates for the other parameters. */
  lemma {:induction false} InsertionOrderAsWrittenSkipsProto(order: seq<Bytes>)
    ensures InsertionOrderAsWritten(order) == InsertionOrder(WithoutProto(order))
    decreases |order|
  {
    if order != [] {
      var front := order[..|order| - 1];
      var k := order[|order| - 1];
      InsertionOrderAsWrittenSkipsProto(front);
      EncodesToProtoIff(k);
      if k != PROTO {
        InsertionOrderSnoc(WithoutProto(front), k);
      }
    }
  }

  /**
   The parameter string as the code computes it: the parameter string of
   the parameters other than `__proto__`.
   */
  function ParamStringAsWritten(keys: Params, order: seq<Bytes>): (r: Bytes)
    requires Enumerates(order, keys)
    ensures Enumerates(WithoutProto(order), keys - {PROTO})
    ensures r == ParamString(keys - {PROTO}, WithoutProto(order))
  {
    EncodeParamsAsWrittenSkipsProto(keys, order);
    InsertionOrderAsWrittenSkipsProto(order);
    WithoutProtoEnumerates(order, keys);
    InsertionOrderDistinct(WithoutProto(order));
    ParamStringReady(keys - {PROTO}, WithoutProto(order));
    Reduce(Sort(InsertionOrderAsWritten(order)), EncodeParamsAsWritten(keys, order), 0, [])
  }

  /**
   As written, the encoded map holds every parameter other than `__proto__`
   under its encoded name with its encoded value, one entry each, and no
   entry named `__proto__`.
   */
  lemma EncodeParamsAsWrittenFaithful(keys: Params, order: seq<Bytes>)
    requires Enumerates(order, keys)
    ensures EncodedParamsOf(keys - {PROTO}, EncodeParamsAsWritten(keys, order))
    ensures |EncodeParamsAsWritten(keys, order)| == |keys - {PROTO}|
    ensures PROTO !in EncodeParamsAsWritten(keys, order)
  {
    var em := EncodeParamsAsWritten(keys, order);
    EncodeParamsAsWrittenSkipsProto(keys, order);
    WithoutProtoEnumerates(order, keys);
    EncodeParamsFaithful(keys - {PROTO}, WithoutProto(order));
    forall n | n in em ensures n != PROTO {
      var k :| k in keys - {PROTO} && Encode(k) == n;
      EncodesToProtoIff(k);
    }
  }

  /** As written, the parameter string is empty exactly when no parameter other than `__proto__` is given. */
  lemma ParamStringAsWrittenEmpty(keys: Params, order: seq<Bytes>)
    requires Enumerates(order, keys)
    ensures ParamStringAsWritten(keys, order) == [] <==> keys.Keys <= {PROTO}
  {
    WithoutProtoEnumerates(order, keys);
    ParamStringEmpty(keys - {PROTO}, WithoutProto(order));
    assert keys - {PROTO} == map[] <==> keys.Keys <= {PROTO};
  }

  /** As written, the parameter string holds one pair for each parameter other than `__proto__`. */
  lemma ParamStringAsWrittenPieces(keys: Params, order: seq<Bytes>)
    requires Enumerates(order, keys) && keys - {PROTO} != map[]
    ensures |Split(ParamStringAsWritten(keys, order), AMP)| == |keys - {PROTO}|
    ensures Count(ParamStringAsWritten(keys, order), AMP) == |keys - {PROTO}| - 1
  {
    WithoutProtoEnumerates(order, keys);
    ParamStringPieces(keys - {PROTO}, WithoutProto(order));
  }

  /** Without a parameter named `__proto__`, the code computes the intended parameter string. */
  lemma ParamStringAsWrittenAgrees(keys: Params, order: seq<Bytes>)
    requires Enumerates(order, keys) && PROTO !in keys
    ensures ParamStringAsWritten(keys, order) == ParamString(keys, order)
  {
    assert PROTO !in order;
    WithoutProtoUnchanged(order);
    assert keys - {PROTO} == keys;
  }

  /** As written, the parameter string does not depend on the visiting order either. */
  lemma ParamStringAsWrittenOrderIndependent(keys: Params, order1: seq<Bytes>, order2: seq<Bytes>)
    requires Enumerates(order1, keys) && Enumerates(order2, keys)
    ensures ParamStringAsWritten(keys, order1) == ParamStringAsWritten(keys, order2)
  {
    WithoutProtoEnumerates(order1, keys);
    WithoutProtoEnumerates(order2, keys);
    ParamStringOrderIndependent(keys - {PROTO}, WithoutProto(order1), WithoutProto(order2));
  }

  /**
   The parameters `{"__proto__": "x"}`: the code signs the empty parameter
   string, where the intended normaliser gives the pair `__proto__=x`.
   */
  lemma ProtoParameterDropped()
    ensures var keys := map[PROTO := [0x78]];
            && Enumerates([PROTO], keys)
            && ParamStringAsWritten(keys, [PROTO]) == []
            && ParamString(keys, [PROTO]) != []
  {
    var keys := map[PROTO := [0x78]];
    assert Enumerates([PROTO], keys);
    ParamStringAsWrittenEmpty(keys, [PROTO]);
    ParamStringEmpty(keys, [PROTO]);
  }
}
