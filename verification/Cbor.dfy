/** The part of CBOR (section 3 of RFC 8949) that an mdoc uses: integers, byte
    and text strings, arrays, maps and tags, all of definite length. */
module Cbor {
  import opened BigEndian
  import opened Common

  /** Text holds UTF-8 octets. Map pairs are listed in the order encoded. */
  datatype Value =
    | UInt(n: nat)
    | NInt(n: nat)
    | Bytes(bytes: seq<byte>)
    | Text(text: seq<byte>)
    | Array(items: seq<Value>)
    | Map(pairs: seq<Pair>)
    | Tag(number: nat, content: Value)

  datatype Pair = Pair(key: Value, value: Value)

  const LIMIT: nat := 0x1_0000_0000_0000_0000

  /** The shortest head for a major type and argument. */
  function Head(major: nat, n: nat): (s: seq<byte>)
    requires major < 8
    ensures s != []
  {
    if n < 24 then [32 * major + n]
    else if n < 0x100 then [32 * major + 24] + Octets(n, 1)
    else if n < 0x1_0000 then [32 * major + 25] + Octets(n, 2)
    else if n < 0x1_0000_0000 then [32 * major + 26] + Octets(n, 4)
    else [32 * major + 27] + Octets(n, 8)
  }

  function Encode(v: Value): (s: seq<byte>)
    ensures s != []
    decreases v, 1
  {
    match v
    case UInt(n) => Head(0, n)
    case NInt(n) => Head(1, n)
    case Bytes(b) => Head(2, |b|) + b
    case Text(t) => Head(3, |t|) + t
    case Array(items) => Head(4, |items|) + EncodeItems(items)
    case Map(pairs) => Head(5, |pairs|) + EncodePairs(pairs)
    case Tag(number, content) => Head(6, number) + Encode(content)
  }

  function EncodeItems(vs: seq<Value>): seq<byte>
    decreases vs, 0
  {
    if vs == [] then [] else Encode(vs[0]) + EncodeItems(vs[1..])
  }

  function EncodePairs(ps: seq<Pair>): seq<byte>
    decreases ps, 0
  {
    if ps == [] then [] else EncodePair(ps[0]) + EncodePairs(ps[1..])
  }

  function EncodePair(p: Pair): seq<byte>
    decreases p, 2
  {
    Encode(p.key) + Encode(p.value)
  }

  /** Examples of appendix A of RFC 8949. */
  lemma Examples()
    ensures Encode(UInt(10)) == [0x0A] && Encode(NInt(9)) == [0x29]
    ensures Encode(UInt(100)) == [0x18, 0x64]
    ensures Encode(UInt(1000)) == [0x19, 0x03, 0xE8]
  {
    assert Octets(100, 1) == [0x64];
    assert Octets(3, 1) == [0x03] && Octets(1000, 2) == [0x03, 0xE8];
  }

  lemma StringExamples()
    ensures Encode(Bytes([1, 2, 3, 4])) == [0x44, 1, 2, 3, 4]
    ensures Encode(Text([0x61])) == [0x61, 0x61]
  {
  }

  lemma TagExample()
    ensures Encode(Tag(24, Bytes([0x64, 0x49, 0x45, 0x54, 0x46]))) == [0xD8, 0x18, 0x45, 0x64, 0x49, 0x45, 0x54, 0x46]
  {
    assert Octets(24, 1) == [0x18];
    assert Encode(Bytes([0x64, 0x49, 0x45, 0x54, 0x46])) == [0x45, 0x64, 0x49, 0x45, 0x54, 0x46];
  }

  lemma ListExamples()
    ensures Encode(Array([UInt(1), UInt(2), UInt(3)])) == [0x83, 1, 2, 3]
    ensures Encode(Map([Pair(UInt(1), UInt(2)), Pair(UInt(3), UInt(4))])) == [0xA2, 1, 2, 3, 4]
  {
    var items := [UInt(1), UInt(2), UInt(3)];
    assert items[1..] == [UInt(2), UInt(3)] && items[1..][1..] == [UInt(3)] && items[1..][1..][1..] == [];
    assert EncodeItems([UInt(3)]) == [3] && EncodeItems(items[1..]) == [2, 3];
    var pairs := [Pair(UInt(1), UInt(2)), Pair(UInt(3), UInt(4))];
    assert pairs[1..] == [Pair(UInt(3), UInt(4))] && pairs[1..][1..] == [];
    assert EncodePairs(pairs[1..]) == [3, 4];
  }

  // ---------------------------------------------------------------- decoding

  function Width(info: nat): nat {
    if info == 24 then 1 else if info == 25 then 2 else if info == 26 then 4 else 8
  }

  /** Major type, argument and the octets after the head. */
  function ReadHead(s: seq<byte>): (r: Option<(nat, nat, seq<byte>)>)
    ensures r.Some? ==> r.value.0 < 8 && |r.value.2| < |s|
  {
    if s == [] then None
    else
      var major, info := s[0] / 32, s[0] % 32;
      if info < 24 then Some((major, info, s[1..]))
      else if info > 27 then None
      else
        var width := Width(info);
        if |s| < 1 + width then None
        else Some((major, Number(s[1..1 + width]), s[1 + width..]))
  }

  /** The value at the front of s, and the octets after it. */
  function Decode(s: seq<byte>): (r: Option<(Value, seq<byte>)>)
    ensures r.Some? ==> |r.value.1| < |s|
    decreases |s|, 0
  {
    match ReadHead(s)
    case None => None
    case Some((major, n, rest)) => DecodeBody(major, n, rest)
  }

  /** What follows a head of the given major type and argument. */
  function DecodeBody(major: nat, n: nat, s: seq<byte>): (r: Option<(Value, seq<byte>)>)
    ensures r.Some? ==> |r.value.1| <= |s|
    decreases |s|, 2
  {
    match major
    case 0 => Some((UInt(n), s))
    case 1 => Some((NInt(n), s))
    case 2 => if |s| < n then None else Some((Bytes(s[..n]), s[n..]))
    case 3 => if |s| < n then None else Some((Text(s[..n]), s[n..]))
    case 4 =>
      (match DecodeItems(s, n)
       case None => None
       case Some((vs, after)) => Some((Array(vs), after)))
    case 5 =>
      (match DecodePairs(s, n)
       case None => None
       case Some((ps, after)) => Some((Map(ps), after)))
    case 6 =>
      (match Decode(s)
       case None => None
       case Some((v, after)) => Some((Tag(n, v), after)))
    case _ => None
  }

  function DecodeItems(s: seq<byte>, n: nat): (r: Option<(seq<Value>, seq<byte>)>)
    ensures r.Some? ==> |r.value.1| <= |s|
    decreases |s|, 1
  {
    if n == 0 then Some(([], s))
    else match Decode(s)
      case None => None
      case Some((v, rest)) =>
        match DecodeItems(rest, n - 1)
        case None => None
        case Some((vs, after)) => Some(([v] + vs, after))
  }

  function DecodePairs(s: seq<byte>, n: nat): (r: Option<(seq<Pair>, seq<byte>)>)
    ensures r.Some? ==> |r.value.1| <= |s|
    decreases |s|, 1
  {
    if n == 0 then Some(([], s))
    else match Decode(s)
      case None => None
      case Some((k, rest)) =>
        match Decode(rest)
        case None => None
        case Some((v, rest')) =>
          match DecodePairs(rest', n - 1)
          case None => None
          case Some((ps, after)) => Some(([Pair(k, v)] + ps, after))
  }

  /** A whole message: one value and nothing after it. */
  function DecodeAll(s: seq<byte>): Option<Value> {
    match Decode(s)
    case Some((v, rest)) => if rest == [] then Some(v) else None
    case None => None
  }

  // ------------------------------------------------------ octets as received

  predicate Suffix(after: seq<byte>, s: seq<byte>) {
    |after| <= |s| && s[|s| - |after|..] == after
  }

  lemma SuffixOfSuffix(a: seq<byte>, b: seq<byte>, c: seq<byte>)
    requires Suffix(a, b) && Suffix(b, c)
    ensures Suffix(a, c)
  {
  }

  /** What a decoder leaves is the end of what it was given. */
  lemma {:induction false} DecodeConsumes(s: seq<byte>)
    ensures Decode(s).Some? ==> Suffix(Decode(s).value.1, s)
    decreases |s|, 0
  {
    if Decode(s).Some? {
      var (major, n, rest) := ReadHead(s).value;
      DecodeBodyConsumes(major, n, rest);
      SuffixOfSuffix(Decode(s).value.1, rest, s);
    }
  }

  lemma {:induction false} DecodeBodyConsumes(major: nat, n: nat, s: seq<byte>)
    requires DecodeBody(major, n, s).Some?
    ensures Suffix(DecodeBody(major, n, s).value.1, s)
    decreases |s|, 2
  {
    if major == 4 {
      DecodeItemsConsumes(s, n);
    } else if major == 5 {
      DecodePairsConsumes(s, n);
    } else if major == 6 {
      DecodeConsumes(s);
    }
  }

  lemma {:induction false} DecodeItemsConsumes(s: seq<byte>, n: nat)
    ensures DecodeItems(s, n).Some? ==> Suffix(DecodeItems(s, n).value.1, s)
    decreases |s|, 1
  {
    if n > 0 && DecodeItems(s, n).Some? {
      var rest := Decode(s).value.1;
      DecodeConsumes(s);
      DecodeItemsConsumes(rest, n - 1);
      SuffixOfSuffix(DecodeItems(s, n).value.1, rest, s);
    }
  }

  lemma {:induction false} DecodePairsConsumes(s: seq<byte>, n: nat)
    ensures DecodePairs(s, n).Some? ==> Suffix(DecodePairs(s, n).value.1, s)
    decreases |s|, 1
  {
    if n > 0 && DecodePairs(s, n).Some? {
      var rest := Decode(s).value.1;
      var rest' := Decode(rest).value.1;
      DecodeConsumes(s);
      DecodeConsumes(rest);
      DecodePairsConsumes(rest', n - 1);
      SuffixOfSuffix(rest', rest, s);
      SuffixOfSuffix(DecodePairs(s, n).value.1, rest', s);
    }
  }

  /** The octets of the value at the front of s, as they stand there, and those
      after it. */
  function RawItem(s: seq<byte>): (r: Option<(seq<byte>, seq<byte>)>)
    ensures r.Some? ==> r.value.0 + r.value.1 == s && |r.value.1| < |s|
  {
    match Decode(s)
    case None => None
    case Some((_, rest)) =>
      DecodeConsumes(s);
      Some((s[..|s| - |rest|], rest))
  }

  function RawItems(s: seq<byte>, n: nat): Option<(seq<seq<byte>>, seq<byte>)>
    decreases n
  {
    if n == 0 then Some(([], s))
    else match RawItem(s)
      case None => None
      case Some((item, rest)) =>
        match RawItems(rest, n - 1)
        case None => None
        case Some((items, after)) => Some(([item] + items, after))
  }

  datatype RawPair = RawPair(key: Value, value: seq<byte>)

  function RawPairs(s: seq<byte>, n: nat): Option<(seq<RawPair>, seq<byte>)>
    decreases n
  {
    if n == 0 then Some(([], s))
    else match Decode(s)
      case None => None
      case Some((k, rest)) =>
        match RawItem(rest)
        case None => None
        case Some((v, rest')) =>
          match RawPairs(rest', n - 1)
          case None => None
          case Some((ps, after)) => Some(([RawPair(k, v)] + ps, after))
  }

  /** A message that is one array: the octets of its items. */
  function RawArray(s: seq<byte>): Option<seq<seq<byte>>> {
    match ReadHead(s)
    case Some((4, n, rest)) =>
      (match RawItems(rest, n) case Some((items, after)) => if after == [] then Some(items) else None case None => None)
    case _ => None
  }

  /** A message that is one map: its keys, and the octets of their values. */
  function RawMap(s: seq<byte>): Option<seq<RawPair>> {
    match ReadHead(s)
    case Some((5, n, rest)) =>
      (match RawPairs(rest, n) case Some((ps, after)) => if after == [] then Some(ps) else None case None => None)
    case _ => None
  }

  // --------------------------------------------------------------- round trip

  /** No argument or length reaches 2^64, the most a head can carry. */
  predicate Fits(v: Value)
    decreases v, 1
  {
    match v
    case UInt(n) => n < LIMIT
    case NInt(n) => n < LIMIT
    case Bytes(b) => |b| < LIMIT
    case Text(t) => |t| < LIMIT
    case Array(items) => |items| < LIMIT && FitItems(items)
    case Map(pairs) => |pairs| < LIMIT && FitPairs(pairs)
    case Tag(number, content) => number < LIMIT && Fits(content)
  }

  predicate FitItems(vs: seq<Value>)
    decreases vs, 0
  {
    vs == [] || (Fits(vs[0]) && FitItems(vs[1..]))
  }

  predicate FitPairs(ps: seq<Pair>)
    decreases ps, 0
  {
    ps == [] || (FitPair(ps[0]) && FitPairs(ps[1..]))
  }

  predicate FitPair(p: Pair)
    decreases p, 2
  {
    Fits(p.key) && Fits(p.value)
  }

  lemma Widths()
    ensures Pow256(1) == 0x100 && Pow256(2) == 0x1_0000 && Pow256(4) == 0x1_0000_0000 && Pow256(8) == LIMIT
  {
  }

  lemma ReadHeadOf(major: nat, n: nat, rest: seq<byte>)
    requires major < 8 && n < LIMIT
    ensures ReadHead(Head(major, n) + rest) == Some((major, n, rest))
  {
    Widths();
    if n < 24 {
      assert (Head(major, n) + rest)[1..] == rest;
    } else if n < 0x100 {
      WideHead(major, n, rest, 24);
    } else if n < 0x1_0000 {
      WideHead(major, n, rest, 25);
    } else if n < 0x1_0000_0000 {
      WideHead(major, n, rest, 26);
    } else {
      WideHead(major, n, rest, 27);
    }
  }

  lemma WideHead(major: nat, n: nat, rest: seq<byte>, info: nat)
    requires major < 8 && 24 <= info <= 27 && n < Pow256(Width(info))
    ensures ReadHead([32 * major + info] + Octets(n, Width(info)) + rest) == Some((major, n, rest))
  {
    var width := Width(info);
    var digits := Octets(n, width);
    var s: seq<byte> := [32 * major + info] + digits + rest;
    assert s[0] / 32 == major && s[0] % 32 == info;
    assert s[1..1 + width] == digits && s[1 + width..] == rest;
    OctetsRoundTrip(n, width);
  }

  lemma DecodeHeaded(major: nat, n: nat, body: seq<byte>)
    requires major < 8 && n < LIMIT
    ensures Decode(Head(major, n) + body) == DecodeBody(major, n, body)
  {
    ReadHeadOf(major, n, body);
  }

  lemma TakeFront(b: seq<byte>, rest: seq<byte>)
    ensures (b + rest)[..|b|] == b && (b + rest)[|b|..] == rest
  {
  }

  lemma DecodeString(major: nat, b: seq<byte>, rest: seq<byte>)
    requires (major == 2 || major == 3) && |b| < LIMIT
    ensures Decode(Head(major, |b|) + b + rest) == Some((if major == 2 then Bytes(b) else Text(b), rest))
  {
    var body := b + rest;
    assert Head(major, |b|) + b + rest == Head(major, |b|) + body;
    DecodeHeaded(major, |b|, body);
    TakeFront(b, rest);
    if major == 2 {
      assert DecodeBody(2, |b|, body) == Some((Bytes(b), rest));
    } else {
      assert DecodeBody(3, |b|, body) == Some((Text(b), rest));
    }
  }

  /** Decoding inverts encoding, and leaves whatever follows. */
  lemma {:induction false} DecodeEncode(v: Value, rest: seq<byte>)
    requires Fits(v)
    ensures Decode(Encode(v) + rest) == Some((v, rest))
    decreases v, 1
  {
    match v
    case UInt(n) => DecodeHeaded(0, n, rest);
    case NInt(n) => DecodeHeaded(1, n, rest);
    case Bytes(b) => DecodeString(2, b, rest);
    case Text(t) => DecodeString(3, t, rest);
    case Array(items) =>
      assert Encode(v) + rest == Head(4, |items|) + (EncodeItems(items) + rest);
      DecodeHeaded(4, |items|, EncodeItems(items) + rest);
      DecodeEncodeItems(items, rest);
    case Map(pairs) =>
      assert Encode(v) + rest == Head(5, |pairs|) + (EncodePairs(pairs) + rest);
      DecodeHeaded(5, |pairs|, EncodePairs(pairs) + rest);
      DecodeEncodePairs(pairs, rest);
    case Tag(number, content) =>
      assert Encode(v) + rest == Head(6, number) + (Encode(content) + rest);
      DecodeHeaded(6, number, Encode(content) + rest);
      DecodeEncode(content, rest);
  }

  lemma {:induction false} DecodeEncodeItems(vs: seq<Value>, rest: seq<byte>)
    requires FitItems(vs)
    ensures DecodeItems(EncodeItems(vs) + rest, |vs|) == Some((vs, rest))
    decreases vs, 0
  {
    if vs == [] {
      assert EncodeItems(vs) + rest == rest;
    } else {
      var after := EncodeItems(vs[1..]) + rest;
      assert EncodeItems(vs) + rest == Encode(vs[0]) + after;
      DecodeEncode(vs[0], after);
      DecodeEncodeItems(vs[1..], rest);
      assert [vs[0]] + vs[1..] == vs;
    }
  }

  lemma {:induction false} DecodeEncodePairs(ps: seq<Pair>, rest: seq<byte>)
    requires FitPairs(ps)
    ensures DecodePairs(EncodePairs(ps) + rest, |ps|) == Some((ps, rest))
    decreases ps, 0
  {
    if ps == [] {
      assert EncodePairs(ps) + rest == rest;
    } else {
      var p, after := ps[0], EncodePairs(ps[1..]) + rest;
      assert EncodePairs(ps) + rest == Encode(p.key) + (Encode(p.value) + after);
      DecodeEncodePair(p, after);
      DecodeEncodePairs(ps[1..], rest);
      assert [p] + ps[1..] == ps;
    }
  }

  lemma {:induction false} DecodeEncodePair(p: Pair, after: seq<byte>)
    requires FitPair(p)
    ensures Decode(Encode(p.key) + (Encode(p.value) + after)) == Some((p.key, Encode(p.value) + after))
    ensures Decode(Encode(p.value) + after) == Some((p.value, after))
    decreases p, 2
  {
    DecodeEncode(p.key, Encode(p.value) + after);
    DecodeEncode(p.value, after);
  }

  lemma DecodeAllEncode(v: Value)
    requires Fits(v)
    ensures DecodeAll(Encode(v)) == Some(v)
  {
    DecodeEncode(v, []);
    assert Encode(v) + [] == Encode(v);
  }

  lemma HeadFits(s: seq<byte>)
    requires ReadHead(s).Some?
    ensures ReadHead(s).value.1 < LIMIT
  {
    Widths();
    if s[0] % 32 >= 24 {
      NumberIsBelow(s[1..1 + Width(s[0] % 32)]);
    }
  }

  /** Whatever decodes has no length of 2^64 or more. */
  lemma {:induction false} DecodedFits(s: seq<byte>)
    ensures Decode(s).Some? ==> Fits(Decode(s).value.0)
    decreases |s|, 0
  {
    if Decode(s).Some? {
      var (major, n, rest) := ReadHead(s).value;
      HeadFits(s);
      DecodedBodyFits(major, n, rest);
    }
  }

  lemma {:induction false} DecodedBodyFits(major: nat, n: nat, s: seq<byte>)
    requires DecodeBody(major, n, s).Some? && n < LIMIT
    ensures Fits(DecodeBody(major, n, s).value.0)
    decreases |s|, 2
  {
    if major == 4 {
      DecodedItemsFit(s, n);
    } else if major == 5 {
      DecodedPairsFit(s, n);
    } else if major == 6 {
      DecodedFits(s);
    }
  }

  lemma {:induction false} DecodedItemsFit(s: seq<byte>, n: nat)
    ensures DecodeItems(s, n).Some? ==> |DecodeItems(s, n).value.0| == n && FitItems(DecodeItems(s, n).value.0)
    decreases |s|, 1
  {
    if n > 0 && DecodeItems(s, n).Some? {
      DecodedFits(s);
      DecodedItemsFit(Decode(s).value.1, n - 1);
      var vs := DecodeItems(s, n).value.0;
      assert vs[1..] == DecodeItems(Decode(s).value.1, n - 1).value.0;
    }
  }

  lemma {:induction false} DecodedPairsFit(s: seq<byte>, n: nat)
    ensures DecodePairs(s, n).Some? ==> |DecodePairs(s, n).value.0| == n && FitPairs(DecodePairs(s, n).value.0)
    decreases |s|, 1
  {
    if n > 0 && DecodePairs(s, n).Some? {
      var rest := Decode(s).value.1;
      DecodedFits(s);
      DecodedFits(rest);
      DecodedPairsFit(Decode(rest).value.1, n - 1);
      var ps := DecodePairs(s, n).value.0;
      assert ps[1..] == DecodePairs(Decode(rest).value.1, n - 1).value.0;
    }
  }

  /** So values with equal encodings are equal. */
  lemma EncodeInjective(v: Value, w: Value)
    requires Fits(v) && Fits(w) && Encode(v) == Encode(w)
    ensures v == w
  {
    DecodeAllEncode(v);
    DecodeAllEncode(w);
  }

  function Encodings(vs: seq<Value>): seq<seq<byte>> {
    seq(|vs|, i requires 0 <= i < |vs| => Encode(vs[i]))
  }

  lemma EncodingsFront(vs: seq<Value>)
    requires vs != []
    ensures Encodings(vs) == [Encode(vs[0])] + Encodings(vs[1..])
  {
  }

  lemma RawItemOf(v: Value, rest: seq<byte>)
    requires Fits(v)
    ensures RawItem(Encode(v) + rest) == Some((Encode(v), rest))
  {
    DecodeEncode(v, rest);
    TakeFront(Encode(v), rest);
  }

  /** Encoded items come apart into the octets of each. */
  lemma {:induction false} RawItemsOf(vs: seq<Value>, rest: seq<byte>)
    requires FitItems(vs)
    ensures RawItems(EncodeItems(vs) + rest, |vs|) == Some((Encodings(vs), rest))
  {
    if vs == [] {
      assert EncodeItems(vs) + rest == rest && Encodings(vs) == [];
    } else {
      var after := EncodeItems(vs[1..]) + rest;
      assert EncodeItems(vs) + rest == Encode(vs[0]) + after;
      RawItemOf(vs[0], after);
      RawItemsOf(vs[1..], rest);
      EncodingsFront(vs);
    }
  }

  function RawPairsFrom(ps: seq<Pair>): seq<RawPair> {
    seq(|ps|, i requires 0 <= i < |ps| => RawPair(ps[i].key, Encode(ps[i].value)))
  }

  lemma {:induction false} RawPairsOf(ps: seq<Pair>, rest: seq<byte>)
    requires FitPairs(ps)
    ensures RawPairs(EncodePairs(ps) + rest, |ps|) == Some((RawPairsFrom(ps), rest))
  {
    if ps == [] {
      assert EncodePairs(ps) + rest == rest;
    } else {
      var p, after := ps[0], EncodePairs(ps[1..]) + rest;
      assert EncodePairs(ps) + rest == Encode(p.key) + (Encode(p.value) + after);
      DecodeEncodePair(p, after);
      RawItemOf(p.value, after);
      RawPairsOf(ps[1..], rest);
      assert [RawPair(p.key, Encode(p.value))] + RawPairsFrom(ps[1..]) == RawPairsFrom(ps);
    }
  }

  lemma RawArrayOf(vs: seq<Value>)
    requires Fits(Array(vs))
    ensures RawArray(Encode(Array(vs))) == Some(Encodings(vs))
  {
    ReadHeadOf(4, |vs|, EncodeItems(vs));
    RawItemsOf(vs, []);
    assert EncodeItems(vs) + [] == EncodeItems(vs);
  }

  lemma RawMapOf(ps: seq<Pair>)
    requires Fits(Map(ps))
    ensures RawMap(Encode(Map(ps))) == Some(RawPairsFrom(ps))
  {
    ReadHeadOf(5, |ps|, EncodePairs(ps));
    RawPairsOf(ps, []);
    assert EncodePairs(ps) + [] == EncodePairs(ps);
  }
}
