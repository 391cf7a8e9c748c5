/** The messages between the LRUIndex client, the switch and the server. */
module WireCodec {
  import opened Bytes
  import opened Options

  const TWO_48: int := 0x1_0000_0000_0000

  // ---------- numbers as bytes ----------

  /** The n low bytes of v, the highest first. */
  function BigEndian(v: nat, n: nat): (s: seq<Byte>)
    ensures |s| == n
  {
    if n == 0 then [] else BigEndian(v / 256, n - 1) + [v % 256]
  }

  /** The n low bytes of v, the lowest first: how the machine stores v. */
  function LittleEndian(v: nat, n: nat): (s: seq<Byte>)
    ensures |s| == n
  {
    if n == 0 then [] else [v % 256] + LittleEndian(v / 256, n - 1)
  }

  function FromBig(s: seq<Byte>): nat {
    if s == [] then 0 else FromBig(s[..|s| - 1]) * 256 + s[|s| - 1]
  }

  function FromLittle(s: seq<Byte>): nat {
    if s == [] then 0 else s[0] + 256 * FromLittle(s[1..])
  }

  function Power(n: nat): (p: nat)
    ensures p > 0
  {
    if n == 0 then 1 else 256 * Power(n - 1)
  }

  lemma {:induction false} BigRoundTrip(v: nat, n: nat)
    requires v < Power(n)
    ensures FromBig(BigEndian(v, n)) == v
  {
    if n > 0 {
      assert BigEndian(v, n)[..n - 1] == BigEndian(v / 256, n - 1);
      BigRoundTrip(v / 256, n - 1);
    }
  }

  lemma {:induction false} LittleRoundTrip(v: nat, n: nat)
    requires v < Power(n)
    ensures FromLittle(LittleEndian(v, n)) == v
  {
    if n > 0 {
      assert LittleEndian(v, n)[1..] == LittleEndian(v / 256, n - 1);
      LittleRoundTrip(v / 256, n - 1);
    }
  }

  lemma {:induction false} Powers()
    ensures Power(4) == TWO_32 && Power(6) == TWO_48 && Power(8) == TWO_64
  {
    assert Power(4) == 256 * 256 * 256 * 256;
    assert Power(6) == Power(4) * 256 * 256;
    assert Power(8) == Power(6) * 256 * 256;
  }

  // ---------- what is written ----------

  type Pairs = seq<(seq<Byte>, seq<Byte>)>

  function TypeBytes(t: nat): (s: seq<Byte>)
    ensures |s| == 4
  {
    BigEndian(t, 4)
  }

  /** The key in two halves, the six low bytes of the index, and the flag. */
  function HeaderBytes(key: nat, idx: int, flag: int): (s: seq<Byte>)
    ensures |s| == 15
  {
    BigEndian(key / TWO_32, 4) + BigEndian(key % TWO_32, 4) + BigEndian(idx % TWO_48, 6) + [flag % 256]
  }

  /** A length as the machine stores it in 32 bits. */
  function LengthBytes(n: nat): (s: seq<Byte>)
    ensures |s| == 4
  {
    LittleEndian(n % TWO_32, 4)
  }

  /** A string behind its length. */
  function StringBytes(s: seq<Byte>): seq<Byte> { LengthBytes(|s|) + s }

  function PairBytes(p: (seq<Byte>, seq<Byte>)): seq<Byte> { StringBytes(p.0) + StringBytes(p.1) }

  /** The pairs from number i on. */
  function PairsBytes(values: Pairs, i: nat): seq<Byte>
    decreases |values| - i
  {
    if i >= |values| then [] else PairBytes(values[i]) + PairsBytes(values, i + 1)
  }

  function ValuesBytes(values: Pairs): seq<Byte> { LengthBytes(|values|) + PairsBytes(values, 0) }

  // ---------- what is read ----------

  function TakeType(m: seq<Byte>): Option<(nat, seq<Byte>)> {
    if |m| < 4 then None else Some((FromBig(m[..4]), m[4..]))
  }

  /** A byte as a signed one. */
  function Signed8(b: Byte): int { if b < 128 then b else b - 256 }

  /** The index and the flag; the key is skipped. */
  function TakeHeader(m: seq<Byte>): Option<(nat, int, seq<Byte>)> {
    if |m| < 15 then None else Some((FromBig(m[8..14]), Signed8(m[14]), m[15..]))
  }

  /** A length, as the machine stores it. */
  function TakeLength(m: seq<Byte>): (r: Option<(nat, seq<Byte>)>)
    ensures r.Some? ==> |r.value.1| < |m|
  {
    if |m| < 4 then None else Some((FromLittle(m[..4]), m[4..]))
  }

  function TakeString(m: seq<Byte>): (r: Option<(seq<Byte>, seq<Byte>)>)
    ensures r.Some? ==> |r.value.1| < |m|
  {
    var l := TakeLength(m);
    if l.None? || |l.value.1| < l.value.0 then None else Some((l.value.1[..l.value.0], l.value.1[l.value.0..]))
  }

  function TakePair(m: seq<Byte>): Option<((seq<Byte>, seq<Byte>), seq<Byte>)> {
    var first := TakeString(m);
    if first.None? then None
    else
      var second := TakeString(first.value.1);
      if second.None? then None else Some(((first.value.0, second.value.0), second.value.1))
  }

  function TakePairs(m: seq<Byte>, n: nat): Option<(Pairs, seq<Byte>)>
    decreases n
  {
    if n == 0 then Some(([], m))
    else
      var first := TakePair(m);
      if first.None? then None
      else
        var more := TakePairs(first.value.1, n - 1);
        if more.None? then None else Some(([first.value.0] + more.value.0, more.value.1))
  }

  function TakeValues(m: seq<Byte>): Option<(Pairs, seq<Byte>)> {
    var l := TakeLength(m);
    if l.None? then None else TakePairs(l.value.1, l.value.0)
  }

  // ---------- round trips ----------

  lemma {:induction false} TypeRoundTrip(t: nat, rest: seq<Byte>)
    requires t < TWO_32
    ensures TakeType(TypeBytes(t) + rest) == Some((t, rest))
  {
    var m := TypeBytes(t) + rest;
    assert m[..4] == TypeBytes(t) && m[4..] == rest;
    Powers();
    BigRoundTrip(t, 4);
  }

  /** A length at the front of a message. */
  lemma {:induction false} LengthReads(n: nat, rest: seq<Byte>)
    requires n < TWO_32
    ensures TakeLength(LengthBytes(n) + rest) == Some((n, rest))
  {
    var m := LengthBytes(n) + rest;
    assert m[..4] == LengthBytes(n) && m[4..] == rest;
    Powers();
    LengthIs(n);
    LittleRoundTrip(n, 4);
  }

  lemma {:induction false} Signed8OfByte(flag: int)
    requires -128 <= flag < 128
    ensures Signed8(flag % 256) == flag
  {
  }

  /** The index comes back modulo 2 to the 48th: itself if and only if it is not negative and fits
      in 48 bits. */
  lemma {:induction false} HeaderRoundTrip(key: nat, idx: int, flag: int, rest: seq<Byte>)
    requires key < TWO_64 && -TWO_63 <= idx < TWO_63 && -128 <= flag < 128
    ensures TakeHeader(HeaderBytes(key, idx, flag) + rest) == Some((idx % TWO_48, flag, rest))
    ensures idx % TWO_48 == idx <==> 0 <= idx < TWO_48
  {
    var h := HeaderBytes(key, idx, flag);
    var m := h + rest;
    assert m[8..14] == BigEndian(idx % TWO_48, 6) && m[14] == flag % 256 && m[15..] == rest;
    Powers();
    BigRoundTrip(idx % TWO_48, 6);
    Signed8OfByte(flag);
  }

  lemma {:induction false} StringRoundTrip(s: seq<Byte>, rest: seq<Byte>)
    requires |s| < TWO_32
    ensures TakeString(StringBytes(s) + rest) == Some((s, rest))
  {
    Regroup(LengthBytes(|s|), s, rest);
    LengthReads(|s|, s + rest);
    var m := StringBytes(s) + rest;
    assert (s + rest)[..|s|] == s && (s + rest)[|s|..] == rest;
  }

  ghost predicate Short(values: Pairs) {
    forall v :: v in values ==> |v.0| < TWO_32 && |v.1| < TWO_32
  }

  /** Reading a pair and reading pairs as values, for proofs that rest on one step at a time. */
  datatype Taker = Taker(
    one: seq<Byte> -> Option<((seq<Byte>, seq<Byte>), seq<Byte>)>,
    all: (seq<Byte>, nat) -> Option<(Pairs, seq<Byte>)>)

  ghost predicate Takes(t: Taker) {
    && (forall m: seq<Byte> {:trigger OneAt(t, m)} :: OneAt(t, m))
    && (forall m: seq<Byte>, n: nat {:trigger AllAt(t, m, n)} :: AllAt(t, m, n))
  }

  ghost predicate OneAt(t: Taker, m: seq<Byte>) { t.one(m) == TakePair(m) }

  ghost predicate AllAt(t: Taker, m: seq<Byte>, n: nat) { t.all(m, n) == TakePairs(m, n) }

  function TheTaker(): (t: Taker)
    ensures Takes(t)
  {
    Taker(TakePair, TakePairs)
  }

  lemma {:induction false} TakeStep(t: Taker, m: seq<Byte>, n: nat)
    requires Takes(t)
    ensures t.all(m, 0) == Some(([], m))
    ensures n > 0 && t.one(m).None? ==> t.all(m, n).None?
    ensures n > 0 && t.one(m).Some? ==>
      var more := t.all(t.one(m).value.1, n - 1);
      t.all(m, n) == if more.None? then None else Some(([t.one(m).value.0] + more.value.0, more.value.1))
  {
    assert AllAt(t, m, n) && AllAt(t, m, 0) && OneAt(t, m);
    if n > 0 && t.one(m).Some? {
      assert AllAt(t, t.one(m).value.1, n - 1);
    }
  }

  lemma {:induction false} PairRoundTrip(t: Taker, p: (seq<Byte>, seq<Byte>), rest: seq<Byte>)
    requires Takes(t) && |p.0| < TWO_32 && |p.1| < TWO_32
    ensures t.one(PairBytes(p) + rest) == Some((p, rest))
  {
    assert OneAt(t, PairBytes(p) + rest);
    Regroup(StringBytes(p.0), StringBytes(p.1), rest);
    StringRoundTrip(p.0, StringBytes(p.1) + rest);
    StringRoundTrip(p.1, rest);
  }

  lemma {:induction false} PairsRoundTrip(t: Taker, values: Pairs, i: nat, rest: seq<Byte>)
    requires Takes(t) && Short(values) && i <= |values|
    ensures t.all(PairsBytes(values, i) + rest, |values| - i) == Some((values[i..], rest))
    decreases |values| - i
  {
    TakeStep(t, PairsBytes(values, i) + rest, |values| - i);
    if i == |values| {
      assert [] + rest == rest;
    } else {
      Regroup(PairBytes(values[i]), PairsBytes(values, i + 1), rest);
      PairRoundTrip(t, values[i], PairsBytes(values, i + 1) + rest);
      PairsRoundTrip(t, values, i + 1, rest);
      assert values[i..] == [values[i]] + values[i + 1..];
    }
  }

  lemma {:induction false} ValuesRoundTrip(values: Pairs, rest: seq<Byte>)
    requires |values| < TWO_32 && Short(values)
    ensures TakeValues(ValuesBytes(values) + rest) == Some((values, rest))
  {
    LengthReads(|values|, PairsBytes(values, 0) + rest);
    var t := TheTaker();
    PairsRoundTrip(t, values, 0, rest);
    assert AllAt(t, PairsBytes(values, 0) + rest, |values|);
    assert values[0..] == values;
    Regroup(LengthBytes(|values|), PairsBytes(values, 0), rest);
  }

  // ---------- where the bytes are ----------

  /** The number of these bytes, from the highest to the lowest. */
  function Number(a: int, b: int, c: int, d: int): int {
    0x100_0000 * a + 0x1_0000 * b + 0x100 * c + d
  }

  lemma {:induction false} FourBytes(v: nat)
    requires v < TWO_32
    ensures var b, l := BigEndian(v, 4), LittleEndian(v, 4);
            && Number(b[0], b[1], b[2], b[3]) == v
            && Number(l[3], l[2], l[1], l[0]) == v
  {
    var v1, v2, v3 := v / 256, v / 256 / 256, v / 256 / 256 / 256;
    assert BigEndian(v3, 1) == [] + [v3 % 256];
    assert BigEndian(v2, 2) == BigEndian(v3, 1) + [v2 % 256];
    assert BigEndian(v1, 3) == BigEndian(v2, 2) + [v1 % 256];
    assert LittleEndian(v3, 1) == [v3 % 256] + [];
    assert LittleEndian(v2, 2) == [v2 % 256] + LittleEndian(v3, 1);
    assert LittleEndian(v1, 3) == [v1 % 256] + LittleEndian(v2, 2);
  }

  lemma {:induction false} SixBytes(v: nat)
    requires v < TWO_48
    ensures var b := BigEndian(v, 6);
            0x1_0000 * Number(b[0], b[1], b[2], b[3]) + Number(0, 0, b[4], b[5]) == v
  {
    var w := v / 256 / 256;
    assert BigEndian(v / 256, 5) == BigEndian(w, 4) + [v / 256 % 256];
    assert BigEndian(v, 6) == BigEndian(w, 4) + [v / 256 % 256] + [v % 256];
    FourBytes(w);
  }

  /** The header as the switch parses it, all numbers with the highest byte first: eight bytes of key,
      six of index, and the flag. */
  lemma {:induction false} HeaderLayout(key: nat, idx: int, flag: int)
    requires key < TWO_64
    ensures var h := HeaderBytes(key, idx, flag);
            && 0x1_0000_0000 * Number(h[0], h[1], h[2], h[3]) + Number(h[4], h[5], h[6], h[7]) == key
            && 0x1_0000 * Number(h[8], h[9], h[10], h[11]) + Number(0, 0, h[12], h[13]) == idx % TWO_48
            && h[14] == flag % 256
  {
    FourBytes(key / TWO_32);
    FourBytes(key % TWO_32);
    SixBytes(idx % TWO_48);
  }

  /** The type of a message has its highest byte first. */
  lemma {:induction false} TypeLayout(v: nat)
    requires v < TWO_32
    ensures var t := TypeBytes(v); Number(t[0], t[1], t[2], t[3]) == v
  {
    FourBytes(v);
  }

  /** A length has its lowest byte first. */
  lemma {:induction false} LengthLayout(v: nat)
    requires v < TWO_32
    ensures var l := LengthBytes(v); Number(l[3], l[2], l[1], l[0]) == v
  {
    LengthIs(v);
    FourBytes(v);
  }

  lemma {:induction false} LengthIs(v: nat)
    requires v < TWO_32
    ensures LengthBytes(v) == LittleEndian(v, 4)
  {
    assert v % TWO_32 == v;
  }

  // ---------- whole messages ----------

  /** What a query carries, as the server reads it. */
  datatype Query = Query(kind: nat, idx: nat, flag: int, keyIndex: seq<Byte>)

  /** What an answer carries, as the client reads it. */
  datatype Answer = Answer(kind: nat, idx: nat, flag: int, values: Pairs)

  function QueryBytes(kind: nat, key: nat, idx: int, flag: int, keyIndex: seq<Byte>): seq<Byte> {
    TypeBytes(kind) + (HeaderBytes(key, idx, flag) + StringBytes(keyIndex))
  }

  function AnswerBytes(kind: nat, key: nat, idx: int, flag: int, values: Pairs): seq<Byte> {
    TypeBytes(kind) + (HeaderBytes(key, idx, flag) + ValuesBytes(values))
  }

  function TakeQuery(m: seq<Byte>): Option<(Query, seq<Byte>)> {
    var t := TakeType(m);
    if t.None? then None
    else
      var h := TakeHeader(t.value.1);
      if h.None? then None
      else
        var k := TakeString(h.value.2);
        if k.None? then None else Some((Query(t.value.0, h.value.0, h.value.1, k.value.0), k.value.1))
  }

  function TakeAnswer(m: seq<Byte>): Option<(Answer, seq<Byte>)> {
    var t := TakeType(m);
    if t.None? then None
    else
      var h := TakeHeader(t.value.1);
      if h.None? then None
      else
        var v := TakeValues(h.value.2);
        if v.None? then None else Some((Answer(t.value.0, h.value.0, h.value.1, v.value.0), v.value.1))
  }

  /** A query is read as it was written, up to the bytes of the index beyond the sixth, and whatever
      follows it is left. */
  lemma {:induction false} QueryRoundTrip(kind: nat, key: nat, idx: int, flag: int, keyIndex: seq<Byte>,
                                          rest: seq<Byte>)
    requires kind < TWO_32 && key < TWO_64 && -TWO_63 <= idx < TWO_63 && -128 <= flag < 128 && |keyIndex| < TWO_32
    ensures TakeQuery(QueryBytes(kind, key, idx, flag, keyIndex) + rest)
            == Some((Query(kind, idx % TWO_48, flag, keyIndex), rest))
  {
    var h, k := HeaderBytes(key, idx, flag), StringBytes(keyIndex);
    Regroup(TypeBytes(kind), h + k, rest);
    Regroup(h, k, rest);
    TypeRoundTrip(kind, h + (k + rest));
    HeaderRoundTrip(key, idx, flag, k + rest);
    StringRoundTrip(keyIndex, rest);
  }

  /** The same for an answer with its list of values. */
  lemma {:induction false} AnswerRoundTrip(kind: nat, key: nat, idx: int, flag: int, values: Pairs, rest: seq<Byte>)
    requires kind < TWO_32 && key < TWO_64 && -TWO_63 <= idx < TWO_63 && -128 <= flag < 128
    requires |values| < TWO_32 && Short(values)
    ensures TakeAnswer(AnswerBytes(kind, key, idx, flag, values) + rest)
            == Some((Answer(kind, idx % TWO_48, flag, values), rest))
  {
    var h, v := HeaderBytes(key, idx, flag), ValuesBytes(values);
    Regroup(TypeBytes(kind), h + v, rest);
    Regroup(h, v, rest);
    TypeRoundTrip(kind, h + (v + rest));
    HeaderRoundTrip(key, idx, flag, v + rest);
    ValuesRoundTrip(values, rest);
  }
}
