/** Writing messages into a buffer and reading them from it, against WireCodec. */
module WireMessages {
  import opened Bytes
  import opened Options
  import opened WireCodec

  // ---------- writing ----------

  method Memcpy(msg: array<Byte>, at: nat, s: seq<Byte>) returns (len: nat)
    requires at + |s| <= msg.Length
    modifies msg
    ensures len == |s| && msg[..at + len] == old(msg[..at]) + s
  {
    len := 0;
    while len < |s|
      invariant 0 <= len <= |s|
      invariant msg[..at + len] == old(msg[..at]) + s[..len]
    {
      ghost var before := msg[..at + len];
      msg[at + len] := s[len];
      assert msg[..at + len + 1] == before + [s[len]];
      assert s[..len + 1] == s[..len] + [s[len]];
      len := len + 1;
    }
    assert s[..len] == s;
  }

  method InjectMsgType(msg: array<Byte>, at: nat, msgType: nat) returns (len: nat)
    requires at + 4 <= msg.Length
    modifies msg
    ensures len == 4 && msg[..at + len] == old(msg[..at]) + TypeBytes(msgType)
  {
    len := Memcpy(msg, at, TypeBytes(msgType));
  }

  function Shifted(v: nat, i: nat): nat {
    if i == 0 then v else Shifted(v / 256, i - 1)
  }

  lemma {:induction false} LittleAt(v: nat, n: nat, i: nat)
    requires i < n
    ensures LittleEndian(v, n)[i] == Shifted(v, i) % 256
  {
    if i > 0 { LittleAt(v / 256, n - 1, i - 1); }
  }

  lemma {:induction false} BigAt(v: nat, n: nat, i: nat)
    requires i < n
    ensures BigEndian(v, n)[n - 1 - i] == Shifted(v, i) % 256
  {
    if i > 0 { BigAt(v / 256, n - 1, i - 1); }
  }

  lemma {:induction false} DropByte(v: nat, w: nat, p: nat, k: nat)
    requires v == w + 256 * p * k
    ensures v % 256 == w % 256 && v / 256 == w / 256 + p * k
  {
    assert 256 * p * k == 256 * (p * k);
  }

  /** Numbers that agree in their n low bytes. */
  lemma {:induction false} SameLowBytes(v: nat, w: nat, n: nat, k: nat, i: nat)
    requires i < n && v == w + Power(n) * k
    ensures Shifted(v, i) % 256 == Shifted(w, i) % 256
  {
    DropByte(v, w, Power(n - 1), k);
    if i > 0 { SameLowBytes(v / 256, w / 256, n - 1, k, i - 1); }
  }

  /** The six low bytes of a stored number, from the sixth to the first. */
  lemma {:induction false} IndexBytes(v: nat)
    ensures var l := LittleEndian(v, 8); BigEndian(v % TWO_48, 6) == [l[5], l[4], l[3], l[2], l[1], l[0]]
  {
    var l, b := LittleEndian(v, 8), BigEndian(v % TWO_48, 6);
    Powers();
    forall i | 0 <= i < 6 ensures b[5 - i] == l[i] {
      IndexByte(v, i);
    }
    assert b[5] == l[0] && b[4] == l[1] && b[3] == l[2] && b[2] == l[3] && b[1] == l[4] && b[0] == l[5] by {
      assert b[5 - 0] == l[0] && b[5 - 1] == l[1] && b[5 - 2] == l[2] && b[5 - 3] == l[3] && b[5 - 4] == l[4]
             && b[5 - 5] == l[5];
    }
  }

  lemma {:induction false} IndexByte(v: nat, i: nat)
    requires i < 6
    ensures BigEndian(v % TWO_48, 6)[5 - i] == LittleEndian(v, 8)[i]
  {
    Powers();
    LittleAt(v, 8, i);
    BigAt(v % TWO_48, 6, i);
    SameLowBytes(v, v % TWO_48, 6, v / TWO_48, i);
  }

  lemma {:induction false} IndexModulo(idx: int)
    ensures idx % TWO_64 % TWO_48 == idx % TWO_48
  {
  }

  /** The index is written byte by byte, from the sixth of its stored bytes to the first. */
  method InjectFbtHdr(msg: array<Byte>, at: nat, fbtKey: nat, fbtIdx: int, fbtFlag: int) returns (len: nat)
    requires at + 15 <= msg.Length && fbtKey < TWO_64 && -TWO_63 <= fbtIdx < TWO_63 && -128 <= fbtFlag < 128
    modifies msg
    ensures len == 15 && msg[..at + len] == old(msg[..at]) + HeaderBytes(fbtKey, fbtIdx, fbtFlag)
  {
    ghost var before := msg[..at];
    var keyHi, keyLo := BigEndian(fbtKey / TWO_32, 4), BigEndian(fbtKey % TWO_32, 4);
    len := Memcpy(msg, at, keyHi);
    var more := Memcpy(msg, at + len, keyLo);
    len := len + more;
    var inIdx := LittleEndian(fbtIdx % TWO_64, 8);
    IndexBytes(fbtIdx % TWO_64);
    IndexModulo(fbtIdx);
    more := Memcpy(msg, at + len, [inIdx[5], inIdx[4], inIdx[3], inIdx[2], inIdx[1], inIdx[0]]);
    len := len + more;
    more := Memcpy(msg, at + len, [fbtFlag % 256]);
    len := len + more;
    var idx := BigEndian(fbtIdx % TWO_48, 6);
    Regroup(before, keyHi, keyLo);
    Regroup(before, keyHi + keyLo, idx);
    Regroup(before, keyHi + keyLo + idx, [fbtFlag % 256]);
  }

  method InjectKeyIndex(msg: array<Byte>, at: nat, keyIndex: seq<Byte>) returns (len: nat)
    requires at + |StringBytes(keyIndex)| <= msg.Length
    modifies msg
    ensures len == |StringBytes(keyIndex)| && msg[..at + len] == old(msg[..at]) + StringBytes(keyIndex)
  {
    ghost var before := msg[..at];
    len := Memcpy(msg, at, LengthBytes(|keyIndex|));
    var more := Memcpy(msg, at + len, keyIndex);
    len := len + more;
    Regroup(before, LengthBytes(|keyIndex|), keyIndex);
  }

  method InjectPair(msg: array<Byte>, at: nat, k: seq<Byte>, v: seq<Byte>) returns (len: nat)
    requires at + |PairBytes((k, v))| <= msg.Length
    modifies msg
    ensures len == |PairBytes((k, v))| && msg[..at + len] == old(msg[..at]) + PairBytes((k, v))
  {
    ghost var before := msg[..at];
    len := InjectKeyIndex(msg, at, k);
    var more := InjectKeyIndex(msg, at + len, v);
    len := len + more;
    Regroup(before, StringBytes(k), StringBytes(v));
  }

  method InjectValues(msg: array<Byte>, at: nat, values: Pairs) returns (len: nat)
    requires at + |ValuesBytes(values)| <= msg.Length
    modifies msg
    ensures len == |ValuesBytes(values)| && msg[..at + len] == old(msg[..at]) + ValuesBytes(values)
  {
    ghost var before := msg[..at];
    ghost var all := before + ValuesBytes(values);
    Regroup(before, LengthBytes(|values|), PairsBytes(values, 0));
    len := Memcpy(msg, at, LengthBytes(|values|));
    var i := 0;
    while i < |values|
      invariant 0 <= i <= |values| && at + len + |PairsBytes(values, i)| == |all| <= msg.Length
      invariant msg[..at + len] + PairsBytes(values, i) == all
    {
      Regroup(msg[..at + len], PairBytes(values[i]), PairsBytes(values, i + 1));
      var more := InjectPair(msg, at + len, values[i].0, values[i].1);
      len := len + more;
      i := i + 1;
    }
  }

  /** A query written in one piece. */
  method InjectQuery(msg: array<Byte>, msgType: nat, fbtKey: nat, fbtIdx: int, fbtFlag: int, keyIndex: seq<Byte>)
    returns (len: nat)
    requires |QueryBytes(msgType, fbtKey, fbtIdx, fbtFlag, keyIndex)| <= msg.Length
    requires msgType < TWO_32 && fbtKey < TWO_64 && -TWO_63 <= fbtIdx < TWO_63 && -128 <= fbtFlag < 128
    modifies msg
    ensures len <= msg.Length && msg[..len] == QueryBytes(msgType, fbtKey, fbtIdx, fbtFlag, keyIndex)
  {
    len := InjectMsgType(msg, 0, msgType);
    var more := InjectFbtHdr(msg, len, fbtKey, fbtIdx, fbtFlag);
    len := len + more;
    more := InjectKeyIndex(msg, len, keyIndex);
    len := len + more;
    assert [] + TypeBytes(msgType) == TypeBytes(msgType);
    Regroup(TypeBytes(msgType), HeaderBytes(fbtKey, fbtIdx, fbtFlag), StringBytes(keyIndex));
  }

  /** An answer written in one piece. */
  method InjectAnswer(msg: array<Byte>, msgType: nat, fbtKey: nat, fbtIdx: int, fbtFlag: int, values: Pairs)
    returns (len: nat)
    requires |AnswerBytes(msgType, fbtKey, fbtIdx, fbtFlag, values)| <= msg.Length
    requires msgType < TWO_32 && fbtKey < TWO_64 && -TWO_63 <= fbtIdx < TWO_63 && -128 <= fbtFlag < 128
    modifies msg
    ensures len <= msg.Length && msg[..len] == AnswerBytes(msgType, fbtKey, fbtIdx, fbtFlag, values)
  {
    len := InjectMsgType(msg, 0, msgType);
    var more := InjectFbtHdr(msg, len, fbtKey, fbtIdx, fbtFlag);
    len := len + more;
    more := InjectValues(msg, len, values);
    len := len + more;
    assert [] + TypeBytes(msgType) == TypeBytes(msgType);
    Regroup(TypeBytes(msgType), HeaderBytes(fbtKey, fbtIdx, fbtFlag), ValuesBytes(values));
  }

  // ---------- reading ----------

  lemma {:induction false} Window(m: seq<Byte>, at: nat, a: nat, b: nat)
    requires at <= |m| && a <= b && at + b <= |m|
    ensures m[at..][a..b] == m[at + a..at + b] && m[at..][b..] == m[at + b..]
  {
  }

  method ExtractMsgType(msg: array<Byte>, at: nat) returns (len: nat, msgType: nat)
    requires at + 4 <= msg.Length
    ensures at + len <= msg.Length && TakeType(msg[at..]) == Some((msgType, msg[at + len..]))
  {
    Window(msg[..], at, 0, 4);
    msgType := FromBig(msg[at..at + 4]);
    len := 4;
  }

  /** The bytes from the last to the first. */
  function Flip(b: seq<Byte>): (f: seq<Byte>)
    ensures |f| == |b| && forall i :: 0 <= i < |f| ==> f[i] == b[|b| - 1 - i]
  {
    if b == [] then [] else [b[|b| - 1]] + Flip(b[..|b| - 1])
  }

  lemma {:induction false} FlipReads(b: seq<Byte>)
    ensures FromLittle(Flip(b)) == FromBig(b)
  {
    if b != [] {
      assert Flip(b)[1..] == Flip(b[..|b| - 1]);
      FlipReads(b[..|b| - 1]);
    }
  }

  lemma {:induction false} ZerosOnTop(l: seq<Byte>)
    ensures FromLittle(l + [0, 0]) == FromLittle(l)
  {
    if l == [] {
      assert [] + [0, 0] == [0, 0] && [0, 0][1..] == [0] && [0][1..] == [];
      assert FromLittle([0]) == 0;
    } else {
      assert (l + [0, 0])[1..] == l[1..] + [0, 0];
      ZerosOnTop(l[1..]);
    }
  }

  /** The stored bytes of an index, put back in place with two zero bytes on top. */
  lemma {:induction false} StoredIndex(b: seq<Byte>)
    requires |b| == 6
    ensures FromLittle([b[5], b[4], b[3], b[2], b[1], b[0], 0, 0]) == FromBig(b)
  {
    FlipReads(b);
    ZerosOnTop(Flip(b));
    assert [b[5], b[4], b[3], b[2], b[1], b[0], 0, 0] == Flip(b) + [0, 0];
  }

  method ExtractFbtHdr(msg: array<Byte>, at: nat) returns (len: nat, fbtIdx: nat, fbtFlag: int)
    requires at + 15 <= msg.Length
    ensures at + len <= msg.Length && TakeHeader(msg[at..]) == Some((fbtIdx, fbtFlag, msg[at + len..]))
  {
    len := 4;
    len := len + 4;
    var b := msg[at + len..at + len + 6];
    var inIdx := [b[5], b[4], b[3], b[2], b[1], b[0], 0, 0];
    StoredIndex(b);
    fbtIdx := FromLittle(inIdx);
    len := len + 6;
    fbtFlag := Signed8(msg[at + len]);
    len := len + 1;
    Window(msg[..], at, 8, 14);
    Window(msg[..], at, 15, 15);
  }

  method ExtractKeyIndex(msg: array<Byte>, at: nat) returns (len: nat, keyIndex: seq<Byte>)
    requires at <= msg.Length && TakeString(msg[at..]).Some?
    ensures at + len <= msg.Length && TakeString(msg[at..]) == Some((keyIndex, msg[at + len..]))
  {
    Window(msg[..], at, 0, 4);
    var ubuf := FromLittle(msg[at..at + 4]);
    len := 4;
    Window(msg[..], at + 4, 0, ubuf);
    keyIndex := msg[at + len..at + len + ubuf];
    len := len + ubuf;
  }

  lemma {:induction false} PairsLonger(a: Pairs, p: (seq<Byte>, seq<Byte>), b: Pairs)
    ensures a + ([p] + b) == a + [p] + b
  {
  }

  method ExtractPair(msg: array<Byte>, at: nat, ghost t: Taker) returns (len: nat, pair: (seq<Byte>, seq<Byte>))
    requires at <= msg.Length && Takes(t) && t.one(msg[at..]).Some?
    ensures at + len <= msg.Length && t.one(msg[at..]) == Some((pair, msg[at + len..]))
  {
    assert OneAt(t, msg[at..]);
    var first, k := ExtractKeyIndex(msg, at);
    var second, v := ExtractKeyIndex(msg, at + first);
    len, pair := first + second, (k, v);
  }

  method ExtractPairs(msg: array<Byte>, at: nat, size: nat, ghost t: Taker) returns (len: nat, values: Pairs)
    requires at <= msg.Length && Takes(t) && t.all(msg[at..], size).Some?
    ensures at + len <= msg.Length && t.all(msg[at..], size) == Some((values, msg[at + len..]))
  {
    len := 0;
    values := [];
    ghost var all := t.all(msg[at..], size);
    assert [] + all.value.0 == all.value.0;
    var i := 0;
    while i < size
      invariant 0 <= i <= size && at + len <= msg.Length
      invariant t.all(msg[at + len..], size - i).Some?
      invariant var more := t.all(msg[at + len..], size - i).value; all == Some((values + more.0, more.1))
    {
      TakeStep(t, msg[at + len..], size - i);
      var more, pair := ExtractPair(msg, at + len, t);
      len := len + more;
      PairsLonger(values, pair, t.all(msg[at + len..], size - i - 1).value.0);
      values := values + [pair];
      i := i + 1;
    }
    TakeStep(t, msg[at + len..], 0);
    assert values + [] == values;
  }

  method ExtractValues(msg: array<Byte>, at: nat) returns (len: nat, values: Pairs)
    requires at <= msg.Length && TakeValues(msg[at..]).Some?
    ensures at + len <= msg.Length && TakeValues(msg[at..]) == Some((values, msg[at + len..]))
  {
    Window(msg[..], at, 0, 4);
    var size := FromLittle(msg[at..at + 4]);
    ghost var t := TheTaker();
    assert AllAt(t, msg[at + 4..], size);
    len, values := ExtractPairs(msg, at + 4, size, t);
    len := len + 4;
  }

  // ---------- whole messages ----------

  /** A query taken apart as the server does: type, header, key. */
  method ExtractQuery(msg: array<Byte>) returns (len: nat, q: Query)
    requires TakeQuery(msg[..]).Some?
    ensures len <= msg.Length && TakeQuery(msg[..]) == Some((q, msg[len..]))
  {
    assert msg[0..] == msg[..];
    var kind, idx, flag, more, keyIndex;
    len, kind := ExtractMsgType(msg, 0);
    more, idx, flag := ExtractFbtHdr(msg, len);
    len := len + more;
    more, keyIndex := ExtractKeyIndex(msg, len);
    len := len + more;
    q := Query(kind, idx, flag, keyIndex);
  }

  /** An answer taken apart as the client does: type, header, values. */
  method ExtractAnswer(msg: array<Byte>) returns (len: nat, a: Answer)
    requires TakeAnswer(msg[..]).Some?
    ensures len <= msg.Length && TakeAnswer(msg[..]) == Some((a, msg[len..]))
  {
    assert msg[0..] == msg[..];
    var kind, idx, flag, more, values;
    len, kind := ExtractMsgType(msg, 0);
    more, idx, flag := ExtractFbtHdr(msg, len);
    len := len + more;
    more, values := ExtractValues(msg, len);
    len := len + more;
    a := Answer(kind, idx, flag, values);
  }

  /** One buffer, whatever lies behind the query in it: what is written is what is read, field by
      field and in the same number of bytes, up to the bytes of the index beyond the sixth. */
  method QueryThroughBuffer(msg: array<Byte>, kind: nat, key: nat, idx: int, flag: int, keyIndex: seq<Byte>)
    returns (written: nat, read: nat, q: Query)
    requires |QueryBytes(kind, key, idx, flag, keyIndex)| <= msg.Length && |keyIndex| < TWO_32
    requires kind < TWO_32 && key < TWO_64 && -TWO_63 <= idx < TWO_63 && -128 <= flag < 128
    modifies msg
    ensures read == written && q == Query(kind, idx % TWO_48, flag, keyIndex)
  {
    written := InjectQuery(msg, kind, key, idx, flag, keyIndex);
    QueryRoundTrip(kind, key, idx, flag, keyIndex, msg[written..]);
    assert msg[..] == msg[..written] + msg[written..];
    read, q := ExtractQuery(msg);
  }

  /** The same for an answer. */
  method AnswerThroughBuffer(msg: array<Byte>, kind: nat, key: nat, idx: int, flag: int, values: Pairs)
    returns (written: nat, read: nat, a: Answer)
    requires |AnswerBytes(kind, key, idx, flag, values)| <= msg.Length && |values| < TWO_32 && Short(values)
    requires kind < TWO_32 && key < TWO_64 && -TWO_63 <= idx < TWO_63 && -128 <= flag < 128
    modifies msg
    ensures read == written && a == Answer(kind, idx % TWO_48, flag, values)
  {
    written := InjectAnswer(msg, kind, key, idx, flag, values);
    AnswerRoundTrip(kind, key, idx, flag, values, msg[written..]);
    assert msg[..] == msg[..written] + msg[written..];
    read, a := ExtractAnswer(msg);
  }
}
