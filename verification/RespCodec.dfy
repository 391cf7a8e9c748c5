/** The protocol's encoder, and the proof that the reader inverts it. */
module RespCodec {
  import opened Bytes
  import opened Options
  import opened RespMachine
  import opened RespChunks

  // ---------- the encoder ----------

  function EncodeLine(b: Byte, line: seq<Byte>): seq<Byte> { [b] + line + CRLF }

  function Encode(r: Reply): seq<Byte>
    decreases r
  {
    match r
    case Text(kind, bytes) =>
      if kind == Bulk then EncodeLine(DOLLAR, Dec(|bytes|)) + bytes + CRLF
      else EncodeLine(if kind == StatusLine then PLUS else MINUS, bytes)
    case Integer(v) => EncodeLine(COLON, DecInt(v))
    case Nil => EncodeLine(DOLLAR, DecInt(-1))
    case Array(count, items) => EncodeLine(STAR, DecInt(count)) + EncodeFrom(items, 0)
  }

  /** The encodings of all replies from number k on. */
  function EncodeFrom(rs: seq<Reply>, k: nat): seq<Byte>
    decreases rs, |rs| - k
  {
    if k >= |rs| then [] else Encode(rs[k]) + EncodeFrom(rs, k + 1)
  }

  function EncodeAll(rs: seq<Reply>): seq<Byte> { EncodeFrom(rs, 0) }

  /** A reply a server can send and the reader can take at nesting level n: texts without a line
      end in them, 64-bit integers, arrays with their own length, at most MAX_DEPTH levels. */
  ghost predicate Sendable(r: Reply, n: nat)
    decreases r
  {
    match r
    case Text(kind, bytes) =>
      if kind == Bulk then |bytes| < TWO_63 else kind in {StatusLine, ErrorLine} && SeekNewline(bytes).None?
    case Integer(v) => -TWO_63 <= v < TWO_63
    case Nil => true
    case Array(count, items) =>
      count == |items| < TWO_31 && n < MAX_DEPTH && forall i :: 0 <= i < |items| ==> Sendable(items[i], n + 1)
  }

  // ---------- numbers ----------

  lemma {:induction false} WrapStep(q: nat, d: nat)
    requires d < 10 && q * 10 + d <= TWO_63
    ensures Wrap64(Wrap64(Wrap64(q) * 10) + d) == Wrap64(q * 10 + d)
  {
    assert q < TWO_63 && q * 10 < TWO_63;
  }

  lemma {:induction false} DigitsOne(c: Byte, tail: seq<Byte>, v: int)
    requires IsDigit(c)
    ensures Digits([c] + tail, v) == Digits(tail, Wrap64(Wrap64(v * 10) + (c - ZERO)))
  {
    assert ([c] + tail)[1..] == tail;
  }

  lemma {:induction false} DigitsLast(q: nat, d: nat, tail: seq<Byte>)
    requires d < 10 && q * 10 + d <= TWO_63
    ensures Digits([ZERO + d] + tail, Wrap64(q)) == Digits(tail, Wrap64(q * 10 + d))
  {
    DigitsOne(ZERO + d, tail, Wrap64(q));
    WrapStep(q, d);
  }

  lemma {:induction false} DigitsOfDec(n: nat, tail: seq<Byte>)
    requires n <= TWO_63
    ensures Digits(Dec(n) + tail, 0) == Digits(tail, Wrap64(n))
  {
    DigitsLast(n / 10, n % 10, tail);
    if n >= 10 {
      var last := [ZERO + n % 10] + tail;
      assert Dec(n) + tail == Dec(n / 10) + last;
      DigitsOfDec(n / 10, last);
    }
  }

  lemma {:induction false} WrapNegated(n: int)
    requires 0 <= n <= TWO_63
    ensures Wrap64(-Wrap64(n)) == -n
  {
  }

  /** A numeral with a minus sign before it or none. */
  lemma {:induction false} ReadSigned(digits: seq<Byte>, v: int)
    requires digits != [] && IsDigit(digits[0]) && Digits(digits, 0) == Some(v)
    ensures ReadLong(digits) == v && ReadLong([MINUS] + digits) == Wrap64(-v)
  {
    assert ([MINUS] + digits)[1..] == digits;
  }

  lemma {:induction false} DigitsOfAllDec(n: nat)
    requires n <= TWO_63
    ensures Digits(Dec(n), 0) == Some(Wrap64(n))
  {
    DigitsOfDec(n, []);
    assert Dec(n) + [] == Dec(n);
  }

  lemma {:induction false} ReadDec(n: nat)
    requires n <= TWO_63
    ensures ReadLong(Dec(n)) == Wrap64(n) && ReadLong([MINUS] + Dec(n)) == Wrap64(-Wrap64(n))
  {
    DigitsOfAllDec(n);
    ReadSigned(Dec(n), Wrap64(n));
  }

  lemma {:induction false} ReadDecInt(v: int)
    requires -TWO_63 <= v < TWO_63
    ensures ReadLong(DecInt(v)) == v
  {
    if v < 0 {
      ReadDec(-v);
      WrapNegated(-v);
    } else {
      ReadDec(v);
    }
  }

  // ---------- lines ----------

  lemma {:induction false} NoNewline(s: seq<Byte>)
    requires forall i :: 0 <= i < |s| ==> s[i] != CR
    ensures SeekNewline(s) == None
  {
  }

  lemma {:induction false} DecIntHasNoNewline(v: int)
    ensures SeekNewline(DecInt(v)) == None
  {
    NoNewline(DecInt(v));
  }

  lemma {:induction false} SeekEndOfLine(line: seq<Byte>, rest: seq<Byte>)
    requires SeekNewline(line).None?
    ensures SeekNewline(line + CRLF + rest) == Some(|line|)
  {
    var s := line + CRLF + rest;
    if line != [] {
      assert s[1..] == line[1..] + CRLF + rest;
      assert SeekNewline(line[1..]).None? by {
        if |line| < 2 { assert |line[1..]| == 0; }
      }
      SeekEndOfLine(line[1..], rest);
      assert s[0] == line[0];
      if |line| > 1 { assert s[1] == line[1]; } else { assert s[1] == CR; }
    } else {
      assert s[0] == CR && s[1] == LF;
    }
  }

  // ---------- continuing a drain ----------

  /** A stepping machine and its drain. The proofs below take a machine as a value, so that they
      rest on what it does at the states they name and on nothing else about it. */
  datatype Machine = Machine(step: Stepper, drain: Reader -> (seq<Event>, Reader))

  /** The parser's machine. */
  ghost predicate Speaks(m: Machine) {
    && Advances(m.step)
    && (forall stack: seq<Task>, buf: seq<Byte> {:trigger StepsAt(m, stack, buf)} ::
        stack != [] ==> StepsAt(m, stack, buf))
    && (forall r: Reader {:trigger DrainsAt(m, r)} :: r.stack != [] ==> DrainsAt(m, r))
  }

  ghost predicate StepsAt(m: Machine, stack: seq<Task>, buf: seq<Byte>)
    requires stack != []
  {
    m.step(stack, buf) == Step(stack, buf)
  }

  ghost predicate DrainsAt(m: Machine, r: Reader)
    requires Advances(m.step) && r.stack != []
  {
    m.drain(r) == DrainBy(m.step, r)
  }

  ghost function Parser(): (m: Machine)
    ensures Speaks(m) && m.step == Resp && forall r: Reader :: r.stack != [] ==> m.drain(r) == DrainBy(Resp, r)
  {
    RespAdvances();
    Machine(Resp, (r: Reader) => if r.stack == [] then ([], r) else DrainBy(Resp, r))
  }

  /** What a drain does once a step has had outcome o and left rest unread at offset at. */
  ghost function Resume(m: Machine, o: Outcome, rest: seq<Byte>, at: nat): (seq<Event>, Reader) {
    match o
    case Wait => ([], FRESH)
    case Next(stack, _) => m.drain(Reader(stack, rest, None, at))
    case Done(reply, _) =>
      var r := m.drain(Reader([ROOT], rest, None, at));
      ([Got(reply)] + r.0, r.1)
    case Fail(e, _) => ([Failed(e, at)], Reader([ROOT], [], Some(e), at))
  }

  /** One step that uses up s, and the drain goes on behind s. */
  lemma {:induction false} DrainIsResume(m: Machine, stack: seq<Task>, s: seq<Byte>, rest: seq<Byte>, at: nat,
                                         o: Outcome)
    requires Speaks(m) && stack != []
    requires m.step(stack, s + rest) == o && !o.Wait? && o.used == |s|
    ensures o.Next? ==> o.stack != []
    ensures m.drain(Reader(stack, s + rest, None, at)) == Resume(m, o, rest, at + |s|)
  {
    assert GoodOutcome(m.step(stack, s + rest), s + rest);
    assert (s + rest)[|s|..] == rest;
    assert DrainsAt(m, Reader(stack, s + rest, None, at));
    match o
    case Next(st, _) => assert DrainsAt(m, Reader(st, rest, None, at + |s|));
    case Done(_, _) => assert DrainsAt(m, Reader([ROOT], rest, None, at + |s|));
    case Fail(_, _) =>
  }

  /** The same outcome, counting no bytes. */
  function Uncounted(o: Outcome): Outcome {
    if o.Wait? then o else o.(used := 0)
  }

  lemma {:induction false} ResumeUncounted(m: Machine, o: Outcome, rest: seq<Byte>, at: nat)
    ensures Resume(m, Uncounted(o), rest, at) == Resume(m, o, rest, at)
  {
  }

  lemma {:induction false} FinishUncounted(stack: seq<Task>, obj: Reply, u: nat)
    requires stack != []
    ensures Uncounted(Finish(stack, obj, u)) == Finish(stack, obj, 0)
    decreases |stack|
  {
    var n := |stack| - 1;
    if n > 0 && stack[n - 1].elements > 0 && stack[n].idx == stack[n - 1].elements - 1 {
      var prv' := stack[n - 1].(items := stack[n - 1].items + [obj]);
      FinishUncounted(stack[..n - 1] + [prv'], Array(prv'.elements, prv'.items), u);
    }
  }

  /** Of the innermost task only its index matters to finishing. */
  lemma {:induction false} FinishIgnoresTop(stack: seq<Task>, top: Task, obj: Reply, u: nat)
    requires stack != [] && top.idx == stack[|stack| - 1].idx
    ensures Finish(stack[|stack| - 1 := top], obj, u) == Finish(stack, obj, u)
  {
    var n := |stack| - 1;
    if n > 0 {
      assert stack[n := top][..n - 1] == stack[..n - 1];
    }
  }

  // ---------- reading what was encoded ----------

  /** A stack about to read a reply. */
  predicate Expecting(stack: seq<Task>) {
    0 < |stack| <= MAX_DEPTH && stack[|stack| - 1].kind == Unknown
  }

  /** And every enclosing array has room. */
  ghost predicate Ready(stack: seq<Task>) {
    Expecting(stack) && forall i :: 0 <= i < |stack| - 1 ==> stack[i].elements > 0
  }

  function WithKind(stack: seq<Task>, kind: Kind): seq<Task>
    requires stack != []
  {
    stack[|stack| - 1 := stack[|stack| - 1].(kind := kind)]
  }

  /** Two steps, one on a byte and one on the bytes behind it, and the drain goes on behind both. */
  lemma {:induction false} TwoSteps(m: Machine, stack: seq<Task>, b: Byte, st: seq<Task>, body: seq<Byte>,
                                    rest: seq<Byte>, at: nat, o: Outcome)
    requires Speaks(m) && stack != [] && st != []
    requires m.step(stack, [b] + (body + rest)) == Next(st, 1)
    requires m.step(st, body + rest) == o && !o.Wait? && o.used == |body|
    ensures o.Next? ==> o.stack != []
    ensures m.drain(Reader(stack, [b] + (body + rest), None, at)) == Resume(m, Uncounted(o), rest, at + 1 + |body|)
  {
    DrainIsResume(m, stack, [b], body + rest, at, Next(st, 1));
    DrainIsResume(m, st, body, rest, at + 1, o);
    ResumeUncounted(m, o, rest, at + 1 + |body|);
  }

  /** The step on a type byte. */
  lemma {:induction false} TypeStep(m: Machine, stack: seq<Task>, b: Byte, s: seq<Byte>)
    requires Speaks(m) && Expecting(stack) && TypeOf(b) != Unknown
    ensures m.step(stack, [b] + s) == Next(WithKind(stack, TypeOf(b)), 1)
  {
    assert ([b] + s)[0] == b;
    assert StepsAt(m, stack, [b] + s);
  }

  lemma {:induction false} DecodeLeaf(m: Machine, stack: seq<Task>, r: Reply, rest: seq<Byte>, at: nat, o: Outcome)
    requires Speaks(m) && Expecting(stack) && Sendable(r, |stack|) && (!r.Array? || r.count == 0)
             && o == Finish(stack, r, 0)
    ensures o.Next? ==> o.stack != []
    ensures m.drain(Reader(stack, Encode(r) + rest, None, at)) == Resume(m, o, rest, at + |Encode(r)|)
  {
    var b, body, st, o' := LeafReads(m, stack, r, rest);
    TwoSteps(m, stack, b, st, body, rest, at, o');
    assert [b] + body + rest == [b] + (body + rest);
  }

  lemma {:induction false} LeafReads(m: Machine, stack: seq<Task>, r: Reply, rest: seq<Byte>)
    returns (b: Byte, body: seq<Byte>, st: seq<Task>, o: Outcome)
    requires Speaks(m) && Expecting(stack) && Sendable(r, |stack|) && (!r.Array? || r.count == 0)
    ensures Encode(r) == [b] + body && st != []
    ensures m.step(stack, [b] + (body + rest)) == Next(st, 1)
    ensures m.step(st, body + rest) == o && !o.Wait? && o.used == |body| && Uncounted(o) == Finish(stack, r, 0)
  {
    b, body := LeafStep(stack, r, rest);
    st := WithKind(stack, TypeOf(b));
    o := m.step(st, body + rest);
    TypeStep(m, stack, b, body + rest);
    assert StepsAt(m, st, body + rest);
    FinishUncounted(st, r, |body|);
    FinishIgnoresTop(stack, st[|st| - 1], r, 0);
  }

  /** The step on the bytes behind the type byte of a reply that is not a filled array. */
  lemma {:induction false} LeafStep(stack: seq<Task>, r: Reply, rest: seq<Byte>) returns (b: Byte, body: seq<Byte>)
    requires Expecting(stack) && Sendable(r, |stack|) && (!r.Array? || r.count == 0)
    ensures Encode(r) == [b] + body && TypeOf(b) != Unknown
    ensures Step(WithKind(stack, TypeOf(b)), body + rest) == Finish(WithKind(stack, TypeOf(b)), r, |body|)
  {
    b, body := FirstByte(r);
    match r
    case Text(kind, bytes) =>
      if kind == Bulk { BulkStep(stack, bytes, rest); } else { LineStep(stack, kind, bytes, rest); }
    case Integer(v) => IntegerStep(stack, v, rest);
    case Nil => NilStep(stack, rest);
    case Array(count, items) => EmptyArrayStep(stack, items, rest);
  }

  lemma {:induction false} FirstByte(r: Reply) returns (b: Byte, body: seq<Byte>)
    ensures |Encode(r)| > 0 && b == Encode(r)[0] && body == Encode(r)[1..] && Encode(r) == [b] + body
  {
    b, body := Encode(r)[0], Encode(r)[1..];
  }

  /** A line followed by more bytes, as the reader finds it. */
  lemma {:induction false} LineAhead(line: seq<Byte>, more: seq<Byte>)
    requires SeekNewline(line).None?
    ensures SeekNewline(line + CRLF + more) == Some(|line|) && (line + CRLF + more)[..|line|] == line
  {
    SeekEndOfLine(line, more);
  }

  lemma {:induction false} LineFinishes(stack: seq<Task>, line: seq<Byte>, rest: seq<Byte>)
    requires stack != [] && SeekNewline(line).None?
    ensures var kind, body := stack[|stack| - 1].kind, line + CRLF;
            StepLine(stack, body + rest)
              == Finish(stack, if kind == IntegerLine then Integer(ReadLong(line)) else Text(kind, line), |body|)
  {
    LineAhead(line, rest);
  }

  lemma {:induction false} LineStep(stack: seq<Task>, kind: Kind, bytes: seq<Byte>, rest: seq<Byte>)
    requires stack != [] && kind in {StatusLine, ErrorLine} && SeekNewline(bytes).None?
    ensures var r := Text(kind, bytes);
            var b, body := Encode(r)[0], Encode(r)[1..];
            TypeOf(b) == kind && Step(WithKind(stack, kind), body + rest) == Finish(WithKind(stack, kind), r, |body|)
  {
    LineFinishes(WithKind(stack, kind), bytes, rest);
    assert Encode(Text(kind, bytes))[1..] == bytes + CRLF;
  }

  lemma {:induction false} IntegerStep(stack: seq<Task>, v: int, rest: seq<Byte>)
    requires stack != [] && -TWO_63 <= v < TWO_63
    ensures var r := Integer(v);
            var b, body := Encode(r)[0], Encode(r)[1..];
            TypeOf(b) == IntegerLine
              && Step(WithKind(stack, IntegerLine), body + rest) == Finish(WithKind(stack, IntegerLine), r, |body|)
  {
    DecIntHasNoNewline(v);
    ReadDecInt(v);
    LineFinishes(WithKind(stack, IntegerLine), DecInt(v), rest);
    assert Encode(Integer(v))[1..] == DecInt(v) + CRLF;
  }

  lemma {:induction false} NilStep(stack: seq<Task>, rest: seq<Byte>)
    requires stack != []
    ensures var b, body := Encode(Nil)[0], Encode(Nil)[1..];
            TypeOf(b) == Bulk && Step(WithKind(stack, Bulk), body + rest) == Finish(WithKind(stack, Bulk), Nil, |body|)
  {
    DecIntHasNoNewline(-1);
    LineAhead(DecInt(-1), rest);
    ReadDecInt(-1);
    assert Encode(Nil)[1..] == DecInt(-1) + CRLF;
  }

  lemma {:induction false} BulkAhead(stack: seq<Task>, line: seq<Byte>, bytes: seq<Byte>, rest: seq<Byte>)
    requires stack != [] && SeekNewline(line).None? && ReadLong(line) == |bytes|
    ensures var body := line + CRLF + bytes + CRLF;
            StepBulk(stack, body + rest) == Finish(stack, Text(Bulk, bytes), |body|)
  {
    var body := line + CRLF + bytes + CRLF;
    assert body + rest == line + CRLF + (bytes + CRLF + rest);
    LineAhead(line, bytes + CRLF + rest);
    var n := |line|;
    assert (body + rest)[n + 2..n + 2 + |bytes|] == bytes;
  }

  lemma {:induction false} EncodedBulk(bytes: seq<Byte>)
    ensures Encode(Text(Bulk, bytes)) == [DOLLAR] + (Dec(|bytes|) + CRLF + bytes + CRLF)
  {
    var line := Dec(|bytes|) + CRLF;
    assert [DOLLAR] + Dec(|bytes|) + CRLF == [DOLLAR] + line;
    Regroup([DOLLAR], line, bytes);
    Regroup([DOLLAR], line + bytes, CRLF);
  }

  lemma {:induction false} BulkStep(stack: seq<Task>, bytes: seq<Byte>, rest: seq<Byte>)
    requires stack != [] && |bytes| < TWO_63
    ensures var r := Text(Bulk, bytes);
            var b, body := Encode(r)[0], Encode(r)[1..];
            TypeOf(b) == Bulk && Step(WithKind(stack, Bulk), body + rest) == Finish(WithKind(stack, Bulk), r, |body|)
  {
    var line := Dec(|bytes|);
    DecIntHasNoNewline(|bytes|);
    ReadDec(|bytes|);
    BulkAhead(WithKind(stack, Bulk), line, bytes, rest);
    EncodedBulk(bytes);
  }

  lemma {:induction false} EmptyArrayStep(stack: seq<Task>, items: seq<Reply>, rest: seq<Byte>)
    requires stack != [] && |stack| < MAX_DEPTH && items == []
    ensures var r := Array(0, items);
            var b, body := Encode(r)[0], Encode(r)[1..];
            TypeOf(b) == Multi && Step(WithKind(stack, Multi), body + rest) == Finish(WithKind(stack, Multi), r, |body|)
  {
    DecIntHasNoNewline(0);
    LineAhead(DecInt(0), rest);
    ReadDecInt(0);
    assert Encode(Array(0, items))[1..] == DecInt(0) + CRLF;
  }

  /** The array task when k of its elements have been read, and the task reading the next. */
  function Filling(base: seq<Task>, idx: int, r: Reply, k: nat): seq<Task>
    requires r.Array? && k <= |r.items|
  {
    base + [Task(Multi, r.count, idx, r.items[..k])]
  }

  /** The task for element k of r behind the enclosing tasks. */
  function Reading(base: seq<Task>, idx: int, r: Reply, k: nat): (stack: seq<Task>)
    requires r.Array? && k <= |r.items|
    ensures |stack| == |base| + 2
  {
    Filling(base, idx, r, k) + [Task(Unknown, -1, k, [])]
  }

  lemma {:induction false} AnnounceItems(stack: seq<Task>, r: Reply, used: nat)
    requires Ready(stack) && r.Array? && 0 < r.count < TWO_31
    ensures var n := |stack| - 1;
            Announce(WithKind(stack, Multi), r.count, used) == Next(Reading(stack[..n], stack[n].idx, r, 0), used)
  {
    var n, st := |stack| - 1, WithKind(stack, Multi);
    assert st[n := st[n].(elements := r.count, items := [])] == Filling(stack[..n], stack[n].idx, r, 0);
  }

  lemma {:induction false} HeaderStep(stack: seq<Task>, count: int, rest: seq<Byte>)
    requires Expecting(stack) && |stack| < MAX_DEPTH && -TWO_63 <= count < TWO_63
    ensures var st, body := WithKind(stack, Multi), DecInt(count) + CRLF;
            Step(st, body + rest) == Announce(st, count, |body|)
  {
    DecIntHasNoNewline(count);
    LineAhead(DecInt(count), rest);
    ReadDecInt(count);
  }

  lemma {:induction false} HeaderReads(m: Machine, stack: seq<Task>, r: Reply, rest: seq<Byte>) returns (st: seq<Task>)
    requires Speaks(m) && Ready(stack) && |stack| < MAX_DEPTH && r.Array? && 0 < r.count < TWO_31
    ensures var n, body := |stack| - 1, DecInt(r.count) + CRLF;
            && st != [] && m.step(stack, [STAR] + (body + rest)) == Next(st, 1)
            && m.step(st, body + rest) == Next(Reading(stack[..n], stack[n].idx, r, 0), |body|)
  {
    var body := DecInt(r.count) + CRLF;
    st := WithKind(stack, Multi);
    TypeStep(m, stack, STAR, body + rest);
    HeaderStep(stack, r.count, rest);
    AnnounceItems(stack, r, |body|);
    assert StepsAt(m, st, body + rest);
  }

  lemma {:induction false} ReadHeader(m: Machine, stack: seq<Task>, r: Reply, rest: seq<Byte>, at: nat)
    requires Speaks(m) && Ready(stack) && |stack| < MAX_DEPTH && r.Array? && 0 < r.count < TWO_31
    ensures var n, head := |stack| - 1, EncodeLine(STAR, DecInt(r.count));
            m.drain(Reader(stack, head + rest, None, at))
            == m.drain(Reader(Reading(stack[..n], stack[n].idx, r, 0), rest, None, at + |head|))
  {
    var n, body := |stack| - 1, DecInt(r.count) + CRLF;
    var st := HeaderReads(m, stack, r, rest);
    TwoSteps(m, stack, STAR, st, body, rest, at, Next(Reading(stack[..n], stack[n].idx, r, 0), |body|));
    assert EncodeLine(STAR, DecInt(r.count)) + rest == [STAR] + (body + rest);
  }

  /** The reader takes an encoded reply off the bytes, whatever follows, and finishes it. */
  lemma {:induction false} Decode(m: Machine, stack: seq<Task>, r: Reply, rest: seq<Byte>, at: nat, o: Outcome)
    requires Speaks(m) && Ready(stack) && Sendable(r, |stack|) && o == Finish(stack, r, 0)
    ensures m.drain(Reader(stack, Encode(r) + rest, None, at)) == Resume(m, o, rest, at + |Encode(r)|)
    decreases r, 0
  {
    if !r.Array? || r.count == 0 {
      DecodeLeaf(m, stack, r, rest, at, o);
    } else {
      var n := |stack| - 1;
      var head, all := EncodeLine(STAR, DecInt(r.count)), EncodeFrom(r.items, 0);
      Regroup(head, all, rest);
      ReadHeader(m, stack, r, all + rest, at);
      var top := Task(Multi, r.count, stack[n].idx, []);
      assert stack[n := top] == Filling(stack[..n], stack[n].idx, r, 0);
      FinishIgnoresTop(stack, top, r, 0);
      DecodeItems(m, stack[..n], stack[n].idx, r, 0, rest, at + |head|, o);
    }
  }

  lemma {:induction false} DecodeItems(m: Machine, base: seq<Task>, idx: int, r: Reply, k: nat, rest: seq<Byte>,
                                       at: nat, o: Outcome)
    requires Speaks(m) && |base| + 1 < MAX_DEPTH && forall i :: 0 <= i < |base| ==> base[i].elements > 0
    requires r.Array? && Sendable(r, |base| + 1) && k < |r.items| && o == Finish(Filling(base, idx, r, 0), r, 0)
    ensures m.drain(Reader(Reading(base, idx, r, k), EncodeFrom(r.items, k) + rest, None, at))
         == Resume(m, o, rest, at + |EncodeFrom(r.items, k)|)
    decreases r, 0, |r.items| - k, 1
  {
    var one, more := Encode(r.items[k]), EncodeFrom(r.items, k + 1);
    Regroup(one, more, rest);
    if k + 1 < |r.items| {
      DecodeItem(m, base, idx, r, k, more + rest, at);
      DecodeItems(m, base, idx, r, k + 1, rest, at + |one|, o);
    } else {
      DecodeLastItem(m, base, idx, r, rest, at, o);
      assert [] + rest == rest;
    }
  }

  /** One element, and the next is read. */
  lemma {:induction false} DecodeItem(m: Machine, base: seq<Task>, idx: int, r: Reply, k: nat, rest: seq<Byte>, at: nat)
    requires Speaks(m) && |base| + 1 < MAX_DEPTH && forall i :: 0 <= i < |base| ==> base[i].elements > 0
    requires r.Array? && r.count == |r.items| && k + 1 < |r.items| && Sendable(r.items[k], |base| + 2)
    ensures m.drain(Reader(Reading(base, idx, r, k), Encode(r.items[k]) + rest, None, at))
         == m.drain(Reader(Reading(base, idx, r, k + 1), rest, None, at + |Encode(r.items[k])|))
    decreases r, 0, |r.items| - k, 0
  {
    FinishItem(base, idx, r, k);
    Decode(m, Reading(base, idx, r, k), r.items[k], rest, at, Next(Reading(base, idx, r, k + 1), 0));
  }

  /** The last element, and the array is finished. */
  lemma {:induction false} DecodeLastItem(m: Machine, base: seq<Task>, idx: int, r: Reply, rest: seq<Byte>, at: nat,
                                          o: Outcome)
    requires Speaks(m) && |base| + 1 < MAX_DEPTH && forall i :: 0 <= i < |base| ==> base[i].elements > 0
    requires r.Array? && Sendable(r, |base| + 1) && r.items != [] && o == Finish(Filling(base, idx, r, 0), r, 0)
    ensures m.drain(Reader(Reading(base, idx, r, |r.items| - 1), Encode(r.items[|r.items| - 1]) + rest, None, at))
         == Resume(m, o, rest, at + |Encode(r.items[|r.items| - 1])|)
    decreases r, 0, 1, 0
  {
    var k := |r.items| - 1;
    FinishItem(base, idx, r, k);
    Decode(m, Reading(base, idx, r, k), r.items[k], rest, at, o);
  }

  lemma {:induction false} FillingIgnored(base: seq<Task>, idx: int, r: Reply, k: nat)
    requires r.Array? && k <= |r.items|
    ensures Finish(Filling(base, idx, r, k), r, 0) == Finish(Filling(base, idx, r, 0), r, 0)
  {
    var a, b := Filling(base, idx, r, 0), Filling(base, idx, r, k);
    assert a[|base| := b[|base|]] == b;
    FinishIgnoresTop(a, b[|base|], r, 0);
  }

  /** Storing element k: on to the next element, or the array is finished. */
  lemma {:induction false} FinishItem(base: seq<Task>, idx: int, r: Reply, k: nat)
    requires r.Array? && r.count == |r.items| && k < |r.items|
    ensures Finish(Reading(base, idx, r, k), r.items[k], 0)
         == if k + 1 < |r.items| then Next(Reading(base, idx, r, k + 1), 0)
            else Finish(Filling(base, idx, r, 0), r, 0)
  {
    var stack := Reading(base, idx, r, k);
    var n := |stack| - 1;
    assert stack[..n - 1] == base;
    assert r.items[..k] + [r.items[k]] == r.items[..k + 1];
    if k + 1 == |r.items| {
      assert r.items[..k + 1] == r.items;
      FillingIgnored(base, idx, r, k + 1);
    } else {
      assert base + [stack[n - 1].(items := r.items[..k + 1]), Task(Unknown, -1, k + 1, [])]
          == Filling(base, idx, r, k + 1) + [Task(Unknown, -1, k + 1, [])];
    }
  }

  // ---------- whole runs ----------

  /** The replies from number k on, as events. */
  function GotsFrom(rs: seq<Reply>, k: nat): (events: seq<Event>)
    decreases |rs| - k
  {
    if k >= |rs| then [] else [Got(rs[k])] + GotsFrom(rs, k + 1)
  }

  function Gots(rs: seq<Reply>): seq<Event> { GotsFrom(rs, 0) }

  lemma {:induction false} GotsInjective(a: seq<Reply>, b: seq<Reply>, k: nat)
    requires k <= |a| && k <= |b| && GotsFrom(a, k) == GotsFrom(b, k)
    ensures |a| == |b| && forall i :: k <= i < |a| ==> a[i] == b[i]
    decreases |a| - k
  {
    if k < |a| && k < |b| {
      assert GotsFrom(a, k)[0] == Got(a[k]) && GotsFrom(b, k)[0] == Got(b[k]);
      assert GotsFrom(a, k)[1..] == GotsFrom(a, k + 1) && GotsFrom(b, k)[1..] == GotsFrom(b, k + 1);
      GotsInjective(a, b, k + 1);
    }
  }

  /** Between replies, with nothing unread and at bytes taken. */
  function Idle(at: nat): Reader { Reader([ROOT], [], None, at) }

  lemma {:induction false} DecodeOne(m: Machine, r: Reply, rest: seq<Byte>, at: nat)
    requires Speaks(m) && Sendable(r, 1)
    ensures var d := m.drain(Reader([ROOT], rest, None, at + |Encode(r)|));
            m.drain(Reader([ROOT], Encode(r) + rest, None, at)) == ([Got(r)] + d.0, d.1)
  {
    Decode(m, [ROOT], r, rest, at, Done(r, 0));
  }

  lemma {:induction false} DecodeAll(m: Machine, rs: seq<Reply>, k: nat, at: nat)
    requires Speaks(m) && (forall r :: r in rs ==> Sendable(r, 1)) && k <= |rs|
    ensures m.drain(Reader([ROOT], EncodeFrom(rs, k), None, at)) == (GotsFrom(rs, k), Idle(at + |EncodeFrom(rs, k)|))
    decreases |rs| - k
  {
    if k == |rs| {
      assert StepsAt(m, [ROOT], []) && DrainsAt(m, Idle(at));
    } else {
      DecodeOne(m, rs[k], EncodeFrom(rs, k + 1), at);
      DecodeAll(m, rs, k + 1, at + |Encode(rs[k])|);
    }
  }

  lemma {:induction false} RoundTripBy(m: Machine, rs: seq<Reply>, chunks: seq<seq<Byte>>)
    requires Speaks(m) && Stable(m.step)
    requires (forall r :: r in rs ==> Sendable(r, 1)) && Concat(chunks) == EncodeAll(rs)
    ensures FeedAllBy(m.step, FRESH, chunks) == (Gots(rs), Idle(|Concat(chunks)|))
  {
    DecodeAll(m, [], 0, 0);
    assert DrainsAt(m, FRESH);
    ChunksDoNotMatterBy(m.step, FRESH, chunks);
    DecodeAll(m, rs, 0, 0);
    assert [] + Concat(chunks) == EncodeAll(rs);
    assert DrainsAt(m, Reader([ROOT], EncodeAll(rs), None, 0));
  }

  /** The reader inverts the encoder: however the bytes of a list of replies are cut up, exactly
      these replies come out, all bytes are taken and the reader is as fresh as before. */
  lemma {:induction false} RoundTrip(rs: seq<Reply>, chunks: seq<seq<Byte>>)
    requires (forall r :: r in rs ==> Sendable(r, 1)) && Concat(chunks) == EncodeAll(rs)
    ensures FeedAll(FRESH, chunks) == (Gots(rs), Idle(|Concat(chunks)|))
  {
    RespStable();
    RoundTripBy(Parser(), rs, chunks);
  }

  /** Different lists of replies have different encodings. */
  lemma {:induction false} EncodingIsInjective(a: seq<Reply>, b: seq<Reply>)
    requires (forall r :: r in a ==> Sendable(r, 1)) && (forall r :: r in b ==> Sendable(r, 1))
    requires EncodeAll(a) == EncodeAll(b)
    ensures a == b
  {
    var m := Parser();
    DecodeAll(m, a, 0, 0);
    DecodeAll(m, b, 0, 0);
    GotsInjective(a, b, 0);
  }
}
