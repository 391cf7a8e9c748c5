/** What the reader makes of bytes that no encoding of a reply begins with: null arrays, negative
    lengths and counts, unknown types and numerals that are none. */
module RespEdges {
  import opened Bytes
  import opened Options
  import opened RespMachine
  import opened RespChunks
  import opened RespCodec

  /** A byte that is no type is an error behind it, wherever a reply is expected. */
  lemma {:induction false} UnknownType(m: Machine, stack: seq<Task>, b: Byte, rest: seq<Byte>, at: nat)
    requires Speaks(m) && Expecting(stack) && b !in {PLUS, MINUS, COLON, DOLLAR, STAR}
    ensures m.drain(Reader(stack, [b] + rest, None, at))
         == ([Failed(BadTypeByte(b), at + 1)], Reader([ROOT], [], Some(BadTypeByte(b)), at + 1))
  {
    assert ([b] + rest)[0] == b;
    assert StepsAt(m, stack, [b] + rest);
    DrainIsResume(m, stack, [b], rest, at, Fail(BadTypeByte(b), 1));
  }

  /** A bulk string of negative length, whatever it is, is read as a null reply, and nothing behind
      its line belongs to it. */
  lemma {:induction false} NegativeBulk(m: Machine, stack: seq<Task>, v: int, rest: seq<Byte>, at: nat)
    requires Speaks(m) && Expecting(stack) && -TWO_63 <= v < 0
    ensures var o, body := Finish(stack, Nil, 0), DecInt(v) + CRLF;
            (o.Next? ==> o.stack != []) &&
            m.drain(Reader(stack, [DOLLAR] + (body + rest), None, at)) == Resume(m, o, rest, at + 1 + |body|)
  {
    var body, st := DecInt(v) + CRLF, WithKind(stack, Bulk);
    TypeStep(m, stack, DOLLAR, body + rest);
    NegativeLine(st, v, rest);
    assert StepsAt(m, st, body + rest);
    NullFinishes(m, stack, DOLLAR, Bulk, body, rest, at, Nil);
  }

  lemma {:induction false} NegativeLine(st: seq<Task>, v: int, rest: seq<Byte>)
    requires st != [] && st[|st| - 1].kind == Bulk && -TWO_63 <= v < 0
    ensures var body := DecInt(v) + CRLF; Step(st, body + rest) == Finish(st, Nil, |body|)
  {
    DecIntHasNoNewline(v);
    LineAhead(DecInt(v), rest);
    ReadDecInt(v);
  }

  /** A step that finishes an object behind its type byte. */
  lemma {:induction false} NullFinishes(m: Machine, stack: seq<Task>, b: Byte, kind: Kind, body: seq<Byte>,
                                        rest: seq<Byte>, at: nat, obj: Reply)
    requires Speaks(m) && Expecting(stack)
    requires m.step(stack, [b] + (body + rest)) == Next(WithKind(stack, kind), 1)
    requires m.step(WithKind(stack, kind), body + rest) == Finish(WithKind(stack, kind), obj, |body|)
    ensures var o := Finish(stack, obj, 0);
            (o.Next? ==> o.stack != []) &&
            m.drain(Reader(stack, [b] + (body + rest), None, at)) == Resume(m, o, rest, at + 1 + |body|)
  {
    var st := WithKind(stack, kind);
    var o := Finish(st, obj, |body|);
    FinishIgnoresTop(stack, st[|st| - 1], obj, |body|);
    assert o == Finish(stack, obj, |body|);
    FinishUncounted(stack, obj, |body|);
    TwoSteps(m, stack, b, st, body, rest, at, o);
  }

  /** An array with the count -1 is read as a null reply, as a bulk string of length -1 is. */
  lemma {:induction false} NullArray(m: Machine, stack: seq<Task>, rest: seq<Byte>, at: nat)
    requires Speaks(m) && Expecting(stack) && |stack| < MAX_DEPTH
    ensures var o, body := Finish(stack, Nil, 0), DecInt(-1) + CRLF;
            (o.Next? ==> o.stack != []) &&
            m.drain(Reader(stack, [STAR] + (body + rest), None, at)) == Resume(m, o, rest, at + 1 + |body|)
  {
    var body, st := DecInt(-1) + CRLF, WithKind(stack, Multi);
    TypeStep(m, stack, STAR, body + rest);
    HeaderStep(stack, -1, rest);
    assert StepsAt(m, st, body + rest);
    NullFinishes(m, stack, STAR, Multi, body, rest, at, Nil);
  }

  /** An array of no elements, or of a negative number of them other than -1, is finished at once; its
      count is what an int keeps of the number. */
  lemma {:induction false} NoElements(m: Machine, stack: seq<Task>, v: int, rest: seq<Byte>, at: nat)
    requires Speaks(m) && Ready(stack) && |stack| < MAX_DEPTH && -TWO_63 <= v <= 0 && v != -1
    ensures var o, body := Finish(stack, Array(Wrap32(v), []), 0), DecInt(v) + CRLF;
            (o.Next? ==> o.stack != []) &&
            m.drain(Reader(stack, [STAR] + (body + rest), None, at)) == Resume(m, o, rest, at + 1 + |body|)
  {
    var body, st := DecInt(v) + CRLF, WithKind(stack, Multi);
    TypeStep(m, stack, STAR, body + rest);
    HeaderStep(stack, v, rest);
    assert StepsAt(m, st, body + rest);
    NullFinishes(m, stack, STAR, Multi, body, rest, at, Array(Wrap32(v), []));
  }

  lemma {:induction false} ResumeDone(m: Machine, obj: Reply, at: nat)
    requires Speaks(m)
    ensures Resume(m, Done(obj, 0), [], at) == ([Got(obj)], Idle(at))
  {
    assert StepsAt(m, [ROOT], []) && DrainsAt(m, Idle(at));
    assert [Got(obj)] + [] == [Got(obj)];
  }

  lemma {:induction false} NullReplyBy(m: Machine, b: Byte)
    requires Speaks(m) && b in {STAR, DOLLAR}
    ensures m.drain(Reader([ROOT], [b] + (DecInt(-1) + CRLF), None, 0)) == ([Got(Nil)], Idle(1 + |DecInt(-1) + CRLF|))
  {
    var body := DecInt(-1) + CRLF;
    assert body + [] == body;
    if b == STAR {
      NullArray(m, [ROOT], [], 0);
    } else {
      NegativeBulk(m, [ROOT], -1, [], 0);
    }
    ResumeDone(m, Nil, 1 + |body|);
  }

  lemma {:induction false} MinusOne(b: Byte)
    ensures [b] + (DecInt(-1) + CRLF) == [b, MINUS, ZERO + 1, CR, LF]
  {
    assert Dec(1) == [ZERO + 1];
  }

  /** The null replies of the protocol, alone. */
  lemma {:induction false} NullReplies(b: Byte)
    requires b in {STAR, DOLLAR}
    ensures Drain(Reader([ROOT], [b, MINUS, ZERO + 1, CR, LF], None, 0)) == ([Got(Nil)], Idle(5))
  {
    MinusOne(b);
    NullReplyBy(Parser(), b);
  }

  // ---------- numerals ----------

  /** A plus sign is read over; a byte that is no digit makes the whole number -1. */
  lemma {:induction false} OddNumerals(n: nat, c: Byte, tail: seq<Byte>)
    requires n < TWO_63 && !IsDigit(c) && c != CR
    ensures ReadLong([PLUS] + Dec(n)) == n
    ensures ReadLong(Dec(n) + ([c] + tail)) == -1 && ReadLong([MINUS] + (Dec(n) + ([c] + tail))) == -1
  {
    DigitsOfAllDec(n);
    assert ([PLUS] + Dec(n))[1..] == Dec(n);
    var s := Dec(n) + ([c] + tail);
    DigitsOfDec(n, [c] + tail);
    assert s[0] == Dec(n)[0] && ([MINUS] + s)[1..] == s;
  }
}
