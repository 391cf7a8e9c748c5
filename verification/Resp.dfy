/** The incremental reply parser as a machine that takes small steps on its unread bytes. */
module RespMachine {
  import opened Bytes
  import opened Options

  datatype Kind = Unknown | ErrorLine | StatusLine | IntegerLine | Bulk | Multi

  /** A finished reply. An array carries the element count it was announced with. */
  datatype Reply =
    | Text(kind: Kind, bytes: seq<Byte>)
    | Integer(v: int)
    | Nil
    | Array(count: int, items: seq<Reply>)

  /** A read task: what is being read at this nesting level, its index in the enclosing array and,
      for an array, the announced element count and the elements read so far. */
  datatype Task = Task(kind: Kind, elements: int, idx: int, items: seq<Reply>)

  const ROOT := Task(Unknown, -1, -1, [])
  const MAX_DEPTH := 9

  datatype Error = BadTypeByte(b: Byte) | TooDeep | Fault

  datatype Outcome =
    | Wait
    | Next(stack: seq<Task>, used: nat)
    | Done(reply: Reply, used: nat)
    | Fail(error: Error, used: nat)

  // ---------- numbers and lines ----------

  /** The position of the first carriage return that a line feed follows. */
  function SeekNewline(s: seq<Byte>): (r: Option<nat>)
    ensures r.Some? ==> r.value + 1 < |s| && s[r.value] == CR && s[r.value + 1] == LF
    ensures r.Some? ==> forall i :: 0 <= i < r.value ==> !(s[i] == CR && s[i + 1] == LF)
    ensures r.None? ==> forall i :: 0 <= i < |s| - 1 ==> !(s[i] == CR && s[i + 1] == LF)
  {
    if |s| < 2 then None
    else if s[0] == CR && s[1] == LF then Some(0)
    else
      var r := SeekNewline(s[1..]);
      assert forall i :: 1 <= i < |s| ==> s[i] == s[1..][i - 1];
      if r.Some? then Some(r.value + 1) else None
  }

  /** Digits up to the first carriage return, -1 on anything else; the value wraps. */
  function Digits(s: seq<Byte>, v: int): Option<int> {
    if s == [] || s[0] == CR then Some(v)
    else if IsDigit(s[0]) then Digits(s[1..], Wrap64(Wrap64(v * 10) + (s[0] - ZERO)))
    else None
  }

  /** readLongLong on a line. */
  function ReadLong(s: seq<Byte>): int {
    var signed := s != [] && (s[0] == MINUS || s[0] == PLUS);
    match Digits(if signed then s[1..] else s, 0)
    case None => -1
    case Some(v) => if s != [] && s[0] == MINUS then Wrap64(-v) else v
  }

  // ---------- the task stack ----------

  /** The innermost reply is finished: it is stored in its array, and arrays it completes are
      finished in turn. An array that was allocated without room has nowhere to store it. */
  function Finish(stack: seq<Task>, obj: Reply, used: nat): (r: Outcome)
    requires stack != []
    ensures !r.Wait? && r.used == used
    ensures r.Next? ==> r.stack != []
    decreases |stack|
  {
    var n := |stack| - 1;
    if n == 0 then Done(obj, used)
    else
      var cur, prv := stack[n], stack[n - 1];
      if prv.elements <= 0 then Fail(Fault, used)
      else
        var prv' := prv.(items := prv.items + [obj]);
        if cur.idx == prv.elements - 1 then Finish(stack[..n - 1] + [prv'], Array(prv.elements, prv'.items), used)
        else Next(stack[..n - 1] + [prv', Task(Unknown, -1, cur.idx + 1, [])], used)
  }

  function TypeOf(b: Byte): Kind {
    if b == MINUS then ErrorLine
    else if b == PLUS then StatusLine
    else if b == COLON then IntegerLine
    else if b == DOLLAR then Bulk
    else if b == STAR then Multi
    else Unknown
  }

  function StepType(stack: seq<Task>, buf: seq<Byte>): Outcome
    requires stack != []
  {
    if buf == [] then Wait
    else if TypeOf(buf[0]) == Unknown then Fail(BadTypeByte(buf[0]), 1)
    else Next(stack[|stack| - 1 := stack[|stack| - 1].(kind := TypeOf(buf[0]))], 1)
  }

  /** The reply on a line. */
  function LineReply(kind: Kind, line: seq<Byte>): Reply {
    if kind == IntegerLine then Integer(ReadLong(line)) else Text(kind, line)
  }

  function StepLine(stack: seq<Task>, buf: seq<Byte>): Outcome
    requires stack != []
  {
    match SeekNewline(buf)
    case None => Wait
    case Some(n) => Finish(stack, LineReply(stack[|stack| - 1].kind, buf[..n]), n + 2)
  }

  /** A bulk string of len bytes behind a line of n bytes. */
  function TakeBulk(stack: seq<Task>, buf: seq<Byte>, n: nat, len: int): Outcome
    requires stack != [] && n + 2 <= |buf|
  {
    if len < 0 then Finish(stack, Nil, n + 2)
    else if n + 2 + len + 2 <= |buf| then Finish(stack, Text(Bulk, buf[n + 2..n + 2 + len]), n + 2 + len + 2)
    else Wait
  }

  function StepBulk(stack: seq<Task>, buf: seq<Byte>): Outcome
    requires stack != []
  {
    match SeekNewline(buf)
    case None => Wait
    case Some(n) => TakeBulk(stack, buf, n, ReadLong(buf[..n]))
  }

  /** An array of count elements is opened; the count is kept as a 32-bit int. */
  function Opened(stack: seq<Task>, count: int): (r: seq<Task>)
    requires stack != []
    ensures |r| == |stack| + 1
  {
    var top := |stack| - 1;
    stack[top := stack[top].(elements := Wrap32(count), items := [])] + [Task(Unknown, -1, 0, [])]
  }

  /** An array header that announces count elements. */
  function Announce(stack: seq<Task>, count: int, used: nat): (r: Outcome)
    requires stack != []
    ensures !r.Wait? && r.used == used
    ensures r.Next? ==> r.stack != []
  {
    var top := |stack| - 1;
    if count == -1 then Finish(stack, Nil, used)
    else if top > 0 && stack[top - 1].elements <= 0 then Fail(Fault, used)
    else if count > 0 then Next(Opened(stack, count), used)
    else Finish(stack, Array(Wrap32(count), []), used)
  }

  function StepMulti(stack: seq<Task>, buf: seq<Byte>): Outcome
    requires stack != []
  {
    if |stack| == MAX_DEPTH then Fail(TooDeep, 0)
    else
      match SeekNewline(buf)
      case None => Wait
      case Some(n) => Announce(stack, ReadLong(buf[..n]), n + 2)
  }

  function Step(stack: seq<Task>, buf: seq<Byte>): (r: Outcome)
    requires stack != []
    ensures r.Next? ==> r.stack != []
    ensures !r.Wait? ==> r.used <= |buf|
    ensures r.Next? || r.Done? ==> r.used > 0
  {
    match stack[|stack| - 1].kind
    case Unknown => StepType(stack, buf)
    case Bulk => StepBulk(stack, buf)
    case Multi => StepMulti(stack, buf)
    case _ => StepLine(stack, buf)
  }

  // ---------- the reader ----------

  /** The tasks, the unread bytes, the error if one was met, and how many bytes were consumed. */
  datatype Reader = Reader(stack: seq<Task>, buf: seq<Byte>, err: Option<Error>, offset: nat)

  const FRESH := Reader([ROOT], [], None, 0)

  /** What the caller sees: replies, and at most one error with the place it was met at. */
  datatype Event = Got(reply: Reply) | Failed(error: Error, at: nat)

  ghost predicate ReaderOk(r: Reader) { r.stack != [] && (r.err.Some? ==> r.buf == []) }

  function Feed(r: Reader, bytes: seq<Byte>): Reader {
    if r.err.Some? then r else r.(buf := r.buf + bytes)
  }

  function Broken(r: Reader, e: Error, used: nat): Reader {
    Reader([ROOT], [], Some(e), r.offset + used)
  }

  /** A machine that steps on a task stack and unread bytes. */
  type Stepper = (seq<Task>, seq<Byte>) -> Outcome

  /** Its steps use up bytes, and no more than there are. */
  ghost predicate Advances(f: Stepper) {
    forall stack, buf {:trigger GoodOutcome(f(stack, buf), buf)} :: stack != [] ==> GoodOutcome(f(stack, buf), buf)
  }

  ghost predicate GoodOutcome(o: Outcome, buf: seq<Byte>) {
    && (o.Next? ==> o.stack != [])
    && (!o.Wait? ==> o.used <= |buf|)
    && (o.Next? || o.Done? ==> o.used > 0)
  }

  /** The steps until a reply is finished, bytes run out or an error is met. */
  function GetReplyBy(f: Stepper, r: Reader): (res: (Reader, Option<Reply>))
    requires r.stack != [] && Advances(f)
    ensures res.0.stack != []
    decreases |r.buf|
  {
    if r.err.Some? then (r, None)
    else
      assert GoodOutcome(f(r.stack, r.buf), r.buf);
      match f(r.stack, r.buf)
      case Wait => (r, None)
      case Next(stack, used) => GetReplyBy(f, Reader(stack, r.buf[used..], None, r.offset + used))
      case Done(reply, used) => (Reader([ROOT], r.buf[used..], None, r.offset + used), Some(reply))
      case Fail(e, used) => (Broken(r, e, used), None)
  }

  /** All events of one drain: replies are taken until none is left or an error is met. */
  function DrainBy(f: Stepper, r: Reader): (res: (seq<Event>, Reader))
    requires r.stack != [] && Advances(f)
    ensures res.1.stack != []
    decreases |r.buf|
  {
    if r.err.Some? then ([], r)
    else
      assert GoodOutcome(f(r.stack, r.buf), r.buf);
      match f(r.stack, r.buf)
      case Wait => ([], r)
      case Next(stack, used) => DrainBy(f, Reader(stack, r.buf[used..], None, r.offset + used))
      case Done(reply, used) =>
        var rest := DrainBy(f, Reader([ROOT], r.buf[used..], None, r.offset + used));
        ([Got(reply)] + rest.0, rest.1)
      case Fail(e, used) => ([Failed(e, r.offset + used)], Broken(r, e, used))
  }

  /** The parser's own machine. */
  function Resp(stack: seq<Task>, buf: seq<Byte>): Outcome {
    if stack == [] then Wait else Step(stack, buf)
  }

  lemma {:induction false} RespAdvances()
    ensures Advances(Resp)
  {
    forall stack, buf | stack != [] ensures GoodOutcome(Resp(stack, buf), buf) {
      var o := Step(stack, buf);
    }
  }

  function GetReply(r: Reader): (Reader, Option<Reply>)
    requires r.stack != []
  {
    RespAdvances();
    GetReplyBy(Resp, r)
  }

  function Drain(r: Reader): (res: (seq<Event>, Reader))
    requires r.stack != []
    ensures res.1.stack != []
  {
    RespAdvances();
    DrainBy(Resp, r)
  }

  /** Feeding chunks one by one, draining after each. */
  function FeedAllBy(f: Stepper, r: Reader, chunks: seq<seq<Byte>>): (seq<Event>, Reader)
    requires r.stack != [] && Advances(f)
    decreases |chunks|
  {
    if chunks == [] then ([], r)
    else
      var first := DrainBy(f, Feed(r, chunks[0]));
      var rest := FeedAllBy(f, first.1, chunks[1..]);
      (first.0 + rest.0, rest.1)
  }

  function FeedAll(r: Reader, chunks: seq<seq<Byte>>): (seq<Event>, Reader)
    requires r.stack != []
  {
    RespAdvances();
    FeedAllBy(Resp, r, chunks)
  }

  function Concat(chunks: seq<seq<Byte>>): seq<Byte> {
    if chunks == [] then [] else chunks[0] + Concat(chunks[1..])
  }
}

/** However the bytes are cut into chunks, the reader reports the same. */
module RespChunks {
  import opened Bytes
  import opened Options
  import opened RespMachine

  lemma {:induction false} SeekNewlineStable(s: seq<Byte>, more: seq<Byte>)
    requires SeekNewline(s).Some?
    ensures SeekNewline(s + more) == SeekNewline(s)
  {
    assert (s + more)[0] == s[0] && (s + more)[1] == s[1];
    if !(s[0] == CR && s[1] == LF) {
      assert (s + more)[1..] == s[1..] + more;
      SeekNewlineStable(s[1..], more);
    }
  }

  /** A step taken on the bytes at hand is the step taken on more bytes. */
  lemma {:induction false} StepStable(stack: seq<Task>, s: seq<Byte>, more: seq<Byte>)
    requires stack != [] && !Step(stack, s).Wait?
    ensures Step(stack, s + more) == Step(stack, s)
  {
    if stack[|stack| - 1].kind == Unknown {
      assert (s + more)[0] == s[0];
    } else if !(stack[|stack| - 1].kind == Multi && |stack| == MAX_DEPTH) {
      SeekNewlineStable(s, more);
      var n := SeekNewline(s).value;
      assert (s + more)[..n] == s[..n];
      var len := ReadLong(s[..n]);
      if stack[|stack| - 1].kind == Bulk && len >= 0 {
        assert (s + more)[n + 2..n + 2 + len] == s[n + 2..n + 2 + len];
      }
    }
  }

  /** Steps taken on the bytes at hand are not changed by more bytes. */
  ghost predicate Stable(f: Stepper) {
    forall stack, s, more :: stack != [] && !f(stack, s).Wait? ==> f(stack, s + more) == f(stack, s)
  }

  lemma {:induction false} RespStable()
    ensures Stable(Resp)
  {
    forall stack, s, more | stack != [] && !Resp(stack, s).Wait? ensures Resp(stack, s + more) == Resp(stack, s) {
      StepStable(stack, s, more);
    }
  }

  /** The case of a step inside a reply. */
  lemma {:induction false} DrainAfterStep(f: Stepper, r: Reader, more: seq<Byte>, stack: seq<Task>, used: nat)
    requires ReaderOk(r) && Advances(f) && r.err.None? && 0 < used <= |r.buf| && stack != []
    requires f(r.stack, r.buf) == Next(stack, used) == f(r.stack, r.buf + more)
    ensures var r1 := Reader(stack, r.buf[used..], None, r.offset + used);
            DrainBy(f, r) == DrainBy(f, r1) && DrainBy(f, Feed(r, more)) == DrainBy(f, Feed(r1, more))
  {
    assert (r.buf + more)[used..] == r.buf[used..] + more;
  }

  /** The case of a finished reply: it comes first on both sides. */
  lemma {:induction false} DrainAfterReply(f: Stepper, r: Reader, more: seq<Byte>, reply: Reply, used: nat)
    requires ReaderOk(r) && Advances(f) && r.err.None? && 0 < used <= |r.buf|
    requires f(r.stack, r.buf) == Done(reply, used) == f(r.stack, r.buf + more)
    requires var r1 := Reader([ROOT], r.buf[used..], None, r.offset + used);
             var first := DrainBy(f, r1);
             var second := DrainBy(f, Feed(first.1, more));
             DrainBy(f, Feed(r1, more)) == (first.0 + second.0, second.1)
    ensures var first := DrainBy(f, r);
            var second := DrainBy(f, Feed(first.1, more));
            DrainBy(f, Feed(r, more)) == (first.0 + second.0, second.1)
  {
    var r1 := Reader([ROOT], r.buf[used..], None, r.offset + used);
    var a, b := DrainBy(f, r1), DrainBy(f, Feed(DrainBy(f, r1).1, more));
    assert DrainBy(f, r) == ([Got(reply)] + a.0, a.1);
    assert (r.buf + more)[used..] == r.buf[used..] + more;
    assert Feed(r1, more) == Reader([ROOT], (r.buf + more)[used..], None, r.offset + used);
    assert [Got(reply)] + (a.0 + b.0) == [Got(reply)] + a.0 + b.0;
  }

  /** Draining what is there, then more bytes, is draining all of them at once. */
  lemma {:induction false} DrainSplits(f: Stepper, r: Reader, more: seq<Byte>)
    requires ReaderOk(r) && Advances(f) && Stable(f)
    ensures ReaderOk(DrainBy(f, r).1)
    ensures var first := DrainBy(f, r);
            var second := DrainBy(f, Feed(first.1, more));
            DrainBy(f, Feed(r, more)) == (first.0 + second.0, second.1)
    decreases |r.buf|
  {
    if r.err.Some? {
      assert [] + DrainBy(f, r).0 == DrainBy(f, r).0;
    } else if f(r.stack, r.buf).Wait? {
      var all := DrainBy(f, Feed(r, more));
      assert [] + all.0 == all.0;
    } else {
      assert GoodOutcome(f(r.stack, r.buf), r.buf) && f(r.stack, r.buf + more) == f(r.stack, r.buf);
      match f(r.stack, r.buf) {
        case Next(stack, used) =>
          DrainSplits(f, Reader(stack, r.buf[used..], None, r.offset + used), more);
          DrainAfterStep(f, r, more, stack, used);
        case Done(reply, used) =>
          DrainSplits(f, Reader([ROOT], r.buf[used..], None, r.offset + used), more);
          DrainAfterReply(f, r, more, reply, used);
        case Fail(e, used) =>
          assert DrainBy(f, r) == DrainBy(f, Feed(r, more)) == ([Failed(e, r.offset + used)], Broken(r, e, used));
          assert [Failed(e, r.offset + used)] + [] == [Failed(e, r.offset + used)];
      }
    }
  }

  /** Nothing is left to report after a drain. */
  lemma {:induction false} DrainIsFinal(f: Stepper, r: Reader)
    requires ReaderOk(r) && Advances(f)
    ensures ReaderOk(DrainBy(f, r).1) && DrainBy(f, DrainBy(f, r).1) == ([], DrainBy(f, r).1)
    decreases |r.buf|
  {
    if r.err.None? {
      assert GoodOutcome(f(r.stack, r.buf), r.buf);
      match f(r.stack, r.buf)
      case Wait =>
      case Next(stack, used) => DrainIsFinal(f, Reader(stack, r.buf[used..], None, r.offset + used));
      case Done(reply, used) => DrainIsFinal(f, Reader([ROOT], r.buf[used..], None, r.offset + used));
      case Fail(_, _) =>
    }
  }

  lemma {:induction false} FeedTwice(r: Reader, a: seq<Byte>, b: seq<Byte>)
    ensures Feed(Feed(r, a), b) == Feed(r, a + b)
  {
    assert r.buf + a + b == r.buf + (a + b);
  }

  lemma {:induction false} ChunksDoNotMatterBy(f: Stepper, r: Reader, chunks: seq<seq<Byte>>)
    requires ReaderOk(r) && Advances(f) && Stable(f) && DrainBy(f, r) == ([], r)
    ensures FeedAllBy(f, r, chunks) == DrainBy(f, Feed(r, Concat(chunks)))
    decreases |chunks|
  {
    if chunks == [] {
      assert r.buf + [] == r.buf;
    } else {
      var rest := Concat(chunks[1..]);
      var r1 := Feed(r, chunks[0]);
      DrainSplits(f, r1, rest);
      DrainIsFinal(f, r1);
      ChunksDoNotMatterBy(f, DrainBy(f, r1).1, chunks[1..]);
      FeedTwice(r, chunks[0], rest);
    }
  }

  /** The replies, the error if there is one, and the byte it is met at, depend only on the
      bytes fed and not on how they were cut into chunks. */
  lemma {:induction false} ChunksDoNotMatter(r: Reader, chunks: seq<seq<Byte>>)
    requires ReaderOk(r) && Drain(r) == ([], r)
    ensures FeedAll(r, chunks) == Drain(Feed(r, Concat(chunks)))
  {
    RespAdvances();
    RespStable();
    ChunksDoNotMatterBy(Resp, r, chunks);
  }

  /** Two ways of cutting the same bytes. */
  lemma {:induction false} SameBytesSameEvents(a: seq<seq<Byte>>, b: seq<seq<Byte>>)
    requires Concat(a) == Concat(b)
    ensures FeedAll(FRESH, a) == FeedAll(FRESH, b)
  {
    ChunksDoNotMatter(FRESH, a);
    ChunksDoNotMatter(FRESH, b);
  }
}
