/** What the reader's task stack keeps, and the two limits it runs into: nine levels of tasks, and
    element counts held in 32 bits. */
module RespLimits {
  import opened Bytes
  import opened Options
  import opened RespMachine
  import opened RespCodec

  // ---------- the task stack ----------

  /** Task i is an array being filled; the task above it reads its next element. */
  ghost predicate FillsAt(stack: seq<Task>, i: nat)
    requires i + 1 < |stack|
  {
    && stack[i].kind == Multi && stack[i + 1].idx == |stack[i].items|
    && (stack[i].elements > 0 ==> |stack[i].items| < stack[i].elements)
    && (i + 2 < |stack| ==> stack[i].elements > 0)
  }

  ghost predicate StackOk(stack: seq<Task>) {
    1 <= |stack| <= MAX_DEPTH && forall i {:trigger FillsAt(stack, i)} :: 0 <= i < |stack| - 1 ==> FillsAt(stack, i)
  }

  /** The array being filled was announced with a count that is not positive once held in an int. */
  predicate Poisoned(stack: seq<Task>) {
    |stack| > 1 && stack[|stack| - 2].elements <= 0
  }

  /** The tasks below a finished one, with its reply stored. */
  function Stored(stack: seq<Task>, obj: Reply): (below: seq<Task>)
    requires |stack| > 1
    ensures |below| == |stack| - 1
  {
    var n := |stack| - 1;
    stack[..n - 1] + [stack[n - 1].(items := stack[n - 1].items + [obj])]
  }

  lemma {:induction false} StoredKeepsStack(stack: seq<Task>, obj: Reply)
    requires StackOk(stack) && |stack| > 1
    ensures StackOk(Stored(stack, obj)) && !Poisoned(Stored(stack, obj))
  {
    var n, below := |stack| - 1, Stored(stack, obj);
    forall i | 0 <= i < n - 1 ensures FillsAt(below, i) { assert FillsAt(stack, i); }
    assert n > 1 ==> FillsAt(stack, n - 2);
  }

  lemma {:induction false} FinishKeepsStack(stack: seq<Task>, obj: Reply, used: nat)
    requires StackOk(stack)
    ensures var o := Finish(stack, obj, used);
            && (o.Next? ==> StackOk(o.stack) && !Poisoned(o.stack) && o.stack[|o.stack| - 1].kind == Unknown)
            && (o.Fail? <==> Poisoned(stack)) && (o.Fail? ==> o.error == Fault)
    decreases |stack|
  {
    var n := |stack| - 1;
    if n > 0 && !Poisoned(stack) {
      assert FillsAt(stack, n - 1);
      StoredKeepsStack(stack, obj);
      var below := Stored(stack, obj);
      if stack[n].idx == stack[n - 1].elements - 1 {
        FinishKeepsStack(below, Array(below[n - 1].elements, below[n - 1].items), used);
      } else {
        var next := below + [Task(Unknown, -1, stack[n].idx + 1, [])];
        forall i | 0 <= i < n ensures FillsAt(next, i) { assert FillsAt(stack, i); }
        assert stack[..n - 1] + [below[n - 1], Task(Unknown, -1, stack[n].idx + 1, [])] == next;
      }
    }
  }

  /** The element count an array header at hand announces. */
  function Announced(stack: seq<Task>, buf: seq<Byte>): Option<int>
    requires stack != []
  {
    if stack[|stack| - 1].kind != Multi || |stack| == MAX_DEPTH then None
    else
      match SeekNewline(buf)
      case None => None
      case Some(n) => Some(ReadLong(buf[..n]))
  }

  /** A positive count of which an int keeps nothing positive. */
  predicate Oversized(count: Option<int>) {
    count.Some? && count.value > 0 && Wrap32(count.value) <= 0
  }

  lemma {:induction false} OpenedKeepsStack(stack: seq<Task>, count: int)
    requires StackOk(stack) && !Poisoned(stack) && |stack| < MAX_DEPTH && stack[|stack| - 1].kind == Multi
    ensures StackOk(Opened(stack, count)) && (Poisoned(Opened(stack, count)) <==> Wrap32(count) <= 0)
  {
    var next := Opened(stack, count);
    forall i | 0 <= i < |stack| ensures FillsAt(next, i) { assert i < |stack| - 1 ==> FillsAt(stack, i); }
  }

  lemma {:induction false} AnnounceKeepsStack(stack: seq<Task>, count: int, used: nat)
    requires StackOk(stack) && |stack| < MAX_DEPTH && stack[|stack| - 1].kind == Multi
    ensures var o := Announce(stack, count, used);
            && (o.Next? ==> StackOk(o.stack) && (Poisoned(o.stack) <==> Oversized(Some(count))))
            && (o.Fail? <==> Poisoned(stack)) && (o.Fail? ==> o.error == Fault)
  {
    if count == -1 {
      FinishKeepsStack(stack, Nil, used);
    } else if !Poisoned(stack) && count > 0 {
      OpenedKeepsStack(stack, count);
    } else if !Poisoned(stack) {
      FinishKeepsStack(stack, Array(Wrap32(count), []), used);
    }
  }

  /** What a step does to the stack: it stays well formed, so that every array task has a number
      for the element being read and that number is within its count. A step faults exactly when
      it has a whole element for an array without room, and an array is without room exactly when
      its announced count is oversized. */
  lemma {:induction false} StepKeepsStack(stack: seq<Task>, buf: seq<Byte>)
    requires StackOk(stack)
    ensures var o := Step(stack, buf);
            var kind := stack[|stack| - 1].kind;
            && (o.Next? ==> StackOk(o.stack))
            && (o.Next? ==> (Poisoned(o.stack) <==>
                             Oversized(Announced(stack, buf)) || (kind == Unknown && Poisoned(stack))))
            && (o.Fail? && o.error == Fault
                <==> Poisoned(stack) && kind != Unknown && !(kind == Multi && |stack| == MAX_DEPTH) && !o.Wait?)
            && (o.Fail? && o.error == TooDeep <==> kind == Multi && |stack| == MAX_DEPTH)
  {
    var kind := stack[|stack| - 1].kind;
    if kind == Unknown {
      TypeKeepsStack(stack, buf);
    } else if kind == Multi {
      if |stack| < MAX_DEPTH && SeekNewline(buf).Some? {
        var n := SeekNewline(buf).value;
        AnnounceKeepsStack(stack, ReadLong(buf[..n]), n + 2);
      }
    } else if kind == Bulk {
      BulkKeepsStack(stack, buf);
    } else {
      LineKeepsStack(stack, buf);
    }
  }

  lemma {:induction false} TypeKeepsStack(stack: seq<Task>, buf: seq<Byte>)
    requires StackOk(stack)
    ensures var o := StepType(stack, buf);
            && (o.Next? ==> StackOk(o.stack) && (Poisoned(o.stack) <==> Poisoned(stack)))
            && !o.Done? && (o.Fail? ==> o.error.BadTypeByte?)
  {
    var o := StepType(stack, buf);
    if o.Next? {
      forall i | 0 <= i < |stack| - 1 ensures FillsAt(o.stack, i) { assert FillsAt(stack, i); }
    }
  }

  lemma {:induction false} LineKeepsStack(stack: seq<Task>, buf: seq<Byte>)
    requires StackOk(stack)
    ensures var o := StepLine(stack, buf);
            && (o.Next? ==> StackOk(o.stack) && !Poisoned(o.stack))
            && (o.Fail? <==> Poisoned(stack) && !o.Wait?) && (o.Fail? ==> o.error == Fault)
  {
    if SeekNewline(buf).Some? {
      var n, kind := SeekNewline(buf).value, stack[|stack| - 1].kind;
      FinishKeepsStack(stack, if kind == IntegerLine then Integer(ReadLong(buf[..n])) else Text(kind, buf[..n]), n + 2);
    }
  }

  lemma {:induction false} BulkKeepsStack(stack: seq<Task>, buf: seq<Byte>)
    requires StackOk(stack)
    ensures var o := StepBulk(stack, buf);
            && (o.Next? ==> StackOk(o.stack) && !Poisoned(o.stack))
            && (o.Fail? <==> Poisoned(stack) && !o.Wait?) && (o.Fail? ==> o.error == Fault)
  {
    if SeekNewline(buf).Some? {
      var n := SeekNewline(buf).value;
      var len := ReadLong(buf[..n]);
      if len < 0 {
        FinishKeepsStack(stack, Nil, n + 2);
      } else if n + 2 + len + 2 <= |buf| {
        FinishKeepsStack(stack, Text(Bulk, buf[n + 2..n + 2 + len]), n + 2 + len + 2);
      }
    }
  }

  // ---------- whole runs ----------

  /** A property of the task stack that a machine keeps as long as its steps are allowed, and
      under which they do not fail with e. */
  ghost predicate Guarded(f: Stepper, ok: seq<Task> -> bool, allowed: (seq<Task>, seq<Byte>) -> bool, e: Error) {
    forall stack, buf {:trigger GuardedAt(f, ok, allowed, e, stack, buf)} :: GuardedAt(f, ok, allowed, e, stack, buf)
  }

  ghost predicate GuardedAt(f: Stepper, ok: seq<Task> -> bool, allowed: (seq<Task>, seq<Byte>) -> bool, e: Error,
      stack: seq<Task>, buf: seq<Byte>) {
    ok(stack) && allowed(stack, buf) ==>
        (f(stack, buf).Next? ==> ok(f(stack, buf).stack)) && !(f(stack, buf).Fail? && f(stack, buf).error == e)
  }

  /** Every step of the drain is allowed. */
  ghost predicate AllAllowed(f: Stepper, allowed: (seq<Task>, seq<Byte>) -> bool, r: Reader)
    requires r.stack != [] && Advances(f)
    decreases |r.buf|
  {
    r.err.Some? ||
    (assert GoodOutcome(f(r.stack, r.buf), r.buf);
     allowed(r.stack, r.buf) &&
     match f(r.stack, r.buf)
     case Wait => true
     case Next(stack, used) => AllAllowed(f, allowed, Reader(stack, r.buf[used..], None, r.offset + used))
     case Done(_, used) => AllAllowed(f, allowed, Reader([ROOT], r.buf[used..], None, r.offset + used))
     case Fail(_, _) => true)
  }

  lemma {:induction false} GuardedRun(f: Stepper, ok: seq<Task> -> bool, allowed: (seq<Task>, seq<Byte>) -> bool,
                                      e: Error, r: Reader)
    requires r.stack != [] && Advances(f) && Guarded(f, ok, allowed, e) && ok([ROOT]) && ok(r.stack)
    requires AllAllowed(f, allowed, r)
    ensures var d := DrainBy(f, r); ok(d.1.stack) && forall at :: Failed(e, at) !in d.0
    decreases |r.buf|
  {
    if r.err.None? {
      assert GoodOutcome(f(r.stack, r.buf), r.buf);
      assert GuardedAt(f, ok, allowed, e, r.stack, r.buf);
      match f(r.stack, r.buf)
      case Wait =>
      case Next(stack, used) => GuardedRun(f, ok, allowed, e, Reader(stack, r.buf[used..], None, r.offset + used));
      case Done(_, used) => GuardedRun(f, ok, allowed, e, Reader([ROOT], r.buf[used..], None, r.offset + used));
      case Fail(_, _) =>
    }
  }

  /** No header taken during the drain announces an oversized count. */
  ghost predicate CountsFit(r: Reader)
    requires r.stack != []
  {
    RespAdvances();
    AllAllowed(Resp, (stack: seq<Task>, buf: seq<Byte>) => stack != [] ==> !Oversized(Announced(stack, buf)), r)
  }

  /** Whatever is fed, the reader only ever faults on an oversized count: if every count fits, it
      reports replies or one of its own errors, and its stack stays well formed. */
  lemma {:induction false} OnlyOversizedCountsFault(r: Reader)
    requires StackOk(r.stack) && !Poisoned(r.stack) && CountsFit(r)
    ensures var d := Drain(r);
            StackOk(d.1.stack) && !Poisoned(d.1.stack) && forall at :: Failed(Fault, at) !in d.0
  {
    RespAdvances();
    ghost var ok := (stack: seq<Task>) => StackOk(stack) && !Poisoned(stack);
    var fits := (stack: seq<Task>, buf: seq<Byte>) => stack != [] ==> !Oversized(Announced(stack, buf));
    forall stack, buf ensures GuardedAt(Resp, ok, fits, Fault, stack, buf) {
      if StackOk(stack) { StepKeepsStack(stack, buf); }
    }
    GuardedRun(Resp, ok, fits, Fault, r);
  }

  // ---------- the count limit ----------

  function Header(count: int): seq<Byte> { EncodeLine(STAR, DecInt(count)) }

  lemma {:induction false} RootHeader(m: Machine, count: int, rest: seq<Byte>)
    requires Speaks(m) && 0 < count < TWO_63
    ensures m.drain(Reader([ROOT], Header(count) + rest, None, 0))
         == m.drain(Reader([Task(Multi, Wrap32(count), -1, []), Task(Unknown, -1, 0, [])], rest, None, |Header(count)|))
  {
    var body, st := DecInt(count) + CRLF, WithKind([ROOT], Multi);
    TypeStep(m, [ROOT], STAR, body + rest);
    HeaderStep([ROOT], count, rest);
    assert StepsAt(m, st, body + rest);
    var next := [Task(Multi, Wrap32(count), -1, []), Task(Unknown, -1, 0, [])];
    assert Announce(st, count, |body|).stack == next;
    assert Header(count) + rest == [STAR] + (body + rest);
    TwoSteps(m, [ROOT], STAR, st, body, rest, 0, Next(next, |body|));
  }

  lemma {:induction false} Waiting(m: Machine, stack: seq<Task>, at: nat)
    requires Speaks(m) && Expecting(stack)
    ensures m.drain(Reader(stack, [], None, at)) == ([], Reader(stack, [], None, at))
  {
    assert StepsAt(m, stack, []) && DrainsAt(m, Reader(stack, [], None, at));
  }

  /** The first element of an array for n elements. */
  lemma {:induction false} FirstElement(n: int, r: Reply)
    ensures Finish([Task(Multi, n, -1, []), Task(Unknown, -1, 0, [])], r, 0)
         == if n <= 0 then Fail(Fault, 0) else if n == 1 then Done(Array(1, [r]), 0)
            else Next([Task(Multi, n, -1, [r]), Task(Unknown, -1, 1, [])], 0)
  {
    var stack := [Task(Multi, n, -1, []), Task(Unknown, -1, 0, [])];
    assert [] + [r] == [r];
    assert stack[..0] + [Task(Multi, n, -1, [r])] == [Task(Multi, n, -1, [r])];
    assert stack[..0] + [Task(Multi, n, -1, [r]), Task(Unknown, -1, 1, [])]
           == [Task(Multi, n, -1, [r]), Task(Unknown, -1, 1, [])];
  }

  lemma {:induction false} CountLimitBy(m: Machine, count: int, r: Reply)
    requires Speaks(m) && 0 < count < TWO_63 && Sendable(r, 2) && !r.Array?
    ensures var n, bytes := Wrap32(count), Header(count) + Encode(r);
            m.drain(Reader([ROOT], bytes, None, 0)) ==
            if n <= 0 then ([Failed(Fault, |bytes|)], Reader([ROOT], [], Some(Fault), |bytes|))
            else if n == 1 then ([Got(Array(1, [r]))], Idle(|bytes|))
            else ([], Reader([Task(Multi, n, -1, [r]), Task(Unknown, -1, 1, [])], [], None, |bytes|))
  {
    var n, bytes := Wrap32(count), Header(count) + Encode(r);
    var stack := [Task(Multi, n, -1, []), Task(Unknown, -1, 0, [])];
    RootHeader(m, count, Encode(r));
    assert Encode(r) + [] == Encode(r);
    FirstElement(n, r);
    DecodeLeaf(m, stack, r, [], |Header(count)|, Finish(stack, r, 0));
    Waiting(m, [ROOT], |bytes|);
    Waiting(m, [Task(Multi, n, -1, [r]), Task(Unknown, -1, 1, [])], |bytes|);
    assert [Got(Array(1, [r]))] + [] == [Got(Array(1, [r]))];
  }

  /** A header that announces count elements, and one element. With an oversized count the element
      has nowhere to go; otherwise it is stored, in an array of as many elements as an int keeps
      of count. */
  lemma {:induction false} CountLimit(count: int, r: Reply)
    requires 0 < count < TWO_63 && Sendable(r, 2) && !r.Array?
    ensures var bytes := Header(count) + Encode(r);
            Drain(Reader([ROOT], bytes, None, 0)) ==
            if Oversized(Some(count)) then ([Failed(Fault, |bytes|)], Reader([ROOT], [], Some(Fault), |bytes|))
            else if Wrap32(count) == 1 then ([Got(Array(1, [r]))], Idle(|bytes|))
            else ([], Reader([Task(Multi, Wrap32(count), -1, [r]), Task(Unknown, -1, 1, [])], [], None, |bytes|))
  {
    CountLimitBy(Parser(), count, r);
  }

  /** Two to the 32nd elements are announced and one is sent: the reader faults on it. */
  lemma {:induction false} OversizedCountExists()
    ensures var bytes := Header(0x1_0000_0000) + Encode(Integer(1));
            Drain(Reader([ROOT], bytes, None, 0)).0 == [Failed(Fault, |bytes|)]
  {
    CountLimit(0x1_0000_0000, Integer(1));
  }

  // ---------- the depth limit ----------

  /** Everything Sendable asks for except that arrays nest at most eight deep. */
  ghost predicate Encodable(r: Reply)
    decreases r
  {
    if r.Array? then r.count == |r.items| < TWO_31 && forall i :: 0 <= i < |r.items| ==> Encodable(r.items[i])
    else Sendable(r, 0)
  }

  /** Where the encoding of r, read at level n, first has an array the reader has no level for. */
  function TooDeepAt(r: Reply, n: nat): (at: Option<nat>)
    decreases r
  {
    if !r.Array? then None
    else if n >= MAX_DEPTH then Some(1)
    else Shift(|Header(r.count)|, TooDeepIn(r.items, 0, n + 1))
  }

  function TooDeepIn(items: seq<Reply>, k: nat, n: nat): (at: Option<nat>)
    decreases items, |items| - k
  {
    if k >= |items| then None
    else
      var first := TooDeepAt(items[k], n);
      if first.Some? then first else Shift(|Encode(items[k])|, TooDeepIn(items, k + 1, n))
  }

  function Shift(k: nat, at: Option<nat>): Option<nat> {
    if at.Some? then Some(k + at.value) else None
  }

  lemma {:induction false} SendableIfNotTooDeep(r: Reply, n: nat)
    requires Encodable(r) && n <= MAX_DEPTH
    ensures Sendable(r, n) <==> TooDeepAt(r, n).None?
    decreases r
  {
    if r.Array? && n < MAX_DEPTH {
      AllSendableIfNotTooDeep(r.items, 0, n + 1);
    }
  }

  lemma {:induction false} AllSendableIfNotTooDeep(items: seq<Reply>, k: nat, n: nat)
    requires (forall i :: 0 <= i < |items| ==> Encodable(items[i])) && n <= MAX_DEPTH
    ensures (forall i :: k <= i < |items| ==> Sendable(items[i], n)) <==> TooDeepIn(items, k, n).None?
    decreases items, |items| - k
  {
    if k < |items| {
      SendableIfNotTooDeep(items[k], n);
      AllSendableIfNotTooDeep(items, k + 1, n);
    }
  }

  /** The depth error met at a place, and what it leaves. */
  function TooDeepEnd(at: nat): (seq<Event>, Reader) {
    ([Failed(TooDeep, at)], Reader([ROOT], [], Some(TooDeep), at))
  }

  lemma {:induction false} NoLevelLeft(m: Machine, stack: seq<Task>, s: seq<Byte>, at: nat)
    requires Speaks(m) && Expecting(stack) && |stack| == MAX_DEPTH
    ensures m.drain(Reader(stack, [STAR] + s, None, at)) == TooDeepEnd(at + 1)
  {
    var st := WithKind(stack, Multi);
    TypeStep(m, stack, STAR, s);
    assert StepsAt(m, st, s);
    assert [] + s == s;
    TwoSteps(m, stack, STAR, st, [], s, at, Fail(TooDeep, 0));
  }

  lemma {:induction false} StarFirst(r: Reply, rest: seq<Byte>)
    requires r.Array?
    ensures Encode(r) + rest == [STAR] + (Encode(r) + rest)[1..]
  {
    assert (Encode(r) + rest)[0] == STAR;
  }

  lemma {:induction false} DecodeDeep(m: Machine, stack: seq<Task>, r: Reply, rest: seq<Byte>, at: nat)
    requires Speaks(m) && Ready(stack) && Encodable(r) && TooDeepAt(r, |stack|).Some?
    ensures m.drain(Reader(stack, Encode(r) + rest, None, at)) == TooDeepEnd(at + TooDeepAt(r, |stack|).value)
    decreases r, 0
  {
    var head, all := Header(r.count), EncodeFrom(r.items, 0);
    if |stack| == MAX_DEPTH {
      StarFirst(r, rest);
      NoLevelLeft(m, stack, (Encode(r) + rest)[1..], at);
    } else {
      Regroup(head, all, rest);
      ReadHeader(m, stack, r, all + rest, at);
      DecodeDeepItems(m, stack[..|stack| - 1], stack[|stack| - 1].idx, r, 0, rest, at + |head|,
                      TooDeepAt(r, |stack|).value - |head|);
    }
  }

  lemma {:induction false} DecodeDeepItems(m: Machine, base: seq<Task>, idx: int, r: Reply, k: nat, rest: seq<Byte>,
                                           at: nat, deep: nat)
    requires Speaks(m) && |base| + 1 < MAX_DEPTH && forall i :: 0 <= i < |base| ==> base[i].elements > 0
    requires r.Array? && Encodable(r) && k < |r.items| && TooDeepIn(r.items, k, |base| + 2) == Some(deep)
    ensures m.drain(Reader(Reading(base, idx, r, k), EncodeFrom(r.items, k) + rest, None, at)) == TooDeepEnd(at + deep)
    decreases r, 0, |r.items| - k
  {
    var item, more := r.items[k], EncodeFrom(r.items, k + 1) + rest;
    Regroup(Encode(item), EncodeFrom(r.items, k + 1), rest);
    if TooDeepAt(item, |base| + 2).Some? {
      DecodeDeep(m, Reading(base, idx, r, k), item, more, at);
    } else {
      SkipItem(m, base, idx, r, k, more, at);
      DecodeDeepItems(m, base, idx, r, k + 1, rest, at + |Encode(item)|, deep - |Encode(item)|);
    }
  }

  lemma {:induction false} SkipItem(m: Machine, base: seq<Task>, idx: int, r: Reply, k: nat, more: seq<Byte>, at: nat)
    requires Speaks(m) && |base| + 1 < MAX_DEPTH && forall i :: 0 <= i < |base| ==> base[i].elements > 0
    requires r.Array? && Encodable(r) && k < |r.items| && TooDeepAt(r.items[k], |base| + 2).None?
    ensures k + 1 < |r.items| ==>
              m.drain(Reader(Reading(base, idx, r, k), Encode(r.items[k]) + more, None, at))
              == m.drain(Reader(Reading(base, idx, r, k + 1), more, None, at + |Encode(r.items[k])|))
  {
    SendableIfNotTooDeep(r.items[k], |base| + 2);
    if k + 1 < |r.items| {
      DecodeItem(m, base, idx, r, k, more, at);
    }
  }

  lemma {:induction false} DepthLimitBy(m: Machine, r: Reply)
    requires Speaks(m) && Encodable(r)
    ensures m.drain(Reader([ROOT], Encode(r), None, 0))
         == match TooDeepAt(r, 1)
            case None => ([Got(r)], Idle(|Encode(r)|))
            case Some(at) => TooDeepEnd(at)
  {
    assert Encode(r) + [] == Encode(r);
    SendableIfNotTooDeep(r, 1);
    if TooDeepAt(r, 1).None? {
      DecodeOne(m, r, [], 0);
      Waiting(m, [ROOT], |Encode(r)|);
      assert [Got(r)] + [] == [Got(r)];
    } else {
      DecodeDeep(m, [ROOT], r, [], 0);
    }
  }

  /** A reply comes back if and only if its arrays nest at most eight deep, whatever else is in
      it; otherwise the error is met right behind the type byte of the first array that is nested
      deeper. */
  lemma {:induction false} DepthLimit(r: Reply)
    requires Encodable(r)
    ensures Drain(Reader([ROOT], Encode(r), None, 0))
         == match TooDeepAt(r, 1)
            case None => ([Got(r)], Idle(|Encode(r)|))
            case Some(at) => TooDeepEnd(at)
  {
    DepthLimitBy(Parser(), r);
  }

  /** An integer inside d arrays of one element. */
  function Nested(d: nat): Reply {
    if d == 0 then Integer(0) else Array(1, [Nested(d - 1)])
  }

  lemma {:induction false} NestedDepth(d: nat, n: nat)
    requires 1 <= n <= MAX_DEPTH
    ensures Encodable(Nested(d)) && (TooDeepAt(Nested(d), n).None? <==> d + n <= MAX_DEPTH)
  {
    if d > 0 && n < MAX_DEPTH {
      NestedDepth(d - 1, n + 1);
      assert TooDeepIn(Nested(d).items, 1, n + 1).None?;
    } else if d > 0 {
      NestedEncodable(d);
    }
  }

  lemma {:induction false} NestedEncodable(d: nat)
    ensures Encodable(Nested(d))
  {
    if d > 0 { NestedEncodable(d - 1); }
  }

  /** The reader's message promises no support for arrays nested deeper than seven. It takes eight
      levels and refuses the ninth. */
  lemma {:induction false} EightLevelsNotSeven(d: nat)
    ensures Drain(Reader([ROOT], Encode(Nested(d)), None, 0)).0 == [Got(Nested(d))] <==> d <= 8
  {
    NestedDepth(d, 1);
    DepthLimit(Nested(d));
  }
}
