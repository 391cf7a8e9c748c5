/** The reader object: a buffer with a cursor and nine task slots, updated in place, against the
    machine of RespMachine. */
module RespReaders {
  import opened Bytes
  import opened Options
  import opened RespMachine
  import opened RespLimits
  import opened RespCodec

  // ---------- the machine, one item at a time ----------

  /** The reader after a step with outcome o, and the reply if one was finished. */
  function After(r: Reader, o: Outcome): (Reader, Option<Reply>)
    requires o.Wait? || o.used <= |r.buf|
  {
    match o
    case Wait => (r, None)
    case Next(stack, used) => (Reader(stack, r.buf[used..], None, r.offset + used), None)
    case Done(reply, used) => (Reader([ROOT], r.buf[used..], None, r.offset + used), Some(reply))
    case Fail(e, used) => (Broken(r, e, used), None)
  }

  /** The reader with k bytes taken. */
  function Taken(r: Reader, k: nat): Reader
    requires k <= |r.buf|
  {
    Reader(r.stack, r.buf[k..], None, r.offset + k)
  }

  /** One item as the reader processes it: a type byte if none was read yet, and what follows. The
      flag says whether a whole item was there. */
  function ItemBy(f: Stepper, r: Reader): (Reader, Option<Reply>, bool)
    requires r.stack != [] && Advances(f)
  {
    assert GoodOutcome(f(r.stack, r.buf), r.buf);
    var first := f(r.stack, r.buf);
    if r.stack[|r.stack| - 1].kind == Unknown && first.Next? then
      var r1 := After(r, first).0;
      assert GoodOutcome(f(r1.stack, r1.buf), r1.buf);
      var second := f(r1.stack, r1.buf);
      (After(r1, second).0, After(r1, second).1, second.Next? || second.Done?)
    else (After(r, first).0, After(r, first).1, first.Next? || first.Done?)
  }

  function Item(r: Reader): (Reader, Option<Reply>, bool)
    requires r.stack != []
  {
    RespAdvances();
    ItemBy(Resp, r)
  }

  /** Processing items one after the other, until one ends a reply or is not there, is what it
      takes to get a reply. */
  lemma {:induction false} ItemByItem(f: Stepper, r: Reader)
    requires r.stack != [] && Advances(f) && r.err.None?
    ensures var i := ItemBy(f, r);
            && i.0.stack != []
            && GetReplyBy(f, r) == (if i.2 && i.1.None? then GetReplyBy(f, i.0) else (i.0, i.1))
            && |i.0.buf| <= |r.buf| && (i.2 ==> |i.0.buf| < |r.buf| && i.0.err.None?)
  {
    assert GoodOutcome(f(r.stack, r.buf), r.buf);
    var first := f(r.stack, r.buf);
    if r.stack[|r.stack| - 1].kind == Unknown && first.Next? {
      var r1 := After(r, first).0;
      assert GoodOutcome(f(r1.stack, r1.buf), r1.buf);
    }
  }

  /** The parser's items and replies as values, so that the reader's loop rests on how the two are
      related and not on what they are. */
  datatype Driver = Driver(
    step: Stepper,
    item: Reader -> (Reader, Option<Reply>, bool),
    get: Reader -> (Reader, Option<Reply>),
    drain: Reader -> (seq<Event>, Reader))

  ghost predicate Drives(d: Driver) {
    && (forall stack: seq<Task>, buf: seq<Byte> {:trigger StepAt(d, stack, buf)} ::
        stack != [] ==> StepAt(d, stack, buf))
    && (forall r: Reader {:trigger ItemAt(d, r)} :: r.stack != [] ==> ItemAt(d, r))
    && (forall r: Reader {:trigger GetAt(d, r)} :: r.stack != [] ==> GetAt(d, r))
    && (forall r: Reader {:trigger DrainAt(d, r)} :: r.stack != [] ==> DrainAt(d, r))
  }

  ghost predicate StepAt(d: Driver, stack: seq<Task>, buf: seq<Byte>)
    requires stack != []
  {
    d.step(stack, buf) == Step(stack, buf) && GoodOutcome(d.step(stack, buf), buf)
  }

  ghost predicate ItemAt(d: Driver, r: Reader)
    requires r.stack != []
  {
    d.item(r) == Item(r)
  }

  ghost predicate GetAt(d: Driver, r: Reader)
    requires r.stack != []
  {
    d.get(r) == RespMachine.GetReply(r)
  }

  ghost predicate DrainAt(d: Driver, r: Reader)
    requires r.stack != []
  {
    d.drain(r) == Drain(r)
  }

  ghost function TheDriver(): (d: Driver)
    ensures Drives(d)
  {
    Driver(Resp, (r: Reader) => if r.stack == [] then (r, None, false) else Item(r),
           (r: Reader) => if r.stack == [] then (r, None) else RespMachine.GetReply(r),
           (r: Reader) => if r.stack == [] then ([], r) else Drain(r))
  }

  lemma {:induction false} StepOf(d: Driver, stack: seq<Task>, buf: seq<Byte>)
    requires Drives(d) && stack != [] && stack[|stack| - 1].kind != Unknown
    ensures var kind := stack[|stack| - 1].kind;
            d.step(stack, buf) ==
            if kind == Bulk then StepBulk(stack, buf) else if kind == Multi then StepMulti(stack, buf)
               else StepLine(stack, buf)
  {
    assert StepAt(d, stack, buf);
  }

  lemma {:induction false} TypeStepOf(d: Driver, r: Reader)
    requires Drives(d) && r.stack != [] && r.stack[|r.stack| - 1].kind == Unknown
    ensures d.step(r.stack, r.buf) == StepType(r.stack, r.buf)
  {
    assert StepAt(d, r.stack, r.buf);
  }

  /** An item that ends with its first step. */
  lemma {:induction false} ItemStops(d: Driver, r: Reader)
    requires Drives(d) && r.stack != []
    requires !(r.stack[|r.stack| - 1].kind == Unknown && d.step(r.stack, r.buf).Next?)
    ensures var o := d.step(r.stack, r.buf);
            GoodOutcome(o, r.buf) && d.item(r) == (After(r, o).0, After(r, o).1, o.Next? || o.Done?)
  {
    RespAdvances();
    assert StepAt(d, r.stack, r.buf) && ItemAt(d, r);
  }

  /** An item whose type byte is read first. */
  lemma {:induction false} ItemGoesOn(d: Driver, r: Reader, r1: Reader)
    requires Drives(d) && r.stack != [] && r.stack[|r.stack| - 1].kind == Unknown
    requires var o := d.step(r.stack, r.buf); GoodOutcome(o, r.buf) && o.Next? && r1 == After(r, o).0
    ensures r1.stack != []
    ensures var o := d.step(r1.stack, r1.buf);
            GoodOutcome(o, r1.buf) && d.item(r) == (After(r1, o).0, After(r1, o).1, o.Next? || o.Done?)
  {
    RespAdvances();
    assert StepAt(d, r.stack, r.buf) && ItemAt(d, r) && StepAt(d, r1.stack, r1.buf);
  }

  lemma {:induction false} DriverStep(d: Driver, r: Reader)
    requires Drives(d) && r.stack != [] && r.err.None?
    ensures var i := d.item(r);
            && i.0.stack != []
            && d.get(r) == (if i.2 && i.1.None? then d.get(i.0) else (i.0, i.1))
            && |i.0.buf| <= |r.buf| && (i.2 ==> |i.0.buf| < |r.buf| && i.0.err.None?)
  {
    RespAdvances();
    ItemByItem(Resp, r);
    assert ItemAt(d, r) && GetAt(d, r) && GetAt(d, d.item(r).0);
  }

  lemma {:induction false} GetFromNothing(d: Driver, r: Reader)
    requires Drives(d) && r.stack != [] && (r.err.Some? || r.buf == [])
    requires r.stack[|r.stack| - 1].kind == Multi ==> |r.stack| < MAX_DEPTH
    ensures d.get(r) == (r, None)
  {
    RespAdvances();
    assert GetAt(d, r);
  }

  // ---------- scanning ----------

  lemma {:induction false} SeekNewlineIs(s: seq<Byte>, k: nat)
    requires k + 1 < |s| && s[k] == CR && s[k + 1] == LF
    requires forall i :: 0 <= i < k ==> !(s[i] == CR && s[i + 1] == LF)
    ensures SeekNewline(s) == Some(k)
  {
    if k > 0 {
      SeekNewlineIs(s[1..], k - 1);
    }
  }

  lemma {:induction false} SeekNewlineIsNot(s: seq<Byte>)
    requires forall i :: 0 <= i < |s| - 1 ==> !(s[i] == CR && s[i + 1] == LF)
    ensures SeekNewline(s).None?
  {
    var r := SeekNewline(s);
  }

  /** The first line end in the bytes from start on. */
  method FindNewline(s: seq<Byte>, start: nat) returns (found: Option<nat>)
    requires start <= |s|
    ensures found == SeekNewline(s[start..])
  {
    var b := s[start..];
    var pos, last := 0, |b| - 1;
    while pos < last
      invariant 0 <= pos <= last + 1
      invariant forall i :: 0 <= i < pos && i + 1 < |b| ==> !(b[i] == CR && b[i + 1] == LF)
    {
      while pos < last && b[pos] != CR
        invariant 0 <= pos <= last
        invariant forall i :: 0 <= i < pos && i + 1 < |b| ==> !(b[i] == CR && b[i + 1] == LF)
      {
        pos := pos + 1;
      }
      if b[pos] != CR {
        SeekNewlineIsNot(b);
        return None;
      }
      if pos + 1 < |b| && b[pos + 1] == LF {
        SeekNewlineIs(b, pos);
        return Some(pos);
      }
      pos := pos + 1;
    }
    SeekNewlineIsNot(b);
    return None;
  }

  lemma {:induction false} DigitsBeforeCR(s: seq<Byte>, n: nat, v: int)
    requires n < |s| && s[n] == CR
    ensures Digits(s[..n], v) == Digits(s, v)
    decreases n
  {
    if n > 0 && s[0] != CR && IsDigit(s[0]) {
      assert s[..n][1..] == s[1..][..n - 1];
      DigitsBeforeCR(s[1..], n - 1, Wrap64(Wrap64(v * 10) + (s[0] - ZERO)));
    }
  }

  /** Reading a number goes no further than the first carriage return. */
  lemma {:induction false} ReadLongBeforeCR(s: seq<Byte>, n: nat)
    requires n < |s| && s[n] == CR
    ensures ReadLong(s[..n]) == ReadLong(s)
  {
    var signed := s[0] == MINUS || s[0] == PLUS;
    if signed {
      assert s[..n][1..] == s[1..][..n - 1];
      DigitsBeforeCR(s[1..], n - 1, 0);
    } else {
      DigitsBeforeCR(s, n, 0);
    }
  }

  /** The number at the front of s, which has a carriage return in it. */
  method ReadLongLong(s: seq<Byte>) returns (v: int)
    requires CR in s
    ensures v == ReadLong(s)
  {
    var mult, i := 1, 0;
    v := 0;
    if s[0] == MINUS {
      mult, i := -1, 1;
    } else if s[0] == PLUS {
      i := 1;
    }
    ghost var digits := s[i..];
    while s[i] != CR
      invariant i < |s| && CR in s[i..] && -TWO_63 <= v < TWO_63
      invariant Digits(s[i..], v) == Digits(digits, 0)
      decreases |s| - i
    {
      var dec := s[i] - ZERO;
      assert s[i..][1..] == s[i + 1..];
      if !(0 <= dec < 10) {
        return -1;
      }
      v := Wrap64(v * 10);
      v := Wrap64(v + dec);
      i := i + 1;
    }
    v := Wrap64(mult * v);
  }

  /** The number on a line of n bytes that starts at start. */
  method NumberAt(s: seq<Byte>, start: nat, ghost n: nat) returns (v: int)
    requires start + n < |s| && s[start + n] == CR
    ensures v == ReadLong(s[start..][..n])
  {
    assert s[start..][n] == CR;
    ReadLongBeforeCR(s[start..], n);
    v := ReadLongLong(s[start..]);
  }

  lemma {:induction false} DropTwice(s: seq<Byte>, a: nat, b: nat)
    requires a + b <= |s|
    ensures s[a..][b..] == s[a + b..]
  {
  }

  // ---------- the object ----------

  class RedisReader {
    var buf: seq<Byte>
    var pos: nat
    var len: nat
    const rstack: array<Task>
    var ridx: int
    var reply: Option<Reply>
    var err: Option<Error>
    /** How many bytes were dropped from the front of the buffer. */
    ghost var dropped: nat

    ghost predicate Valid()
      reads this, rstack
    {
      StackValid() && pos <= len == |buf| && (err.Some? ==> ridx == -1 && buf == [] && reply.None?)
    }

    ghost predicate StackValid()
      reads this`ridx, rstack
    {
      rstack.Length == MAX_DEPTH && -1 <= ridx < MAX_DEPTH && StackOk(Tasks())
    }

    /** Between calls no nested array is left without a level. */
    ghost predicate AtRest()
      reads this, rstack
    {
      Valid() && !(ridx == MAX_DEPTH - 1 && rstack[ridx].kind == Multi)
    }

    /** The tasks in use; an empty stack is the same as one about to read a first reply. */
    ghost function Tasks(): (stack: seq<Task>)
      requires rstack.Length == MAX_DEPTH && -1 <= ridx < MAX_DEPTH
      reads this`ridx, rstack
      ensures stack != []
    {
      if ridx == -1 then [ROOT] else rstack[..ridx + 1]
    }

    ghost function State(): Reader
      requires Valid()
      reads this, rstack
    {
      Reader(Tasks(), buf[pos..], err, dropped + pos)
    }

    constructor ()
      ensures AtRest() && fresh(rstack) && State() == FRESH
    {
      buf, pos, len, ridx, reply, err, dropped := [], 0, 0, -1, None, None, 0;
      rstack := new Task[MAX_DEPTH](_ => ROOT);
    }

    method Feed(bytes: seq<Byte>) returns (ok: bool)
      requires AtRest()
      modifies this
      ensures AtRest()
      ensures State() == RespMachine.Feed(old(State()), bytes) && reply == old(reply)
      ensures err == old(err) && ok == err.None?
    {
      if err.Some? { return false; }
      if |bytes| >= 1 {
        assert (buf + bytes)[pos..] == buf[pos..] + bytes;
        buf := buf + bytes;
        len := |buf|;
      } else {
        assert buf[pos..] + bytes == buf[pos..];
      }
      return true;
    }

    method SetError(e: Error, ghost used: nat)
      requires Valid() && err.None? && used <= |State().buf|
      modifies this
      ensures Valid() && AtRest() && State() == Broken(old(State()), e, used) && err == Some(e) && reply.None?
    {
      dropped := dropped + pos + used;
      reply := None;
      buf, pos, len := [], 0, 0;
      ridx := -1;
      err := Some(e);
    }

    /** obj is finished: it takes its place in its array, and on to the next task. */
    method MoveToNextTask(obj: Reply)
      requires Valid() && err.None? && ridx >= 0 && !Poisoned(Tasks()) && reply.None?
      modifies this`ridx, this`reply, rstack
      ensures Valid() && (reply.Some? <==> ridx == -1) && (ridx >= 0 ==> rstack[ridx].kind == Unknown)
      ensures Finish(old(Tasks()), obj, 0) == if reply.Some? then Done(reply.value, 0) else Next(Tasks(), 0)
    {
      var done := obj;
      while ridx > 0
        invariant 0 <= ridx <= old(ridx) && Valid() && !Poisoned(Tasks()) && reply.None?
        invariant Finish(Tasks(), done, 0) == Finish(old(Tasks()), obj, 0)
        decreases ridx
      {
        var last := rstack[ridx].idx == rstack[ridx - 1].elements - 1;
        done := Store(done);
        if !last { return; }
      }
      ridx := -1;
      reply := Some(done);
    }

    /** Stores obj in the array it belongs to. If that completes the array, the array is what is
        finished next; otherwise its next element is to be read. */
    method Store(obj: Reply) returns (done: Reply)
      requires Valid() && err.None? && ridx > 0 && !Poisoned(Tasks())
      modifies this`ridx, rstack
      ensures Valid() && !Poisoned(Tasks())
      ensures if old(rstack[ridx].idx == rstack[ridx - 1].elements - 1)
              then ridx == old(ridx) - 1 && Finish(Tasks(), done, 0) == Finish(old(Tasks()), obj, 0)
              else ridx == old(ridx) && Finish(old(Tasks()), obj, 0) == Next(Tasks(), 0)
    {
      ghost var before := Tasks();
      assert FillsAt(before, ridx - 1);
      StoredKeepsStack(before, obj);
      FinishKeepsStack(before, obj, 0);
      var cur, prv := rstack[ridx], rstack[ridx - 1];
      assert prv.kind == Multi;
      prv := prv.(items := prv.items + [obj]);
      rstack[ridx - 1] := prv;
      done := Array(prv.elements, prv.items);
      assert rstack[..ridx] == Stored(before, obj);
      if cur.idx == prv.elements - 1 {
        ridx := ridx - 1;
      } else {
        assert cur.idx < prv.elements;
        rstack[ridx] := Task(Unknown, -1, cur.idx + 1, []);
        assert rstack[..ridx + 1] == before[..ridx - 1] + [prv, Task(Unknown, -1, cur.idx + 1, [])];
      }
    }

    /** The state is what a step with outcome o makes of the reader before it. */
    ghost predicate Made(ok: bool, before: Reader, o: Outcome)
      reads this, rstack
    {
      && Valid() && (o.Wait? || o.used <= |before.buf|)
      && State() == After(before, o).0 && reply == After(before, o).1
      && ok == (o.Next? || o.Done?) && (ridx >= 0 <==> o.Wait? || o.Next?)
    }

    /** A reply object is made. Its array may have no room for it. */
    method Finished(obj: Reply, ghost before: Reader, ghost used: nat, ghost o: Outcome) returns (ok: bool)
      requires Valid() && err.None? && ridx >= 0 && reply.None? && used <= |before.buf|
      requires State() == Taken(before, used)
      requires o == Finish(before.stack, obj, used)
      modifies this, rstack
      ensures Made(ok, before, o)
      ensures o.Next? ==> rstack[ridx].kind == Unknown
    {
      FinishUncounted(before.stack, obj, used);
      FinishKeepsStack(before.stack, obj, used);
      if ridx > 0 && rstack[ridx - 1].elements <= 0 {
        SetError(Fault, 0);
        return false;
      }
      MoveToNextTask(obj);
      return true;
    }

    /** Takes k bytes off the buffer. */
    method Skip(k: nat)
      requires Valid() && err.None? && pos + k <= len
      modifies this`pos
      ensures Valid() && State() == Taken(old(State()), k) && pos == old(pos) + k
    {
      DropTwice(buf, pos, k);
      pos := pos + k;
    }

    /** Takes the bytes up to the next line end, and the line end, off the buffer. */
    method ReadLine() returns (line: Option<seq<Byte>>)
      requires Valid() && err.None?
      modifies this`pos
      ensures Valid()
      ensures match SeekNewline(old(State()).buf)
              case None => line.None? && pos == old(pos)
              case Some(n) => line == Some(old(State()).buf[..n]) && pos == old(pos) + n + 2
                              && State() == Taken(old(State()), n + 2) && buf[old(pos) + n] == CR
    {
      var s := FindNewline(buf, pos);
      if s.None? { return None; }
      line := Some(buf[pos..][..s.value]);
      Skip(s.value + 2);
    }

    method ProcessLineItem(ghost o: Outcome) returns (ok: bool)
      requires Valid() && err.None? && ridx >= 0 && reply.None? && o == StepLine(Tasks(), buf[pos..])
      modifies this, rstack
      ensures Made(ok, old(State()), o)
      ensures o.Next? ==> rstack[ridx].kind == Unknown
    {
      ghost var before := State();
      var start := pos;
      var line := ReadLine();
      if line.None? { return false; }
      var obj := MakeLineReply(rstack[ridx].kind, line.value, start);
      ghost var used := |line.value| + 2;
      assert o == Finish(before.stack, obj, used);
      ok := Finished(obj, before, used, o);
    }

    method MakeLineReply(kind: Kind, line: seq<Byte>, start: nat) returns (obj: Reply)
      requires start + |line| < |buf| && buf[start + |line|] == CR && line == buf[start..][..|line|]
      ensures obj == LineReply(kind, line)
    {
      if kind != IntegerLine { return Text(kind, line); }
      var v := NumberAt(buf, start, |line|);
      return Integer(v);
    }

    method ProcessBulkItem(ghost o: Outcome) returns (ok: bool)
      requires Valid() && err.None? && ridx >= 0 && reply.None? && o == StepBulk(Tasks(), buf[pos..])
      modifies this, rstack
      ensures Made(ok, old(State()), o)
      ensures o.Next? ==> rstack[ridx].kind == Unknown
    {
      var s := FindNewline(buf, pos);
      if s.None? { return false; }
      var length := NumberAt(buf, pos, s.value);
      ok := ProcessBulk(s.value, length, o);
    }

    /** A bulk string of so many bytes behind a line of n bytes. */
    method ProcessBulk(n: nat, length: int, ghost o: Outcome) returns (ok: bool)
      requires Valid() && err.None? && ridx >= 0 && reply.None? && pos + n + 2 <= len
      requires o == TakeBulk(Tasks(), buf[pos..], n, length)
      modifies this, rstack
      ensures Made(ok, old(State()), o)
      ensures o.Next? ==> rstack[ridx].kind == Unknown
    {
      ghost var before := State();
      var bytelen := n + 2;
      var obj := Nil;
      if length >= 0 {
        bytelen := bytelen + length + 2;
        if pos + bytelen > len { return false; }
        obj := Text(Bulk, buf[pos..][n + 2..n + 2 + length]);
      }
      assert o == Finish(before.stack, obj, bytelen);
      Skip(bytelen);
      ok := Finished(obj, before, bytelen, o);
    }

    /** Arrays may not nest deeper. */
    method RefuseDepth(ghost o: Outcome) returns (ok: bool)
      requires Valid() && err.None? && ridx >= 0 && o == Fail(TooDeep, 0)
      modifies this
      ensures Made(ok, old(State()), o)
    {
      SetError(TooDeep, 0);
      return false;
    }

    method ProcessMultiBulkItem(ghost o: Outcome) returns (ok: bool)
      requires Valid() && err.None? && ridx >= 0 && reply.None? && rstack[ridx].kind == Multi
      requires o == StepMulti(Tasks(), buf[pos..])
      modifies this, rstack
      ensures Made(ok, old(State()), o)
      ensures o.Next? ==> rstack[ridx].kind == Unknown
    {
      if ridx == MAX_DEPTH - 1 {
        ok := RefuseDepth(o);
        return;
      }
      ghost var before := State();
      var start := pos;
      var elements := ReadNumber();
      if elements.None? { return false; }
      ok := Header(elements.value, before, pos - start, o);
    }

    /** Takes a line with a number on it off the buffer. */
    method ReadNumber() returns (v: Option<int>)
      requires Valid() && err.None?
      modifies this`pos
      ensures Valid()
      ensures match SeekNewline(old(State()).buf)
              case None => v.None? && pos == old(pos)
              case Some(n) => v == Some(ReadLong(old(State()).buf[..n])) && pos == old(pos) + n + 2
                              && State() == Taken(old(State()), n + 2)
    {
      var start := pos;
      var line := ReadLine();
      if line.None? { return None; }
      var number := NumberAt(buf, start, |line.value|);
      return Some(number);
    }

    /** An array header that announces so many elements. */
    method Header(elements: int, ghost before: Reader, ghost used: nat, ghost o: Outcome) returns (ok: bool)
      requires Valid() && err.None? && 0 <= ridx < MAX_DEPTH - 1 && reply.None? && rstack[ridx].kind == Multi
      requires used <= |before.buf| && State() == Taken(before, used)
      requires o == Announce(before.stack, elements, used)
      modifies this, rstack
      ensures Made(ok, before, o)
      ensures o.Next? ==> rstack[ridx].kind == Unknown
    {
      if elements == -1 {
        ok := Finished(Nil, before, used, o);
        return;
      }
      if ridx > 0 && rstack[ridx - 1].elements <= 0 {
        SetError(Fault, 0);
        return false;
      }
      if elements > 0 {
        Open(elements);
        return true;
      }
      ok := Finished(Array(Wrap32(elements), []), before, used, o);
    }

    /** An array of so many elements is opened. */
    method Open(elements: int)
      requires Valid() && err.None? && 0 <= ridx < MAX_DEPTH - 1 && !Poisoned(Tasks()) && rstack[ridx].kind == Multi
      modifies this`ridx, rstack
      ensures Valid() && ridx == old(ridx) + 1 && Tasks() == Opened(old(Tasks()), elements)
    {
      OpenedKeepsStack(Tasks(), elements);
      ghost var next := Opened(Tasks(), elements);
      rstack[ridx] := rstack[ridx].(elements := Wrap32(elements), items := []);
      rstack[ridx + 1] := Task(Unknown, -1, 0, []);
      ridx := ridx + 1;
      assert Tasks() == next;
    }

    method ProcessItem(ghost d: Driver) returns (ok: bool)
      requires AtRest() && err.None? && ridx >= 0 && reply.None? && Drives(d)
      modifies this, rstack
      ensures AtRest() && (State(), reply, ok) == d.item(old(State())) && (ridx >= 0 <==> err.None? && reply.None?)
    {
      ghost var before := State();
      if rstack[ridx].kind == Unknown {
        TypeStepOf(d, before);
        ok := ReadType(d.step(before.stack, before.buf));
        if !ok {
          ItemStops(d, before);
          return;
        }
        ItemGoesOn(d, before, State());
      } else {
        ItemStops(d, before);
      }
      ok := ProcessTyped(d);
    }

    /** The byte that says what kind of item follows. */
    method ReadType(ghost o: Outcome) returns (ok: bool)
      requires AtRest() && err.None? && ridx >= 0 && reply.None? && rstack[ridx].kind == Unknown
      requires o == StepType(Tasks(), buf[pos..])
      modifies this, rstack
      ensures Made(ok, old(State()), o)
      ensures if ok then ridx == old(ridx) && rstack[ridx].kind != Unknown else AtRest()
    {
      ghost var before := State();
      var b := ReadByte();
      if b.None? { return false; }
      var kind := TypeOf(b.value);
      if kind == Unknown {
        SetError(BadTypeByte(b.value), 0);
        return false;
      }
      TypeKeepsStack(before.stack, before.buf);
      SetKind(kind);
      return true;
    }

    method ReadByte() returns (b: Option<Byte>)
      requires Valid() && err.None?
      modifies this`pos
      ensures Valid()
      ensures if old(State()).buf == [] then b.None? && pos == old(pos)
              else b == Some(old(State()).buf[0]) && State() == Taken(old(State()), 1)
    {
      if pos == len { return None; }
      b := Some(buf[pos]);
      Skip(1);
    }

    method SetKind(kind: Kind)
      requires Valid() && err.None? && ridx >= 0
      requires StackOk(Tasks()[ridx := Tasks()[ridx].(kind := kind)])
      modifies rstack
      ensures Valid() && Tasks() == old(Tasks())[ridx := old(Tasks())[ridx].(kind := kind)]
    {
      ghost var next := Tasks()[ridx := Tasks()[ridx].(kind := kind)];
      rstack[ridx] := rstack[ridx].(kind := kind);
      assert Tasks() == next;
    }

    /** What the next step has to be, by the kind of the item. */
    ghost method StepHere(d: Driver) returns (o: Outcome)
      requires Valid() && ridx >= 0 && rstack[ridx].kind != Unknown && Drives(d)
      ensures o == d.step(Tasks(), buf[pos..])
      ensures rstack[ridx].kind == Bulk ==> o == StepBulk(Tasks(), buf[pos..])
      ensures rstack[ridx].kind == Multi ==> o == StepMulti(Tasks(), buf[pos..])
      ensures rstack[ridx].kind !in {Bulk, Multi} ==> o == StepLine(Tasks(), buf[pos..])
    {
      StepOf(d, Tasks(), buf[pos..]);
      o := d.step(Tasks(), buf[pos..]);
    }

    /** The item whose type is known. */
    method ProcessTyped(ghost d: Driver) returns (ok: bool)
      requires Valid() && err.None? && ridx >= 0 && reply.None? && rstack[ridx].kind != Unknown && Drives(d)
      modifies this, rstack
      ensures Made(ok, old(State()), d.step(old(Tasks()), old(buf[pos..]))) && AtRest()
    {
      ghost var o := StepHere(d);
      var kind := rstack[ridx].kind;
      if kind == Bulk {
        ok := ProcessBulkItem(o);
      } else if kind == Multi {
        ok := ProcessMultiBulkItem(o);
      } else {
        ok := ProcessLineItem(o);
      }
    }

    /** Items, until one ends a reply, is not there yet, or is an error. */
    method ProcessItems(ghost d: Driver)
      requires AtRest() && err.None? && ridx >= 0 && reply.None? && Drives(d)
      modifies this, rstack
      ensures AtRest() && (State(), reply) == d.get(old(State())) && (ridx >= 0 <==> err.None? && reply.None?)
    {
      var more := true;
      while more && ridx >= 0
        invariant AtRest() && (ridx >= 0 <==> err.None? && reply.None?)
        invariant d.get(old(State())) == if more && ridx >= 0 then d.get(State()) else (State(), reply)
        decreases |State().buf|, more
      {
        DriverStep(d, State());
        more := ProcessItem(d);
      }
    }

    /** The next reply, if all of it has been fed. */
    method GetReply() returns (ok: bool, out: Option<Reply>)
      requires AtRest() && reply.None?
      modifies this, rstack
      ensures AtRest() && reply.None?
      ensures (State(), out) == RespMachine.GetReply(old(State())) && ok == err.None? && (!ok ==> out.None?)
    {
      ghost var d := TheDriver();
      assert GetAt(d, State());
      if err.Some? || len == 0 {
        GetFromNothing(d, State());
        return err.None?, None;
      }
      if ridx == -1 {
        rstack[0] := ROOT;
        ridx := 0;
      }
      assert State() == old(State());
      ProcessItems(d);
      if err.Some? { return false, None; }
      if pos >= 1024 { Discard(); }
      out := None;
      if ridx == -1 {
        out := reply;
        reply := None;
      }
      return true, out;
    }

    /** Drops the bytes already read from the buffer. */
    method Discard()
      requires AtRest()
      modifies this
      ensures AtRest() && State() == old(State()) && reply == old(reply) && ridx == old(ridx) && err == old(err)
    {
      dropped := dropped + pos;
      buf := buf[pos..];
      pos := 0;
      len := |buf|;
    }
  }

  // ---------- draining the object ----------

  lemma {:induction false} DrainTakesReplies(f: Stepper, r: Reader)
    requires r.stack != [] && Advances(f)
    ensures var g := GetReplyBy(f, r);
            && (g.1.Some? ==>
                |g.0.buf| < |r.buf| && DrainBy(f, r) == ([Got(g.1.value)] + DrainBy(f, g.0).0, DrainBy(f, g.0).1))
            && (g.1.None? ==>
                DrainBy(f, r)
                == (if r.err.None? && g.0.err.Some? then [Failed(g.0.err.value, g.0.offset)] else [], g.0))
    decreases |r.buf|
  {
    if r.err.None? {
      assert GoodOutcome(f(r.stack, r.buf), r.buf);
      match f(r.stack, r.buf)
      case Next(stack, used) => DrainTakesReplies(f, Reader(stack, r.buf[used..], None, r.offset + used));
      case Wait =>
      case Done(_, _) =>
      case Fail(_, _) =>
    }
  }

  /** The replies, and the error met behind them if there is one, are these events. */
  ghost predicate Reports(events: seq<Event>, replies: seq<Reply>, failure: Option<Error>, at: nat) {
    && |events| == |replies| + (if failure.Some? then 1 else 0)
    && (forall i :: 0 <= i < |replies| ==> events[i] == Got(replies[i]))
    && (failure.Some? ==> events[|replies|] == Failed(failure.value, at))
  }

  /** The drain of r, taken a reply further. */
  lemma {:induction false} DrainGoesOn(d: Driver, r: Reader)
    requires Drives(d) && r.stack != [] && r.err.None?
    ensures var g := d.get(r);
            && g.0.stack != []
            && (g.1.Some? ==> |g.0.buf| < |r.buf| && d.drain(r) == ([Got(g.1.value)] + d.drain(g.0).0, d.drain(g.0).1))
            && (g.1.None? ==> d.drain(r) == (if g.0.err.Some? then [Failed(g.0.err.value, g.0.offset)] else [], g.0))
  {
    RespAdvances();
    DrainTakesReplies(Resp, r);
    assert GetAt(d, r) && DrainAt(d, r) && DrainAt(d, d.get(r).0);
  }

  /** The drain of start has brought events so far and is at r. */
  ghost predicate Drained(d: Driver, start: Reader, events: seq<Event>, r: Reader) {
    d.drain(start) == (events + d.drain(r).0, d.drain(r).1)
  }

  lemma {:induction false} DrainedFurther(d: Driver, start: Reader, events: seq<Event>, r: Reader)
    requires Drives(d) && r.stack != [] && r.err.None? && Drained(d, start, events, r)
    ensures var g := d.get(r);
            && (g.1.Some? ==> |g.0.buf| < |r.buf| && Drained(d, start, events + [Got(g.1.value)], g.0))
            && (g.1.None? ==>
                d.drain(start) == (events + (if g.0.err.Some? then [Failed(g.0.err.value, g.0.offset)] else []), g.0))
  {
    DrainGoesOn(d, r);
    var g := d.get(r);
    if g.1.Some? {
      assert events + ([Got(g.1.value)] + d.drain(g.0).0) == events + [Got(g.1.value)] + d.drain(g.0).0;
    }
  }

  /** Takes replies off the reader until there is none or an error is met. */
  method DrainReader(r: RedisReader, ghost d: Driver) returns (replies: seq<Reply>, failure: Option<Error>)
    requires r.AtRest() && r.reply.None? && r.err.None? && Drives(d)
    modifies r, r.rstack
    ensures r.AtRest() && r.reply.None? && r.State() == d.drain(old(r.State())).1
    ensures Reports(d.drain(old(r.State())).0, replies, failure, r.State().offset)
  {
    ghost var start, events := r.State(), [];
    replies := [];
    assert [] + d.drain(start).0 == d.drain(start).0;
    while true
      invariant r.AtRest() && r.reply.None? && r.err.None? && Reports(events, replies, None, 0)
      invariant Drained(d, start, events, r.State())
      decreases |r.State().buf|
    {
      ghost var before := r.State();
      DrainedFurther(d, start, events, before);
      assert GetAt(d, before);
      var ok, out := r.GetReply();
      if !ok { return replies, r.err; }
      if out.None? { return replies, None; }
      replies, events := replies + [out.value], events + [Got(out.value)];
    }
  }

  /** Feeds bytes and takes what replies they complete. */
  method FeedAndDrain(r: RedisReader, bytes: seq<Byte>) returns (replies: seq<Reply>, failure: Option<Error>)
    requires r.AtRest() && r.reply.None? && r.err.None?
    modifies r, r.rstack
    ensures r.AtRest() && r.reply.None?
    ensures r.State() == Drain(RespMachine.Feed(old(r.State()), bytes)).1
    ensures Reports(Drain(RespMachine.Feed(old(r.State()), bytes)).0, replies, failure, r.State().offset)
  {
    var ok := r.Feed(bytes);
    ghost var d := TheDriver();
    assert DrainAt(d, r.State());
    replies, failure := DrainReader(r, d);
  }
}
