/** Quoting a string for a command line, and splitting a command line into its arguments. */
module SdsQuotes {
  import opened Bytes
  import opened Options

  const SPACE: Byte := 32
  const QUOTE: Byte := 34
  const APOSTROPHE: Byte := 39
  const BACKSLASH: Byte := 92
  const LOWER_A: Byte := 97
  const LOWER_B: Byte := 98
  const LOWER_N: Byte := 110
  const LOWER_R: Byte := 114
  const LOWER_T: Byte := 116
  const LOWER_X: Byte := 120
  const BELL: Byte := 7
  const BACKSPACE: Byte := 8
  const TAB: Byte := 9

  predicate IsPrint(c: Byte) { 32 <= c < 127 }

  predicate IsSpace(c: Byte) { c == SPACE || 9 <= c <= 13 }

  // ---------- quoting ----------

  function HexDigit(d: nat): Byte
    requires d < 16
  {
    if d < 10 then ZERO + d else LOWER_A + (d - 10)
  }

  /** One byte as it is written between quotes. */
  function Escaped(c: Byte): (s: seq<Byte>)
    ensures s != []
  {
    if c == BACKSLASH || c == QUOTE then [BACKSLASH, c]
    else if c == LF then [BACKSLASH, LOWER_N]
    else if c == CR then [BACKSLASH, LOWER_R]
    else if c == TAB then [BACKSLASH, LOWER_T]
    else if c == BELL then [BACKSLASH, LOWER_A]
    else if c == BACKSPACE then [BACKSLASH, LOWER_B]
    else if IsPrint(c) then [c]
    else [BACKSLASH, LOWER_X, HexDigit(c / 16), HexDigit(c % 16)]
  }

  function EscapedFrom(p: seq<Byte>, k: nat): seq<Byte>
    decreases |p| - k
  {
    if k >= |p| then [] else Escaped(p[k]) + EscapedFrom(p, k + 1)
  }

  function Repr(p: seq<Byte>): seq<Byte> { [QUOTE] + (EscapedFrom(p, 0) + [QUOTE]) }

  /** Quoted arguments with single spaces between them. */
  function Joined(args: seq<seq<Byte>>): seq<Byte> {
    if args == [] then []
    else if |args| == 1 then Repr(args[0])
    else Repr(args[0]) + ([SPACE] + Joined(args[1..]))
  }

  // ---------- splitting ----------

  /** Byte i of a line; behind its last byte a line has a zero byte. */
  function At(line: seq<Byte>, i: nat): Byte { if i < |line| then line[i] else NUL }

  predicate IsHexDigit(c: Byte) {
    48 <= c <= 57 || 97 <= c <= 102 || 65 <= c <= 70
  }

  function HexValue(c: Byte): (v: nat)
    ensures v < 16
  {
    if 48 <= c <= 57 then c - 48
    else if 97 <= c <= 102 then c - 87
    else if 65 <= c <= 70 then c - 55
    else 0
  }

  /** What a backslash and c stand for in double quotes. */
  function Unescaped(c: Byte): Byte {
    if c == LOWER_N then LF
    else if c == LOWER_R then CR
    else if c == LOWER_T then TAB
    else if c == LOWER_B then BACKSPACE
    else if c == LOWER_A then BELL
    else c
  }

  datatype Mode = Bare | Quoted | Single

  datatype Move = Put(c: Byte, width: nat) | Switch(mode: Mode) | Finish(width: nat) | Fail

  /** What the front of the line does to the argument being read. */
  function MoveOn(line: seq<Byte>, mode: Mode): (m: Move)
    ensures m.Put? ==> 0 < m.width <= |line|
    ensures m.Switch? ==> |line| > 0
    ensures m.Finish? ==> m.width <= |line| && (At(line, 0) != NUL ==> m.width > 0)
  {
    var c, d := At(line, 0), At(line, 1);
    match mode
    case Quoted =>
      if c == BACKSLASH && d == LOWER_X && IsHexDigit(At(line, 2)) && IsHexDigit(At(line, 3)) then
        Put(HexValue(At(line, 2)) * 16 + HexValue(At(line, 3)), 4)
      else if c == BACKSLASH && d != NUL then Put(Unescaped(d), 2)
      else if c == QUOTE then (if d != NUL && !IsSpace(d) then Fail else Finish(1))
      else if c == NUL then Fail
      else Put(c, 1)
    case Single =>
      if c == BACKSLASH && d == APOSTROPHE then Put(APOSTROPHE, 2)
      else if c == APOSTROPHE then (if d != NUL && !IsSpace(d) then Fail else Finish(1))
      else if c == NUL then Fail
      else Put(c, 1)
    case Bare =>
      if c == NUL then Finish(0)
      else if c == SPACE || c == LF || c == CR || c == TAB then Finish(1)
      else if c == QUOTE then Switch(Quoted)
      else if c == APOSTROPHE then Switch(Single)
      else Put(c, 1)
  }

  /** The argument that is read on from the front of the line, and what is left of the line; none
      if quotes are not closed, or not followed by a space. */
  function Token(line: seq<Byte>, mode: Mode, current: seq<Byte>): (r: Option<(seq<Byte>, seq<Byte>)>)
    ensures r.Some? ==> |r.value.1| <= |line| && (mode == Bare && At(line, 0) != NUL ==> |r.value.1| < |line|)
    decreases |line|
  {
    match MoveOn(line, mode)
    case Put(c, width) => Token(line[width..], mode, current + [c])
    case Switch(next) => Token(line[1..], next, current)
    case Finish(width) => Some((current, line[width..]))
    case Fail => None
  }

  function SkipBlanks(line: seq<Byte>): (r: seq<Byte>)
    ensures |r| <= |line|
  {
    if line != [] && IsSpace(line[0]) then SkipBlanks(line[1..]) else line
  }

  /** The arguments with one more before them. */
  function Prepend(arg: seq<Byte>, more: Option<seq<seq<Byte>>>): Option<seq<seq<Byte>>> {
    if more.None? then None else Some([arg] + more.value)
  }

  /** The arguments on a line. */
  function Split(line: seq<Byte>): Option<seq<seq<Byte>>>
    decreases |line|
  {
    var l := SkipBlanks(line);
    if At(l, 0) == NUL then Some([])
    else
      match Token(l, Bare, [])
      case None => None
      case Some((token, rest)) =>
        Prepend(token, Split(rest))
  }

  // ---------- the round trip ----------

  lemma {:induction false} HexRoundTrip(c: Byte)
    ensures var h, l := HexDigit(c / 16), HexDigit(c % 16);
            IsHexDigit(h) && IsHexDigit(l) && HexValue(h) * 16 + HexValue(l) == c
  {
    HexDigitValue(c / 16);
    HexDigitValue(c % 16);
  }

  lemma {:induction false} HexDigitValue(d: nat)
    requires d < 16
    ensures IsHexDigit(HexDigit(d)) && HexValue(HexDigit(d)) == d
  {
  }

  /** An escaped byte is read as the byte. */
  lemma {:induction false} EscapedReads(c: Byte, more: seq<Byte>)
    ensures MoveOn(Escaped(c) + more, Quoted) == Put(c, |Escaped(c)|)
  {
    var e, line := Escaped(c), Escaped(c) + more;
    assert At(line, 0) == e[0] && (|e| > 1 ==> At(line, 1) == e[1]);
    if |e| == 4 {
      HexRoundTrip(c);
      assert At(line, 2) == e[2] && At(line, 3) == e[3];
    }
  }

  /** Where an argument may end. */
  predicate Ends(rest: seq<Byte>) { At(rest, 0) == NUL || IsSpace(At(rest, 0)) }

  lemma {:induction false} QuotedReads(arg: seq<Byte>, k: nat, rest: seq<Byte>)
    requires k <= |arg|
    ensures Token(EscapedFrom(arg, k) + ([QUOTE] + rest), Quoted, arg[..k]) == if Ends(rest) then Some((arg, rest))
            else None
    decreases |arg| - k
  {
    if k == |arg| {
      ClosingQuote(arg, rest);
      assert arg[..k] == arg && [] + ([QUOTE] + rest) == [QUOTE] + rest;
    } else {
      var e, more := Escaped(arg[k]), EscapedFrom(arg, k + 1) + ([QUOTE] + rest);
      Regroup(e, EscapedFrom(arg, k + 1), [QUOTE] + rest);
      EscapedReads(arg[k], more);
      assert (e + more)[|e|..] == more;
      assert arg[..k] + [arg[k]] == arg[..k + 1];
      QuotedReads(arg, k + 1, rest);
    }
  }

  lemma {:induction false} ClosingQuote(arg: seq<Byte>, rest: seq<Byte>)
    ensures Token([QUOTE] + rest, Quoted, arg) == if Ends(rest) then Some((arg, rest)) else None
  {
    assert At([QUOTE] + rest, 1) == At(rest, 0) && ([QUOTE] + rest)[1..] == rest;
  }

  lemma {:induction false} ReprReads(arg: seq<Byte>, rest: seq<Byte>)
    ensures Token(Repr(arg) + rest, Bare, []) == if Ends(rest) then Some((arg, rest)) else None
  {
    var inner := EscapedFrom(arg, 0) + ([QUOTE] + rest);
    Regroup([QUOTE], EscapedFrom(arg, 0) + [QUOTE], rest);
    Regroup(EscapedFrom(arg, 0), [QUOTE], rest);
    assert ([QUOTE] + inner)[1..] == inner && arg[..0] == [];
    QuotedReads(arg, 0, rest);
  }

  /** A quoted argument is read as the argument, and the rest of the line as before; but only if the
      line ends or a space follows. */
  lemma {:induction false} SplitOne(arg: seq<Byte>, rest: seq<Byte>)
    ensures Split(Repr(arg) + rest) == if Ends(rest) then Prepend(arg, Split(rest)) else None
  {
    var line := Repr(arg) + rest;
    ReprReads(arg, rest);
    assert line[0] == QUOTE;
    assert SkipBlanks(line) == line;
  }

  lemma {:induction false} SplitBehindSpace(line: seq<Byte>)
    ensures Split([SPACE] + line) == Split(line)
  {
    assert ([SPACE] + line)[1..] == line;
  }

  /** Whatever bytes the arguments hold, and even if there are none of them, quoting them, joining
      them with spaces and splitting the line gives them back. */
  lemma {:induction false} QuotingRoundTrip(args: seq<seq<Byte>>)
    ensures Split(Joined(args)) == Some(args)
    decreases |args|
  {
    if args != [] {
      var behind := args[1..];
      assert args == [args[0]] + behind;
      if behind == [] {
        SplitOne(args[0], []);
        assert Repr(args[0]) + [] == Repr(args[0]);
      } else {
        QuotingRoundTrip(behind);
        SplitBehindSpace(Joined(behind));
        SplitOne(args[0], [SPACE] + Joined(behind));
      }
    }
  }

  /** A quoted string is printable, whatever it holds. */
  lemma {:induction false} EscapedIsPrintable(p: seq<Byte>, k: nat)
    ensures forall c :: c in EscapedFrom(p, k) ==> IsPrint(c)
    decreases |p| - k
  {
    if k < |p| {
      EscapedIsPrintable(p, k + 1);
      HexDigitValue(p[k] / 16);
      HexDigitValue(p[k] % 16);
    }
  }

  lemma {:induction false} ReprIsPrintable(p: seq<Byte>)
    ensures forall c :: c in Repr(p) ==> IsPrint(c)
  {
    EscapedIsPrintable(p, 0);
  }

  // ---------- the two loops ----------

  /** Appends a quoted form of p. */
  method CatRepr(s: seq<Byte>, p: seq<Byte>) returns (r: seq<Byte>)
    ensures r == s + Repr(p)
  {
    r := s + [QUOTE];
    var k := 0;
    while k < |p|
      invariant 0 <= k <= |p|
      invariant r + EscapedFrom(p, k) == s + ([QUOTE] + EscapedFrom(p, 0))
    {
      var c := p[k];
      ghost var before, rest := r, EscapedFrom(p, k + 1);
      if c == BACKSLASH || c == QUOTE {
        r := r + [BACKSLASH, c];
      } else if c == LF {
        r := r + [BACKSLASH, LOWER_N];
      } else if c == CR {
        r := r + [BACKSLASH, LOWER_R];
      } else if c == TAB {
        r := r + [BACKSLASH, LOWER_T];
      } else if c == BELL {
        r := r + [BACKSLASH, LOWER_A];
      } else if c == BACKSPACE {
        r := r + [BACKSLASH, LOWER_B];
      } else if IsPrint(c) {
        r := r + [c];
      } else {
        r := r + [BACKSLASH, LOWER_X, HexDigit(c / 16), HexDigit(c % 16)];
      }
      Regroup(before, Escaped(c), rest);
      k := k + 1;
    }
    Regroup(s, [QUOTE] + EscapedFrom(p, 0), [QUOTE]);
    Regroup([QUOTE], EscapedFrom(p, 0), [QUOTE]);
    r := r + [QUOTE];
  }

  /** Token as a value, for a loop that rests on one step of it at a time. */
  type Lexer = (seq<Byte>, Mode, seq<Byte>) -> Option<(seq<Byte>, seq<Byte>)>

  ghost predicate Lexes(t: Lexer) {
    forall line: seq<Byte>, mode: Mode, current: seq<Byte> {:trigger LexesAt(t, line, mode, current)} ::
        LexesAt(t, line, mode, current)
  }

  ghost predicate LexesAt(t: Lexer, line: seq<Byte>, mode: Mode, current: seq<Byte>) {
    t(line, mode, current) == Token(line, mode, current)
  }

  lemma {:induction false} TokenStep(t: Lexer, l: seq<Byte>, mode: Mode, current: seq<Byte>, m: Move)
    requires Lexes(t) && m == MoveOn(l, mode)
    ensures t(l, mode, current) ==
            match m
            case Put(c, width) => t(l[width..], mode, current + [c])
            case Switch(next) => t(l[1..], next, current)
            case Finish(width) => Some((current, l[width..]))
            case Fail => None
  {
    assert LexesAt(t, l, mode, current);
    if m.Put? { assert LexesAt(t, l[m.width..], mode, current + [m.c]); }
    if m.Switch? { assert LexesAt(t, l[1..], m.mode, current); }
  }

  lemma {:induction false} DropMore(line: seq<Byte>, p: nat, k: nat)
    requires p + k <= |line|
    ensures line[p..][k..] == line[p + k..]
  {
  }

  /** Reading on from position p, by the byte there. */
  lemma {:induction false} TokenAt(t: Lexer, line: seq<Byte>, p: nat, mode: Mode, current: seq<Byte>, m: Move)
    requires Lexes(t) && p <= |line| && m == MoveOn(line[p..], mode)
    ensures t(line[p..], mode, current) ==
            match m
            case Put(c, width) => t(line[p + width..], mode, current + [c])
            case Switch(next) => t(line[p + 1..], next, current)
            case Finish(width) => Some((current, line[p + width..]))
            case Fail => None
  {
    TokenStep(t, line[p..], mode, current, m);
    DropMore(line, p, if m.Put? || m.Finish? then m.width else if m.Switch? then 1 else 0);
  }

  /** What one byte did: the argument so far and the next position, as the move says. */
  predicate Moved(m: Move, p: nat, current: seq<Byte>, status: Status, next: nat, more: seq<Byte>) {
    match m
    case Put(c, width) => status == Reading && next == p + width && more == current + [c]
    case Switch(_) => status == Reading && next == p + 1 && more == current
    case Finish(width) => status == Done && next == p + width && more == current
    case Fail => status == Bad
  }

  datatype Status = Reading | Done | Bad

  lemma {:induction false} AtFrom(line: seq<Byte>, p: nat)
    requires p <= |line|
    ensures At(line[p..], 0) == At(line, p) && At(line[p..], 1) == At(line, p + 1)
    ensures At(line[p..], 2) == At(line, p + 2) && At(line[p..], 3) == At(line, p + 3)
  {
  }

  /** One byte in double quotes. */
  method InQuotes(line: seq<Byte>, start: nat, current: seq<Byte>) returns (status: Status, p: nat, more: seq<Byte>)
    requires start <= |line|
    ensures Moved(MoveOn(line[start..], Quoted), start, current, status, p, more)
  {
    AtFrom(line, start);
    p, more, status := start, current, Reading;
    if At(line, p) == BACKSLASH && At(line, p + 1) == LOWER_X && IsHexDigit(At(line, p + 2))
       && IsHexDigit(At(line, p + 3)) {
      more := more + [HexValue(At(line, p + 2)) * 16 + HexValue(At(line, p + 3))];
      p := p + 3;
    } else if At(line, p) == BACKSLASH && At(line, p + 1) != NUL {
      p := p + 1;
      more := more + [Unescaped(At(line, p))];
    } else if At(line, p) == QUOTE {
      if At(line, p + 1) != NUL && !IsSpace(At(line, p + 1)) { return Bad, p, more; }
      status := Done;
    } else if At(line, p) == NUL {
      return Bad, p, more;
    } else {
      more := more + [At(line, p)];
    }
    if At(line, p) != NUL { p := p + 1; }
  }

  /** One byte in single quotes. */
  method InSingleQuotes(line: seq<Byte>, start: nat, current: seq<Byte>)
    returns (status: Status, p: nat, more: seq<Byte>)
    requires start <= |line|
    ensures Moved(MoveOn(line[start..], Single), start, current, status, p, more)
  {
    AtFrom(line, start);
    p, more, status := start, current, Reading;
    if At(line, p) == BACKSLASH && At(line, p + 1) == APOSTROPHE {
      p := p + 1;
      more := more + [APOSTROPHE];
    } else if At(line, p) == APOSTROPHE {
      if At(line, p + 1) != NUL && !IsSpace(At(line, p + 1)) { return Bad, p, more; }
      status := Done;
    } else if At(line, p) == NUL {
      return Bad, p, more;
    } else {
      more := more + [At(line, p)];
    }
    if At(line, p) != NUL { p := p + 1; }
  }

  /** One byte outside quotes. */
  method OutsideQuotes(line: seq<Byte>, start: nat, current: seq<Byte>)
    returns (status: Status, p: nat, more: seq<Byte>, mode: Mode)
    requires start <= |line|
    ensures Moved(MoveOn(line[start..], Bare), start, current, status, p, more)
    ensures mode == if MoveOn(line[start..], Bare).Switch? then MoveOn(line[start..], Bare).mode else Bare
  {
    AtFrom(line, start);
    p, more, status, mode := start, current, Reading, Bare;
    var c := At(line, p);
    if c == SPACE || c == LF || c == CR || c == TAB || c == NUL {
      status := Done;
    } else if c == QUOTE {
      mode := Quoted;
    } else if c == APOSTROPHE {
      mode := Single;
    } else {
      more := more + [c];
    }
    if At(line, p) != NUL { p := p + 1; }
  }

  /** Reads one argument from position start on. */
  method ReadToken(line: seq<Byte>, start: nat, ghost t: Lexer) returns (token: Option<seq<Byte>>, p: nat)
    requires start <= |line| && Lexes(t)
    ensures p <= |line|
    ensures match t(line[start..], Bare, [])
            case None => token.None?
            case Some((current, rest)) => token == Some(current) && line[p..] == rest
  {
    var mode, status := Bare, Reading;
    var current: seq<Byte> := [];
    p := start;
    while status == Reading
      invariant p <= |line| && status != Bad
      invariant t(line[start..], Bare, []) == if status == Done then Some((current, line[p..]))
                else t(line[p..], mode, current)
      decreases |line| - p, status == Reading
    {
      TokenAt(t, line, p, mode, current, MoveOn(line[p..], mode));
      if mode == Quoted {
        status, p, current := InQuotes(line, p, current);
      } else if mode == Single {
        status, p, current := InSingleQuotes(line, p, current);
      } else {
        status, p, current, mode := OutsideQuotes(line, p, current);
      }
      if status == Bad { return None, |line|; }
    }
    token := Some(current);
  }

  function Prefixed(args: seq<seq<Byte>>, more: Option<seq<seq<Byte>>>): Option<seq<seq<Byte>>> {
    if more.None? then None else Some(args + more.value)
  }

  method SkipSpaces(line: seq<Byte>, start: nat) returns (p: nat)
    requires start <= |line|
    ensures start <= p <= |line| && line[p..] == SkipBlanks(line[start..])
  {
    p := start;
    while p < |line| && IsSpace(line[p])
      invariant start <= p <= |line|
      invariant SkipBlanks(line[p..]) == SkipBlanks(line[start..])
    {
      DropMore(line, p, 1);
      p := p + 1;
    }
  }

  /** Splits a line into its arguments. */
  method SplitArgs(line: seq<Byte>) returns (argv: Option<seq<seq<Byte>>>)
    ensures argv == Split(line)
  {
    ghost var t: Lexer := Token;
    assert Lexes(t);
    var p := 0;
    var vector: seq<seq<Byte>> := [];
    assert line[0..] == line;
    assert Split(line).Some? ==> [] + Split(line).value == Split(line).value;
    while true
      invariant p <= |line|
      invariant Split(line) == Prefixed(vector, Split(line[p..]))
      decreases |line| - p
    {
      ghost var l := line[p..];
      p := SkipSpaces(line, p);
      AtFrom(line, p);
      SplitStep(l, line[p..]);
      if At(line, p) == NUL {
        assert vector + [] == vector;
        return Some(vector);
      }
      assert LexesAt(t, line[p..], Bare, []);
      var token, next := ReadToken(line, p, t);
      if token.None? { return None; }
      assert |line[next..]| < |line[p..]|;
      PrefixedFurther(vector, token.value, Split(line[next..]));
      vector := vector + [token.value];
      p := next;
    }
  }

  lemma {:induction false} SplitStep(line: seq<Byte>, l: seq<Byte>)
    requires l == SkipBlanks(line)
    ensures Split(line) == if At(l, 0) == NUL then Some([]) else
                           match Token(l, Bare, [])
                           case None => None
                           case Some((token, rest)) => Prepend(token, Split(rest))
  {
  }

  lemma {:induction false} PrefixedFurther(args: seq<seq<Byte>>, arg: seq<Byte>, more: Option<seq<seq<Byte>>>)
    ensures Prefixed(args, Prepend(arg, more)) == Prefixed(args + [arg], more)
  {
    if more.Some? { assert args + ([arg] + more.value) == args + [arg] + more.value; }
  }
}
