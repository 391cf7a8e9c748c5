/** Strings that carry their length, and what is appended to them. */
module SdsStrings {
  import opened Bytes
  import opened Options

  // ---------- memory ----------

  /** Copies bytes to cmd at pos, or stops at the end of cmd. */
  method Put(cmd: array<Byte>, pos: nat, bytes: seq<Byte>) returns (ok: bool, next: nat)
    requires pos <= cmd.Length
    modifies cmd
    ensures ok <==> pos + |bytes| <= cmd.Length
    ensures ok ==> next == pos + |bytes| && cmd[..next] == old(cmd[..pos]) + bytes
  {
    var i := 0;
    while i < |bytes|
      invariant 0 <= i <= |bytes| && pos + i <= cmd.Length
      invariant cmd[..pos + i] == old(cmd[..pos]) + bytes[..i]
    {
      if pos + i == cmd.Length {
        return false, pos + i;
      }
      cmd[pos + i] := bytes[i];
      i := i + 1;
      assert bytes[..i] == bytes[..i - 1] + [bytes[i - 1]];
      assert cmd[..pos + i] == cmd[..pos + i - 1] + [bytes[i - 1]];
    }
    assert bytes[..i] == bytes;
    return true, pos + i;
  }

  // ---------- numerals ----------

  /** bytes from the last to the first. */
  function Reversed(bytes: seq<Byte>): (r: seq<Byte>)
    ensures |r| == |bytes| && forall i :: 0 <= i < |r| ==> r[i] == bytes[|bytes| - 1 - i]
  {
    seq(|bytes|, i requires 0 <= i < |bytes| => bytes[|bytes| - 1 - i])
  }

  method ReverseInPlace(s: array<Byte>, l: nat)
    requires l <= s.Length
    modifies s
    ensures s[..l] == Reversed(old(s[..l])) && s[l..] == old(s[l..])
  {
    var i, j := 0, l - 1;
    while i < j
      invariant 0 <= i <= l && j == l - 1 - i
      invariant forall k :: 0 <= k < s.Length && (i <= k <= j || l <= k) ==> s[k] == old(s[k])
      invariant forall k :: 0 <= k < l && (k < i || j < k) ==> s[k] == old(s[l - 1 - k])
    {
      s[i], s[j] := s[j], s[i];
      i, j := i + 1, j - 1;
    }
  }

  lemma {:induction false} DecIsShort(v: nat, bound: nat, digits: nat)
    requires digits >= 1 && v < bound && bound == Tens(digits)
    ensures |Dec(v)| <= digits
    decreases digits
  {
    DecLength(v);
    if v >= 10 {
      TensGrow(digits);
      DecIsShort(v / 10, Tens(digits - 1), digits - 1);
    }
  }

  function Tens(n: nat): nat {
    if n == 0 then 1 else 10 * Tens(n - 1)
  }

  lemma {:induction false} TensGrow(n: nat)
    ensures n == 1 ==> Tens(n) == 10
    ensures n > 0 ==> Tens(n) == 10 * Tens(n - 1)
  {
  }

  lemma {:induction false} TwentyDigits(v: nat)
    requires v <= TWO_64
    ensures |Dec(v)| <= 20
  {
    assert Tens(5) == 100000;
    assert Tens(10) == 100000 * 100000;
    assert Tens(15) == 100000 * 100000 * 100000;
    assert Tens(20) == 100000 * 100000 * 100000 * 100000;
    DecIsShort(v, Tens(20), 20);
  }

  lemma {:induction false} NineteenDigits(v: nat)
    requires v <= TWO_63
    ensures |Dec(v)| <= 19
  {
    assert Tens(4) == 10000 && Tens(9) == 10000 * 100000;
    assert Tens(14) == 10000 * 100000 * 100000;
    assert Tens(19) == 10000 * 100000 * 100000 * 100000;
    DecIsShort(v, Tens(19), 19);
  }

  lemma {:induction false} ReversedLonger(bytes: seq<Byte>, b: Byte)
    ensures Reversed(bytes + [b]) == [b] + Reversed(bytes)
  {
  }

  lemma {:induction false} ReversedTwice(bytes: seq<Byte>)
    ensures Reversed(Reversed(bytes)) == bytes
  {
  }

  /** The digits before the last one. */
  function Front(v: nat): seq<Byte> { if v < 10 then [] else Dec(v / 10) }

  lemma {:induction false} DecSplit(v: nat)
    ensures Dec(v) == Front(v) + [ZERO + v % 10] && |Dec(v)| == |Front(v)| + 1
  {
  }

  lemma {:induction false} DigitStep(front: seq<Byte>, digit: Byte, done: seq<Byte>, all: seq<Byte>)
    requires front + [digit] + Reversed(done) == all
    ensures front + Reversed(done + [digit]) == all
    ensures front == [] ==> done + [digit] == Reversed(all)
  {
    ReversedLonger(done, digit);
    ReversedTwice(done + [digit]);
    Regroup(front, [digit], Reversed(done));
    if front == [] { assert front + Reversed(done + [digit]) == Reversed(done + [digit]); }
  }

  lemma {:induction false} NextDigit(rest: nat, done: seq<Byte>, all: seq<Byte>)
    requires Front(rest) + [ZERO + rest % 10] + Reversed(done) == all
    ensures rest < 10 ==> done + [ZERO + rest % 10] == Reversed(all)
    ensures rest >= 10 ==>
      && |Front(rest)| == |Front(rest / 10)| + 1
      && Front(rest / 10) + [ZERO + rest / 10 % 10] + Reversed(done + [ZERO + rest % 10]) == all
  {
    DigitStep(Front(rest), ZERO + rest % 10, done, all);
    DecSplit(rest / 10);
  }

  /** The digits of v from the last to the first. */
  method PutDigits(s: array<Byte>, v: nat) returns (p: nat)
    requires s.Length >= 21 && v < TWO_64
    modifies s
    ensures p == |Dec(v)| <= 20 && s[..p] == Reversed(Dec(v))
  {
    TwentyDigits(v);
    p := 0;
    var rest := v;
    ghost var done, all := [], Dec(v);
    DecSplit(v);
    while true
      invariant p == |done| && p + |Front(rest)| + 1 == |all|
      invariant Front(rest) + [ZERO + rest % 10] + Reversed(done) == all
      invariant s[..p] == done
      decreases rest
    {
      NextDigit(rest, done, all);
      var digit: Byte := ZERO + rest % 10;
      p := Append(s, p, digit);
      done := done + [digit];
      if rest < 10 { return; }
      rest := rest / 10;
    }
  }

  method Append(s: array<Byte>, p: nat, b: Byte) returns (next: nat)
    requires p < s.Length
    modifies s
    ensures next == p + 1 && s[..next] == old(s[..p]) + [b]
  {
    s[p] := b;
    next := p + 1;
  }

  /** Writes v in decimal, and a zero byte behind it. */
  method Ull2Str(s: array<Byte>, v: nat) returns (l: nat)
    requires s.Length >= 21 && v < TWO_64
    modifies s
    ensures l == |Dec(v)| < s.Length && s[..l] == Dec(v) && s[l] == 0
  {
    l := PutDigits(s, v);
    s[l] := 0;
    assert s[..l] == Reversed(Dec(v));
    ReverseInPlace(s, l);
    ReversedTwice(Dec(v));
    assert s[l] == s[l..][0];
  }

  lemma {:induction false} SignLast(digits: seq<Byte>)
    ensures Reversed([MINUS] + digits) == Reversed(digits) + [MINUS]
  {
  }

  /** The same with a sign. */
  method Ll2Str(s: array<Byte>, value: int) returns (l: nat)
    requires s.Length >= 21 && -TWO_63 <= value < TWO_63
    modifies s
    ensures l == |DecInt(value)| < s.Length && s[..l] == DecInt(value) && s[l] == 0
  {
    var v := if value < 0 then -value else value;
    NineteenDigits(v);
    l := PutDigits(s, v);
    if value < 0 {
      SignLast(Dec(v));
      l := Append(s, l, MINUS);
    }
    assert s[..l] == Reversed(DecInt(value));
    s[l] := 0;
    assert s[..l] == Reversed(DecInt(value));
    ReverseInPlace(s, l);
    ReversedTwice(DecInt(value));
    assert s[l] == s[l..][0];
  }

  // ---------- formats ----------

  datatype FmtArg = Signed(i: int) | Unsigned(u: nat) | Str(s: seq<Byte>)

  const PERCENT: Byte := 37
  const CSTRING: Byte := 115                  // s
  const STRINGS: set<Byte> := {115, 83}       // s S
  const INT: Byte := 105                      // i
  const SIGNEDS: set<Byte> := {105, 73}       // i I
  const UINT: Byte := 117                     // u
  const UNSIGNEDS: set<Byte> := {117, 85, 84} // u U T

  /** The bytes of a C string, which ends at its first zero byte. */
  function UpToNul(s: seq<Byte>): (r: seq<Byte>)
    ensures r <= s && NUL !in r && (r != s ==> s[|r|] == NUL)
  {
    if s == [] || s[0] == NUL then []
    else
      var r := UpToNul(s[1..]);
      assert s == [s[0]] + s[1..];
      [s[0]] + r
  }

  /** What the specifier b prints of its argument, if the argument is one for it. */
  function PrintedBy(b: Byte, arg: FmtArg): Option<seq<Byte>> {
    match arg
    case Str(s) => if b == CSTRING then Some(UpToNul(s)) else if b in STRINGS then Some(s) else None
    case Signed(i) =>
      var end := if b == INT then TWO_31 else TWO_63;
      if b in SIGNEDS && -end <= i < end then Some(DecInt(i)) else None
    case Unsigned(u) => if b in UNSIGNEDS && u < (if b == UINT then TWO_32 else TWO_64) then Some(Dec(u)) else None
  }

  function Before(bytes: seq<Byte>, rest: Option<seq<Byte>>): Option<seq<Byte>> {
    if rest.None? then None else Some(bytes + rest.value)
  }

  /** What a format prints of its arguments, if every specifier has one and none is cut off. */
  function Rendered(fmt: seq<Byte>, args: seq<FmtArg>): Option<seq<Byte>> {
    if fmt == [] || fmt[0] == NUL then Some([])
    else if fmt[0] != PERCENT then Before([fmt[0]], Rendered(fmt[1..], args))
    else if |fmt| == 1 || fmt[1] == NUL then None
    else if fmt[1] !in STRINGS + SIGNEDS + UNSIGNEDS then Before([fmt[1]], Rendered(fmt[2..], args))
    else if args == [] || PrintedBy(fmt[1], args[0]).None? then None
    else Before(PrintedBy(fmt[1], args[0]).value, Rendered(fmt[2..], args[1..]))
  }

  method PrintArg(arg: FmtArg, b: Byte) returns (str: seq<Byte>)
    requires PrintedBy(b, arg).Some?
    ensures PrintedBy(b, arg) == Some(str)
  {
    match arg
    case Str(s) =>
      str := if b == CSTRING then UpToNul(s) else s;
    case Signed(num) =>
      var buf := new Byte[21];
      var l := Ll2Str(buf, num);
      str := buf[..l];
    case Unsigned(unum) =>
      var buf := new Byte[21];
      var l := Ull2Str(buf, unum);
      str := buf[..l];
  }

  // ---------- strings ----------

  const HEADER: nat := 8
  const MAX_PREALLOC: nat := 0x10_0000

  /** An int as a size_t. */
  function Size(x: int): (n: nat)
    requires -TWO_31 <= x < TWO_31
    ensures n < TWO_64 && (x >= 0 ==> n == x) && (x < 0 ==> n >= TWO_64 - TWO_31)
  {
    if x < 0 then x + TWO_64 else x
  }

  /** How long a string can get once addlen bytes more are asked for. */
  function NewLength(len: nat, addlen: nat): (newlen: nat)
    ensures newlen < TWO_64
    ensures len == 0 < addlen < TWO_31 ==> addlen < newlen <= TWO_31 + MAX_PREALLOC
  {
    var newlen := (len + addlen) % TWO_64;
    if newlen < MAX_PREALLOC then newlen * 2 else (newlen + MAX_PREALLOC) % TWO_64
  }

  /** Room for more than an int holds is seen as more still. */
  lemma {:induction false} RoomIsSeen(room: nat, addlen: nat)
    requires addlen < room < TWO_32 && addlen < TWO_31
    ensures Size(Wrap32(room)) >= addlen
  {
  }

  /** What the next byte or specifier of a format prints, and the format and the arguments behind it. */
  lemma {:induction false} NextPrinted(fmt: seq<Byte>, args: seq<FmtArg>, f: nat, a: nat)
    requires f < |fmt| && fmt[f] != NUL && a <= |args| && Rendered(fmt[f..], args[a..]).Some?
    ensures fmt[f] != PERCENT ==> PrintsNext(fmt, args, f, a, f + 1, a, [fmt[f]])
    ensures fmt[f] == PERCENT ==> f + 1 < |fmt|
    ensures fmt[f] == PERCENT && fmt[f + 1] in STRINGS + SIGNEDS + UNSIGNEDS ==>
              && a < |args| && PrintedBy(fmt[f + 1], args[a]).Some?
              && PrintsNext(fmt, args, f, a, f + 2, a + 1, PrintedBy(fmt[f + 1], args[a]).value)
    ensures fmt[f] == PERCENT && fmt[f + 1] !in STRINGS + SIGNEDS + UNSIGNEDS ==>
              PrintsNext(fmt, args, f, a, f + 2, a, [fmt[f + 1]])
  {
    assert fmt[f..][1..] == fmt[f + 1..] && (f + 1 < |fmt| ==> fmt[f..][2..] == fmt[f + 2..]);
    assert a < |args| ==> args[a..][1..] == args[a + 1..];
  }

  ghost predicate PrintsNext(fmt: seq<Byte>, args: seq<FmtArg>, f: nat, a: nat, f': nat, a': nat, str: seq<Byte>) {
    && f < f' <= |fmt| && a <= a' <= |args|
    && Rendered(fmt[f..], args[a..]).Some? && Rendered(fmt[f'..], args[a'..]).Some?
    && Rendered(fmt[f..], args[a..]).value == str + Rendered(fmt[f'..], args[a'..]).value
  }

  /** A string: its length and the bytes still free are ints, kept in front of its bytes.  Methods
      that append stop, and say so, where memory is refused or a byte would go outside it. */
  class Sds {
    var data: array<Byte>
    var len: int
    var free: int
    ghost var exact: int // what len would be if it were not an int
    ghost var room: int  // and free

    ghost predicate Valid()
      reads `len, `free, `exact, `room
    {
      len == Wrap32(exact) && free == Wrap32(room)
    }

    /** The string is these bytes, and a zero byte follows. */
    ghost predicate Holds(bytes: seq<Byte>)
      reads this, data
    {
      0 <= len < data.Length && data[..len] == bytes && data[len] == 0
    }

    /** The bytes up to the length, where that is one. */
    ghost function Text(): seq<Byte>
      reads this, data
    {
      if 0 <= len <= data.Length then data[..len] else []
    }

    /** There is room for n more bytes, and the length will still fit an int. */
    ghost predicate Roomy(n: int)
      reads `data, `exact, `room
    {
      0 <= n && 0 <= exact && exact + n < TWO_31 && exact + n < data.Length - 1 < TWO_32
        && room == data.Length - 1 - exact
    }

    constructor ()
      ensures Valid() && exact == room == 0 && fresh(data) && Holds([])
    {
      data, len, free, exact, room := new Byte[1](_ => 0), 0, 0, 0, 0;
    }

    /** sdsMakeRoomFor: makes sure that addlen bytes can be appended, where len and free are right. */
    method MakeRoomFor(addlen: nat, ghost n: nat) returns (ok: bool)
      requires Valid() && addlen < TWO_64
      modifies this`data, this`free, this`room
      ensures Valid() && (data == old(data) || fresh(data))
      ensures old(Roomy(n)) && addlen <= n ==> ok && data == old(data) && free == old(free) && room == old(room)
      ensures old(exact == room == 0) && 0 < addlen < TWO_31 ==> ok && Roomy(addlen)
    {
      if Size(free) >= addlen { return true; }
      assert !(Roomy(n) && addlen <= n) by {
        if Roomy(n) && addlen <= n { RoomIsSeen(room, addlen); }
      }
      ok := Enlarge(NewLength(Size(len), addlen));
    }

    /** The string moves to newlen bytes, if it is given as many. */
    method Enlarge(newlen: nat) returns (ok: bool)
      requires Valid()
      modifies this`data, this`free, this`room
      ensures Valid() && (data == old(data) || fresh(data))
      ensures newlen < TWO_32 ==> ok && data.Length == newlen + 1 && room == newlen - Size(len)
    {
      var bytes := (HEADER + newlen + 1) % TWO_64;
      if bytes < HEADER || bytes >= TWO_63 { return false; }
      data := Resized(data, bytes - HEADER);
      free, room := Wrap32(newlen - Size(len)), newlen - Size(len);
      return true;
    }

    /** memcpy to position pos. */
    method Write(pos: int, t: seq<Byte>) returns (ok: bool)
      modifies data
      ensures 0 <= pos && pos + |t| <= data.Length ==> ok && data[..pos + |t|] == old(data[..pos]) + t
      ensures ok && t != [] ==> 0 <= pos && pos + |t| <= data.Length
    {
      if t == [] {
        return true;
      }
      if pos < 0 || pos > data.Length { return false; }
      var next;
      ok, next := Put(data, pos, t);
    }

    /** The length grows and the room shrinks, both as ints. */
    method Advance(k: nat, ghost exactly: nat)
      requires Valid() && (k == Wrap32(exactly) || k == exactly)
      modifies this`len, this`free, this`exact, this`room
      ensures Valid() && exact == old(exact) + exactly && room == old(room) - exactly
    {
      Wrap32Both(exact, exactly, k);
      Wrap32Both(room, exactly, k);
      len, free := Wrap32(len + k), Wrap32(free - k);
      exact, room := exact + exactly, room - exactly;
    }

    /** A zero byte goes behind the string. */
    method Terminate(ghost n: nat) returns (ok: bool)
      requires Valid()
      modifies data
      ensures Roomy(n) ==> ok && Holds(old(Text()))
    {
      ok := Write(len, [NUL]);
      assert Roomy(n) ==> data[..len + 1][..len] == data[..len] && data[len] == data[..len + 1][len];
    }

    /** sdscatlen. */
    method CatLen(t: seq<Byte>, ghost n: nat) returns (ok: bool)
      requires Valid() && |t| < TWO_64 && |t| <= n
      modifies this, data
      ensures Valid() && (data == old(data) || fresh(data))
      ensures ok ==> exact == old(exact) + |t|
      ensures old(Roomy(n)) ==> ok && data == old(data) && Roomy(n - |t|) && Holds(old(Text()) + t)
    {
      ok := MakeRoomFor(|t|, n);
      if !ok { return; }
      ok := Write(len, t);
      if !ok { return; }
      Advance(|t|, |t|);
      ok := Terminate(n - |t|);
    }

    /** One byte of a format. */
    method PutByte(b: Byte, ghost n: nat) returns (ok: bool)
      requires Valid() && n > 0
      modifies this, data
      ensures Valid() && data == old(data)
      ensures ok ==> exact == old(exact) + 1
      ensures old(Roomy(n)) ==> ok && Roomy(n - 1) && Text() == old(Text()) + [b]
    {
      ok := Write(len, [b]);
      Advance(1, 1);
    }

    /** The text that a specifier prints; its length is an int. */
    method PutText(str: seq<Byte>, ghost n: nat) returns (ok: bool)
      requires Valid() && |str| <= n
      modifies this, data
      ensures Valid() && (data == old(data) || fresh(data))
      ensures ok ==> exact == old(exact) + |str|
      ensures old(Roomy(n)) ==> ok && data == old(data) && Roomy(n - |str|) && Text() == old(Text()) + str
    {
      var l := Wrap32(|str|);
      ok := true;
      if free < l {
        ok := MakeRoomFor(Size(l), n);
      }
      if !ok || l < 0 { return false; }
      ok := Write(len, str[..l]);
      Advance(l, |str|);
    }

    /** sdscatfmt: appends what the format prints. */
    method CatFmt(fmt: seq<Byte>, args: seq<FmtArg>, ghost n: nat) returns (ok: bool)
      requires Valid() && Rendered(fmt, args).Some? && |Rendered(fmt, args).value| <= n
      modifies this, data
      ensures Valid() && (data == old(data) || fresh(data))
      ensures ok ==> exact == old(exact) + |Rendered(fmt, args).value|
      ensures old(Roomy(n)) ==> && ok && data == old(data) && Roomy(n - |Rendered(fmt, args).value|)
                                && Holds(old(Text()) + Rendered(fmt, args).value)
    {
      ghost var done: seq<Byte> := [];
      var f, a := 0, 0;
      while f < |fmt| && fmt[f] != NUL
        invariant 0 <= f <= |fmt| && 0 <= a <= |args| && Valid() && (data == old(data) || fresh(data))
        invariant Rendered(fmt[f..], args[a..]).Some?
        invariant done + Rendered(fmt[f..], args[a..]).value == Rendered(fmt, args).value
        invariant exact == old(exact) + |done|
        invariant old(Roomy(n)) ==> data == old(data) && Roomy(n - |done|) && Text() == old(Text()) + done
      {
        ghost var str: seq<Byte>;
        f, a, str, ok := Directive(fmt, args, f, a, n - |done|);
        if !ok { return; }
        Regroup(old(Text()), done, str);
        Regroup(done, str, Rendered(fmt[f..], args[a..]).value);
        done := done + str;
      }
      ok := Terminate(n - |done|);
    }

    /** One byte or one specifier of a format. */
    method Directive(fmt: seq<Byte>, args: seq<FmtArg>, f: nat, a: nat, ghost n: nat)
      returns (f': nat, a': nat, ghost str: seq<Byte>, ok: bool)
      requires Valid() && f < |fmt| && fmt[f] != NUL && a <= |args|
      requires Rendered(fmt[f..], args[a..]).Some? && |Rendered(fmt[f..], args[a..]).value| <= n
      modifies this, data
      ensures Valid() && (data == old(data) || fresh(data))
      ensures PrintsNext(fmt, args, f, a, f', a', str)
      ensures ok ==> exact == old(exact) + |str|
      ensures old(Roomy(n)) ==> ok && data == old(data) && Roomy(n - |str|) && Text() == old(Text()) + str
    {
      NextPrinted(fmt, args, f, a);
      ok := true;
      if free == 0 {
        ok := MakeRoomFor(1, n);
      }
      if fmt[f] != PERCENT {
        f', a', str := f + 1, a, [fmt[f]];
        if ok { ok := PutByte(fmt[f], n); }
      } else if fmt[f + 1] in STRINGS + SIGNEDS + UNSIGNEDS {
        var text := PrintArg(args[a], fmt[f + 1]);
        f', a', str := f + 2, a + 1, text;
        if ok { ok := PutText(text, n); }
      } else {
        f', a', str := f + 2, a, [fmt[f + 1]];
        if ok { ok := PutByte(fmt[f + 1], n); }
      }
    }
  }

  /** realloc: as many of the old bytes as there is room for. */
  method Resized(data: array<Byte>, size: nat) returns (r: array<Byte>)
    ensures fresh(r) && r.Length == size && forall i :: 0 <= i < size && i < data.Length ==> r[i] == data[i]
  {
    r := new Byte[size](i requires 0 <= i < size reads data => if i < data.Length then data[i] else 0);
  }
}
