/** The two command printers: one measures the command first and fills a buffer, the other appends
    to a string. Both print what the reader reads back. */
module CommandFormats {
  import opened Bytes
  import opened Options
  import opened RespMachine
  import opened RespChunks
  import opened RespCodec
  import opened SdsStrings

  // ---------- what is printed ----------

  /** A command on the wire: the array of its arguments as bulk strings. */
  function Command(args: seq<seq<Byte>>): (r: Reply)
    ensures r.Array? && r.count == |args| == |r.items|
    ensures forall i :: 0 <= i < |args| ==> r.items[i] == Text(Bulk, args[i])
  {
    Array(|args|, seq(|args|, i requires 0 <= i < |args| => Text(Bulk, args[i])))
  }

  /** Whatever the arguments hold, a printed command is read back as itself, however its bytes are
      cut up, and nothing of it is left over. */
  lemma {:induction false} CommandRoundTrip(args: seq<seq<Byte>>, chunks: seq<seq<Byte>>)
    requires |args| < TWO_31 && forall a :: a in args ==> |a| < TWO_63
    requires Concat(chunks) == Encode(Command(args))
    ensures FeedAll(FRESH, chunks) == ([Got(Command(args))], Idle(|Concat(chunks)|))
  {
    var rs := [Command(args)];
    assert Encode(rs[0]) + [] == Encode(rs[0]);
    assert EncodeFrom(rs, 1) == [];
    RoundTrip(rs, chunks);
    assert GotsFrom(rs, 1) == [] && Gots(rs) == [Got(Command(args))];
  }

  /** The arguments from number k on, as printed. */
  function Printed(args: seq<seq<Byte>>, k: nat): seq<Byte>
    decreases |args| - k
  {
    if k >= |args| then [] else PrintedArg(args[k]) + Printed(args, k + 1)
  }

  function PrintedArg(arg: seq<Byte>): seq<Byte> { EncodeLine(DOLLAR, Dec(|arg|)) + arg + CRLF }

  function PrintedHead(argc: nat): seq<Byte> { EncodeLine(STAR, Dec(argc)) }

  lemma {:induction false} PrintedIsEncoded(args: seq<seq<Byte>>, k: nat)
    requires k <= |args|
    ensures Printed(args, k) == EncodeFrom(Command(args).items, k)
    decreases |args| - k
  {
    if k < |args| {
      PrintedIsEncoded(args, k + 1);
    }
  }

  // ---------- measuring ----------

  method CountDigits(v: nat) returns (result: nat)
    ensures result == |Dec(v)|
  {
    result := 1;
    var v := v;
    ghost var all := |Dec(v)|;
    while true
      invariant result - 1 + |Dec(v)| == all
      decreases v
    {
      DecLength(v);
      if v < 10 { return result; }
      DecLength(v / 10);
      if v < 100 { return result + 1; }
      DecLength(v / 10 / 10);
      if v < 1000 { return result + 2; }
      DecLength(v / 10 / 10 / 10);
      if v < 10000 { return result + 3; }
      assert v / 10 / 10 / 10 / 10 == v / 10000;
      v := v / 10000;
      result := result + 4;
    }
  }

  /** How many bytes an argument of len bytes is printed on, as a size_t. */
  method BulkLen(len: nat) returns (n: nat)
    ensures n == (|EncodeLine(DOLLAR, Dec(len))| + len + 2) % TWO_64
  {
    var digits := CountDigits(len);
    return (1 + digits + 2 + len + 2) % TWO_64;
  }


  /** The length of the whole command, measured in an int. */
  method TotalLength(args: seq<seq<Byte>>) returns (totlen: int)
    ensures totlen == Wrap32(|PrintedHead(|args|) + Printed(args, 0)|)
  {
    var digits := CountDigits(|args|);
    totlen := Wrap32(1 + digits + 2);
    ghost var exact := |PrintedHead(|args|)|;
    var j := 0;
    while j < |args|
      invariant 0 <= j <= |args|
      invariant totlen == Wrap32(exact)
      invariant exact + |Printed(args, j)| == |PrintedHead(|args|) + Printed(args, 0)|
    {
      var n := BulkLen(|args[j]|);
      Wrap32Sum(exact, |PrintedArg(args[j])|);
      totlen := Wrap32(totlen + n);
      exact := exact + |PrintedArg(args[j])|;
      j := j + 1;
    }
  }

  // ---------- filling a buffer ----------

  method PutArg(cmd: array<Byte>, pos: nat, arg: seq<Byte>) returns (ok: bool, next: nat)
    requires pos <= cmd.Length
    modifies cmd
    ensures ok <==> pos + |PrintedArg(arg)| <= cmd.Length
    ensures ok ==> next == pos + |PrintedArg(arg)| && cmd[..next] == old(cmd[..pos]) + PrintedArg(arg)
  {
    ghost var before := cmd[..pos];
    ok, next := Put(cmd, pos, EncodeLine(DOLLAR, Dec(|arg|)));
    if ok {
      ok, next := Put(cmd, next, arg);
      if ok {
        ok, next := Put(cmd, next, CRLF);
      }
    }
    Regroup(before, EncodeLine(DOLLAR, Dec(|arg|)), arg);
    Regroup(before, EncodeLine(DOLLAR, Dec(|arg|)) + arg, CRLF);
  }

  /** The command in a buffer and its length; no buffer, because the size asked for is negative
      and so as a size_t beyond any memory; or a write past the end of the buffer. */
  datatype Formatted = Filled(cmd: array<Byte>, len: int) | Refused | Overrun

  /** Prints the command and a zero byte, or stops at the end of the buffer. */
  method Fill(cmd: array<Byte>, args: seq<seq<Byte>>) returns (ok: bool)
    modifies cmd
    ensures ok <==> |Encode(Command(args))| < cmd.Length
    ensures var n := |Encode(Command(args))|; ok ==> cmd[..n] == Encode(Command(args)) && cmd[n] == 0
  {
    ghost var all := PrintedHead(|args|) + Printed(args, 0);
    PrintedIsEncoded(args, 0);
    var pos: nat;
    ok, pos := Put(cmd, 0, PrintedHead(|args|));
    var j := 0;
    while ok && j < |args|
      invariant 0 <= j <= |args|
      invariant ok ==> 0 <= pos <= cmd.Length && cmd[..pos] + Printed(args, j) == all
      invariant !ok ==> |all| > cmd.Length
    {
      Regroup(cmd[..pos], PrintedArg(args[j]), Printed(args, j + 1));
      ok, pos := PutArg(cmd, pos, args[j]);
      j := j + 1;
    }
    if ok {
      assert cmd[..pos] == all;
      if pos == cmd.Length {
        return false;
      }
      cmd[pos] := 0;
      assert cmd[..pos] == all;
    }
  }

  /** The buffer gets what the length measured in an int asks for.  It holds the command, and the
      length is the command's, if and only if that length and the final zero byte fit an int. */
  method FormatCommandArgv(args: seq<seq<Byte>>) returns (r: Formatted)
    ensures r.Filled? <==> |Encode(Command(args))| < TWO_31 - 1
    ensures r.Refused? <==> Wrap32(|Encode(Command(args))| + 1) < 0
    ensures r.Filled? ==> fresh(r.cmd) && r.len == |Encode(Command(args))| && r.cmd.Length == r.len + 1
    ensures r.Filled? ==> r.cmd[..r.len] == Encode(Command(args)) && r.cmd[r.len] == 0
  {
    var totlen := TotalLength(args);
    var size := Wrap32(totlen + 1);
    PrintedIsEncoded(args, 0);
    Wrap32Sum(|Encode(Command(args))|, 1);
    if size < 0 {
      return Refused;
    }
    var cmd := new Byte[size];
    var ok := Fill(cmd, args);
    r := if ok then Filled(cmd, totlen) else Overrun;
  }

  /** One argument of 2^31 bytes is refused: its command measures as a negative length.  One of
      2^32 bytes measures as 19 bytes, and a buffer of 20 takes no such command. */
  lemma {:induction false} LongArguments(arg: seq<Byte>)
    ensures |arg| == TWO_31 || |arg| == TWO_32 ==> |Encode(Command([arg]))| == |arg| + 19
    ensures |arg| == TWO_31 ==> Wrap32(|Encode(Command([arg]))|) == 19 - TWO_31
    ensures |arg| == TWO_32 ==> Wrap32(|Encode(Command([arg]))|) == 19
  {
    if |arg| == TWO_31 || |arg| == TWO_32 {
      TenDigitArgument(arg);
      Wrap32Shift(|arg| + 19 - TWO_32, 1);
    }
  }

  lemma {:induction false} TenDigitArgument(arg: seq<Byte>)
    requires 1_000_000_000 <= |arg| < 10_000_000_000
    ensures |Encode(Command([arg]))| == |arg| + 19
  {
    PrintedIsEncoded([arg], 0);
    TenDigits(|arg|);
    assert Printed([arg], 0) == PrintedArg(arg) + Printed([arg], 1);
  }

  lemma {:induction false} TenDigits(v: nat)
    requires 1_000_000_000 <= v < 10_000_000_000
    ensures |Dec(v)| == 10
  {
    assert v / 10 / 10 / 10 / 10 / 10 == v / 100_000;
    FiveDigits(v);
    FiveDigits(v / 100_000);
  }

  lemma {:induction false} FiveDigits(v: nat)
    requires v >= 10_000
    ensures v >= 100_000 ==> |Dec(v)| == |Dec(v / 100_000)| + 5
    ensures v < 100_000 ==> |Dec(v)| == 5
  {
    DecLength(v);
    DecLength(v / 10);
    DecLength(v / 10 / 10);
    DecLength(v / 10 / 10 / 10);
    DecLength(v / 10 / 10 / 10 / 10);
    assert v / 10 / 10 / 10 / 10 / 10 == v / 100_000;
  }

  // ---------- appending to a string ----------

  const COUNT_FORMAT: seq<Byte> := [STAR, PERCENT, INT, CR, LF]
  const LENGTH_FORMAT: seq<Byte> := [DOLLAR, PERCENT, 84, CR, LF]

  /** A head byte, one specifier and a line end. */
  lemma {:induction false} LineRendered(b: Byte, specifier: Byte, arg: FmtArg, printed: seq<Byte>)
    requires b != PERCENT && b != NUL
    requires specifier in STRINGS + SIGNEDS + UNSIGNEDS && PrintedBy(specifier, arg) == Some(printed)
    ensures Rendered([b, PERCENT, specifier, CR, LF], [arg]) == Some(EncodeLine(b, printed))
  {
    var none: seq<FmtArg> := [];
    assert [LF][1..] == [] && [LF] + [] == [LF];
    assert Rendered([LF], none) == Some([LF]);
    assert [CR, LF][1..] == [LF] && [CR] + [LF] == CRLF;
    assert Rendered([CR, LF], none) == Some(CRLF);
    var fmt := [PERCENT, specifier, CR, LF];
    assert fmt[2..] == [CR, LF] && [arg][1..] == none;
    assert Rendered(fmt, [arg]) == Some(printed + CRLF);
    assert [b, PERCENT, specifier, CR, LF][1..] == fmt;
    Regroup([b], printed, CRLF);
  }

  lemma {:induction false} Sum64(x: int, y: int)
    ensures (x % TWO_64 + y % TWO_64) % TWO_64 == (x + y) % TWO_64
  {
  }

  /** The length of the whole command, measured in 64 bits. */
  method TotalSdsLength(args: seq<seq<Byte>>) returns (totlen: nat)
    ensures totlen == |Encode(Command(args))| % TWO_64
  {
    var digits := CountDigits(|args|);
    totlen := (1 + digits + 2) % TWO_64;
    ghost var exact := |PrintedHead(|args|)|;
    var j := 0;
    while j < |args|
      invariant 0 <= j <= |args|
      invariant totlen == exact % TWO_64
      invariant exact + |Printed(args, j)| == |PrintedHead(|args|) + Printed(args, 0)|
    {
      var n := BulkLen(|args[j]|);
      Sum64(exact, |PrintedArg(args[j])|);
      totlen := (totlen + n) % TWO_64;
      exact := exact + |PrintedArg(args[j])|;
      j := j + 1;
    }
    PrintedIsEncoded(args, 0);
  }

  /** The string and the length returned; no string, because memory is refused; a write outside the
      string; or a string whose length is not the length measured, which an assertion finds. */
  datatype SdsFormatted = Appended(cmd: Sds, len: int) | NoMemory | Stray | Unequal

  lemma {:induction false} LengthsAgree(n: nat)
    ensures n < TWO_31 ==> Size(Wrap32(n)) == n % TWO_64
    ensures n < TWO_63 && Size(Wrap32(n)) == n % TWO_64 ==> n < TWO_31
  {
  }

  /** The string's own length is an int.  The string is the command, and the assertion on its length
      holds, if and only if the length of the command fits one. */
  method FormatSdsCommandArgv(args: seq<seq<Byte>>) returns (r: SdsFormatted)
    requires |args| < TWO_31 && forall a :: a in args ==> |a| < TWO_64
    ensures |Encode(Command(args))| < TWO_31 <==> r.Appended? && r.cmd.Holds(Encode(Command(args)))
    ensures r.Appended? ==> r.len == Wrap32(|Encode(Command(args))|)
    ensures r.Appended? && |Encode(Command(args))| < TWO_63 ==> |Encode(Command(args))| < TWO_31
  {
    ghost var n := |Encode(Command(args))|;
    assert n > 0 by { PrintedIsEncoded(args, 0); }
    var totlen := TotalSdsLength(args);
    var ok, cmd := SdsWithRoom(totlen);
    if !ok { return NoMemory; }
    ok := CatArgs(cmd, args);
    if !ok { return Stray; }
    LengthsAgree(n);
    assert n >= TWO_31 ==> !cmd.Holds(Encode(Command(args)));
    if Size(cmd.len) != totlen { return Unequal; }
    Wrap32Sum(0, n);
    r := Appended(cmd, Wrap32(totlen));
  }

  /** An empty string with room for a command of so many bytes. */
  method SdsWithRoom(totlen: nat) returns (ok: bool, cmd: Sds)
    requires totlen < TWO_64
    ensures fresh(cmd) && fresh(cmd.data) && cmd.Valid() && cmd.exact == 0
    ensures 0 < totlen < TWO_31 ==> ok && cmd.Roomy(totlen)
  {
    cmd := new Sds();
    ok := cmd.MakeRoomFor(totlen, 0);
  }

  /** An argument of 2^31 or of 2^32 bytes is not appended. */
  method AppendLongArgument(arg: seq<Byte>) returns (r: SdsFormatted)
    requires |arg| == TWO_31 || |arg| == TWO_32
    ensures !r.Appended?
  {
    LongArguments(arg);
    r := FormatSdsCommandArgv([arg]);
  }

  /** The head and the arguments. */
  method CatArgs(cmd: Sds, args: seq<seq<Byte>>) returns (ok: bool)
    requires cmd.Valid() && cmd.exact == 0 && |args| < TWO_31 && forall a :: a in args ==> |a| < TWO_64
    modifies cmd, cmd.data
    ensures cmd.Valid() && (ok ==> cmd.exact == |Encode(Command(args))|)
    ensures old(cmd.Roomy(|Encode(Command(args))|)) ==> ok && cmd.Holds(Encode(Command(args)))
  {
    PrintedIsEncoded(args, 0);
    ghost var all := PrintedHead(|args|) + Printed(args, 0);
    ghost var done := PrintedHead(|args|);
    ok := CatHead(cmd, |args|, |all|);
    var j := 0;
    while ok && j < |args|
      invariant 0 <= j <= |args| && cmd.Valid() && (cmd.data == old(cmd.data) || fresh(cmd.data))
      invariant ok ==> cmd.exact == |done|
      invariant done + Printed(args, j) == all
      invariant old(cmd.Roomy(|all|)) ==>
                  ok && cmd.data == old(cmd.data) && cmd.Roomy(|all| - |done|) && cmd.Holds(done)
    {
      ghost var printed := PrintedArg(args[j]);
      Regroup(done, printed, Printed(args, j + 1));
      ok := CatSdsArg(cmd, args[j], |all| - |done|);
      done := done + printed;
      j := j + 1;
    }
  }

  method CatHead(cmd: Sds, argc: nat, ghost n: nat) returns (ok: bool)
    requires cmd.Valid() && argc < TWO_31 && |PrintedHead(argc)| <= n
    modifies cmd, cmd.data
    ensures cmd.Valid() && (cmd.data == old(cmd.data) || fresh(cmd.data))
    ensures ok ==> cmd.exact == old(cmd.exact) + |PrintedHead(argc)|
    ensures old(cmd.Roomy(n)) ==> && ok && cmd.data == old(cmd.data) && cmd.Roomy(n - |PrintedHead(argc)|)
                                  && cmd.Holds(old(cmd.Text()) + PrintedHead(argc))
  {
    LineRendered(STAR, INT, Signed(argc), DecInt(argc));
    ok := cmd.CatFmt(COUNT_FORMAT, [Signed(argc)], n);
  }

  method CatSdsArg(cmd: Sds, arg: seq<Byte>, ghost n: nat) returns (ok: bool)
    requires cmd.Valid() && |arg| < TWO_64 && |PrintedArg(arg)| <= n
    modifies cmd, cmd.data
    ensures cmd.Valid() && (cmd.data == old(cmd.data) || fresh(cmd.data))
    ensures ok ==> cmd.exact == old(cmd.exact) + |PrintedArg(arg)|
    ensures old(cmd.Roomy(n)) ==> && ok && cmd.data == old(cmd.data) && cmd.Roomy(n - |PrintedArg(arg)|)
                                  && cmd.Holds(old(cmd.Text()) + PrintedArg(arg))
  {
    ghost var line := EncodeLine(DOLLAR, Dec(|arg|));
    ghost var before := cmd.Text();
    LineRendered(DOLLAR, 84, Unsigned(|arg|), Dec(|arg|));
    ok := cmd.CatFmt(LENGTH_FORMAT, [Unsigned(|arg|)], n);
    if !ok { return; }
    ok := cmd.CatLen(arg, n - |line|);
    if !ok { return; }
    ok := cmd.CatLen(CRLF, n - |line| - |arg|);
    Regroup(before, line, arg);
    Regroup(before, line + arg, CRLF);
  }
}
