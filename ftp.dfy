/**
 * TINYFTP.C: the FTP client and server that run over tinySOCK's TCP.
 *
 * The client assembles the lines the remote server sends on the control
 * connection (ftp_ctlHandler) and lets the user type commands that are queued
 * for the control connection (ftp_application). The server answers the
 * commands a remote client sends (ftp_server_handler): USER, PASS, PORT,
 * RETR, QUIT and HELP, each with a canned reply queued in a response buffer.
 *
 * All the static buffers of the file are fields of one Station object. The
 * calls the file makes into the TCP layer (tcp_Abort, tcp_Open, tcp_Close,
 * tcp_Flush and the hand-over of text to tcp_Write) and to
 * ftp_local_command are recorded as Requests; how much text a tcp_Write
 * takes is given as the room left on that socket, as the TCP model's Write
 * computes it. The bytes the TCP layer delivers are read as characters.
 */
module Ftp {
  import opened Wire
  import opened CText
  import opened FileIo

  /** RECEIVE_DATA_PORT, the local port of the server's data connection */
  const RECEIVE_DATA_PORT: Word := 0x1010
  /** sizeof b_response: the longest line kept is one less */
  const RESPONSE_SIZE: nat := 120
  /** sizeof data in ftp_ctlHandler: the chunk copied at a time */
  const CHUNK_SIZE: nat := 82
  /** the longest line the user may type into userbuffer */
  const USER_MAX: nat := 81

  // ----- get_a_number ----------------------------------------------------------------------

  predicate IsBlank(c: char) { c == ' ' }

  /** The first index from i that is not a blank. */
  function Blanks(s: string, i: nat): (b: nat)
    requires i <= |s|
    ensures i <= b <= |s| && (b < |s| ==> s[b] != ' ')
    decreases |s| - i
  {
    if i < |s| && s[i] == ' ' then Blanks(s, i + 1) else i
  }

  /** The digit loop of get_a_number from j with acc accumulated, counted without bound:
      where it stops, and the value it reaches. */
  function Digits(s: string, j: nat, acc: nat): (r: (nat, nat))
    requires j <= |s|
    ensures j <= r.0 <= |s| && (r.0 < |s| ==> !IsDigit(s[r.0]))
    decreases |s| - j
  {
    if j < |s| && IsDigit(s[j]) then Digits(s, j + 1, 10 * acc + (s[j] as int - '0' as int))
    else (j, acc)
  }

  /** get_a_number reading s from index i: where it stops, and the value of the digits it
      reads. The unsigned short it stores wraps at every step and so ends as this value
      modulo 2^16 (ModTen). The end of s stops both runs as the NUL after the text would. */
  function Number(s: string, i: nat): (nat, nat)
    requires i <= |s|
  {
    Digits(s, Blanks(s, i), 0)
  }

  /** One more digit, as the accumulator of get_a_number takes it in an unsigned short. */
  lemma ModTen(x: nat, d: nat)
    ensures (10 * (x % 0x1_0000) + d) % 0x1_0000 == (10 * x + d) % 0x1_0000
  {
    var m := 0x1_0000;
    var y, y' := 10 * x + d, 10 * (x % m) + d;
    assert x == m * (x / m) + x % m;
    assert y == y' + m * (10 * (x / m));
    assert y == m * (y' / m + 10 * (x / m)) + y' % m;
    DivUnique(y, m, y' / m + 10 * (x / m), y' % m);
  }

  /** The value of the digits up to j + 1, from the value of those up to j. */
  lemma DecimalStep(s: string, b: nat, j: nat)
    requires b <= j < |s| && AllDigits(s[b..j + 1])
    ensures AllDigits(s[b..j])
    ensures Decimal(s[b..j + 1]) == 10 * Decimal(s[b..j]) + (s[j] as int - '0' as int)
  {
    assert s[b..j + 1][..j - b] == s[b..j];
  }

  /** Having read the digits s[b..j], the loop holds their value. */
  lemma {:induction false} DigitsFrom(s: string, b: nat, j: nat)
    requires b <= j <= |s| && AllDigits(s[b..j])
    ensures Digits(s, b, 0) == Digits(s, j, Decimal(s[b..j]))
    decreases j - b
  {
    if j > b {
      DecimalStep(s, b, j - 1);
      DigitsFrom(s, b, j - 1);
    }
  }

  /** get_a_number stops at the first non-digit after the blanks, with the value of the
      digits before it modulo 2^16; 0 when there are none. */
  lemma NumberValue(s: string, i: nat)
    requires i <= |s|
    ensures var b, e := Blanks(s, i), Number(s, i).0;
      b <= e <= |s| && AllDigits(s[b..e]) && (e < |s| ==> !IsDigit(s[e]))
      && Number(s, i).1 == Decimal(s[b..e])
  {
    var b := Blanks(s, i);
    var e := Span(s, b, IsDigit);
    assert AllDigits(s[b..e]);
    DigitsFrom(s, b, e);
  }

  /** get_a_number: skips blanks, accumulates the digits in an unsigned short and returns
      where it stopped. */
  method GetANumber(s: string, i: nat) returns (next: nat, n: Word)
    requires i <= |s|
    ensures next == Number(s, i).0 && n == Number(s, i).1 % 0x1_0000
  {
    var j := i;
    while j < |s| && s[j] == ' '
      invariant i <= j <= |s| && Blanks(s, j) == Blanks(s, i)
      decreases |s| - j
    {
      j := j + 1;
    }
    n := 0;
    ghost var acc: nat := 0;
    while j < |s| && IsDigit(s[j])
      invariant Blanks(s, i) <= j <= |s| && n == acc % 0x1_0000
      invariant Digits(s, j, acc) == Digits(s, Blanks(s, i), 0)
      decreases |s| - j
    {
      var d := s[j] as int - '0' as int;
      ModTen(acc, d);
      n := (10 * n + d) % 0x1_0000;
      acc := 10 * acc + d;
      j := j + 1;
    }
    next := j;
  }

  /** t occurs in s at index k, one character after another. */
  predicate At(s: string, k: nat, t: string)
    decreases |t|
  {
    k + |t| <= |s| && (|t| == 0 || (s[k] == t[0] && At(s, k + 1, t[1..])))
  }

  /** Where t occurs, the slice of s holds t. */
  lemma {:induction false} AtSlice(s: string, k: nat, t: string)
    requires At(s, k, t)
    ensures s[k..k + |t|] == t
    decreases |t|
  {
    if |t| > 0 {
      AtSlice(s, k + 1, t[1..]);
      assert s[k..k + |t|] == [s[k]] + s[k + 1..k + |t|];
    }
  }

  /** The two parts of x + y where x + y occurs. */
  lemma {:induction false} AtParts(s: string, k: nat, x: string, y: string)
    requires At(s, k, x + y)
    ensures At(s, k, x) && At(s, k + |x|, y)
    decreases |x|
  {
    if |x| == 0 {
      assert x + y == y;
    } else {
      assert (x + y)[0] == x[0] && (x + y)[1..] == x[1..] + y;
      AtParts(s, k + 1, x[1..], y);
    }
  }

  /** A run of decimal digits after some blanks at i reads back as its value modulo 2^16,
      and reading stops just after it. */
  lemma NumberAt(s: string, i: nat, blanks: nat, d: string)
    requires |d| >= 1 && AllDigits(d) && At(s, i + blanks, d)
    requires forall j :: i <= j < i + blanks ==> s[j] == ' '
    requires i + blanks + |d| < |s| ==> !IsDigit(s[i + blanks + |d|])
    ensures Number(s, i) == (i + blanks + |d|, Decimal(d))
  {
    var k := i + blanks;
    AtSlice(s, k, d);
    assert s[k] == s[k..k + |d|][0];
    BlanksAt(s, i, k);
    DigitsFrom(s, k, k + |d|);
  }

  /** The blanks run from i to k when s[i..k] are blanks and s[k] is not. */
  lemma {:induction false} BlanksAt(s: string, i: nat, k: nat)
    requires i <= k <= |s| && forall j :: i <= j < k ==> s[j] == ' '
    requires k < |s| ==> s[k] != ' '
    ensures Blanks(s, i) == k
    decreases k - i
  {
    if i < k {
      BlanksAt(s, i + 1, k);
    }
  }

  /** A field "d," after some blanks at i. */
  lemma FieldAt(s: string, i: nat, blanks: string, d: string)
    requires forall j :: 0 <= j < |blanks| ==> blanks[j] == ' '
    requires |d| >= 1 && AllDigits(d) && At(s, i, blanks) && At(s, i + |blanks|, d)
    requires i + |blanks| + |d| < |s| && s[i + |blanks| + |d|] == ','
    ensures Number(s, i) == (i + |blanks| + |d|, Decimal(d))
  {
    AtSlice(s, i, blanks);
    forall j | i <= j < i + |blanks|
      ensures s[j] == ' '
    {
      assert s[j] == s[i..i + |blanks|][j - i];
    }
    NumberAt(s, i, |blanks|, d);
  }

  // ----- the client's control connection ---------------------------------------------------

  /** What the client has made of the control connection so far: the unfinished line in
      b_response, and the lines handed to ftp_process_response. */
  datatype Assembly = Assembly(line: string, lines: seq<string>)

  /** One character received: CR is ignored, LF hands the line on and starts a new one, any
      other character is kept while the line is shorter than 119. */
  function Feed(a: Assembly, c: char): Assembly
  {
    if c == '\r' then a
    else if c == '\n' then Assembly([], a.lines + [a.line])
    else if |a.line| < RESPONSE_SIZE - 1 then a.(line := a.line + [c])
    else a
  }

  /** The characters of s received one by one. */
  function FeedAll(a: Assembly, s: string): Assembly
    decreases |s|
  {
    if |s| == 0 then a else Feed(FeedAll(a, s[..|s| - 1]), s[|s| - 1])
  }

  /** s without its carriage returns. */
  function NoCr(s: string): (r: string)
    ensures '\r' !in r && |r| <= |s|
    decreases |s|
  {
    if |s| == 0 then []
    else if s[|s| - 1] == '\r' then NoCr(s[..|s| - 1])
    else NoCr(s[..|s| - 1]) + [s[|s| - 1]]
  }

  /** The first n characters of s, all of it when it is shorter. */
  function Take(s: string, n: nat): string
  {
    if |s| <= n then s else s[..n]
  }

  /** b_response never overflows: the unfinished line stays within 119 characters. */
  lemma {:induction false} LineBounded(a: Assembly, s: string)
    requires |a.line| < RESPONSE_SIZE
    ensures |FeedAll(a, s).line| < RESPONSE_SIZE
    ensures |FeedAll(a, s).lines| >= |a.lines|
    decreases |s|
  {
    if |s| > 0 {
      LineBounded(a, s[..|s| - 1]);
    }
  }

  /** Within a line, the assembler holds the text received so far without its carriage
      returns, cut at 119 characters. */
  lemma {:induction false} FeedLine(lines: seq<string>, t: string)
    requires '\n' !in t
    ensures FeedAll(Assembly([], lines), t) == Assembly(Take(NoCr(t), RESPONSE_SIZE - 1), lines)
    decreases |t|
  {
    if |t| > 0 {
      var u, c := t[..|t| - 1], t[|t| - 1];
      FeedLine(lines, u);
      if c != '\r' {
        var v := NoCr(u);
        assert NoCr(t) == v + [c];
        if |v| >= RESPONSE_SIZE - 1 {
          assert (v + [c])[..RESPONSE_SIZE - 1] == v[..RESPONSE_SIZE - 1];
        }
      }
    }
  }

  /** A whole line ending in LF is handed to ftp_process_response without its carriage
      returns, cut at 119 characters, and the next line starts empty. */
  lemma CompleteLine(lines: seq<string>, t: string)
    requires '\n' !in t
    ensures FeedAll(Assembly([], lines), t + "\n")
         == Assembly([], lines + [Take(NoCr(t), RESPONSE_SIZE - 1)])
  {
    assert (t + "\n")[..|t|] == t;
    FeedLine(lines, t);
  }

  // ----- the requests the FTP code makes of the TCP layer --------------------------------

  /** The calls TINYFTP.C makes on its sockets and to ftp_local_command. */
  datatype Request =
    | AbortData                                           // tcp_Abort(&s_og_data)
    | CloseControl                                        // tcp_Close(&s_og_ctl)
    | OpenData(local: Word, remote: Longword, port: Word) // tcp_Open(&s_ic_data, ...)
    | CloseData                                           // tcp_Close(&s_ic_data)
    | LocalCommand(line: string)                          // ftp_local_command(userbuffer)
    | SendCommand(text: string)                           // tcp_Write + tcp_Flush on s_og_ctl
    | SendResponse(text: string)                          // tcp_Write + tcp_Flush on s_ic_ctl
    | SendData(bytes: seq<Byte>)                          // tcp_Write + tcp_Flush on s_ic_data

  // ----- the server's replies --------------------------------------------------------------

  /** strncmp(dp, word, 4) == 0 on a command of which only the first len bytes are known. */
  predicate Verb(cmd: string, word: string)
  {
    StartsWith(cmd, word)
  }

  /** k numbers read from p, each followed by a comma: where the last comma ends and the
      last number read (None when a comma is missing). */
  function Commas(s: string, p: nat, k: nat): Option<(nat, nat)>
    requires p <= |s| && k >= 1
    decreases k
  {
    var e := Number(s, p).0;
    if e == |s| || s[e] != ',' then None
    else if k == 1 then Some((e + 1, Number(s, p).1))
    else Commas(s, e + 1, k - 1)
  }

  /** The data port of "PORT h1,h2,h3,h4,p1,p2": None when a comma is missing after one of
      the first five numbers, else (p1 << 8) + p2. */
  function PortOf(cmd: string): Option<int>
    requires |cmd| >= 4
  {
    var c := Commas(cmd, 4, 5);
    if c.None? then None
    else Some((c.value.1 % 0x1_0000) * 0x100 + Number(cmd, c.value.0).1 % 0x1_0000)
  }

  /** On the 32-bit host `(h << 8) + l` of two unsigned shorts never leaves the range of an
      `int`, so the cast to `int` (TINYFTP.C:245) keeps the value PortOf gives. */
  lemma PortFitsInt(cmd: string)
    requires |cmd| >= 4 && PortOf(cmd).Some?
    ensures 0 <= PortOf(cmd).value <= 0xFFFF * 0x100 + 0xFFFF < 0x8000_0000
  {
  }

  /** The file name of a RETR: the len - 5 bytes from offset 4, the blank included, read
      as strncpy reads them, up to a NUL. */
  function RetrName(cmd: string): string
    requires |cmd| >= 5
  {
    CStr(cmd[4..|cmd| - 1])
  }

  /** The blank after RETR and the carriage return that strncpy copies along with the name
      are both dropped by fixup_filename: "RETR name\r\n" opens the file that
      fixup_filename makes of the name itself. */
  lemma RetrNameCleans(name: string)
    requires NUL !in name && '/' !in name && '\\' !in name
    ensures var cmd := "RETR " + name + "\r\n";
      && IsRetr(cmd) && RetrName(cmd) == " " + name + "\r"
      && Fixed(RetrName(cmd)) == Fixed(name)
  {
    RetrCommand(name);
    FixedOfPadded(name);
  }

  /** The name strncpy copies out of "RETR name\r\n". */
  lemma RetrCommand(name: string)
    requires NUL !in name
    ensures var cmd := "RETR " + name + "\r\n";
      IsRetr(cmd) && RetrName(cmd) == " " + name + "\r"
  {
    var cmd := "RETR " + name + "\r\n";
    var t := " " + name + "\r";
    assert cmd[..4] == "RETR";
    assert cmd[4..|cmd| - 1] == t;
    assert NUL !in t;
  }

  /** A leading blank and a trailing carriage return make no difference to the name. */
  lemma FixedOfPadded(name: string)
    requires '/' !in name && '\\' !in name
    ensures Fixed(" " + name + "\r") == Fixed(name)
  {
    var t := " " + name + "\r";
    ComponentOfPlain(name);
    ComponentOfPlain(t);
    assert t[0] == ' ' && t[1..] == name + "\r";
    CleanDropsCr(name, 0);
  }

  /** A name without separators is its own last component. */
  lemma ComponentOfPlain(s: string)
    requires '/' !in s && '\\' !in s
    ensures Component(s) == s
  {
    AfterAbsent(s, '/');
    AfterAbsent(s, '\\');
  }

  const GREETING := "220 Tiny-TCP FTP server ready.\r\n"
  const NO_LOGON := "230 No logon required.\r\n"
  const OKAY := "200 Okay.\r\n"
  const SYNTAX_ERROR := "501 Syntax error.\r\n"
  const NO_FILE := "550 File doesn't exist.\r\n"
  const FILE_OPEN := "150 File open.\r\n"
  const GOODBYE := "221 Goodbye.\r\n"
  const HELP_TEXT := "211 When we say Tiny, we mean it.\r\n"
  const NOT_IMPLEMENTED := "502 Command not implemented.\r\n"

  /** The reply ftp_server_handler queues for a command other than a well-formed RETR, or
      for len == 0 (None when it queues nothing): every command gets exactly one reply, and
      the greeting is given once, on the connection's first call. */
  function Answer(firstTime: bool, cmd: string): (r: Option<string>)
    requires !(Verb(cmd, "RETR") && |cmd| > 4 && cmd[4] == ' ')
    ensures r.None? <==> |cmd| == 0 && !firstTime
    ensures r == Some(GREETING) <==> |cmd| == 0 && firstTime
  {
    if |cmd| == 0 then (if firstTime then Some(GREETING) else None)
    else if Verb(cmd, "USER") || Verb(cmd, "PASS") then Some(NO_LOGON)
    else if Verb(cmd, "PORT") then Some(if PortOf(cmd).Some? then OKAY else SYNTAX_ERROR)
    else if Verb(cmd, "RETR") then Some(SYNTAX_ERROR)
    else if Verb(cmd, "QUIT") then Some(GOODBYE)
    else if Verb(cmd, "HELP") then Some(HELP_TEXT)
    else Some(NOT_IMPLEMENTED)
  }

  /** Non-empty runs of decimal digits. */
  predicate DigitRuns(ds: seq<string>)
  {
    forall k :: 0 <= k < |ds| ==> |ds[k]| >= 1 && AllDigits(ds[k])
  }

  /** Runs of digits, each followed by a comma. */
  function CommaList(ds: seq<string>): string
  {
    if |ds| == 0 then [] else ds[0] + "," + CommaList(ds[1..])
  }

  /** Reading the comma-terminated runs of ds, after some blanks, gets the value of the last
      one back modulo 2^16 and stops after its comma. */
  lemma {:induction false} CommasOfList(s: string, i: nat, blanks: string, ds: seq<string>)
    requires forall j :: 0 <= j < |blanks| ==> blanks[j] == ' '
    requires |ds| >= 1 && DigitRuns(ds) && At(s, i, blanks + CommaList(ds))
    ensures var r := Commas(s, i, |ds|);
      r.Some? && r.value.0 == i + |blanks| + |CommaList(ds)|
      && r.value.1 == Decimal(ds[|ds| - 1])
    decreases |ds|
  {
    var e := CommasHead(s, i, blanks, ds);
    if |ds| > 1 {
      assert [] + CommaList(ds[1..]) == CommaList(ds[1..]);
      CommasOfList(s, e, [], ds[1..]);
      assert ds[1..][|ds[1..]| - 1] == ds[|ds| - 1];
    }
  }

  /** The first run of the list and its comma read: the rest of the list follows. */
  lemma CommasHead(s: string, i: nat, blanks: string, ds: seq<string>) returns (e: nat)
    requires forall j :: 0 <= j < |blanks| ==> blanks[j] == ' '
    requires |ds| >= 1 && DigitRuns(ds) && At(s, i, blanks + CommaList(ds))
    ensures e == i + |blanks| + |ds[0]| + 1
    ensures e + |CommaList(ds[1..])| == i + |blanks| + |CommaList(ds)|
    ensures At(s, e, CommaList(ds[1..])) && DigitRuns(ds[1..])
    ensures Commas(s, i, |ds|) ==
      if |ds| == 1 then Some((e, Decimal(ds[0]))) else Commas(s, e, |ds| - 1)
  {
    var field, rest := blanks + ds[0] + ",", CommaList(ds[1..]);
    e := i + |field|;
    assert blanks + CommaList(ds) == field + rest;
    AtParts(s, i, field, rest);
    AtParts(s, i, blanks + ds[0], ",");
    AtParts(s, i, blanks, ds[0]);
    assert s[e - 1] == ","[0];
    FieldAt(s, i, blanks, ds[0]);
    CommasStep(s, i, |ds|, e - 1, Decimal(ds[0]));
    assert DigitRuns(ds[1..]) by {
      forall k | 0 <= k < |ds| - 1
        ensures |ds[1..][k]| >= 1 && AllDigits(ds[1..][k])
      {
        assert ds[1..][k] == ds[k + 1];
      }
    }
  }

  /** One number and its comma read. */
  lemma CommasStep(s: string, p: nat, k: nat, e: nat, v: nat)
    requires p <= |s| && k >= 1 && Number(s, p) == (e, v) && e < |s| && s[e] == ','
    ensures Commas(s, p, k) == if k == 1 then Some((e + 1, v)) else Commas(s, e + 1, k - 1)
  {
  }

  /** A command that starts "PORT h1,h2,h3,h4,p1,p2", the numbers written as runs of
      decimal digits, sets the data port to (p1 << 8) + p2, each number taken modulo 2^16
      as get_a_number stores it; here ds holds h1, h2, h3, h4 and p1. */
  lemma PortCommand(cmd: string, ds: seq<string>, p2: string)
    requires |ds| == 5 && DigitRuns(ds) && |p2| >= 1 && AllDigits(p2)
    requires At(cmd, 0, "PORT " + CommaList(ds) + p2)
    requires 5 + |CommaList(ds)| + |p2| < |cmd| ==> !IsDigit(cmd[5 + |CommaList(ds)| + |p2|])
    ensures PortOf(cmd).Some?
    ensures PortOf(cmd).value == (Decimal(ds[4]) % 0x1_0000) * 0x100 + Decimal(p2) % 0x1_0000
  {
    var e := PortNumbers(cmd, ds, p2);
    PortOfParts(cmd, e, Decimal(ds[4]), Decimal(p2));
  }

  /** The six numbers of such a command read: the fifth by the comma loop, the sixth after
      it. */
  lemma PortNumbers(cmd: string, ds: seq<string>, p2: string) returns (e: nat)
    requires |ds| == 5 && DigitRuns(ds) && |p2| >= 1 && AllDigits(p2)
    requires At(cmd, 0, "PORT " + CommaList(ds) + p2)
    requires 5 + |CommaList(ds)| + |p2| < |cmd| ==> !IsDigit(cmd[5 + |CommaList(ds)| + |p2|])
    ensures e <= |cmd| && Commas(cmd, 4, 5).Some? && Commas(cmd, 4, 5).value.0 == e
    ensures Commas(cmd, 4, 5).value.1 == Decimal(ds[4]) && Number(cmd, e).1 == Decimal(p2)
  {
    var list := CommaList(ds);
    e := 5 + |list|;
    PortParts(cmd, list, p2);
    FiveNumbers(cmd, ds);
    LastNumber(cmd, e, p2);
  }

  /** The sixth number of a PORT command read. */
  lemma LastNumber(cmd: string, e: nat, d: string)
    requires |d| >= 1 && AllDigits(d) && At(cmd, e, d)
    requires e + |d| < |cmd| ==> !IsDigit(cmd[e + |d|])
    ensures Number(cmd, e).1 == Decimal(d)
  {
    NumberAt(cmd, e, 0, d);
  }

  /** The five comma-terminated numbers of a PORT command read. */
  lemma FiveNumbers(cmd: string, ds: seq<string>)
    requires |ds| == 5 && DigitRuns(ds)
    requires At(cmd, 4, " " + CommaList(ds))
    ensures Commas(cmd, 4, 5).Some? && Commas(cmd, 4, 5).value.0 == 5 + |CommaList(ds)|
    ensures Commas(cmd, 4, 5).value.1 == Decimal(ds[4])
  {
    CommasOfList(cmd, 4, " ", ds);
  }

  /** PortOf from the end of the fifth comma and the two port numbers. */
  lemma PortOfParts(cmd: string, e: nat, p1: nat, p2: nat)
    requires |cmd| >= 4
    requires Commas(cmd, 4, 5).Some? && Commas(cmd, 4, 5).value.0 == e
    requires Commas(cmd, 4, 5).value.1 == p1 && e <= |cmd| && Number(cmd, e).1 == p2
    ensures PortOf(cmd).Some? && PortOf(cmd).value == (p1 % 0x1_0000) * 0x100 + p2 % 0x1_0000
  {
  }

  /** Where the numbers and the last number of a PORT command sit. */
  lemma PortParts(cmd: string, list: string, r: string)
    requires At(cmd, 0, "PORT " + list + r)
    ensures At(cmd, 4, " " + list) && At(cmd, 5 + |list|, r)
  {
    assert "PORT " + list + r == "PORT" + (" " + list) + r;
    AtParts(cmd, 0, "PORT" + (" " + list), r);
    AtParts(cmd, 0, "PORT", " " + list);
  }

  // ----- the user's console ----------------------------------------------------------------

  const CTRL_X: int := 0x18
  const BACKSPACE: int := 8
  const CR: int := 13
  /** sizeof b_s_data: the most my_read is asked for at a time */
  const DATA_SIZE: nat := 1024
  const FILE_SENT := "226 File sent.\r\n"

  /** A keypress, masked to seven bits, applied to userbuffer: the buffer after it, and the
      line a carriage return submits. A printable character is kept while there is room for
      it, a backspace removes the last character, a carriage return on a non-empty buffer
      submits it with CR LF and empties it; other keys leave it as it is. */
  function Keyed(buffer: string, i: int): (r: (string, Option<string>))
    ensures r.1.Some? <==> i == CR && |buffer| > 0
    ensures r.1.Some? ==> r.1.value == buffer + "\r\n" && r.0 == []
    ensures |buffer| <= USER_MAX ==> |r.0| <= USER_MAX
  {
    if ' ' as int <= i <= 126 then (if |buffer| < USER_MAX then buffer + [i as char] else buffer, None)
    else if i == BACKSPACE then (if |buffer| > 0 then buffer[..|buffer| - 1] else buffer, None)
    else if i == CR && |buffer| > 0 then ([], Some(buffer + "\r\n"))
    else (buffer, None)
  }

  /** A printable character typed when there is room, then a backspace: the buffer is as it
      was before. */
  lemma BackspaceUndoes(buffer: string, c: char)
    requires ' ' <= c <= '~' && |buffer| < USER_MAX
    ensures Keyed(Keyed(buffer, c as int).0, BACKSPACE) == (buffer, None)
  {
    assert (buffer + [c])[..|buffer|] == buffer;
  }

  /** The characters of s typed one after another into buffer. */
  function TypeAll(buffer: string, s: string): string
    decreases |s|
  {
    if |s| == 0 then buffer else Keyed(TypeAll(buffer, s[..|s| - 1]), s[|s| - 1] as int).0
  }

  /** Printable text of at most 81 characters typed into an empty userbuffer is held as it
      was typed, and a carriage return then submits it followed by CR LF. */
  lemma {:induction false} TypedLine(s: string)
    requires |s| <= USER_MAX && forall k :: 0 <= k < |s| ==> ' ' <= s[k] <= '~'
    ensures TypeAll([], s) == s
    ensures |s| > 0 ==> Keyed(TypeAll([], s), CR) == ([], Some(s + "\r\n"))
    decreases |s|
  {
    if |s| > 0 {
      var t, c := s[..|s| - 1], s[|s| - 1];
      assert forall k :: 0 <= k < |t| ==> t[k] == s[k];
      TypedLine(t);
      assert TypeAll([], s) == Keyed(t, c as int).0;
      assert Keyed(t, c as int).0 == t + [c];
      assert t + [c] == s;
    }
  }

  /** userbuffer after the key read by ftp_application, if any; busyina() & 0177. */
  function Typed(buffer: string, key: Option<Byte>): (string, Option<string>)
  {
    if key.None? then (buffer, None) else Keyed(buffer, key.value % 128)
  }

  /** A submitted line starting with '@' is a local command. */
  predicate Local(line: string) { |line| > 0 && line[0] == '@' }

  /** The calls a keypress makes: control-X closes the control connection, a local command
      goes to ftp_local_command. */
  function KeyRequests(key: Option<Byte>, line: Option<string>): seq<Request>
  {
    (if key.Some? && key.value % 128 == CTRL_X then [CloseControl] else [])
    + (if line.Some? && Local(line.value) then [LocalCommand(line.value)] else [])
  }

  /** b_c_command after a line is submitted: any line but a local command is queued. */
  function Queued(command: string, line: Option<string>): string
  {
    if line.Some? && !Local(line.value) then command + line.value else command
  }

  /** recv_filename after a line is submitted: a RETR (or retr) command names the file the
      data connection will write, as what follows "RETR ". */
  function Retrieving(recv: string, line: Option<string>): string
  {
    if line.Some? && !Local(line.value)
      && (StartsWith(line.value, "RETR ") || StartsWith(line.value, "retr "))
    then line.value[5..]
    else recv
  }

  /** tcp_Write taking as much of s as there is room for, and what is moved down in the
      buffer to wait: nothing is lost and the order is kept. */
  function Drain<T>(s: seq<T>, room: nat): (r: (seq<T>, seq<T>))
    ensures r.0 + r.1 == s
    ensures |r.0| == if |s| <= room then |s| else room
  {
    if |s| <= room then (s, []) else (s[..room], s[room..])
  }

  /** The write and flush of the client's command queue, made when it is not empty. */
  function CommandSends(command: string, room: nat): seq<Request>
  {
    if |command| == 0 then [] else [SendCommand(Drain(command, room).0)]
  }

  /** The write and flush of the server's reply queue, made when it is not empty. */
  function ResponseSends(response: string, room: nat): seq<Request>
  {
    if |response| == 0 then [] else [SendResponse(Drain(response, room).0)]
  }

  /** The file transfer state after one call of ftp_application, the calls made, and
      whether the 226 reply is queued. */
  datatype Sending = Sending(file: Handle, pending: seq<Byte>, requests: seq<Request>, done: bool)

  /** The file transfer part of ftp_application, where chunk is what my_read returns when
      asked: with no file open nothing happens; with nothing left of the last read and
      nothing more read, the file is closed, the data connection is closed and 226 is queued;
      otherwise as much as fits of what is left (or of what was just read) is sent. */
  function FileStep(file: Handle, pending: seq<Byte>, chunk: seq<Byte>, room: nat): Sending
  {
    if file == NoFile then Sending(file, pending, [], false)
    else if |pending| == 0 && |chunk| == 0 then Sending(NoFile, pending, [CloseData], true)
    else
      var d := Drain(if |pending| == 0 then chunk else pending, room);
      Sending(file, d.1, [SendData(d.0)], false)
  }

  /** The bytes of the file go out in the order they were read: what one step sends,
      followed by what it leaves pending, is what was pending before and, when nothing was,
      the chunk just read. */
  lemma FileBytesKept(file: Handle, pending: seq<Byte>, chunk: seq<Byte>, room: nat)
    requires file != NoFile && !(|pending| == 0 && |chunk| == 0)
    ensures var f := FileStep(file, pending, chunk, room);
      |f.requests| == 1 && f.requests[0].SendData? && f.file == file && !f.done
      && f.requests[0].bytes + f.pending == pending + (if |pending| == 0 then chunk else [])
  {
  }

  /** A command the server treats as RETR: "RETR" followed by a blank. */
  predicate IsRetr(cmd: string)
  {
    Verb(cmd, "RETR") && |cmd| > 4 && cmd[4] == ' '
  }

  /** FeedAll one character further. */
  lemma FeedSnoc(a: Assembly, s: string, c: char)
    ensures FeedAll(a, s + [c]) == Feed(FeedAll(a, s), c)
  {
    assert (s + [c])[..|s|] == s;
  }

  /** The state TINYFTP.C keeps in its static variables. */
  class Station {
    /** b_response and i_response, with the lines handed to ftp_process_response */
    var assembly: Assembly
    /** b_c_command: the commands waiting to go out on the client's control connection */
    var command: string
    /** b_s_response: the replies waiting to go out on the server's control connection */
    var response: string
    /** first_time in ftp_server_handler */
    var firstTime: bool
    /** his_data_port in ftp_server_handler, as computed */
    var hisDataPort: int
    var sendFilename: string
    /** p_send_file */
    var sendFile: Handle
    /** b_s_data[n_s_sent..n_s_sent + n_s_left]: read from the file and not yet sent */
    var pending: seq<Byte>
    var recvFilename: string
    /** userbuffer in ftp_application */
    var userBuffer: string
    /** the calls made so far on the sockets and to ftp_local_command */
    var requests: seq<Request>
    /** my_open's fixed_filename */
    const names: Names

    /** No buffer overflows: b_response, userbuffer and b_s_data stay within their sizes. */
    ghost predicate Valid()
      reads this`assembly, this`userBuffer, this`pending
    {
      names.fixed.Length == FIXED_SIZE && |assembly.line| < RESPONSE_SIZE
      && |userBuffer| <= USER_MAX && |pending| <= DATA_SIZE
    }

    /** The static variables as the program starts. */
    constructor ()
      ensures Valid() && fresh(names)
      ensures assembly == Assembly([], []) && command == [] && response == [] && firstTime
      ensures hisDataPort == RECEIVE_DATA_PORT && sendFilename == [] && sendFile == NoFile
      ensures pending == [] && recvFilename == [] && userBuffer == [] && requests == []
    {
      assembly := Assembly([], []);
      command, response := [], [];
      firstTime := true;
      hisDataPort := RECEIVE_DATA_PORT;
      sendFilename, sendFile, pending := [], NoFile, [];
      recvFilename, userBuffer := [], [];
      requests := [];
      names := new Names();
    }

    /** ftp_ctlHandler: a null dp (None) aborts the data connection; otherwise the text is
        taken in chunks of 82 and fed to the response assembler a character at a time. */
    method CtlHandler(data: Option<string>)
      requires Valid()
      modifies this`assembly, this`requests
      ensures Valid()
      ensures data.None? ==> assembly == old(assembly) && requests == old(requests) + [AbortData]
      ensures data.Some? ==> assembly == FeedAll(old(assembly), data.value) && requests == old(requests)
    {
      if data.None? {
        requests := requests + [AbortData];
        return;
      }
      var dp := data.value;
      ghost var a0 := assembly;
      var pos := 0;
      // the do-while of the source: its one round on an empty text does nothing
      while pos < |dp|
        invariant pos <= |dp| && assembly == FeedAll(a0, dp[..pos]) && |assembly.line| < RESPONSE_SIZE
        invariant requests == old(requests)
        decreases |dp| - pos
      {
        var i := |dp| - pos;
        if i > CHUNK_SIZE {
          i := CHUNK_SIZE;
        }
        var chunk := dp[pos..pos + i];
        var k := 0;
        while k < i
          invariant k <= i && assembly == FeedAll(a0, dp[..pos + k]) && |assembly.line| < RESPONSE_SIZE
          invariant requests == old(requests)
          decreases i - k
        {
          var c := chunk[k];
          FeedSnoc(a0, dp[..pos + k], c);
          assert dp[..pos + k + 1] == dp[..pos + k] + [c];
          k := k + 1;
          if c == '\r' {
            continue;
          }
          if c == '\n' {
            assembly := Assembly([], assembly.lines + [assembly.line]);
          } else if |assembly.line| < RESPONSE_SIZE - 1 {
            assembly := assembly.(line := assembly.line + [c]);
          }
        }
        pos := pos + i;
      }
      assert dp[..pos] == dp;
    }

    /** One "number," of a PORT command: get_a_number, then the test for the comma that
        must follow; None where the source jumps to the syntax error. */
    static method CommaField(cmd: string, q: nat, k: nat) returns (next: Option<nat>, h: Word)
      requires q <= |cmd| && k >= 1
      ensures next.None? ==> Commas(cmd, q, k).None?
      ensures next.Some? ==> next.value <= |cmd| && h == Number(cmd, q).1 % 0x1_0000
      ensures next.Some? ==>
        Commas(cmd, q, k) == if k == 1 then Some((next.value, Number(cmd, q).1))
                             else Commas(cmd, next.value, k - 1)
    {
      var p;
      p, h := GetANumber(cmd, q);
      if p == |cmd| || cmd[p] != ',' {
        return None, h;
      }
      CommasStep(cmd, q, k, p, Number(cmd, q).1);
      next := Some(p + 1);
    }

    /** The PORT branch of ftp_server_handler: five numbers each followed by a comma, then
        the sixth, and the port (h << 8) + l; None where it jumps to the syntax error. */
    static method ParsePort(cmd: string) returns (port: Option<int>)
      requires |cmd| >= 4
      ensures port == PortOf(cmd)
    {
      var f, h := CommaField(cmd, 4, 5);
      if f.None? {
        return None;
      }
      assert Commas(cmd, 4, 5) == Commas(cmd, f.value, 4);
      f, h := CommaField(cmd, f.value, 4);
      if f.None? {
        return None;
      }
      assert Commas(cmd, 4, 5) == Commas(cmd, f.value, 3);
      f, h := CommaField(cmd, f.value, 3);
      if f.None? {
        return None;
      }
      assert Commas(cmd, 4, 5) == Commas(cmd, f.value, 2);
      f, h := CommaField(cmd, f.value, 2);
      if f.None? {
        return None;
      }
      assert Commas(cmd, 4, 5) == Commas(cmd, f.value, 1);
      ghost var q := f.value;
      f, h := CommaField(cmd, f.value, 1);
      if f.None? {
        return None;
      }
      var p, l := GetANumber(cmd, f.value);
      PortOfParts(cmd, f.value, Number(cmd, q).1, Number(cmd, f.value).1);
      port := Some(h as int * 0x100 + l);
      assert port.value == PortOf(cmd).value;
    }

    /** The RETR branch of ftp_server_handler: the name is copied out of the command and
        opened for reading; if that fails 550 is queued, else the data connection is opened
        from RECEIVE_DATA_PORT to the client's data port and 150 is queued. */
    method Retrieve(hisaddr: Longword, cmd: string, readable: set<string>)
      requires names.fixed.Length == FIXED_SIZE && IsRetr(cmd) && |Fixed(RetrName(cmd))| <= FIXED_SIZE
      modifies this`sendFilename, this`sendFile, this`response, this`requests, names.fixed
      ensures var f := CStr(names.fixed[..]);
        && sendFilename == RetrName(cmd) && names.fixed[..] == Written(old(names.fixed[..]), sendFilename)
        && sendFile == (if f in readable then Stream(f, "rb") else NoFile)
      ensures sendFile.NoFile? ==> response == old(response) + NO_FILE && requests == old(requests)
      ensures sendFile.Stream? ==>
        && response == old(response) + FILE_OPEN
        && requests == old(requests) + [OpenData(RECEIVE_DATA_PORT, hisaddr, hisDataPort % 0x1_0000)]
    {
      OpenRetr(cmd, readable);
      AnswerRetr(hisaddr);
    }

    /** The file of a RETR looked for: send_filename and my_open. */
    method OpenRetr(cmd: string, readable: set<string>)
      requires names.fixed.Length == FIXED_SIZE && IsRetr(cmd) && |Fixed(RetrName(cmd))| <= FIXED_SIZE
      modifies this`sendFilename, this`sendFile, names.fixed
      ensures var f := CStr(names.fixed[..]);
        && sendFilename == RetrName(cmd) && names.fixed[..] == Written(old(names.fixed[..]), sendFilename)
        && sendFile == (if f in readable then Stream(f, "rb") else NoFile)
    {
      sendFilename := RetrName(cmd);
      sendFile := names.MyOpen(sendFilename, MyOpenRead, readable, {});
    }

    /** The reply to a RETR, and the data connection opened when the file was found. */
    method AnswerRetr(hisaddr: Longword)
      modifies this`response, this`requests
      ensures sendFile.NoFile? ==> response == old(response) + NO_FILE && requests == old(requests)
      ensures sendFile.Stream? ==>
        && response == old(response) + FILE_OPEN
        && requests == old(requests) + [OpenData(RECEIVE_DATA_PORT, hisaddr, hisDataPort % 0x1_0000)]
    {
      if sendFile.NoFile? {
        response := response + NO_FILE;
        return;
      }
      requests := requests + [OpenData(RECEIVE_DATA_PORT, hisaddr, hisDataPort % 0x1_0000)];
      response := response + FILE_OPEN;
    }

    /** ftp_server_handler: None is a close (len < 0) and changes nothing; a RETR is
        handled by Retrieve; any other command queues its Answer, and a well-formed PORT
        sets the client's data port. It changes none of the fields Valid reads. */
    method ServerHandler(hisaddr: Longword, data: Option<string>, readable: set<string>)
      requires Valid()
      requires data.Some? && IsRetr(data.value) ==> |Fixed(RetrName(data.value))| <= FIXED_SIZE
      modifies this`response, this`firstTime, this`hisDataPort, this`sendFilename, this`sendFile
      modifies this`requests, names.fixed
      ensures data.None? || !IsRetr(data.value) ==>
        sendFilename == old(sendFilename) && sendFile == old(sendFile)
        && requests == old(requests) && names.fixed[..] == old(names.fixed[..])
      ensures data.None? ==>
        response == old(response) && firstTime == old(firstTime) && hisDataPort == old(hisDataPort)
      ensures data.Some? && !IsRetr(data.value) ==>
        var cmd, a := data.value, Answer(old(firstTime), data.value);
        && response == old(response) + (if a.Some? then a.value else [])
        && firstTime == (old(firstTime) && |cmd| != 0)
        && hisDataPort == if Verb(cmd, "PORT") && PortOf(cmd).Some? then PortOf(cmd).value
                          else old(hisDataPort)
      ensures data.Some? && IsRetr(data.value) ==>
        var f := CStr(names.fixed[..]);
        && firstTime == old(firstTime) && hisDataPort == old(hisDataPort)
        && sendFilename == RetrName(data.value)
        && names.fixed[..] == Written(old(names.fixed[..]), sendFilename)
        && sendFile == (if f in readable then Stream(f, "rb") else NoFile)
      ensures data.Some? && IsRetr(data.value) && sendFile.NoFile? ==>
        response == old(response) + NO_FILE && requests == old(requests)
      ensures data.Some? && IsRetr(data.value) && sendFile.Stream? ==>
        && response == old(response) + FILE_OPEN
        && requests == old(requests) + [OpenData(RECEIVE_DATA_PORT, hisaddr, hisDataPort % 0x1_0000)]
    {
      if data.None? {
        return;
      }
      var cmd, first := data.value, firstTime;
      if IsRetr(cmd) {
        Retrieve(hisaddr, cmd, readable);
        return;
      }
      if |cmd| == 0 {
        if !firstTime {
          return;
        }
        firstTime := false;
      } else if Verb(cmd, "PORT") {
        var port := ParsePort(cmd);
        if port.Some? {
          hisDataPort := port.value;
        }
      }
      var a := Answer(first, cmd);
      response := response + a.value;
    }

    /** The console part of ftp_application: a key, if one was pressed, is applied to
        userbuffer; control-X closes the control connection; a submitted line goes to
        ftp_local_command when it starts with '@', else it is queued in b_c_command,
        and a RETR also names the file to receive. */
    method Keyboard(key: Option<Byte>)
      modifies this`userBuffer, this`command, this`recvFilename, this`requests
      ensures var t := Typed(old(userBuffer), key);
        && userBuffer == t.0 && recvFilename == Retrieving(old(recvFilename), t.1)
        && command == Queued(old(command), t.1) && requests == old(requests) + KeyRequests(key, t.1)
    {
      if key.None? {
        return;
      }
      var i := key.value % 128;
      if i == CTRL_X {
        requests := requests + [CloseControl];
      }
      if ' ' as int <= i <= 126 {
        if |userBuffer| < USER_MAX {
          userBuffer := userBuffer + [i as char];
        }
      } else if i == BACKSPACE {
        if |userBuffer| > 0 {
          userBuffer := userBuffer[..|userBuffer| - 1];
        }
      } else if i == CR {
        if |userBuffer| > 0 {
          var line := userBuffer + "\r\n";
          if line[0] == '@' {
            requests := requests + [LocalCommand(line)];
          } else {
            if StartsWith(line, "RETR ") || StartsWith(line, "retr ") {
              recvFilename := line[5..];
            }
            command := command + line;
          }
          userBuffer := [];
        }
      }
    }

    /** The client's command queue written to the control connection as far as there is
        room, the rest moved down, and the connection flushed. */
    method SendCommands(room: nat)
      modifies this`command, this`requests
      ensures command == Drain(old(command), room).1
      ensures requests == old(requests) + CommandSends(old(command), room)
    {
      if |command| > 0 {
        var n := if |command| <= room then |command| else room;
        requests := requests + [SendCommand(command[..n])];
        command := command[n..];
      }
    }

    /** The server's reply queue written to its control connection as far as there is
        room, the rest moved down, and the connection flushed. */
    method SendResponses(room: nat)
      modifies this`response, this`requests
      ensures response == Drain(old(response), room).1
      ensures requests == old(requests) + ResponseSends(old(response), room)
    {
      if |response| > 0 {
        var n := if |response| <= room then |response| else room;
        requests := requests + [SendResponse(response[..n])];
        response := response[n..];
      }
    }

    /** The file transfer part of ftp_application; chunk is what my_read returns when it is
        called. */
    method SendFile(chunk: seq<Byte>, room: nat)
      requires |pending| <= DATA_SIZE && |chunk| <= DATA_SIZE
      modifies this`sendFile, this`pending, this`response, this`requests
      ensures var f := FileStep(old(sendFile), old(pending), chunk, room);
        && sendFile == f.file && pending == f.pending && requests == old(requests) + f.requests
        && response == old(response) + (if f.done then FILE_SENT else [])
      ensures |pending| <= DATA_SIZE
    {
      if sendFile != NoFile {
        if |pending| == 0 {
          if |chunk| == 0 {
            sendFile := NoFile;
            requests := requests + [CloseData];
            response := response + FILE_SENT;
            return;
          }
          pending := chunk;
        }
        var n := if |pending| <= room then |pending| else room;
        requests := requests + [SendData(pending[..n])];
        pending := pending[n..];
      }
    }

    /** ftp_application, called by the TCP layer when it has nothing to do: the console,
        then the client's commands, then the server's replies, then the file being sent.
        ctlRoom, srvRoom and dataRoom are what tcp_Write takes on each socket. */
    method Application(key: Option<Byte>, ctlRoom: nat, srvRoom: nat, chunk: seq<Byte>, dataRoom: nat)
      requires Valid() && |chunk| <= DATA_SIZE
      modifies this`userBuffer, this`command, this`recvFilename, this`response, this`sendFile
      modifies this`pending, this`requests
      ensures Valid()
      ensures var t := Typed(old(userBuffer), key);
        && userBuffer == t.0 && recvFilename == Retrieving(old(recvFilename), t.1)
        && command == Drain(Queued(old(command), t.1), ctlRoom).1
      ensures var t, f := Typed(old(userBuffer), key), FileStep(old(sendFile), old(pending), chunk, dataRoom);
        && sendFile == f.file && pending == f.pending
        && response == Drain(old(response), srvRoom).1 + (if f.done then FILE_SENT else [])
        && requests == old(requests) + KeyRequests(key, t.1)
           + CommandSends(Queued(old(command), t.1), ctlRoom)
           + ResponseSends(old(response), srvRoom) + f.requests
    {
      Keyboard(key);
      SendCommands(ctlRoom);
      SendResponses(srvRoom);
      SendFile(chunk, dataRoom);
    }
  }
}
