/**
 * TINYHTTP.C: a web server that answers GET requests on port 80.
 *
 * http_connect is the data handler of the listening socket. It looks at the
 * request where the TCP layer delivers it, in the received frame, and
 * writes NULs into it to cut out the target. A target ending in '/' asks for
 * index.html. The file is looked for under ".\" and the reply is a 200 with
 * the file or a canned 404 page. recv_new is a scanner for the end of a
 * request line, kept in the file although nothing calls it.
 *
 * The file system is a map from path names to contents. The calls the
 * handler makes on its socket (tcp_Write of a text, tcp_Flush) are returned
 * in order.
 */
module Http {
  import opened Wire
  import opened CText

  /** the shortest request http_connect looks at */
  const MIN_REQUEST: nat := 32
  const WEBROOT := ".\\"
  const INDEX := "index.html"
  const HTTP_MARK := " HTTP/"

  const OK_LINE := "HTTP/1.0 200 OK\r\n"
  const SERVER_LINE := "Server : zbc/Private\r\n\r\n"
  const NOT_FOUND_LINE := "HTTP/1.0 404 Not Found\r\n"
  const NOT_FOUND_HEAD := "<html><head><title>404 not found error!! :( </head></title>"
  const NOT_FOUND_BODY := "<body><h1>Url not found</h1><br><p>Sorry user the url you were searching for was not found on this server!!</p><br><br><br><h1>ZBC Server</h1></body></html>"

  // ----- http_connect --------------------------------------------------------------------

  /** What http_connect makes of a request. */
  datatype Kind =
    | Short              // len < 32
    | NotHttp            // no " HTTP/" before the first NUL
    | NotGet             // does not start with "GET "
    | Get(target: string)

  /** The target of a GET whose " HTTP/" starts at k: the C string from offset 4 once a
      NUL is written at k. */
  function Target(b: seq<char>, k: nat): string
    requires 4 <= |b| && k < |b|
  {
    CStr(b[k := NUL][4..])
  }

  /** http_connect's classification of the len bytes at the front of b, where b runs on
      past them as the frame buffer does; strstr reads b up to its first NUL. */
  function Classify(b: seq<char>, len: int): (r: Kind)
    requires len <= |b|
    ensures r.Get? ==> MIN_REQUEST <= len && StartsWith(b, "GET ")
    ensures r.NotHttp? || r.Get? || r.NotGet? <==> MIN_REQUEST <= len
  {
    if len < MIN_REQUEST then Short
    else
      var k := Find(CStr(b), HTTP_MARK);
      if k.None? then NotHttp
      else if !StartsWith(b, "GET ") then NotGet
      else Get(Target(b, k.value))
  }

  /** The path opened for a target: a target ending in '/' is replaced by index.html, and
      the web root is put in front. */
  function Resource(target: string): (r: string)
    ensures StartsWith(r, WEBROOT)
  {
    WEBROOT + (if |target| > 0 && target[|target| - 1] == '/' then INDEX else target)
  }

  /** get_file_size: fstat's size, or 1 when fstat fails. */
  function FileSize(statOk: bool, content: seq<char>): int
  {
    if statOk then |content| else 1
  }

  /** The check `get_file_size(fd1) == -1` in http_connect never holds: a failed fstat
      gives 1, so the file is then read as one byte long. */
  lemma FileSizeNeverFlagged(statOk: bool, content: seq<char>)
    ensures FileSize(statOk, content) != -1
    ensures FileSize(statOk, content) >= 0
    ensures !statOk ==> FileSize(statOk, content) == 1
  {
  }

  /** The texts http_connect hands to tcp_Write for a GET of resource: the 404 page when
      the file does not open, else the 200 header and the file read up to its first NUL. */
  function Reply(resource: string, files: map<string, seq<char>>, statOk: bool): (r: seq<string>)
    ensures |r| > 0 && (r[0] == OK_LINE <==> resource in files)
    ensures resource in files ==> r[1..] == [SERVER_LINE, CStr(files[resource][..Read(files[resource], statOk)])]
  {
    if resource !in files then [NOT_FOUND_LINE, SERVER_LINE, NOT_FOUND_HEAD, NOT_FOUND_BODY]
    else
      var content := files[resource];
      [OK_LINE, SERVER_LINE, CStr(content[..Read(content, statOk)])]
  }

  /** How many bytes read() puts into the buffer of get_file_size bytes. */
  function Read(content: seq<char>, statOk: bool): (n: nat)
    ensures n <= |content|
  {
    var size := FileSize(statOk, content);
    if size <= |content| then size else |content|
  }

  /** A call http_connect makes on its socket: send_str or tcp_Write of a text, or tcp_Flush. */
  datatype Call = Write(text: string) | Flush

  /** One tcp_Write per text, in order. */
  function Writes(texts: seq<string>): seq<Call>
  {
    seq(|texts|, i requires 0 <= i < |texts| => Write(texts[i]))
  }

  /** http_connect. Only a GET is answered: the request line is cut at " HTTP/" and the
      first 33 bytes of a non-GET are cut at 32, in place. The socket is flushed last in
      every case. */
  method HttpConnect(dp: array<char>, len: int, files: map<string, seq<char>>, statOk: bool)
    returns (calls: seq<Call>)
    requires len <= dp.Length && MIN_REQUEST < dp.Length
    modifies dp
    ensures |calls| > 0 && calls[|calls| - 1] == Flush
    ensures var kind := Classify(old(dp[..]), len);
      && (kind.Get? ==> calls == Writes(Reply(Resource(kind.target), files, statOk)) + [Flush])
      && (!kind.Get? ==> calls == [Flush])
      && (kind.Get? ==> dp[..] == old(dp[..])[Find(CStr(old(dp[..])), HTTP_MARK).value := NUL])
      && (kind.NotGet? ==> dp[..] == old(dp[..])[MIN_REQUEST := NUL])
      && (kind.Short? || kind.NotHttp? ==> dp[..] == old(dp[..]))
  {
    calls := [Flush];
    if len < MIN_REQUEST {
      return;
    }
    var ptr := Find(CStr(dp[..]), HTTP_MARK);
    if ptr.None? {
      return;
    }
    if !StartsWith(dp[..], "GET ") {
      dp[MIN_REQUEST] := NUL;
      return;
    }
    ghost var b := dp[..];
    CStrIndex(b, ptr.value);
    dp[ptr.value] := NUL;
    assert dp[..] == b[ptr.value := NUL];
    var target := CStr(dp[4..]);
    assert dp[4..] == b[ptr.value := NUL][4..];
    // ptr[strlen(ptr) - 1]: for an empty target, the byte before it
    var last := dp[4 + |target| - 1];
    assert last == '/' <==> |target| > 0 && target[|target| - 1] == '/' by {
      assert b[3] == "GET "[3];
      LastOfTarget(b[ptr.value := NUL], target);
    }
    var path := if last == '/' then INDEX else target;
    var resource := WEBROOT + path;
    var texts;
    if resource !in files {
      texts := [NOT_FOUND_LINE, SERVER_LINE, NOT_FOUND_HEAD, NOT_FOUND_BODY];
    } else {
      var content := files[resource];
      var length := FileSize(statOk, content);
      var n := if length <= |content| then length else |content|;
      texts := [OK_LINE, SERVER_LINE, CStr(content[..n])];
    }
    calls := Writes(texts) + [Flush];
  }

  /** The index strstr returns lies within the buffer. */
  lemma CStrIndex(b: seq<char>, k: nat)
    requires Find(CStr(b), HTTP_MARK) == Some(k)
    ensures k < |b|
  {
  }

  /** The character before the target's NUL: the target's last, or for an empty target
      the byte after GET (its blank, or the NUL when " HTTP/" starts there), not '/'. */
  lemma LastOfTarget(c: seq<char>, target: string)
    requires 4 <= |c| && c[3] != '/' && target == CStr(c[4..])
    ensures 4 + |target| - 1 < |c|
    ensures c[4 + |target| - 1] == '/' <==> |target| > 0 && target[|target| - 1] == '/'
  {
    if |target| > 0 {
      assert target[|target| - 1] == c[4..][|target| - 1];
    }
  }

  /** A request line "GET path HTTP/..." with a path that starts with '/' and holds no
      blank or NUL is classified as a GET of exactly that path. */
  lemma GetRoundTrip(path: string, rest: seq<char>, len: int)
    requires |path| > 0 && path[0] == '/' && ' ' !in path && NUL !in path
    requires MIN_REQUEST <= len <= |"GET " + path + HTTP_MARK + rest|
    ensures Classify("GET " + path + HTTP_MARK + rest, len) == Get(path)
  {
    var b := "GET " + path + HTTP_MARK + rest;
    var k := 4 + |path|;
    assert b[..4] == "GET ";
    FindMark(b, path, rest);
    assert b[k := NUL][4..] == path + [NUL] + b[k + 1..];
    CStrOfTerminated(path, b[k + 1..]);
  }

  /** strstr finds the " HTTP/" that follows the path. */
  lemma FindMark(b: seq<char>, path: string, rest: seq<char>)
    requires |path| > 0 && path[0] == '/' && ' ' !in path && NUL !in path
    requires b == "GET " + path + HTTP_MARK + rest
    ensures Find(CStr(b), HTTP_MARK) == Some(4 + |path|)
  {
    var k := 4 + |path|;
    var c := CStr(b);
    forall j | 0 <= j < k + 6
      ensures b[j] != NUL
    {
      if j < 4 {
        assert b[j] == "GET "[j];
      } else if j < k {
        assert b[j] == path[j - 4];
      } else {
        assert b[j] == HTTP_MARK[j - k];
      }
    }
    CStrKeeps(b, k + 6);
    assert Occurs(c, HTTP_MARK, k) by {
      assert c[k..k + 6] == b[..k + 6][k..k + 6] == HTTP_MARK;
    }
    forall j: nat | j < k
      ensures !Occurs(c, HTTP_MARK, j)
    {
      if j == 3 {
        assert c[4] == b[4] == path[0];
        NoMarkAt(c, 3, 1);
      } else {
        assert c[j] == b[j];
        if j < 3 {
          assert b[j] == "GET "[j];
        } else {
          assert b[j] == path[j - 4];
        }
        NoMarkAt(c, j, 0);
      }
    }
    var f := Find(c, HTTP_MARK);
    assert f.Some?;
    assert !(f.value < k) && !(k < f.value);
  }

  /** " HTTP/" does not start at j when the byte at j + d differs from the mark's. */
  lemma NoMarkAt(c: seq<char>, j: nat, d: nat)
    requires d < |HTTP_MARK| && j + d < |c| && c[j + d] != HTTP_MARK[d]
    ensures !Occurs(c, HTTP_MARK, j)
  {
  }

  /** Before its first NUL a buffer reads back unchanged. */
  lemma CStrKeeps(b: seq<char>, n: nat)
    requires n <= |b| && forall j :: 0 <= j < n ==> b[j] != NUL
    ensures |CStr(b)| >= n && CStr(b)[..n] == b[..n]
  {
  }

  // ----- recv_new ------------------------------------------------------------------------

  const EOL := "\r\n"

  /** What recv_new returns: a count, or Overrun where it would read past the buffer,
      since its loop stops only on a line end once dataSize is non-zero. */
  datatype Scan = Count(n: nat) | Overrun

  /** recv_new's scan as written, from index i with m bytes of the line end matched: it
      gives the index of the LF. A mismatch restarts the match from nothing, even when
      the mismatching byte is itself a CR. */
  function EolScan(s: seq<char>, i: nat, m: nat): (r: Option<nat>)
    requires m < |EOL| && (m == 1 ==> 0 < i <= |s| && s[i - 1] == '\r')
    ensures r.Some? ==> 0 < r.value && i <= r.value && Occurs(s, EOL, r.value - 1)
    decreases |s| - i
  {
    if i >= |s| then None
    else if s[i] == EOL[m] then
      if m + 1 == |EOL| then Some(i) else EolScan(s, i + 1, m + 1)
    else EolScan(s, i + 1, 0)
  }

  /** The scan with the mismatch handled: a CR that breaks a match starts a new one. */
  function EolScanFixed(s: seq<char>, i: nat, m: nat): Option<nat>
    requires m < |EOL| && (m == 1 ==> 0 < i <= |s| && s[i - 1] == '\r')
    decreases |s| - i
  {
    if i >= |s| then None
    else if s[i] == EOL[m] then
      if m + 1 == |EOL| then Some(i) else EolScanFixed(s, i + 1, m + 1)
    else EolScanFixed(s, i + 1, if s[i] == '\r' then 1 else 0)
  }

  /** The index one past a found one. */
  function Shift(o: Option<nat>): Option<nat>
  {
    if o.None? then None else Some(o.value + 1)
  }

  /** The corrected scan finds the LF of the first CR LF after the bytes already scanned. */
  lemma {:induction false} ScanFixedFinds(s: seq<char>, i: nat, m: nat)
    requires i <= |s| && m < |EOL| && (m == 1 <==> 0 < i && s[i - 1] == '\r')
    ensures EolScanFixed(s, i, m) == Shift(FindFrom(s, EOL, i - m))
    decreases |s| - i
  {
    if i < |s| {
      if m == 1 && s[i] == '\n' {
        assert s[i - 1..i + 1] == EOL;
      } else {
        var m' := if s[i] == '\r' then 1 else 0;
        ScanFixedFinds(s, i + 1, m');
        if m == 1 {
          assert s[i - 1..i + 1] != EOL by {
            assert s[i - 1..i + 1][1] == s[i];
          }
        }
        if m' == 0 && i + |EOL| <= |s| {
          assert s[i..i + 2] != EOL by {
            assert s[i..i + 2][0] == s[i];
          }
        }
      }
    }
  }

  /** The corrected scan of a whole buffer finds its first CR LF. */
  lemma ScanFixedIsFind(s: seq<char>)
    ensures EolScanFixed(s, 0, 0) == Shift(Find(s, EOL))
  {
    ScanFixedFinds(s, 0, 0);
  }

  /** As written the scan misses the line end of "\r\r\n", which the corrected one finds. */
  lemma EolMissedAsWritten()
    ensures EolScan("\r\r\n", 0, 0) == None
    ensures Find("\r\r\n", EOL) == Some(1)
    ensures EolScanFixed("\r\r\n", 0, 0) == Some(2)
  {
    var s := "\r\r\n";
    assert Occurs(s, EOL, 1) by {
      assert s[1..3] == EOL;
    }
    assert !Occurs(s, EOL, 0) by {
      assert s[0..2][1] == s[1];
    }
    ScanFixedIsFind(s);
  }

  /** recv_new as written. With dataSize zero it returns 0 at once. Otherwise it ends the
      string at the CR of the line end it finds and returns the length of what follows
      from the LF on. */
  method RecvNew(data: array<char>, dataSize: int) returns (r: Scan)
    modifies data
    ensures dataSize == 0 ==> r == Count(0) && data[..] == old(data[..])
    ensures dataSize != 0 && EolScan(old(data[..]), 0, 0).None? ==>
      r == Overrun && data[..] == old(data[..])
    ensures dataSize != 0 && EolScan(old(data[..]), 0, 0).Some? ==>
      var k := EolScan(old(data[..]), 0, 0).value;
      && data[..] == old(data[..])[k - 1 := NUL]
      && r == Count(|CStr(old(data[..])[k..])|)
  {
    if dataSize == 0 {
      return Count(0);
    }
    var i, m := 0, 0;
    while i < data.Length
      invariant i <= data.Length && m < |EOL| && (m == 1 ==> 0 < i && data[i - 1] == '\r')
      invariant data[..] == old(data[..])
      invariant EolScan(data[..], i, m) == EolScan(data[..], 0, 0)
      decreases data.Length - i
    {
      if data[i] == EOL[m] {
        m := m + 1;
        if m == |EOL| {
          ghost var b := data[..];
          data[i - 1] := NUL;
          assert data[i..] == b[i..];
          return Count(|CStr(data[i..])|);
        }
      } else {
        m := 0;
      }
      i := i + 1;
    }
    return Overrun;
  }

  /** recv_new as evidently intended: it scans the dataSize bytes received, ends the
      string at the CR of the first CR LF among them and returns the length of the line
      before it; 0 when they hold no line end. */
  method RecvLine(data: array<char>, dataSize: nat) returns (n: nat)
    requires dataSize <= data.Length
    modifies data
    ensures Find(old(data[..dataSize]), EOL).None? ==> n == 0 && data[..] == old(data[..])
    ensures Find(old(data[..dataSize]), EOL).Some? ==>
      var f := Find(old(data[..dataSize]), EOL).value;
      && data[..] == old(data[..])[f := NUL]
      && n == |CStr(data[..])| && n <= f
      && (NUL !in old(data[..f]) ==> n == f)
  {
    ghost var s := data[..dataSize];
    ScanFixedIsFind(s);
    var i, m := 0, 0;
    while i < dataSize
      invariant i <= dataSize && m < |EOL| && (m == 1 <==> 0 < i && data[i - 1] == '\r')
      invariant data[..] == old(data[..])
      invariant EolScanFixed(s, i, m) == EolScanFixed(s, 0, 0)
      decreases dataSize - i
    {
      if data[i] == EOL[m] {
        m := m + 1;
        if m == |EOL| {
          ghost var b := data[..];
          data[i - 1] := NUL;
          n := |CStr(data[..])|;
          LineLength(b, i - 1);
          return;
        }
      } else {
        m := if data[i] == '\r' then 1 else 0;
      }
      i := i + 1;
    }
    return 0;
  }

  /** The C string of a buffer cut by a NUL at f is no longer than f, and is exactly f
      long when no NUL comes before f. */
  lemma LineLength(b: seq<char>, f: nat)
    requires f < |b|
    ensures |CStr(b[f := NUL])| <= f
    ensures NUL !in b[..f] ==> |CStr(b[f := NUL])| == f
  {
    var c := b[f := NUL];
    assert c[f] == NUL && NUL !in CStr(c) && CStr(c) <= c;
    if NUL !in b[..f] {
      forall j | 0 <= j < f
        ensures c[j] != NUL
      {
        assert c[j] == b[..f][j];
      }
      CStrUpTo(c, f);
    }
  }

  /** As written, a buffer "ab\r\n" followed by a NUL makes recv_new count the one byte
      from the LF on, where the line before the CR LF is two bytes long. */
  lemma RecvCountAsWritten()
    ensures EolScan("ab\r\n\0", 0, 0) == Some(3)
    ensures |CStr("ab\r\n\0"[3..])| == 1
    ensures |CStr("ab\r\n\0"[2 := NUL])| == 2
  {
    var s := "ab\r\n\0";
    assert s[3..] == "\n" + [NUL] + [];
    CStrOfTerminated("\n", []);
    assert s[2 := NUL] == "ab" + [NUL] + "\n\0";
    CStrOfTerminated("ab", "\n\0");
  }
}
