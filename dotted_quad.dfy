/**
 * parse_IP of TINYSOCK.C: the ping tool's reader for a typed address such as
 * "192.168.1.2". It walks the string once, turns every '.' into a NUL in
 * place, converts each component with atoi into the next byte of a four-byte
 * stack array and packs the four bytes with ADDR.
 *
 * The array is not initialised: a string with fewer than four components
 * leaves the remaining bytes as the stack held them, which the model takes
 * as the parameter `stack`. The component index stops at 4, so a fifth
 * component writes ib[4], past the array; the model stops there with None.
 */
module DottedQuad {
  import opened Wire
  import opened CText

  // ----- atoi ------------------------------------------------------------------------

  /** isspace in the C locale. */
  predicate IsSpace(c: char) { c == ' ' || 9 <= c as int <= 13 }

  /** atoi: blanks, an optional sign, then the leading decimal digits; no digits is 0. */
  function Atoi(s: string): int
  {
    var i := Span(s, 0, IsSpace);
    var j := if i < |s| && (s[i] == '-' || s[i] == '+') then i + 1 else i;
    var k := Span(s, j, IsDigit);
    var v: int := Decimal(s[j..k]);
    if i < |s| && s[i] == '-' then -v else v
  }

  /** The (Byte) conversion of an int: modulo 256, two's complement for a negative one. */
  function ToByte(x: int): Byte { x % 0x100 }

  /** atoi reads a rendered number back, and its byte is the number's low byte. */
  lemma AtoiOfRender(n: nat)
    ensures Atoi(Render(n)) == n && ToByte(Atoi(Render(n))) == n % 0x100
  {
    var r := Render(n);
    SpanAt(r, 0, IsSpace, 0);
    SpanAt(r, 0, IsDigit, |r|);
    assert r[0..|r|] == r;
    DecimalOfRender(n);
  }

  // ----- components ---------------------------------------------------------------------

  predicate NotDot(c: char) { c != '.' }

  /** The '.'-separated components of s; the empty string has one, empty, component. */
  function Fields(s: string): (r: seq<string>)
    ensures |r| >= 1
    decreases |s|
  {
    var k := Span(s, 0, NotDot);
    if k == |s| then [s] else [s[..k]] + Fields(s[k + 1..])
  }

  /** The components joined back with '.'. */
  function Join(fs: seq<string>): string
    requires |fs| >= 1
  {
    if |fs| == 1 then fs[0] else fs[0] + "." + Join(fs[1..])
  }

  /** Splitting and joining are inverse: the string is its components joined ... */
  lemma {:induction false} JoinFields(s: string)
    ensures Join(Fields(s)) == s
    decreases |s|
  {
    var k := Span(s, 0, NotDot);
    if k < |s| {
      JoinFields(s[k + 1..]);
      assert s == s[..k] + "." + s[k + 1..];
    }
  }

  /** ... and dot-free components are what splitting their join gives back. */
  lemma {:induction false} FieldsJoin(fs: seq<string>)
    requires |fs| >= 1 && forall i :: 0 <= i < |fs| ==> '.' !in fs[i]
    ensures Fields(Join(fs)) == fs
    decreases |fs|
  {
    var s := Join(fs);
    if |fs| == 1 {
      SpanAt(s, 0, NotDot, |s|);
    } else {
      var rest := Join(fs[1..]);
      assert s == fs[0] + "." + rest;
      assert s[|fs[0]|] == '.';
      SpanAt(s, 0, NotDot, |fs[0]|);
      assert s[..|fs[0]|] == fs[0] && s[|fs[0]| + 1..] == rest;
      FieldsJoin(fs[1..]);
    }
  }

  // ----- the specification ----------------------------------------------------------------

  /** ib after the loop: one atoi per component, the stack's bytes for the rest. */
  function Bytes(stack: seq<Byte>, fs: seq<string>): (ib: seq<Byte>)
    requires |stack| == 4 && |fs| <= 4
    ensures |ib| == 4
  {
    seq(4, j requires 0 <= j < 4 => if j < |fs| then ToByte(Atoi(fs[j])) else stack[j])
  }

  /** What parse_IP returns for the string s: None when a fifth component would be
      written past ib. */
  function Parse(s: string, stack: seq<Byte>): (r: Option<Longword>)
    requires |stack| == 4
    ensures r.None? <==> |Fields(s)| > 4
  {
    var fs := Fields(s);
    if |fs| > 4 then None
    else
      var ib := Bytes(stack, fs);
      Some(Addr(ib[0], ib[1], ib[2], ib[3]))
  }

  /** Four dot-free components pack their atoi bytes, most significant first. */
  lemma ParseFour(fs: seq<string>, stack: seq<Byte>)
    requires |fs| == 4 && |stack| == 4 && forall i :: 0 <= i < 4 ==> '.' !in fs[i]
    ensures Parse(Join(fs), stack)
      == Some(Addr(ToByte(Atoi(fs[0])), ToByte(Atoi(fs[1])), ToByte(Atoi(fs[2])), ToByte(Atoi(fs[3]))))
  {
    FieldsJoin(fs);
  }

  lemma RenderHasNoDot(n: nat)
    ensures '.' !in Render(n)
  {
  }

  lemma JoinFour(w: string, x: string, y: string, z: string)
    ensures Join([w, x, y, z]) == w + "." + x + "." + y + "." + z
  {
    assert [w, x, y, z][1..] == [x, y, z] && [x, y, z][1..] == [y, z] && [y, z][1..] == [z];
    assert Join([y, z]) == y + "." + z;
    assert Join([x, y, z]) == x + "." + (y + "." + z);
    assert Join([w, x, y, z]) == w + "." + (x + "." + (y + "." + z));
  }

  lemma ByteOfRender(b: Byte)
    ensures ToByte(Atoi(Render(b))) == b
  {
    AtoiOfRender(b);
  }

  /** "a.b.c.d" is ADDR(a,b,c,d), whatever the stack held. */
  lemma ParseDottedQuad(a: Byte, b: Byte, c: Byte, d: Byte, stack: seq<Byte>)
    requires |stack| == 4
    ensures Parse(Render(a) + "." + Render(b) + "." + Render(c) + "." + Render(d), stack)
      == Some(Addr(a, b, c, d))
  {
    var fs := [Render(a), Render(b), Render(c), Render(d)];
    RenderHasNoDot(a);
    RenderHasNoDot(b);
    RenderHasNoDot(c);
    RenderHasNoDot(d);
    JoinFour(Render(a), Render(b), Render(c), Render(d));
    ParseFour(fs, stack);
    ByteOfRender(a);
    ByteOfRender(b);
    ByteOfRender(c);
    ByteOfRender(d);
  }

  /** With fewer than four components the last byte of the address is whatever the
      stack held. */
  lemma ShortAddressShowsStack(s: string, stack: seq<Byte>)
    requires |stack| == 4 && |Fields(s)| < 4
    ensures Parse(s, stack).Some? && Ip4B(Parse(s, stack).value) == stack[3]
  {
    var ib := Bytes(stack, Fields(s));
    assert ib[3] == stack[3];
    assert Parse(s, stack) == Some(Addr(ib[0], ib[1], ib[2], ib[3]));
    AddrRoundTrip(ib[0], ib[1], ib[2], ib[3], 0);
  }

  // ----- the loop --------------------------------------------------------------------------

  /** b is the buffer a with every '.' before position n turned into a NUL. */
  ghost predicate CutBefore(b: seq<char>, a: seq<char>, n: nat)
  {
    |b| == |a| && forall j :: 0 <= j < |a| ==> b[j] == (if j < n && a[j] == '.' then NUL else a[j])
  }

  /** The component of s that starts at t ends at the first '.' from t. */
  lemma FieldsAt(s: string, t: nat, i: nat)
    requires t <= i <= |s| && (i < |s| ==> s[i] == '.')
    requires forall j :: t <= j < i ==> s[j] != '.'
    ensures i < |s| ==> Fields(s[t..]) == [s[t..i]] + Fields(s[i + 1..])
    ensures i == |s| ==> Fields(s[t..]) == [s[t..i]]
  {
    var u := s[t..];
    SpanAt(u, 0, NotDot, i - t);
    assert u[..i - t] == s[t..i];
    if i < |s| {
      assert Fields(u) == [u[..i - t]] + Fields(u[i - t + 1..]);
      assert u[i - t + 1..] == s[i + 1..];
    } else {
      assert u[..i - t] == u;
    }
  }

  /** Splitting s from the start t of a component yields that component next. */
  lemma FieldsFrom(s: string, t: nat, i: nat, done: seq<string>, whole: seq<string>)
    requires t <= i <= |s| && (i < |s| ==> s[i] == '.')
    requires forall j :: t <= j < i ==> s[j] != '.'
    requires whole == done + Fields(s[t..])
    ensures i < |s| ==> whole == (done + [s[t..i]]) + Fields(s[i + 1..])
    ensures i == |s| ==> whole == done + [s[t..i]]
  {
    FieldsAt(s, t, i);
    if i < |s| {
      var f, rest := s[t..i], Fields(s[i + 1..]);
      assert done + ([f] + rest) == (done + [f]) + rest;
    }
  }

  /** When the loop has written the NUL at i, atoi at t sees exactly s[t..i]. */
  lemma AtTerminator(a: seq<char>, b: seq<char>, s: string, t: nat, i: nat)
    requires |s| < |a| && s == a[..|s|] && a[|s|] == NUL && NUL !in s
    requires t <= i <= |s| && (i < |s| ==> s[i] == '.')
    requires forall j :: t <= j < i ==> s[j] != '.'
    requires CutBefore(b, a, i + 1)
    ensures CStr(b[t..]) == s[t..i]
  {
    var u := b[t..];
    assert u[i - t] == b[i] == NUL;
    forall j | 0 <= j < i - t
      ensures u[j] == s[t + j] && u[j] != NUL
    {
      assert a[t + j] == s[t + j];
    }
    CStrUpTo(u, i - t);
    assert u[..i - t] == s[t..i];
  }

  /** s is the C string in the buffer a. */
  ghost predicate Holds(a: seq<char>, s: string)
  {
    |s| < |a| && s == a[..|s|] && a[|s|] == NUL && NUL !in s
  }

  /** The state of the loop of parse_IP before position i of the buffer b: the component
      under way starts at t, the finished ones are done and fill the first n bytes of ib. */
  ghost predicate Scanned(b: seq<char>, a: seq<char>, s: string, stack: seq<Byte>, i: nat, t: nat,
                          n: nat, ib: seq<Byte>, done: seq<string>)
  {
    && t <= i <= |s| + 1
    && CutBefore(b, a, i)
    && (forall j :: t <= j < i && j < |s| ==> s[j] != '.')
    && (i <= |s| ==> Fields(s) == done + Fields(s[t..]))
    && (i == |s| + 1 ==> Fields(s) == done)
    && n == |done| <= 4 && |stack| == 4 && ib == Bytes(stack, done)
  }

  /** One more position of the walk: a '.' becomes a NUL, anything else stays. */
  lemma CutNext(b: seq<char>, a: seq<char>, i: nat, c: char)
    requires CutBefore(b, a, i) && i < |a| && c == (if a[i] == '.' then NUL else a[i])
    ensures CutBefore(b[i := c], a, i + 1)
  {
  }

  /** One more component converted into ib. */
  lemma BytesNext(stack: seq<Byte>, done: seq<string>, f: string)
    requires |stack| == 4 && |done| < 4
    ensures Bytes(stack, done)[|done| := ToByte(Atoi(f))] == Bytes(stack, done + [f])
  {
  }

  /** A character that ends no component. */
  lemma SkipStep(b: seq<char>, a: seq<char>, s: string, stack: seq<Byte>, i: nat, t: nat,
                 n: nat, ib: seq<Byte>, done: seq<string>)
    requires Holds(a, s) && Scanned(b, a, s, stack, i, t, n, ib, done)
    requires i <= |s| && b[i] != NUL && b[i] != '.'
    ensures Scanned(b, a, s, stack, i + 1, t, n, ib, done)
  {
    CutNext(b, a, i, b[i]);
    assert b[i := b[i]] == b;
  }

  /** A terminator while ib has room: its component becomes byte n. */
  lemma StoreStep(b: seq<char>, b': seq<char>, a: seq<char>, s: string, stack: seq<Byte>, i: nat,
                  t: nat, n: nat, ib: seq<Byte>, done: seq<string>, x: Byte)
    requires Holds(a, s) && Scanned(b, a, s, stack, i, t, n, ib, done)
    requires i <= |s| && (b[i] == NUL || b[i] == '.') && n < 4
    requires CutBefore(b', a, i + 1) && x == ToByte(Atoi(s[t..i]))
    ensures Scanned(b', a, s, stack, i + 1, i + 1, n + 1, ib[n := x], done + [s[t..i]])
  {
    FieldsFrom(s, t, i, done, Fields(s));
    BytesNext(stack, done, s[t..i]);
  }

  /** A terminator when ib is full: s has a fifth component. */
  lemma FifthStep(b: seq<char>, a: seq<char>, s: string, stack: seq<Byte>, i: nat, t: nat,
                  n: nat, ib: seq<Byte>, done: seq<string>)
    requires Holds(a, s) && Scanned(b, a, s, stack, i, t, n, ib, done)
    requires i <= |s| && (b[i] == NUL || b[i] == '.') && n == 4
    ensures |Fields(s)| > 4
  {
    FieldsFrom(s, t, i, done, Fields(s));
  }

  /** The loop at a terminator: `*s = 0`, then atoi of the component that starts at t,
      as the byte ib receives. */
  method Terminate(str: array<char>, t: nat, i: nat, ghost a: seq<char>, ghost s: string)
    returns (x: Byte)
    requires Holds(a, s) && str.Length == |a| && t <= i <= |s| && (i < |s| ==> s[i] == '.')
    requires forall j :: t <= j < i ==> s[j] != '.'
    requires CutBefore(str[..], a, i)
    modifies str
    ensures CutBefore(str[..], a, i + 1) && x == ToByte(Atoi(s[t..i]))
  {
    CutNext(str[..], a, i, NUL);
    str[i] := NUL;
    AtTerminator(a, str[..], s, t, i);
    x := ToByte(Atoi(CStr(str[t..])));
  }

  /** Cutting changes nothing but dots into NULs. */
  lemma CutOnlyDots(b: seq<char>, a: seq<char>, n: nat)
    requires CutBefore(b, a, n)
    ensures forall j :: 0 <= j < |b| ==> b[j] == a[j] || (a[j] == '.' && b[j] == NUL)
  {
  }

  /** The for loop of parse_IP over the l = strlen + 1 positions of s and its NUL: true with
      the filled ib when every component found a byte of ib, false at the fifth one. */
  method Scan(str: array<char>, stack: seq<Byte>, l: nat, ghost a: seq<char>, ghost s: string)
    returns (ok: bool, ib: seq<Byte>, ghost reached: nat)
    requires Holds(a, s) && str.Length == |a| && l == |s| + 1 && |stack| == 4 && str[..] == a
    modifies str
    ensures CutBefore(str[..], a, reached)
    ensures ok <==> |Fields(s)| <= 4
    ensures ok ==> reached == l && ib == Bytes(stack, Fields(s))
  {
    var n, t := 0, 0;
    ib := stack;
    ghost var done: seq<string> := [];
    var i := 0;
    while i < l
      invariant i <= l && Scanned(str[..], a, s, stack, i, t, n, ib, done)
    {
      if str[i] == NUL || str[i] == '.' {
        ghost var b := str[..];
        var x := Terminate(str, t, i, a, s);
        if n == 4 {
          // ib[4] is past the end of the array
          FifthStep(b, a, s, stack, i, t, n, ib, done);
          return false, ib, i + 1;
        }
        StoreStep(b, str[..], a, s, stack, i, t, n, ib, done, x);
        ib := ib[n := x];
        if n < 4 { n := n + 1; }
        done := done + [s[t..i]];
        i := i + 1;
        t := i;
      } else {
        SkipStep(str[..], a, s, stack, i, t, n, ib, done);
        i := i + 1;
      }
    }
    return true, ib, i;
  }

  /** parse_IP on the NUL-terminated string in str, with stack the bytes ib starts with. */
  method ParseIp(str: array<char>, stack: seq<Byte>) returns (r: Option<Longword>)
    requires NUL in str[..] && |stack| == 4
    modifies str
    ensures r == Parse(CStr(old(str[..])), stack)
    ensures r.Some? ==> CutBefore(str[..], old(str[..]), |CStr(old(str[..]))| + 1)
    ensures forall j :: 0 <= j < str.Length ==> str[j] == old(str[j]) || (old(str[j]) == '.' && str[j] == NUL)
  {
    ghost var a := str[..];
    ghost var s := CStr(a);
    var l := |CStr(str[..])| + 1;
    assert s == a[..|s|];
    var ok, ib, reached := Scan(str, stack, l, a, s);
    CutOnlyDots(str[..], a, reached);
    if ok {
      r := Some(Addr(ib[0], ib[1], ib[2], ib[3]));
    } else {
      r := None;
    }
  }
}
