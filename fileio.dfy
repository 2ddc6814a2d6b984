/**
 * FILEIO.C: my_open, the FTP server's and client's way into the file system,
 * and the name clean-up it applies first. fixup_filename keeps the last path
 * component (after the last '/', then after the last '\\'), drops blanks,
 * control and non-ASCII characters, upper-cases letters and stops at a second
 * '.', copying into a static 42-character buffer that it never terminates.
 *
 * fopen is foreign: the model takes as parameters the names it would open
 * for reading and for writing. fileio.h is not part of this model, so the
 * open modes are kept symbolic.
 */
module FileIo {
  import opened Wire
  import opened CText

  /** sizeof fixed_filename */
  const FIXED_SIZE: nat := 42

  // ----- the name clean-up ---------------------------------------------------------------

  /** strrchr(s, c) + 1 when c occurs, s itself otherwise: the longest suffix without c. */
  function After(s: string, c: char): (r: string)
    ensures c !in r && |r| <= |s| && r == s[|s| - |r|..]
    ensures |r| < |s| ==> s[|s| - |r| - 1] == c
    decreases |s|
  {
    if |s| == 0 || s[|s| - 1] == c then [] else After(s[..|s| - 1], c) + [s[|s| - 1]]
  }

  /** The last path component of a name, as fixup_filename isolates it. */
  function Component(name: string): string
  {
    After(After(name, '/'), '\\')
  }

  /** The component holds neither separator, and it is a suffix of the name. */
  lemma ComponentHasNoSeparator(name: string)
    ensures '/' !in Component(name) && '\\' !in Component(name)
    ensures Component(name) == name[|name| - |Component(name)|..]
  {
    SuffixOfSuffix(name, After(name, '/'), Component(name));
  }

  lemma SuffixOfSuffix(a: string, b: string, c: string)
    requires |b| <= |a| && b == a[|a| - |b|..]
    requires |c| <= |b| && c == b[|b| - |c|..]
    ensures c == a[|a| - |c|..]
  {
    forall i | 0 <= i < |c|
      ensures c[i] == a[|a| - |c| + i]
    {
      assert c[i] == b[|b| - |c| + i];
    }
  }

  /** The characters the copy loop skips: `c <= ' ' || c > 126` on a signed char. */
  predicate Dropped(c: char) { c <= ' ' || c as int > 126 }

  predicate IsLower(c: char) { 'a' <= c <= 'z' }

  function Upper(c: char): (u: char)
    ensures !IsLower(u) && (IsLower(c) || u == c)
  {
    if IsLower(c) then (c as int - 32) as char else c
  }

  /** The number of dots in s. */
  function Dots(s: string): nat
    decreases |s|
  {
    if |s| == 0 then 0 else (if s[0] == '.' then 1 else 0) + Dots(s[1..])
  }

  /** r occurs in s in order, possibly with gaps. */
  predicate Subsequence(r: string, s: string)
    decreases |s|
  {
    |r| == 0 || (|s| > 0 && ((r[0] == s[0] && Subsequence(r[1..], s[1..])) || Subsequence(r, s[1..])))
  }

  /** s with every letter upper-cased. */
  function Uppered(s: string): (u: string)
    ensures |u| == |s|
  {
    seq(|s|, i requires 0 <= i < |s| => Upper(s[i]))
  }

  /** What the copy loop writes for the rest s of the component when `seen` dots have
      been copied: kept characters upper-cased, up to a second dot. */
  function Clean(s: string, seen: nat): (r: string)
    requires seen <= 1
    ensures |r| <= |s|
    decreases |s|
  {
    if |s| == 0 then []
    else
      var c := s[0];
      if Dropped(c) then Clean(s[1..], seen)
      else if c == '.' then
        if seen + 1 > 1 then [] else [c] + Clean(s[1..], seen + 1)
      else [Upper(c)] + Clean(s[1..], seen)
  }

  /** The cleaned text keeps, in order, upper-cased characters of s that are neither blank,
      control nor non-ASCII, and holds at most one dot counting those already copied. */
  lemma {:induction false} CleanKeeps(s: string, seen: nat)
    requires seen <= 1
    ensures var r := Clean(s, seen);
      && Dots(r) + seen <= 1
      && (forall i :: 0 <= i < |r| ==> !Dropped(r[i]) && !IsLower(r[i]))
      && Subsequence(r, Uppered(s))
    decreases |s|
  {
    if |s| > 0 {
      var c := s[0];
      assert Uppered(s)[1..] == Uppered(s[1..]);
      if Dropped(c) {
        CleanKeeps(s[1..], seen);
      } else if c == '.' {
        if seen == 0 {
          CleanKeeps(s[1..], 1);
          assert Clean(s, seen)[1..] == Clean(s[1..], 1);
        }
      } else {
        CleanKeeps(s[1..], seen);
        assert Clean(s, seen)[1..] == Clean(s[1..], seen);
      }
    }
  }

  /** A carriage return at the end of the text is skipped like any control character. */
  lemma {:induction false} CleanDropsCr(s: string, seen: nat)
    requires seen <= 1
    ensures Clean(s + "\r", seen) == Clean(s, seen)
    decreases |s|
  {
    var t := s + "\r";
    if |s| == 0 {
      assert t[1..] == [];
    } else {
      assert t[0] == s[0] && t[1..] == s[1..] + "\r";
      if Dropped(s[0]) || s[0] != '.' {
        CleanDropsCr(s[1..], seen);
      } else if seen == 0 {
        CleanDropsCr(s[1..], 1);
      }
    }
  }

  /** What fixup_filename makes of a name, when the buffer is read up to a NUL. */
  function Fixed(name: string): string
  {
    Clean(Component(name), 0)
  }

  /** The name handed to fopen has no separator, no blank or control character, no
      lower-case letter and at most one dot. */
  lemma FixedIsPlain(name: string)
    ensures var f := Fixed(name);
      && '/' !in f && '\\' !in f && Dots(f) <= 1
      && forall i :: 0 <= i < |f| ==> !Dropped(f[i]) && !IsLower(f[i])
  {
    var f, comp := Fixed(name), Component(name);
    ComponentHasNoSeparator(name);
    CleanKeeps(comp, 0);
    UpperedKeepsSeparatorsOut(comp);
    forall j | 0 <= j < |f|
      ensures f[j] != '/' && f[j] != '\\'
    {
      SubsequenceKeeps(f, Uppered(comp), j);
    }
  }

  /** Upper-casing introduces no separator. */
  lemma UpperedKeepsSeparatorsOut(s: string)
    requires '/' !in s && '\\' !in s
    ensures '/' !in Uppered(s) && '\\' !in Uppered(s)
  {
    var u := Uppered(s);
    forall i | 0 <= i < |u|
      ensures u[i] != '/' && u[i] != '\\'
    {
      assert u[i] == Upper(s[i]);
    }
  }

  /** Every character of a subsequence occurs in the sequence. */
  lemma {:induction false} SubsequenceKeeps(r: string, s: string, j: nat)
    requires Subsequence(r, s) && j < |r|
    ensures r[j] in s
    decreases |s|
  {
    if r[0] == s[0] && Subsequence(r[1..], s[1..]) {
      if j > 0 {
        SubsequenceKeeps(r[1..], s[1..], j - 1);
      }
    } else {
      SubsequenceKeeps(r, s[1..], j);
    }
  }

  /** The buffer after a call, when the cleaned name fits: the cleaned name over the
      front of what the buffer held before. */
  function Written(before: seq<char>, name: string): seq<char>
    requires |Fixed(name)| <= |before|
  {
    Over(before, Fixed(name))
  }

  /** Text t copied over the front of a buffer, without a terminator. */
  function Over(buf: seq<char>, t: string): seq<char>
    requires |t| <= |buf|
  {
    t + buf[|t|..]
  }

  /** Copying a shorter text over a longer one, in a buffer that was all NUL, leaves the
      longer one's tail readable behind the shorter one. */
  lemma OverTwice(z: seq<char>, l: string, s: string)
    requires |s| < |l| < |z| && NUL !in l && NUL !in s
    requires AllNul(z)
    ensures CStr(Over(Over(z, l), s)) == s + l[|s|..]
  {
    var rest := z[|l| + 1..];
    assert z[|l|..] == [NUL] + rest;
    assert Over(Over(z, l), s) == s + l[|s|..] + [NUL] + rest;
    CStrOfTerminated(s + l[|s|..], rest);
  }

  /** The cleaned name holds no NUL. */
  lemma FixedHasNoNul(name: string)
    ensures NUL !in Fixed(name)
  {
    CleanKeeps(Component(name), 0);
  }

  /** fixed_filename as the program starts: static storage is zero. */
  function Zeroed(): seq<char> { seq(FIXED_SIZE, _ => NUL) }

  /** A buffer that holds nothing but NULs, as Zeroed() does. */
  predicate AllNul(z: seq<char>) { forall i :: 0 <= i < |z| ==> z[i] == NUL }

  /** A name without the separator is its own suffix after it. */
  lemma {:induction false} AfterAbsent(s: string, c: char)
    requires c !in s
    ensures After(s, c) == s
    decreases |s|
  {
    if |s| > 0 {
      AfterAbsent(s[..|s| - 1], c);
    }
  }

  /** A component of kept characters without a dot is copied whole, upper-cased. */
  lemma {:induction false} CleanPlain(s: string, seen: nat)
    requires seen <= 1
    requires forall i :: 0 <= i < |s| ==> !Dropped(s[i]) && s[i] != '.'
    ensures Clean(s, seen) == Uppered(s)
    decreases |s|
  {
    if |s| > 0 {
      CleanPlain(s[1..], seen);
      assert Uppered(s) == [Upper(s[0])] + Uppered(s[1..]);
    }
  }

  /** A plain name, with neither separator, blank nor dot, is opened upper-cased. */
  lemma FixedPlain(name: string)
    requires '/' !in name && '\\' !in name
    requires forall i :: 0 <= i < |name| ==> !Dropped(name[i]) && name[i] != '.'
    ensures Fixed(name) == Uppered(name)
  {
    AfterAbsent(name, '/');
    AfterAbsent(name, '\\');
    CleanPlain(name, 0);
  }

  /** A name without lower-case letters is its own upper-casing. */
  lemma UpperedNoLower(s: string)
    requires forall i :: 0 <= i < |s| ==> !IsLower(s[i])
    ensures Uppered(s) == s
  {
  }

  /** The buffer is never terminated: from a zeroed buffer, a long name followed by a
      shorter one leaves the long name's tail behind the short one. */
  lemma StaleTail(z: seq<char>, long: string, short: string)
    requires |z| == FIXED_SIZE && AllNul(z)
    requires |Fixed(short)| < |Fixed(long)| < FIXED_SIZE
    ensures CStr(Written(Written(z, long), short))
         == Fixed(short) + Fixed(long)[|Fixed(short)|..]
  {
    FixedHasNoNul(long);
    FixedHasNoNul(short);
    OverTwice(z, Fixed(long), Fixed(short));
  }

  lemma FixedUpperName(name: string)
    requires '/' !in name && '\\' !in name
    requires forall i :: 0 <= i < |name| ==> !Dropped(name[i]) && name[i] != '.' && !IsLower(name[i])
    ensures Fixed(name) == name
  {
    FixedPlain(name);
    UpperedNoLower(name);
  }

  lemma FixedAbc()
    ensures Fixed("ABC") == "ABC"
  {
    FixedUpperName("ABC");
  }

  lemma FixedX()
    ensures Fixed("X") == "X"
  {
    FixedUpperName("X");
  }

  /** An instance: in the zeroed buffer, after "ABC" the name "X" opens "XBC". */
  lemma StaleTailExample(z: seq<char>)
    requires |z| == FIXED_SIZE && AllNul(z)
    ensures CStr(Written(Written(z, "ABC"), "X")) == "XBC" != Fixed("X")
  {
    FixedAbc();
    FixedX();
    StaleTail(z, "ABC", "X");
  }

  /** Writing x just past a prefix f. */
  lemma UpdateAfter(f: seq<char>, t: seq<char>, x: char)
    requires |t| > 0
    ensures (f + t)[|f| := x] == f + [x] + t[1..]
  {
  }

  /** With the terminator written, the buffer reads back as exactly the cleaned name. */
  lemma TerminatedReadsBack(before: seq<char>, name: string)
    requires |Fixed(name)| < |before|
    ensures CStr(Written(before, name)[|Fixed(name)| := NUL]) == Fixed(name)
  {
    var f := Fixed(name);
    var t := before[|f|..];
    UpdateAfter(f, t, NUL);
    FixedHasNoNul(name);
    CStrOfTerminated(f, t[1..]);
  }

  // ----- the static buffer and my_open -------------------------------------------------------

  /** The open modes of fileio.h. */
  datatype Mode = MyOpenRead | MyOpenWrite | OtherMode

  /** The FH my_open returns: 0, or the stream fopen opened for a name and an access string. */
  datatype Handle = NoFile | Stream(name: string, access: string)

  /** The copy loop's progress: k characters of the component read, p written, `seen`
      dots copied. */
  ghost predicate Copying(buf: seq<char>, before: seq<char>, comp: string, k: nat, p: nat, seen: nat)
  {
    && k <= |comp| && seen <= 1 && |before| == FIXED_SIZE
    && |Clean(comp, 0)| <= FIXED_SIZE && p <= |Clean(comp, 0)|
    && buf == Clean(comp, 0)[..p] + before[p..]
    && Clean(comp, 0)[p..] == Clean(comp[k..], seen)
  }

  /** A dropped character is skipped. */
  lemma CopySkip(buf: seq<char>, before: seq<char>, comp: string, k: nat, p: nat, seen: nat)
    requires Copying(buf, before, comp, k, p, seen) && k < |comp| && Dropped(comp[k])
    ensures Copying(buf, before, comp, k + 1, p, seen)
  {
    assert comp[k..][1..] == comp[k + 1..];
  }

  /** A second dot ends the name. */
  lemma CopyStop(buf: seq<char>, before: seq<char>, comp: string, k: nat, p: nat)
    requires Copying(buf, before, comp, k, p, 1) && k < |comp| && comp[k] == '.'
    ensures p == |Clean(comp, 0)| && buf == Clean(comp, 0) + before[p..]
  {
    assert Clean(comp, 0)[..p] == Clean(comp, 0);
  }

  /** The whole component read: everything cleaned has been written. */
  lemma CopyEnd(buf: seq<char>, before: seq<char>, comp: string, p: nat, seen: nat)
    requires Copying(buf, before, comp, |comp|, p, seen)
    ensures p == |Clean(comp, 0)| && buf == Clean(comp, 0) + before[p..]
  {
    assert comp[|comp|..] == [];
    assert Clean(comp, 0)[..p] == Clean(comp, 0);
  }

  /** Any other character is written upper-cased at p, a first dot counted. */
  lemma CopyWrite(buf: seq<char>, before: seq<char>, comp: string, k: nat, p: nat, seen: nat,
                  c: char, seen': nat)
    requires Copying(buf, before, comp, k, p, seen) && k < |comp| && !Dropped(comp[k])
    requires !(comp[k] == '.' && seen == 1)
    requires c == Upper(comp[k]) && seen' == if comp[k] == '.' then seen + 1 else seen
    ensures p < FIXED_SIZE && Copying(buf[p := c], before, comp, k + 1, p + 1, seen')
  {
    var whole := Clean(comp, 0);
    assert comp[k..][1..] == comp[k + 1..];
    assert whole[p] == c && whole[p + 1..] == whole[p..][1..];
    UpdateAfter(whole[..p], before[p..], c);
    assert whole[..p] + [c] == whole[..p + 1];
    assert before[p..][1..] == before[p + 1..];
  }

  class Names {
    /** the static fixed_filename */
    const fixed: array<char>

    constructor ()
      ensures fixed.Length == FIXED_SIZE && fixed[..] == Zeroed()
    {
      fixed := new char[FIXED_SIZE](_ => NUL);
    }

    /** The copy loop of fixup_filename over the component comp: returns where it stopped
        writing. */
    method Copy(comp: string) returns (p: nat)
      requires fixed.Length == FIXED_SIZE && |Clean(comp, 0)| <= FIXED_SIZE
      modifies fixed
      ensures p == |Clean(comp, 0)| && fixed[..] == Clean(comp, 0) + old(fixed[..])[p..]
    {
      ghost var before := fixed[..];
      var seen, k := 0, 0;
      p := 0;
      while k < |comp|
        invariant Copying(fixed[..], before, comp, k, p, seen)
        decreases |comp| - k
      {
        var c := comp[k];
        ghost var seen0 := seen;
        k := k + 1;
        if Dropped(c) {
          CopySkip(fixed[..], before, comp, k - 1, p, seen);
          continue;
        }
        if IsLower(c) {
          c := Upper(c);
        } else if c == '.' {
          seen := seen + 1;
          if seen > 1 {
            CopyStop(fixed[..], before, comp, k - 1, p);
            return;
          }
        }
        CopyWrite(fixed[..], before, comp, k - 1, p, seen0, c, seen);
        fixed[p] := c;
        p := p + 1;
      }
      CopyEnd(fixed[..], before, comp, p, seen);
    }

    /** fixup_filename: the name it returns is the buffer read up to its first NUL. */
    method FixupFilename(name: string) returns (r: string)
      requires fixed.Length == FIXED_SIZE && |Fixed(name)| <= FIXED_SIZE
      modifies fixed
      ensures fixed[..] == Written(old(fixed[..]), name) && r == CStr(fixed[..])
    {
      var p := Copy(Component(name));
      r := CStr(fixed[..]);
    }

    /** fixup_filename as evidently intended: the buffer is terminated after the copy, so
        the name returned is exactly the cleaned last component. */
    method FixupTerminated(name: string) returns (r: string)
      requires fixed.Length == FIXED_SIZE && |Fixed(name)| < FIXED_SIZE
      modifies fixed
      ensures r == Fixed(name)
    {
      ghost var before := fixed[..];
      var p := Copy(Component(name));
      fixed[p] := NUL;
      assert fixed[..] == Written(before, name)[p := NUL];
      TerminatedReadsBack(before, name);
      r := CStr(fixed[..]);
    }

    /** my_open: the name is fixed up whatever the mode; read and write open it with "rb"
        and "wb", any other mode gives 0. */
    method MyOpen(name: string, mode: Mode, readable: set<string>, writable: set<string>)
      returns (fh: Handle)
      requires fixed.Length == FIXED_SIZE && |Fixed(name)| <= FIXED_SIZE
      modifies fixed
      ensures fixed[..] == Written(old(fixed[..]), name)
      ensures var f := CStr(fixed[..]);
        && (mode == OtherMode ==> fh == NoFile)
        && (mode == MyOpenRead ==> fh == if f in readable then Stream(f, "rb") else NoFile)
        && (mode == MyOpenWrite ==> fh == if f in writable then Stream(f, "wb") else NoFile)
    {
      var f := FixupFilename(name);
      match mode
      case MyOpenRead =>
        fh := if f in readable then Stream(f, "rb") else NoFile;
      case MyOpenWrite =>
        fh := if f in writable then Stream(f, "wb") else NoFile;
      case OtherMode =>
        fh := NoFile;
    }
  }
}
