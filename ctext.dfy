/**
 * The C-string vocabulary the application files of tinySOCK are written in:
 * a character buffer read up to its first NUL (strlen), a leading run of
 * characters of one kind (the digit and blank loops), decimal digits,
 * strncmp against a literal and strstr.
 */
module CText {
  import opened Wire

  const NUL: char := '\0'

  // ----- strlen -----------------------------------------------------------------------

  /** The C string a buffer holds: everything before its first NUL, all of it when it
      has none. */
  function CStr(a: seq<char>): (r: string)
    ensures NUL !in r && r <= a
    ensures |r| < |a| ==> a[|r|] == NUL
    decreases |a|
  {
    if |a| == 0 || a[0] == NUL then [] else [a[0]] + CStr(a[1..])
  }

  /** A buffer that already ends its text with a NUL reads back as that text. */
  lemma {:induction false} CStrOfTerminated(s: string, tail: seq<char>)
    requires NUL !in s
    ensures CStr(s + [NUL] + tail) == s
    decreases |s|
  {
    if |s| > 0 {
      assert (s + [NUL] + tail)[1..] == s[1..] + [NUL] + tail;
      CStrOfTerminated(s[1..], tail);
    }
  }

  /** A buffer whose first NUL is at k holds the text before it. */
  lemma {:induction false} CStrUpTo(b: seq<char>, k: nat)
    requires k < |b| && b[k] == NUL && forall j :: 0 <= j < k ==> b[j] != NUL
    ensures CStr(b) == b[..k]
    decreases k
  {
    if k > 0 {
      CStrUpTo(b[1..], k - 1);
      assert b[..k] == [b[0]] + b[1..][..k - 1];
    }
  }

  // ----- runs of one kind of character ------------------------------------------------

  /** The end of the run of characters satisfying p that starts at i: the loops
      `while (p(*ps)) ++ps`, where the end of the text stops them as its NUL would. */
  function Span(s: string, i: nat, p: char -> bool): (k: nat)
    requires i <= |s|
    ensures i <= k <= |s|
    ensures forall j :: i <= j < k ==> p(s[j])
    ensures k < |s| ==> !p(s[k])
    decreases |s| - i
  {
    if i == |s| || !p(s[i]) then i else Span(s, i + 1, p)
  }

  /** The run is determined by where p first fails. */
  lemma SpanAt(s: string, i: nat, p: char -> bool, k: nat)
    requires i <= k <= |s|
    requires forall j :: i <= j < k ==> p(s[j])
    requires k < |s| ==> !p(s[k])
    ensures Span(s, i, p) == k
  {
  }

  // ----- decimal digits ---------------------------------------------------------------

  predicate IsDigit(c: char) { '0' <= c <= '9' }

  predicate AllDigits(s: string) { forall i :: 0 <= i < |s| ==> IsDigit(s[i]) }

  /** The value of a run of decimal digits, most significant first. */
  function Decimal(s: string): nat
    requires AllDigits(s)
    decreases |s|
  {
    if |s| == 0 then 0 else 10 * Decimal(s[..|s| - 1]) + (s[|s| - 1] as int - '0' as int)
  }

  function DigitChar(d: nat): (c: char)
    requires d < 10
    ensures IsDigit(c) && c as int - '0' as int == d
  {
    ('0' as int + d) as char
  }

  /** The decimal rendering of n without leading zeros; 0 is "0". */
  function Render(n: nat): (r: string)
    ensures 1 <= |r| && AllDigits(r)
    ensures n < 10 <==> |r| == 1
    decreases n
  {
    if n < 10 then [DigitChar(n)] else Render(n / 10) + [DigitChar(n % 10)]
  }

  /** Reading a rendered number gives the number back. */
  lemma {:induction false} DecimalOfRender(n: nat)
    ensures Decimal(Render(n)) == n
    decreases n
  {
    if n >= 10 {
      var r := Render(n);
      assert r[..|r| - 1] == Render(n / 10);
      DecimalOfRender(n / 10);
    }
  }

  // ----- strncmp and strstr -------------------------------------------------------------

  /** strncmp(s, p, |p|) == 0 for a literal p that holds no NUL. */
  predicate StartsWith(s: string, p: string) { |p| <= |s| && s[..|p|] == p }

  /** pat occurs in s at index k. */
  predicate Occurs(s: string, pat: string, k: nat) { k + |pat| <= |s| && s[k..k + |pat|] == pat }

  /** strstr(s, pat), as the index of the first occurrence at or after i. */
  function FindFrom(s: string, pat: string, i: nat): (r: Option<nat>)
    ensures r.Some? ==> i <= r.value && Occurs(s, pat, r.value)
    ensures r.Some? ==> forall k :: i <= k < r.value ==> !Occurs(s, pat, k)
    ensures r.None? ==> forall k :: i <= k ==> !Occurs(s, pat, k)
    decreases |s| - i
  {
    if i + |pat| > |s| then None
    else if s[i..i + |pat|] == pat then Some(i)
    else FindFrom(s, pat, i + 1)
  }

  function Find(s: string, pat: string): (r: Option<nat>)
    ensures r.Some? <==> exists k :: Occurs(s, pat, k)
    ensures r.Some? ==> Occurs(s, pat, r.value) && forall k: nat :: k < r.value ==> !Occurs(s, pat, k)
  {
    FindFrom(s, pat, 0)
  }
}
