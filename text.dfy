/**
 * The parts of Python's string and path handling the pipeline relies on:
 * `str.lower`, `os.path.splitext`, `os.path.basename` (POSIX flavour) and
 * the decimal rendering of a non-negative integer.
 */
module Text {

  /**
   * `str.lower` on one character, for the ASCII letters and for U+212A
   * KELVIN SIGN, which Python lowers to an ASCII 'k'.
   */
  function LowerChar(c: char): char
  {
    if 'A' <= c <= 'Z' then (c as int + 32) as char
    else if c == '\U{212A}' then 'k'
    else c
  }

  function Lower(s: string): (r: string)
    ensures |r| == |s|
    ensures forall i :: 0 <= i < |s| ==> r[i] == LowerChar(s[i])
  {
    if |s| == 0 then [] else [LowerChar(s[0])] + Lower(s[1..])
  }

  /** Python's `s.rfind(c)`: the last position holding `c`, or -1. */
  function LastIndexOf(s: string, c: char): (r: int)
    ensures -1 <= r < |s|
    ensures r >= 0 ==> s[r] == c
    ensures forall i :: r < i < |s| ==> s[i] != c
  {
    if |s| == 0 then -1
    else if s[|s| - 1] == c then |s| - 1
    else LastIndexOf(s[..|s| - 1], c)
  }

  /** The two postconditions of LastIndexOf determine it. */
  lemma LastIndexOfUnique(s: string, c: char, r: int)
    requires -1 <= r < |s|
    requires r >= 0 ==> s[r] == c
    requires forall i :: r < i < |s| ==> s[i] != c
    ensures LastIndexOf(s, c) == r
  {
  }

  /** Some position strictly between `lo` and `hi` holds a character other than '.'. */
  predicate NonDotBetween(p: string, lo: int, hi: int)
    requires -1 <= lo && hi <= |p|
  {
    exists i :: lo < i < hi && p[i] != '.'
  }

  /**
   * The extension half of `os.path.splitext(p)`: from the last '.' of the
   * last path component to the end, provided that component has a character
   * other than '.' before that dot (so ".bashrc" and "..jpg" have none).
   */
  function SplitExt(p: string): (ext: string)
    ensures ext != [] ==> ext[0] == '.' && |ext| <= |p| && ext == p[|p| - |ext|..]
    ensures forall i :: 1 <= i < |ext| ==> ext[i] != '.' && ext[i] != '/'
    ensures ext != [] ==> NonDotBetween(p, LastIndexOf(p, '/'), |p| - |ext|)
  {
    var sep := LastIndexOf(p, '/');
    var dot := LastIndexOf(p, '.');
    if sep < dot && NonDotBetween(p, sep, dot) then p[dot..] else []
  }

  /** `os.path.basename(p)`: everything after the last '/'. */
  function Basename(p: string): (b: string)
    ensures |b| <= |p| && b == p[|p| - |b|..]
    ensures forall i :: 0 <= i < |b| ==> b[i] != '/'
  {
    p[LastIndexOf(p, '/') + 1..]
  }

  /** An extension `ext` the way `splitext` reports one: a dot, then no dot or '/'. */
  predicate IsExtension(ext: string)
  {
    |ext| >= 1 && ext[0] == '.' && forall i :: 1 <= i < |ext| ==> ext[i] != '.' && ext[i] != '/'
  }

  /**
   * Joining a stem whose last component is not all dots with an extension,
   * then splitting, gives the extension back: `splitext` inverts `stem + ext`.
   */
  lemma SplitExtOfJoin(stem: string, ext: string)
    requires IsExtension(ext)
    requires NonDotBetween(stem, LastIndexOf(stem, '/'), |stem|)
    ensures SplitExt(stem + ext) == ext
  {
    var p := stem + ext;
    var sep := LastIndexOf(stem, '/');
    assert forall i :: |stem| <= i < |p| ==> p[i] == ext[i - |stem|];
    assert forall i :: |stem| < i < |p| ==> p[i] != '.';
    LastIndexOfUnique(p, '.', |stem|);
    assert forall i :: sep < i < |stem| ==> p[i] == stem[i] && p[i] != '/';
    assert forall i :: |stem| <= i < |p| ==> p[i] != '/';
    LastIndexOfUnique(p, '/', sep);
    var i :| sep < i < |stem| && stem[i] != '.';
    assert p[i] == stem[i];
    assert NonDotBetween(p, sep, |stem|);
    assert p[|stem|..] == ext;
  }

  function DigitChar(d: nat): char
    requires d < 10
  {
    ('0' as int + d) as char
  }

  /** Python's `str(n)` for a non-negative integer. */
  function NatToString(n: nat): (s: string)
    ensures |s| >= 1
    ensures |s| == 1 <==> n < 10
    ensures forall i :: 0 <= i < |s| ==> '0' <= s[i] <= '9'
  {
    if n < 10 then [DigitChar(n)] else NatToString(n / 10) + [DigitChar(n % 10)]
  }

  /** Different numbers print differently. */
  lemma {:induction false} NatToStringInjective(a: nat, b: nat)
    requires NatToString(a) == NatToString(b)
    ensures a == b
  {
    if a >= 10 && b >= 10 {
      var sa, sb := NatToString(a), NatToString(b);
      assert sa[..|sa| - 1] == NatToString(a / 10);
      assert sb[..|sb| - 1] == NatToString(b / 10);
      NatToStringInjective(a / 10, b / 10);
      assert DigitChar(a % 10) == sa[|sa| - 1] == sb[|sb| - 1] == DigitChar(b % 10);
    }
  }
}
