/** Facts about the strings the services build: cache keys and the sort order of names. */
module Strings {

  /** The string contains no path separator, as a UUID does not. */
  predicate SlashFree(s: string) {
    '/' !in s
  }

  /** Lexicographic order on code points; a prefix comes first. */
  predicate LexLe(a: string, b: string) {
    |a| == 0 || (|b| > 0 && (a[0] < b[0] || (a[0] == b[0] && LexLe(a[1..], b[1..]))))
  }

  lemma {:induction false} LexLeTotal(a: string, b: string)
    ensures LexLe(a, b) || LexLe(b, a)
  {
    if |a| > 0 && |b| > 0 && a[0] == b[0] {
      LexLeTotal(a[1..], b[1..]);
    }
  }

  lemma {:induction false} LexLeTransitive(a: string, b: string, c: string)
    requires LexLe(a, b) && LexLe(b, c)
    ensures LexLe(a, c)
  {
    if |a| > 0 && |b| > 0 && |c| > 0 && a[0] == b[0] && b[0] == c[0] {
      LexLeTransitive(a[1..], b[1..], c[1..]);
    }
  }

  /** The number of path separators in a string. */
  function Slashes(s: string): (n: nat)
    ensures n == 0 <==> SlashFree(s)
  {
    if s == [] then 0 else (if s[0] == '/' then 1 else 0) + Slashes(s[1..])
  }

  lemma {:induction false} SlashesConcat(a: string, b: string)
    ensures Slashes(a + b) == Slashes(a) + Slashes(b)
  {
    if a != [] {
      assert (a + b)[0] == a[0];
      assert (a + b)[1..] == a[1..] + b;
      SlashesConcat(a[1..], b);
    } else {
      assert a + b == b;
    }
  }

  /** The position of the first separator, or the length when there is none. */
  function FirstSlash(s: string): (n: nat)
    ensures n <= |s|
    ensures forall i :: 0 <= i < n ==> s[i] != '/'
    ensures n < |s| ==> s[n] == '/'
  {
    if |s| == 0 || s[0] == '/' then 0 else 1 + FirstSlash(s[1..])
  }

  lemma {:induction false} FirstSlashAfter(x: string, r: string)
    requires SlashFree(x) && |r| > 0 && r[0] == '/'
    ensures FirstSlash(x + r) == |x|
  {
    if |x| > 0 {
      assert (x + r)[1..] == x[1..] + r;
      FirstSlashAfter(x[1..], r);
    }
  }

  /**
   * A template `pre + x + mid + y + suf` whose middle part starts with a separator can be
   * read back: the first hole is everything up to the first separator after `pre`.
   */
  lemma TemplateInjective(pre: string, mid: string, suf: string, x1: string, y1: string, x2: string, y2: string)
    requires |mid| > 0 && mid[0] == '/'
    requires SlashFree(x1) && SlashFree(x2)
    requires pre + x1 + mid + y1 + suf == pre + x2 + mid + y2 + suf
    ensures x1 == x2 && y1 == y2
  {
    var s := pre + x1 + mid + y1 + suf;
    var t := pre + x2 + mid + y2 + suf;
    var rest := s[|pre|..];
    assert rest == x1 + (mid + y1 + suf);
    assert rest == x2 + (mid + y2 + suf);
    FirstSlashAfter(x1, mid + y1 + suf);
    FirstSlashAfter(x2, mid + y2 + suf);
    assert x1 == s[|pre|..|pre| + |x1|];
    assert x2 == t[|pre|..|pre| + |x2|];
    var start := |pre| + |x1| + |mid|;
    assert |y1| == |y2|;
    assert y1 == s[start..start + |y1|];
    assert y2 == t[start..start + |y2|];
  }
}
