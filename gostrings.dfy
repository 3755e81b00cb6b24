/** The small failure-compatible wrapper used for the parser's error paths. */
module Wrappers {
  datatype Option<+T> = None | Some(value: T)
}

/**
 * The string helpers of Go's strings, unicode and fmt packages that the
 * media-type parser calls, restricted to what it uses: white space and
 * letter case are the ASCII subsets of unicode.IsSpace and strings.ToLower.
 */
module GoStrings {

  /** unicode.IsSpace on ASCII: tab, newline, vertical tab, form feed, carriage return, space. */
  predicate IsSpace(c: char) {
    c == ' ' || c == '\t' || c == '\n' || c == '\U{0B}' || c == '\U{0C}' || c == '\r'
  }

  predicate AllSpace(s: string) {
    forall i :: 0 <= i < |s| ==> IsSpace(s[i])
  }

  /** strings.TrimLeftFunc(s, unicode.IsSpace): the longest suffix of s that does not start with a space. */
  function TrimLeftSpace(s: string): (r: string)
    ensures |r| <= |s| && r == s[|s| - |r|..]
    ensures AllSpace(s[..|s| - |r|])
    ensures r == [] || !IsSpace(r[0])
  {
    if s != [] && IsSpace(s[0]) then TrimLeftSpace(s[1..]) else s
  }

  /** The white space TrimLeftSpace removes, as a prefix of s. */
  lemma TrimLeftSplit(s: string) returns (w: string)
    ensures AllSpace(w) && s == w + TrimLeftSpace(s)
  {
    var k := |s| - |TrimLeftSpace(s)|;
    w := s[..k];
    SplitAt(s, k);
  }

  /** s is its first k characters followed by the rest. */
  lemma SplitAt(s: string, k: nat)
    requires k <= |s|
    ensures s == s[..k] + s[k..]
  {
  }

  /** strings.TrimRightFunc(s, unicode.IsSpace): the longest prefix of s that does not end with a space. */
  function TrimRightSpace(s: string): (r: string)
    ensures |r| <= |s| && r == s[..|r|]
    ensures AllSpace(s[|r|..])
    ensures r == [] || !IsSpace(r[|r| - 1])
  {
    if s != [] && IsSpace(s[|s| - 1]) then TrimRightSpace(s[..|s| - 1]) else s
  }

  /**
   * strings.TrimSpace: both ends trimmed. The result neither starts nor
   * ends with white space, is no longer than s, and is empty when s is all
   * white space.
   */
  function TrimSpace(s: string): (r: string)
    ensures |r| <= |s|
    ensures r == [] || (!IsSpace(r[0]) && !IsSpace(r[|r| - 1]))
    ensures AllSpace(s) ==> r == []
  {
    TrimRightSpace(TrimLeftSpace(s))
  }

  /** Trimming removes exactly the surrounding white space. */
  lemma {:induction false} TrimSpaceOfPadded(a: string, m: string, b: string)
    requires AllSpace(a) && AllSpace(b)
    requires m != [] && !IsSpace(m[0]) && !IsSpace(m[|m| - 1])
    ensures TrimSpace(a + m + b) == m
  {
    TrimLeftOfPadded(a, m + b);
    assert TrimLeftSpace(a + m + b) == m + b by {
      assert a + m + b == a + (m + b);
    }
    TrimRightOfPadded(m, b);
  }

  lemma {:induction false} TrimLeftOfPadded(a: string, t: string)
    requires AllSpace(a)
    requires t == [] || !IsSpace(t[0])
    ensures TrimLeftSpace(a + t) == t
    decreases |a|
  {
    if a != [] {
      assert (a + t)[1..] == a[1..] + t;
      TrimLeftOfPadded(a[1..], t);
    }
  }

  lemma {:induction false} TrimRightOfPadded(t: string, b: string)
    requires AllSpace(b)
    requires t == [] || !IsSpace(t[|t| - 1])
    ensures TrimRightSpace(t + b) == t
    decreases |b|
  {
    if b != [] {
      assert (t + b)[..|t + b| - 1] == t + b[..|b| - 1];
      TrimRightOfPadded(t, b[..|b| - 1]);
    } else {
      assert t + b == t;
    }
  }

  /** unicode.ToLower on ASCII. */
  function LowerChar(c: char): char {
    if 'A' <= c <= 'Z' then (c as int + 32) as char else c
  }

  /** No ASCII upper-case letter in s. */
  predicate NoUpper(s: string) {
    forall i :: 0 <= i < |s| ==> !('A' <= s[i] <= 'Z')
  }

  /**
   * strings.ToLower on ASCII: the result has no upper-case letter, each
   * upper-case letter becomes its lower-case partner (32 code points
   * further on), every other character is kept, and a string that is
   * already lower-case comes back unchanged.
   */
  function ToLower(s: string): (r: string)
    ensures |r| == |s| && NoUpper(r)
    ensures forall i :: 0 <= i < |s| && 'A' <= s[i] <= 'Z' ==> r[i] as int == s[i] as int + 32
    ensures forall i :: 0 <= i < |s| && !('A' <= s[i] <= 'Z') ==> r[i] == s[i]
    ensures NoUpper(s) ==> r == s
  {
    seq(|s|, i requires 0 <= i < |s| => LowerChar(s[i]))
  }

  /** TrimSpace removes a white-space prefix and a white-space suffix, and nothing else. */
  lemma TrimSpaceSplit(s: string) returns (a: string, b: string)
    ensures AllSpace(a) && AllSpace(b)
    ensures s == a + (TrimSpace(s) + b)
  {
    var l := TrimLeftSpace(s);
    a := s[..|s| - |l|];
    SplitAt(s, |s| - |l|);
    var r := TrimRightSpace(l);
    b := l[|r|..];
    SplitAt(l, |r|);
  }

  /** strings.Index(s, string(c)): the first position of c, or -1. */
  function IndexByte(s: string, c: char): (i: int)
    ensures -1 <= i < |s|
    ensures i == -1 <==> c !in s
    ensures 0 <= i ==> s[i] == c && c !in s[..i]
  {
    if s == [] then -1
    else if s[0] == c then 0
    else
      var j := IndexByte(s[1..], c);
      assert s == [s[0]] + s[1..];
      if j == -1 then -1 else (assert s[..j + 1] == [s[0]] + s[1..][..j]; j + 1)
  }

  /**
   * strings.Split(s, sep, n) with n > 0: at most n pieces, split at the
   * first n - 1 separators; the last piece is the unsplit remainder.
   */
  function SplitN(s: string, sep: char, n: nat): (parts: seq<string>)
    requires n > 0
    ensures 1 <= |parts| <= n
    ensures forall j :: 0 <= j < |parts| ==> |parts[j]| <= |s|
    decreases n
  {
    var i := IndexByte(s, sep);
    if n == 1 || i == -1 then [s] else [s[..i]] + SplitN(s[i + 1..], sep, n - 1)
  }

  /** The first separator of a + ([sep] + t) is the one after a, when a holds none. */
  lemma IndexByteAfter(a: string, sep: char, t: string)
    requires sep !in a
    ensures IndexByte(a + ([sep] + t), sep) == |a|
  {
    var s := a + ([sep] + t);
    assert s[|a|] == sep;
    assert s[..|a|] == a;
  }

  /** Splitting where the first piece holds no separator peels that piece off. */
  lemma SplitNStep(a: string, sep: char, t: string, n: nat)
    requires sep !in a && n > 1
    ensures var p := SplitN(a + ([sep] + t), sep, n);
      |p| == 1 + |SplitN(t, sep, n - 1)| && p[0] == a
      && forall k :: 0 < k < |p| ==> p[k] == SplitN(t, sep, n - 1)[k - 1]
  {
    var s := a + ([sep] + t);
    IndexByteAfter(a, sep, t);
    assert s[..|a|] == a;
    assert s[|a| + 1..] == t;
  }

  /** Three pieces from a text with two separators whose first two parts hold none. */
  lemma SplitThree(a: string, b: string, c: string, sep: char)
    requires sep !in a && sep !in b
    ensures var p := SplitN(a + ([sep] + (b + ([sep] + c))), sep, 3);
      |p| == 3 && p[0] == a && p[1] == b && p[2] == c
  {
    SplitNStep(a, sep, b + ([sep] + c), 3);
    SplitNStep(b, sep, c, 2);
  }

  /** With fewer than two separators, Split(s, sep, 3) gives fewer than three pieces. */
  lemma SplitNShort(a: string, b: string, sep: char)
    requires sep !in a && sep !in b
    ensures |SplitN(a, sep, 3)| == 1
    ensures |SplitN(a + ([sep] + b), sep, 3)| == 2
  {
    SplitNStep(a, sep, b, 3);
  }

  /** s is what lies before position i, the character there, and what follows. */
  lemma AroundIndex(s: string, i: nat)
    requires i < |s|
    ensures s == s[..i] + ([s[i]] + s[i + 1..])
  {
  }

  /** The first two of three pieces hold no separator, and the two separators lie between them. */
  lemma SplitNThreeShape(s: string, sep: char)
    requires |SplitN(s, sep, 3)| == 3
    ensures var p := SplitN(s, sep, 3);
      s == p[0] + ([sep] + (p[1] + ([sep] + p[2]))) && sep !in p[0] && sep !in p[1]
  {
    var i := IndexByte(s, sep);
    var t := s[i + 1..];
    var j := IndexByte(t, sep);
    var p := SplitN(s, sep, 3);
    assert i != -1 && j != -1;
    assert p[0] == s[..i] && p[1] == t[..j] && p[2] == t[j + 1..];
    AroundIndex(s, i);
    AroundIndex(t, j);
  }

  function Digit(d: nat): char
    requires d < 10
  {
    ('0' as int + d) as char
  }

  function Pow10(k: nat): (p: nat)
    ensures p >= 1
  {
    if k == 0 then 1 else 10 * Pow10(k - 1)
  }

  lemma {:induction false} Pow10Monotonic(j: nat, k: nat)
    requires j <= k
    ensures Pow10(j) <= Pow10(k)
    decreases k
  {
    if j < k {
      Pow10Monotonic(j, k - 1);
    }
  }

  /** The number a text of decimal digits denotes, most significant digit first. */
  function DecValue(r: string): nat
    requires forall i :: 0 <= i < |r| ==> '0' <= r[i] <= '9'
  {
    if r == [] then 0 else 10 * DecValue(r[..|r| - 1]) + (r[|r| - 1] as int - '0' as int)
  }

  /** The decimal text fmt's %d gives a natural number; it has fewer digits than the number's magnitude. */
  function Itoa(n: nat): (r: string)
    ensures |r| >= 1
    ensures forall i :: 0 <= i < |r| ==> '0' <= r[i] <= '9'
    ensures n < Pow10(|r|)
    ensures |r| == 1 <==> n < 10
  {
    if n < 10 then [Digit(n)]
    else
      var r := Itoa(n / 10) + [Digit(n % 10)];
      assert n / 10 < Pow10(|r| - 1);
      r
  }

  /** The digits of Itoa(n) denote n, and they start with '0' only for 0 itself. */
  lemma {:induction false} ItoaValue(n: nat)
    ensures DecValue(Itoa(n)) == n
    ensures Itoa(n)[0] == '0' <==> n == 0
    decreases n
  {
    if n >= 10 {
      ItoaValue(n / 10);
      var r := Itoa(n);
      assert r == Itoa(n / 10) + [Digit(n % 10)];
      assert r[..|r| - 1] == Itoa(n / 10);
    }
  }

  /** Different numbers have different decimal texts: each text denotes its number. */
  lemma ItoaInjective(n: nat, m: nat)
    requires Itoa(n) == Itoa(m)
    ensures n == m
  {
    ItoaValue(n);
    ItoaValue(m);
  }

}
