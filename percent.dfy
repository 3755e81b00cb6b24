/**
 * percentHexUnescape and its helpers ishex and unhex: "%XY" escapes, as in
 * the extended parameter values of RFC 2231. Strings are Go byte strings; a
 * char below 256 holds one byte.
 */
module MimePercent {
  import opened Wrappers
  import opened GoStrings

  /** ishex: an ASCII hexadecimal digit, in either case: a decimal digit, or a letter a-f once lowered. */
  function IsHex(c: char): (r: bool)
    ensures r <==> '0' <= c <= '9' || 'a' <= LowerChar(c) <= 'f'
  {
    ('0' <= c <= '9') || ('a' <= c <= 'f') || ('A' <= c <= 'F')
  }

  /** unhex: the value of a hexadecimal digit; 0 for any other byte. */
  function Unhex(c: char): (d: nat)
    ensures d < 16
    ensures !IsHex(c) ==> d == 0
  {
    if '0' <= c <= '9' then c as int - '0' as int
    else if 'a' <= c <= 'f' then c as int - 'a' as int + 10
    else if 'A' <= c <= 'F' then c as int - 'A' as int + 10
    else 0
  }

  /** Hexadecimal digits are read without regard to letter case. */
  lemma UnhexIgnoresCase(c: char)
    ensures IsHex(LowerChar(c)) <==> IsHex(c)
    ensures Unhex(LowerChar(c)) == Unhex(c)
  {
  }

  /**
   * The byte unhex(x)<<4 | unhex(y), computed on bytes as the source does.
   * Both digits are below 16, so the shift and the or add up without carry
   * (ShiftOrIsSum), and the byte is the two digits read as a base-16 number.
   */
  function HexByte(x: char, y: char): (b: char)
    ensures b as int == 16 * Unhex(x) + Unhex(y)
  {
    var hi := Unhex(x) as bv8;
    var lo := Unhex(y) as bv8;
    DigitAsByte(Unhex(x));
    DigitAsByte(Unhex(y));
    ShiftOrIsSum(hi, lo);
    (((hi << 4) | lo) as int) as char
  }

  /** A digit value converted to a byte keeps its value. */
  lemma DigitAsByte(d: nat)
    requires d < 16
    ensures (d as bv8) as int == d
  {
  }

  /** On bytes, hi<<4 | lo is 16 * hi + lo when both are below 16. */
  lemma ShiftOrIsSum(hi: bv8, lo: bv8)
    requires hi < 16 && lo < 16
    ensures ((hi << 4) | lo) as int == 16 * (hi as int) + lo as int
  {
  }

  /** The upper-case hexadecimal digit of a value below 16. */
  function HexDigit(d: nat): (c: char)
    requires d < 16
    ensures IsHex(c) && Unhex(c) == d
  {
    if d < 10 then ('0' as int + d) as char else ('A' as int + d - 10) as char
  }

  /** A '%' at position i of s that is not followed by two hexadecimal digits. */
  predicate BadPercentAt(s: string, i: int) {
    0 <= i < |s| && s[i] == '%' && !(i + 2 < |s| && IsHex(s[i + 1]) && IsHex(s[i + 2]))
  }

  /**
   * The unescaping that percentHexUnescape performs, read from the front:
   * every "%XY" with two hexadecimal digits becomes one byte, every other
   * byte stays; a '%' without two digits after it is an error.
   */
  function Unescape(s: string): (r: Option<string>)
    ensures r.Some? ==> |r.value| <= |s|
    decreases |s|
  {
    if s == [] then Some([])
    else if s[0] != '%' then
      match Unescape(s[1..])
      case None => None
      case Some(t) => Some([s[0]] + t)
    else if !(2 < |s| && IsHex(s[1]) && IsHex(s[2])) then None
    else
      match Unescape(s[3..])
      case None => None
      case Some(t) => Some([HexByte(s[1], s[2])] + t)
  }

  /** The number of '%' bytes of s. */
  function PercentCount(s: string): nat
    decreases |s|
  {
    if s == [] then 0 else (if s[0] == '%' then 1 else 0) + PercentCount(s[1..])
  }

  /** Unescaping fails exactly when some '%' lacks its two hexadecimal digits. */
  lemma {:induction false} UnescapeFailsIff(s: string)
    ensures Unescape(s).None? <==> exists i :: BadPercentAt(s, i)
    decreases |s|
  {
    if s == [] {
    } else if s[0] != '%' {
      BadPercentShift(s, 1);
      UnescapeFailsIff(s[1..]);
    } else if !(2 < |s| && IsHex(s[1]) && IsHex(s[2])) {
      assert BadPercentAt(s, 0);
    } else {
      assert !BadPercentAt(s, 0) && !BadPercentAt(s, 1) && !BadPercentAt(s, 2);
      BadPercentShift(s, 3);
      UnescapeFailsIff(s[3..]);
    }
  }

  /** The bad '%'s of s beyond its first k bytes are those of s[k..], moved by k. */
  lemma BadPercentShift(s: string, k: nat)
    requires k <= |s|
    requires forall i :: 0 <= i < k ==> !BadPercentAt(s, i)
    ensures (exists i :: BadPercentAt(s, i)) <==> (exists i :: BadPercentAt(s[k..], i))
  {
    if exists i :: BadPercentAt(s, i) {
      var i :| BadPercentAt(s, i);
      assert BadPercentAt(s[k..], i - k);
    }
    if exists i :: BadPercentAt(s[k..], i) {
      var i :| BadPercentAt(s[k..], i);
      assert BadPercentAt(s, i + k);
    }
  }

  /** Without '%', unescaping gives back its input. */
  lemma {:induction false} UnescapeNoPercent(s: string)
    requires PercentCount(s) == 0
    ensures Unescape(s) == Some(s)
    decreases |s|
  {
    if s != [] {
      UnescapeNoPercent(s[1..]);
      assert [s[0]] + s[1..] == s;
    }
  }

  /** Every escape shrinks three bytes to one. */
  lemma {:induction false} UnescapeLength(s: string)
    requires Unescape(s).Some?
    ensures |Unescape(s).value| == |s| - 2 * PercentCount(s)
    decreases |s|
  {
    if s != [] {
      if s[0] != '%' {
        UnescapeLength(s[1..]);
      } else {
        UnescapeLength(s[3..]);
        PercentCountOfEscape(s, 0);
        assert s[0..] == s;
      }
    }
  }

  /** Escaping every byte as "%XY" (the bytes are below 256). */
  function PercentEncode(x: string): string
    requires forall k :: 0 <= k < |x| ==> x[k] as int < 256
    decreases |x|
  {
    if x == [] then []
    else ['%', HexDigit(x[0] as int / 16), HexDigit(x[0] as int % 16)] + PercentEncode(x[1..])
  }

  /** Unescaping undoes escaping. */
  lemma {:induction false} UnescapePercentEncode(x: string)
    requires forall k :: 0 <= k < |x| ==> x[k] as int < 256
    ensures Unescape(PercentEncode(x)) == Some(x)
    decreases |x|
  {
    if x != [] {
      var s := PercentEncode(x);
      var hi := HexDigit(x[0] as int / 16);
      var lo := HexDigit(x[0] as int % 16);
      assert s[1] == hi && s[2] == lo;
      assert s[3..] == PercentEncode(x[1..]);
      UnescapePercentEncode(x[1..]);
      assert HexByte(hi, lo) == x[0];
      assert [x[0]] + x[1..] == x;
    }
  }

  // ---------------------------------------------------------------------
  // The imperative unescaper

  /** One step of the scan that checks the escapes: past a byte that is not '%'. */
  lemma ScanPlainStep(s: string, i: nat)
    requires i < |s| && s[i] != '%'
    ensures Unescape(s[i..]).Some? <==> Unescape(s[i + 1..]).Some?
    ensures PercentCount(s[i..]) == PercentCount(s[i + 1..])
  {
    assert s[i..][1..] == s[i + 1..];
  }

  /** One step of the scan that checks the escapes: past a well-formed escape. */
  lemma ScanEscapeStep(s: string, i: nat)
    requires i + 2 < |s| && s[i] == '%' && IsHex(s[i + 1]) && IsHex(s[i + 2])
    ensures Unescape(s[i..]).Some? <==> Unescape(s[i + 3..]).Some?
    ensures PercentCount(s[i..]) == 1 + PercentCount(s[i + 3..])
  {
    assert s[i..][3..] == s[i + 3..];
    PercentCountOfEscape(s, i);
  }

  /** A well-formed escape holds exactly one '%'. */
  lemma PercentCountOfEscape(s: string, i: nat)
    requires i + 2 < |s| && s[i] == '%' && IsHex(s[i + 1]) && IsHex(s[i + 2])
    ensures PercentCount(s[i..]) == 1 + PercentCount(s[i + 3..])
  {
    assert s[i..][1..] == s[i + 1..];
    assert s[i + 1..][1..] == s[i + 2..];
    assert s[i + 2..][1..] == s[i + 3..];
    assert PercentCount(s[i + 2..]) == PercentCount(s[i + 3..]);
    assert PercentCount(s[i + 1..]) == PercentCount(s[i + 2..]);
  }

  /** The escape the scan stops at makes the whole input fail. */
  lemma ScanBadStep(s: string, i: nat)
    requires i < |s| && s[i] == '%' && !(i + 2 < |s| && IsHex(s[i + 1]) && IsHex(s[i + 2]))
    ensures Unescape(s[i..]).None?
  {
  }

  /** One step of the copy: a byte that is not '%' is copied. */
  lemma CopyPlainStep(s: string, i: nat, done: string)
    requires i < |s| && s[i] != '%' && Unescape(s[i..]).Some?
    ensures Unescape(s[i + 1..]).Some?
    ensures done + Unescape(s[i..]).value == (done + [s[i]]) + Unescape(s[i + 1..]).value
  {
    assert s[i..][1..] == s[i + 1..];
  }

  /** One step of the copy: an escape becomes its byte. */
  lemma CopyEscapeStep(s: string, i: nat, done: string)
    requires i < |s| && s[i] == '%' && Unescape(s[i..]).Some?
    ensures i + 2 < |s|
    ensures Unescape(s[i + 3..]).Some?
    ensures done + Unescape(s[i..]).value
      == (done + [HexByte(s[i + 1], s[i + 2])]) + Unescape(s[i + 3..]).value
  {
    assert s[i..][3..] == s[i + 3..];
  }

  /**
   * percentHexUnescape: the first loop checks every escape and counts them,
   * the second copies into a buffer of the exact length. The error result
   * is reported as err; the text is then empty.
   */
  method PercentHexUnescape(s: string) returns (t: string, err: bool)
    ensures err <==> Unescape(s).None?
    ensures err ==> t == []
    ensures !err ==> t == Unescape(s).value
  {
    var percents := 0;
    var i := 0;
    while i < |s|
      invariant 0 <= i <= |s|
      invariant Unescape(s).Some? <==> Unescape(s[i..]).Some?
      invariant percents + PercentCount(s[i..]) == PercentCount(s)
    {
      if s[i] != '%' {
        ScanPlainStep(s, i);
        i := i + 1;
        continue;
      }
      percents := percents + 1;
      if i + 2 >= |s| || !IsHex(s[i + 1]) || !IsHex(s[i + 2]) {
        ScanBadStep(s, i);
        return [], true;
      }
      ScanEscapeStep(s, i);
      i := i + 3;
    }
    assert s[i..] == [];
    if percents == 0 {
      UnescapeNoPercent(s);
      return s, false;
    }
    UnescapeLength(s);
    var buf := new char[|s| - 2 * percents];
    var j := 0;
    i := 0;
    assert s[0..] == s;
    while i < |s|
      invariant 0 <= i <= |s| && 0 <= j <= buf.Length
      invariant Unescape(s[i..]).Some?
      invariant buf[..j] + Unescape(s[i..]).value == Unescape(s).value
      invariant j + |Unescape(s[i..]).value| == buf.Length
    {
      ghost var done := buf[..j];
      if s[i] == '%' {
        CopyEscapeStep(s, i, done);
        buf[j] := HexByte(s[i + 1], s[i + 2]);
        assert buf[..j + 1] == done + [HexByte(s[i + 1], s[i + 2])];
        j := j + 1;
        i := i + 3;
      } else {
        CopyPlainStep(s, i, done);
        buf[j] := s[i];
        assert buf[..j + 1] == done + [s[i]];
        j := j + 1;
        i := i + 1;
      }
    }
    return buf[..], false;
  }

  /** percentHexUnescape's text, the empty string on error, as decode2231Enc uses it. */
  function Unescaped(s: string): (r: string)
    ensures |r| <= |s|
  {
    match Unescape(s)
    case None => []
    case Some(t) => t
  }
}
