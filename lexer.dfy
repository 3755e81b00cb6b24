/**
 * The lexical layer of the media-type parser: tokens, values (a token or a
 * quoted-string with backslash escapes) and one "; name = value" clause.
 */
module MimeLexer {
  import opened Wrappers
  import opened GoStrings
  import opened MimeGrammar

  /** What a consumer took from the front of its input, and what is left. */
  datatype Consumed = Consumed(value: string, rest: string)

  /** One parameter clause: its name, its (de-quoted) value, and the remaining input. */
  datatype MediaParam = MediaParam(name: string, value: string, rest: string)

  /** rest is a suffix of s. */
  predicate IsSuffix(rest: string, s: string) {
    |rest| <= |s| && rest == s[|s| - |rest|..]
  }

  // ---------------------------------------------------------------------
  // Tokens

  /** strings.IndexFunc(v, isNotTokenChar): the first non-token position, or -1. */
  function IndexNotToken(v: string): (i: int)
    ensures -1 <= i < |v|
    ensures i == -1 ==> IsToken(v)
    ensures 0 <= i ==> IsToken(v[..i]) && !IsTokenChar(v[i])
  {
    if v == [] then -1
    else if !IsTokenChar(v[0]) then 0
    else
      var j := IndexNotToken(v[1..]);
      if j == -1 then -1 else (assert v[..j + 1] == [v[0]] + v[1..][..j]; j + 1)
  }

  /**
   * consumeToken: the longest token prefix of v, and the rest. The two
   * recombine into v, and the rest does not start with a token character.
   */
  function ConsumeToken(v: string): (r: Consumed)
    ensures r.value + r.rest == v
    ensures IsToken(r.value)
    ensures r.rest == [] || !IsTokenChar(r.rest[0])
    ensures (v == [] || !IsTokenChar(v[0])) ==> r == Consumed([], v)
  {
    var notPos := IndexNotToken(v);
    if notPos == -1 then Consumed(v, [])
    else if notPos == 0 then Consumed([], v)
    else Consumed(v[..notPos], v[notPos..])
  }

  lemma {:induction false} IndexNotTokenOfSplit(t: string, s: string)
    requires IsToken(t)
    requires s == [] || !IsTokenChar(s[0])
    ensures IndexNotToken(t + s) == if s == [] then -1 else |t|
    decreases |t|
  {
    if t != [] {
      assert (t + s)[1..] == t[1..] + s;
      IndexNotTokenOfSplit(t[1..], s);
    } else {
      assert t + s == s;
    }
  }

  /** The three properties of ConsumeToken determine its result: splitting t + s at the end of t. */
  lemma ConsumeTokenOfSplit(t: string, s: string)
    requires IsToken(t)
    requires s == [] || !IsTokenChar(s[0])
    ensures ConsumeToken(t + s) == Consumed(t, s)
  {
    IndexNotTokenOfSplit(t, s);
    assert (t + s)[..|t|] == t && (t + s)[|t|..] == s;
  }

  // ---------------------------------------------------------------------
  // Media type validation

  /**
   * validMediaTypeOrDisposition: a token, or token "/" token, and nothing
   * else. An accepted text is non-empty and starts and ends with a token
   * character, so it has neither white space nor a '/' at either end.
   */
  function ValidMediaTypeOrDisposition(s: string): (r: bool)
    ensures r ==> s != [] && IsTokenChar(s[0]) && IsTokenChar(s[|s| - 1])
  {
    var t := ConsumeToken(s);
    if t.value == [] then false
    else if t.rest == [] then true
    else if !(|t.rest| > 0 && t.rest[0] == '/') then false
    else
      var sub := ConsumeToken(t.rest[1..]);
      if sub.value == [] then false
      else sub.rest == []
  }

  /**
   * The shapes admitted by section 5.1 of RFC 2045 (type "/" subtype) and
   * section 2 of RFC 2183 (a disposition type, one token).
   */
  ghost predicate IsTypeOrTypeSlashSubtype(s: string) {
    || (s != [] && IsToken(s))
    || (exists k :: 0 < k < |s| - 1 && s[k] == '/' && IsToken(s[..k]) && IsToken(s[k + 1..]))
  }

  lemma ValidMediaTypeOrDispositionIff(s: string)
    ensures ValidMediaTypeOrDisposition(s) <==> IsTypeOrTypeSlashSubtype(s)
  {
    if ValidMediaTypeOrDisposition(s) {
      ValidMediaTypeHasShape(s);
    }
    if IsTypeOrTypeSlashSubtype(s) {
      ShapeIsValidMediaType(s);
    }
  }

  /** A valid media type is non-empty and made of token characters and '/'. */
  lemma ValidMediaTypeChars(s: string)
    requires ValidMediaTypeOrDisposition(s)
    ensures s != [] && forall i :: 0 <= i < |s| ==> IsTokenChar(s[i]) || s[i] == '/'
  {
    ValidMediaTypeHasShape(s);
    if !(s != [] && IsToken(s)) {
      var k :| 0 < k < |s| - 1 && s[k] == '/' && IsToken(s[..k]) && IsToken(s[k + 1..]);
      forall i | 0 <= i < |s|
        ensures IsTokenChar(s[i]) || s[i] == '/'
      {
        if i < k {
          assert s[..k][i] == s[i];
        } else if i > k {
          assert s[k + 1..][i - k - 1] == s[i];
        }
      }
    }
  }

  lemma ValidMediaTypeHasShape(s: string)
    requires ValidMediaTypeOrDisposition(s)
    ensures IsTypeOrTypeSlashSubtype(s)
  {
    var t := ConsumeToken(s);
    if t.rest != [] {
      var k := |t.value|;
      assert s[k] == '/';
      assert s[..k] == t.value;
      assert s[k + 1..] == t.rest[1..];
    }
  }

  lemma ShapeIsValidMediaType(s: string)
    requires IsTypeOrTypeSlashSubtype(s)
    ensures ValidMediaTypeOrDisposition(s)
  {
    if s != [] && IsToken(s) {
      TypeIsValid(s);
    } else {
      var k :| 0 < k < |s| - 1 && s[k] == '/' && IsToken(s[..k]) && IsToken(s[k + 1..]);
      AroundIndex(s, k);
      TypeSlashSubtypeIsValid(s[..k], s[k + 1..]);
    }
  }

  lemma TypeIsValid(t: string)
    requires t != [] && IsToken(t)
    ensures ValidMediaTypeOrDisposition(t)
  {
    ConsumeTokenOfSplit(t, []);
    assert t + [] == t;
  }

  lemma TypeSlashSubtypeIsValid(t: string, u: string)
    requires t != [] && IsToken(t) && u != [] && IsToken(u)
    ensures ValidMediaTypeOrDisposition(t + ("/" + u))
  {
    assert !IsTokenChar('/');
    ConsumeTokenOfSplit(t, "/" + u);
    assert ("/" + u)[1..] == u;
    ConsumeTokenOfSplit(u, []);
    assert u + [] == u;
  }

  // ---------------------------------------------------------------------
  // Values

  /** A de-quoted quoted-string: its text and the position of its closing quote. */
  datatype Unquoted = Unquoted(text: string, close: nat)

  /**
   * The body of a quoted-string opened by the quote q, read from position i
   * of s: the characters up to the first unescaped q, each backslash escape
   * \x standing for x, and the position of that q. An unescaped CR or LF,
   * and input that ends first, leave the quoted-string unclosed.
   */
  function UnquoteAt(q: char, s: string, i: nat): (r: Option<Unquoted>)
    decreases |s| - i
  {
    if i >= |s| then None
    else if s[i] == q then Some(Unquoted([], i))
    else if s[i] == '\\' then
      if i + 1 == |s| then None
      else Prepend([s[i + 1]], UnquoteAt(q, s, i + 2))
    else if s[i] == '\r' || s[i] == '\n' then None
    else Prepend([s[i]], UnquoteAt(q, s, i + 1))
  }

  /** A closed quoted-string ends at a quote character at or after where it started. */
  lemma {:induction false} UnquoteAtCloses(q: char, s: string, i: nat)
    ensures var r := UnquoteAt(q, s, i); r.Some? ==> i <= r.value.close < |s| && s[r.value.close] == q
    decreases |s| - i
  {
    if i < |s| && s[i] != q {
      if s[i] == '\\' && i + 1 < |s| {
        UnquoteAtCloses(q, s, i + 2);
      } else if s[i] != '\\' {
        UnquoteAtCloses(q, s, i + 1);
      }
    }
  }

  function Prepend(text: string, r: Option<Unquoted>): Option<Unquoted> {
    match r
    case None => None
    case Some(u) => Some(Unquoted(text + u.text, u.close))
  }

  predicate IsQuote(c: char) {
    c == '"' || c == '\''
  }

  /**
   * consumeValue as a function: a token, or a quoted-string opened by " or '
   * and closed by the same quote, de-quoted. A quoted-string that does not
   * close gives ("", v). The rest is always a suffix of v.
   */
  function ConsumedValue(v: string): (r: Consumed)
    ensures IsSuffix(r.rest, v)
    ensures r.value == [] && r.rest != v ==> v != [] && IsQuote(v[0])
  {
    if v == [] || !IsQuote(v[0]) then ConsumeToken(v)
    else
      UnquoteAtCloses(v[0], v, 1);
      match UnquoteAt(v[0], v, 1)
      case None => Consumed([], v)
      case Some(u) => Consumed(u.text, v[u.close + 1..])
  }

  lemma PrependPrepend(a: string, b: string, r: Option<Unquoted>)
    ensures Prepend(a, Prepend(b, r)) == Prepend(a + b, r)
  {
    if r.Some? {
      assert a + (b + r.value.text) == a + b + r.value.text;
    }
  }

  lemma PrependEmpty(r: Option<Unquoted>)
    ensures Prepend([], r) == r
  {
    if r.Some? {
      assert [] + r.value.text == r.value.text;
    }
  }

  /** consumeValue: the quoted-string loop appends to a buffer while it tracks "the next character is literal". */
  method ConsumeValue(v: string) returns (value: string, rest: string)
    ensures Consumed(value, rest) == ConsumedValue(v)
  {
    if !(|v| > 0 && v[0] == '"') && !(|v| > 0 && v[0] == '\'') {
      var t := ConsumeToken(v);
      return t.value, t.rest;
    }
    var leadQuote := v[0];
    rest := v[1..];
    ghost var goal := UnquoteAt(leadQuote, v, 1);
    var buffer: string := [];
    var nextIsLiteral := false;
    var idx := 0;
    PrependEmpty(goal);
    ghost var pos := 1;
    while idx < |rest|
      invariant 0 <= idx <= |rest|
      invariant pos == if nextIsLiteral then idx else idx + 1
      invariant nextIsLiteral ==> 1 <= idx && v[idx] == '\\'
      invariant goal == Prepend(buffer, UnquoteAt(leadQuote, v, pos))
    {
      var c := rest[idx];
      if nextIsLiteral {
        UnquoteEscapeStep(leadQuote, v, idx, buffer, goal);
        buffer := buffer + [c];
        nextIsLiteral := false;
        pos := idx + 2;
      } else if c == leadQuote {
        UnquoteCloseStep(leadQuote, v, idx + 1, buffer, goal);
        return buffer, rest[idx + 1..];
      } else if c == '\\' {
        nextIsLiteral := true;
      } else if c != '\r' && c != '\n' {
        UnquotePlainStep(leadQuote, v, idx + 1, buffer, goal);
        buffer := buffer + [c];
        pos := idx + 2;
      } else {
        UnquoteBreakStep(leadQuote, v, idx + 1, buffer, goal);
        return [], v;
      }
      idx := idx + 1;
    }
    UnquoteEndStep(leadQuote, v, pos, buffer, goal);
    return [], v;
  }

  /** An escaped character joins the text read so far. */
  lemma UnquoteEscapeStep(q: char, s: string, i: nat, buffer: string, goal: Option<Unquoted>)
    requires IsQuote(q) && i + 1 < |s| && s[i] == '\\'
    requires goal == Prepend(buffer, UnquoteAt(q, s, i))
    ensures goal == Prepend(buffer + [s[i + 1]], UnquoteAt(q, s, i + 2))
  {
    PrependPrepend(buffer, [s[i + 1]], UnquoteAt(q, s, i + 2));
  }

  /** A character that is neither the quote, a backslash, CR nor LF joins the text read so far. */
  lemma UnquotePlainStep(q: char, s: string, i: nat, buffer: string, goal: Option<Unquoted>)
    requires i < |s| && s[i] != q && s[i] != '\\' && s[i] != '\r' && s[i] != '\n'
    requires goal == Prepend(buffer, UnquoteAt(q, s, i))
    ensures goal == Prepend(buffer + [s[i]], UnquoteAt(q, s, i + 1))
  {
    PrependPrepend(buffer, [s[i]], UnquoteAt(q, s, i + 1));
  }

  /** The closing quote ends the text read so far. */
  lemma UnquoteCloseStep(q: char, s: string, i: nat, buffer: string, goal: Option<Unquoted>)
    requires i < |s| && s[i] == q
    requires goal == Prepend(buffer, UnquoteAt(q, s, i))
    ensures goal == Some(Unquoted(buffer, i))
  {
    assert buffer + [] == buffer;
  }

  /** An unescaped CR or LF makes the quoted-string malformed. */
  lemma UnquoteBreakStep(q: char, s: string, i: nat, buffer: string, goal: Option<Unquoted>)
    requires i < |s| && s[i] != q && s[i] != '\\' && (s[i] == '\r' || s[i] == '\n')
    requires goal == Prepend(buffer, UnquoteAt(q, s, i))
    ensures goal == None
  {
  }

  /** Running out of input, possibly right after a backslash, leaves the quoted-string unterminated. */
  lemma UnquoteEndStep(q: char, s: string, i: nat, buffer: string, goal: Option<Unquoted>)
    requires IsQuote(q)
    requires i == |s| || (i + 1 == |s| && s[i] == '\\')
    requires goal == Prepend(buffer, UnquoteAt(q, s, i))
    ensures goal == None
  {
  }


  /** The backslash escaping a quoted-string body needs so that Unquote gives x back. */
  predicate NeedsEscape(q: char, c: char) {
    c == q || c == '\\' || c == '\r' || c == '\n'
  }

  function Quote(q: char, x: string): string
    decreases |x|
  {
    if x == [] then []
    else (if NeedsEscape(q, x[0]) then ['\\', x[0]] else [x[0]]) + Quote(q, x[1..])
  }

  /** De-quoting inverts quoting: the closing quote is the one after the escaped body. */
  lemma {:induction false} UnquoteQuote(q: char, p: string, x: string, rest: string)
    requires IsQuote(q)
    ensures UnquoteAt(q, p + Quote(q, x) + [q] + rest, |p|) == Some(Unquoted(x, |p| + |Quote(q, x)|))
    decreases |x|
  {
    var s := p + Quote(q, x) + [q] + rest;
    if x == [] {
      assert s[|p|] == q;
    } else {
      var chunk := if NeedsEscape(q, x[0]) then ['\\', x[0]] else [x[0]];
      assert Quote(q, x) == chunk + Quote(q, x[1..]);
      assert s == (p + chunk) + Quote(q, x[1..]) + [q] + rest;
      UnquoteQuote(q, p + chunk, x[1..], rest);
      assert s[|p|] == chunk[0];
      if NeedsEscape(q, x[0]) {
        assert s[|p| + 1] == x[0];
      }
      assert [x[0]] + x[1..] == x;
    }
  }

  /** An unescaped CR or LF inside a quoted-string: it does not close. */
  lemma {:induction false} UnquoteQuoteBreak(q: char, p: string, x: string, c: char, rest: string)
    requires IsQuote(q) && (c == '\r' || c == '\n')
    ensures UnquoteAt(q, p + Quote(q, x) + [c] + rest, |p|) == None
    decreases |x|
  {
    var s := p + Quote(q, x) + [c] + rest;
    if x == [] {
      assert s[|p|] == c;
    } else {
      var chunk := if NeedsEscape(q, x[0]) then ['\\', x[0]] else [x[0]];
      assert Quote(q, x) == chunk + Quote(q, x[1..]);
      assert s == (p + chunk) + Quote(q, x[1..]) + [c] + rest;
      UnquoteQuoteBreak(q, p + chunk, x[1..], c, rest);
      assert s[|p|] == chunk[0];
    }
  }

  /** A quoted-string whose input ends before the closing quote does not close. */
  lemma {:induction false} UnquoteQuoteUnclosed(q: char, p: string, x: string)
    requires IsQuote(q)
    ensures UnquoteAt(q, p + Quote(q, x), |p|) == None
    decreases |x|
  {
    var s := p + Quote(q, x);
    if x != [] {
      var chunk := if NeedsEscape(q, x[0]) then ['\\', x[0]] else [x[0]];
      assert Quote(q, x) == chunk + Quote(q, x[1..]);
      assert s == (p + chunk) + Quote(q, x[1..]);
      UnquoteQuoteUnclosed(q, p + chunk, x[1..]);
      assert s[|p|] == chunk[0];
    }
  }

  /** A CR or LF before the closing quote: consumeValue gives ("", v). */
  lemma ConsumedValueOfBroken(q: char, x: string, c: char, rest: string)
    requires IsQuote(q) && (c == '\r' || c == '\n')
    ensures var v := [q] + Quote(q, x) + [c] + rest; ConsumedValue(v) == Consumed([], v)
  {
    UnquoteQuoteBreak(q, [q], x, c, rest);
  }

  /** No closing quote: consumeValue gives ("", v). */
  lemma ConsumedValueOfUnclosed(q: char, x: string)
    requires IsQuote(q)
    ensures var v := [q] + Quote(q, x); ConsumedValue(v) == Consumed([], v)
  {
    UnquoteQuoteUnclosed(q, [q], x);
  }

  /** A quoted value reads back as the text it quotes, and the input after the closing quote is the rest. */
  lemma ConsumedValueOfQuoted(q: char, x: string, rest: string)
    requires IsQuote(q)
    ensures ConsumedValue([q] + Quote(q, x) + [q] + rest) == Consumed(x, rest)
  {
    var v := [q] + Quote(q, x) + [q] + rest;
    UnquoteQuote(q, [q], x, rest);
    assert v[|Quote(q, x)| + 2..] == rest;
  }

  /** Off a quote, consumeValue is consumeToken. */
  lemma ConsumedValueOfUnquoted(v: string)
    requires v == [] || !IsQuote(v[0])
    ensures ConsumedValue(v) == ConsumeToken(v)
  {
  }

  // ---------------------------------------------------------------------
  // Parameters

  /** consumeMediaParam: ";" name "=" value, with white space allowed around each part. */
  function ConsumeMediaParam(v: string): (r: MediaParam)
    ensures r.name == [] ==> r == MediaParam([], [], v)
    ensures r.name != [] ==> IsToken(r.name) && r.value != [] && |r.rest| < |v|
  {
    var rest := TrimLeftSpace(v);
    if !(|rest| > 0 && rest[0] == ';') then MediaParam([], [], v)
    else
      var rest := TrimLeftSpace(rest[1..]);
      var p := ConsumeToken(rest);
      if p.value == [] then MediaParam([], [], v)
      else
        var rest := TrimLeftSpace(p.rest);
        if !(|rest| > 0 && rest[0] == '=') then MediaParam([], [], v)
        else
          var rest := TrimLeftSpace(rest[1..]);
          var value := ConsumedValue(rest);
          if value.value == [] then MediaParam([], [], v)
          else MediaParam(p.value, value.value, value.rest)
  }

  /** s is w + t for the prefix w that t is a suffix after. */
  lemma SplitAtSuffix(s: string, t: string) returns (w: string)
    requires IsSuffix(t, s)
    ensures s == w + t
  {
    w := s[..|s| - |t|];
  }

  /** Re-associates the eight pieces of a clause. */
  lemma AssembleClause(v: string, a: string, b: string, p: string, c: string, d: string,
                       w1: string, w2: string, w3: string, w4: string, name: string, raw: string, rest: string)
    requires v == w1 + a && a != [] && a[0] == ';' && a[1..] == w2 + b && b == name + p && p == w3 + c
    requires c != [] && c[0] == '=' && c[1..] == w4 + d && d == raw + rest
    ensures v == w1 + (";" + (w2 + (name + (w3 + ("=" + (w4 + (raw + rest)))))))
  {
    assert a == ";" + a[1..];
    assert c == "=" + c[1..];
  }

  /**
   * A successful clause accounts for all of v: white space, ";", white space,
   * the name, white space, "=", white space, and the raw text that reads as
   * the value, followed by the rest.
   */
  lemma ConsumeMediaParamShape(v: string) returns (w1: string, w2: string, w3: string, w4: string, raw: string)
    requires ConsumeMediaParam(v).name != []
    ensures AllSpace(w1) && AllSpace(w2) && AllSpace(w3) && AllSpace(w4)
    ensures var r := ConsumeMediaParam(v);
      && v == w1 + (";" + (w2 + (r.name + (w3 + ("=" + (w4 + (raw + r.rest)))))))
      && ConsumedValue(raw + r.rest) == Consumed(r.value, r.rest)
  {
    var r := ConsumeMediaParam(v);
    var a := TrimLeftSpace(v);
    var b := TrimLeftSpace(a[1..]);
    var p := ConsumeToken(b);
    var c := TrimLeftSpace(p.rest);
    var d := TrimLeftSpace(c[1..]);
    var value := ConsumedValue(d);
    assert r == MediaParam(p.value, value.value, value.rest);
    w1 := TrimLeftSplit(v);
    w2 := TrimLeftSplit(a[1..]);
    w3 := TrimLeftSplit(p.rest);
    w4 := TrimLeftSplit(c[1..]);
    raw := SplitAtSuffix(d, value.rest);
    AssembleClause(v, a, b, p.rest, c, d, w1, w2, w3, w4, r.name, raw, r.rest);
  }

  /** consumeMediaParam's steps on v, stated one by one: the clause they read. */
  lemma ConsumeMediaParamSteps(v: string, s1: string, s2: string, name: string, t: string, s3: string, s4: string)
    requires TrimLeftSpace(v) == s1 && s1 != [] && s1[0] == ';'
    requires TrimLeftSpace(s1[1..]) == s2 && ConsumeToken(s2) == Consumed(name, t) && name != []
    requires TrimLeftSpace(t) == s3 && s3 != [] && s3[0] == '='
    requires TrimLeftSpace(s3[1..]) == s4 && ConsumedValue(s4).value != []
    ensures ConsumeMediaParam(v) == MediaParam(name, ConsumedValue(s4).value, ConsumedValue(s4).rest)
  {
  }

  /** A value that reads as non-empty text does not start with white space. */
  lemma ConsumedValueStart(v: string)
    requires ConsumedValue(v).value != []
    ensures v != [] && !IsSpace(v[0])
  {
  }

  /** Skipping white space, a separator and white space again, as consumeMediaParam does around ";" and "=". */
  lemma SeparatorStep(w: string, sep: char, w': string, t: string)
    requires AllSpace(w) && AllSpace(w') && !IsSpace(sep)
    requires t == [] || !IsSpace(t[0])
    ensures TrimLeftSpace(w + ([sep] + (w' + t))) == [sep] + (w' + t)
    ensures TrimLeftSpace(([sep] + (w' + t))[1..]) == t
  {
    TrimLeftOfPadded(w, [sep] + (w' + t));
    assert ([sep] + (w' + t))[1..] == w' + t;
    TrimLeftOfPadded(w', t);
  }

  /** White space followed by "=" does not start with a token character. */
  lemma NoTokenStart(w: string, t: string)
    requires AllSpace(w) && t != [] && t[0] == '='
    ensures !IsTokenChar((w + t)[0])
  {
    if w != [] {
      assert (w + t)[0] == w[0];
    }
  }

  /** A token followed by white space and "=" is consumed up to the white space. */
  lemma NameStep(name: string, w: string, t: string)
    requires name != [] && IsToken(name) && AllSpace(w)
    requires t != [] && t[0] == '='
    ensures ConsumeToken(name + (w + t)) == Consumed(name, w + t)
    ensures TrimLeftSpace(w + t) == t
    ensures !IsSpace((name + (w + t))[0])
  {
    assert (name + (w + t))[0] == name[0] && IsTokenChar(name[0]);
    TrimLeftOfPadded(w, t);
    NoTokenStart(w, t);
    ConsumeTokenOfSplit(name, w + t);
  }

  /**
   * The converse of ConsumeMediaParamShape: every text of that shape, with a
   * token for the name and a raw part that reads as a non-empty value, is a
   * clause with that name and value.
   */
  lemma ConsumeMediaParamOfClause(w1: string, w2: string, name: string, w3: string, w4: string, raw: string, rest: string)
    requires AllSpace(w1) && AllSpace(w2) && AllSpace(w3) && AllSpace(w4)
    requires name != [] && IsToken(name)
    requires ConsumedValue(raw + rest).value != [] && ConsumedValue(raw + rest).rest == rest
    ensures var v := w1 + (";" + (w2 + (name + (w3 + ("=" + (w4 + (raw + rest)))))));
      ConsumeMediaParam(v) == MediaParam(name, ConsumedValue(raw + rest).value, rest)
  {
    var s4 := raw + rest;
    var s3 := "=" + (w4 + s4);
    var s2 := name + (w3 + s3);
    var s1 := ";" + (w2 + s2);
    ConsumedValueStart(s4);
    SeparatorStep(w3, '=', w4, s4);
    NameStep(name, w3, s3);
    SeparatorStep(w1, ';', w2, s2);
    ConsumeMediaParamSteps(w1 + s1, s1, s2, name, w3 + s3, s3, s4);
  }

  /** The clause layout with no white space. */
  lemma ClauseWithoutSpace(name: string, u: string)
    ensures [] + (";" + ([] + (name + ([] + ("=" + ([] + u)))))) == ";" + (name + ("=" + u))
  {
  }

  /** Writing a clause with a quoted value and reading it back gives the name, the text and the rest. */
  lemma ConsumeMediaParamOfQuoted(name: string, q: char, x: string, rest: string)
    requires name != [] && IsToken(name)
    requires IsQuote(q) && x != []
    ensures ConsumeMediaParam(";" + (name + ("=" + ([q] + Quote(q, x) + [q] + rest)))) == MediaParam(name, x, rest)
  {
    ConsumedValueOfQuoted(q, x, rest);
    ConsumeMediaParamOfClause([], [], name, [], [], [q] + Quote(q, x) + [q], rest);
    ClauseWithoutSpace(name, [q] + Quote(q, x) + [q] + rest);
  }
}
