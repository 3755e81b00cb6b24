/**
 * RFC 2231 parameter values: decode2231Enc for texts of the form
 * charset'language'percent-encoded-value, and the stitching of the
 * continuations ("name*", "name*0", "name*1*", ...) that ParseMediaType
 * performs once all parameters are read.
 */
module MimeRfc2231 {
  import opened Wrappers
  import opened GoStrings
  import opened MimePercent

  /** The two character sets decode2231Enc accepts. */
  predicate SupportedCharset(charset: string) {
    charset == "us-ascii" || charset == "utf-8"
  }

  /**
   * decode2231Enc: split at the first two single quotes; with a supported
   * character set (in any letter case) the third part, percent-unescaped,
   * is the value. The language part is ignored. Every failure gives "".
   */
  function Decode2231Enc(v: string): (r: string)
    ensures |r| <= |v|
    ensures r != [] ==> '\'' in v
  {
    var sv := SplitN(v, '\'', 3);
    if |sv| != 3 then []
    else
      var charset := ToLower(sv[0]);
      if !SupportedCharset(charset) then []
      else Unescaped(sv[2])
  }

  /** A text with two quotes whose first two parts hold none decodes by its character set. */
  lemma Decode2231EncOf(charset: string, lang: string, value: string)
    requires '\'' !in charset && '\'' !in lang
    ensures Decode2231Enc(charset + ("'" + (lang + ("'" + value))))
      == if SupportedCharset(ToLower(charset)) then Unescaped(value) else []
  {
    SplitThree(charset, lang, value, '\'');
  }

  /** With fewer than two quotes, there is nothing to decode. */
  lemma Decode2231EncShort(a: string, b: string)
    requires '\'' !in a && '\'' !in b
    ensures Decode2231Enc(a) == []
    ensures Decode2231Enc(a + ("'" + b)) == []
  {
    SplitNShort(a, b, '\'');
  }

  /** A non-empty result comes from a charset'language'value text with a supported character set. */
  lemma Decode2231EncShape(v: string) returns (charset: string, lang: string, value: string)
    requires Decode2231Enc(v) != []
    ensures v == charset + ("'" + (lang + ("'" + value)))
    ensures '\'' !in charset && '\'' !in lang && SupportedCharset(ToLower(charset))
    ensures Decode2231Enc(v) == Unescaped(value)
  {
    var sv := SplitN(v, '\'', 3);
    SplitNThreeShape(v, '\'');
    charset, lang, value := sv[0], sv[1], sv[2];
  }

  /** Percent-encoding a value behind a supported character set and decoding it gives it back. */
  lemma Decode2231EncRoundTrip(charset: string, lang: string, x: string)
    requires '\'' !in charset && '\'' !in lang && SupportedCharset(ToLower(charset))
    requires forall k :: 0 <= k < |x| ==> x[k] as int < 256
    ensures Decode2231Enc(charset + ("'" + (lang + ("'" + PercentEncode(x))))) == x
  {
    Decode2231EncOf(charset, lang, PercentEncode(x));
    UnescapePercentEncode(x);
  }

  // ---------------------------------------------------------------------
  // Continuations

  /** fmt.Sprintf("%s*%d", key, n): the name of the n-th plain piece. */
  function SimplePart(key: string, n: nat): string {
    key + "*" + Itoa(n)
  }

  /** The name of the n-th percent-encoded piece. */
  function EncodedPart(key: string, n: nat): string {
    SimplePart(key, n) + "*"
  }

  /** The length of the longest of a set of names; it bounds the piece numbers present. */
  ghost function MaxLen(keys: set<string>): (m: nat)
    ensures forall k :: k in keys ==> |k| <= m
    decreases |keys|
  {
    if keys == {} then 0
    else
      var k :| k in keys;
      var m := MaxLen(keys - {k});
      if |k| > m then |k| else m
  }

  /** A piece number that is present is below 10 to the power of the longest name's length. */
  lemma PartBound(key: string, pieces: map<string, string>, n: nat)
    requires SimplePart(key, n) in pieces || EncodedPart(key, n) in pieces
    ensures n < Pow10(MaxLen(pieces.Keys))
  {
    var d := Itoa(n);
    assert |d| <= |SimplePart(key, n)| < |EncodedPart(key, n)|;
    Pow10Monotonic(|d|, MaxLen(pieces.Keys));
  }

  /** The text of piece n: a plain piece as it is, an encoded one decoded (piece 0 with its charset prefix). */
  function PieceText(key: string, pieces: map<string, string>, n: nat): (r: string)
    requires SimplePart(key, n) in pieces || EncodedPart(key, n) in pieces
    ensures SimplePart(key, n) !in pieces ==> |r| <= |pieces[EncodedPart(key, n)]|
  {
    if SimplePart(key, n) in pieces then pieces[SimplePart(key, n)]
    else if n == 0 then Decode2231Enc(pieces[EncodedPart(key, n)])
    else Unescaped(pieces[EncodedPart(key, n)])
  }

  /** The pieces from number n on, up to the first number with neither a plain nor an encoded piece. */
  function Joined(key: string, pieces: map<string, string>, n: nat): string
    decreases Pow10(MaxLen(pieces.Keys)) - n
  {
    if SimplePart(key, n) in pieces || EncodedPart(key, n) in pieces then
      PartBound(key, pieces, n);
      PieceText(key, pieces, n) + Joined(key, pieces, n + 1)
    else []
  }

  /**
   * The stitched value of one base name: a lone "name*" piece decoded, or
   * the joined pieces when piece 0 exists, or nothing.
   */
  function StitchValue(key: string, pieces: map<string, string>): (r: Option<string>)
    ensures r.Some? <==> key + "*" in pieces || SimplePart(key, 0) in pieces || EncodedPart(key, 0) in pieces
    ensures key + "*" in pieces ==> r.value == Decode2231Enc(pieces[key + "*"])
  {
    if key + "*" in pieces then Some(Decode2231Enc(pieces[key + "*"]))
    else if SimplePart(key, 0) in pieces || EncodedPart(key, 0) in pieces then Some(Joined(key, pieces, 0))
    else None
  }

  /** The stitched values of the base names among done that receive one. */
  function StitchedValues(cont: map<string, map<string, string>>, done: set<string>): map<string, string> {
    map k | k in done && k in cont && StitchValue(k, cont[k]).Some? :: StitchValue(k, cont[k]).value
  }

  /** params after the base names in done are stitched in: their stitched values replace what params held. */
  function Stitch(params: map<string, string>, cont: map<string, map<string, string>>, done: set<string>): (r: map<string, string>)
    ensures forall k :: k in r <==> k in params || (k in done && k in cont && StitchValue(k, cont[k]).Some?)
    ensures forall k :: k in done && k in cont && StitchValue(k, cont[k]).Some? ==> r[k] == StitchValue(k, cont[k]).value
    ensures forall k :: k in params && !(k in done && k in cont && StitchValue(k, cont[k]).Some?) ==> r[k] == params[k]
  {
    params + StitchedValues(cont, done)
  }

  /** Stitching touches only the base names that receive a value: everything else is params as it was. */
  lemma StitchFrame(params: map<string, string>, cont: map<string, map<string, string>>, k: string)
    ensures var r := Stitch(params, cont, cont.Keys);
      && (k in cont && StitchValue(k, cont[k]).Some? ==> k in r && r[k] == StitchValue(k, cont[k]).value)
      && (!(k in cont && StitchValue(k, cont[k]).Some?) ==> (k in r <==> k in params) && (k in params ==> r[k] == params[k]))
  {
  }

  /** Stitching one more base name updates that name alone. */
  lemma StitchStep(params: map<string, string>, cont: map<string, map<string, string>>, remaining: set<string>, key: string)
    requires remaining <= cont.Keys && key in remaining
    ensures Stitch(params, cont, cont.Keys - (remaining - {key}))
      == match StitchValue(key, cont[key])
         case None => Stitch(params, cont, cont.Keys - remaining)
         case Some(x) => Stitch(params, cont, cont.Keys - remaining)[key := x]
  {
    var done := cont.Keys - remaining;
    assert cont.Keys - (remaining - {key}) == done + {key};
    StitchAdd(params, cont, done, key);
  }

  /** The same step, over the set of names already stitched. */
  lemma StitchAdd(params: map<string, string>, cont: map<string, map<string, string>>, done: set<string>, key: string)
    requires key in cont
    ensures Stitch(params, cont, done + {key})
      == match StitchValue(key, cont[key])
         case None => Stitch(params, cont, done)
         case Some(x) => Stitch(params, cont, done)[key := x]
  {
    var before := StitchedValues(cont, done);
    var after := StitchedValues(cont, done + {key});
    if StitchValue(key, cont[key]).None? {
      assert after == before;
    } else {
      var x := StitchValue(key, cont[key]).value;
      assert after == before[key := x];
      OverrideUpdate(params, before, key, x);
    }
  }

  /** Overriding with an updated map is updating the overridden map. */
  lemma OverrideUpdate(m: map<string, string>, n: map<string, string>, key: string, x: string)
    ensures m + n[key := x] == (m + n)[key := x]
  {
  }

  /** Before any base name is stitched, and after all are. */
  lemma StitchEnds(params: map<string, string>, cont: map<string, map<string, string>>)
    ensures Stitch(params, cont, cont.Keys - cont.Keys) == params
    ensures Stitch(params, cont, cont.Keys - {}) == Stitch(params, cont, cont.Keys)
  {
    assert cont.Keys - cont.Keys == {};
    assert cont.Keys - {} == cont.Keys;
  }

  // ---------------------------------------------------------------------
  // The imperative stitching

  lemma JoinedStep(key: string, pieces: map<string, string>, n: nat, buf: string)
    requires SimplePart(key, n) in pieces || EncodedPart(key, n) in pieces
    ensures n < Pow10(MaxLen(pieces.Keys))
    ensures buf + Joined(key, pieces, n) == (buf + PieceText(key, pieces, n)) + Joined(key, pieces, n + 1)
  {
    PartBound(key, pieces, n);
  }

  /**
   * The loop "for n := 0; ; n++" over the pieces of one base name: a plain
   * piece is appended as it is, an encoded piece decoded, and the first
   * number with neither ends the loop. valid records that piece 0 existed.
   */
  method JoinContinuations(key: string, pieceMap: map<string, string>) returns (buf: string, valid: bool)
    ensures valid <==> SimplePart(key, 0) in pieceMap || EncodedPart(key, 0) in pieceMap
    ensures buf == Joined(key, pieceMap, 0)
  {
    buf := [];
    valid := false;
    var n := 0;
    ghost var bound := Pow10(MaxLen(pieceMap.Keys));
    assert buf + Joined(key, pieceMap, 0) == Joined(key, pieceMap, 0);
    while true
      invariant n <= bound
      invariant buf + Joined(key, pieceMap, n) == Joined(key, pieceMap, 0)
      invariant valid <==> n > 0
      invariant n > 0 ==> SimplePart(key, 0) in pieceMap || EncodedPart(key, 0) in pieceMap
      decreases bound - n
    {
      var simplePart := SimplePart(key, n);
      if simplePart in pieceMap {
        JoinedStep(key, pieceMap, n, buf);
        valid := true;
        buf := buf + pieceMap[simplePart];
        n := n + 1;
        continue;
      }
      var encodedPart := simplePart + "*";
      if encodedPart in pieceMap {
        JoinedStep(key, pieceMap, n, buf);
        valid := true;
        if n == 0 {
          buf := buf + Decode2231Enc(pieceMap[encodedPart]);
        } else {
          var decv, err := PercentHexUnescape(pieceMap[encodedPart]);
          buf := buf + decv;
        }
      } else {
        break;
      }
      n := n + 1;
    }
    assert buf + [] == buf;
  }

  /** The body of the loop over the continuation map, for one base name: the value to store, if any. */
  method StitchOne(key: string, pieceMap: map<string, string>) returns (value: Option<string>)
    ensures value == StitchValue(key, pieceMap)
  {
    var singlePartKey := key + "*";
    if singlePartKey in pieceMap {
      var decv := Decode2231Enc(pieceMap[singlePartKey]);
      return Some(decv);
    }
    var buf, valid := JoinContinuations(key, pieceMap);
    if valid {
      return Some(buf);
    }
    return None;
  }

  /**
   * The loop over the continuation map: every base name gets its stitched
   * value, in whatever order the map is ranged over.
   */
  method StitchContinuations(params: map<string, string>, cont: map<string, map<string, string>>)
    returns (result: map<string, string>)
    ensures result == Stitch(params, cont, cont.Keys)
  {
    result := params;
    var remaining := cont.Keys;
    StitchEnds(params, cont);
    while remaining != {}
      invariant remaining <= cont.Keys
      invariant result == Stitch(params, cont, cont.Keys - remaining)
      decreases |remaining|
    {
      var key :| key in remaining;
      StitchStep(params, cont, remaining, key);
      var value := StitchOne(key, cont[key]);
      if value.Some? {
        result := result[key := value.value];
      }
      remaining := remaining - {key};
    }
  }

  // ---------------------------------------------------------------------
  // Splitting a value into continuations and stitching it back

  /** The plain pieces key*n, key*(n+1), ... holding parts[n..]. */
  function ContinuationMap(key: string, parts: seq<string>, n: nat): map<string, string>
    requires n <= |parts|
    decreases |parts| - n
  {
    if n == |parts| then map[] else ContinuationMap(key, parts, n + 1)[SimplePart(key, n) := parts[n]]
  }

  function Concat(parts: seq<string>): string
    decreases |parts|
  {
    if parts == [] then [] else parts[0] + Concat(parts[1..])
  }

  /** A piece name and a piece number determine each other. */
  lemma SimplePartInjective(key: string, n: nat, m: nat)
    requires SimplePart(key, n) == SimplePart(key, m)
    ensures n == m
  {
    var p := key + "*";
    assert SimplePart(key, n)[|p|..] == Itoa(n);
    assert SimplePart(key, m)[|p|..] == Itoa(m);
    ItoaInjective(n, m);
  }

  /** An encoded piece name ends with '*', a plain one with a digit. */
  lemma EncodedIsNotSimple(key: string, n: nat, m: nat)
    ensures EncodedPart(key, n) != SimplePart(key, m)
  {
    var e := EncodedPart(key, n);
    var s := SimplePart(key, m);
    assert e[|e| - 1] == '*';
    assert s[|s| - 1] == Itoa(m)[|Itoa(m)| - 1];
  }

  /** The continuation map holds exactly the plain pieces n..|parts|-1. */
  lemma {:induction false} ContinuationMapHolds(key: string, parts: seq<string>, n: nat, k: nat)
    requires n <= |parts|
    ensures SimplePart(key, k) in ContinuationMap(key, parts, n) <==> n <= k < |parts|
    ensures n <= k < |parts| ==> ContinuationMap(key, parts, n)[SimplePart(key, k)] == parts[k]
    ensures EncodedPart(key, k) !in ContinuationMap(key, parts, n)
    ensures forall name :: name in ContinuationMap(key, parts, n) ==> |name| >= |key| + 2
    decreases |parts| - n
  {
    if n < |parts| {
      ContinuationMapHolds(key, parts, n + 1, k);
      if SimplePart(key, n) == SimplePart(key, k) {
        SimplePartInjective(key, n, k);
      }
      EncodedIsNotSimple(key, k, n);
    }
  }

  /** m holds exactly the plain pieces key*0 .. key*(|parts|-1) with the texts of parts, and no other piece of key. */
  ghost predicate HoldsParts(key: string, m: map<string, string>, parts: seq<string>) {
    && key + "*" !in m
    && forall k: nat ::
      && (SimplePart(key, k) in m <==> k < |parts|)
      && (k < |parts| ==> m[SimplePart(key, k)] == parts[k])
      && EncodedPart(key, k) !in m
  }

  /** The continuation map holds the parts it is built from. */
  lemma ContinuationMapHoldsParts(key: string, parts: seq<string>)
    ensures HoldsParts(key, ContinuationMap(key, parts, 0), parts)
  {
    var m := ContinuationMap(key, parts, 0);
    forall k: nat
      ensures && (SimplePart(key, k) in m <==> k < |parts|)
              && (k < |parts| ==> m[SimplePart(key, k)] == parts[k])
              && EncodedPart(key, k) !in m
    {
      ContinuationMapHolds(key, parts, 0, k);
    }
    ContinuationMapHolds(key, parts, 0, 0);
    assert key + "*" !in m;
  }

  /**
   * m holds pieces key*0 .. key*(|texts|-1), each plain or encoded, whose
   * texts as the stitching reads them are texts, no piece past them, and
   * no lone key* piece.
   */
  ghost predicate HoldsTexts(key: string, m: map<string, string>, texts: seq<string>) {
    && key + "*" !in m
    && forall k: nat ::
      && (SimplePart(key, k) in m || EncodedPart(key, k) in m <==> k < |texts|)
      && (k < |texts| ==> PieceText(key, m, k) == texts[k])
  }

  /** Joining a map that holds texts, from piece n on, gives texts[n..] concatenated. */
  lemma {:induction false} JoinedHoldsTexts(key: string, m: map<string, string>, texts: seq<string>, n: nat)
    requires HoldsTexts(key, m, texts) && n <= |texts|
    ensures Joined(key, m, n) == Concat(texts[n..])
    decreases |texts| - n
  {
    assert SimplePart(key, n) in m || EncodedPart(key, n) in m <==> n < |texts|;
    if n < |texts| {
      assert PieceText(key, m, n) == texts[n];
      JoinedHoldsTexts(key, m, texts, n + 1);
      assert texts[n..][1..] == texts[n + 1..];
    }
  }

  /** The pieces of a map that holds texts are stitched back into their concatenation. */
  lemma StitchHoldsTexts(key: string, m: map<string, string>, texts: seq<string>)
    requires HoldsTexts(key, m, texts) && texts != []
    ensures StitchValue(key, m) == Some(Concat(texts))
  {
    assert SimplePart(key, 0) in m || EncodedPart(key, 0) in m;
    JoinedHoldsTexts(key, m, texts, 0);
    assert texts[0..] == texts;
  }

  /** Plain pieces are read as they are. */
  lemma HoldsPartsTexts(key: string, m: map<string, string>, parts: seq<string>)
    requires HoldsParts(key, m, parts)
    ensures HoldsTexts(key, m, parts)
  {
    forall k: nat
      ensures && (SimplePart(key, k) in m || EncodedPart(key, k) in m <==> k < |parts|)
              && (k < |parts| ==> PieceText(key, m, k) == parts[k])
    {
      assert EncodedPart(key, k) !in m;
    }
  }

  /** The pieces of a map that holds parts are stitched back into the whole value. */
  lemma StitchHoldsParts(key: string, m: map<string, string>, parts: seq<string>)
    requires HoldsParts(key, m, parts) && parts != []
    ensures StitchValue(key, m) == Some(Concat(parts))
  {
    HoldsPartsTexts(key, m, parts);
    StitchHoldsTexts(key, m, parts);
  }

  /** A value split into the plain continuations key*0, key*1, ... is stitched back into the whole value. */
  lemma StitchContinuationMap(key: string, parts: seq<string>)
    requires parts != []
    ensures StitchValue(key, ContinuationMap(key, parts, 0)) == Some(Concat(parts))
  {
    ContinuationMapHoldsParts(key, parts);
    StitchHoldsParts(key, ContinuationMap(key, parts, 0), parts);
  }

  // ---------------------------------------------------------------------
  // A value split into percent-encoded continuations

  /** Every character of every text is a byte. */
  predicate AllBytes(xs: seq<string>) {
    forall j, k :: 0 <= j < |xs| && 0 <= k < |xs[j]| ==> xs[j][k] as int < 256
  }

  /** The value of encoded piece n: piece 0 carries the charset'language' prefix. */
  function EncodedValue(charset: string, lang: string, xs: seq<string>, n: nat): string
    requires n < |xs| && AllBytes(xs)
  {
    if n == 0 then charset + ("'" + (lang + ("'" + PercentEncode(xs[0])))) else PercentEncode(xs[n])
  }

  /** The encoded pieces key*n*, key*(n+1)*, ... holding xs[n..] percent-encoded. */
  function EncodedMap(key: string, charset: string, lang: string, xs: seq<string>, n: nat): map<string, string>
    requires n <= |xs| && AllBytes(xs)
    decreases |xs| - n
  {
    if n == |xs| then map[] else EncodedMap(key, charset, lang, xs, n + 1)[EncodedPart(key, n) := EncodedValue(charset, lang, xs, n)]
  }

  /** An encoded piece name determines its piece number. */
  lemma EncodedPartInjective(key: string, n: nat, m: nat)
    requires EncodedPart(key, n) == EncodedPart(key, m)
    ensures n == m
  {
    var e := EncodedPart(key, n);
    assert e[..|e| - 1] == SimplePart(key, n);
    assert EncodedPart(key, m)[..|e| - 1] == SimplePart(key, m);
    SimplePartInjective(key, n, m);
  }

  /** The encoded map holds exactly the encoded pieces n..|xs|-1. */
  lemma {:induction false} EncodedMapHolds(key: string, charset: string, lang: string, xs: seq<string>, n: nat, k: nat)
    requires n <= |xs| && AllBytes(xs)
    ensures EncodedPart(key, k) in EncodedMap(key, charset, lang, xs, n) <==> n <= k < |xs|
    ensures n <= k < |xs| ==> EncodedMap(key, charset, lang, xs, n)[EncodedPart(key, k)] == EncodedValue(charset, lang, xs, k)
    ensures SimplePart(key, k) !in EncodedMap(key, charset, lang, xs, n)
    decreases |xs| - n
  {
    if n < |xs| {
      var m := EncodedMap(key, charset, lang, xs, n + 1);
      assert EncodedMap(key, charset, lang, xs, n) == m[EncodedPart(key, n) := EncodedValue(charset, lang, xs, n)];
      EncodedMapHolds(key, charset, lang, xs, n + 1, k);
      if EncodedPart(key, n) == EncodedPart(key, k) {
        EncodedPartInjective(key, n, k);
      }
      EncodedIsNotSimple(key, n, k);
    }
  }

  /** Every name in the encoded map is longer than key*. */
  lemma {:induction false} EncodedMapNames(key: string, charset: string, lang: string, xs: seq<string>, n: nat)
    requires n <= |xs| && AllBytes(xs)
    ensures forall name :: name in EncodedMap(key, charset, lang, xs, n) ==> |name| >= |key| + 3
    decreases |xs| - n
  {
    if n < |xs| {
      EncodedMapNames(key, charset, lang, xs, n + 1);
    }
  }

  /**
   * The encoded map's pieces read back as xs: piece 0 through its
   * character set, the others percent-unescaped.
   */
  lemma EncodedMapHoldsTexts(key: string, charset: string, lang: string, xs: seq<string>)
    requires '\'' !in charset && '\'' !in lang && SupportedCharset(ToLower(charset))
    requires AllBytes(xs)
    ensures HoldsTexts(key, EncodedMap(key, charset, lang, xs, 0), xs)
  {
    var m := EncodedMap(key, charset, lang, xs, 0);
    forall k: nat
      ensures && (SimplePart(key, k) in m || EncodedPart(key, k) in m <==> k < |xs|)
              && (k < |xs| ==> PieceText(key, m, k) == xs[k])
    {
      EncodedMapHolds(key, charset, lang, xs, 0, k);
      if k < |xs| {
        assert forall i :: 0 <= i < |xs[k]| ==> xs[k][i] as int < 256;
        if k == 0 {
          Decode2231EncRoundTrip(charset, lang, xs[0]);
        } else {
          UnescapePercentEncode(xs[k]);
        }
      }
    }
    EncodedMapNames(key, charset, lang, xs, 0);
    assert key + "*" !in m;
  }

  /**
   * A value split into the percent-encoded continuations key*0*, key*1*,
   * ..., the first behind a supported character set, is stitched back
   * into the whole value.
   */
  lemma StitchEncodedMap(key: string, charset: string, lang: string, xs: seq<string>)
    requires '\'' !in charset && '\'' !in lang && SupportedCharset(ToLower(charset))
    requires AllBytes(xs) && xs != []
    ensures StitchValue(key, EncodedMap(key, charset, lang, xs, 0)) == Some(Concat(xs))
  {
    EncodedMapHoldsTexts(key, charset, lang, xs);
    StitchHoldsTexts(key, EncodedMap(key, charset, lang, xs, 0), xs);
  }
}
