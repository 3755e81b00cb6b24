/**
 * What ParseMediaType promises: the shape of the media type it returns, the
 * parameter names it can return, and, for header values written clause by
 * clause, the parameters it reads back and the errors it reports.
 */
module MimeMediaTypeLaws {
  import opened Wrappers
  import opened GoStrings
  import opened MimeGrammar
  import opened MimeLexer
  import opened MimeRfc2231
  import opened MimeMediaType

  // ---------------------------------------------------------------------
  // The two readings of a trailing ';'

  /**
   * The source and the corrected parser accept the same inputs with the same
   * media type; their parameters differ only when the clauses end at a
   * trailing ';' and some base name has a stitched value.
   */
  lemma AsWrittenDiffersOnlyAtTrailing(v: string)
    ensures ParseAsWritten(v).Some? <==> Parse(v).Some?
    ensures ParseAsWritten(v).Some? ==> ParseAsWritten(v).value.mediatype == Parse(v).value.mediatype
    ensures ParseAsWritten(v) != Parse(v) ==>
      var r := Scan(v[TypeEnd(v)..], map[], map[]);
      r.Scanned? && r.trailing && StitchedValues(r.cont, r.cont.Keys) != map[]
  {
    var m := MediaTypeOf(v);
    var rest := v[TypeEnd(v)..];
    if ValidMediaTypeOrDisposition(m) {
      ParsePartsValid(m, rest, false);
      ParsePartsValid(m, rest, true);
      FinishReadings(m, Scan(rest, map[], map[]));
    }
  }

  /** The two readings of the end of the clause loop. */
  lemma FinishReadings(mediatype: string, r: ScanResult)
    ensures Finish(mediatype, r, false).Some? <==> Finish(mediatype, r, true).Some?
    ensures Finish(mediatype, r, false).Some? ==>
      Finish(mediatype, r, false).value.mediatype == mediatype == Finish(mediatype, r, true).value.mediatype
    ensures Finish(mediatype, r, false) != Finish(mediatype, r, true) ==>
      r.Scanned? && r.trailing && StitchedValues(r.cont, r.cont.Keys) != map[]
  {
    if r.Scanned? && StitchedValues(r.cont, r.cont.Keys) == map[] {
      assert r.params + map[] == r.params;
    }
  }

  // ---------------------------------------------------------------------
  // The media type

  /**
   * On success the media type is the text before the first ';', lowered,
   * with its surrounding white space removed, and it is a token or a
   * token '/' token.
   */
  lemma ParsedMediaType(v: string, stitchAtTrailing: bool)
    requires ParseWith(v, stitchAtTrailing).Some?
    ensures var m := ParseWith(v, stitchAtTrailing).value.mediatype;
      && IsTypeOrTypeSlashSubtype(m)
      && NoUpper(m)
      && exists a, b :: AllSpace(a) && AllSpace(b) && ToLower(v[..TypeEnd(v)]) == a + (m + b)
  {
    ParsedMediaTypeIs(v, stitchAtTrailing);
    MediaTypeOfShape(v);
  }

  /** The media type returned is the one read before the clauses, and it is valid. */
  lemma ParsedMediaTypeIs(v: string, stitchAtTrailing: bool)
    requires ParseWith(v, stitchAtTrailing).Some?
    ensures ParseWith(v, stitchAtTrailing).value.mediatype == MediaTypeOf(v)
    ensures ValidMediaTypeOrDisposition(MediaTypeOf(v))
  {
  }

  /** The media type read is the lowered text before the first ';' with its surrounding white space removed. */
  lemma MediaTypeOfShape(v: string)
    requires ValidMediaTypeOrDisposition(MediaTypeOf(v))
    ensures var m := MediaTypeOf(v);
      && IsTypeOrTypeSlashSubtype(m)
      && NoUpper(m)
      && exists a, b :: AllSpace(a) && AllSpace(b) && ToLower(v[..TypeEnd(v)]) == a + (m + b)
  {
    var m := MediaTypeOf(v);
    var lowered := ToLower(v[..TypeEnd(v)]);
    ValidMediaTypeOrDispositionIff(m);
    var a, b := TrimSpaceSplit(lowered);
    forall i | 0 <= i < |m|
      ensures !('A' <= m[i] <= 'Z')
    {
      assert m[i] == lowered[|a| + i];
    }
  }

  // ---------------------------------------------------------------------
  // Parameter names

  predicate NoStar(keys: set<string>) {
    forall k :: k in keys ==> '*' !in k
  }

  /** Storing a clause keeps every plain name and every base name free of '*'. */
  lemma InsertNoStar(params: map<string, string>, cont: map<string, map<string, string>>, name: string, value: string)
    requires NoStar(params.Keys) && NoStar(cont.Keys)
    ensures var c := Insert(params, cont, name, value);
      c.Some? ==> NoStar(c.value.params.Keys) && NoStar(c.value.cont.Keys)
  {
  }

  /** The clause loop keeps every plain name and every base name free of '*'. */
  lemma {:induction false} ScanNoStar(v: string, params: map<string, string>, cont: map<string, map<string, string>>)
    requires NoStar(params.Keys) && NoStar(cont.Keys)
    ensures var r := Scan(v, params, cont);
      r.Scanned? ==> NoStar(r.params.Keys) && NoStar(r.cont.Keys)
    decreases |v|
  {
    var w := TrimLeftSpace(v);
    ScanTrimmed(v, params, cont);
    assert TrimLeftSpace(w) == w;
    var r := Scan(w, params, cont);
    if w == [] {
      ScanEmpty(w, params, cont);
    } else if ConsumeMediaParam(w).name == [] {
      ScanNotClause(w, params, cont);
    } else {
      assert r.Scanned? ==> NoStar(r.params.Keys) && NoStar(r.cont.Keys) by {
        var p := ConsumeMediaParam(w);
        var c := Insert(params, cont, p.name, p.value);
        InsertNoStar(params, cont, p.name, p.value);
        if c.Some? {
          ScanNoStar(p.rest, c.value.params, c.value.cont);
        }
        ScanClause(w, params, cont);
      }
    }
  }

  /** Starred names never reach the parameters: every returned name is a plain name or a base name. */
  lemma ParsedNamesHaveNoStar(v: string, stitchAtTrailing: bool)
    requires ParseWith(v, stitchAtTrailing).Some?
    ensures NoStar(ParseWith(v, stitchAtTrailing).value.params.Keys)
  {
    ScanNoStar(v[TypeEnd(v)..], map[], map[]);
  }

  // ---------------------------------------------------------------------
  // Header values written clause by clause

  /** A parameter as a writer gives it. */
  datatype Param = Param(name: string, value: string)

  /** ";name=" followed by the value as a quoted-string, then rest. */
  function QuotedClause(name: string, x: string, rest: string): string {
    ";" + (name + ("=" + (['"'] + Quote('"', x) + ['"'] + rest)))
  }

  /** The clauses of ps, each with its value quoted, followed by tail. */
  function Clauses(ps: seq<Param>, tail: string): string
    decreases |ps|
  {
    if ps == [] then tail else QuotedClause(ps[0].name, ps[0].value, Clauses(ps[1..], tail))
  }

  /** params with the parameters of ps stored in order. */
  function AddAll(params: map<string, string>, ps: seq<Param>): map<string, string>
    decreases |ps|
  {
    if ps == [] then params else AddAll(params[ps[0].name := ps[0].value], ps[1..])
  }

  /** Every name is a plain (unstarred) token and every value is non-empty. */
  predicate PlainParams(ps: seq<Param>) {
    forall i :: 0 <= i < |ps| ==> ps[i].name != [] && IsToken(ps[i].name) && '*' !in ps[i].name && ps[i].value != []
  }

  predicate DistinctNames(ps: seq<Param>) {
    forall i, j :: 0 <= i < j < |ps| ==> ps[i].name != ps[j].name
  }

  predicate NamesOutside(ps: seq<Param>, params: map<string, string>) {
    forall i :: 0 <= i < |ps| ==> ps[i].name !in params
  }

  /** Storing distinct names: the new names hold their values, the old ones keep theirs. */
  lemma AddAllContents(params: map<string, string>, ps: seq<Param>)
    requires DistinctNames(ps) && NamesOutside(ps, params)
    ensures var r := AddAll(params, ps);
      && (forall i :: 0 <= i < |ps| ==> ps[i].name in r && r[ps[i].name] == ps[i].value)
      && (forall k :: k in r <==> k in params || exists i :: 0 <= i < |ps| && ps[i].name == k)
      && (forall k :: k in params ==> r[k] == params[k])
  {
    AddAllValues(params, ps);
    forall k
      ensures k in AddAll(params, ps) <==> k in params || exists i :: 0 <= i < |ps| && ps[i].name == k
    {
      AddAllKeys(params, ps, k);
    }
    forall k | k in params
      ensures AddAll(params, ps)[k] == params[k]
    {
      AddAllKeeps(params, ps, k);
    }
  }

  /** The first stored parameters, and the names still to come. */
  lemma AddAllTail(params: map<string, string>, ps: seq<Param>)
    requires ps != [] && DistinctNames(ps) && NamesOutside(ps, params)
    ensures DistinctNames(ps[1..]) && NamesOutside(ps[1..], params[ps[0].name := ps[0].value])
    ensures forall i :: 0 <= i < |ps[1..]| ==> ps[1..][i] == ps[i + 1]
  {
  }

  /** Each name stored holds its value. */
  lemma {:induction false} AddAllValues(params: map<string, string>, ps: seq<Param>)
    requires DistinctNames(ps) && NamesOutside(ps, params)
    ensures forall i :: 0 <= i < |ps| ==> ps[i].name in AddAll(params, ps) && AddAll(params, ps)[ps[i].name] == ps[i].value
    decreases |ps|
  {
    if ps != [] {
      var p := params[ps[0].name := ps[0].value];
      AddAllTail(params, ps);
      AddAllValues(p, ps[1..]);
      AddAllKeeps(p, ps[1..], ps[0].name);
    }
  }

  /** The names stored are the old ones and those of ps. */
  lemma {:induction false} AddAllKeys(params: map<string, string>, ps: seq<Param>, k: string)
    ensures k in AddAll(params, ps) <==> k in params || exists i :: 0 <= i < |ps| && ps[i].name == k
    decreases |ps|
  {
    if ps != [] {
      var p := params[ps[0].name := ps[0].value];
      AddAllKeys(p, ps[1..], k);
      assert forall i :: 0 <= i < |ps[1..]| ==> ps[1..][i] == ps[i + 1];
      if exists i :: 0 <= i < |ps| && ps[i].name == k {
        var i :| 0 <= i < |ps| && ps[i].name == k;
        if i > 0 {
          assert ps[1..][i - 1].name == k;
        }
      }
    }
  }

  /** A name that ps does not store keeps its old value. */
  lemma {:induction false} AddAllKeeps(params: map<string, string>, ps: seq<Param>, k: string)
    requires k in params && forall i :: 0 <= i < |ps| ==> ps[i].name != k
    ensures k in AddAll(params, ps) && AddAll(params, ps)[k] == params[k]
    decreases |ps|
  {
    if ps != [] {
      var p := params[ps[0].name := ps[0].value];
      assert forall i :: 0 <= i < |ps[1..]| ==> ps[1..][i] == ps[i + 1];
      AddAllKeeps(p, ps[1..], k);
    }
  }

  /** A quoted clause is read and stored, and the loop goes on after it. */
  lemma ScanQuotedClause(name: string, x: string, rest: string, params: map<string, string>, cont: map<string, map<string, string>>)
    requires name != [] && IsToken(name) && x != []
    ensures Scan(QuotedClause(name, x, rest), params, cont)
      == match Insert(params, cont, name, x)
         case None => ScanError
         case Some(c) => Scan(rest, c.params, c.cont)
  {
    var v := QuotedClause(name, x, rest);
    assert TrimLeftSpace(v) == v;
    ConsumeMediaParamOfQuoted(name, '"', x, rest);
    ScanClause(v, params, cont);
  }

  /** A plain name goes into the parameters unless it is there already. */
  lemma InsertPlain(params: map<string, string>, cont: map<string, map<string, string>>, name: string, value: string)
    requires '*' !in name
    ensures Insert(params, cont, name, value)
      == if name in params then None else Some(Collected(params[name := value], cont))
  {
  }

  /** The clause list after its first clause. */
  lemma PlainParamsTail(ps: seq<Param>)
    requires PlainParams(ps) && ps != []
    ensures PlainParams(ps[1..])
    ensures ps[0].name != [] && IsToken(ps[0].name) && '*' !in ps[0].name && ps[0].value != []
  {
    assert forall i :: 0 <= i < |ps[1..]| ==> ps[1..][i] == ps[i + 1];
  }

  /** The first clause of a clause list is read and stored as it is. */
  lemma ScanFirstClause(ps: seq<Param>, tail: string, params: map<string, string>, cont: map<string, map<string, string>>)
    requires PlainParams(ps) && ps != []
    ensures PlainParams(ps[1..])
    ensures Scan(Clauses(ps, tail), params, cont)
      == if ps[0].name in params then ScanError
         else Scan(Clauses(ps[1..], tail), params[ps[0].name := ps[0].value], cont)
  {
    PlainParamsTail(ps);
    ScanQuotedClause(ps[0].name, ps[0].value, Clauses(ps[1..], tail), params, cont);
    InsertPlain(params, cont, ps[0].name, ps[0].value);
  }

  /** Clauses with distinct plain names, none stored yet, are all stored. */
  lemma {:induction false} ScanClauses(ps: seq<Param>, tail: string, params: map<string, string>, cont: map<string, map<string, string>>)
    requires PlainParams(ps) && DistinctNames(ps) && NamesOutside(ps, params)
    ensures Scan(Clauses(ps, tail), params, cont) == Scan(tail, AddAll(params, ps), cont)
    decreases |ps|
  {
    if ps != [] {
      ScanFirstClause(ps, tail, params, cont);
      var p := params[ps[0].name := ps[0].value];
      assert NamesOutside(ps[1..], p) && DistinctNames(ps[1..]) by {
        assert forall i :: 0 <= i < |ps[1..]| ==> ps[1..][i] == ps[i + 1];
      }
      ScanClauses(ps[1..], tail, p, cont);
    }
  }

  /** A plain name already stored fails the clause loop when it comes again. */
  lemma {:induction false} ScanClausesRepeat(ps: seq<Param>, tail: string, params: map<string, string>, cont: map<string, map<string, string>>, j: nat)
    requires PlainParams(ps) && j < |ps| && ps[j].name in params
    ensures Scan(Clauses(ps, tail), params, cont) == ScanError
    decreases j
  {
    if j == 0 {
      ScanFirstClause(ps, tail, params, cont);
    } else {
      var rest := ps[1..];
      assert PlainParams(rest) && j - 1 < |rest| && rest[j - 1].name in params[ps[0].name := ps[0].value] by {
        PlainParamsTail(ps);
        assert rest[j - 1] == ps[j];
      }
      ScanClausesRepeat(rest, tail, params[ps[0].name := ps[0].value], cont, j - 1);
      ScanFirstClause(ps, tail, params, cont);
    }
  }

  /** A later clause with the name of the first fails the clause loop. */
  lemma ScanClausesRepeatFirst(ps: seq<Param>, tail: string, params: map<string, string>, cont: map<string, map<string, string>>, j: nat)
    requires PlainParams(ps) && 0 < j < |ps| && ps[0].name == ps[j].name
    ensures Scan(Clauses(ps, tail), params, cont) == ScanError
  {
    var rest := ps[1..];
    assert PlainParams(rest) && j - 1 < |rest| && rest[j - 1].name in params[ps[0].name := ps[0].value] by {
      PlainParamsTail(ps);
      assert rest[j - 1] == ps[j];
    }
    ScanClausesRepeat(rest, tail, params[ps[0].name := ps[0].value], cont, j - 1);
    ScanFirstClause(ps, tail, params, cont);
  }

  /** Two clauses with the same plain name fail the clause loop. */
  lemma {:induction false} ScanClausesDuplicate(ps: seq<Param>, tail: string, params: map<string, string>, cont: map<string, map<string, string>>, i: nat, j: nat)
    requires PlainParams(ps) && i < j < |ps| && ps[i].name == ps[j].name
    ensures Scan(Clauses(ps, tail), params, cont) == ScanError
    decreases i
  {
    if i == 0 {
      ScanClausesRepeatFirst(ps, tail, params, cont, j);
    } else {
      var rest := ps[1..];
      var p := params[ps[0].name := ps[0].value];
      assert PlainParams(rest) && i - 1 < j - 1 < |rest| && rest[i - 1].name == rest[j - 1].name by {
        PlainParamsTail(ps);
        assert rest[i - 1] == ps[i] && rest[j - 1] == ps[j];
      }
      ScanClausesDuplicate(rest, tail, p, cont, i - 1, j - 1);
      ScanFirstClause(ps, tail, params, cont);
    }
  }

  /** White space alone ends the clause loop. */
  lemma ScanEnd(w: string, params: map<string, string>, cont: map<string, map<string, string>>)
    requires AllSpace(w)
    ensures Scan(w, params, cont) == Scanned(params, cont, false)
  {
    TrimLeftOfPadded(w, []);
    assert w + [] == w;
    ScanTrimmed(w, params, cont);
    ScanEmpty(TrimLeftSpace(w), params, cont);
  }

  /** A lone ';', with white space after it, ends the clause loop at a trailing ';'. */
  lemma ScanTrailing(w: string, params: map<string, string>, cont: map<string, map<string, string>>)
    requires AllSpace(w)
    ensures Scan(";" + w, params, cont) == Scanned(params, cont, true)
  {
    var v := ";" + w;
    assert TrimLeftSpace(v) == v;
    assert v[1..] == w;
    TrimLeftOfPadded(w, []);
    assert w + [] == w;
    assert ConsumeMediaParam(v).name == [];
    TrimSpaceOfPadded([], ";", w);
    assert [] + ";" + w == v;
    ScanNotClause(v, params, cont);
  }

  /** A clause text that does not parse as a clause, and is not a lone ';', fails the clause loop. */
  lemma ScanMalformed(bad: string, params: map<string, string>, cont: map<string, map<string, string>>)
    requires bad != [] && bad[0] == ';' && ConsumeMediaParam(bad).name == [] && TrimSpace(bad) != ";"
    ensures Scan(bad, params, cont) == ScanError
  {
    assert TrimLeftSpace(bad) == bad by {
      assert !IsSpace(bad[0]);
    }
    ScanNotClause(bad, params, cont);
  }

  /** A valid media type holds no ';' and neither starts nor ends with white space. */
  lemma MediaTypeChars(t: string)
    requires ValidMediaTypeOrDisposition(t)
    ensures t != [] && ';' !in t && !IsSpace(t[0]) && !IsSpace(t[|t| - 1])
  {
    ValidMediaTypeChars(t);
  }

  /** A valid media type without capitals is read back as it is. */
  lemma MediaTypeText(t: string)
    requires ValidMediaTypeOrDisposition(t) && NoUpper(t)
    ensures TrimSpace(ToLower(t)) == t
  {
    MediaTypeChars(t);
    TrimSpaceOfPadded([], t, []);
    assert [] + t + [] == t;
  }

  /** The media type of t followed by a text that starts with ';' ends where t does. */
  lemma TypeEndAfter(t: string, rest: string)
    requires ';' !in t && (rest == [] || rest[0] == ';')
    ensures TypeEnd(t + rest) == |t| && (t + rest)[..|t|] == t && (t + rest)[|t|..] == rest
  {
    if rest == [] {
      assert t + rest == t;
    } else {
      assert rest == ";" + rest[1..];
      IndexByteAfter(t, ';', rest[1..]);
    }
  }

  /** A valid media type without capitals followed by clauses: the clause loop reads what follows it. */
  lemma ParseWithOfText(t: string, rest: string, stitchAtTrailing: bool)
    requires ValidMediaTypeOrDisposition(t) && NoUpper(t)
    requires rest == [] || rest[0] == ';'
    ensures ParseWith(t + rest, stitchAtTrailing) == Finish(t, Scan(rest, map[], map[]), stitchAtTrailing)
  {
    var v := t + rest;
    assert MediaTypeOf(v) == t by {
      MediaTypeChars(t);
      TypeEndAfter(t, rest);
      MediaTypeText(t);
    }
    assert v[TypeEnd(v)..] == rest by {
      MediaTypeChars(t);
      TypeEndAfter(t, rest);
    }
    ParsePartsValid(t, rest, stitchAtTrailing);
  }

  /** A valid media type: the clauses after it decide the result. */
  lemma ParsePartsValid(mediatype: string, rest: string, stitchAtTrailing: bool)
    requires ValidMediaTypeOrDisposition(mediatype)
    ensures ParseParts(mediatype, rest, stitchAtTrailing) == Finish(mediatype, Scan(rest, map[], map[]), stitchAtTrailing)
  {
  }

  /** A clause list starts with ';' or is its tail. */
  lemma ClausesStart(ps: seq<Param>, tail: string)
    requires tail == [] || tail[0] == ';'
    ensures var c := Clauses(ps, tail); c == [] || c[0] == ';'
  {
  }

  /** Nothing to stitch: the parameters are returned as they are. */
  lemma StitchNothing(params: map<string, string>, cont: map<string, map<string, string>>)
    requires cont == map[]
    ensures Stitch(params, cont, cont.Keys) == params
  {
    assert StitchedValues(cont, cont.Keys) == map[];
    assert params + map[] == params;
  }

  /** Nothing starred was read: both readings return the plain parameters. */
  lemma FinishPlain(t: string, params: map<string, string>, cont: map<string, map<string, string>>, trailing: bool, stitchAtTrailing: bool)
    requires cont == map[]
    ensures Finish(t, Scanned(params, cont, trailing), stitchAtTrailing) == Some(MediaType(t, params))
  {
    StitchNothing(params, cont);
  }

  /**
   * Parameters written as quoted clauses after a media type are read back:
   * every name with its value, and no other name.
   */
  lemma ParseOfClauses(t: string, ps: seq<Param>, stitchAtTrailing: bool)
    requires ValidMediaTypeOrDisposition(t) && NoUpper(t)
    requires PlainParams(ps) && DistinctNames(ps)
    ensures ParseWith(t + Clauses(ps, []), stitchAtTrailing) == Some(MediaType(t, AddAll(map[], ps)))
  {
    var p := AddAll(map[], ps);
    assert Scan(Clauses(ps, []), map[], map[]) == Scanned(p, map[], false) by {
      ScanClauses(ps, [], map[], map[]);
      ScanEnd([], p, map[]);
    }
    ClausesStart(ps, []);
    ParseWithOfText(t, Clauses(ps, []), stitchAtTrailing);
    FinishPlain(t, p, map[], false, stitchAtTrailing);
  }

  /** A trailing ';' after the clauses is ignored, in the source as well. */
  lemma ParseOfClausesTrailing(t: string, ps: seq<Param>, w: string, stitchAtTrailing: bool)
    requires ValidMediaTypeOrDisposition(t) && NoUpper(t)
    requires PlainParams(ps) && DistinctNames(ps) && AllSpace(w)
    ensures ParseWith(t + Clauses(ps, ";" + w), stitchAtTrailing) == Some(MediaType(t, AddAll(map[], ps)))
  {
    var p := AddAll(map[], ps);
    assert Scan(Clauses(ps, ";" + w), map[], map[]) == Scanned(p, map[], true) by {
      ScanClauses(ps, ";" + w, map[], map[]);
      ScanTrailing(w, p, map[]);
    }
    ClausesStart(ps, ";" + w);
    ParseWithOfText(t, Clauses(ps, ";" + w), stitchAtTrailing);
    FinishPlain(t, p, map[], true, stitchAtTrailing);
  }

  /** A parameter name that occurs twice is an error. */
  lemma ParseRejectsDuplicate(t: string, ps: seq<Param>, tail: string, i: nat, j: nat, stitchAtTrailing: bool)
    requires ValidMediaTypeOrDisposition(t) && NoUpper(t)
    requires PlainParams(ps) && i < j < |ps| && ps[i].name == ps[j].name
    ensures ParseWith(t + Clauses(ps, tail), stitchAtTrailing) == None
  {
    assert Clauses(ps, tail)[0] == ';';
    ParseWithOfText(t, Clauses(ps, tail), stitchAtTrailing);
    ScanClausesDuplicate(ps, tail, map[], map[], i, j);
  }

  /**
   * Any name written twice, plain or starred, fails the clause loop: the
   * second clause finds the name in the map the first one filled.
   */
  lemma ScanRepeatedName(name: string, x: string, y: string, tail: string, params: map<string, string>, cont: map<string, map<string, string>>)
    requires name != [] && IsToken(name) && x != [] && y != []
    ensures Scan(QuotedClause(name, x, QuotedClause(name, y, tail)), params, cont) == ScanError
  {
    ScanQuotedClause(name, x, QuotedClause(name, y, tail), params, cont);
    match Insert(params, cont, name, x)
    case None =>
    case Some(c) =>
      ScanQuotedClause(name, y, tail, c.params, c.cont);
      InsertTwice(params, cont, name, x, y);
  }

  /** A name written twice in a row after plain clauses is an error, starred or not. */
  lemma ParseRejectsRepeatedName(t: string, ps: seq<Param>, name: string, x: string, y: string, tail: string, stitchAtTrailing: bool)
    requires ValidMediaTypeOrDisposition(t) && NoUpper(t)
    requires PlainParams(ps) && DistinctNames(ps)
    requires name != [] && IsToken(name) && x != [] && y != []
    ensures ParseWith(t + Clauses(ps, QuotedClause(name, x, QuotedClause(name, y, tail))), stitchAtTrailing) == None
  {
    var w := QuotedClause(name, x, QuotedClause(name, y, tail));
    assert Scan(Clauses(ps, w), map[], map[]) == ScanError by {
      ScanClauses(ps, w, map[], map[]);
      ScanRepeatedName(name, x, y, tail, AddAll(map[], ps), map[]);
    }
    ClausesStart(ps, w);
    ParseWithOfText(t, Clauses(ps, w), stitchAtTrailing);
  }

  /** A clause that does not parse, other than a lone ';', is an error. */
  lemma ParseRejectsMalformed(t: string, ps: seq<Param>, bad: string, stitchAtTrailing: bool)
    requires ValidMediaTypeOrDisposition(t) && NoUpper(t)
    requires PlainParams(ps) && DistinctNames(ps)
    requires bad != [] && bad[0] == ';' && ConsumeMediaParam(bad).name == [] && TrimSpace(bad) != ";"
    ensures ParseWith(t + Clauses(ps, bad), stitchAtTrailing) == None
  {
    assert Scan(Clauses(ps, bad), map[], map[]) == ScanError by {
      ScanClauses(ps, bad, map[], map[]);
      ScanMalformed(bad, AddAll(map[], ps), map[]);
    }
    ClausesStart(ps, bad);
    ParseWithOfText(t, Clauses(ps, bad), stitchAtTrailing);
  }

  /** An invalid media type is an error, whatever follows it. */
  lemma ParseRejectsInvalidType(v: string, stitchAtTrailing: bool)
    requires !IsTypeOrTypeSlashSubtype(MediaTypeOf(v))
    ensures ParseWith(v, stitchAtTrailing) == None
  {
    ValidMediaTypeOrDispositionIff(MediaTypeOf(v));
  }

  // ---------------------------------------------------------------------
  // A value written as continuations

  /** The clauses key*i="parts[i]" .. key*(|parts|-1)="...", followed by tail. */
  function PartClauses(key: string, parts: seq<string>, i: nat, tail: string): string
    requires i <= |parts|
    decreases |parts| - i
  {
    if i == |parts| then tail
    else QuotedClause(SimplePart(key, i), parts[i], PartClauses(key, parts, i + 1, tail))
  }

  /** The pieces of key that the clause loop has filed after the first i continuation clauses. */
  function PrefixMap(key: string, parts: seq<string>, i: nat): map<string, string>
    requires i <= |parts|
  {
    if i == 0 then map[] else PrefixMap(key, parts, i - 1)[SimplePart(key, i - 1) := parts[i - 1]]
  }

  /** The first i pieces are filed, and nothing else. */
  lemma {:induction false} PrefixMapHolds(key: string, parts: seq<string>, i: nat, k: nat)
    requires i <= |parts|
    ensures SimplePart(key, k) in PrefixMap(key, parts, i) <==> k < i
    ensures k < i ==> PrefixMap(key, parts, i)[SimplePart(key, k)] == parts[k]
    ensures EncodedPart(key, k) !in PrefixMap(key, parts, i)
    ensures key + "*" !in PrefixMap(key, parts, i)
  {
    if i > 0 {
      PrefixMapHolds(key, parts, i - 1, k);
      if SimplePart(key, i - 1) == SimplePart(key, k) {
        SimplePartInjective(key, i - 1, k);
      }
      EncodedIsNotSimple(key, k, i - 1);
      assert |SimplePart(key, i - 1)| > |key + "*"|;
    }
  }

  /** Once all clauses are read, the filed pieces hold the parts. */
  lemma PrefixMapHoldsParts(key: string, parts: seq<string>)
    ensures HoldsParts(key, PrefixMap(key, parts, |parts|), parts)
  {
    var m := PrefixMap(key, parts, |parts|);
    forall k: nat
      ensures && (SimplePart(key, k) in m <==> k < |parts|)
              && (k < |parts| ==> m[SimplePart(key, k)] == parts[k])
              && EncodedPart(key, k) !in m
    {
      PrefixMapHolds(key, parts, |parts|, k);
    }
    PrefixMapHolds(key, parts, |parts|, 0);
  }

  /** The name of piece n is a token whose first '*' follows the base name. */
  lemma PartName(key: string, n: nat)
    requires key != [] && IsToken(key) && '*' !in key
    ensures var name := SimplePart(key, n);
      name != [] && IsToken(name) && IndexByte(name, '*') == |key| && name[..|key|] == key
  {
    var d := Itoa(n);
    assert SimplePart(key, n) == key + (['*'] + d);
    IndexByteAfter(key, '*', d);
    PartNameIsToken(key, d);
  }

  /** A token, '*' and digits make a token. */
  lemma PartNameIsToken(key: string, d: string)
    requires IsToken(key) && forall i :: 0 <= i < |d| ==> '0' <= d[i] <= '9'
    ensures IsToken(key + (['*'] + d))
  {
    var name := key + (['*'] + d);
    forall i | 0 <= i < |name|
      ensures IsTokenChar(name[i])
    {
      if i < |key| {
        assert name[i] == key[i];
      } else if i > |key| {
        assert name[i] == d[i - |key| - 1];
      }
    }
  }

  /** A continuation piece written twice, such as "k*0" and "k*0" again, is an error. */
  lemma ParseRejectsRepeatedPart(t: string, key: string, n: nat, x: string, y: string, tail: string, stitchAtTrailing: bool)
    requires ValidMediaTypeOrDisposition(t) && NoUpper(t)
    requires key != [] && IsToken(key) && '*' !in key && x != [] && y != []
    ensures ParseWith(t + QuotedClause(SimplePart(key, n), x, QuotedClause(SimplePart(key, n), y, tail)), stitchAtTrailing) == None
  {
    PartName(key, n);
    assert Clauses([], QuotedClause(SimplePart(key, n), x, QuotedClause(SimplePart(key, n), y, tail)))
      == QuotedClause(SimplePart(key, n), x, QuotedClause(SimplePart(key, n), y, tail));
    ParseRejectsRepeatedName(t, [], SimplePart(key, n), x, y, tail, stitchAtTrailing);
  }

  /** Piece i is filed under its base name. */
  lemma InsertPart(key: string, parts: seq<string>, i: nat, params: map<string, string>, cont: map<string, map<string, string>>)
    requires key != [] && IsToken(key) && '*' !in key && i < |parts|
    requires cont == map[key := PrefixMap(key, parts, i)] || (i == 0 && cont == map[])
    ensures Insert(params, cont, SimplePart(key, i), parts[i])
      == Some(Collected(params, map[key := PrefixMap(key, parts, i + 1)]))
  {
    PartName(key, i);
    PrefixMapHolds(key, parts, i, i);
    assert cont[key := PrefixMap(key, parts, i + 1)] == map[key := PrefixMap(key, parts, i + 1)];
  }

  /** The clause loop files the continuation clauses one by one and goes on with what follows them. */
  lemma {:induction false} ScanParts(key: string, parts: seq<string>, i: nat, tail: string, params: map<string, string>, cont: map<string, map<string, string>>)
    requires key != [] && IsToken(key) && '*' !in key && i <= |parts|
    requires forall j :: 0 <= j < |parts| ==> parts[j] != []
    requires cont == map[key := PrefixMap(key, parts, i)] || (i == 0 && cont == map[] && parts != [])
    ensures Scan(PartClauses(key, parts, i, tail), params, cont)
      == Scan(tail, params, map[key := PrefixMap(key, parts, |parts|)])
    decreases |parts| - i
  {
    if i < |parts| {
      var next := map[key := PrefixMap(key, parts, i + 1)];
      ScanParts(key, parts, i + 1, tail, params, next);
      assert Scan(PartClauses(key, parts, i, tail), params, cont) == Scan(PartClauses(key, parts, i + 1, tail), params, next) by {
        PartName(key, i);
        InsertPart(key, parts, i, params, cont);
        ScanQuotedClause(SimplePart(key, i), parts[i], PartClauses(key, parts, i + 1, tail), params, cont);
      }
    }
  }

  /** The continuation clauses after a media type, with nothing before them in the maps. */
  lemma ScanContinuations(key: string, parts: seq<string>, tail: string)
    requires key != [] && IsToken(key) && '*' !in key && parts != []
    requires forall j :: 0 <= j < |parts| ==> parts[j] != []
    ensures Scan(PartClauses(key, parts, 0, tail), map[], map[])
      == Scan(tail, map[], map[key := PrefixMap(key, parts, |parts|)])
  {
    ScanParts(key, parts, 0, tail, map[], map[]);
  }

  /** The filed pieces are stitched into the whole value. */
  lemma StitchParts(key: string, parts: seq<string>)
    requires parts != []
    ensures var cont := map[key := PrefixMap(key, parts, |parts|)];
      Stitch(map[], cont, cont.Keys) == map[key := Concat(parts)]
  {
    var m := PrefixMap(key, parts, |parts|);
    var cont := map[key := m];
    assert StitchValue(key, m) == Some(Concat(parts)) by {
      PrefixMapHoldsParts(key, parts);
      StitchHoldsParts(key, m, parts);
    }
    assert StitchedValues(cont, cont.Keys) == map[key := Concat(parts)];
    assert map[] + map[key := Concat(parts)] == map[key := Concat(parts)];
  }

  /** Continuation clauses start with ';'. */
  lemma PartClausesStart(key: string, parts: seq<string>, tail: string)
    requires parts != []
    ensures PartClauses(key, parts, 0, tail)[0] == ';'
  {
  }

  /**
   * A value split into continuations key*0, key*1, ... after a media type
   * is read back as one parameter holding the whole value, by both readings.
   */
  lemma ParseOfContinuations(t: string, key: string, parts: seq<string>, stitchAtTrailing: bool)
    requires ValidMediaTypeOrDisposition(t) && NoUpper(t)
    requires key != [] && IsToken(key) && '*' !in key
    requires parts != [] && forall j :: 0 <= j < |parts| ==> parts[j] != []
    ensures ParseWith(t + PartClauses(key, parts, 0, []), stitchAtTrailing) == Some(MediaType(t, map[key := Concat(parts)]))
  {
    var w := PartClauses(key, parts, 0, []);
    var cont := map[key := PrefixMap(key, parts, |parts|)];
    assert ParseWith(t + w, stitchAtTrailing) == Finish(t, Scanned(map[], cont, false), stitchAtTrailing) by {
      ScanContinuations(key, parts, []);
      ScanEmpty([], map[], cont);
      PartClausesStart(key, parts, []);
      ParseWithOfText(t, w, stitchAtTrailing);
    }
    StitchParts(key, parts);
  }

  /**
   * After the continuation clauses key*0 .. key*(n-1), a clause that gives
   * one of those pieces again fails the clause loop, however many pieces
   * lie between the two: the piece is still filed under key.
   */
  lemma ScanRepeatedContinuation(key: string, parts: seq<string>, j: nat, y: string, tail: string)
    requires key != [] && IsToken(key) && '*' !in key
    requires forall i :: 0 <= i < |parts| ==> parts[i] != []
    requires j < |parts| && y != []
    ensures Scan(PartClauses(key, parts, 0, QuotedClause(SimplePart(key, j), y, tail)), map[], map[]) == ScanError
  {
    var w := QuotedClause(SimplePart(key, j), y, tail);
    var cont := map[key := PrefixMap(key, parts, |parts|)];
    ScanContinuations(key, parts, w);
    PartName(key, j);
    PrefixMapHolds(key, parts, |parts|, j);
    ScanQuotedClause(SimplePart(key, j), y, tail, map[], cont);
  }

  /** The same after a media type: such a header value gives ("", nil), by both readings. */
  lemma ParseRejectsRepeatedContinuation(t: string, key: string, parts: seq<string>, j: nat, y: string, tail: string, stitchAtTrailing: bool)
    requires ValidMediaTypeOrDisposition(t) && NoUpper(t)
    requires key != [] && IsToken(key) && '*' !in key
    requires forall i :: 0 <= i < |parts| ==> parts[i] != []
    requires j < |parts| && y != []
    ensures ParseWith(t + PartClauses(key, parts, 0, QuotedClause(SimplePart(key, j), y, tail)), stitchAtTrailing) == None
  {
    var w := PartClauses(key, parts, 0, QuotedClause(SimplePart(key, j), y, tail));
    ScanRepeatedContinuation(key, parts, j, y, tail);
    PartClausesStart(key, parts, QuotedClause(SimplePart(key, j), y, tail));
    ParseWithOfText(t, w, stitchAtTrailing);
  }

  /** A trailing ';' after the clauses ends the clause loop with the pieces filed. */
  lemma ScanContinuationsTrailing(key: string, parts: seq<string>)
    requires key != [] && IsToken(key) && '*' !in key && parts != []
    requires forall j :: 0 <= j < |parts| ==> parts[j] != []
    ensures Scan(PartClauses(key, parts, 0, ";"), map[], map[])
      == Scanned(map[], map[key := PrefixMap(key, parts, |parts|)], true)
  {
    ScanContinuations(key, parts, ";");
    ScanLoneSemicolon(map[], map[key := PrefixMap(key, parts, |parts|)]);
  }

  /** A lone ';' ends the clause loop at a trailing ';'. */
  lemma ScanLoneSemicolon(params: map<string, string>, cont: map<string, map<string, string>>)
    ensures Scan(";", params, cont) == Scanned(params, cont, true)
  {
    assert ";" == ";" + [];
    ScanTrailing([], params, cont);
  }

  /**
   * As written: with a trailing ';' the source returns before stitching, so
   * a value written as continuations is lost and no parameter is returned.
   */
  lemma TrailingDropsContinuations(t: string, key: string, parts: seq<string>)
    requires ValidMediaTypeOrDisposition(t) && NoUpper(t)
    requires key != [] && IsToken(key) && '*' !in key
    requires parts != [] && forall j :: 0 <= j < |parts| ==> parts[j] != []
    ensures ParseAsWritten(t + PartClauses(key, parts, 0, ";")) == Some(MediaType(t, map[]))
  {
    var w := PartClauses(key, parts, 0, ";");
    ScanContinuationsTrailing(key, parts);
    PartClausesStart(key, parts, ";");
    ParseWithOfText(t, w, false);
  }

  /** Corrected: a trailing ';' only ends the clauses, and the continuations are stitched into the whole value. */
  lemma TrailingKeepsContinuations(t: string, key: string, parts: seq<string>)
    requires ValidMediaTypeOrDisposition(t) && NoUpper(t)
    requires key != [] && IsToken(key) && '*' !in key
    requires parts != [] && forall j :: 0 <= j < |parts| ==> parts[j] != []
    ensures Parse(t + PartClauses(key, parts, 0, ";")) == Some(MediaType(t, map[key := Concat(parts)]))
  {
    var w := PartClauses(key, parts, 0, ";");
    var cont := map[key := PrefixMap(key, parts, |parts|)];
    assert ParseWith(t + w, true) == Finish(t, Scanned(map[], cont, true), true) by {
      ScanContinuationsTrailing(key, parts);
      PartClausesStart(key, parts, ";");
      ParseWithOfText(t, w, true);
    }
    StitchParts(key, parts);
  }
}
