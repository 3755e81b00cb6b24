/**
 * ParseMediaType: the media type before the first ';', lowercased, trimmed
 * and validated, then the "; name = value" clauses, with the RFC 2231
 * continuations ("name*0", "name*1", ..., "name*") collected per base name
 * and stitched into one value each.
 */
module MimeMediaType {
  import opened Wrappers
  import opened GoStrings
  import opened MimeGrammar
  import opened MimeLexer
  import opened MimeRfc2231

  /** A parsed header value: the media type and its parameters. */
  datatype MediaType = MediaType(mediatype: string, params: map<string, string>)

  /**
   * Where the clause loop ends: an error, or the plain parameters and the
   * starred pieces by base name, and whether it stopped at a trailing ';'.
   */
  datatype ScanResult =
    | ScanError
    | Scanned(params: map<string, string>, cont: map<string, map<string, string>>, trailing: bool)

  /** The two maps the clause loop fills. */
  datatype Collected = Collected(params: map<string, string>, cont: map<string, map<string, string>>)

  /** The end of the media type: the first ';', or the end of the input. */
  function TypeEnd(v: string): (i: nat)
    ensures i <= |v| && ';' !in v[..i]
    ensures i < |v| ==> v[i] == ';'
  {
    var i := IndexByte(v, ';');
    if i == -1 then (assert v[..|v|] == v; |v|) else i
  }

  /** The media type as ParseMediaType reads it. */
  function MediaTypeOf(v: string): string {
    TrimSpace(ToLower(v[..TypeEnd(v)]))
  }

  /**
   * One clause stored: a name without '*' goes to the parameters, a name
   * with '*' to the pieces of the base name before its first '*'. A name
   * already present in the map it goes to is a duplicate.
   */
  function Insert(params: map<string, string>, cont: map<string, map<string, string>>, name: string, value: string)
    : (c: Option<Collected>)
    ensures '*' !in name ==> (c.None? <==> name in params)
    ensures '*' !in name && c.Some? ==> c.value.params == params[name := value] && c.value.cont == cont
    ensures '*' in name ==> var base := name[..IndexByte(name, '*')];
      && (c.None? <==> base in cont && name in cont[base])
      && (c.Some? ==>
            && c.value.params == params
            && c.value.cont.Keys == cont.Keys + {base}
            && c.value.cont[base] == (if base in cont then cont[base] else map[])[name := value]
            && forall b :: b in cont && b != base ==> c.value.cont[b] == cont[b])
  {
    var idx := IndexByte(name, '*');
    if idx == -1 then
      if name in params then None else Some(Collected(params[name := value], cont))
    else
      var base := name[..idx];
      var pmap := if base in cont then cont[base] else map[];
      if name in pmap then None else Some(Collected(params, cont[base := pmap[name := value]]))
  }

  /** A name stored once is a duplicate when it comes again, whatever its second value. */
  lemma InsertTwice(params: map<string, string>, cont: map<string, map<string, string>>, name: string, x: string, y: string)
    requires Insert(params, cont, name, x).Some?
    ensures var c := Insert(params, cont, name, x).value; Insert(c.params, c.cont, name, y) == None
  {
  }

  /**
   * Every parameter of params is in params' with its value, every base name
   * of cont is in cont', and every piece filed under it is still there with
   * its value.
   */
  predicate Keeps(params: map<string, string>, cont: map<string, map<string, string>>,
                  params': map<string, string>, cont': map<string, map<string, string>>) {
    && (forall k :: k in params ==> k in params' && params'[k] == params[k])
    && cont.Keys <= cont'.Keys
    && (forall b, n :: b in cont && n in cont[b] ==> b in cont' && n in cont'[b] && cont'[b][n] == cont[b][n])
  }

  /** Storing a clause keeps everything stored before it. */
  lemma InsertKeeps(params: map<string, string>, cont: map<string, map<string, string>>, name: string, value: string)
    requires Insert(params, cont, name, value).Some?
    ensures var c := Insert(params, cont, name, value).value; Keeps(params, cont, c.params, c.cont)
  {
  }

  /** What one turn of the clause loop does: stop with a result, or go on with the rest. */
  datatype Step =
    | Stop(result: ScanResult)
    | Next(rest: string, params: map<string, string>, cont: map<string, map<string, string>>)

  /** One turn of the clause loop: the white space before a clause is skipped. */
  function ScanStep(v: string, params: map<string, string>, cont: map<string, map<string, string>>): (s: Step)
    ensures s.Next? ==> |s.rest| < |v|
    ensures s.Next? ==> Keeps(params, cont, s.params, s.cont)
    ensures s.Stop? && s.result.Scanned? ==> s.result.params == params && s.result.cont == cont
  {
    ClauseStep(TrimLeftSpace(v), params, cont)
  }

  /**
   * One turn of the clause loop on a text without leading white space: an
   * empty text ends the loop, a clause that does not parse ends it at a
   * lone ';' and is an error otherwise, and a clause that parses is stored.
   */
  function ClauseStep(w: string, params: map<string, string>, cont: map<string, map<string, string>>): (s: Step)
    ensures s.Next? ==> |s.rest| < |w|
    ensures s.Next? ==> Keeps(params, cont, s.params, s.cont)
    ensures s.Stop? && s.result.Scanned? ==> s.result.params == params && s.result.cont == cont
  {
    if w == [] then Stop(Scanned(params, cont, false))
    else
      var p := ConsumeMediaParam(w);
      if p.name == [] then
        Stop(if TrimSpace(p.rest) == ";" then Scanned(params, cont, true) else ScanError)
      else
        match Insert(params, cont, p.name, p.value)
        case None => Stop(ScanError)
        case Some(c) => InsertKeeps(params, cont, p.name, p.value); Next(p.rest, c.params, c.cont)
  }

  /**
   * The clause loop over the input after the media type. When it succeeds,
   * a parameter once stored is never lost or overwritten, and neither is a
   * piece filed under a base name.
   */
  function Scan(v: string, params: map<string, string>, cont: map<string, map<string, string>>): (r: ScanResult)
    ensures r.Scanned? ==> Keeps(params, cont, r.params, r.cont)
    decreases |v|
  {
    match ScanStep(v, params, cont)
    case Stop(r) => r
    case Next(rest, p, c) => Scan(rest, p, c)
  }

  /**
   * The result once the clauses are read. At a trailing ';' the source
   * returns at once, before the continuations are stitched; with
   * stitchAtTrailing they are stitched there too.
   */
  function Finish(mediatype: string, r: ScanResult, stitchAtTrailing: bool): Option<MediaType> {
    match r
    case ScanError => None
    case Scanned(params, cont, trailing) =>
      if trailing && !stitchAtTrailing then Some(MediaType(mediatype, params))
      else Some(MediaType(mediatype, Stitch(params, cont, cont.Keys)))
  }

  /** The parse of a header value, with either reading of a trailing ';'. */
  function ParseWith(v: string, stitchAtTrailing: bool): Option<MediaType> {
    ParseParts(MediaTypeOf(v), v[TypeEnd(v)..], stitchAtTrailing)
  }

  /** The media type is validated, then the clauses after it are read. */
  function ParseParts(mediatype: string, rest: string, stitchAtTrailing: bool): Option<MediaType> {
    if !ValidMediaTypeOrDisposition(mediatype) then None
    else Finish(mediatype, Scan(rest, map[], map[]), stitchAtTrailing)
  }

  /** ParseMediaType as written: a trailing ';' drops the starred parameters. */
  function ParseAsWritten(v: string): (r: Option<MediaType>)
    ensures r.Some? ==> r.value.mediatype == MediaTypeOf(v) && ValidMediaTypeOrDisposition(r.value.mediatype)
    ensures !ValidMediaTypeOrDisposition(MediaTypeOf(v)) ==> r.None?
  {
    ParseWith(v, false)
  }

  /** ParseMediaType as intended: a trailing ';' only ends the clauses. */
  function Parse(v: string): (r: Option<MediaType>)
    ensures r.Some? ==> r.value.mediatype == MediaTypeOf(v) && ValidMediaTypeOrDisposition(r.value.mediatype)
    ensures !ValidMediaTypeOrDisposition(MediaTypeOf(v)) ==> r.None?
  {
    ParseWith(v, true)
  }

  // ---------------------------------------------------------------------
  // The imperative parser

  /** The white space before a clause changes nothing. */
  lemma ScanTrimmed(v: string, params: map<string, string>, cont: map<string, map<string, string>>)
    ensures Scan(TrimLeftSpace(v), params, cont) == Scan(v, params, cont)
  {
    var w := TrimLeftSpace(v);
    assert TrimLeftSpace(w) == w;
    assert ScanStep(w, params, cont) == ScanStep(v, params, cont);
  }

  /** The clause loop ends at the end of its input. */
  lemma ScanEmpty(v: string, params: map<string, string>, cont: map<string, map<string, string>>)
    requires v == []
    ensures Scan(v, params, cont) == Scanned(params, cont, false)
  {
    assert ClauseStep(TrimLeftSpace(v), params, cont) == Stop(Scanned(params, cont, false));
  }

  /** A text that is not a clause ends the clause loop: at a lone ';' without error. */
  lemma ScanNotClause(w: string, params: map<string, string>, cont: map<string, map<string, string>>)
    requires w != [] && TrimLeftSpace(w) == w && ConsumeMediaParam(w).name == []
    ensures Scan(w, params, cont) == if TrimSpace(w) == ";" then Scanned(params, cont, true) else ScanError
  {
    assert ScanStep(w, params, cont) == ClauseStep(w, params, cont);
  }

  /** A clause is stored, and the clause loop goes on after it unless it is a duplicate. */
  lemma ScanClause(w: string, params: map<string, string>, cont: map<string, map<string, string>>)
    requires w != [] && TrimLeftSpace(w) == w && ConsumeMediaParam(w).name != []
    ensures var p := ConsumeMediaParam(w);
      Scan(w, params, cont)
      == match Insert(params, cont, p.name, p.value)
         case None => ScanError
         case Some(c) => Scan(p.rest, c.params, c.cont)
  {
    assert ScanStep(w, params, cont) == ClauseStep(w, params, cont);
  }

  /** The loop of lines "for len(v) > 0": the clauses, until the end, a trailing ';' or an error. */
  method ScanParams(v: string) returns (r: ScanResult)
    ensures r == Scan(v, map[], map[])
  {
    var params: map<string, string> := map[];
    var cont: map<string, map<string, string>> := map[];
    var rest := v;
    ghost var goal := Scan(v, map[], map[]);
    while |rest| > 0
      invariant Scan(rest, params, cont) == goal
      decreases |rest|
    {
      ScanTrimmed(rest, params, cont);
      rest := TrimLeftSpace(rest);
      if |rest| == 0 {
        break;
      }
      var p := ConsumeMediaParam(rest);
      if p.name == [] {
        ScanNotClause(rest, params, cont);
        if TrimSpace(p.rest) == ";" {
          return Scanned(params, cont, true);
        }
        return ScanError;
      }
      ScanClause(rest, params, cont);
      var idx := IndexByte(p.name, '*');
      if idx == -1 {
        if p.name in params {
          return ScanError;
        }
        params := params[p.name := p.value];
      } else {
        var baseName := p.name[..idx];
        var pmap := if baseName in cont then cont[baseName] else map[];
        if p.name in pmap {
          return ScanError;
        }
        cont := cont[baseName := pmap[p.name := p.value]];
      }
      rest := p.rest;
    }
    ScanEmpty(rest, params, cont);
    return Scanned(params, cont, false);
  }

  /**
   * ParseMediaType as written. The error result is ("", nil), modelled as
   * an empty media type and no parameter map.
   */
  method ParseMediaType(v: string) returns (mediatype: string, params: Option<map<string, string>>)
    ensures ParseAsWritten(v).None? ==> mediatype == [] && params == None
    ensures ParseAsWritten(v).Some? ==>
      mediatype == ParseAsWritten(v).value.mediatype && params == Some(ParseAsWritten(v).value.params)
  {
    var i := IndexByte(v, ';');
    if i == -1 {
      i := |v|;
    }
    mediatype := TrimSpace(ToLower(v[..i]));
    if !ValidMediaTypeOrDisposition(mediatype) {
      return [], None;
    }
    var r := ScanParams(v[i..]);
    if r.ScanError? {
      return [], None;
    }
    if r.trailing {
      return mediatype, Some(r.params);
    }
    var stitched := StitchContinuations(r.params, r.cont);
    return mediatype, Some(stitched);
  }

  /** ParseMediaType with the trailing ';' ending the clause loop instead of the function. */
  method ParseMediaTypeFixed(v: string) returns (mediatype: string, params: Option<map<string, string>>)
    ensures Parse(v).None? ==> mediatype == [] && params == None
    ensures Parse(v).Some? ==> mediatype == Parse(v).value.mediatype && params == Some(Parse(v).value.params)
  {
    var i := IndexByte(v, ';');
    if i == -1 {
      i := |v|;
    }
    mediatype := TrimSpace(ToLower(v[..i]));
    if !ValidMediaTypeOrDisposition(mediatype) {
      return [], None;
    }
    var r := ScanParams(v[i..]);
    if r.ScanError? {
      return [], None;
    }
    var stitched := StitchContinuations(r.params, r.cont);
    return mediatype, Some(stitched);
  }
}
