# A verified model of Go's MIME media-type parser

This project models `mime.ParseMediaType` from Go's `src/pkg/mime/mediatype.go`
in Dafny, and proves properties of the model. `ParseMediaType` reads the value
of a `Content-Type` or `Content-Disposition` header. It returns the media type,
lowercased and trimmed, and a map of the parameters. It handles the RFC 2231
extensions:

- `name*=charset'lang'%XY..` holds a percent-encoded value;
- `name*0`, `name*1`, … (each optionally starred again) are continuations,
  joined in index order.

The model follows the source's layers, one module each:

- `GoStrings` (gostrings.dfy): the ASCII subset of the `strings`, `unicode` and
  `fmt` helpers the parser calls (`TrimLeftFunc`, `TrimSpace`, `ToLower`,
  `Index`, `Split`, `%d`). `Wrappers` holds `Option`.
- `MimeGrammar` (grammar.dfy): token characters as section 5.1 of RFC 2045
  defines them.
- `MimeLexer` (lexer.dfy): `consumeToken`, `validMediaTypeOrDisposition`,
  `consumeValue` (an imperative method proved against the function
  `ConsumedValue`), and `consumeMediaParam`. It also defines `Quote`, the
  inverse used in the round trips.
- `MimePercent` (percent.dfy): `ishex`, `unhex` and the two loops of
  `percentHexUnescape`. The method works over an array, as the source does,
  and is proved against the function `Unescape`.
- `MimeRfc2231` (rfc2231.dfy): `decode2231Enc`, the `for n := 0; ; n++` loop
  that joins the pieces of one base name (`JoinContinuations`), and the loop
  over the continuation map (`StitchContinuations`). The map loop is proved
  against `Stitch`, which does not depend on the order in which the map is
  ranged over.
- `MimeMediaType` (mediatype.dfy): the clause loop (`ScanParams`, proved
  against `Scan`) and `ParseMediaType` itself.
- `MimeMediaTypeLaws` (mediatype_laws.dfy): properties of the whole parser:
  - what a successful parse returns;
  - that header values written clause by clause are read back;
  - that duplicate names, malformed clauses and invalid types are errors;
  - that continuations are stitched back into one value;
  - and the trailing-';' finding below.

Go strings are byte strings. A Dafny `char` below 256 stands for one byte.
`ParseMediaType`'s two results are modelled as a string and an
`Option<map<string, string>>`: `None` is Go's nil map, returned on error
together with the empty media type.

## Model

| member | source | states |
|---|---|---|
| GoStrings.TrimLeftSpace | src/pkg/mime/mediatype.go:58 | the result is the suffix left after a prefix made only of white space, and it does not start with white space |
| GoStrings.TrimRightSpace | src/pkg/mime/mediatype.go:44 | the result is a prefix of the input, followed only by white space, and it does not end with white space |
| GoStrings.TrimSpaceOfPadded | src/pkg/mime/mediatype.go:44 | TrimSpace removes exactly the white space around a text that neither starts nor ends with white space |
| GoStrings.TrimSpaceSplit | src/pkg/mime/mediatype.go:44 | every input is white space, then its TrimSpace, then white space |
| GoStrings.TrimSpace | src/pkg/mime/mediatype.go:44 | the result is no longer than the input, neither starts nor ends with white space, and is empty when the input is all white space |
| GoStrings.ToLower | src/pkg/mime/mediatype.go:44 | lowering keeps the length, leaves no capital letter, moves each capital to its lower-case partner, keeps every other character, and returns a text without capitals unchanged |
| GoStrings.IndexByte | src/pkg/mime/mediatype.go:40-43 | the result is -1 exactly when the character is absent; otherwise it is the position of its first occurrence |
| GoStrings.SplitN | src/pkg/mime/mediatype.go:135 | Split(s, sep, n) gives between 1 and n pieces, none longer than s |
| GoStrings.SplitThree | src/pkg/mime/mediatype.go:135 | a text with two separators, the first two parts holding none, splits into exactly those three parts, and the third keeps any further separators |
| GoStrings.SplitNThreeShape | src/pkg/mime/mediatype.go:135-138 | three pieces put back together with the two separators give the input, and the first two pieces hold no separator |
| GoStrings.SplitNShort | src/pkg/mime/mediatype.go:135-138 | with fewer than two separators the split gives fewer than three pieces |
| GoStrings.Itoa | src/pkg/mime/mediatype.go:107 | the decimal text of n is made of digits, and it has one digit exactly when n < 10 |
| GoStrings.ItoaValue | src/pkg/mime/mediatype.go:107 | the digits of Itoa(n) denote n in base 10, and they start with '0' only when n is 0, as %d writes them |
| GoStrings.ItoaInjective | src/pkg/mime/mediatype.go:107 | different piece numbers give different decimal texts |
| MimeGrammar.TokenCharClasses | src/pkg/mime/mediatype.go:151-168 | white space, ';', '=', '/', '"' and '\\' are never token characters, so a token ends at each separator the parser looks for; letters, digits and '*', '%', '\'', '-', '.' always are |
| MimeLexer.IndexNotToken | src/pkg/mime/mediatype.go:160 | the text before the result is a token, and the character at the result is not a token character; -1 means the whole input is a token |
| MimeLexer.ConsumeToken | src/pkg/mime/mediatype.go:155-168 | token + rest is the input, the token holds only token characters, the rest does not start with one, and no leading token character gives ("", v) |
| MimeLexer.ConsumeTokenOfSplit | src/pkg/mime/mediatype.go:155-168 | those properties determine the result: a token followed by a text that does not start with a token character splits exactly there |
| MimeLexer.ValidMediaTypeOrDisposition | src/pkg/mime/mediatype.go:15-31 | an accepted media type is non-empty and starts and ends with a token character |
| MimeLexer.ValidMediaTypeOrDispositionIff | src/pkg/mime/mediatype.go:15-31 | a media type is accepted exactly when it is one non-empty token, or token '/' token with nothing after it (both directions) |
| MimeLexer.ValidMediaTypeChars | src/pkg/mime/mediatype.go:15-31 | an accepted media type is non-empty and made only of token characters and '/' |
| MimeLexer.TypeSlashSubtypeIsValid | src/pkg/mime/mediatype.go:15-31 | every type/subtype made of two tokens is accepted |
| MimeLexer.ConsumedValue | src/pkg/mime/mediatype.go:170-203 | the rest is always a suffix of the input, and an empty value with a changed rest only comes from an opening quote |
| MimeLexer.UnquoteAtCloses | src/pkg/mime/mediatype.go:187-201 | a quoted-string that closes does so at a matching quote character, after where it opened |
| MimeLexer.ConsumeValue | src/pkg/mime/mediatype.go:175-203 | the loop that tracks the "next is literal" flag returns exactly ConsumedValue: a token, or the de-escaped body up to the first unescaped matching quote; a CR or LF, or a missing quote, gives ("", v) |
| MimeLexer.ConsumedValueOfUnquoted | src/pkg/mime/mediatype.go:176-178 | input that does not start with a quote is read exactly as consumeToken reads it |
| MimeLexer.UnquoteQuote | src/pkg/mime/mediatype.go:187-201 | de-quoting inverts backslash quoting: the body reads back as the text it quotes, and the quote after it closes it |
| MimeLexer.UnquoteQuoteBreak | src/pkg/mime/mediatype.go:187-201 | a CR or LF after a quoted body, before any closing quote, makes de-quoting fail |
| MimeLexer.UnquoteQuoteUnclosed | src/pkg/mime/mediatype.go:187-201 | a quoted body that reaches the end of the input without a closing quote makes de-quoting fail |
| MimeLexer.ConsumedValueOfBroken | src/pkg/mime/mediatype.go:196-199 | an opening quote, then a line break before the closing quote, gives ("", v) |
| MimeLexer.ConsumedValueOfUnclosed | src/pkg/mime/mediatype.go:201-202 | an opening quote without a closing one gives ("", v) |
| MimeLexer.ConsumedValueOfQuoted | src/pkg/mime/mediatype.go:175-203 | a value quoted with " or ' reads back as the text it quotes, and what follows the closing quote is the rest |
| MimeLexer.ConsumeMediaParam | src/pkg/mime/mediatype.go:205-229 | on failure the result is ("", "", v) with v unchanged; on success the name is a non-empty token, the value is non-empty, and the rest is shorter than the input |
| MimeLexer.ConsumeMediaParamShape | src/pkg/mime/mediatype.go:205-229 | a successful clause accounts for all of the input: white space, ';', white space, the name, white space, '=', white space, a raw value that reads as the value, then the rest |
| MimeLexer.ConsumeMediaParamOfClause | src/pkg/mime/mediatype.go:205-229 | the converse: every text of that shape, with a token name and a non-empty value, is read as that clause |
| MimeLexer.ConsumeMediaParamOfQuoted | src/pkg/mime/mediatype.go:205-229 | writing ";name=" and a quoted value and reading it back gives the name, the value and the rest |
| MimePercent.IsHex | src/pkg/mime/mediatype.go:270-280 | a byte is a hexadecimal digit exactly when it is a decimal digit or, once lowered, a letter from a to f |
| MimePercent.Unhex | src/pkg/mime/mediatype.go:282-292 | the digit value is below 16, and it is 0 for a byte that is not a hexadecimal digit |
| MimePercent.UnhexIgnoresCase | src/pkg/mime/mediatype.go:270-292 | ishex and unhex give the same answer for a letter in either case |
| MimePercent.HexDigit | src/pkg/mime/mediatype.go:270-292 | every value below 16 has a digit that ishex accepts and that unhex maps back to it |
| MimePercent.HexByte | src/pkg/mime/mediatype.go:258 | the byte computed as unhex(x)<<4 \| unhex(y) on bytes is the two digits read as a base-16 number, 16 * unhex(x) + unhex(y) |
| MimePercent.ShiftOrIsSum | src/pkg/mime/mediatype.go:258 | on bytes, hi<<4 \| lo is 16 * hi + lo when both digits are below 16: the shift and the or do not carry |
| MimePercent.Unescape | src/pkg/mime/mediatype.go:231-268 | a successful unescape is never longer than its input |
| MimePercent.Unescaped | src/pkg/mime/mediatype.go:147 | the text kept when the error is ignored is never longer than the input |
| MimePercent.UnescapeFailsIff | src/pkg/mime/mediatype.go:234-248 | unescaping fails exactly when some '%' is not followed by two hexadecimal digits (both directions) |
| MimePercent.UnescapeNoPercent | src/pkg/mime/mediatype.go:249-251 | without '%' the input comes back unchanged |
| MimePercent.UnescapeLength | src/pkg/mime/mediatype.go:253 | the output is the input's length minus two for each '%' |
| MimePercent.UnescapePercentEncode | src/pkg/mime/mediatype.go:255-267 | escaping every byte as %XY and unescaping gives the bytes back |
| MimePercent.PercentHexUnescape | src/pkg/mime/mediatype.go:231-268 | the checking loop and the copying loop over the exact-size buffer report an error exactly when Unescape fails, and otherwise return Unescape's text |
| MimeRfc2231.Decode2231Enc | src/pkg/mime/mediatype.go:134-149 | the decoded value is never longer than the encoded one, and it is empty when there is no quote |
| MimeRfc2231.Decode2231EncOf | src/pkg/mime/mediatype.go:134-149 | charset'lang'value decodes to the unescaped value when the charset is us-ascii or utf-8 in any letter case, and to "" otherwise; the language is ignored |
| MimeRfc2231.Decode2231EncShort | src/pkg/mime/mediatype.go:135-138 | with fewer than two quotes the result is "" |
| MimeRfc2231.Decode2231EncShape | src/pkg/mime/mediatype.go:134-149 | a non-empty result always comes from charset'lang'value with a supported charset, and is that value unescaped |
| MimeRfc2231.Decode2231EncRoundTrip | src/pkg/mime/mediatype.go:134-149 | percent-encoding bytes behind a supported charset and decoding them gives the bytes back |
| MimeRfc2231.PartBound | src/pkg/mime/mediatype.go:106-125 | a piece number that is present is bounded by the longest name, so the n loop ends |
| MimeRfc2231.SimplePartInjective | src/pkg/mime/mediatype.go:107 | the name "key*n" determines n |
| MimeRfc2231.EncodedIsNotSimple | src/pkg/mime/mediatype.go:107-113 | an encoded piece name "key*n*" is never a plain piece name "key*m" |
| MimeRfc2231.PieceText | src/pkg/mime/mediatype.go:108-121 | the text an encoded piece contributes is never longer than the piece as written |
| MimeRfc2231.JoinContinuations | src/pkg/mime/mediatype.go:104-125 | the n loop appends the pieces in index order up to the first missing number: plain pieces as they are, "key*0*" through decode2231Enc, later encoded pieces percent-decoded; valid holds exactly when piece 0 exists |
| MimeRfc2231.StitchValue | src/pkg/mime/mediatype.go:97-128 | a base name gets a value exactly when it has a lone "key*" piece or a piece 0, plain or encoded; a lone "key*" gives its decode2231Enc |
| MimeRfc2231.StitchOne | src/pkg/mime/mediatype.go:97-128 | a lone "key*" wins and is decoded; otherwise the joined pieces are stored when piece 0 exists, and nothing is stored otherwise |
| MimeRfc2231.StitchStep | src/pkg/mime/mediatype.go:96-129 | stitching one more base name updates that name alone |
| MimeRfc2231.StitchContinuations | src/pkg/mime/mediatype.go:93-129 | the loop over the continuation map, taking the base names in any order, produces Stitch: the parameters overridden by the stitched value of every base name that has one |
| MimeRfc2231.Stitch | src/pkg/mime/mediatype.go:93-129 | the result holds exactly the parameters and the stitched base names; a stitched name holds its stitched value, and every other parameter keeps its value |
| MimeRfc2231.StitchFrame | src/pkg/mime/mediatype.go:96-129 | after stitching, a base name with a stitched value holds it, and every other name is as before |
| MimeRfc2231.JoinedHoldsTexts | src/pkg/mime/mediatype.go:104-125 | joining a piece map whose pieces 0 .. n-1 are each plain or encoded, with the text each contributes, gives those texts concatenated in index order |
| MimeRfc2231.StitchHoldsTexts | src/pkg/mime/mediatype.go:104-128 | such a map, with no lone "key*", is stitched into the concatenated texts |
| MimeRfc2231.HoldsPartsTexts | src/pkg/mime/mediatype.go:108-111 | plain pieces key*0 .. key*(n-1) contribute their values as written |
| MimeRfc2231.EncodedMapHolds | src/pkg/mime/mediatype.go:113-121 | the encoded pieces key*n*=… written for a list of byte strings are exactly the names key*i* of the list's indices, with no plain piece among them |
| MimeRfc2231.EncodedMapHoldsTexts | src/pkg/mime/mediatype.go:113-121 | piece 0, written charset'lang'%XY…, contributes the first bytes through decode2231Enc, and piece i, written %XY…, contributes the i-th through percentHexUnescape |
| MimeRfc2231.StitchEncodedMap | src/pkg/mime/mediatype.go:104-128 | a byte string split into encoded continuations key*0*=charset'lang'%XY…, key*1*=%XY…, … is stitched back into the whole string |
| MimeRfc2231.StitchContinuationMap | src/pkg/mime/mediatype.go:104-128 | a value split into the plain continuations key*0, key*1, … is stitched back into the whole value |
| MimeMediaType.TypeEnd | src/pkg/mime/mediatype.go:40-43 | the media type ends at the first ';', or at the end of the input when there is none |
| MimeMediaType.Insert | src/pkg/mime/mediatype.go:73-89 | a plain name is an error exactly when it is already a parameter, and is otherwise added to the parameters; a starred name is an error exactly when its base name already has that piece, and otherwise is added to that base name's piece map, created when missing, with everything else unchanged |
| MimeMediaType.InsertTwice | src/pkg/mime/mediatype.go:85-88 | whatever a name is, storing it once makes storing it again an error |
| MimeMediaType.InsertKeeps | src/pkg/mime/mediatype.go:85-89 | storing a clause keeps every parameter with its value, every base name, and every piece filed under a base name with its value |
| MimeMediaType.ClauseStep | src/pkg/mime/mediatype.go:59-90 | one turn of the loop either stops, with the maps unchanged on success, or consumes input and keeps every parameter, base name and filed piece with its value |
| MimeMediaType.ScanStep | src/pkg/mime/mediatype.go:57-90 | the same, after the white space before the clause is skipped |
| MimeMediaType.Scan | src/pkg/mime/mediatype.go:57-91 | when the clause loop succeeds, every parameter, base name and filed piece it started with is still there with its value |
| MimeMediaType.ScanTrimmed | src/pkg/mime/mediatype.go:58 | the white space before a clause does not change the result of the clause loop |
| MimeMediaType.ScanNotClause | src/pkg/mime/mediatype.go:62-71 | a text that is not a clause ends the loop: without error at a lone ';', with an error otherwise |
| MimeMediaType.ScanClause | src/pkg/mime/mediatype.go:72-90 | a clause is stored, a plain name among the parameters and a starred one among the pieces of its base name; a name already present is an error |
| MimeMediaType.ScanParams | src/pkg/mime/mediatype.go:56-91 | the loop that reassigns v and fills both maps computes Scan |
| MimeMediaType.ParseAsWritten | src/pkg/mime/mediatype.go:40-47 | on success the media type is the trimmed, lowered text before the first ';' and it is valid; an invalid media type always gives ("", nil) |
| MimeMediaType.Parse | src/pkg/mime/mediatype.go:40-47 | the same for the corrected reading |
| MimeMediaType.ParseMediaType | src/pkg/mime/mediatype.go:39-132 | the function as written returns ParseAsWritten: ("", nil) on any error, otherwise the media type and its parameters |
| MimeMediaType.ParseMediaTypeFixed | src/pkg/mime/mediatype.go:39-132 | the function with a trailing ';' ending only the clause loop returns Parse |
| MimeMediaTypeLaws.AsWrittenDiffersOnlyAtTrailing | src/pkg/mime/mediatype.go:57-131 | both readings succeed on the same inputs with the same media type; they differ only when the loop stops at a trailing ';' with a starred parameter that has a stitched value |
| MimeMediaTypeLaws.ParsedMediaType | src/pkg/mime/mediatype.go:40-47 | on success the media type is a token or token/token with no capital letter, and it is the text before the first ';', lowered, with white space removed from both ends |
| MimeMediaTypeLaws.ScanNoStar | src/pkg/mime/mediatype.go:72-89 | the clause loop never stores a starred name among the parameters or as a base name |
| MimeMediaTypeLaws.ParsedNamesHaveNoStar | src/pkg/mime/mediatype.go:72-129 | no name in a returned parameter map holds '*' |
| MimeMediaTypeLaws.AddAllContents | src/pkg/mime/mediatype.go:85-89 | storing distinct names: each new name holds its value, the old names keep theirs, and no other name appears |
| MimeMediaTypeLaws.ScanClauses | src/pkg/mime/mediatype.go:57-91 | clauses with distinct plain names are all stored, in order |
| MimeMediaTypeLaws.ScanClausesDuplicate | src/pkg/mime/mediatype.go:85-88 | two clauses with the same plain name make the clause loop fail |
| MimeMediaTypeLaws.ScanTrailing | src/pkg/mime/mediatype.go:63-67 | a lone ';' followed by white space ends the clause loop without error |
| MimeMediaTypeLaws.ScanMalformed | src/pkg/mime/mediatype.go:63-70 | a clause that does not parse, and is not a lone ';', is an error |
| MimeMediaTypeLaws.ParseOfClauses | src/pkg/mime/mediatype.go:39-132 | a valid lowercase media type followed by quoted clauses with distinct token names parses to exactly those parameters, by both readings |
| MimeMediaTypeLaws.ParseOfClausesTrailing | src/pkg/mime/mediatype.go:63-67 | the same with a trailing ';': it is ignored |
| MimeMediaTypeLaws.ParseRejectsDuplicate | src/pkg/mime/mediatype.go:85-88 | a plain parameter name that occurs twice among the clauses gives ("", nil) |
| MimeMediaTypeLaws.ScanRepeatedName | src/pkg/mime/mediatype.go:73-88 | two clauses in a row with the same name, plain or starred, make the clause loop fail, whatever was stored before |
| MimeMediaTypeLaws.ParseRejectsRepeatedName | src/pkg/mime/mediatype.go:73-88 | after distinct plain clauses, a name given twice in a row, plain or starred, gives ("", nil) |
| MimeMediaTypeLaws.ParseRejectsRepeatedPart | src/pkg/mime/mediatype.go:80-88 | a continuation piece key*n given twice in a row gives ("", nil) |
| MimeMediaTypeLaws.ScanRepeatedContinuation | src/pkg/mime/mediatype.go:80-88 | after the continuation clauses key*0 .. key*(n-1), a clause giving one of those pieces again fails the clause loop, however many pieces lie between |
| MimeMediaTypeLaws.ParseRejectsRepeatedContinuation | src/pkg/mime/mediatype.go:80-88 | such a header value, for example t;k*0="a";k*1="b";k*0="c", gives ("", nil) by both readings |
| MimeMediaTypeLaws.ParseRejectsMalformed | src/pkg/mime/mediatype.go:69-70 | a malformed clause after well-formed ones gives ("", nil) |
| MimeMediaTypeLaws.ParseRejectsInvalidType | src/pkg/mime/mediatype.go:45-46 | a media type that is neither a token nor token/token gives ("", nil), whatever follows it |
| MimeMediaTypeLaws.PrefixMapHolds | src/pkg/mime/mediatype.go:74-89 | after the first i continuation clauses, the pieces of the base name are exactly key*0 .. key*(i-1) with their values |
| MimeMediaTypeLaws.PartName | src/pkg/mime/mediatype.go:74-75 | the name key*n is a token whose first '*' ends the base name |
| MimeMediaTypeLaws.ScanParts | src/pkg/mime/mediatype.go:72-90 | the clause loop files continuation clauses one by one under their base name |
| MimeMediaTypeLaws.ParseOfContinuations | src/pkg/mime/mediatype.go:72-129 | a value split into continuations key*0="…", key*1="…", … after a media type parses to the one parameter key holding the whole value, by both readings |
| MimeMediaTypeLaws.TrailingDropsContinuations | src/pkg/mime/mediatype.go:63-68 | as written, a trailing ';' after such continuations makes the parser return no parameters at all |
| MimeMediaTypeLaws.TrailingKeepsContinuations | src/pkg/mime/mediatype.go:63-68 | corrected, the same input gives the one parameter key holding the whole value |

## Left out

- White space and letter case are ASCII only. `unicode.IsSpace` and `strings.ToLower` also handle non-ASCII runes; the model does not.
- `consumeValue` ranges over the runes of a UTF-8 string (line 187) and writes them back with `WriteRune`. The model reads one character per step, which matches the source for ASCII input only.
- `IsTokenChar` is defined in a file of the mime package that is not part of this model. The model assumes its definition is the token alphabet of section 5.1 of RFC 2045.
- MimeLexer.UnquoteAt: the de-quoting loop has no contract of its own. Its properties are stated as lemmas about it (`UnquoteAtCloses`, `UnquoteQuote`, `UnquoteQuoteBreak`, `UnquoteQuoteUnclosed`), because a contract on the function itself makes the proof of `ConsumeMediaParamOfClause` exceed the verifier's resource limit.
- The text of the `percentHexUnescape` error (lines 241-245) is left out. The model keeps only the fact that an error occurred.
- Go's random map iteration order in the stitching loop (line 96) is modelled by an arbitrary choice (`:|`). `StitchContinuations` is proved to give the same result for every order.
- Go maps are references: `pmap` aliases `params` or an inner map of `continuation` (lines 73-84), and the store at line 89 goes through it. The model updates the maps as values (`Insert`), with the same effect. Because `continuation` is created lazily (line 76), a base name seen for the first time starts with an empty piece map in both.
- `fmt.Sprintf("%s*%d", key, n)` (line 107) is modelled only for n >= 0, which is the only case the loop produces.

## Findings

| source | as written | input that shows it | evidently intended | confidence | as-written member | corrected member |
|---|---|---|---|---|---|---|
| src/pkg/mime/mediatype.go:63-68 | at a lone trailing ';' the function returns at once, before the continuations are stitched (lines 93-129), so every starred parameter is lost | `text/plain;title*0="x";` gives `text/plain` with no parameters | a trailing ';' is "not an error" (the comment at lines 65-66), so it should only end the clause loop and `title` should be `x` | high; not executed | MimeMediaTypeLaws.TrailingDropsContinuations | MimeMediaTypeLaws.TrailingKeepsContinuations |

The as-written behaviour is `ParseAsWritten`, implemented by `MimeMediaType.ParseMediaType`.
The corrected behaviour is `Parse`, implemented by `MimeMediaType.ParseMediaTypeFixed`.
Both lemmas cover every continuation value followed by a lone ';':
- `TrailingDropsContinuations`: the as-written parser returns no parameters;
- `TrailingKeepsContinuations`: the corrected parser returns the whole value under its base name.

`AsWrittenDiffersOnlyAtTrailing` proves that this is the only place where the two readings differ.
