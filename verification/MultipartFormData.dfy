/**
 Alamofire's multipart/form-data encoder and the delimiter grammar of section 5.1.1 of RFC 2046.

 A body part is its header fields and the bytes its input stream holds. The encoder is specified on values; the parser
 reads the grammar from left to right and is the encoder's exact inverse on the parts the format can carry.
 */
module MultipartFormData {
  import opened Wire

  type Bytes = seq<byte>

  const CRLF: Bytes := [13, 10]
  const DASHES: Bytes := [45, 45]
  const COLON: Bytes := [58]
  const SPACE: Bytes := [32]

  datatype Header = Header(name: Bytes, value: Bytes)

  datatype Part = Part(headers: seq<Header>, body: Bytes)

  /** A body part with the two flags that say which boundaries it brings along. */
  datatype Piece = Piece(part: Part, initial: bool, final: bool)

  // ---------- encoding ----------

  function InitialBoundary(b: Bytes): Bytes {
    DASHES + b + CRLF
  }

  function EncapsulatedBoundary(b: Bytes): Bytes {
    CRLF + DASHES + b + CRLF
  }

  function FinalBoundary(b: Bytes): Bytes {
    CRLF + DASHES + b + DASHES + CRLF
  }

  function HeaderLine(h: Header): Bytes {
    h.name + (COLON + SPACE + h.value)
  }

  function HeaderLines(hs: seq<Header>): Bytes {
    if hs == [] then [] else HeaderLine(hs[0]) + CRLF + HeaderLines(hs[1..])
  }

  function EncodeHeaders(hs: seq<Header>): Bytes {
    HeaderLines(hs) + CRLF
  }

  function Opening(p: Piece, b: Bytes): Bytes {
    if p.initial then InitialBoundary(b) else EncapsulatedBoundary(b)
  }

  function Closing(p: Piece, b: Bytes): Bytes {
    if p.final then FinalBoundary(b) else []
  }

  function EncodePiece(p: Piece, b: Bytes): Bytes {
    Opening(p, b) + EncodeHeaders(p.part.headers) + p.part.body + Closing(p, b)
  }

  function EncodePieces(ps: seq<Piece>, b: Bytes): Bytes {
    if ps == [] then [] else EncodePiece(ps[0], b) + EncodePieces(ps[1..], b)
  }

  /** The first part opens the form and the last one closes it. */
  function Flagged(parts: seq<Part>): seq<Piece> {
    seq(|parts|, i requires 0 <= i < |parts| => Piece(parts[i], i == 0, i == |parts| - 1))
  }

  function Encode(parts: seq<Part>, b: Bytes): Bytes {
    EncodePieces(Flagged(parts), b)
  }

  // ---------- searching ----------

  predicate OccursAt(s: Bytes, pat: Bytes, k: nat) {
    k + |pat| <= |s| && s[k..k + |pat|] == pat
  }

  predicate Contains(s: Bytes, pat: Bytes) {
    exists k: nat | k <= |s| :: OccursAt(s, pat, k)
  }

  /** The first occurrence of `pat` at `from` or later. */
  function Find(s: Bytes, pat: Bytes, from: nat): (r: Option<nat>)
    requires from <= |s|
    ensures r.Some? ==> from <= r.value && OccursAt(s, pat, r.value)
    ensures r.Some? ==> forall j | from <= j < r.value :: !OccursAt(s, pat, j)
    ensures r.None? ==> forall j | from <= j <= |s| :: !OccursAt(s, pat, j)
    decreases |s| - from
  {
    if OccursAt(s, pat, from) then Some(from)
    else if from == |s| then None
    else Find(s, pat, from + 1)
  }

  /** Nothing after its first byte looks like the start of the pattern. */
  predicate Unbordered(pat: Bytes) {
    pat != [] && forall i | 0 < i < |pat| :: pat[i] != pat[0]
  }

  /** A match can not straddle the text before a pattern and the pattern: the first occurrence is the pattern itself. */
  lemma NoStraddle(x: Bytes, pat: Bytes, t: Bytes)
    requires Unbordered(pat) && !Contains(x, pat)
    ensures Find(x + pat + t, pat, 0) == Some(|x|)
  {
    var s := x + pat + t;
    assert OccursAt(s, pat, |x|);
    forall j | 0 <= j < |x| ensures !OccursAt(s, pat, j) {
      if j + |pat| <= |x| {
        assert !OccursAt(x, pat, j);
        assert s[j..j + |pat|] == x[j..j + |pat|];
      } else if j + |pat| <= |s| {
        assert s[j..j + |pat|][|x| - j] == s[|x|] == pat[0];
        assert pat[|x| - j] != pat[0];
      }
    }
  }

  lemma BeforeFirst(s: Bytes, pat: Bytes)
    requires Find(s, pat, 0).Some? && pat != []
    ensures var k := Find(s, pat, 0).value; !Contains(s[..k], pat) && s == s[..k] + pat + s[k + |pat|..]
  {
    var k := Find(s, pat, 0).value;
    forall j: nat | j <= k ensures !OccursAt(s[..k], pat, j) {
      if OccursAt(s[..k], pat, j) {
        assert s[j..j + |pat|] == s[..k][j..j + |pat|];
        assert OccursAt(s, pat, j);
      }
    }
  }

  // ---------- the grammar ----------

  function Delimiter(b: Bytes): Bytes {
    CRLF + DASHES + b
  }

  /** Everything after the first boundary line, as the grammar produces it. */
  function Production(parts: seq<Part>, b: Bytes): Bytes
    requires parts != []
  {
    EncodeHeaders(parts[0].headers) + (parts[0].body + Delimiter(b)
    + (if |parts| == 1 then DASHES + CRLF else CRLF + Production(parts[1..], b)))
  }

  function ParseHeader(line: Bytes): Option<Header> {
    match Find(line, COLON, 0)
    case None => None
    case Some(k) =>
      if SPACE <= line[k + 1..] then Some(Header(line[..k], line[k + 2..])) else None
  }

  datatype HeadersOut = BadHeaders | GoodHeaders(headers: seq<Header>, rest: Bytes)

  function ParseHeaders(s: Bytes): (r: HeadersOut)
    ensures r.GoodHeaders? ==> |r.rest| < |s|
    decreases |s|
  {
    if CRLF <= s then GoodHeaders([], s[2..])
    else
      match Find(s, CRLF, 0)
      case None => BadHeaders
      case Some(k) =>
        match ParseHeader(s[..k])
        case None => BadHeaders
        case Some(h) =>
          match ParseHeaders(s[k + 2..])
          case BadHeaders => BadHeaders
          case GoodHeaders(hs, rest) => GoodHeaders([h] + hs, rest)
  }

  datatype PartOut = BadPart | GoodPart(part: Part, after: Bytes)

  /** Header fields, a blank line, and a body that ends where the delimiter first occurs. */
  function ParsePart(s: Bytes, b: Bytes): (r: PartOut)
    ensures r.GoodPart? ==> |r.after| < |s|
  {
    match ParseHeaders(s)
    case BadHeaders => BadPart
    case GoodHeaders(hs, rest) =>
      match Find(rest, Delimiter(b), 0)
      case None => BadPart
      case Some(k) => GoodPart(Part(hs, rest[..k]), rest[k + |Delimiter(b)|..])
  }

  function ParseParts(s: Bytes, b: Bytes): Option<seq<Part>>
    decreases |s|
  {
    match ParsePart(s, b)
    case BadPart => None
    case GoodPart(part, after) =>
      if after == DASHES + CRLF then Some([part])
      else if CRLF <= after then
        match ParseParts(after[2..], b)
        case None => None
        case Some(ps) => Some([part] + ps)
      else None
  }

  /** A form starts with a line of two hyphens and the boundary (the dash-boundary of the grammar). */
  function Parse(s: Bytes, b: Bytes): Option<seq<Part>> {
    var opening := [45, 45] + b + [13, 10];
    if opening <= s then ParseParts(s[|opening|..], b) else None
  }

  // ---------- what the format can carry ----------

  predicate HeaderOk(h: Header) {
    !Contains(h.name, COLON) && !Contains(h.name, CRLF) && !Contains(h.value, CRLF)
  }

  predicate PartOk(p: Part, b: Bytes) {
    (forall h | h in p.headers :: HeaderOk(h)) && !Contains(p.body, Delimiter(b))
  }

  predicate PartsOk(parts: seq<Part>, b: Bytes) {
    forall p | p in parts :: PartOk(p, b)
  }

  lemma CrlfUnbordered()
    ensures Unbordered(CRLF) && Unbordered(COLON)
  {
  }

  /** A boundary without CR makes a delimiter whose only CR is its first byte. */
  lemma DelimiterUnbordered(b: Bytes)
    requires 13 !in b
    ensures Unbordered(Delimiter(b))
  {
    var d := Delimiter(b);
    forall i | 0 < i < |d| ensures d[i] != d[0] {
      if i >= 4 { assert d[i] == b[i - 4]; }
    }
  }

  lemma PairOccurs(s: Bytes, k: nat)
    ensures OccursAt(s, CRLF, k) <==> k + 1 < |s| && s[k] == 13 && s[k + 1] == 10
  {
    if k + 2 <= |s| { assert s[k..k + 2] == [s[k], s[k + 1]]; }
  }

  lemma SplitContains(x: Bytes, m: Bytes, y: Bytes)
    requires m != [] && 13 !in m && 10 !in m
    ensures Contains(x + (m + y), CRLF) <==> Contains(x, CRLF) || Contains(y, CRLF)
  {
    var s := x + (m + y);
    if Contains(x, CRLF) {
      var k: nat :| k <= |x| && OccursAt(x, CRLF, k);
      PairOccurs(x, k); PairOccurs(s, k);
    }
    if Contains(y, CRLF) {
      var k: nat :| k <= |y| && OccursAt(y, CRLF, k);
      PairOccurs(y, k); PairOccurs(s, |x| + |m| + k);
    }
    if Contains(s, CRLF) {
      var k: nat :| k <= |s| && OccursAt(s, CRLF, k);
      assert s[|x|] == m[0] && forall i | 0 <= i < |m| :: s[|x| + i] == m[i];
      PairOccurs(s, k);
      if k + 1 < |x| {
        PairOccurs(x, k);
      } else if k >= |x| + |m| {
        PairOccurs(y, k - |x| - |m|);
      }
    }
  }

  lemma LineContains(h: Header)
    ensures Contains(HeaderLine(h), CRLF) <==> Contains(h.name, CRLF) || Contains(h.value, CRLF)
  {
    SplitContains(h.name, COLON + SPACE, h.value);
  }

  // ---------- the parser undoes the encoder ----------

  lemma ParseHeaderLine(h: Header)
    requires HeaderOk(h)
    ensures ParseHeader(HeaderLine(h)) == Some(h)
  {
    CrlfUnbordered();
    var line := HeaderLine(h);
    NoStraddle(h.name, COLON, SPACE + h.value);
    assert h.name + COLON + (SPACE + h.value) == line;
    assert line[|h.name| + 1..] == SPACE + h.value;
    assert line[|h.name| + 2..] == h.value;
  }

  lemma LineIsNotBlank(h: Header, t: Bytes)
    requires HeaderOk(h)
    ensures !(CRLF <= HeaderLine(h) + CRLF + t)
  {
    var line := HeaderLine(h);
    var s := line + CRLF + t;
    if CRLF <= s {
      assert s[0] == 13 && s[1] == 10;
      assert line[0] == 13 && line[1] == 10;
      PairOccurs(line, 0);
      LineContains(h);
    }
  }

  lemma {:induction false} ParseEncodedHeaders(hs: seq<Header>, t: Bytes)
    requires forall h | h in hs :: HeaderOk(h)
    ensures ParseHeaders(EncodeHeaders(hs) + t) == GoodHeaders(hs, t)
    decreases |hs|
  {
    var s := EncodeHeaders(hs) + t;
    if hs == [] {
      assert s == CRLF + t;
      assert s[2..] == t;
    } else {
      var line, more := HeaderLine(hs[0]), EncodeHeaders(hs[1..]) + t;
      assert s == line + CRLF + more;
      LineIsNotBlank(hs[0], more);
      LineContains(hs[0]);
      CrlfUnbordered();
      NoStraddle(line, CRLF, more);
      assert s[..|line|] == line && s[|line| + 2..] == more;
      ParseHeaderLine(hs[0]);
      ParseEncodedHeaders(hs[1..], t);
      assert [hs[0]] + hs[1..] == hs;
    }
  }

  /** One round of the parser over one encoded part. */
  lemma ParseEncodedPart(p: Part, after: Bytes, b: Bytes)
    requires 13 !in b && PartOk(p, b)
    ensures ParsePart(EncodeHeaders(p.headers) + (p.body + Delimiter(b) + after), b) == GoodPart(p, after)
  {
    var rest := p.body + Delimiter(b) + after;
    ParseEncodedHeaders(p.headers, rest);
    DelimiterUnbordered(b);
    NoStraddle(p.body, Delimiter(b), after);
    assert rest[|p.body| + |Delimiter(b)|..] == after && rest[..|p.body|] == p.body;
  }

  lemma ParseAnother(s: Bytes, p: Part, more: Bytes, b: Bytes)
    requires ParsePart(s, b) == GoodPart(p, CRLF + more) && ParseParts(more, b).Some?
    ensures ParseParts(s, b) == Some([p] + ParseParts(more, b).value)
  {
    var after := CRLF + more;
    assert after[2..] == more;
    assert after[0] != (DASHES + CRLF)[0];
  }

  lemma PartsSplit(parts: seq<Part>, b: Bytes)
    requires parts != [] && PartsOk(parts, b)
    ensures PartOk(parts[0], b) && PartsOk(parts[1..], b) && parts == [parts[0]] + parts[1..]
  {
  }

  lemma {:induction false} ParseProduction(parts: seq<Part>, b: Bytes)
    requires parts != [] && 13 !in b && PartsOk(parts, b)
    ensures ParseParts(Production(parts, b), b) == Some(parts)
    decreases |parts|
  {
    PartsSplit(parts, b);
    if |parts| == 1 {
      assert parts == [parts[0]];
      ParseEncodedPart(parts[0], DASHES + CRLF, b);
    } else {
      var more := Production(parts[1..], b);
      ParseProduction(parts[1..], b);
      ParseEncodedPart(parts[0], CRLF + more, b);
      ParseAnother(Production(parts, b), parts[0], more, b);
    }
  }

  // ---------- the encoder undoes the parser ----------

  lemma ParsedHeader(line: Bytes)
    requires ParseHeader(line).Some? && !Contains(line, CRLF)
    ensures var h := ParseHeader(line).value; HeaderOk(h) && HeaderLine(h) == line
  {
    var h := ParseHeader(line).value;
    BeforeFirst(line, COLON);
    var k := Find(line, COLON, 0).value;
    assert line[k + 1..] == SPACE + line[k + 2..];
    assert HeaderLine(h) == line;
    LineContains(h);
  }

  lemma HeaderFirst(h: Header, hs: seq<Header>, t: Bytes)
    ensures EncodeHeaders([h] + hs) + t == HeaderLine(h) + CRLF + (EncodeHeaders(hs) + t)
  {
    assert ([h] + hs)[1..] == hs;
  }

  lemma {:induction false} ParsedHeaders(s: Bytes)
    requires ParseHeaders(s).GoodHeaders?
    ensures var r := ParseHeaders(s);
            (forall h | h in r.headers :: HeaderOk(h)) && EncodeHeaders(r.headers) + r.rest == s
    decreases |s|
  {
    var r := ParseHeaders(s);
    if CRLF <= s {
      assert s == CRLF + s[2..];
      assert EncodeHeaders([]) == CRLF;
    } else {
      var k := Find(s, CRLF, 0).value;
      BeforeFirst(s, CRLF);
      ParsedHeader(s[..k]);
      ParsedHeaders(s[k + 2..]);
      HeaderFirst(ParseHeader(s[..k]).value, ParseHeaders(s[k + 2..]).headers, r.rest);
    }
  }

  lemma ParsedPart(s: Bytes, b: Bytes)
    requires ParsePart(s, b).GoodPart?
    ensures var r := ParsePart(s, b);
            PartOk(r.part, b) && s == EncodeHeaders(r.part.headers) + (r.part.body + Delimiter(b) + r.after)
  {
    ParsedHeaders(s);
    BeforeFirst(ParseHeaders(s).rest, Delimiter(b));
  }

  lemma {:induction false} ParsedParts(s: Bytes, b: Bytes)
    requires ParseParts(s, b).Some?
    ensures var ps := ParseParts(s, b).value; ps != [] && PartsOk(ps, b) && Production(ps, b) == s
    decreases |s|
  {
    var ps, after := ParseParts(s, b).value, ParsePart(s, b).after;
    ParsedPart(s, b);
    if after == DASHES + CRLF {
      assert ps == [ParsePart(s, b).part];
    } else {
      ParsedParts(after[2..], b);
      assert ps[1..] == ParseParts(after[2..], b).value;
      assert after == CRLF + after[2..];
    }
  }

  // ---------- the flags give the grammar ----------

  lemma RegroupMore(o: Bytes, h: Bytes, y: Bytes, d: Bytes, c: Bytes, x: Bytes)
    ensures o + h + y + [] + ((d + c) + x) == o + (h + (y + d + (c + x)))
  {
  }

  lemma RegroupLast(o: Bytes, h: Bytes, y: Bytes, d: Bytes, x: Bytes)
    ensures o + h + y + (d + x) + [] == o + (h + (y + d + x))
  {
  }

  /** The pieces from some part on. */
  lemma {:induction false} PiecesProduction(ps: seq<Piece>, parts: seq<Part>, b: Bytes)
    requires |ps| == |parts| > 0
    requires forall i | 0 <= i < |ps| ::
      ps[i].part == parts[i] && (i > 0 ==> !ps[i].initial) && (ps[i].final <==> i == |ps| - 1)
    ensures EncodePieces(ps, b) == Opening(ps[0], b) + Production(parts, b)
    decreases |ps|
  {
    var hb, body := EncodeHeaders(parts[0].headers), parts[0].body;
    if |ps| == 1 {
      RegroupLast(Opening(ps[0], b), hb, body, Delimiter(b), DASHES + CRLF);
      assert FinalBoundary(b) == Delimiter(b) + (DASHES + CRLF);
    } else {
      PiecesProduction(ps[1..], parts[1..], b);
      RegroupMore(Opening(ps[0], b), hb, body, Delimiter(b), CRLF, Production(parts[1..], b));
    }
  }

  lemma EncodeIsProduction(parts: seq<Part>, b: Bytes)
    requires parts != []
    ensures Encode(parts, b) == [45, 45] + b + [13, 10] + Production(parts, b)
    ensures CRLF + Encode(parts, b) == Delimiter(b) + (CRLF + Production(parts, b))
  {
    PiecesProduction(Flagged(parts), parts, b);
    assert InitialBoundary(b) == [45, 45] + b + [13, 10];
    AfterLine(b, Production(parts, b));
  }

  /** A line break in front makes the opening line a delimiter line. */
  lemma AfterLine(b: Bytes, t: Bytes)
    ensures CRLF + ([45, 45] + b + [13, 10] + t) == Delimiter(b) + (CRLF + t)
  {
  }

  lemma ParseOpened(t: Bytes, b: Bytes)
    ensures Parse([45, 45] + b + [13, 10] + t, b) == ParseParts(t, b)
  {
    var opening := [45, 45] + b + [13, 10];
    assert (opening + t)[|opening|..] == t;
  }

  lemma ParseOfEncode(parts: seq<Part>, b: Bytes)
    requires 13 !in b && parts != [] && PartsOk(parts, b)
    ensures Parse(Encode(parts, b), b) == Some(parts)
  {
    EncodeIsProduction(parts, b);
    ParseOpened(Production(parts, b), b);
    ParseProduction(parts, b);
  }

  lemma EncodeOfParse(s: Bytes, b: Bytes)
    requires Parse(s, b).Some?
    ensures var parts := Parse(s, b).value; parts != [] && PartsOk(parts, b) && s == Encode(parts, b)
  {
    var opening := [45, 45] + b + [13, 10];
    var t := s[|opening|..];
    assert s == opening + t;
    ParsedParts(t, b);
    EncodeIsProduction(ParseParts(t, b).value, b);
  }

  /** Parsing succeeds exactly on the encodings of parts the format can carry, and gives those parts back. */
  lemma ParseInvertsEncode(s: Bytes, parts: seq<Part>, b: Bytes)
    requires 13 !in b
    ensures Parse(s, b) == Some(parts) <==> parts != [] && PartsOk(parts, b) && s == Encode(parts, b)
  {
    if Parse(s, b) == Some(parts) { EncodeOfParse(s, b); }
    if parts != [] && PartsOk(parts, b) { ParseOfEncode(parts, b); }
  }

  /** The round trip, and exactly when it holds. */
  lemma RoundTripIff(parts: seq<Part>, b: Bytes)
    requires 13 !in b && parts != []
    ensures Parse(Encode(parts, b), b) == Some(parts) <==> PartsOk(parts, b)
  {
    ParseInvertsEncode(Encode(parts, b), parts, b);
  }

  lemma EncodeInjective(p1: seq<Part>, p2: seq<Part>, b: Bytes)
    requires 13 !in b && PartsOk(p1, b) && PartsOk(p2, b)
    requires Encode(p1, b) == Encode(p2, b)
    ensures p1 == p2
  {
    if p1 == [] || p2 == [] {
      if p1 != [] { EncodeIsProduction(p1, b); }
      if p2 != [] { EncodeIsProduction(p2, b); }
    } else {
      ParseInvertsEncode(Encode(p1, b), p1, b);
      ParseInvertsEncode(Encode(p1, b), p2, b);
    }
  }

  // ---------- the form, byte by byte ----------

  /** Name, colon, space, value and line break for every header field. */
  function HeaderText(hs: seq<Header>): Bytes {
    if hs == [] then [] else hs[0].name + [58, 32] + hs[0].value + [13, 10] + HeaderText(hs[1..])
  }

  /** Header fields, a blank line and the body. */
  function PartText(p: Part): Bytes {
    HeaderText(p.headers) + [13, 10] + p.body
  }

  /** What follows a part: the other parts, each behind a delimiter line, and the closing delimiter line. */
  function RestText(parts: seq<Part>, b: Bytes): Bytes {
    if parts == [] then [13, 10, 45, 45] + b + [45, 45, 13, 10]
    else [13, 10, 45, 45] + b + [13, 10] + PartText(parts[0]) + RestText(parts[1..], b)
  }

  lemma {:induction false} HeadersAreText(hs: seq<Header>)
    ensures HeaderLines(hs) == HeaderText(hs)
  {
    if hs != [] {
      HeadersAreText(hs[1..]);
      assert COLON + SPACE + hs[0].value == [58, 32] + hs[0].value;
      assert hs[0].name + (COLON + SPACE + hs[0].value) == hs[0].name + [58, 32] + hs[0].value;
    }
  }

  lemma PartsLine(p: Part)
    ensures EncodeHeaders(p.headers) + p.body == PartText(p)
  {
    HeadersAreText(p.headers);
  }

  lemma ClosingText(p: Part, b: Bytes)
    ensures EncodeHeaders(p.headers) + (p.body + Delimiter(b) + (DASHES + CRLF)) == PartText(p) + RestText([], b)
  {
    PartsLine(p);
    assert Delimiter(b) + (DASHES + CRLF) == [13, 10, 45, 45] + b + [45, 45, 13, 10];
    Reassociate(EncodeHeaders(p.headers), p.body, Delimiter(b), DASHES + CRLF);
  }

  lemma Reassociate(h: Bytes, y: Bytes, d: Bytes, x: Bytes)
    ensures h + (y + d + x) == h + y + (d + x)
  {
  }

  lemma SeparatorText(p: Part, q: Part, more: Bytes, b: Bytes)
    ensures EncodeHeaders(p.headers) + (p.body + Delimiter(b) + (CRLF + (PartText(q) + more)))
         == PartText(p) + ([13, 10, 45, 45] + b + [13, 10] + PartText(q) + more)
  {
    PartsLine(p);
    assert Delimiter(b) + (CRLF + (PartText(q) + more)) == [13, 10, 45, 45] + b + [13, 10] + PartText(q) + more;
    Reassociate(EncodeHeaders(p.headers), p.body, Delimiter(b), CRLF + (PartText(q) + more));
  }

  lemma {:induction false} ProductionText(parts: seq<Part>, b: Bytes)
    requires parts != []
    ensures Production(parts, b) == PartText(parts[0]) + RestText(parts[1..], b)
    decreases |parts|
  {
    hide PartText, EncodeHeaders;
    if |parts| == 1 {
      ClosingText(parts[0], b);
      assert parts[1..] == [];
    } else {
      ProductionText(parts[1..], b);
      SeparatorText(parts[0], parts[1], RestText(parts[1..][1..], b), b);
    }
  }

  /** The whole form in bytes: hyphens 45, colon 58, space 32, line breaks 13 and 10. Without parts there is none. */
  lemma EncodeText(parts: seq<Part>, b: Bytes)
    ensures Encode(parts, b) == if parts == [] then []
                                else [45, 45] + b + [13, 10] + PartText(parts[0]) + RestText(parts[1..], b)
  {
    if parts != [] {
      EncodeIsProduction(parts, b);
      ProductionText(parts, b);
      Regather([45, 45] + b + [13, 10], PartText(parts[0]), RestText(parts[1..], b));
    }
  }

  lemma Regather(a: Bytes, b: Bytes, c: Bytes)
    ensures a + (b + c) == a + b + c
  {
  }

  // ---------- reusing an instance ----------

  /** What marking the first and the last body part does to the flags. */
  function Marked(ps: seq<Piece>): seq<Piece> {
    seq(|ps|, i requires 0 <= i < |ps| =>
      ps[i].(initial := ps[i].initial || i == 0, final := ps[i].final || i == |ps| - 1))
  }

  function PartsOf(ps: seq<Piece>): seq<Part> {
    seq(|ps|, i requires 0 <= i < |ps| => ps[i].part)
  }

  lemma Cancel(a: Bytes, x: Bytes, y: Bytes)
    requires a + x == a + y
    ensures x == y
  {
    assert x == (a + x)[|a|..];
    assert y == (a + y)[|a|..];
  }

  /** A boundary line that opens or separates can be told from the one that closes. */
  lemma FinalDiffers(p: Piece, b: Bytes, x: Bytes, y: Bytes)
    ensures FinalBoundary(b) + x != Opening(p, b) + y
  {
    var i := |Delimiter(b)|;
    assert (FinalBoundary(b) + x)[0] == 13;
    assert (FinalBoundary(b) + x)[i] == 45;
    if p.initial { assert (Opening(p, b) + y)[0] == 45; } else { assert (Opening(p, b) + y)[i] == 13; }
  }

  lemma PieceStarts(p: Piece, b: Bytes, x: Bytes)
    ensures EncodePiece(p, b) + x
         == Opening(p, b) + (EncodeHeaders(p.part.headers) + p.part.body + (Closing(p, b) + x))
  {
  }

  lemma HeadFlags(p: Piece, q: Piece, b: Bytes, ps: seq<Piece>, qs: seq<Piece>)
    requires p.part == q.part && |ps| == |qs|
    requires EncodePiece(p, b) + EncodePieces(ps, b) == EncodePiece(q, b) + EncodePieces(qs, b)
    ensures p == q && EncodePieces(ps, b) == EncodePieces(qs, b)
  {
    var x, y := EncodePieces(ps, b), EncodePieces(qs, b);
    var common := EncodeHeaders(p.part.headers) + p.part.body;
    var fp, fq := Closing(p, b), Closing(q, b);
    PieceStarts(p, b, x);
    PieceStarts(q, b, y);
    assert InitialBoundary(b)[0] == 45 && EncapsulatedBoundary(b)[0] == 13;
    assert (Opening(p, b) + (common + (fp + x)))[0] == Opening(p, b)[0];
    assert (Opening(q, b) + (common + (fq + y)))[0] == Opening(q, b)[0];
    Cancel(Opening(p, b), common + (fp + x), common + (fq + y));
    Cancel(common, fp + x, fq + y);
    if ps != [] {
      PieceStarts(ps[0], b, EncodePieces(ps[1..], b));
      PieceStarts(qs[0], b, EncodePieces(qs[1..], b));
    }
    if p.final != q.final {
      assert [] + x == x && [] + y == y;
      if ps != [] {
        FinalDiffers(ps[0], b, y, x[|Opening(ps[0], b)|..]);
        FinalDiffers(qs[0], b, x, y[|Opening(qs[0], b)|..]);
      }
    } else {
      Cancel(fp, x, y);
    }
  }

  lemma {:induction false} EncodingShowsFlags(ps: seq<Piece>, qs: seq<Piece>, b: Bytes)
    requires PartsOf(ps) == PartsOf(qs) && EncodePieces(ps, b) == EncodePieces(qs, b)
    ensures ps == qs
  {
    assert |ps| == |PartsOf(ps)| && |qs| == |PartsOf(qs)|;
    assert forall i | 0 <= i < |ps| :: ps[i].part == PartsOf(ps)[i] == qs[i].part;
    if ps != [] {
      HeadFlags(ps[0], qs[0], b, ps[1..], qs[1..]);
      EncodingShowsFlags(ps[1..], qs[1..], b);
      assert ps == [ps[0]] + ps[1..] && qs == [qs[0]] + qs[1..];
    }
  }

  /** With whatever flags the parts carry, encoding gives the form exactly when no flag is left over in between. */
  lemma EncodesFormIff(ps: seq<Piece>, b: Bytes)
    ensures EncodePieces(Marked(ps), b) == Encode(PartsOf(ps), b)
       <==> forall i | 0 <= i < |ps| :: (ps[i].initial ==> i == 0) && (ps[i].final ==> i == |ps| - 1)
  {
    var m, f := Marked(ps), Flagged(PartsOf(ps));
    assert PartsOf(m) == PartsOf(f);
    if EncodePieces(m, b) == Encode(PartsOf(ps), b) {
      EncodingShowsFlags(m, f, b);
      forall i | 0 <= i < |ps| ensures (ps[i].initial ==> i == 0) && (ps[i].final ==> i == |ps| - 1) {
        assert m[i] == f[i];
      }
    }
    if forall i | 0 <= i < |ps| :: (ps[i].initial ==> i == 0) && (ps[i].final ==> i == |ps| - 1) {
      assert m == f;
    }
  }
}
