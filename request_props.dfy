/** What the scanners of lib/request.js guarantee, proved on the functions of
    module RequestSpec: which Content-Type headers select the multipart path,
    how a well-formed body, Cookie header and Accept-Language header are read
    back, and that the languages come out sorted. */
module RequestProperties {
  import opened Js
  import opened RequestSpec

  // ---------------------------------------------------------------------
  // Scanning over a known run of characters
  // ---------------------------------------------------------------------

  /** Every character of `t` is in `cs`. */
  predicate AllIn(t: string, cs: set<char>)
  {
    forall k :: 0 <= k < |t| ==> t[k] in cs
  }

  /** No character of `t` is in `cs`. */
  predicate NoneIn(t: string, cs: set<char>)
  {
    forall k :: 0 <= k < |t| ==> t[k] !in cs
  }

  /** `t` written at position i of s. */
  predicate Holds(s: string, i: nat, t: string)
  {
    i + |t| <= |s| && s[i..i + |t|] == t
  }

  /** SkipOver passes a run of skipped characters and stops right after it
      when what follows is not skipped. */
  lemma {:induction false} SkipOverRun(s: string, i: nat, t: string, skip: set<char>)
    requires Holds(s, i, t) && AllIn(t, skip)
    requires i + |t| < |s| ==> s[i + |t|] !in skip
    ensures SkipOver(s, i, skip) == i + |t|
    decreases |t|
  {
    if t != [] {
      assert s[i] == t[0];
      assert s[i + 1..i + |t|] == t[1..];
      SkipOverRun(s, i + 1, t[1..], skip);
    }
  }

  /** ScanTo passes a run free of stop characters and stops right after it
      when what follows is a stop character or the end. */
  lemma {:induction false} ScanToRun(s: string, i: nat, t: string, stop: set<char>)
    requires Holds(s, i, t) && NoneIn(t, stop)
    requires i + |t| < |s| ==> s[i + |t|] in stop
    ensures ScanTo(s, i, stop) == i + |t|
    decreases |t|
  {
    if t != [] {
      assert s[i] == t[0];
      assert s[i + 1..i + |t|] == t[1..];
      ScanToRun(s, i + 1, t[1..], stop);
    }
  }

  /** `indexOf` finds an occurrence with none before it. */
  lemma IndexOfFirst<T>(s: seq<T>, pat: seq<T>, from: nat, k: nat)
    requires |pat| > 0 && from <= k && At(s, k, pat)
    requires forall p :: from <= p < k ==> !At(s, p, pat)
    ensures IndexOf(s, pat, from) == k
  {
    IndexOfFacts(s, pat, from);
  }

  /** `indexOf` gives -1 only when there is no occurrence at all. */
  lemma IndexOfFinds<T>(s: seq<T>, pat: seq<T>, from: nat, k: nat)
    requires |pat| > 0 && from <= k && At(s, k, pat)
    ensures 0 <= IndexOf(s, pat, from) <= k
  {
    IndexOfFacts(s, pat, from);
  }

  // ---------------------------------------------------------------------
  // parsePOST: the Content-Type header
  // ---------------------------------------------------------------------

  /** `t` at the end of `x + t`. */
  lemma HoldsEnd(x: string, t: string)
    ensures Holds(x + t, |x|, t)
  {
    assert (x + t)[|x|..|x| + |t|] == t;
  }

  /** What is written in x stays written when x is extended. */
  lemma HoldsExtend(x: string, y: string, i: nat, t: string)
    requires Holds(x, i, t)
    ensures Holds(x + y, i, t)
  {
    assert (x + y)[i..i + |t|] == x[i..i + |t|];
  }

  /** Spaces, the multipart type, separators, `boundary`, separators and the
      boundary, each part as lib/request.js:6-48 requires it. */
  predicate MultipartParts(pad: string, sep1: string, sep2: string, b: string)
  {
    && AllIn(pad, {' '})
    && sep1 != "" && AllIn(sep1, {' ', ';'})
    && sep2 != "" && AllIn(sep2, {' ', '='})
    && b != "" && b[0] !in {' ', '='}
  }

  function MultipartHeader(pad: string, sep1: string, sep2: string, b: string): string
  {
    pad + MultipartType + sep1 + BoundaryName + sep2 + b
  }

  /** Neither token holds a character that ends it. */
  lemma TokensRun()
    ensures NoneIn(MultipartType, {' ', ';'}) && NoneIn(BoundaryName, {' ', '='})
    ensures MultipartType[0] == 'm' && BoundaryName[0] == 'b'
  {
    assert ' ' !in MultipartType && ';' !in MultipartType;
    assert ' ' !in BoundaryName && '=' !in BoundaryName;
  }

  /** The Content-Type scan, once the ends of its five runs are known. */
  lemma PostKindOfAt(ct: string, i0: nat, i1: nat, i2: nat, i3: nat, i4: nat)
    requires i0 == SkipOver(ct, 0, {' '}) && i0 < |ct|
    requires i1 == ScanTo(ct, i0, {' ', ';'}) && ct[i0..i1] == MultipartType
    requires i2 == SkipOver(ct, i1, {' ', ';'}) && i2 < |ct|
    requires i3 == ScanTo(ct, i2, {' ', '='}) && ct[i2..i3] == BoundaryName && i3 < |ct|
    requires i4 == SkipOver(ct, i3, {' ', '='}) && i4 < |ct|
    ensures PostKindOf(ct) == Multipart(ct[i4..])
  {
  }

  /** The scan over a header with the five runs written at a0..a4. */
  lemma PostKindOfRuns(ct: string, pad: string, sep1: string, sep2: string, b: string,
                       a1: nat, a2: nat, a3: nat, a4: nat)
    requires MultipartParts(pad, sep1, sep2, b)
    requires a1 == |pad| + |MultipartType| && a2 == a1 + |sep1| && a3 == a2 + |BoundaryName| && a4 == a3 + |sep2|
    requires Holds(ct, 0, pad) && Holds(ct, |pad|, MultipartType) && Holds(ct, a1, sep1)
    requires Holds(ct, a2, BoundaryName) && Holds(ct, a3, sep2) && Holds(ct, a4, b) && a4 + |b| == |ct|
    ensures PostKindOf(ct) == Multipart(b)
  {
    TokensRun();
    assert ct[|pad|] == 'm' && ct[a1] == sep1[0] && ct[a2] == 'b' && ct[a3] == sep2[0] && ct[a4] == b[0];
    SkipOverRun(ct, 0, pad, {' '});
    ScanToRun(ct, |pad|, MultipartType, {' ', ';'});
    SkipOverRun(ct, a1, sep1, {' ', ';'});
    ScanToRun(ct, a2, BoundaryName, {' ', '='});
    SkipOverRun(ct, a3, sep2, {' ', '='});
    assert ct[a4..] == b;
    PostKindOfAt(ct, |pad|, a1, a2, a3, a4);
  }

  /** A header made of those parts selects the multipart path with boundary
      `b`, as in `multipart/form-data; boundary=b`. */
  lemma PostKindOfMultipart(pad: string, sep1: string, sep2: string, b: string)
    requires MultipartParts(pad, sep1, sep2, b)
    ensures PostKindOf(MultipartHeader(pad, sep1, sep2, b)) == Multipart(b)
  {
    var p1 := pad + MultipartType;
    var p2 := p1 + sep1;
    var p3 := p2 + BoundaryName;
    var p4 := p3 + sep2;
    var ct := p4 + b;
    assert Holds(pad, 0, pad);
    HoldsExtend(pad, MultipartType, 0, pad);
    HoldsExtend(p1, sep1, 0, pad);
    HoldsExtend(p2, BoundaryName, 0, pad);
    HoldsExtend(p3, sep2, 0, pad);
    HoldsExtend(p4, b, 0, pad);
    HoldsEnd(pad, MultipartType);
    HoldsExtend(p1, sep1, |pad|, MultipartType);
    HoldsExtend(p2, BoundaryName, |pad|, MultipartType);
    HoldsExtend(p3, sep2, |pad|, MultipartType);
    HoldsExtend(p4, b, |pad|, MultipartType);
    HoldsEnd(p1, sep1);
    HoldsExtend(p2, BoundaryName, |p1|, sep1);
    HoldsExtend(p3, sep2, |p1|, sep1);
    HoldsExtend(p4, b, |p1|, sep1);
    HoldsEnd(p2, BoundaryName);
    HoldsExtend(p3, sep2, |p2|, BoundaryName);
    HoldsExtend(p4, b, |p2|, BoundaryName);
    HoldsEnd(p3, sep2);
    HoldsExtend(p4, b, |p3|, sep2);
    HoldsEnd(p4, b);
    PostKindOfRuns(ct, pad, sep1, sep2, b, |p1|, |p2|, |p3|, |p4|);
  }

  /** Where the five runs of the Content-Type scan end. */
  lemma ScanEnds(ct: string, b: string) returns (i0: nat, i1: nat, i2: nat, i3: nat, i4: nat)
    requires PostKindOf(ct) == Multipart(b)
    ensures i0 <= i1 < i2 <= i3 < i4 < |ct|
    ensures forall k :: 0 <= k < i0 ==> ct[k] in {' '}
    ensures ct[i0..i1] == MultipartType
    ensures forall k :: i1 <= k < i2 ==> ct[k] in {' ', ';'}
    ensures ct[i2..i3] == BoundaryName
    ensures forall k :: i3 <= k < i4 ==> ct[k] in {' ', '='}
    ensures ct[i4..] == b && ct[i4] !in {' ', '='}
  {
    i0 := SkipOver(ct, 0, {' '});
    i1 := ScanTo(ct, i0, {' ', ';'});
    i2 := SkipOver(ct, i1, {' ', ';'});
    i3 := ScanTo(ct, i2, {' ', '='});
    i4 := SkipOver(ct, i3, {' ', '='});
    ScanEndsOrder(ct, b, i0, i1, i2, i3, i4);
    SkipOverStops(ct, 0, {' '});
    ScanToStops(ct, i0, {' ', ';'});
    SkipOverStops(ct, i1, {' ', ';'});
    ScanToStops(ct, i2, {' ', '='});
    SkipOverStops(ct, i3, {' ', '='});
  }

  /** The tokens the Content-Type scan compared, and where its runs end. */
  lemma ScanEndsOrder(ct: string, b: string, i0: nat, i1: nat, i2: nat, i3: nat, i4: nat)
    requires PostKindOf(ct) == Multipart(b)
    requires i0 == SkipOver(ct, 0, {' '}) && i1 == ScanTo(ct, i0, {' ', ';'})
    requires i2 == SkipOver(ct, i1, {' ', ';'}) && i3 == ScanTo(ct, i2, {' ', '='})
    requires i4 == SkipOver(ct, i3, {' ', '='})
    ensures i0 <= i1 <= i2 <= i3 <= i4 < |ct| && i3 < |ct| && i1 < |ct|
    ensures ct[i0..i1] == MultipartType && ct[i2..i3] == BoundaryName && ct[i4..] == b
  {
  }

  /** And only such a header does: whenever the multipart path is taken, the
      header splits into those parts. */
  lemma MultipartOnlyFrom(ct: string, b: string) returns (pad: string, sep1: string, sep2: string)
    requires PostKindOf(ct) == Multipart(b)
    ensures MultipartParts(pad, sep1, sep2, b) && ct == MultipartHeader(pad, sep1, sep2, b)
  {
    var i0, i1, i2, i3, i4 := ScanEnds(ct, b);
    pad, sep1, sep2 := Assemble(ct, b, i0, i1, i2, i3, i4);
  }

  /** The runs found by ScanEnds put back together. */
  lemma Assemble(ct: string, b: string, i0: nat, i1: nat, i2: nat, i3: nat, i4: nat)
    returns (pad: string, sep1: string, sep2: string)
    requires i0 <= i1 < i2 <= i3 < i4 < |ct|
    requires forall k :: 0 <= k < i0 ==> ct[k] in {' '}
    requires ct[i0..i1] == MultipartType
    requires forall k :: i1 <= k < i2 ==> ct[k] in {' ', ';'}
    requires ct[i2..i3] == BoundaryName
    requires forall k :: i3 <= k < i4 ==> ct[k] in {' ', '='}
    requires ct[i4..] == b && ct[i4] !in {' ', '='}
    ensures MultipartParts(pad, sep1, sep2, b) && ct == MultipartHeader(pad, sep1, sep2, b)
  {
    pad, sep1, sep2 := ct[..i0], ct[i1..i2], ct[i3..i4];
    assert MultipartParts(pad, sep1, sep2, b);
    Split(ct, i0, i1);
    Split(ct, i1, i2);
    Split(ct, i2, i3);
    Split(ct, i3, i4);
    Split(ct, i4, |ct|);
  }

  /** The first j elements of s are the first i followed by those between. */
  lemma Split(s: string, i: nat, j: nat)
    requires i <= j <= |s|
    ensures s[..j] == s[..i] + s[i..j]
  {
  }

  // ---------------------------------------------------------------------
  // parsePOST: the body
  // ---------------------------------------------------------------------

  /** The start of a part's header up to its name. */
  const FieldStart := "Content-Disposition: form-data; " + NameMarker

  /** The rest of the header, and the empty line after it. */
  const FieldEnd := "\"\r\n\r\n"

  /** A body holding one field `name` with content `value`, as a browser
      sends it, and the closing delimiter. */
  function FieldBody(b: string, name: string, value: string): string
  {
    Opening(b) + FieldStart + name + FieldEnd + value + Closing(b) + "--"
  }

  /** No character of `t`, written at i, is a quote. */
  lemma NoQuoteIn(s: string, i: nat, t: string)
    requires Holds(s, i, t) && '"' !in t
    ensures forall q :: i <= q < i + |t| ==> s[q] != '"'
  {
    forall q | i <= q < i + |t|
      ensures s[q] != '"'
    {
      assert s[q] == t[q - i];
    }
  }

  /** t followed by u. */
  lemma HoldsJoin(s: string, i: nat, t: string, u: string)
    requires Holds(s, i, t) && Holds(s, i + |t|, u)
    ensures Holds(s, i, t + u)
  {
    assert s[i..i + |t| + |u|] == s[i..i + |t|] + s[i + |t|..i + |t| + |u|];
  }

  /** The literal facts the header scan of a field relies on. */
  lemma FieldLiterals()
    ensures |FieldStart| == 38 && FieldStart[32..] == NameMarker
    ensures forall q :: 0 <= q < 37 ==> FieldStart[q] != '"'
    ensures |FieldEnd| == 5 && FieldEnd[0] == '"' && '"' !in FieldEnd[1..]
  {
    assert '"' !in FieldStart[..37];
    forall q | 0 <= q < 37
      ensures FieldStart[q] != '"'
    {
      assert FieldStart[q] == FieldStart[..37][q];
    }
  }

  /** lib/request.js:58-64 on a field header: `name="` is found where the
      header writes it, and the name runs up to the quote after it. */
  lemma NameFound(body: string, b: string, i: nat, name: string, o2: nat, o3: nat)
    requires Holds(body, i + 4 + |b|, FieldStart) && o2 == i + 4 + |b| + |FieldStart|
    requires Holds(body, o2, name) && '"' !in name && o3 == o2 + |name|
    requires o3 < |body| && body[o3] == '"'
    ensures PartName(body, b, i) == Some((name, o3 + 1))
  {
    NameMarkerFound(body, b, i, o2);
    NameEnd(body, name, o2, o3);
    PartNameFrom(body, b, i, name, o2, o3);
  }

  /** The name runs from `o2` up to the quote after it. */
  lemma NameEnd(body: string, name: string, o2: nat, o3: nat)
    requires Holds(body, o2, name) && '"' !in name && o3 == o2 + |name|
    requires o3 < |body| && body[o3] == '"'
    ensures IndexOf(body, "\"", o2) == o3 && Substring(body, o2, o3) == name && o2 + |name| == o3
  {
    CharFound(body, name, '"', o2, o3);
    SubstringHolds(body, o2, name, o3);
  }

  /** The name runs from six characters after the marker up to the quote. */
  lemma PartNameFrom(body: string, b: string, i: nat, name: string, o2: nat, q: nat)
    requires IndexOf(body, NameMarker, i + 4 + |b|) + 6 == o2 && 6 <= o2
    requires IndexOf(body, "\"", o2) == q && Substring(body, o2, q) == name && o2 + |name| == q
    ensures PartName(body, b, i) == Some((name, q + 1))
  {
    var n := IndexOf(body, NameMarker, i + 4 + |b|);
    assert n + 6 == o2;
  }

  /** The first `name="` after the opening is the one the header writes. */
  lemma NameMarkerFound(body: string, b: string, i: nat, o2: nat)
    requires Holds(body, i + 4 + |b|, FieldStart) && o2 == i + 4 + |b| + |FieldStart|
    ensures IndexOf(body, NameMarker, i + 4 + |b|) + 6 == o2
  {
    FieldLiterals();
    var k := o2 - 6;
    assert body[k..k + 6] == FieldStart[32..];
    forall p | i + 4 + |b| <= p < k
      ensures !At(body, p, NameMarker)
    {
      assert body[p + 5] == FieldStart[p + 5 - (i + 4 + |b|)] != '"';
      if p + 6 <= |body| {
        assert body[p..p + 6][5] == body[p + 5] != NameMarker[5];
      }
    }
    IndexOfFirst(body, NameMarker, i + 4 + |b|, k);
  }

  /** The first c after the start of a run of characters other than c is the
      one that ends the run. */
  lemma CharFound(body: string, t: string, c: char, from: nat, at: nat)
    requires Holds(body, from, t) && c !in t && at == from + |t|
    requires at < |body| && body[at] == c
    ensures IndexOf(body, [c], from) == at
  {
    assert body[at..at + 1] == [c];
    forall p | from <= p < at
      ensures !At(body, p, [c])
    {
      assert body[p] == t[p - from] != c;
      if p + 1 <= |body| {
        assert body[p..p + 1][0] == body[p] != c;
      }
    }
    IndexOfFirst(body, [c], from, at);
  }

  /** With no quote from `from` on, no `filename="` follows. */
  lemma NoFilename(body: string, from: nat)
    requires forall q :: from <= q < |body| ==> body[q] != '"'
    ensures IndexOf(body, FilenameMarker, from) == -1
  {
    forall q | from <= q
      ensures !At(body, q, FilenameMarker)
    {
      if q + 10 <= |body| {
        assert body[q..q + 10][9] == body[q + 9] != FilenameMarker[9];
      }
    }
    IndexOfFacts(body, FilenameMarker, from);
  }

  /** With no CR in the value, the first closing delimiter after it is the
      one that follows it. */
  lemma ClosingFound(body: string, b: string, value: string, o4: nat, o5: nat)
    requires Holds(body, o4, value) && '\r' !in value && o5 == o4 + |value|
    requires Holds(body, o5, Closing(b))
    ensures IndexOf(body, Closing(b), o4) == o5
  {
    forall p | o4 <= p < o5
      ensures !At(body, p, Closing(b))
    {
      assert body[p] == value[p - o4] != '\r';
      if p + |Closing(b)| <= |body| {
        assert body[p..p + |Closing(b)|][0] == body[p] != Closing(b)[0];
      }
    }
    IndexOfFirst(body, Closing(b), o4, o5);
  }

  /** After content that ends at j, a dash where an opening would have its
      CR, as in the closing delimiter `--b--`, is not an opening: the part
      loop, back two characters after j, ends there, changing nothing more
      (lib/request.js:57). */
  lemma ClosingEndsParts(body: string, b: string, j: nat, st: PostState, fuel: nat)
    requires j + 4 + |b| < |body| && body[j + 4 + |b|] == '-'
    ensures Parts(body, b, j + 2, st, fuel) == (st, false)
  {
    assert Opening(b)[2 + |b|] == '\r';
    if j + 6 + |b| <= |body| {
      assert Substr(body, j + 2, 4 + |b|)[2 + |b|] == body[j + 4 + |b|];
    }
  }

  /** One pass of the part loop: a part opened at `index` with header `h`
      whose content ends at j is stored, and the loop goes on two characters
      after j. */
  lemma PartStep(content: string, b: string, index: nat, st: PostState, fuel: nat, h: PartHeader, j: nat,
                  st1: PostState)
    requires fuel > 0 && Holds(content, index, Opening(b)) && ReadPartHeader(content, b, index) == Some(h)
    requires IndexOf(content, Closing(b), h.contentStart) == j && h.contentStart <= j <= |content|
    requires st1 == Store(st, h, content[h.contentStart..j])
    ensures Parts(content, b, index, st, fuel) == Parts(content, b, j + 2, st1, fuel - 1)
  {
    PartsAtOpening(content, b, index, st, fuel);
    PartRead(content, b, index, st, fuel, h);
    ContentEnds(content, b, h, st, fuel, j, st1);
  }

  /** A pass whose header is read goes on with the part's content. */
  lemma PartRead(content: string, b: string, index: nat, st: PostState, fuel: nat, h: PartHeader)
    requires fuel > 0 && ReadPartHeader(content, b, index) == Some(h)
    ensures Part(content, b, index, st, fuel) == PartContent(content, b, h, st, fuel)
  {
  }

  /** Content that ends at j is stored, and the loop goes on two characters
      after j. */
  lemma ContentEnds(content: string, b: string, h: PartHeader, st: PostState, fuel: nat, j: nat, st1: PostState)
    requires fuel > 0 && IndexOf(content, Closing(b), h.contentStart) == j && h.contentStart <= j <= |content|
    requires st1 == Store(st, h, content[h.contentStart..j])
    ensures PartContent(content, b, h, st, fuel) == Parts(content, b, j + 2, st1, fuel - 1)
  {
  }

  /** At an opening, with fuel left, the loop makes a pass. */
  lemma PartsAtOpening(content: string, b: string, index: nat, st: PostState, fuel: nat)
    requires fuel > 0 && Holds(content, index, Opening(b))
    ensures Parts(content, b, index, st, fuel) == Part(content, b, index, st, fuel)
  {
    assert Substr(content, index, 4 + |b|) == Opening(b);
    PartsOpen(content, b, index, st, fuel);
  }

  /** The header scan of a part whose name ends before i3 and which has no
      `filename="` after it. */
  lemma PlainHeader(body: string, b: string, i: nat, name: string, i3: nat)
    requires PartName(body, b, i) == Some((name, i3)) && IndexOf(body, FilenameMarker, i3) == -1
    ensures ReadPartHeader(body, b, i) == Some(PartHeader(name, None, "", i3 + 4))
  {
  }

  /** Where the scans of lib/request.js:57-79 land in the body of one field. */
  lemma FieldScans(body: string, b: string, i: nat, name: string, value: string, o2: nat, o3: nat, o4: nat, o5: nat)
    requires '"' !in name && '"' !in value && '"' !in b && '\r' !in value
    requires FieldLaid(body, b, i, name, value, o2, o3, o4, o5)
    ensures FieldFound(body, b, i, name, value, o3 + 1, o4, o5)
    ensures o5 + 4 + |b| < |body| && body[o5 + 4 + |b|] == '-'
  {
    FieldLiterals();
    assert body[o3] == FieldEnd[0];
    NameFound(body, b, i, name, o2, o3);
    FilenameScan(body, b, value, o3, o4, o5);
    ClosingScan(body, b, value, o4, o5);
  }

  /** No `filename="` follows the name of the one field. */
  lemma FilenameScan(body: string, b: string, value: string, o3: nat, o4: nat, o5: nat)
    requires '"' !in value && '"' !in b
    requires Holds(body, o3, FieldEnd)
    requires o4 == o3 + |FieldEnd| && Holds(body, o4, value)
    requires o5 == o4 + |value| && Holds(body, o5, Closing(b))
    requires Holds(body, o5 + |Closing(b)|, "--") && o5 + |Closing(b)| + 2 == |body|
    ensures IndexOf(body, FilenameMarker, o3 + 1) == -1
  {
    QuoteFreeTail(body, b, value, o3, o4, o5);
    NoFilename(body, o3 + 1);
  }

  /** The content of the one field ends at the closing delimiter, whose
      dashes start `--b--`. */
  lemma ClosingScan(body: string, b: string, value: string, o4: nat, o5: nat)
    requires '\r' !in value && Holds(body, o4, value)
    requires o5 == o4 + |value| && Holds(body, o5, Closing(b))
    requires Holds(body, o5 + |Closing(b)|, "--")
    ensures IndexOf(body, Closing(b), o4) == o5 && body[o4..o5] == value
    ensures o5 + 4 + |b| < |body| && body[o5 + 4 + |b|] == '-'
  {
    ClosingFound(body, b, value, o4, o5);
    assert body[o5 + |Closing(b)|] == "--"[0];
  }

  /** No quote follows the one after the name. */
  lemma QuoteFreeTail(body: string, b: string, value: string, o3: nat, o4: nat, o5: nat)
    requires '"' !in value && '"' !in b
    requires Holds(body, o3, FieldEnd)
    requires o4 == o3 + |FieldEnd| && Holds(body, o4, value)
    requires o5 == o4 + |value| && Holds(body, o5, Closing(b))
    requires Holds(body, o5 + |Closing(b)|, "--") && o5 + |Closing(b)| + 2 == |body|
    ensures forall q :: o3 + 1 <= q < |body| ==> body[q] != '"'
  {
    FieldLiterals();
    HoldsDrop(body, o3, FieldEnd, 1);
    NoQuoteIn(body, o3 + 1, FieldEnd[1..]);
    NoQuoteIn(body, o4, value);
    assert '"' !in Closing(b);
    NoQuoteIn(body, o5, Closing(b));
    NoQuoteIn(body, o5 + |Closing(b)|, "--");
  }

  /** What is written at i from its k-th character on. */
  lemma HoldsDrop(s: string, i: nat, t: string, k: nat)
    requires Holds(s, i, t) && k <= |t|
    ensures Holds(s, i + k, t[k..])
  {
    assert s[i + k..i + |t|] == s[i..i + |t|][k..];
  }

  /** The body of one field opened at i, with its pieces at o2..o5, ending
      the body. */
  predicate FieldLaid(body: string, b: string, i: nat, name: string, value: string, o2: nat, o3: nat, o4: nat, o5: nat)
  {
    && Holds(body, i, Opening(b)) && Holds(body, i + 4 + |b|, FieldStart)
    && o2 == i + 4 + |b| + |FieldStart| && Holds(body, o2, name)
    && o3 == o2 + |name| && Holds(body, o3, FieldEnd)
    && o4 == o3 + |FieldEnd| && Holds(body, o4, value)
    && o5 == o4 + |value| && Holds(body, o5, Closing(b))
    && Holds(body, o5 + |Closing(b)|, "--") && o5 + |Closing(b)| + 2 == |body|
  }

  /** A field written at i, ending the body, is laid out as in its own body,
      shifted by i. */
  lemma FieldLaidShift(body: string, i: nat, tail: string, b: string, name: string, value: string,
                       o2: nat, o3: nat, o4: nat, o5: nat)
    requires Holds(body, i, tail) && i + |tail| == |body| && FieldLaid(tail, b, 0, name, value, o2, o3, o4, o5)
    ensures FieldLaid(body, b, i, name, value, i + o2, i + o3, i + o4, i + o5)
  {
    HoldsPrefix(body, i, tail, Opening(b));
    HoldsShift(body, i, tail, 4 + |b|, FieldStart);
    HoldsShift(body, i, tail, o2, name);
    HoldsShift(body, i, tail, o3, FieldEnd);
    HoldsShift(body, i, tail, o4, value);
    HoldsShift(body, i, tail, o5, Closing(b));
    HoldsShift(body, i, tail, o5 + |Closing(b)|, "--");
  }

  /** The body of one field, with its parts at the positions o2..o5. */
  lemma FieldParts(body: string, b: string, i: nat, name: string, value: string, st: PostState, fuel: nat,
                   o2: nat, o3: nat, o4: nat, o5: nat)
    requires '"' !in name && '"' !in value && '"' !in b && '\r' !in value && fuel > 0
    requires FieldLaid(body, b, i, name, value, o2, o3, o4, o5)
    ensures Parts(body, b, i, st, fuel) == (st.(query := st.query[name := value]), false)
  {
    FieldScans(body, b, i, name, value, o2, o3, o4, o5);
    FieldPass(body, b, i, name, value, st, fuel, o3 + 1, o4, o5);
  }

  /** Where the scans of lib/request.js:57-79 land in a field opened at i:
      its name ends before i3, no `filename="` follows, and its content
      runs from c to the delimiter at j. */
  predicate FieldFound(body: string, b: string, i: nat, name: string, value: string, i3: nat, c: nat, j: nat)
  {
    && Holds(body, i, Opening(b))
    && PartName(body, b, i) == Some((name, i3)) && IndexOf(body, FilenameMarker, i3) == -1
    && c == i3 + 4 && IndexOf(body, Closing(b), c) == j && c <= j && body[c..j] == value
  }

  /** The pass of the part loop over one field stores it in `query`, and
      the loop then ends on the `--b--` two characters after the content. */
  lemma FieldPass(body: string, b: string, i: nat, name: string, value: string, st: PostState, fuel: nat,
                  i3: nat, c: nat, j: nat)
    requires fuel > 0 && FieldFound(body, b, i, name, value, i3, c, j)
    requires j + 4 + |b| < |body| && body[j + 4 + |b|] == '-'
    ensures Parts(body, b, i, st, fuel) == (st.(query := st.query[name := value]), false)
  {
    PlainHeader(body, b, i, name, i3);
    var h := PartHeader(name, None, "", c);
    var st1 := st.(query := st.query[name := value]);
    PartStep(body, b, i, st, fuel, h, j, st1);
    ClosingEndsParts(body, b, j, st1, fuel - 1);
  }

  /** lib/request.js:57-90 on a body holding one field: its content, up to
      the closing delimiter, is stored in `query` under its name, and the
      loop ends on `--b--`. */
  lemma FieldRoundTrip(b: string, name: string, value: string, st: PostState, fuel: nat)
    requires '"' !in name && '"' !in value && '"' !in b && '\r' !in value && fuel > 0
    ensures Parts(FieldBody(b, name, value), b, 0, st, fuel) == (st.(query := st.query[name := value]), false)
  {
    var o2, o3, o4, o5 := FieldLayout(b, name, value);
    FieldParts(FieldBody(b, name, value), b, 0, name, value, st, fuel, o2, o3, o4, o5);
  }

  /** Where the pieces of the body of one field sit. */
  lemma FieldLayout(b: string, name: string, value: string) returns (o2: nat, o3: nat, o4: nat, o5: nat)
    ensures FieldLaid(FieldBody(b, name, value), b, 0, name, value, o2, o3, o4, o5)
  {
    var p1 := Opening(b) + FieldStart;
    var p2 := p1 + name;
    var p3 := p2 + FieldEnd;
    var p4 := p3 + value;
    var p5 := p4 + Closing(b);
    var body := p5 + "--";
    assert Holds(Opening(b), 0, Opening(b));
    HoldsExtend(Opening(b), FieldStart, 0, Opening(b));
    HoldsExtend(p1, name, 0, Opening(b));
    HoldsExtend(p2, FieldEnd, 0, Opening(b));
    HoldsExtend(p3, value, 0, Opening(b));
    HoldsExtend(p4, Closing(b), 0, Opening(b));
    HoldsExtend(p5, "--", 0, Opening(b));
    HoldsEnd(Opening(b), FieldStart);
    HoldsExtend(p1, name, |Opening(b)|, FieldStart);
    HoldsExtend(p2, FieldEnd, |Opening(b)|, FieldStart);
    HoldsExtend(p3, value, |Opening(b)|, FieldStart);
    HoldsExtend(p4, Closing(b), |Opening(b)|, FieldStart);
    HoldsExtend(p5, "--", |Opening(b)|, FieldStart);
    HoldsEnd(p1, name);
    HoldsExtend(p2, FieldEnd, |p1|, name);
    HoldsExtend(p3, value, |p1|, name);
    HoldsExtend(p4, Closing(b), |p1|, name);
    HoldsExtend(p5, "--", |p1|, name);
    HoldsEnd(p2, FieldEnd);
    HoldsExtend(p3, value, |p2|, FieldEnd);
    HoldsExtend(p4, Closing(b), |p2|, FieldEnd);
    HoldsExtend(p5, "--", |p2|, FieldEnd);
    HoldsEnd(p3, value);
    HoldsExtend(p4, Closing(b), |p3|, value);
    HoldsExtend(p5, "--", |p3|, value);
    HoldsEnd(p4, Closing(b));
    HoldsExtend(p5, "--", |p4|, Closing(b));
    HoldsEnd(p5, "--");
    o2, o3, o4, o5 := |p1|, |p2|, |p3|, |p4|;
  }

  /** `parsePOST` with a multipart Content-Type and a one-field body stores
      the field in `query` and nothing else. */
  lemma ParsePostField(pad: string, sep1: string, sep2: string, b: string, name: string, value: string, st: PostState)
    requires MultipartParts(pad, sep1, sep2, b)
    requires '"' !in name && '"' !in value && '"' !in b && '\r' !in value
    ensures ParsePost(MultipartHeader(pad, sep1, sep2, b), FieldBody(b, name, value), st)
            == (st.(query := st.query[name := value]), false)
  {
    PostKindOfMultipart(pad, sep1, sep2, b);
    FieldPost(MultipartHeader(pad, sep1, sep2, b), b, name, value, st);
  }

  /** The multipart path over a one-field body. */
  lemma FieldPost(ct: string, b: string, name: string, value: string, st: PostState)
    requires PostKindOf(ct) == Multipart(b)
    requires '"' !in name && '"' !in value && '"' !in b && '\r' !in value
    ensures ParsePost(ct, FieldBody(b, name, value), st) == (st.(query := st.query[name := value]), false)
  {
    var body := FieldBody(b, name, value);
    ParsePostParts(ct, body, st, b);
    FieldRoundTrip(b, name, value, st, |body| + 1);
  }

  /** The multipart path runs the part loop over the body. */
  lemma ParsePostParts(ct: string, body: string, st: PostState, b: string)
    requires PostKindOf(ct) == Multipart(b)
    ensures ParsePost(ct, body, st) == Parts(body, b, 0, st, |body| + 1)
  {
  }

  // ---------------------------------------------------------------------
  // parsePOST: file parts, and a body of two parts
  // ---------------------------------------------------------------------

  /** The closing quote of a file part's name and the `filename="` after it. */
  const FileMid := "\"; filename=\""

  /** The closing quote of the file name and the start of the type line. */
  const TypeStart := "\"\r\nContent-Type: "

  /** The end of the type line and the empty line after it. */
  const HeaderEnd := "\r\n\r\n"

  /** A file part as a browser sends it, up to the CR LF that starts the
      delimiter after its content. */
  function FilePart(b: string, name: string, filename: string, mimeType: string, value: string): string
  {
    Opening(b) + FieldStart + name + FileMid + filename + TypeStart + mimeType + HeaderEnd + value + "\r\n"
  }

  /** What a part with header `h` leaves in the members once its content is
      `value`: the part as lib/request.js:80-88 stores it. */
  function FileStored(st: PostState, name: string, filename: string, mimeType: string, value: string): PostState
  {
    if filename != "" then st.(files := st.files[name := File(value, filename, mimeType)])
    else st.(query := st.query[name := value])
  }

  /** The literal facts the header scan of a file part relies on. */
  lemma FileLiterals()
    ensures |FileMid| == 13 && FileMid[0] == '"' && FileMid[1] == ';' && FileMid[2] == ' '
    ensures FileMid[3..] == FilenameMarker
    ensures |TypeStart| == 17 && TypeStart[0] == '"' && TypeStart[1] == '\r' && TypeStart[2] == '\n'
    ensures TypeStart[3..] == TypeMarker
    ensures |HeaderEnd| == 4 && HeaderEnd[0] == '\r'
  {
  }

  /** `t` is written at |x| of s when s starts with x + t, and s then starts
      with x. */
  lemma HoldsPiece(s: string, x: string, t: string)
    requires |x + t| <= |s| && s[..|x + t|] == x + t
    ensures Holds(s, |x|, t) && s[..|x|] == x
  {
    assert s[|x|..|x| + |t|] == s[..|x + t|][|x|..];
    assert s[..|x|] == s[..|x + t|][..|x|];
  }

  /** What is written inside what is written at i. */
  lemma HoldsShift(s: string, i: nat, x: string, j: nat, t: string)
    requires Holds(s, i, x) && Holds(x, j, t)
    ensures Holds(s, i + j, t)
  {
    forall k | 0 <= k < |t|
      ensures s[i + j + k] == t[k]
    {
      assert s[i + j + k] == s[i..i + |x|][j + k] == x[j + k] == x[j..j + |t|][k];
    }
  }

  /** What is written at the start of what is written at i. */
  lemma HoldsPrefix(s: string, i: nat, x: string, t: string)
    requires Holds(s, i, x) && Holds(x, 0, t)
    ensures Holds(s, i, t)
  {
    HoldsShift(s, i, x, 0, t);
  }

  /** Where the pieces of a file part followed by `tail` sit. */
  lemma FileLayout(b: string, name: string, filename: string, mimeType: string, value: string, tail: string)
    returns (o3: nat, ti: nat, tq: nat, om: nat, ov: nat, oc: nat)
    ensures var body := FilePart(b, name, filename, mimeType, value) + tail;
            && Holds(body, 0, Opening(b)) && FileHeaderLaid(body, b, name, filename, mimeType, o3, ti, tq, om)
            && ov == om + |mimeType| + 4
            && Holds(body, ov, value) && oc == ov + |value| && Holds(body, oc, "\r\n")
            && Holds(body, oc + 2, tail) && |body| == oc + 2 + |tail|
  {
    var p1 := Opening(b) + FieldStart;
    var p2 := p1 + name;
    var p3 := p2 + FileMid;
    var p4 := p3 + filename;
    var p5 := p4 + TypeStart;
    var p6 := p5 + mimeType;
    var p7 := p6 + HeaderEnd;
    var p8 := p7 + value;
    var p9 := p8 + "\r\n";
    var body := p9 + tail;
    assert body[..|body|] == body;
    HoldsPiece(body, p9, tail);
    HoldsPiece(body, p8, "\r\n");
    HoldsPiece(body, p7, value);
    HoldsPiece(body, p6, HeaderEnd);
    HoldsPiece(body, p5, mimeType);
    HoldsPiece(body, p4, TypeStart);
    HoldsPiece(body, p3, filename);
    HoldsPiece(body, p2, FileMid);
    HoldsPiece(body, p1, name);
    HoldsPiece(body, Opening(b), FieldStart);
    HoldsPiece(body, [], Opening(b));
    o3, ti, tq, om, ov, oc := |p2|, |p3|, |p4|, |p5|, |p7|, |p8|;
  }

  /** lib/request.js:65: the `filename="` right after the name's closing
      quote is the first one. */
  lemma FilenameMarkerFound(body: string, o3: nat)
    requires Holds(body, o3, FileMid)
    ensures IndexOf(body, FilenameMarker, o3 + 1) == o3 + 3
  {
    FileLiterals();
    HoldsDrop(body, o3, FileMid, 3);
    assert body[o3 + 1] == FileMid[1] && body[o3 + 2] == FileMid[2];
    forall p | o3 + 1 <= p < o3 + 3
      ensures !At(body, p, FilenameMarker)
    {
      if p + 10 <= |body| {
        assert body[p..p + 10][0] == body[p] != FilenameMarker[0];
      }
    }
    IndexOfFirst(body, FilenameMarker, o3 + 1, o3 + 3);
  }

  /** lib/request.js:69-70: searching from one before the file name's closing
      quote, the first `Content-Type: ` is the one on the next line. */
  lemma TypeMarkerFound(body: string, tq: nat, from: nat)
    requires from + 1 == tq && Holds(body, tq, TypeStart)
    ensures IndexOf(body, TypeMarker, from) == tq + 3
  {
    FileLiterals();
    HoldsDrop(body, tq, TypeStart, 3);
    assert body[tq] == '"' && body[tq + 1] == '\r' && body[tq + 2] == '\n';
    forall p | from <= p < tq + 3
      ensures !At(body, p, TypeMarker)
    {
      if p + 14 <= |body| {
        if p == from {
          assert body[p..p + 14][1] == body[tq] != TypeMarker[1];
        } else {
          assert body[p..p + 14][0] == body[p] != TypeMarker[0];
        }
      }
    }
    IndexOfFirst(body, TypeMarker, from, tq + 3);
  }

  /** The slice a piece written at i spans. */
  lemma HoldsSlice(s: string, i: nat, t: string, j: nat)
    requires Holds(s, i, t) && j == i + |t|
    ensures s[i..j] == t
  {
  }

  /** What `substring` returns over a piece written at i. */
  lemma SubstringHolds(s: string, i: nat, t: string, j: nat)
    requires Holds(s, i, t) && j == i + |t|
    ensures Substring(s, i, j) == t
  {
  }

  /** A `filename="` found at t makes the part a file part. */
  lemma PartRestFile(content: string, name: string, i3: nat, ti: nat)
    requires ti >= 10 && IndexOf(content, FilenameMarker, i3) + 10 == ti
    ensures PartRest(content, name, i3) == FileHeader(content, name, i3, ti)
  {
    var t := IndexOf(content, FilenameMarker, i3);
    assert t + 10 == ti;
  }

  /** Where the scans of lib/request.js:58-74 land in a part opened at 0: the
      name ends before i3, `filename="` ends at ti, the file name runs up to
      the quote at q, the type starts at ci and runs up to the CR at e. */
  predicate HeaderFound(body: string, b: string, name: string, filename: string, mimeType: string,
                        i3: nat, ti: nat, q: nat, ci: nat, e: nat)
  {
    && PartName(body, b, 0) == Some((name, i3)) && ti >= 10 && IndexOf(body, FilenameMarker, i3) + 10 == ti
    && IndexOf(body, "\"", ti) == q && Substring(body, ti, q) == filename
    && TypeFrom(body, i3, filename) == ci
    && IndexOf(body, "\r", ci) == e && Substring(body, ci, e) == mimeType
  }

  /** lib/request.js:58-74 on a part opened at 0, once the scans are known to
      land where given: the header holds the name, the file name and the
      type found there. */
  lemma FileHeaderRead(body: string, b: string, name: string, filename: string, mimeType: string,
                       i3: nat, ti: nat, q: nat, ci: nat, e: nat, ov: nat)
    requires HeaderFound(body, b, name, filename, mimeType, i3, ti, q, ci, e) && ov == e + 4
    ensures ReadPartHeader(body, b, 0) == Some(PartHeader(name, Some(filename), mimeType, ov))
  {
    assert ReadPartHeader(body, b, 0) == Some(PartRest(body, name, i3));
    PartRestFile(body, name, i3, ti);
    assert FileHeader(body, name, i3, ti) == TypeLine(body, name, filename, ci);
    assert TypeLine(body, name, filename, ci) == PartHeader(name, Some(filename), mimeType, ov);
  }

  /** Where the scans of lib/request.js:58-66 land in the header of a file
      part opened at 0: the name, and the `filename="` after it. */
  lemma FileNameScan(body: string, b: string, name: string, filename: string, mimeType: string,
                     o3: nat, ti: nat, tq: nat, om: nat)
    requires '"' !in name && FileHeaderLaid(body, b, name, filename, mimeType, o3, ti, tq, om)
    ensures PartName(body, b, 0) == Some((name, o3 + 1)) && ti >= 10 && IndexOf(body, FilenameMarker, o3 + 1) + 10 == ti
  {
    assert |FileMid| == 13 && FileMid[0] == '"';
    assert body[o3] == FileMid[0];
    NameFound(body, b, 0, name, 4 + |b| + |FieldStart|, o3);
    FilenameMarkerFound(body, o3);
  }

  /** lib/request.js:67-68: the file name runs up to the quote that starts
      the type line. */
  lemma FileNameEnd(body: string, b: string, name: string, filename: string, mimeType: string,
                    o3: nat, ti: nat, tq: nat, om: nat)
    requires '"' !in filename && FileHeaderLaid(body, b, name, filename, mimeType, o3, ti, tq, om)
    ensures IndexOf(body, "\"", ti) == tq && Substring(body, ti, tq) == filename
  {
    assert |TypeStart| == 17 && TypeStart[0] == '"';
    assert body[tq] == TypeStart[0];
    CharFound(body, filename, '"', ti, tq);
    SubstringHolds(body, ti, filename, tq);
  }

  /** lib/request.js:70-74: the type runs from after `Content-Type: ` up to
      the CR that ends its line. */
  lemma TypeScan(body: string, b: string, name: string, filename: string, mimeType: string,
                 o3: nat, ti: nat, tq: nat, om: nat)
    requires '\r' !in mimeType && FileHeaderLaid(body, b, name, filename, mimeType, o3, ti, tq, om)
    ensures TypeFrom(body, o3 + 1, filename) == om
    ensures IndexOf(body, "\r", om) == om + |mimeType| && Substring(body, om, om + |mimeType|) == mimeType
  {
    assert |TypeStart| == 17;
    TypeMarkerFound(body, tq, o3 + 12 + |filename|);
    assert |HeaderEnd| == 4 && HeaderEnd[0] == '\r';
    assert body[om + |mimeType|] == HeaderEnd[0];
    CharFound(body, mimeType, '\r', om, om + |mimeType|);
    SubstringHolds(body, om, mimeType, om + |mimeType|);
  }

  /** The header of a file part opened at 0, its pieces written where
      given. */
  predicate FileHeaderLaid(body: string, b: string, name: string, filename: string, mimeType: string,
                           o3: nat, ti: nat, tq: nat, om: nat)
  {
    && Holds(body, 4 + |b|, FieldStart)
    && Holds(body, 4 + |b| + |FieldStart|, name) && o3 == 4 + |b| + |FieldStart| + |name|
    && Holds(body, o3, FileMid) && ti == o3 + 13 && Holds(body, ti, filename)
    && tq == ti + |filename| && Holds(body, tq, TypeStart)
    && om == tq + 17 && Holds(body, om, mimeType) && Holds(body, om + |mimeType|, HeaderEnd)
  }

  /** Where the scans of lib/request.js:58-74 land in a file part opened
      at 0 with its pieces written where given. */
  lemma FileHeaderScans(body: string, b: string, name: string, filename: string, mimeType: string,
                        o3: nat, ti: nat, tq: nat, om: nat)
    requires '"' !in name && '"' !in filename && '\r' !in mimeType
    requires FileHeaderLaid(body, b, name, filename, mimeType, o3, ti, tq, om)
    ensures HeaderFound(body, b, name, filename, mimeType, o3 + 1, ti, tq, om, om + |mimeType|)
  {
    FileNameScan(body, b, name, filename, mimeType, o3, ti, tq, om);
    FileNameEnd(body, b, name, filename, mimeType, o3, ti, tq, om);
    TypeScan(body, b, name, filename, mimeType, o3, ti, tq, om);
  }

  /** lib/request.js:58-74 on a file part opened at 0 with its pieces
      written where given: the header is read back as written, and the
      content starts after the empty line. */
  lemma FileHeaderAt(body: string, b: string, name: string, filename: string, mimeType: string,
                     o3: nat, ti: nat, tq: nat, om: nat, ov: nat)
    requires '"' !in name && '"' !in filename && '\r' !in mimeType
    requires FileHeaderLaid(body, b, name, filename, mimeType, o3, ti, tq, om) && ov == om + |mimeType| + 4
    ensures ReadPartHeader(body, b, 0) == Some(PartHeader(name, Some(filename), mimeType, ov))
  {
    FileHeaderScans(body, b, name, filename, mimeType, o3, ti, tq, om);
    FileHeaderRead(body, b, name, filename, mimeType, o3 + 1, ti, tq, om, om + |mimeType|, ov);
  }

  /** lib/request.js:76-79: with no CR in the content, the delimiter after
      it is the first one, and the content is what lies between. */
  lemma ContentScan(body: string, b: string, value: string, ov: nat, oc: nat)
    requires '\r' !in value && Holds(body, ov, value) && oc == ov + |value|
    requires Holds(body, oc, "\r\n") && Holds(body, oc + 2, "--" + b)
    ensures IndexOf(body, Closing(b), ov) == oc && ov <= oc <= |body| && body[ov..oc] == value
  {
    assert |"\r\n"| == 2;
    HoldsJoin(body, oc, "\r\n", "--" + b);
    assert Closing(b) == "\r\n" + ("--" + b);
    ClosingFound(body, b, value, ov, oc);
    HoldsSlice(body, ov, value, oc);
  }

  /** lib/request.js:76-89 on a part opened at 0 whose header has been read:
      the content up to the next delimiter is stored, and the loop goes on
      at the dashes of that delimiter. */
  lemma FileContentAt(body: string, b: string, name: string, filename: string, mimeType: string, value: string,
                      st: PostState, fuel: nat, ov: nat, oc: nat)
    requires fuel > 0 && Holds(body, 0, Opening(b))
    requires ReadPartHeader(body, b, 0) == Some(PartHeader(name, Some(filename), mimeType, ov))
    requires IndexOf(body, Closing(b), ov) == oc && ov <= oc <= |body| && body[ov..oc] == value
    ensures Parts(body, b, 0, st, fuel) == Parts(body, b, oc + 2, FileStored(st, name, filename, mimeType, value), fuel - 1)
  {
    var h := PartHeader(name, Some(filename), mimeType, ov);
    PartStep(body, b, 0, st, fuel, h, oc, FileStored(st, name, filename, mimeType, value));
  }

  /** One pass of the part loop over a file part opened at 0, its pieces
      written where given. */
  lemma FilePassAt(body: string, b: string, name: string, filename: string, mimeType: string, value: string,
                   st: PostState, fuel: nat, o3: nat, ti: nat, tq: nat, om: nat, ov: nat, oc: nat)
    requires '"' !in name && '"' !in filename && '\r' !in mimeType && '\r' !in value && fuel > 0
    requires Holds(body, 0, Opening(b)) && FileHeaderLaid(body, b, name, filename, mimeType, o3, ti, tq, om)
    requires ov == om + |mimeType| + 4 && Holds(body, ov, value) && oc == ov + |value|
    requires Holds(body, oc, "\r\n") && Holds(body, oc + 2, "--" + b)
    ensures Parts(body, b, 0, st, fuel) == Parts(body, b, oc + 2, FileStored(st, name, filename, mimeType, value), fuel - 1)
  {
    FileHeaderAt(body, b, name, filename, mimeType, o3, ti, tq, om, ov);
    ContentScan(body, b, value, ov, oc);
    FileContentAt(body, b, name, filename, mimeType, value, st, fuel, ov, oc);
  }

  /** One pass of the part loop over a file part opened at 0: the file is
      stored and the loop goes on at the dashes of the delimiter after it,
      whatever follows. */
  lemma FilePass(b: string, name: string, filename: string, mimeType: string, value: string, tail: string,
                 st: PostState, fuel: nat) returns (next: nat)
    requires '"' !in name && '"' !in filename && '\r' !in mimeType && '\r' !in value && fuel > 0
    requires Holds(tail, 0, "--" + b)
    ensures var body := FilePart(b, name, filename, mimeType, value) + tail;
            && next + |tail| == |body| && Holds(body, next, tail)
            && Parts(body, b, 0, st, fuel)
               == Parts(body, b, next, FileStored(st, name, filename, mimeType, value), fuel - 1)
  {
    var body := FilePart(b, name, filename, mimeType, value) + tail;
    var o3, ti, tq, om, ov, oc := FileLayout(b, name, filename, mimeType, value, tail);
    HoldsPrefix(body, oc + 2, tail, "--" + b);
    FilePassAt(body, b, name, filename, mimeType, value, st, fuel, o3, ti, tq, om, ov, oc);
    next := oc + 2;
  }

  /** lib/request.js:57-90 on a body holding one file part: the content, the
      file name and the type are stored in `files` under the part's name
      (in `query` when the file name is empty), and the loop ends on
      `--b--`. */
  lemma FileRoundTrip(b: string, name: string, filename: string, mimeType: string, value: string,
                      st: PostState, fuel: nat)
    requires '"' !in name && '"' !in filename && '\r' !in mimeType && '\r' !in value && fuel > 0
    ensures var body := FilePart(b, name, filename, mimeType, value) + ("--" + b + "--");
            && (filename != "" ==>
                  Parts(body, b, 0, st, fuel) == (st.(files := st.files[name := File(value, filename, mimeType)]), false))
            && (filename == "" ==> Parts(body, b, 0, st, fuel) == (st.(query := st.query[name := value]), false))
  {
    var tail := "--" + b + "--";
    assert tail[..2 + |b|] == "--" + b;
    var body := FilePart(b, name, filename, mimeType, value) + tail;
    var next := FilePass(b, name, filename, mimeType, value, tail, st, fuel);
    assert body[next + 2 + |b|] == tail[2 + |b|];
    ClosingEndsParts(body, b, next - 2, FileStored(st, name, filename, mimeType, value), fuel - 1);
  }

  /** lib/request.js:57-90 on a body holding a file part and then a field:
      after the first part the cursor moves two characters past the CR LF
      that ends it (:89), onto the opening of the second, and both parts are
      stored. A field before a file part would itself be read as a file part,
      as FilenameAnywhere shows. */
  lemma TwoPartsRoundTrip(b: string, name: string, filename: string, mimeType: string, value: string,
                          name2: string, value2: string, st: PostState, fuel: nat)
    requires '"' !in name && '"' !in filename && '\r' !in mimeType && '\r' !in value
    requires '"' !in name2 && '"' !in value2 && '"' !in b && '\r' !in value2
    requires fuel >= 2
    ensures var body := FilePart(b, name, filename, mimeType, value) + FieldBody(b, name2, value2);
            var st1 := FileStored(st, name, filename, mimeType, value);
            && (filename != "" ==> st1.files == st.files[name := File(value, filename, mimeType)] && st1.query == st.query)
            && (filename == "" ==> st1.files == st.files && st1.query == st.query[name := value])
            && Parts(body, b, 0, st, fuel) == (st1.(query := st1.query[name2 := value2]), false)
  {
    var tail := FieldBody(b, name2, value2);
    var body := FilePart(b, name, filename, mimeType, value) + tail;
    FieldBodyOpens(b, name2, value2);
    var i := FilePass(b, name, filename, mimeType, value, tail, st, fuel);
    FieldAfterPass(body, i, b, name2, value2, st, FileStored(st, name, filename, mimeType, value), fuel);
  }

  /** A pass of the part loop that ends where the body of one field starts
      is followed by that field, and the loop ends on `--b--`. */
  lemma FieldAfterPass(body: string, i: nat, b: string, name: string, value: string, st: PostState, st1: PostState, fuel: nat)
    requires '"' !in name && '"' !in value && '"' !in b && '\r' !in value && fuel >= 2
    requires i + |FieldBody(b, name, value)| == |body| && Holds(body, i, FieldBody(b, name, value))
    requires Parts(body, b, 0, st, fuel) == Parts(body, b, i, st1, fuel - 1)
    ensures Parts(body, b, 0, st, fuel) == (st1.(query := st1.query[name := value]), false)
  {
    FieldPartsAt(body, i, b, name, value, st1, fuel - 1);
  }

  /** The body of one field starts with `--b`. */
  lemma FieldBodyOpens(b: string, name: string, value: string)
    ensures Holds(FieldBody(b, name, value), 0, "--" + b)
  {
    var tail := FieldBody(b, name, value);
    assert tail[..|Opening(b)|] == Opening(b);
    assert Opening(b)[..2 + |b|] == "--" + b;
    HoldsPrefix(tail, 0, Opening(b), "--" + b);
  }

  /** The body of one field, written at i and ending the content, is read
      as that field, and the loop ends on `--b--`. */
  lemma FieldPartsAt(body: string, i: nat, b: string, name: string, value: string, st: PostState, fuel: nat)
    requires '"' !in name && '"' !in value && '"' !in b && '\r' !in value && fuel > 0
    requires Holds(body, i, FieldBody(b, name, value)) && i + |FieldBody(b, name, value)| == |body|
    ensures Parts(body, b, i, st, fuel) == (st.(query := st.query[name := value]), false)
  {
    var o2, o3, o4, o5 := FieldLayout(b, name, value);
    ShiftedFieldParts(body, i, FieldBody(b, name, value), b, name, value, st, fuel, o2, o3, o4, o5);
  }

  /** A field laid out in `tail`, written at i and ending the body, is read
      as that field, and the loop ends on `--b--`. */
  lemma ShiftedFieldParts(body: string, i: nat, tail: string, b: string, name: string, value: string,
                          st: PostState, fuel: nat, o2: nat, o3: nat, o4: nat, o5: nat)
    requires '"' !in name && '"' !in value && '"' !in b && '\r' !in value && fuel > 0
    requires Holds(body, i, tail) && i + |tail| == |body| && FieldLaid(tail, b, 0, name, value, o2, o3, o4, o5)
    ensures Parts(body, b, i, st, fuel) == (st.(query := st.query[name := value]), false)
  {
    FieldLaidShift(body, i, tail, b, name, value, o2, o3, o4, o5);
    FieldParts(body, b, i, name, value, st, fuel, i + o2, i + o3, i + o4, i + o5);
  }

  /** `parsePOST` with a multipart Content-Type and a body of one file part
      stores the file in `files`, and nothing else. */
  lemma ParsePostFile(ct: string, b: string, name: string, filename: string, mimeType: string, value: string,
                      st: PostState)
    requires PostKindOf(ct) == Multipart(b) && filename != ""
    requires '"' !in name && '"' !in filename && '\r' !in mimeType && '\r' !in value
    ensures ParsePost(ct, FilePart(b, name, filename, mimeType, value) + ("--" + b + "--"), st)
            == (st.(files := st.files[name := File(value, filename, mimeType)]), false)
  {
    var body := FilePart(b, name, filename, mimeType, value) + ("--" + b + "--");
    ParsePostParts(ct, body, st, b);
    FileRoundTrip(b, name, filename, mimeType, value, st, |body| + 1);
  }

  /** lib/request.js:65-66: a `filename="` anywhere after the name, even in a
      later part, makes the part a file part. */
  lemma FilenameAnywhere(content: string, name: string, i3: nat, p: nat)
    requires i3 <= p && At(content, p, FilenameMarker)
    ensures PartRest(content, name, i3).filename.Some?
  {
    IndexOfFinds(content, FilenameMarker, i3, p);
  }

  /** lib/request.js:60-62: an opening with no `name="` after it ends the
      loop, changing nothing. */
  lemma MissingNameEndsParts(content: string, b: string, index: nat, st: PostState, fuel: nat)
    requires fuel > 0 && Holds(content, index, Opening(b))
    requires forall p :: index + 4 + |b| <= p ==> !At(content, p, NameMarker)
    ensures Parts(content, b, index, st, fuel) == (st, false)
  {
    NoOccurrence(content, NameMarker, index + 4 + |b|);
    assert PartName(content, b, index) == None;
    assert Substr(content, index, 4 + |b|) == Opening(b);
    PartsOpen(content, b, index, st, fuel);
  }

  /** lib/request.js:76-79: when no closing delimiter follows a part's
      header, the content loop never ends. */
  lemma MissingClosingHangs(content: string, b: string, index: nat, st: PostState, fuel: nat, h: PartHeader)
    requires fuel > 0 && Holds(content, index, Opening(b)) && ReadPartHeader(content, b, index) == Some(h)
    requires forall p :: h.contentStart <= p ==> !At(content, p, Closing(b))
    ensures Parts(content, b, index, st, fuel) == (st, true)
  {
    NoOccurrence(content, Closing(b), h.contentStart);
    assert Substr(content, index, 4 + |b|) == Opening(b);
    PartsOpen(content, b, index, st, fuel);
    assert Part(content, b, index, st, fuel) == PartContent(content, b, h, st, fuel);
  }

  /** lib/request.js:57-90: a pass that brings the cursor back to the part
      it read never ends the loop, whatever the fuel, and the pass stores the
      same part each time. This is how the loop cycles: a file part without
      a `Content-Type: ` line reads its type from position 13 (`TypeFrom`),
      so its content search restarts near the start of the body and can find
      the delimiter that closed the part before it, two characters before
      its own opening. */
  lemma {:induction false} RepeatedPartHangs(content: string, b: string, index: nat, st: PostState, fuel: nat,
                                             h: PartHeader, j: nat)
    requires Holds(content, index, Opening(b)) && ReadPartHeader(content, b, index) == Some(h)
    requires IndexOf(content, Closing(b), h.contentStart) == j && j + 2 == index
    ensures Parts(content, b, index, st, fuel)
            == (if fuel == 0 then st else Store(st, h, content[h.contentStart..j]), true)
    decreases fuel
  {
    if fuel == 0 {
      OutOfFuel(content, b, index, st);
    } else {
      var st1 := Store(st, h, content[h.contentStart..j]);
      PassReturns(content, b, index, st, fuel, h, j, st1);
      RepeatedPartHangs(content, b, index, st1, fuel - 1, h, j);
      if fuel > 1 {
        StoreTwice(st, h, content[h.contentStart..j]);
      }
    }
  }

  /** A pass whose content ends two characters before its own opening goes
      on at that opening. */
  lemma PassReturns(content: string, b: string, index: nat, st: PostState, fuel: nat, h: PartHeader, j: nat,
                    st1: PostState)
    requires fuel > 0 && Holds(content, index, Opening(b)) && ReadPartHeader(content, b, index) == Some(h)
    requires IndexOf(content, Closing(b), h.contentStart) == j && j + 2 == index
    requires st1 == Store(st, h, content[h.contentStart..j])
    ensures Parts(content, b, index, st, fuel) == Parts(content, b, index, st1, fuel - 1)
  {
    PartStep(content, b, index, st, fuel, h, j, st1);
    assert j + 2 == index;
  }

  /** At an opening with no iterations left, the loop is taken to hang. */
  lemma OutOfFuel(content: string, b: string, index: nat, st: PostState)
    requires Holds(content, index, Opening(b))
    ensures Parts(content, b, index, st, 0) == (st, true)
  {
    assert Substr(content, index, 4 + |b|) == Opening(b);
  }

  /** Storing the same part twice is storing it once. */
  lemma StoreTwice(st: PostState, h: PartHeader, c: string)
    ensures Store(Store(st, h, c), h, c) == Store(st, h, c)
  {
  }

  /** `indexOf` gives -1 when the pattern occurs nowhere from `from` on. */
  lemma NoOccurrence(s: string, pat: string, from: nat)
    requires |pat| > 0 && forall k :: from <= k ==> !At(s, k, pat)
    ensures IndexOf(s, pat, from) == -1
  {
    IndexOfFacts(s, pat, from);
  }

  // ---------------------------------------------------------------------
  // parseCookies
  // ---------------------------------------------------------------------

  /** A cookie as a client sends it, its value still encoded. */
  datatype Cookie = Cookie(name: string, value: string)

  /** The name holds no space or `=`; the value is not empty, holds no space
      or `;` and does not start with `=`. */
  predicate WellFormed(c: Cookie)
  {
    NoneIn(c.name, {' ', '='}) && c.value != "" && c.value[0] != '=' && NoneIn(c.value, {' ', ';'})
  }

  function Pair(c: Cookie): string
  {
    c.name + "=" + c.value
  }

  /** The cookies joined with `; `, as section 4.2.1 of RFC 6265 writes a
      Cookie header. */
  function CookieHeader(cs: seq<Cookie>): string
    requires cs != []
    decreases |cs|
  {
    if |cs| == 1 then Pair(cs[0]) else Pair(cs[0]) + "; " + CookieHeader(cs[1..])
  }

  /** Every cookie is well formed and its value decodes. */
  predicate Readable(cs: seq<Cookie>, decode: string -> Option<string>)
  {
    forall k :: 0 <= k < |cs| ==> WellFormed(cs[k]) && decode(cs[k].value).Some?
  }

  /** The jar after applying each decoded cookie in turn. */
  function ApplyAll<S>(jar: Jar<S>, cs: seq<Cookie>, decode: string -> Option<string>, sessions: map<string, S>): Jar<S>
    requires Readable(cs, decode)
    decreases |cs|
  {
    if cs == [] then jar
    else ApplyAll(Apply(jar, cs[0].name, decode(cs[0].value).value, sessions), cs[1..], decode, sessions)
  }

  /** Where CookieAt finds a cookie written at i1..i4 after spaces from i. */
  lemma CookieRuns(s: string, i: nat, pad: string, c: Cookie, i1: nat, i2: nat, i3: nat, i4: nat)
    requires AllIn(pad, {' '}) && WellFormed(c)
    requires Holds(s, i, pad) && i1 == i + |pad|
    requires Holds(s, i1, c.name) && i2 == i1 + |c.name|
    requires Holds(s, i2, "=") && i3 == i2 + 1
    requires Holds(s, i3, c.value) && i4 == i3 + |c.value|
    requires i4 < |s| ==> s[i4] == ';'
    ensures CookieAt(s, i) == Some((i1, i2, i3, i4))
  {
    assert s[i2] == '=' && s[i3] == c.value[0];
    assert s[i1] == if c.name == "" then '=' else c.name[0];
    SkipOverRun(s, i, pad, {' '});
    ScanToRun(s, i1, c.name, {' ', '='});
    SkipOverRun(s, i2, "=", {' ', '='});
    ScanToRun(s, i3, c.value, {' ', ';'});
    CookieAtFrom(s, i, i1, i2, i3, i4);
  }

  /** The pass of CookieAt once its scanners are known to stop at i1..i4. */
  lemma CookieAtFrom(s: string, i: nat, i1: nat, i2: nat, i3: nat, i4: nat)
    requires i1 <= i2 < i3 < |s|
    requires SkipOver(s, i, {' '}) == i1 && ScanTo(s, i1, {' ', '='}) == i2
    requires SkipOver(s, i2, {' ', '='}) == i3 && ScanTo(s, i3, {' ', ';'}) == i4
    ensures CookieAt(s, i) == Some((i1, i2, i3, i4))
  {
  }

  /** A cookie written at i after spaces, followed by nothing or `;`, is
      found at i1..i4. */
  lemma CookieFound(s: string, i: nat, pad: string, c: Cookie, tail: string, i1: nat, i2: nat, i3: nat, i4: nat)
    requires AllIn(pad, {' '}) && WellFormed(c) && (tail == "" || tail[0] == ';')
    requires i <= |s| && s[i..] == pad + Pair(c) + tail
    requires i1 == i + |pad| && i2 == i1 + |c.name| && i3 == i2 + 1 && i4 == i3 + |c.value|
    ensures CookieAt(s, i) == Some((i1, i2, i3, i4))
  {
    var t := s[i..];
    var p1 := pad + c.name;
    var p2 := p1 + "=";
    var p3 := p2 + c.value;
    assert t == p3 + tail;
    HoldsEnd(p1, "=");
    HoldsExtend(p2, c.value, |p1|, "=");
    HoldsExtend(p3, tail, |p1|, "=");
    HoldsEnd(p2, c.value);
    HoldsExtend(p3, tail, |p2|, c.value);
    assert Holds(p1, 0, pad);
    HoldsExtend(p1, "=", 0, pad);
    HoldsExtend(p2, c.value, 0, pad);
    HoldsExtend(p3, tail, 0, pad);
    HoldsEnd(pad, c.name);
    HoldsExtend(p1, "=", |pad|, c.name);
    HoldsExtend(p2, c.value, |pad|, c.name);
    HoldsExtend(p3, tail, |pad|, c.name);
    InSuffix(s, i, 0, i, pad);
    InSuffix(s, i, |pad|, i1, c.name);
    InSuffix(s, i, |p1|, i2, "=");
    InSuffix(s, i, |p2|, i3, c.value);
    if tail != "" {
      assert s[i4] == t[|p3|] == tail[0];
    }
    CookieRuns(s, i, pad, c, i1, i2, i3, i4);
  }

  /** What is written in s from i is written in s. */
  lemma InSuffix(s: string, i: nat, k: nat, j: nat, t: string)
    requires i <= |s| && Holds(s[i..], k, t) && j == i + k
    ensures Holds(s, j, t)
  {
    assert s[j..j + |t|] == s[i..][k..k + |t|];
  }

  /** A well-formed cookie written at i after spaces, followed by nothing or
      `;`: the loop applies it and resumes one character past it. */
  lemma OneCookie<S>(s: string, i: nat, pad: string, c: Cookie, tail: string, next: nat,
                     decode: string -> Option<string>, sessions: map<string, S>, jar: Jar<S>)
    requires AllIn(pad, {' '}) && WellFormed(c) && decode(c.value).Some? && (tail == "" || tail[0] == ';')
    requires i <= |s| && s[i..] == pad + Pair(c) + tail && next == i + |pad| + |Pair(c)| + 1
    ensures ScanCookies(s, i, decode, sessions, jar)
            == ScanCookies(s, next, decode, sessions, Apply(jar, c.name, decode(c.value).value, sessions))
  {
    var i1 := i + |pad|;
    var i2 := i1 + |c.name|;
    var i3 := i2 + 1;
    var i4 := next - 1;
    CookieValues(s, i, pad, c, tail, i1, i2, i3, i4);
    CookieFound(s, i, pad, c, tail, i1, i2, i3, i4);
    CookieStep(s, i, decode, sessions, jar, i1, i2, i3, i4, decode(c.value).value);
  }

  /** The name and value a found cookie spans. */
  lemma CookieValues(s: string, i: nat, pad: string, c: Cookie, tail: string, i1: nat, i2: nat, i3: nat, i4: nat)
    requires i <= |s| && s[i..] == pad + Pair(c) + tail
    requires i1 == i + |pad| && i2 == i1 + |c.name| && i3 == i2 + 1 && i4 == i3 + |c.value|
    ensures i4 == i + |pad| + |Pair(c)| && i4 < |s| + 1 && i4 <= |s|
    ensures s[i1..i2] == c.name && s[i3..i4] == c.value
  {
    var t := s[i..];
    assert t[|pad|..|pad| + |c.name|] == c.name;
    assert t[|pad| + |c.name| + 1..|pad| + |Pair(c)|] == c.value;
  }

  /** After a cookie and `;`, a space and the rest. */
  lemma AfterSeparator(s: string, i: nat, pad: string, c: Cookie, h: string, tail: string)
    requires i <= |s| && s[i..] == pad + (Pair(c) + "; " + h) + tail
    ensures s[i..] == pad + Pair(c) + ("; " + h + tail)
    ensures i + |pad| + |Pair(c)| + 1 <= |s| && s[i + |pad| + |Pair(c)| + 1..] == " " + h + tail
  {
    var t := s[i..];
    assert t == (pad + Pair(c)) + ("; " + h + tail);
    assert t[|pad| + |Pair(c)| + 1..] == " " + h + tail;
  }

  /** The cookie loop over well-formed cookies joined with `; ` applies each
      of them in order and resumes at `end`, one character past the last. */
  lemma {:induction false} CookiesThrough<S>(s: string, i: nat, pad: string, cs: seq<Cookie>, tail: string, end: nat,
                                             decode: string -> Option<string>, sessions: map<string, S>, jar: Jar<S>)
    requires cs != [] && Readable(cs, decode) && AllIn(pad, {' '}) && (tail == "" || tail[0] == ';')
    requires i <= |s| && s[i..] == pad + CookieHeader(cs) + tail && end == i + |pad| + |CookieHeader(cs)| + 1
    ensures ScanCookies(s, i, decode, sessions, jar) == ScanCookies(s, end, decode, sessions, ApplyAll(jar, cs, decode, sessions))
    decreases |cs|, 1
  {
    if |cs| == 1 {
      LastCookie(s, i, pad, cs, tail, end, decode, sessions, jar);
    } else {
      ManyCookies(s, i, pad, cs, tail, end, decode, sessions, jar);
    }
  }

  /** Several cookies: the first, then the rest after `; `. */
  lemma {:induction false} ManyCookies<S>(s: string, i: nat, pad: string, cs: seq<Cookie>, tail: string, end: nat,
                                          decode: string -> Option<string>, sessions: map<string, S>, jar: Jar<S>)
    requires |cs| > 1 && Readable(cs, decode) && AllIn(pad, {' '}) && (tail == "" || tail[0] == ';')
    requires i <= |s| && s[i..] == pad + CookieHeader(cs) + tail && end == i + |pad| + |CookieHeader(cs)| + 1
    ensures ScanCookies(s, i, decode, sessions, jar) == ScanCookies(s, end, decode, sessions, ApplyAll(jar, cs, decode, sessions))
    decreases |cs|, 0
  {
    var j, jar1 := FirstOfMany(s, i, pad, cs, tail, end, decode, sessions, jar);
    CookiesThrough(s, j, " ", cs[1..], tail, end, decode, sessions, jar1);
  }

  /** The first of several cookies is applied, and the rest follow a space
      at j. */
  lemma FirstOfMany<S>(s: string, i: nat, pad: string, cs: seq<Cookie>, tail: string, end: nat,
                       decode: string -> Option<string>, sessions: map<string, S>, jar: Jar<S>)
    returns (j: nat, jar1: Jar<S>)
    requires |cs| > 1 && Readable(cs, decode) && AllIn(pad, {' '}) && (tail == "" || tail[0] == ';')
    requires i <= |s| && s[i..] == pad + CookieHeader(cs) + tail && end == i + |pad| + |CookieHeader(cs)| + 1
    ensures Readable(cs[1..], decode) && ApplyAll(jar, cs, decode, sessions) == ApplyAll(jar1, cs[1..], decode, sessions)
    ensures j <= |s| && s[j..] == " " + CookieHeader(cs[1..]) + tail && end == j + |" "| + |CookieHeader(cs[1..])| + 1
    ensures ScanCookies(s, i, decode, sessions, jar) == ScanCookies(s, j, decode, sessions, jar1)
  {
    ReadableSplit(cs, decode);
    jar1 := Apply(jar, cs[0].name, decode(cs[0].value).value, sessions);
    assert ApplyAll(jar, cs, decode, sessions) == ApplyAll(jar1, cs[1..], decode, sessions);
    j := FirstLayout(s, i, pad, cs, tail, end);
    FirstScan(s, i, pad, cs[0], CookieHeader(cs[1..]), tail, j, decode, sessions, jar);
  }

  /** Where the rest of several cookies starts. */
  lemma FirstLayout(s: string, i: nat, pad: string, cs: seq<Cookie>, tail: string, end: nat) returns (j: nat)
    requires |cs| > 1
    requires i <= |s| && s[i..] == pad + CookieHeader(cs) + tail && end == i + |pad| + |CookieHeader(cs)| + 1
    ensures s[i..] == pad + Pair(cs[0]) + ("; " + CookieHeader(cs[1..]) + tail)
    ensures j == i + |pad| + |Pair(cs[0])| + 1
    ensures j <= |s| && s[j..] == " " + CookieHeader(cs[1..]) + tail && end == j + |" "| + |CookieHeader(cs[1..])| + 1
  {
    var h := CookieHeader(cs[1..]);
    assert CookieHeader(cs) == Pair(cs[0]) + "; " + h;
    j := i + |pad| + |Pair(cs[0])| + 1;
    AfterSeparator(s, i, pad, cs[0], h, tail);
  }

  /** The first of several cookies is applied. */
  lemma FirstScan<S>(s: string, i: nat, pad: string, c: Cookie, h: string, tail: string, j: nat,
                     decode: string -> Option<string>, sessions: map<string, S>, jar: Jar<S>)
    requires AllIn(pad, {' '}) && WellFormed(c) && decode(c.value).Some?
    requires i <= |s| && s[i..] == pad + Pair(c) + ("; " + h + tail) && j == i + |pad| + |Pair(c)| + 1
    ensures ScanCookies(s, i, decode, sessions, jar) == ScanCookies(s, j, decode, sessions, Apply(jar, c.name, decode(c.value).value, sessions))
  {
    OneCookie(s, i, pad, c, "; " + h + tail, j, decode, sessions, jar);
  }

  /** The first cookie and the rest of a readable list are readable. */
  lemma ReadableSplit(cs: seq<Cookie>, decode: string -> Option<string>)
    requires cs != [] && Readable(cs, decode)
    ensures WellFormed(cs[0]) && decode(cs[0].value).Some? && Readable(cs[1..], decode)
  {
    assert WellFormed(cs[0]) && decode(cs[0].value).Some?;
    forall k | 0 <= k < |cs[1..]|
      ensures WellFormed(cs[1..][k]) && decode(cs[1..][k].value).Some?
    {
      assert cs[1..][k] == cs[k + 1];
    }
  }

  /** The last cookie. */
  lemma LastCookie<S>(s: string, i: nat, pad: string, cs: seq<Cookie>, tail: string, end: nat,
                      decode: string -> Option<string>, sessions: map<string, S>, jar: Jar<S>)
    requires |cs| == 1 && Readable(cs, decode) && AllIn(pad, {' '}) && (tail == "" || tail[0] == ';')
    requires i <= |s| && s[i..] == pad + CookieHeader(cs) + tail && end == i + |pad| + |CookieHeader(cs)| + 1
    ensures ScanCookies(s, i, decode, sessions, jar) == ScanCookies(s, end, decode, sessions, ApplyAll(jar, cs, decode, sessions))
  {
    SingleCookie(cs, decode, sessions, jar);
    OneCookie(s, i, pad, cs[0], tail, end, decode, sessions, jar);
  }

  /** A list of one cookie. */
  lemma SingleCookie<S>(cs: seq<Cookie>, decode: string -> Option<string>, sessions: map<string, S>, jar: Jar<S>)
    requires |cs| == 1 && Readable(cs, decode)
    ensures CookieHeader(cs) == Pair(cs[0]) && WellFormed(cs[0]) && decode(cs[0].value).Some?
    ensures ApplyAll(jar, cs, decode, sessions) == Apply(jar, cs[0].name, decode(cs[0].value).value, sessions)
  {
    var jar1 := Apply(jar, cs[0].name, decode(cs[0].value).value, sessions);
    assert ApplyAll(jar, cs, decode, sessions) == ApplyAll(jar1, cs[1..], decode, sessions);
    assert cs[1..] == [];
  }

  /** A Cookie header of readable cookies reads back as those cookies
      applied in order to an empty jar. */
  lemma ParseCookiesRoundTrip<S>(cs: seq<Cookie>, decode: string -> Option<string>, sessions: map<string, S>)
    requires cs != [] && Readable(cs, decode)
    ensures ParseCookies(Some(CookieHeader(cs)), decode, sessions) == Some(ApplyAll(Jar(map[], None), cs, decode, sessions))
  {
    var s := CookieHeader(cs);
    assert s != "" by { HeaderStart(cs); }
    var jar := ApplyAll(Jar(map[], None), cs, decode, sessions);
    assert s[0..] == "" + s + "";
    CookiesThrough(s, 0, "", cs, "", |s| + 1, decode, sessions, Jar(map[], None));
    assert ScanCookies(s, |s| + 1, decode, sessions, jar) == Some(jar);
  }

  /** A Cookie header starts with its first pair. */
  lemma HeaderStart(cs: seq<Cookie>)
    requires cs != []
    ensures |CookieHeader(cs)| >= |Pair(cs[0])| > 0
  {
  }

  /** A name with no value at the end of the header (spaces and `=` at
      most after it) is dropped and ends the loop. */
  lemma Dangling<S>(s: string, i: nat, pad: string, name: string, eqs: string,
                    decode: string -> Option<string>, sessions: map<string, S>, jar: Jar<S>)
    requires AllIn(pad, {' '}) && NoneIn(name, {' ', '='}) && AllIn(eqs, {' ', '='}) && (name != "" || eqs == "")
    requires i <= |s| && s[i..] == pad + name + eqs
    ensures ScanCookies(s, i, decode, sessions, jar) == Some(jar)
  {
    if i < |s| {
      DanglingAt(s, i, pad, name, eqs);
      assert ScanCookies(s, i, decode, sessions, jar) == ScanCookie(s, i, decode, sessions, jar);
    }
  }

  /** No cookie is found at a dangling name. */
  lemma DanglingAt(s: string, i: nat, pad: string, name: string, eqs: string)
    requires AllIn(pad, {' '}) && NoneIn(name, {' ', '='}) && AllIn(eqs, {' ', '='}) && (name != "" || eqs == "")
    requires i <= |s| && s[i..] == pad + name + eqs
    ensures CookieAt(s, i).None?
  {
    var t := s[i..];
    var p1 := pad + name;
    var i1 := i + |pad|;
    var i2 := i1 + |name|;
    assert Holds(p1, 0, pad);
    HoldsExtend(p1, eqs, 0, pad);
    HoldsEnd(pad, name);
    HoldsExtend(p1, eqs, |pad|, name);
    HoldsEnd(p1, eqs);
    InSuffix(s, i, 0, i, pad);
    InSuffix(s, i, |pad|, i1, name);
    InSuffix(s, i, |p1|, i2, eqs);
    DanglingRuns(s, i, pad, name, eqs, i1, i2);
  }

  /** Where CookieAt runs out of header at a name written at i1..i2 after
      spaces from i and followed by spaces and `=` up to the end. */
  lemma DanglingRuns(s: string, i: nat, pad: string, name: string, eqs: string, i1: nat, i2: nat)
    requires AllIn(pad, {' '}) && NoneIn(name, {' ', '='}) && AllIn(eqs, {' ', '='}) && (name != "" || eqs == "")
    requires Holds(s, i, pad) && i1 == i + |pad|
    requires Holds(s, i1, name) && i2 == i1 + |name|
    requires Holds(s, i2, eqs) && i2 + |eqs| == |s|
    ensures CookieAt(s, i).None?
  {
    if name != "" {
      assert s[i1] == name[0];
      if eqs != "" {
        assert s[i2] == eqs[0];
      }
      ScanToRun(s, i1, name, {' ', '='});
      SkipOverRun(s, i2, eqs, {' ', '='});
    }
    SkipOverRun(s, i, pad, {' '});
  }

  /** Readable cookies followed by a name without a value read as the
      cookies alone. */
  lemma ParseCookiesDropsDangling<S>(cs: seq<Cookie>, name: string, eqs: string,
                                     decode: string -> Option<string>, sessions: map<string, S>)
    requires cs != [] && Readable(cs, decode)
    requires NoneIn(name, {' ', '='}) && AllIn(eqs, {' ', '='}) && (name != "" || eqs == "")
    ensures ParseCookies(Some(CookieHeader(cs) + "; " + name + eqs), decode, sessions)
            == ParseCookies(Some(CookieHeader(cs)), decode, sessions)
  {
    var h := CookieHeader(cs);
    var s := h + "; " + name + eqs;
    var tail := "; " + name + eqs;
    var jar := ApplyAll(Jar(map[], None), cs, decode, sessions);
    assert s[0..] == "" + h + tail;
    assert s[|h| + 1..] == " " + name + eqs;
    CookiesThrough(s, 0, "", cs, tail, |h| + 1, decode, sessions, Jar(map[], None));
    Dangling(s, |h| + 1, " ", name, eqs, decode, sessions, jar);
    ParseCookiesRoundTrip(cs, decode, sessions);
  }

  /** One pass of the cookie scan inside the header: it ends the scan with
      the jar unchanged or a throw, or applies one pair and goes on later. */
  lemma ScanCookiesStep<S>(s: string, i: nat, decode: string -> Option<string>,
                           sessions: map<string, S>, jar: Jar<S>)
    returns (done: bool, next: nat, name: string, value: string)
    requires i < |s|
    ensures done ==> ScanCookies(s, i, decode, sessions, jar) in {Some(jar), None}
    ensures !done ==> i < next <= |s| + 1
    ensures !done ==> ScanCookies(s, i, decode, sessions, jar)
                      == ScanCookies(s, next, decode, sessions, Apply(jar, name, value, sessions))
  {
    assert ScanCookies(s, i, decode, sessions, jar) == ScanCookie(s, i, decode, sessions, jar);
    var c := CookieAt(s, i);
    done, next, name, value := true, i + 1, "", "";
    if c.Some? {
      var (i1, i2, i3, i4) := c.value;
      var v := decode(s[i3..i4]);
      if v.Some? {
        CookieStep(s, i, decode, sessions, jar, i1, i2, i3, i4, v.value);
        done, next, name, value := false, i4 + 1, s[i1..i2], v.value;
      }
    }
  }

  /** `_session` is never stored as a cookie: the loop only looks it up. */
  lemma {:induction false} SessionNotACookie<S>(s: string, i: nat, decode: string -> Option<string>,
                                                sessions: map<string, S>, jar: Jar<S>)
    requires SessionCookie !in jar.cookies
    ensures var r := ScanCookies(s, i, decode, sessions, jar); r.Some? ==> SessionCookie !in r.value.cookies
    decreases |s| - i
  {
    if i < |s| {
      var done, next, name, value := ScanCookiesStep(s, i, decode, sessions, jar);
      if !done {
        SessionNotACookie(s, next, decode, sessions, Apply(jar, name, value, sessions));
      }
    }
  }

  /** No header yields a `_session` cookie. */
  lemma ParseCookiesNoSessionCookie<S>(header: Option<string>, decode: string -> Option<string>, sessions: map<string, S>)
    ensures var r := ParseCookies(header, decode, sessions); r.Some? ==> SessionCookie !in r.value.cookies
  {
    if header.Some? && header.value != "" {
      SessionNotACookie(header.value, 0, decode, sessions, Jar(map[], None));
    }
  }

  /** Applying one more cookie applies it last. */
  lemma {:induction false} ApplyAllLast<S>(jar: Jar<S>, cs: seq<Cookie>, c: Cookie,
                                           decode: string -> Option<string>, sessions: map<string, S>)
    requires Readable(cs + [c], decode)
    ensures Readable(cs, decode) && decode(c.value).Some?
    ensures ApplyAll(jar, cs + [c], decode, sessions) == Apply(ApplyAll(jar, cs, decode, sessions), c.name, decode(c.value).value, sessions)
    decreases |cs|
  {
    assert forall k :: 0 <= k < |cs| ==> (cs + [c])[k] == cs[k];
    assert (cs + [c])[|cs|] == c;
    if cs == [] {
      assert cs + [c] == [c];
    } else {
      var jar1 := Apply(jar, cs[0].name, decode(cs[0].value).value, sessions);
      assert (cs + [c])[1..] == cs[1..] + [c];
      ReadableSplit(cs + [c], decode);
      ApplyAllLast(jar1, cs[1..], c, decode, sessions);
    }
  }

  /** Of cookies sharing a name, the last one wins; a last `_session` names
      the session, or none when the table does not hold its value. */
  lemma LastCookieWins<S>(cs: seq<Cookie>, c: Cookie, decode: string -> Option<string>, sessions: map<string, S>)
    requires Readable(cs, decode) && WellFormed(c) && decode(c.value).Some?
    ensures var r := ParseCookies(Some(CookieHeader(cs + [c])), decode, sessions);
            var v := decode(c.value).value;
            r.Some?
            && (c.name != SessionCookie ==> c.name in r.value.cookies && r.value.cookies[c.name] == v)
            && (c.name == SessionCookie ==> r.value.session == if v in sessions then Some(sessions[v]) else None)
  {
    assert forall k :: 0 <= k < |cs| ==> (cs + [c])[k] == cs[k];
    assert (cs + [c])[|cs|] == c;
    ParseCookiesRoundTrip(cs + [c], decode, sessions);
    ApplyAllLast(Jar(map[], None), cs, c, decode, sessions);
  }

  // ---------------------------------------------------------------------
  // parseLangs: the sort
  // ---------------------------------------------------------------------

  /** Inserting an entry adds exactly that entry. */
  lemma {:induction false} InsertLastPermutes(t: seq<Lang>, x: Lang)
    ensures multiset(InsertLast(t, x)) == multiset(t) + multiset{x}
    decreases |t|
  {
    if t != [] && t[|t| - 1].quality < x.quality {
      var u := t[..|t| - 1];
      InsertLastPermutes(u, x);
      assert t == u + [t[|t| - 1]];
    }
  }

  /** The sort keeps the entries, each as often as it occurs. */
  lemma {:induction false} SortPermutes(s: seq<Lang>)
    ensures multiset(SortByQuality(s)) == multiset(s)
    decreases |s|
  {
    if s != [] {
      var p := s[..|s| - 1];
      var y := s[|s| - 1];
      SortPermutes(p);
      InsertLastPermutes(SortByQuality(p), y);
      assert SortByQuality(s) == InsertLast(SortByQuality(p), y);
      assert s == p + [y];
    }
  }

  /** Inserting into an ordered list keeps it ordered. */
  lemma {:induction false} InsertLastOrdered(t: seq<Lang>, x: Lang)
    requires NonIncreasing(t)
    ensures NonIncreasing(InsertLast(t, x))
    decreases |t|
  {
    if t != [] && t[|t| - 1].quality < x.quality {
      var u := t[..|t| - 1];
      var last := t[|t| - 1];
      var w := InsertLast(u, x);
      InsertLastOrdered(u, x);
      InsertLastPermutes(u, x);
      forall k | 0 <= k < |w|
        ensures w[k].quality >= last.quality
      {
        assert w[k] in multiset(w);
        if w[k] != x {
          assert w[k] in multiset(u);
          var m :| 0 <= m < |u| && u[m] == w[k];
          assert t[m] == u[m];
        }
      }
    }
  }

  /** The languages come out by non-increasing quality. */
  lemma {:induction false} SortOrders(s: seq<Lang>)
    ensures NonIncreasing(SortByQuality(s))
    decreases |s|
  {
    if s != [] {
      SortOrders(s[..|s| - 1]);
      InsertLastOrdered(SortByQuality(s[..|s| - 1]), s[|s| - 1]);
    }
  }

  /** A list already ordered by quality is left as it is. */
  lemma {:induction false} SortKeepsOrdered(s: seq<Lang>)
    requires NonIncreasing(s)
    ensures SortByQuality(s) == s
    decreases |s|
  {
    if s != [] {
      var p := s[..|s| - 1];
      assert NonIncreasing(p) by {
        forall i, j | 0 <= i < j < |p| ensures p[i].quality >= p[j].quality {
          assert p[i] == s[i] && p[j] == s[j];
        }
      }
      SortKeepsOrdered(p);
      if p != [] {
        assert p[|p| - 1] == s[|s| - 2];
      }
      assert s == p + [s[|s| - 1]];
    }
  }

  /** The entries of quality q, in their order. */
  function WithQuality(t: seq<Lang>, q: int): (r: seq<Lang>)
    ensures forall k :: 0 <= k < |r| ==> r[k].quality == q
    decreases |t|
  {
    if t == [] then []
    else WithQuality(t[..|t| - 1], q) + (if t[|t| - 1].quality == q then [t[|t| - 1]] else [])
  }

  /** Inserting an entry adds it last among those of its quality. */
  lemma {:induction false} InsertLastStable(t: seq<Lang>, x: Lang, q: int)
    ensures WithQuality(InsertLast(t, x), q) == WithQuality(t, q) + (if x.quality == q then [x] else [])
    decreases |t|
  {
    if t == [] || t[|t| - 1].quality >= x.quality {
      assert (t + [x])[..|t|] == t;
    } else {
      var u := t[..|t| - 1];
      var w := InsertLast(u, x);
      InsertLastStable(u, x, q);
      assert (w + [t[|t| - 1]])[..|w|] == w;
    }
  }

  /** The sort is stable: the entries of each quality keep their order. */
  lemma {:induction false} SortStable(s: seq<Lang>, q: int)
    ensures WithQuality(SortByQuality(s), q) == WithQuality(s, q)
    decreases |s|
  {
    if s != [] {
      var p := s[..|s| - 1];
      SortStable(p, q);
      InsertLastStable(SortByQuality(p), s[|s| - 1], q);
    }
  }

  // ---------------------------------------------------------------------
  // parseLangs: reading an Accept-Language header back
  // ---------------------------------------------------------------------

  /** A language range of an Accept-Language header, with its quality text
      (None when it has no `;q=`). */
  datatype Range = Range(tag: string, q: Option<string>)

  /** The tag is not empty and holds no space, `,` or `;`; a quality text is
      not empty, holds no space or `,` and does not start with `=`. */
  predicate RangeOk(r: Range)
  {
    r.tag != "" && NoneIn(r.tag, {' ', ',', ';'})
    && (r.q.Some? ==> r.q.value != "" && r.q.value[0] != '=' && NoneIn(r.q.value, {' ', ','}))
  }

  predicate RangesOk(rs: seq<Range>)
  {
    forall k :: 0 <= k < |rs| ==> RangeOk(rs[k])
  }

  function RangeText(r: Range): string
  {
    if r.q.None? then r.tag else r.tag + ";q=" + r.q.value
  }

  /** The ranges joined with `,`, as section 5.3.5 of RFC 7231 writes an
      Accept-Language header. */
  function LangHeader(rs: seq<Range>): string
    requires rs != []
    decreases |rs|
  {
    if |rs| == 1 then RangeText(rs[0]) else RangeText(rs[0]) + "," + LangHeader(rs[1..])
  }

  /** The entry a range stands for, `number` reading its quality. */
  function EntryFor(r: Range, number: string -> int): Lang
  {
    Lang(r.tag, if r.q.None? then FullQuality else number(r.q.value))
  }

  function Entries(rs: seq<Range>, number: string -> int): (r: seq<Lang>)
    ensures |r| == |rs|
    decreases |rs|
  {
    if rs == [] then [] else [EntryFor(rs[0], number)] + Entries(rs[1..], number)
  }

  /** A tag written at i..a1 is skipped to and scanned over by LangAt. */
  lemma TagRuns(s: string, i: nat, tag: string, a1: nat)
    requires tag != "" && NoneIn(tag, {' ', ',', ';'})
    requires Holds(s, i, tag) && a1 == i + |tag|
    requires a1 < |s| ==> s[a1] in {' ', ',', ';'}
    ensures SkipOver(s, i, {' '}) == i && ScanTo(s, i, {' ', ',', ';'}) == a1
  {
    assert s[i] == tag[0];
    SkipOverRun(s, i, "", {' '});
    ScanToRun(s, i, tag, {' ', ',', ';'});
  }

  /** Where LangAt finds a range without quality written at i..a1. */
  lemma PlainRuns(s: string, i: nat, tag: string, a1: nat)
    requires tag != "" && NoneIn(tag, {' ', ',', ';'})
    requires Holds(s, i, tag) && a1 == i + |tag|
    requires a1 < |s| ==> s[a1] == ','
    ensures LangAt(s, i) == Entry(i, a1, None, a1 + 1)
  {
    TagRuns(s, i, tag, a1);
  }

  /** A quality `;q=` q written at a1, q at a4..a5, is read by LangAt from
      a4 to a5. */
  lemma QualityTextRuns(s: string, q: string, a1: nat, a4: nat, a5: nat)
    requires q != "" && q[0] != '=' && NoneIn(q, {' ', ','})
    requires Holds(s, a1, ";q=") && a4 == a1 + 3
    requires Holds(s, a4, q) && a5 == a4 + |q|
    requires a5 < |s| ==> s[a5] == ','
    ensures a1 + 1 < |s| && s[a1] == ';' && s[a1 + 1] == 'q' && a4 < |s|
    ensures SkipOver(s, a1 + 1, {' '}) == a1 + 1 && SkipOver(s, a1 + 2, {' ', '='}) == a4
    ensures ScanTo(s, a4, {' ', ','}) == a5
  {
    assert s[a1] == ';' && s[a1 + 1] == 'q' && s[a4] == q[0];
    assert Holds(s, a1 + 2, "=") by {
      assert s[a1 + 2..a1 + 3] == s[a1..a1 + 3][2..];
    }
    SkipOverRun(s, a1 + 1, "", {' '});
    SkipOverRun(s, a1 + 2, "=", {' ', '='});
    ScanToRun(s, a4, q, {' ', ','});
  }

  /** Where LangAt finds a range with quality text q, the tag written at
      i..a1 and q at a4..a5. */
  lemma QualityRuns(s: string, i: nat, tag: string, q: string, a1: nat, a4: nat, a5: nat)
    requires tag != "" && NoneIn(tag, {' ', ',', ';'})
    requires q != "" && q[0] != '=' && NoneIn(q, {' ', ','})
    requires Holds(s, i, tag) && a1 == i + |tag|
    requires Holds(s, a1, ";q=") && a4 == a1 + 3
    requires Holds(s, a4, q) && a5 == a4 + |q|
    requires a5 < |s| ==> s[a5] == ','
    ensures LangAt(s, i) == Entry(i, a1, Some((a4, a5)), a5 + 1)
  {
    assert s[a1] == ';';
    TagRuns(s, i, tag, a1);
    QualityTextRuns(s, q, a1, a4, a5);
    QualityAt(s, i, a1, a4, a5);
  }

  /** The pass of LangAt once its scanners are known to stop where a range
      with quality puts them. */
  lemma QualityAt(s: string, i: nat, a1: nat, a4: nat, a5: nat)
    requires i < a1 < |s| && s[a1] == ';' && a1 + 1 < |s| && s[a1 + 1] == 'q' && a4 < |s|
    requires SkipOver(s, i, {' '}) == i && ScanTo(s, i, {' ', ',', ';'}) == a1
    requires SkipOver(s, a1 + 1, {' '}) == a1 + 1 && SkipOver(s, a1 + 2, {' ', '='}) == a4
    requires ScanTo(s, a4, {' ', ','}) == a5
    ensures LangAt(s, i) == Entry(i, a1, Some((a4, a5)), a5 + 1)
  {
  }

  /** A range without quality written at i, followed by nothing or `,`. */
  lemma PlainFound(s: string, i: nat, tag: string, tail: string, a1: nat)
    requires tag != "" && NoneIn(tag, {' ', ',', ';'}) && (tail == "" || tail[0] == ',')
    requires i <= |s| && s[i..] == tag + tail && a1 == i + |tag|
    ensures LangAt(s, i) == Entry(i, a1, None, a1 + 1) && s[i..a1] == tag
  {
    var t := s[i..];
    assert Holds(tag, 0, tag);
    HoldsExtend(tag, tail, 0, tag);
    InSuffix(s, i, 0, i, tag);
    if tail != "" {
      assert s[a1] == t[|tag|] == tail[0];
    }
    PlainRuns(s, i, tag, a1);
  }

  /** A range with quality written at i, followed by nothing or `,`. */
  lemma QualityFound(s: string, i: nat, tag: string, q: string, tail: string, a1: nat, a4: nat, a5: nat)
    requires tag != "" && NoneIn(tag, {' ', ',', ';'}) && (tail == "" || tail[0] == ',')
    requires q != "" && q[0] != '=' && NoneIn(q, {' ', ','})
    requires i <= |s| && s[i..] == tag + ";q=" + q + tail
    requires a1 == i + |tag| && a4 == a1 + 3 && a5 == a4 + |q|
    ensures LangAt(s, i) == Entry(i, a1, Some((a4, a5)), a5 + 1) && s[i..a1] == tag && s[a4..a5] == q
  {
    var t := s[i..];
    var p1 := tag + ";q=";
    var p2 := p1 + q;
    assert t == p2 + tail;
    assert Holds(tag, 0, tag);
    HoldsExtend(tag, ";q=", 0, tag);
    HoldsExtend(p1, q, 0, tag);
    HoldsExtend(p2, tail, 0, tag);
    HoldsEnd(tag, ";q=");
    HoldsExtend(p1, q, |tag|, ";q=");
    HoldsExtend(p2, tail, |tag|, ";q=");
    HoldsEnd(p1, q);
    HoldsExtend(p2, tail, |p1|, q);
    InSuffix(s, i, 0, i, tag);
    InSuffix(s, i, |tag|, a1, ";q=");
    InSuffix(s, i, |p1|, a4, q);
    if tail != "" {
      assert s[a5] == t[|p2|] == tail[0];
    }
    QualityRuns(s, i, tag, q, a1, a4, a5);
  }

  /** A well-formed range written at i, followed by nothing or `,`: the scan
      adds its entry and resumes one character past it. */
  lemma OneRange(s: string, i: nat, r: Range, tail: string, next: nat, number: string -> int, acc: seq<Lang>)
    requires RangeOk(r) && (tail == "" || tail[0] == ',')
    requires i <= |s| && s[i..] == RangeText(r) + tail && next == i + |RangeText(r)| + 1
    ensures ScanLangs(s, i, number, acc) == ScanLangs(s, next, number, acc + [EntryFor(r, number)])
  {
    if r.q.None? {
      PlainRange(s, i, r.tag, tail, next, number, acc);
    } else {
      QualityRange(s, i, r.tag, r.q.value, tail, next, number, acc);
    }
  }

  /** A range without quality has quality 1. */
  lemma PlainRange(s: string, i: nat, tag: string, tail: string, next: nat, number: string -> int, acc: seq<Lang>)
    requires tag != "" && NoneIn(tag, {' ', ',', ';'}) && (tail == "" || tail[0] == ',')
    requires i <= |s| && s[i..] == tag + tail && next == i + |tag| + 1
    ensures ScanLangs(s, i, number, acc) == ScanLangs(s, next, number, acc + [Lang(tag, FullQuality)])
  {
    var a1 := i + |tag|;
    PlainFound(s, i, tag, tail, a1);
    LangStep(s, i, number, acc, Entry(i, a1, None, next));
  }

  /** A range with quality text q has the quality `number` reads in it. */
  lemma QualityRange(s: string, i: nat, tag: string, q: string, tail: string, next: nat, number: string -> int, acc: seq<Lang>)
    requires tag != "" && NoneIn(tag, {' ', ',', ';'}) && (tail == "" || tail[0] == ',')
    requires q != "" && q[0] != '=' && NoneIn(q, {' ', ','})
    requires i <= |s| && s[i..] == tag + ";q=" + q + tail && next == i + |tag| + 3 + |q| + 1
    ensures ScanLangs(s, i, number, acc) == ScanLangs(s, next, number, acc + [Lang(tag, number(q))])
  {
    var a1 := i + |tag|;
    var a5 := a1 + 3 + |q|;
    QualityFound(s, i, tag, q, tail, a1, a1 + 3, a5);
    LangStep(s, i, number, acc, Entry(i, a1, Some((a1 + 3, a5)), next));
  }

  /** The scan over well-formed ranges joined with `,` adds their entries in
      order and resumes at `end`, one character past the last. */
  lemma {:induction false} RangesThrough(s: string, i: nat, rs: seq<Range>, tail: string, end: nat,
                                         number: string -> int, acc: seq<Lang>)
    requires rs != [] && RangesOk(rs) && (tail == "" || tail[0] == ',')
    requires i <= |s| && s[i..] == LangHeader(rs) + tail && end == i + |LangHeader(rs)| + 1
    ensures ScanLangs(s, i, number, acc) == ScanLangs(s, end, number, acc + Entries(rs, number))
    decreases |rs|, 1
  {
    if |rs| == 1 {
      LastRange(s, i, rs, tail, end, number, acc);
    } else {
      ManyRanges(s, i, rs, tail, end, number, acc);
    }
  }

  /** Several ranges: the first, then the rest after `,`. */
  lemma {:induction false} ManyRanges(s: string, i: nat, rs: seq<Range>, tail: string, end: nat,
                                      number: string -> int, acc: seq<Lang>)
    requires |rs| > 1 && RangesOk(rs) && (tail == "" || tail[0] == ',')
    requires i <= |s| && s[i..] == LangHeader(rs) + tail && end == i + |LangHeader(rs)| + 1
    ensures ScanLangs(s, i, number, acc) == ScanLangs(s, end, number, acc + Entries(rs, number))
    decreases |rs|, 0
  {
    var j, acc1 := FirstOfRanges(s, i, rs, tail, end, number, acc);
    RangesThrough(s, j, rs[1..], tail, end, number, acc1);
  }

  /** The first of several ranges is added, and the rest start at j. */
  lemma FirstOfRanges(s: string, i: nat, rs: seq<Range>, tail: string, end: nat, number: string -> int, acc: seq<Lang>)
    returns (j: nat, acc1: seq<Lang>)
    requires |rs| > 1 && RangesOk(rs) && (tail == "" || tail[0] == ',')
    requires i <= |s| && s[i..] == LangHeader(rs) + tail && end == i + |LangHeader(rs)| + 1
    ensures RangesOk(rs[1..]) && acc + Entries(rs, number) == acc1 + Entries(rs[1..], number)
    ensures j <= |s| && s[j..] == LangHeader(rs[1..]) + tail && end == j + |LangHeader(rs[1..])| + 1
    ensures ScanLangs(s, i, number, acc) == ScanLangs(s, j, number, acc1)
  {
    assert RangeOk(rs[0]);
    assert RangesOk(rs[1..]) by {
      forall k | 0 <= k < |rs[1..]| ensures RangeOk(rs[1..][k]) {
        assert rs[1..][k] == rs[k + 1];
      }
    }
    acc1 := acc + [EntryFor(rs[0], number)];
    assert Entries(rs, number) == [EntryFor(rs[0], number)] + Entries(rs[1..], number);
    j := FirstRangeLayout(s, i, rs, tail, end);
    OneRange(s, i, rs[0], "," + LangHeader(rs[1..]) + tail, j, number, acc);
  }

  /** Where the rest of several ranges starts. */
  lemma FirstRangeLayout(s: string, i: nat, rs: seq<Range>, tail: string, end: nat) returns (j: nat)
    requires |rs| > 1
    requires i <= |s| && s[i..] == LangHeader(rs) + tail && end == i + |LangHeader(rs)| + 1
    ensures s[i..] == RangeText(rs[0]) + ("," + LangHeader(rs[1..]) + tail)
    ensures j == i + |RangeText(rs[0])| + 1
    ensures j <= |s| && s[j..] == LangHeader(rs[1..]) + tail && end == j + |LangHeader(rs[1..])| + 1
  {
    var h := LangHeader(rs[1..]);
    var x := RangeText(rs[0]);
    assert LangHeader(rs) == x + "," + h;
    j := i + |x| + 1;
    var t := s[i..];
    assert t == x + ("," + h + tail);
    assert t[|x| + 1..] == h + tail;
  }

  /** The last range. */
  lemma LastRange(s: string, i: nat, rs: seq<Range>, tail: string, end: nat, number: string -> int, acc: seq<Lang>)
    requires |rs| == 1 && RangesOk(rs) && (tail == "" || tail[0] == ',')
    requires i <= |s| && s[i..] == LangHeader(rs) + tail && end == i + |LangHeader(rs)| + 1
    ensures ScanLangs(s, i, number, acc) == ScanLangs(s, end, number, acc + Entries(rs, number))
  {
    SingleRange(rs, number);
    OneRange(s, i, rs[0], tail, end, number, acc);
  }

  /** A list of one range. */
  lemma SingleRange(rs: seq<Range>, number: string -> int)
    requires |rs| == 1 && RangesOk(rs)
    ensures RangeOk(rs[0]) && LangHeader(rs) == RangeText(rs[0]) && Entries(rs, number) == [EntryFor(rs[0], number)]
  {
    assert RangeOk(rs[0]);
    assert Entries(rs, number) == [EntryFor(rs[0], number)] + Entries(rs[1..], number);
    assert rs[1..] == [];
  }

  /** An Accept-Language header of well-formed ranges yields their tags by
      non-increasing quality, entries of equal quality in header order. */
  lemma ParseLangsRoundTrip(rs: seq<Range>, number: string -> int)
    requires rs != [] && RangesOk(rs)
    ensures ParseLangs(Some(LangHeader(rs)), number) == Tags(SortByQuality(Entries(rs, number)))
  {
    var s := LangHeader(rs);
    assert s != "" by { assert RangeOk(rs[0]); HeaderHasTag(rs); }
    assert s[0..] == s + "";
    RangesThrough(s, 0, rs, "", |s| + 1, number, []);
    assert [] + Entries(rs, number) == Entries(rs, number);
  }

  /** A header starts with its first range. */
  lemma HeaderHasTag(rs: seq<Range>)
    requires rs != []
    ensures |LangHeader(rs)| >= |RangeText(rs[0])| >= |rs[0].tag|
  {
  }

  /** A header whose qualities already do not increase yields its tags in
      header order; so does one without any quality. */
  lemma ParseLangsInOrder(rs: seq<Range>, number: string -> int)
    requires rs != [] && RangesOk(rs) && NonIncreasing(Entries(rs, number))
    ensures var r := ParseLangs(Some(LangHeader(rs)), number);
            |r| == |rs| && forall k :: 0 <= k < |rs| ==> r[k] == rs[k].tag
  {
    ParseLangsRoundTrip(rs, number);
    SortKeepsOrdered(Entries(rs, number));
    EntriesTags(rs, number);
  }

  /** The tags of the entries of ranges are the ranges' tags. */
  lemma {:induction false} EntriesTags(rs: seq<Range>, number: string -> int)
    ensures forall k :: 0 <= k < |rs| ==> Entries(rs, number)[k].tag == rs[k].tag
    decreases |rs|
  {
    if rs != [] {
      EntriesTags(rs[1..], number);
      forall k | 0 < k < |rs| ensures Entries(rs, number)[k].tag == rs[k].tag {
        assert Entries(rs, number)[k] == Entries(rs[1..], number)[k - 1];
        assert rs[1..][k - 1] == rs[k];
      }
    }
  }

  /** Without any quality every entry has quality 1, so the order is kept. */
  lemma PlainEntriesOrdered(rs: seq<Range>, number: string -> int)
    requires forall k :: 0 <= k < |rs| ==> rs[k].q.None?
    ensures NonIncreasing(Entries(rs, number))
  {
    EntriesQuality(rs, number);
  }

  /** Each entry of a range without quality has quality 1. */
  lemma {:induction false} EntriesQuality(rs: seq<Range>, number: string -> int)
    requires forall k :: 0 <= k < |rs| ==> rs[k].q.None?
    ensures forall k :: 0 <= k < |rs| ==> Entries(rs, number)[k].quality == FullQuality
    decreases |rs|
  {
    if rs != [] {
      EntriesQuality(rs[1..], number);
      forall k | 0 < k < |rs| ensures Entries(rs, number)[k].quality == FullQuality {
        assert Entries(rs, number)[k] == Entries(rs[1..], number)[k - 1];
      }
    }
  }

  /** After a tag and `;`, a parameter other than `q` ends the scan, keeping
      the entries found before it. */
  lemma StopsAtOtherParameter(s: string, i: nat, tag: string, sp: string, rest: string,
                              number: string -> int, acc: seq<Lang>)
    requires tag != "" && NoneIn(tag, {' ', ',', ';'}) && AllIn(sp, {' '})
    requires rest == "" || rest[0] !in {' ', 'q'}
    requires i <= |s| && s[i..] == tag + ";" + sp + rest
    ensures ScanLangs(s, i, number, acc) == acc
  {
    var a1 := i + |tag|;
    var a2 := a1 + 1;
    var a3 := a2 + |sp|;
    var t := s[i..];
    var p1 := tag + ";";
    var p2 := p1 + sp;
    assert t == p2 + rest;
    assert Holds(tag, 0, tag);
    HoldsExtend(tag, ";", 0, tag);
    HoldsExtend(p1, sp, 0, tag);
    HoldsExtend(p2, rest, 0, tag);
    HoldsEnd(tag, ";");
    HoldsExtend(p1, sp, |tag|, ";");
    HoldsExtend(p2, rest, |tag|, ";");
    HoldsEnd(p1, sp);
    HoldsExtend(p2, rest, |p1|, sp);
    InSuffix(s, i, 0, i, tag);
    InSuffix(s, i, |tag|, a1, ";");
    InSuffix(s, i, |p1|, a2, sp);
    if rest != "" {
      assert s[a3] == t[|p2|] == rest[0];
    }
    StopRuns(s, i, tag, sp, a1, a2, a3);
    assert ScanLangs(s, i, number, acc) == ScanLang(s, i, number, acc);
  }

  /** Where LangAt gives up on a tag at i..a1, `;` and spaces at a2..a3 and
      then neither `q` nor the end. */
  lemma StopRuns(s: string, i: nat, tag: string, sp: string, a1: nat, a2: nat, a3: nat)
    requires tag != "" && NoneIn(tag, {' ', ',', ';'}) && AllIn(sp, {' '})
    requires Holds(s, i, tag) && a1 == i + |tag|
    requires Holds(s, a1, ";") && a2 == a1 + 1
    requires Holds(s, a2, sp) && a3 == a2 + |sp|
    requires a3 < |s| ==> s[a3] !in {' ', 'q'}
    ensures LangAt(s, i).Done?
  {
    assert s[i] == tag[0] && s[a1] == ';';
    SkipOverRun(s, i, "", {' '});
    ScanToRun(s, i, tag, {' ', ',', ';'});
    SkipOverRun(s, a2, sp, {' '});
  }

  /** An entry whose parameter is not `q` ends the header as far as
      `parseLangs` is concerned. */
  lemma ParseLangsStopsAtOtherParameter(rs: seq<Range>, tag: string, sp: string, rest: string, number: string -> int)
    requires rs != [] && RangesOk(rs)
    requires tag != "" && NoneIn(tag, {' ', ',', ';'}) && AllIn(sp, {' '})
    requires rest == "" || rest[0] !in {' ', 'q'}
    ensures ParseLangs(Some(LangHeader(rs) + "," + tag + ";" + sp + rest), number)
            == ParseLangs(Some(LangHeader(rs)), number)
  {
    var s := LangHeader(rs) + "," + tag + ";" + sp + rest;
    var e := Entries(rs, number);
    ScanStopsAfter(rs, tag, sp, rest, number);
    assert s != "";
    assert ParseLangs(Some(s), number) == Tags(SortByQuality(e));
    ParseLangsRoundTrip(rs, number);
  }

  /** The scan of well-formed ranges followed by an entry whose parameter
      is not `q` finds the ranges' entries. */
  lemma ScanStopsAfter(rs: seq<Range>, tag: string, sp: string, rest: string, number: string -> int)
    requires rs != [] && RangesOk(rs)
    requires tag != "" && NoneIn(tag, {' ', ',', ';'}) && AllIn(sp, {' '})
    requires rest == "" || rest[0] !in {' ', 'q'}
    ensures ScanLangs(LangHeader(rs) + "," + tag + ";" + sp + rest, 0, number, []) == Entries(rs, number)
  {
    var h := LangHeader(rs);
    var s := h + "," + tag + ";" + sp + rest;
    var tail := "," + tag + ";" + sp + rest;
    var e := Entries(rs, number);
    StopLayout(s, h, tail, tag, sp, rest);
    assert [] + e == e;
    RangesThrough(s, 0, rs, tail, |h| + 1, number, []);
    StopsAtOtherParameter(s, |h| + 1, tag, sp, rest, number, e);
  }

  /** Where the entry after a header starts. */
  lemma StopLayout(s: string, h: string, tail: string, tag: string, sp: string, rest: string)
    requires s == h + "," + tag + ";" + sp + rest && tail == "," + tag + ";" + sp + rest
    ensures s[0..] == h + tail && |h| + 1 <= |s| && s[|h| + 1..] == tag + ";" + sp + rest
  {
  }

}
