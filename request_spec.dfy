/** The character scanners of lib/request.js as functions: the Content-Type
    and body scan of `parsePOST` (multipart path), the cookie scan of
    `parseCookies` and the Accept-Language scan and sort of `parseLangs`.
    `decodeURIComponent` is a parameter (None stands for the URIError it
    throws), and so are `Number` on a quality string, as thousandths, and the
    session table of the host. */
module RequestSpec {
  import opened Js

  // ---------------------------------------------------------------------
  // Scanning
  // ---------------------------------------------------------------------

  /** `while (currentChar = s.charAt(index), currentChar is in skip) index++`:
      the first position at or after i not holding a character of `skip`. */
  function SkipOver(s: string, i: nat, skip: set<char>): (j: nat)
    ensures i <= j && (i <= |s| ==> j <= |s|) && (i >= |s| ==> j == i)
    decreases |s| - i
  {
    if i < |s| && s[i] in skip then SkipOver(s, i + 1, skip) else i
  }

  /** Everything SkipOver passes is in `skip`, and it stops on a character
      that is not. */
  lemma {:induction false} SkipOverStops(s: string, i: nat, skip: set<char>)
    ensures forall k :: i <= k < SkipOver(s, i, skip) ==> s[k] in skip
    ensures SkipOver(s, i, skip) < |s| ==> s[SkipOver(s, i, skip)] !in skip
    decreases |s| - i
  {
    if i < |s| && s[i] in skip {
      SkipOverStops(s, i + 1, skip);
    }
  }

  /** `while (currentChar = s.charAt(index), currentChar && currentChar is not
      in stop) { token += currentChar; index++ }`: the first position at or
      after i holding a character of `stop`, or the end. */
  function ScanTo(s: string, i: nat, stop: set<char>): (j: nat)
    ensures i <= j && (i <= |s| ==> j <= |s|) && (i >= |s| ==> j == i)
    decreases |s| - i
  {
    if i < |s| && s[i] !in stop then ScanTo(s, i + 1, stop) else i
  }

  /** Nothing ScanTo passes is in `stop`, and it stops on the end or on a
      character that is. */
  lemma {:induction false} ScanToStops(s: string, i: nat, stop: set<char>)
    ensures forall k :: i <= k < ScanTo(s, i, stop) ==> s[k] !in stop
    ensures ScanTo(s, i, stop) < |s| ==> s[ScanTo(s, i, stop)] in stop
    decreases |s| - i
  {
    if i < |s| && s[i] !in stop {
      ScanToStops(s, i + 1, stop);
    }
  }

  /** `s.charAt(i)` compared with a character: false past the end. */
  predicate CharIs(s: string, i: nat, c: char)
  {
    i < |s| && s[i] == c
  }

  // ---------------------------------------------------------------------
  // parsePOST
  // ---------------------------------------------------------------------

  const MultipartType := "multipart/form-data"
  const BoundaryName := "boundary"

  /** Where the Content-Type scan leads: nothing is parsed, the URL-encoded
      branch, or the multipart branch with the boundary. */
  datatype PostKind = NoBody | UrlEncoded | Multipart(boundary: string)

  /** lib/request.js:6-48. The first token, up to a space or `;`, must be
      exactly the multipart type; then, after spaces and `;`, the next token,
      up to a space or `=`, must be exactly `boundary`; the boundary is every
      character after the following spaces and `=`. */
  function PostKindOf(ct: string): (k: PostKind)
    ensures k.Multipart? ==> k.boundary != "" && |k.boundary| <= |ct| && ct == ct[..|ct| - |k.boundary|] + k.boundary
  {
    var i0 := SkipOver(ct, 0, {' '});
    if i0 >= |ct| then NoBody
    else
      var i1 := ScanTo(ct, i0, {' ', ';'});
      if ct[i0..i1] != MultipartType then UrlEncoded
      else
        var i2 := SkipOver(ct, i1, {' ', ';'});
        if i2 >= |ct| then NoBody
        else
          var i3 := ScanTo(ct, i2, {' ', '='});
          if ct[i2..i3] != BoundaryName || i3 >= |ct| then NoBody
          else
            var i4 := SkipOver(ct, i3, {' ', '='});
            if i4 >= |ct| then NoBody
            else Multipart(ct[i4..])
  }

  const NameMarker := "name=\""
  const FilenameMarker := "filename=\""
  const TypeMarker := "Content-Type: "

  /** `'--' + boundary + '\r\n'`, which must open each part. */
  function Opening(b: string): (r: string)
    ensures |r| == 4 + |b|
  {
    "--" + b + "\r\n"
  }

  /** `'\r\n--' + boundary`, which ends each part's content. */
  function Closing(b: string): (r: string)
    ensures |r| == 4 + |b|
  {
    "\r\n--" + b
  }

  /** A file part sent with a POST body. */
  datatype File = File(content: string, filename: string, mimeType: string)

  /** The members of the request object the body parser writes. */
  datatype PostState = PostState(files: map<string, File>, query: map<string, string>)

  /** What the header scan of one part found, and where its content starts. */
  datatype PartHeader = PartHeader(name: string, filename: Option<string>, mimeType: string, contentStart: nat)

  /** lib/request.js:58-74, for a part whose opening is at `index`: the name is
      what follows the first `name="` up to the next quote; a `filename="`
      anywhere after the name makes it a file part; the content of a part
      without one starts four characters after the name's closing quote.
      None when no `name="` follows. */
  function ReadPartHeader(content: string, b: string, index: nat): Option<PartHeader>
  {
    var p := PartName(content, b, index);
    if p.None? then None else Some(PartRest(content, p.value.0, p.value.1))
  }

  /** lib/request.js:58-63: the name of the part whose opening is at `index`,
      and the index just past its closing quote. */
  function PartName(content: string, b: string, index: nat): Option<(string, nat)>
  {
    var n := IndexOf(content, NameMarker, index + 4 + |b|);
    if n < 0 then None
    else
      var name := Substring(content, n + 6, IndexOf(content, "\"", n + 6));
      Some((name, n + 6 + |name| + 1))
  }

  /** lib/request.js:65-74: the rest of the header of a part whose name ends
      before `i3`. */
  function PartRest(content: string, name: string, i3: nat): PartHeader
  {
    var t := IndexOf(content, FilenameMarker, i3);
    if t < 0 then PartHeader(name, None, "", i3 + 4)
    else FileHeader(content, name, i3, t + 10)
  }

  /** lib/request.js:67-74, a file part whose name ends before `i3` and whose
      `filename="` ends at `ti`: the file name runs up to the next quote, the
      type is what follows the next `Content-Type: ` after it up to a CR, and
      the content starts four characters after that CR. `substring` clamps a
      missing end (-1) to 0, so a name with no closing quote is everything
      before its start, and a missing `Content-Type: ` (-1 + 14) reads the
      type from position 13. */
  function FileHeader(content: string, name: string, i3: nat, ti: nat): (h: PartHeader)
    ensures h.name == name && h.filename.Some?
  {
    var filename := Substring(content, ti, IndexOf(content, "\"", ti));
    TypeLine(content, name, filename, TypeFrom(content, i3, filename))
  }

  /** lib/request.js:69-70: where the type of a file part starts, 14 past
      the first `Content-Type: ` searched for from 11 past the end of the
      name plus the length of the file name; 13 when there is none. */
  function TypeFrom(content: string, i3: nat, filename: string): (ci: nat)
    ensures ci >= 13
  {
    IndexOf(content, TypeMarker, i3 + 11 + |filename|) + 14
  }

  /** lib/request.js:70-74, the type line of a file part read from `ci`: the
      type runs up to the next CR (everything before `ci` when there is
      none), and the content starts four characters after that CR. */
  function TypeLine(content: string, name: string, filename: string, ci: nat): (h: PartHeader)
    ensures h.name == name && h.filename == Some(filename)
  {
    var mimeType := Substring(content, ci, IndexOf(content, "\r", ci));
    PartHeader(name, Some(filename), mimeType, ci + |mimeType| + 4)
  }

  /** lib/request.js:80-88: a part with a non-empty filename goes to `files`,
      every other part to `query`, replacing what was there. */
  function Store(st: PostState, h: PartHeader, content: string): (r: PostState)
    ensures h.filename.Some? && h.filename.value != "" ==>
              r == st.(files := st.files[h.name := File(content, h.filename.value, h.mimeType)])
    ensures !(h.filename.Some? && h.filename.value != "") ==> r == st.(query := st.query[h.name := content])
  {
    if h.filename.Some? && h.filename.value != "" then
      st.(files := st.files[h.name := File(content, h.filename.value, h.mimeType)])
    else st.(query := st.query[h.name := content])
  }

  /** The part loop of lib/request.js:57-90 from `index`, with the parts read
      so far in `st`. The flag is true when the source never returns: the
      content loop at :76-79 runs past the end when no closing delimiter
      follows, and the cursor can move backwards (a file part without a
      `Content-Type: ` line resumes the search near the start), after which
      the cursor values repeat. The cursor takes at most |content| + 1
      values, so once `fuel` more iterations than that have run the loop is
      cycling. */
  function Parts(content: string, b: string, index: nat, st: PostState, fuel: nat): (r: (PostState, bool))
    decreases fuel, 2
  {
    if Substr(content, index, 4 + |b|) != Opening(b) then (st, false) else Iteration(content, b, index, st, fuel)
  }

  /** An iteration of the part loop: none is left once the cursor must have
      repeated a value. */
  function Iteration(content: string, b: string, index: nat, st: PostState, fuel: nat): (r: (PostState, bool))
    decreases fuel, 1
  {
    if fuel == 0 then (st, true) else Part(content, b, index, st, fuel)
  }

  /** One pass of the part loop over a part opened at `index`, and the
      passes after it: its header is read (the loop ends without one). */
  function Part(content: string, b: string, index: nat, st: PostState, fuel: nat): (r: (PostState, bool))
    requires fuel > 0
    decreases fuel, 0, 1
  {
    match ReadPartHeader(content, b, index)
    case None => (st, false)
    case Some(h) => PartContent(content, b, h, st, fuel)
  }

  /** The rest of the pass once the header `h` is read: the content runs up
      to the next closing delimiter, after which the loop resumes two
      characters later, on the delimiter's dashes. */
  function PartContent(content: string, b: string, h: PartHeader, st: PostState, fuel: nat): (r: (PostState, bool))
    requires fuel > 0
    decreases fuel, 0, 0
  {
    var j := IndexOf(content, Closing(b), h.contentStart);
    if j < 0 then (st, true)
    else Parts(content, b, j + 2, Store(st, h, content[h.contentStart..j]), fuel - 1)
  }

  /** An opened part with iterations left is read. */
  lemma PartsOpen(content: string, b: string, index: nat, st: PostState, fuel: nat)
    requires Substr(content, index, 4 + |b|) == Opening(b) && fuel > 0
    ensures Parts(content, b, index, st, fuel) == Part(content, b, index, st, fuel)
  {
    assert Iteration(content, b, index, st, fuel) == Part(content, b, index, st, fuel);
  }

  /** `parsePOST` on a Content-Type and a body, from the members as they were.
      The URL-encoded branch is not part of this model and is left as no
      change. */
  function ParsePost(ct: string, body: string, st: PostState): (PostState, bool)
  {
    match PostKindOf(ct)
    case Multipart(b) => Parts(body, b, 0, st, |body| + 1)
    case _ => (st, false)
  }

  // ---------------------------------------------------------------------
  // parseCookies
  // ---------------------------------------------------------------------

  const SessionCookie := "_session"

  /** The cookies read and the session found, `S` being the host's session
      objects. */
  datatype Jar<S> = Jar(cookies: map<string, string>, session: Option<S>)

  /** What one `name=value` does: `_session` looks the value up in the
      session table (None when absent), every other name sets its cookie. */
  function Apply<S>(jar: Jar<S>, name: string, value: string, sessions: map<string, S>): (r: Jar<S>)
    ensures name == SessionCookie ==> r.cookies == jar.cookies
    ensures name == SessionCookie ==> r.session == (if value in sessions then Some(sessions[value]) else None)
    ensures name != SessionCookie ==> r.cookies == jar.cookies[name := value] && r.session == jar.session
  {
    if name == SessionCookie then jar.(session := if value in sessions then Some(sessions[value]) else None)
    else jar.(cookies := jar.cookies[name := value])
  }

  /** Where one pass of the cookie loop of lib/request.js:192-225 from `i`
      finds its `name=value`: spaces, a name up to a space or `=`, spaces and
      `=`, a value up to a space or `;`. The bounds of name and value, or None
      when the header ends before a value starts. */
  function CookieAt(s: string, i: nat): (r: Option<(nat, nat, nat, nat)>)
    ensures r.Some? ==> i <= r.value.0 <= r.value.1 < r.value.2 <= r.value.3 <= |s|
  {
    var i1 := SkipOver(s, i, {' '});
    if i1 >= |s| then None
    else
      var i2 := ScanTo(s, i1, {' ', '='});
      if i2 >= |s| then None
      else
        ScanToStops(s, i1, {' ', '='});
        var i3 := SkipOver(s, i2, {' ', '='});
        if i3 >= |s| then None
        else Some((i1, i2, i3, ScanTo(s, i3, {' ', ';'})))
  }

  /** The cookie loop from `i`: each value is decoded and applied, and one
      character after it is skipped. The loop stops at the end of the header
      wherever it falls, dropping a name without a value. None when a decode
      threw. */
  function ScanCookies<S>(s: string, i: nat, decode: string -> Option<string>, sessions: map<string, S>,
                          jar: Jar<S>): (r: Option<Jar<S>>)
    decreases |s| - i, 1
  {
    if i >= |s| then Some(jar) else ScanCookie(s, i, decode, sessions, jar)
  }

  /** One pass of the cookie loop from `i`, inside the header, and the
      passes after it. */
  function ScanCookie<S>(s: string, i: nat, decode: string -> Option<string>, sessions: map<string, S>,
                         jar: Jar<S>): (r: Option<Jar<S>>)
    requires i < |s|
    decreases |s| - i, 0
  {
    var c := CookieAt(s, i);
    if c.None? then Some(jar)
    else
      var value := decode(s[c.value.2..c.value.3]);
      if value.None? then None
      else ScanCookies(s, c.value.3 + 1, decode, sessions, Apply(jar, s[c.value.0..c.value.1], value.value, sessions))
  }

  /** One pass of the cookie loop that reaches a value which decodes, as
      the cookie scan sees it. */
  lemma CookieStep<S>(s: string, i: nat, decode: string -> Option<string>, sessions: map<string, S>,
                      jar: Jar<S>, i1: nat, i2: nat, i3: nat, i4: nat, value: string)
    requires i < |s| && CookieAt(s, i) == Some((i1, i2, i3, i4))
    requires decode(s[i3..i4]) == Some(value)
    ensures ScanCookies(s, i, decode, sessions, jar) == ScanCookies(s, i4 + 1, decode, sessions, Apply(jar, s[i1..i2], value, sessions))
  {
  }

  /** One pass of the cookie loop that finds no value before the end of the
      header ends the scan with the jar it has. */
  lemma CookieEnds<S>(s: string, i: nat, decode: string -> Option<string>, sessions: map<string, S>, jar: Jar<S>)
    requires i < |s| && CookieAt(s, i).None?
    ensures ScanCookies(s, i, decode, sessions, jar) == Some(jar)
  {
  }

  /** One pass of the cookie loop whose value does not decode throws. */
  lemma CookieThrows<S>(s: string, i: nat, decode: string -> Option<string>, sessions: map<string, S>,
                        jar: Jar<S>, i1: nat, i2: nat, i3: nat, i4: nat)
    requires i < |s| && CookieAt(s, i) == Some((i1, i2, i3, i4))
    requires decode(s[i3..i4]).None?
    ensures ScanCookies(s, i, decode, sessions, jar) == None
  {
  }

  /** lib/request.js:184-226: no (or an empty) Cookie header gives no cookies
      and no session. */
  function ParseCookies<S>(header: Option<string>, decode: string -> Option<string>, sessions: map<string, S>): (r: Option<Jar<S>>)
    ensures header.None? || header == Some("") ==> r == Some(Jar(map[], None))
  {
    if header.None? || header.value == "" then Some(Jar(map[], None))
    else ScanCookies(header.value, 0, decode, sessions, Jar(map[], None))
  }

  // ---------------------------------------------------------------------
  // parseLangs
  // ---------------------------------------------------------------------

  /** A language range and its quality in thousandths (1000 is `q=1`). */
  datatype Lang = Lang(tag: string, quality: int)

  const FullQuality := 1000

  /** What one pass of the loop of lib/request.js:272-315 finds: the scan
      stops there, keeping what it has, or it finds an entry with the bounds
      of its tag and of its quality text (None for quality 1) and moves on to
      `next`. */
  datatype LangPass = Done | Entry(tagStart: nat, tagEnd: nat, quality: Option<(nat, nat)>, next: nat)

  /** One pass from `i`: spaces, a tag up to a space, `,` or `;`; a tag
      ended by `,` or the end has quality 1; otherwise the next non-space
      character must be `q` (or the scan stops), then after spaces and `=`
      the quality runs up to a space or `,`. One character after the tag, or
      after the quality, is skipped. */
  function LangAt(s: string, i: nat): (r: LangPass)
    ensures r.Entry? ==> i <= r.tagStart <= r.tagEnd <= |s| && r.tagEnd < r.next
    ensures r.Entry? && r.quality.Some? ==> r.quality.value.0 <= r.quality.value.1 <= |s| && r.quality.value.1 < r.next
  {
    var i1 := SkipOver(s, i, {' '});
    if i1 >= |s| then Done
    else
      var i2 := ScanTo(s, i1, {' ', ',', ';'});
      if i2 >= |s| || s[i2] == ',' then Entry(i1, i2, None, i2 + 1)
      else
        var i3 := SkipOver(s, i2 + 1, {' '});
        if !CharIs(s, i3, 'q') then Done
        else
          var i4 := SkipOver(s, i3 + 1, {' ', '='});
          if i4 >= |s| then Done
          else
            var i5 := ScanTo(s, i4, {' ', ','});
            Entry(i1, i2, Some((i4, i5)), i5 + 1)
  }

  /** The entry a pass found, `Number` giving the quality of its text. */
  function EntryOf(s: string, e: LangPass, number: string -> int): Lang
    requires e.Entry? && e.tagStart <= e.tagEnd <= |s|
    requires e.quality.Some? ==> e.quality.value.0 <= e.quality.value.1 <= |s|
  {
    Lang(s[e.tagStart..e.tagEnd], if e.quality.None? then FullQuality else number(s[e.quality.value.0..e.quality.value.1]))
  }

  /** The scan of lib/request.js:272-315 from `i`, with the entries found so
      far: passes until the end of the header or a pass that stops. */
  function ScanLangs(s: string, i: nat, number: string -> int, acc: seq<Lang>): seq<Lang>
    decreases |s| - i, 1
  {
    if i >= |s| then acc else ScanLang(s, i, number, acc)
  }

  /** One pass from `i`, inside the header, and the passes after it. */
  function ScanLang(s: string, i: nat, number: string -> int, acc: seq<Lang>): seq<Lang>
    requires i < |s|
    decreases |s| - i, 0
  {
    var e := LangAt(s, i);
    if e.Done? then acc else ScanLangs(s, e.next, number, acc + [EntryOf(s, e, number)])
  }

  /** A pass that finds an entry, as the language scan sees it. */
  lemma LangStep(s: string, i: nat, number: string -> int, acc: seq<Lang>, e: LangPass)
    requires i < |s| && e == LangAt(s, i) && e.Entry?
    ensures ScanLangs(s, i, number, acc) == ScanLangs(s, e.next, number, acc + [EntryOf(s, e, number)])
  {
  }

  /** `t` is ordered by non-increasing quality. */
  predicate NonIncreasing(t: seq<Lang>)
  {
    forall i, j :: 0 <= i < j < |t| ==> t[i].quality >= t[j].quality
  }

  /** `x` placed after every entry of `t` from the back that does not have a
      lower quality: one step of a stable sort by non-increasing quality. */
  function InsertLast(t: seq<Lang>, x: Lang): (r: seq<Lang>)
    ensures |r| == |t| + 1
    decreases |t|
  {
    if t == [] || t[|t| - 1].quality >= x.quality then t + [x]
    else InsertLast(t[..|t| - 1], x) + [t[|t| - 1]]
  }

  /** `langs.sort((first, second) => second.quality - first.quality)`, a
      stable sort (lib/request.js:317-319). */
  function SortByQuality(s: seq<Lang>): (r: seq<Lang>)
    ensures |r| == |s|
  {
    if s == [] then [] else InsertLast(SortByQuality(s[..|s| - 1]), s[|s| - 1])
  }

  function Tags(t: seq<Lang>): (r: seq<string>)
    ensures |r| == |t| && forall k :: 0 <= k < |t| ==> r[k] == t[k].tag
  {
    seq(|t|, k requires 0 <= k < |t| => t[k].tag)
  }

  /** lib/request.js:259-328: no (or an empty) header gives no languages. */
  function ParseLangs(header: Option<string>, number: string -> int): (r: seq<string>)
    ensures header.None? || header == Some("") ==> r == []
    ensures header.Some? && header.value != "" ==> |r| == |ScanLangs(header.value, 0, number, [])|
  {
    if header.None? || header.value == "" then []
    else Tags(SortByQuality(ScanLangs(header.value, 0, number, [])))
  }
}
