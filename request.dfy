/** The body, cookie and language parsers of lib/request.js, written as the
    source writes them: character loops over a string with a moving index.
    Each is proved to compute the matching function of module RequestSpec.
    `decodeURIComponent` and `Number` are parameters, and so is the host's
    session table. */
module Request {
  import opened Js
  import opened RequestSpec

  /** `while (currentChar = s.charAt(index), currentChar is in skip) index++`. */
  method SkipChars(s: string, i: nat, skip: set<char>) returns (j: nat)
    ensures j == SkipOver(s, i, skip)
  {
    j := i;
    while j < |s| && s[j] in skip
      invariant i <= j && SkipOver(s, i, skip) == SkipOver(s, j, skip)
      decreases |s| - j
    {
      j := j + 1;
    }
  }

  /** `while (currentChar = s.charAt(index), currentChar && currentChar is not
      in stop) { token += currentChar; index++ }`, from a position inside the
      string or at its end. */
  method TakeChars(s: string, i: nat, stop: set<char>) returns (j: nat, token: string)
    requires i <= |s|
    ensures j == ScanTo(s, i, stop) && token == s[i..j]
  {
    j := i;
    token := "";
    while j < |s| && s[j] !in stop
      invariant i <= j <= |s| && ScanTo(s, i, stop) == ScanTo(s, j, stop)
      invariant token == s[i..j]
      decreases |s| - j
    {
      token := token + [s[j]];
      j := j + 1;
    }
  }

  /** The request object, with the members `parsePOST` fills in. */
  class RequestInterface {
    var body: string
    var files: map<string, File>
    var query: map<string, string>

    function Post(): PostState
      reads this
    {
      PostState(files, query)
    }

    /** A request with its body received and the query of its URL parsed. */
    constructor (body: string, query: map<string, string>)
      ensures this.body == body && files == map[] && this.query == query
    {
      this.body := body;
      files := map[];
      this.query := query;
    }

    /** The Content-Type scan of lib/request.js:6-48. */
    static method ContentKind(content: string) returns (kind: PostKind)
      ensures kind == PostKindOf(content)
    {
      var index := SkipChars(content, 0, {' '});
      if index >= |content| {
        return NoBody;
      }
      var contentType;
      index, contentType := TakeChars(content, index, {' ', ';'});
      if contentType != MultipartType {
        return UrlEncoded;
      }
      index := SkipChars(content, index, {' ', ';'});
      if index >= |content| {
        return NoBody;
      }
      var buffer;
      index, buffer := TakeChars(content, index, {' ', '='});
      if buffer != BoundaryName || index >= |content| {
        return NoBody;
      }
      index := SkipChars(content, index, {' ', '='});
      if index >= |content| {
        return NoBody;
      }
      var boundary;
      ScanToStops(content, index, {});
      index, boundary := TakeChars(content, index, {});
      // The boundary holds at least the character found above, so the
      // source's `!boundary` test never returns.
      kind := Multipart(boundary);
    }

    /** lib/request.js:58-74: the header scan of a part whose opening
        delimiter is at `start`. None where the source breaks out of the part
        loop. */
    static method ReadHeader(content: string, boundary: string, start: nat) returns (h: Option<PartHeader>)
      ensures h == ReadPartHeader(content, boundary, start)
    {
      var name, index := ReadName(content, boundary, start);
      if index < 0 {
        return None;
      }
      var header := ReadRest(content, name, index);
      h := Some(header);
    }

    /** lib/request.js:58-63: the part's name, and the index past its closing
        quote; a negative index where the source breaks out of the loop. */
    static method ReadName(content: string, boundary: string, start: nat) returns (name: string, index: int)
      ensures index < 0 <==> PartName(content, boundary, start).None?
      ensures index >= 0 ==> PartName(content, boundary, start) == Some((name, index))
    {
      index := IndexOf(content, NameMarker, start + 4 + |boundary|) + 6;
      if index < 6 {
        return "", -1;
      }
      name := Substring(content, index, IndexOf(content, "\"", index));
      index := index + |name| + 1;
    }

    /** lib/request.js:65-74: the file name and type, if any, and where the
        content starts. */
    static method ReadRest(content: string, name: string, start: nat) returns (h: PartHeader)
      ensures h == PartRest(content, name, start)
    {
      var tempIndex := IndexOf(content, FilenameMarker, start) + 10;
      if tempIndex >= 10 {
        h := FileHeader(content, name, start, tempIndex);
        return;
      }
      h := PartHeader(name, None, "", start + 4);
    }

    /** `parsePOST` for a request with the given Content-Type. `hangs` is true
        where the source never returns; the members are then as they were
        when it started to cycle. */
    method ParsePost(contentType: string) returns (hangs: bool)
      modifies this
      ensures body == old(body)
      ensures (Post(), hangs) == RequestSpec.ParsePost(contentType, old(body), old(Post()))
    {
      var kind := ContentKind(contentType);
      if !kind.Multipart? {
        return false;
      }
      hangs := ParseParts(kind.boundary);
    }

    /** lib/request.js:50-90: the part loop over the body. */
    method ParseParts(boundary: string) returns (hangs: bool)
      modifies this
      ensures body == old(body)
      ensures (Post(), hangs) == Parts(body, boundary, 0, old(Post()), |body| + 1)
    {
      var content := body;
      var index: nat := 0;
      // Iterations left before the cursor must have repeated a value.
      var fuel: nat := |content| + 1;
      ghost var parts := Parts(content, boundary, 0, old(Post()), |content| + 1);
      while Substr(content, index, 4 + |boundary|) == Opening(boundary)
        invariant body == content
        invariant parts == Parts(content, boundary, index, Post(), fuel)
        decreases fuel
      {
        if fuel == 0 {
          return true;
        }
        var more;
        more, hangs, index := ReadPart(content, boundary, index, fuel);
        if !more {
          return;
        }
        fuel := fuel - 1;
      }
      hangs := false;
    }

    /** lib/request.js:58-89: one pass of the part loop over the part opened
        at `index`. `more` is false where the source leaves the loop, by a
        `break` or by a content loop that never ends (`hangs`). */
    method ReadPart(content: string, boundary: string, index: nat, fuel: nat) returns (more: bool, hangs: bool, next: nat)
      requires Substr(content, index, 4 + |boundary|) == Opening(boundary) && fuel > 0
      modifies this
      ensures body == old(body)
      ensures more ==> Parts(content, boundary, index, old(Post()), fuel) == Parts(content, boundary, next, Post(), fuel - 1)
      ensures !more ==> Parts(content, boundary, index, old(Post()), fuel) == (Post(), hangs)
    {
      PartsOpen(content, boundary, index, Post(), fuel);
      var h := ReadHeader(content, boundary, index);
      if h.None? {
        return false, false, index;
      }
      more, hangs, next := ReadPartContent(content, boundary, h.value, fuel);
    }

    /** lib/request.js:75-89: the content of a part whose header is read,
        stored, and the cursor moved onto the closing delimiter's dashes. */
    method ReadPartContent(content: string, boundary: string, header: PartHeader, fuel: nat)
      returns (more: bool, hangs: bool, next: nat)
      requires fuel > 0
      modifies this
      ensures body == old(body)
      ensures more ==> PartContent(content, boundary, header, old(Post()), fuel) == Parts(content, boundary, next, Post(), fuel - 1)
      ensures !more ==> PartContent(content, boundary, header, old(Post()), fuel) == (Post(), hangs)
    {
      // Where the content loop stops, if anywhere.
      var j := IndexOf(content, Closing(boundary), header.contentStart);
      if j < 0 {
        return false, true, 0;
      }
      var filecontent;
      next, filecontent := ReadContent(content, boundary, header.contentStart, j);
      StorePart(header, filecontent);
      next := next + 2;
      more, hangs := true, false;
    }

    /** lib/request.js:80-88: a part with a file name goes to `files`, any
        other to `query`. */
    method StorePart(header: PartHeader, filecontent: string)
      modifies this
      ensures body == old(body) && Post() == Store(old(Post()), header, filecontent)
    {
      if header.filename.Some? && header.filename.value != "" {
        files := files[header.name := File(filecontent, header.filename.value, header.mimeType)];
      } else {
        query := query[header.name := filecontent];
      }
    }

    /** lib/request.js:75-79: the content of a part, from `start` up to the
        closing delimiter, which the caller found at `j`. */
    static method ReadContent(content: string, boundary: string, start: nat, j: int) returns (index: nat, filecontent: string)
      requires j == IndexOf(content, Closing(boundary), start) && j >= 0
      ensures index == j && filecontent == content[start..j]
    {
      IndexOfFacts(content, Closing(boundary), start);
      index := start;
      filecontent := "";
      while Substr(content, index, 4 + |boundary|) != Closing(boundary)
        invariant start <= index <= j
        invariant filecontent == content[start..index]
        decreases j - index
      {
        SubstrAt(content, index, Closing(boundary));
        filecontent := filecontent + [content[index]];
        index := index + 1;
      }
      SubstrAt(content, index, Closing(boundary));
    }
  }

  /** One pass of the cookie loop of lib/request.js:192-225 up to its value:
      `found` is false where the source breaks out of the loop. */
  method ReadCookie(content: string, index: nat)
    returns (found: bool, name: string, value: string, next: nat, ghost i1: nat, ghost i2: nat, ghost i3: nat)
    ensures found <==> CookieAt(content, index).Some?
    ensures found ==> CookieAt(content, index) == Some((i1, i2, i3, next))
                      && name == content[i1..i2] && value == content[i3..next]
  {
    var i := SkipChars(content, index, {' '});
    if i >= |content| {
      return false, "", "", 0, 0, 0, 0;
    }
    i1 := i;
    i, name := TakeChars(content, i, {' ', '='});
    if i >= |content| {
      return false, "", "", 0, 0, 0, 0;
    }
    i2 := i;
    i := SkipChars(content, i, {' ', '='});
    if i >= |content| {
      return false, "", "", 0, 0, 0, 0;
    }
    i3 := i;
    found := true;
    next, value := TakeChars(content, i, {' ', ';'});
  }

  /** The end of one pass of the cookie loop (lib/request.js:219-223):
      `_session` looks its value up in the session table, any other name
      sets its cookie. */
  method SetCookie<S>(cookies: map<string, string>, session: Option<S>, name: string, value: string,
                      sessions: map<string, S>)
    returns (cookies': map<string, string>, session': Option<S>)
    ensures Jar(cookies', session') == Apply(Jar(cookies, session), name, value, sessions)
  {
    cookies', session' := cookies, session;
    if name == SessionCookie {
      session' := if value in sessions then Some(sessions[value]) else None;
    } else {
      cookies' := cookies[name := value];
    }
  }

  /** The cookie scan of `parseCookies` (lib/request.js:184-226). None when
      `decodeURIComponent` threw. */
  method ParseCookies<S>(header: Option<string>, decode: string -> Option<string>, sessions: map<string, S>)
    returns (r: Option<Jar<S>>)
    ensures r == RequestSpec.ParseCookies(header, decode, sessions)
  {
    var cookies: map<string, string> := map[];
    var session: Option<S> := None;
    if header.Some? && header.value != "" {
      var content := header.value;
      var index := 0;
      while index < |content|
        invariant index <= |content| + 1
        invariant ScanCookies(content, 0, decode, sessions, Jar(map[], None))
               == ScanCookies(content, index, decode, sessions, Jar(cookies, session))
        decreases |content| + 1 - index
      {
        var found, name, value, next, i1, i2, i3 := ReadCookie(content, index);
        if !found {
          CookieEnds(content, index, decode, sessions, Jar(cookies, session));
          break;
        }
        var decoded := decode(value);
        if decoded.None? {
          CookieThrows(content, index, decode, sessions, Jar(cookies, session), i1, i2, i3, next);
          return None;
        }
        CookieStep(content, index, decode, sessions, Jar(cookies, session), i1, i2, i3, next, decoded.value);
        cookies, session := SetCookie(cookies, session, name, decoded.value, sessions);
        index := next + 1;
      }
    }
    r := Some(Jar(cookies, session));
  }

  /** `langs.sort(...)` by non-increasing quality, in place: an insertion
      sort, which keeps entries of equal quality in their order. */
  method SortByQualityInPlace(a: array<Lang>)
    modifies a
    ensures a[..] == SortByQuality(old(a[..]))
  {
    ghost var s := a[..];
    var i := 0;
    while i < a.Length
      invariant 0 <= i <= a.Length
      invariant a[..i] == SortByQuality(s[..i])
      invariant a[i..] == s[i..]
    {
      ghost var prefix := s[..i + 1];
      assert prefix[..i] == s[..i] && prefix[i] == a[i];
      assert SortByQuality(prefix) == InsertLast(SortByQuality(s[..i]), a[i]);
      Insert(a, i);
      assert a[i + 1..] == s[i + 1..] by { assert s[i + 1..] == s[i..][1..]; }
      i := i + 1;
    }
    assert s[..a.Length] == s;
    assert a[..] == a[..a.Length];
  }

  /** Moves a[i] down past the entries before it of lower quality, shifting
      them up by one: the sorted prefix a[..i] grows by one. */
  method Insert(a: array<Lang>, i: nat)
    requires i < a.Length
    modifies a
    ensures a[..i + 1] == InsertLast(old(a[..i]), old(a[i]))
    ensures a[i + 1..] == old(a[i + 1..])
  {
    var x := a[i];
    ghost var t := a[..i];
    var j := i;
    while j > 0 && a[j - 1].quality < x.quality
      invariant 0 <= j <= i
      invariant forall k :: 0 <= k < j ==> a[k] == t[k]
      invariant forall k :: j < k <= i ==> a[k] == t[k - 1]
      invariant a[i + 1..] == old(a[i + 1..])
      invariant forall k :: j <= k < i ==> t[k].quality < x.quality
    {
      a[j] := a[j - 1];
      j := j - 1;
    }
    a[j] := x;
    InsertAt(t, x, j);
    assert a[..i + 1] == t[..j] + [x] + t[j..];
  }

  /** Where the insertion stops: after the entries of lower quality than
      `x` at the back, behind the last one of no lower quality. */
  lemma {:induction false} InsertAt(t: seq<Lang>, x: Lang, j: nat)
    requires j <= |t| && (j == 0 || t[j - 1].quality >= x.quality)
    requires forall k :: j <= k < |t| ==> t[k].quality < x.quality
    ensures InsertLast(t, x) == t[..j] + [x] + t[j..]
    decreases |t|
  {
    if |t| > j {
      var u := t[..|t| - 1];
      InsertAt(u, x, j);
      assert u[..j] == t[..j];
      assert u[j..] + [t[|t| - 1]] == t[j..];
    }
  }

  /** One pass of the loop of lib/request.js:272-315 from `index`: `found`
      is false where the source breaks out of the loop; otherwise the tag,
      its quality text (None for quality 1) and where the next pass starts. */
  method ReadLang(content: string, index: nat) returns (found: bool, tag: string, quality: Option<string>, next: nat)
    ensures found <==> LangAt(content, index).Entry?
    ensures found ==> var e := LangAt(content, index);
                      && tag == content[e.tagStart..e.tagEnd] && next == e.next
                      && (quality.None? <==> e.quality.None?)
                      && (quality.Some? ==> quality.value == content[e.quality.value.0..e.quality.value.1])
  {
    var i := SkipChars(content, index, {' '});
    if i >= |content| {
      return false, "", None, 0;
    }
    var stop;
    stop, tag := TakeChars(content, i, {' ', ',', ';'});
    i := stop + 1;
    if stop >= |content| || content[stop] == ',' {
      return true, tag, None, i;
    }
    i := SkipChars(content, i, {' '});
    if !CharIs(content, i, 'q') {
      return false, "", None, 0;
    }
    i := i + 1;
    i := SkipChars(content, i, {' ', '='});
    if i >= |content| {
      return false, "", None, 0;
    }
    var text;
    i, text := TakeChars(content, i, {' ', ','});
    return true, tag, Some(text), i + 1;
  }

  /** The loop of lib/request.js:272-315: the entries of the header, in the
      order they are found. */
  method ScanLangEntries(content: string, number: string -> int) returns (entries: seq<Lang>)
    ensures entries == ScanLangs(content, 0, number, [])
  {
    var index := 0;
    entries := [];
    while index < |content|
      invariant ScanLangs(content, 0, number, []) == ScanLangs(content, index, number, entries)
      decreases |content| + 1 - index
    {
      var found, tag, quality, next := ReadLang(content, index);
      if !found {
        break;
      }
      LangStep(content, index, number, entries, LangAt(content, index));
      entries := entries + [Lang(tag, if quality.None? then FullQuality else number(quality.value))];
      index := next;
    }
  }

  /** lib/request.js:321-325: each entry replaced by its tag, from the last
      one down. */
  method TagsOf(a: array<Lang>) returns (tags: array<string>)
    ensures fresh(tags) && tags[..] == Tags(a[..])
  {
    tags := new string[a.Length];
    var i := a.Length;
    while i > 0
      invariant 0 <= i <= a.Length
      invariant forall k :: i <= k < a.Length ==> tags[k] == a[k].tag
    {
      i := i - 1;
      tags[i] := a[i].tag;
    }
  }

  /** `parseLangs` (lib/request.js:259-328): the language tags of an
      Accept-Language header, by non-increasing quality. */
  method ParseLangs(header: Option<string>, number: string -> int) returns (langs: seq<string>)
    ensures langs == RequestSpec.ParseLangs(header, number)
  {
    if header.None? || header.value == "" {
      return [];
    }
    var entries := ScanLangEntries(header.value, number);
    var a := new Lang[|entries|](k requires 0 <= k < |entries| => entries[k]);
    assert a[..] == entries;
    SortByQualityInPlace(a);
    var tags := TagsOf(a);
    langs := tags[..];
  }
}
