/** The streaming multipart/form-data parser of utils/parsers/multipart.js as
    pure functions over a snapshot of the parser's members. Each function here
    is one method of the parser's prototype; the class in module Multipart
    runs the same steps in place and is proved to agree with these. The body
    format is the one of RFC 7578, with the delimiter of section 5.1.1 of
    RFC 2046 (CRLF, two hyphens, the boundary). */
module MultipartSpec {
  import opened Js

  const NoBoundaryMessage := "No boundary found for multipart parser"
  const UnexpectedBoundaryMessage := "Unexpected boundary symbol found"
  const InvalidEndingMessage := "Invalid multipart request ending"
  const InvalidDispositionMessage := "Invalid content disposition structure"
  const NoDelimiterMessage := "No header name delimiter found"

  const CR: byte := 13
  const LF: byte := 10
  const DASH: byte := 45
  const COLON: byte := 58

  // ---------------------------------------------------------------------
  // The boundary parameter: /boundary=(?:"([^"]+)"|([^;]+))/i
  // ---------------------------------------------------------------------

  /** The match of the boundary expression at position p of the Content-Type
      value, if it matches there: after a case-insensitive `boundary=`, either a
      non-empty run of non-quote characters between quotes, or else the
      non-empty run of characters up to the first `;` or the end. */
  function BoundaryAt(t: string, p: nat): (r: Option<string>)
    ensures r.Some? ==> |r.value| > 0
  {
    if !(p + 9 <= |t| && EqualsIgnoreCase(t[p..p + 9], "boundary=")) then None
    else
      var q := p + 9;
      var close := IndexOf(t, "\"", q + 1);
      if q < |t| && t[q] == '"' && close > q + 1 then Some(t[q + 1..close])
      else
        var semi := IndexOf(t, ";", q);
        var e := if semi < 0 then |t| else semi;
        if e > q then Some(t[q..e]) else None
  }

  /** The first match of the boundary expression at or after position p:
      the leftmost position where it matches, and None exactly when it
      matches nowhere. */
  function BoundaryParam(t: string, p: nat): (r: Option<string>)
    ensures r.Some? ==> |r.value| > 0
    ensures r.Some? ==> exists k :: p <= k && BoundaryAt(t, k) == r && NoBoundaryBetween(t, p, k)
    ensures r.None? <==> forall k :: p <= k ==> BoundaryAt(t, k).None?
    decreases |t| - p
  {
    if p + 9 > |t| then None
    else match BoundaryAt(t, p)
      case Some(b) => Some(b)
      case None => BoundaryParam(t, p + 1)
  }

  /** The boundary expression matches at no position in [p, k). */
  predicate NoBoundaryBetween(t: string, p: nat, k: nat)
  {
    forall j :: p <= j < k ==> BoundaryAt(t, j).None?
  }

  /** The boundary text the constructor keeps: the captured group, or the
      empty string when the expression does not match. */
  function BoundaryText(contentType: string): string
  {
    match BoundaryParam(contentType, 0)
    case Some(b) => b
    case None => ""
  }

  /** `new Buffer('\r\n--' + boundary)`. */
  function BoundaryBytes(contentType: string): (b: seq<byte>)
    ensures |b| >= 4 && b[..4] == [CR, LF, DASH, DASH]
    ensures b == [CR, LF, DASH, DASH] + Utf8(BoundaryText(contentType))
  {
    Utf8Append("\r\n--", BoundaryText(contentType));
    assert Utf8("\r\n--") == [CR, LF, DASH, DASH] by {
      assert "\r\n--"[1..] == "\n--";
      assert "\n--"[1..] == "--";
      assert "--"[1..] == "-";
      assert "-"[1..] == "";
    }
    Utf8("\r\n--" + BoundaryText(contentType))
  }

  // ---------------------------------------------------------------------
  // The Content-Disposition value:
  // /^form-data; name="([^"]+)"(?:; filename="(.*?)")?$/i
  // ---------------------------------------------------------------------

  const DispositionPrefix := "form-data; name=\""
  const FilenamePrefix := "; filename=\""

  /** The two groups of a matching disposition: the name, and the file name
      when the optional part took part in the match (it may be empty). */
  datatype Title = Title(name: string, filename: Option<string>)

  /** The characters `.` does not match in a JavaScript regular expression. */
  predicate IsLineTerminator(c: char)
  {
    c == '\n' || c == '\r' || c == '\U{2028}' || c == '\U{2029}'
  }

  function ParseDisposition(v: string): (r: Option<Title>)
    ensures r.Some? ==> |r.value.name| > 0
    ensures r.Some? ==> forall k :: 0 <= k < |r.value.name| ==> r.value.name[k] != '"'
    ensures r.Some? ==> |v| >= 17 && EqualsIgnoreCase(v[..17], DispositionPrefix)
  {
    if |v| < 17 || !EqualsIgnoreCase(v[..17], DispositionPrefix) then None
    else
      var close := IndexOf(v, "\"", 17);
      if close <= 17 then None
      else
        var rest := v[close + 1..];
        assert forall k :: 17 <= k < close ==> v[k] != '"' by {
          IndexOfFacts(v, "\"", 17);
          forall k | 17 <= k < close ensures v[k] != '"' {
            assert !At(v, k, "\"");
            assert v[k..k + 1] == [v[k]];
          }
        }
        if rest == "" then Some(Title(v[17..close], None))
        else if |rest| >= 13 && EqualsIgnoreCase(rest[..12], FilenamePrefix) && rest[|rest| - 1] == '"'
                && (forall k :: 12 <= k < |rest| - 1 ==> !IsLineTerminator(rest[k]))
        then Some(Title(v[17..close], Some(rest[12..|rest| - 1])))
        else None
  }

  // ---------------------------------------------------------------------
  // Fields and events
  // ---------------------------------------------------------------------

  /** One part of the body: what the `field` stream object carries. `chunks`
      are the buffers written to the stream, the last one by `end`. */
  datatype Field = Field(name: string, filename: Option<string>, contentType: Option<string>,
                         headers: map<string, string>, chunks: seq<seq<byte>>, ended: bool)

  /** The events the parser emits; a field is referred to by its position in
      the parser's list of created fields (None: the parser emitted null). */
  datatype Event = FieldEmitted(field: Option<nat>) | ErrorEmitted(message: string) | EndEmitted

  /** The `field` constructor: the name from the first group, a file name only
      when the second group is non-empty, and then a null type. */
  function NewField(t: Title): (f: Field)
    ensures f.name == t.name && f.headers == map[] && f.chunks == [] && !f.ended
    ensures f.contentType == None
    ensures f.filename.Some? <==> (t.filename.Some? && t.filename.value != "")
    ensures f.filename.Some? ==> f.filename == t.filename
  {
    var file := if t.filename.Some? && t.filename.value != "" then t.filename else None;
    Field(t.name, file, None, map[], [], false)
  }

  // ---------------------------------------------------------------------
  // Parser state
  // ---------------------------------------------------------------------

  /** The parser's members. `state` is 0 first boundary, 1 headers, 2 data,
      3 request end, 4 done and -1 failed. `field` is the position of the
      current field in `fields`, the fields created so far. */
  datatype PState = PState(state: int, bindex: nat, prev: byte, pindex: nat, sindex: nat,
                           buffer: seq<byte>, field: Option<nat>, fields: seq<Field>, events: seq<Event>)

  /** Invariant of every parser, whatever its state: the boundary starts with
      CRLF and two hyphens, the match cursor stays within one past the
      boundary, at most one field is open and it is the current one. */
  predicate WF(s: PState, b: seq<byte>)
  {
    && |b| >= 4 && b[..4] == [CR, LF, DASH, DASH]
    && s.bindex <= |b| + 1
    && (s.prev == 0 || s.prev == CR || s.prev == DASH)
    && FieldsWF(s.field, s.fields, s.events)
  }

  /** At most one field is open and it is the current one; events refer to
      created fields. */
  predicate FieldsWF(field: Option<nat>, fields: seq<Field>, events: seq<Event>)
  {
    && (field.Some? ==> field.value < |fields| && !fields[field.value].ended)
    && (forall i :: 0 <= i < |fields| && field != Some(i) ==> fields[i].ended)
    && (forall e :: e in events && e.FieldEmitted? && e.field.Some? ==> e.field.value < |fields|)
  }

  /** What holds of every state a parser can reach from its constructor:
      state 3 is never entered, the first boundary is matched with no field,
      and the header and done states have a reset cursor. */
  predicate Reachable(s: PState)
  {
    && (s.state == -1 || s.state == 0 || s.state == 1 || s.state == 2 || s.state == 4)
    && (s.state == 0 ==> s.field.None? && s.fields == [] && 2 <= s.bindex)
    && (s.state == 1 ==> s.bindex == 0)
    && (s.state == 4 ==> s.field.None? && s.bindex == 0)
  }

  function Fail(s: PState, message: string): (r: PState)
  {
    s.(events := s.events + [ErrorEmitted(message)], state := -1)
  }

  /** The constructor: state 0 with the match cursor past the leading CRLF of
      the boundary, or an error and state -1 when there is no boundary. */
  function Initial(contentType: string): (s: PState)
    ensures WF(s, BoundaryBytes(contentType)) && Reachable(s)
    ensures s.bindex == 2 && s.prev == 0 && s.buffer == [] && s.field == None && s.fields == []
    ensures BoundaryParam(contentType, 0).Some? ==> s.state == 0 && s.events == []
    ensures BoundaryParam(contentType, 0).None? ==> s.state == -1 && s.events == [ErrorEmitted(NoBoundaryMessage)]
  {
    var found := BoundaryParam(contentType, 0).Some?;
    PState(if found then 0 else -1, 2, 0, 0, 0, [], None, [],
           if found then [] else [ErrorEmitted(NoBoundaryMessage)])
  }

  /** `endPartData`: the current field is ended with a last chunk, and the
      parser forgets it. With no current field, `this.field.end` throws a
      TypeError before anything changes (the second component). */
  function EndPartData(s: PState, b: seq<byte>, chunk: seq<byte>, next: int): (r: (PState, bool))
    requires WF(s, b) && (next == 1 || next == 4)
    ensures WF(r.0, b)
    ensures r.1 <==> s.field.None?
    ensures r.1 ==> r.0 == s
    ensures !r.1 ==> && r.0.field == None && r.0.prev == 0 && r.0.bindex == 0 && r.0.pindex == 0
                     && r.0.state == next && |r.0.fields| == |s.fields|
                     && r.0.fields[s.field.value].chunks == s.fields[s.field.value].chunks + [chunk]
                     && r.0.fields[s.field.value].ended
                     && r.0.events == s.events && r.0.buffer == s.buffer
  {
    match s.field
    case None => (s, true)
    case Some(i) =>
      var f := s.fields[i].(chunks := s.fields[i].chunks + [chunk], ended := true);
      (s.(fields := s.fields[i := f], field := None, prev := 0, bindex := 0, state := next, pindex := 0), false)
  }

  /** `getData`, one byte of a field's payload. The first byte of a chunk
      starts the payload slice (`pindex`) at 0. */
  function GetData(s: PState, b: seq<byte>, data: seq<byte>, index: nat): (r: (PState, bool))
    requires WF(s, b) && s.state == 2 && index < |data|
    ensures WF(r.0, b)
    ensures r.0.state == 2 || r.0.state == 1 || r.0.state == 4 || r.0.state == -1
    ensures r.1 ==> s.field.None?
    // the next byte of the delimiter moves the cursor on, remembering where it started
    ensures var s0 := s.(pindex := if index == 0 then 0 else s.pindex);
            s.bindex < |b| && data[index] == b[s.bindex] ==>
              r == (s0.(sindex := if s.bindex == 0 then index else s.sindex, bindex := s.bindex + 1), false)
    // a payload byte that cannot start a delimiter, short of the chunk's end, changes nothing
    ensures var s0 := s.(pindex := if index == 0 then 0 else s.pindex);
            s.bindex == 0 && data[index] != b[0] && index < |data| - 1 ==> r == (s0, false)
    // after a whole delimiter a CR or a hyphen is remembered, any other byte fails
    ensures var s0 := s.(pindex := if index == 0 then 0 else s.pindex);
            s.bindex == |b| && (data[index] == CR || data[index] == DASH) ==>
              r == (s0.(prev := data[index], bindex := |b| + 1), false)
    // CRLF after the delimiter ends the field and reads headers next; "--" ends it and the body
    ensures var s0 := s.(pindex := if index == 0 then 0 else s.pindex);
            s.bindex == |b| + 1 && ((data[index] == LF && s.prev == CR) || (data[index] == DASH && s.prev == DASH)) ==>
              r == EndPartData(s0, b, Slice(data, s0.pindex, s.sindex), if data[index] == LF then 1 else 4)
    ensures r.0.state == -1 <==>
              || (s.bindex == |b| && data[index] != CR && data[index] != DASH)
              || (s.bindex == |b| + 1 && !(data[index] == LF && s.prev == CR) && !(data[index] == DASH && s.prev == DASH))
    ensures r.0.state == -1 ==> !r.1 && r.0.fields == s.fields && r.0.field == s.field
    ensures r.0.state == -1 ==> r.0.events == s.events + [ErrorEmitted(UnexpectedBoundaryMessage)]
    ensures r.0.state == 1 || r.0.state == 4 ==>
              && s.bindex == |b| + 1 && s.field.Some? && r.0.field == None
              && (r.0.state == 1 <==> data[index] == LF) && |r.0.fields| == |s.fields|
              && r.0.fields[s.field.value].chunks
                 == s.fields[s.field.value].chunks + [Slice(data, if index == 0 then 0 else s.pindex, s.sindex)]
    ensures index == 0 && r.0.state == 2 && !r.1 ==> r.0.pindex == 0
    // inside a partial match, a byte that breaks it restarts the match only
    // when it is a CR; any other byte leaves the cursor where it was
    ensures var s0 := s.(pindex := if index == 0 then 0 else s.pindex);
            0 < s.bindex < |b| && data[index] != b[s.bindex] && index < |data| - 1 ==>
              r == (if data[index] == CR then s0.(sindex := index, bindex := 1) else s0, false)
    // the last byte of a chunk, outside a match, flushes the pending payload
    // into the open field and changes nothing else (without a field it throws)
    ensures var s0 := s.(pindex := if index == 0 then 0 else s.pindex);
            index == |data| - 1 && s.bindex < |b| && data[index] != b[s.bindex] ==>
              && (r.1 <==> s.field.None?)
              && (s.field.None? ==> r.0 == s0)
              && (s.field.Some? ==>
                    && r.0 == s0.(fields := r.0.fields, pindex := 0)
                    && r.0.fields == s.fields[s.field.value := s.fields[s.field.value].(
                         chunks := s.fields[s.field.value].chunks + [SliceFrom(data, s0.pindex)])])
  {
    var current := data[index];
    var s0 := if index == 0 then s.(pindex := 0) else s;
    if s0.bindex < |b| && current == b[s0.bindex] then
      (s0.(sindex := if s0.bindex == 0 then index else s0.sindex, bindex := s0.bindex + 1), false)
    else if s0.bindex == |b| then
      if current == CR then (s0.(prev := CR, bindex := s0.bindex + 1), false)
      else if current == DASH then (s0.(prev := DASH, bindex := s0.bindex + 1), false)
      else (Fail(s0, UnexpectedBoundaryMessage), false)
    else if s0.bindex > |b| then
      if current == LF && s0.prev == CR then EndPartData(s0, b, Slice(data, s0.pindex, s0.sindex), 1)
      else if current == DASH && s0.prev == DASH then EndPartData(s0, b, Slice(data, s0.pindex, s0.sindex), 4)
      else (Fail(s0, UnexpectedBoundaryMessage), false)
    else if index == |data| - 1 then
      match s0.field
      case None => (s0, true)
      case Some(i) =>
        var f := s0.fields[i].(chunks := s0.fields[i].chunks + [SliceFrom(data, s0.pindex)]);
        (s0.(fields := s0.fields[i := f], pindex := 0), false)
    else if s0.bindex != 0 && current == b[0] then
      (s0.(sindex := index, bindex := 1), false)
    else (s0, false)
  }

  /** `newPart`: a new current field from a disposition value, or an error. */
  function NewPart(s: PState, b: seq<byte>, disposition: string): (r: PState)
    requires WF(s, b) && s.field.None?
    ensures WF(r, b)
    ensures ParseDisposition(disposition).Some? ==>
              && r.field == Some(|s.fields|) && r.fields == s.fields + [NewField(ParseDisposition(disposition).value)]
              && r.state == s.state && r.events == s.events
    ensures ParseDisposition(disposition).None? ==>
              r.state == -1 && r.events == s.events + [ErrorEmitted(InvalidDispositionMessage)] && r.field == None
  {
    match ParseDisposition(disposition)
    case Some(t) => s.(field := Some(|s.fields|), fields := s.fields + [NewField(t)])
    case None => Fail(s, InvalidDispositionMessage)
  }

  /** The name and value of a header line held in the buffer: the trimmed
      Latin-1 text before and after its first colon. */
  function HeaderName(line: seq<byte>, colon: nat): string
    requires colon <= |line|
  {
    Trim(Latin1(line[..colon]))
  }

  function HeaderValue(line: seq<byte>, colon: nat): string
    requires colon < |line|
  {
    Trim(Latin1(line[colon + 1..]))
  }

  /** A header applied to a field: a file part records its Content-Type
      apart, every other header goes to the field's header map. */
  function ApplyHeader(f: Field, name: string, value: string): (g: Field)
    ensures g.name == f.name && g.filename == f.filename && g.chunks == f.chunks && g.ended == f.ended
    ensures f.filename.Some? && name == "Content-Type" ==> g.contentType == Some(value) && g.headers == f.headers
    ensures !(f.filename.Some? && name == "Content-Type") ==>
              g.contentType == f.contentType && g.headers == f.headers[name := value]
  {
    if f.filename.Some? && name == "Content-Type" then f.(contentType := Some(value))
    else f.(headers := f.headers[name := value])
  }

  /** Replacing the current field by another open field keeps the invariant. */
  lemma UpdateCurrentField(s: PState, b: seq<byte>, g: Field)
    requires WF(s, b) && s.field.Some? && !g.ended
    ensures WF(s.(fields := s.fields[s.field.value := g]), b)
  {
    var r := s.(fields := s.fields[s.field.value := g]);
    forall e | e in r.events && e.FieldEmitted? && e.field.Some?
      ensures e.field.value < |r.fields|
    {
      assert e in s.events;
    }
  }

  /** `parseHeader`: the buffered line is split at its first colon and applied
      to the current field. */
  function ParseHeader(s: PState, b: seq<byte>): (r: PState)
    requires WF(s, b)
    ensures WF(r, b) && r.buffer == []
    ensures r.state == s.state || r.state == -1
    ensures IndexOf(s.buffer, [COLON], 0) <= 0 ==>
              r.state == -1 && r.events == s.events + [ErrorEmitted(NoDelimiterMessage)] && r.fields == s.fields
    ensures var colon := IndexOf(s.buffer, [COLON], 0);
            colon > 0 && s.field.None? && HeaderName(s.buffer, colon) != "Content-Disposition" ==>
              r.state == -1 && r.events == s.events && r.field == None
    ensures var colon := IndexOf(s.buffer, [COLON], 0);
            colon > 0 && s.field.None? && HeaderName(s.buffer, colon) == "Content-Disposition" ==>
              r == NewPart(s.(buffer := []), b, HeaderValue(s.buffer, colon))
    ensures var colon := IndexOf(s.buffer, [COLON], 0);
            colon > 0 && s.field.Some? ==>
              r == s.(buffer := [], fields := s.fields[s.field.value :=
                     ApplyHeader(s.fields[s.field.value], HeaderName(s.buffer, colon), HeaderValue(s.buffer, colon))])
  {
    var colon := IndexOf(s.buffer, [COLON], 0);
    var s1 := s.(buffer := []);
    if colon > 0 then ApplyHeaderLine(s1, b, HeaderName(s.buffer, colon), HeaderValue(s.buffer, colon))
    else Fail(s1, NoDelimiterMessage)
  }

  /** The effect of one complete header line once split into name and value:
      with no current field only an exact `Content-Disposition` opens a part
      (any other header stops the parser without an event); otherwise the
      header goes to the current field. */
  function ApplyHeaderLine(s: PState, b: seq<byte>, header: string, value: string): (r: PState)
    requires WF(s, b)
    ensures WF(r, b) && r.buffer == s.buffer
    ensures r.state == s.state || r.state == -1
  {
    match s.field
    case None =>
      if header == "Content-Disposition" then NewPart(s, b, value) else s.(state := -1)
    case Some(i) =>
      var g := ApplyHeader(s.fields[i], header, value);
      UpdateCurrentField(s, b, g);
      s.(fields := s.fields[i := g])
  }

  /** `getHeader`, one byte of a part's header block. */
  function GetHeader(s: PState, b: seq<byte>, index: nat, current: byte): (r: PState)
    requires WF(s, b) && s.state == 1
    ensures WF(r, b)
    ensures r.state == 1 || r.state == 2 || r.state == -1
    ensures r.bindex == s.bindex
    ensures current == CR ==> r == s.(prev := CR)
    ensures current != CR && !(current == LF && s.prev == CR) ==> r == s.(buffer := s.buffer + [current])
    ensures current == LF && s.prev == CR && s.buffer == [] ==>
              r == s.(state := 2, pindex := index + 1, events := s.events + [FieldEmitted(s.field)])
    ensures current == LF && s.prev == CR && s.buffer != [] ==> r == ParseHeader(s, b)
  {
    if current == CR then s.(prev := CR)
    else if current == LF && s.prev == CR then
      if |s.buffer| > 0 then ParseHeader(s, b)
      else s.(state := 2, pindex := index + 1, events := s.events + [FieldEmitted(s.field)])
    else s.(buffer := s.buffer + [current])
  }

  /** `getRequestEnd`. State 3 is never entered (lemma
      MultipartProperties.StateThreeUnreachable), so this step never runs. */
  function GetRequestEnd(s: PState, b: seq<byte>, current: byte): (r: PState)
    requires WF(s, b) && s.state == 3
    ensures WF(r, b)
    ensures r.state == 3 || (r.state == -1 && r.events == s.events + [ErrorEmitted(InvalidEndingMessage)])
  {
    if current == CR && s.prev == 0 then s.(prev := CR)
    else if current != LF && s.prev != CR then Fail(s, InvalidEndingMessage)
    else s
  }

  /** `skipFirstBoundary`, one byte of the opening delimiter. */
  function SkipFirstBoundary(s: PState, b: seq<byte>, current: byte): (r: PState)
    requires WF(s, b) && s.state == 0
    ensures WF(r, b)
    ensures r.state == 0 || r.state == 1 || r.state == -1
    ensures r.field == s.field && r.fields == s.fields
    ensures r.state == 0 ==> r.bindex == s.bindex + 1 && r.events == s.events
    ensures r.state == 1 <==> s.bindex == |b| + 1 && current == LF && s.prev == CR
    ensures r.state == 1 ==> r.bindex == 0 && r.prev == 0 && r.events == s.events
    ensures r.state == -1 ==> r.events == s.events + [ErrorEmitted(UnexpectedBoundaryMessage)]
  {
    if s.bindex < |b| && current == b[s.bindex] then s.(bindex := s.bindex + 1)
    else if s.bindex == |b| && current == CR then s.(prev := CR, bindex := s.bindex + 1)
    else if s.bindex > |b| && current == LF && s.prev == CR then s.(bindex := 0, prev := 0, state := 1)
    else Fail(s, UnexpectedBoundaryMessage)
  }

  /** One iteration of the loop in `write`: the byte at `index` is dispatched
      on the state; states 4 and -1 dispatch nothing. */
  function Step(s: PState, b: seq<byte>, data: seq<byte>, index: nat): (r: (PState, bool))
    requires WF(s, b) && index < |data|
    ensures WF(r.0, b)
    ensures s.state == 4 || s.state == -1 ==> r == (s, false)
  {
    if s.state == 0 then (SkipFirstBoundary(s, b, data[index]), false)
    else if s.state == 1 then (GetHeader(s, b, index, data[index]), false)
    else if s.state == 2 then GetData(s, b, data, index)
    else if s.state == 3 then (GetRequestEnd(s, b, data[index]), false)
    else (s, false)
  }

  /** `write(data)` from position `index` on: the loop stops at the end of the
      chunk, at state -1, or when a step throws (second component). */
  function WriteFrom(s: PState, b: seq<byte>, data: seq<byte>, index: nat): (r: (PState, bool))
    requires WF(s, b)
    ensures WF(r.0, b)
    ensures s.state == -1 ==> r == (s, false)
    decreases |data| - index
  {
    if index >= |data| || s.state == -1 then (s, false)
    else
      var (s1, threw) := Step(s, b, data, index);
      if threw then (s1, true) else WriteFrom(s1, b, data, index + 1)
  }
}
