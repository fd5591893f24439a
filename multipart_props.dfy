/** What the multipart parser of utils/parsers/multipart.js guarantees, proved
    on the functions of module MultipartSpec. */
module MultipartProperties {
  import opened Js
  import opened MultipartSpec

  // ---------------------------------------------------------------------
  // The boundary parameter and the disposition value
  // ---------------------------------------------------------------------

  /** The first quote at or after `from` closes a quote-free run `v`. */
  lemma FirstQuote(t: string, from: nat, v: string)
    requires from + |v| < |t| && t[from..from + |v|] == v && t[from + |v|] == '"'
    requires forall k :: 0 <= k < |v| ==> v[k] != '"'
    ensures IndexOf(t, "\"", from) == from + |v|
  {
    IndexOfFacts(t, "\"", from);
    assert At(t, from + |v|, "\"") by {
      assert t[from + |v|..from + |v| + 1] == [t[from + |v|]];
    }
    forall k | from <= k < from + |v|
      ensures !At(t, k, "\"")
    {
      assert t[k..k + 1][0] == t[k] == v[k - from];
    }
  }

  /** No `;` at or after q when the text from q on holds none. */
  lemma NoSemicolon(t: string, q: nat)
    requires q <= |t| && forall k :: q <= k < |t| ==> t[k] != ';'
    ensures IndexOf(t, ";", q) == -1
  {
    IndexOfFacts(t, ";", q);
    forall k | q <= k && k + 1 <= |t|
      ensures !At(t, k, ";")
    {
      assert t[k..k + 1][0] == t[k];
    }
  }

  /** Positions holding no `b` or `B` cannot start a match. */
  lemma {:induction false} SkipNonMatching(t: string, p: nat, q: nat)
    requires p <= q <= |t|
    requires forall k :: p <= k < q ==> LowerAscii(t[k]) != 'b'
    ensures BoundaryParam(t, p) == BoundaryParam(t, q)
    decreases q - p
  {
    if p < q && p + 9 <= |t| {
      assert LowerAscii(t[p..p + 9][0]) != LowerAscii("boundary="[0]);
      assert BoundaryAt(t, p) == None;
      SkipNonMatching(t, p + 1, q);
    }
  }

  /** At a position holding `boundary=` followed by an unquoted value without
      `;` up to the end, the expression captures that value. */
  lemma BoundaryAtUnquoted(t: string, p: nat, v: string)
    requires p + 9 <= |t| && t[p..p + 9] == "boundary=" && t[p + 9..] == v
    requires |v| > 0 && v[0] != '"' && forall k :: 0 <= k < |v| ==> v[k] != ';'
    ensures BoundaryAt(t, p) == Some(v)
  {
    assert EqualsIgnoreCase(t[p..p + 9], "boundary=");
    assert t[p + 9] == v[0];
    NoSemicolon(t, p + 9);
    assert t[p + 9..|t|] == v;
  }

  /** A Content-Type whose text before `boundary=` has no letter b, followed by
      an unquoted value without `;`, yields that value: e.g.
      `multipart/form-data; boundary=XyZ`. */
  lemma BoundaryParamUnquoted(pre: string, v: string)
    requires forall k :: 0 <= k < |pre| ==> LowerAscii(pre[k]) != 'b'
    requires |v| > 0 && v[0] != '"' && forall k :: 0 <= k < |v| ==> v[k] != ';'
    ensures BoundaryParam(pre + "boundary=" + v, 0) == Some(v)
    ensures BoundaryText(pre + "boundary=" + v) == v
  {
    var t := pre + "boundary=" + v;
    SkipNonMatching(t, 0, |pre|);
    assert t[|pre|..|pre| + 9] == "boundary=";
    assert t[|pre| + 9..] == v;
    BoundaryAtUnquoted(t, |pre|, v);
  }

  /** The pieces of `boundary="v"` followed by anything. */
  lemma QuotedParts(u: string, v: string, rest: string)
    requires u == "boundary=\"" + v + "\"" + rest
    ensures |u| == 11 + |v| + |rest|
    ensures u[..9] == "boundary=" && u[9] == '"' && u[10..10 + |v|] == v && u[10 + |v|] == '"'
  {
    var after := v + "\"" + rest;
    assert u == "boundary=\"" + after;
    assert u[10..] == after;
  }

  /** At a position holding `boundary="v"`, the expression captures v. */
  lemma BoundaryAtQuoted(t: string, p: nat, v: string, rest: string)
    requires p <= |t| && t[p..] == "boundary=\"" + v + "\"" + rest
    requires |v| > 0 && forall k :: 0 <= k < |v| ==> v[k] != '"'
    ensures BoundaryAt(t, p) == Some(v)
  {
    var u := t[p..];
    QuotedParts(u, v, rest);
    assert t[p..p + 9] == u[..9];
    assert EqualsIgnoreCase(t[p..p + 9], "boundary=");
    assert t[p + 9] == u[9];
    assert t[p + 10..p + 10 + |v|] == u[10..10 + |v|];
    assert t[p + 10 + |v|] == u[10 + |v|];
    FirstQuote(t, p + 10, v);
  }

  /** The quoted form `boundary="v"` yields the text between the quotes. */
  lemma BoundaryParamQuoted(pre: string, v: string, rest: string)
    requires forall k :: 0 <= k < |pre| ==> LowerAscii(pre[k]) != 'b'
    requires |v| > 0 && forall k :: 0 <= k < |v| ==> v[k] != '"'
    ensures BoundaryParam(pre + "boundary=\"" + v + "\"" + rest, 0) == Some(v)
  {
    var tail := "boundary=\"" + v + "\"" + rest;
    var t := pre + tail;
    assert t == pre + "boundary=\"" + v + "\"" + rest;
    var p := |pre|;
    forall k | 0 <= k < p ensures LowerAscii(t[k]) != 'b' {
      assert t[k] == pre[k];
    }
    SkipNonMatching(t, 0, p);
    assert t[p..] == tail;
    BoundaryAtQuoted(t, p, v, rest);
  }

  /** A Content-Type in which the boundary expression matches at no position
      leaves the parser failed with the no-boundary error from the start. */
  lemma NoBoundaryFails(contentType: string)
    requires forall k :: BoundaryAt(contentType, k).None?
    ensures Initial(contentType).state == -1
    ensures Initial(contentType).events == [ErrorEmitted(NoBoundaryMessage)]
    ensures forall data :: WriteFrom(Initial(contentType), BoundaryBytes(contentType), data, 0).0 == Initial(contentType)
  {
  }

  /** The value `form-data; name="n"` has the name n and no file name group. */
  lemma DispositionRoundTrip(n: string)
    requires |n| > 0 && forall k :: 0 <= k < |n| ==> n[k] != '"'
    ensures ParseDisposition(DispositionPrefix + n + "\"") == Some(Title(n, None))
  {
    var v := DispositionPrefix + n + "\"";
    assert v[..17] == DispositionPrefix;
    assert v[17..17 + |n|] == n;
    FirstQuote(v, 17, n);
    assert v[17 + |n| + 1..] == "";
  }

  /** With `; filename="f"` the file name group is f, quotes included, as
      long as f has no line terminator. */
  lemma DispositionWithFilenameRoundTrip(n: string, f: string)
    requires |n| > 0 && forall k :: 0 <= k < |n| ==> n[k] != '"'
    requires forall k :: 0 <= k < |f| ==> !IsLineTerminator(f[k])
    ensures ParseDisposition(DispositionPrefix + n + "\"" + FilenamePrefix + f + "\"") == Some(Title(n, Some(f)))
  {
    var v := DispositionPrefix + n + "\"" + FilenamePrefix + f + "\"";
    assert v[..17] == DispositionPrefix;
    assert v[17..17 + |n|] == n;
    FirstQuote(v, 17, n);
    var rest := v[17 + |n| + 1..];
    assert rest == FilenamePrefix + f + "\"";
    assert rest[..12] == FilenamePrefix;
    assert rest[12..|rest| - 1] == f;
    assert EqualsIgnoreCase(rest[..12], FilenamePrefix);
  }

  /** A disposition with an empty file name (`filename=""`) gives a field
      without a file name, as for an ordinary form field. */
  lemma EmptyFilenameIsNoFile(n: string)
    requires |n| > 0 && forall k :: 0 <= k < |n| ==> n[k] != '"'
    ensures ParseDisposition(DispositionPrefix + n + "\"" + FilenamePrefix + "\"").Some?
    ensures NewField(ParseDisposition(DispositionPrefix + n + "\"" + FilenamePrefix + "\"").value).filename == None
  {
    DispositionWithFilenameRoundTrip(n, "");
    assert DispositionPrefix + n + "\"" + FilenamePrefix + "" + "\"" == DispositionPrefix + n + "\"" + FilenamePrefix + "\"";
  }

  // ---------------------------------------------------------------------
  // Reachable states
  // ---------------------------------------------------------------------

  lemma {:induction false} StepReachable(s: PState, b: seq<byte>, data: seq<byte>, index: nat)
    requires WF(s, b) && Reachable(s) && index < |data|
    ensures Reachable(Step(s, b, data, index).0)
  {
  }

  lemma {:induction false} WriteReachable(s: PState, b: seq<byte>, data: seq<byte>, index: nat)
    requires WF(s, b) && Reachable(s)
    ensures Reachable(WriteFrom(s, b, data, index).0)
    decreases |data| - index
  {
    if index < |data| && s.state != -1 {
      StepReachable(s, b, data, index);
      var (s1, threw) := Step(s, b, data, index);
      if !threw {
        WriteReachable(s1, b, data, index + 1);
      }
    }
  }

  /** The parser after a series of `write` calls, one per chunk (a call that
      throws leaves the members as they were when it threw). */
  function Feed(s: PState, b: seq<byte>, chunks: seq<seq<byte>>): (r: PState)
    requires WF(s, b)
    ensures WF(r, b)
    decreases |chunks|
  {
    if chunks == [] then s else Feed(WriteFrom(s, b, chunks[0], 0).0, b, chunks[1..])
  }

  /** State 3 (`getRequestEnd`) is never entered: after any series of chunks
      the parser is in state -1, 0, 1, 2 or 4. */
  lemma {:induction false} StateThreeUnreachable(contentType: string, chunks: seq<seq<byte>>)
    ensures Reachable(Feed(Initial(contentType), BoundaryBytes(contentType), chunks))
    ensures Feed(Initial(contentType), BoundaryBytes(contentType), chunks).state != 3
  {
    FeedReachable(Initial(contentType), BoundaryBytes(contentType), chunks);
  }

  lemma {:induction false} FeedReachable(s: PState, b: seq<byte>, chunks: seq<seq<byte>>)
    requires WF(s, b) && Reachable(s)
    ensures Reachable(Feed(s, b, chunks))
    decreases |chunks|
  {
    if chunks != [] {
      WriteReachable(s, b, chunks[0], 0);
      FeedReachable(WriteFrom(s, b, chunks[0], 0).0, b, chunks[1..]);
    }
  }

  /** Once the closing delimiter is seen (state 4) every further byte is ignored. */
  lemma {:induction false} DoneIgnoresBytes(s: PState, b: seq<byte>, data: seq<byte>, index: nat)
    requires WF(s, b) && s.state == 4
    ensures WriteFrom(s, b, data, index) == (s, false)
    decreases |data| - index
  {
    if index < |data| {
      DoneIgnoresBytes(s, b, data, index + 1);
    }
  }

  // ---------------------------------------------------------------------
  // The opening delimiter
  // ---------------------------------------------------------------------

  /** The bytes the parser expects first: the boundary without its leading
      CRLF (two hyphens and the boundary text), then CRLF. */
  function OpeningDelimiter(b: seq<byte>): (e: seq<byte>)
    requires |b| >= 2
    ensures |e| == |b|
  {
    b[2..] + [CR, LF]
  }

  /** One iteration of the `write` loop in state 0. */
  lemma {:induction false} WriteFromSkip(s: PState, b: seq<byte>, data: seq<byte>, index: nat)
    requires WF(s, b) && s.state == 0 && index < |data|
    ensures WriteFrom(s, b, data, index) == WriteFrom(SkipFirstBoundary(s, b, data[index]), b, data, index + 1)
  {
  }

  /** The parser after the next n bytes of the opening delimiter, short of
      its end: the cursor moved by n, and `prev` is CR once the CR after the
      boundary has been seen. */
  function AfterPrefix(s: PState, b: seq<byte>, n: nat): PState
  {
    s.(bindex := s.bindex + n, prev := if s.bindex <= |b| < s.bindex + n then CR else s.prev)
  }

  /** One byte in state 0: the expected byte of the opening delimiter moves
      the cursor (or, for its final LF, enters the header state), any other
      byte fails the parser. */
  lemma {:induction false} FirstBoundaryStep(s: PState, b: seq<byte>, c: byte)
    requires WF(s, b) && s.state == 0 && 2 <= s.bindex && (s.bindex == |b| + 1 ==> s.prev == CR)
    ensures var e := OpeningDelimiter(b); var j := s.bindex - 2;
            && (c != e[j] ==> SkipFirstBoundary(s, b, c) == Fail(s, UnexpectedBoundaryMessage))
            && (c == e[j] && j < |e| - 1 ==> SkipFirstBoundary(s, b, c) == AfterPrefix(s, b, 1))
            && (c == e[j] && j == |e| - 1 ==> SkipFirstBoundary(s, b, c) == s.(state := 1, bindex := 0, prev := 0))
  {
  }

  /** The expected byte short of the final LF moves the cursor by one. */
  lemma {:induction false} AcceptOne(s: PState, b: seq<byte>, data: seq<byte>, index: nat)
    requires WF(s, b) && s.state == 0 && 2 <= s.bindex && (s.bindex == |b| + 1 ==> s.prev == CR)
    requires index < |data| && s.bindex - 2 < |b| - 1 && data[index] == OpeningDelimiter(b)[s.bindex - 2]
    ensures var s1 := AfterPrefix(s, b, 1);
            && WF(s1, b) && s1.state == 0 && 2 <= s1.bindex && (s1.bindex == |b| + 1 ==> s1.prev == CR)
            && WriteFrom(s, b, data, index) == WriteFrom(s1, b, data, index + 1)
  {
    FirstBoundaryStep(s, b, data[index]);
    WriteFromSkip(s, b, data, index);
  }

  /** The final LF of the opening delimiter enters the header state. */
  lemma {:induction false} AcceptLast(s: PState, b: seq<byte>, data: seq<byte>, index: nat)
    requires WF(s, b) && s.state == 0 && 2 <= s.bindex && (s.bindex == |b| + 1 ==> s.prev == CR)
    requires index < |data| && s.bindex - 2 == |b| - 1 && data[index] == OpeningDelimiter(b)[s.bindex - 2]
    ensures WriteFrom(s, b, data, index) == WriteFrom(s.(state := 1, bindex := 0, prev := 0), b, data, index + 1)
  {
    FirstBoundaryStep(s, b, data[index]);
    WriteFromSkip(s, b, data, index);
  }

  /** Bytes that follow the opening delimiter from position 2 + j on, short
      of its final LF, are consumed without an event: the parser reaches t,
      the state after n of them, at position `end`. */
  lemma {:induction false} FirstBoundaryPrefix(s: PState, b: seq<byte>, data: seq<byte>, index: nat, n: nat, t: PState, end: nat)
    requires WF(s, b) && s.state == 0 && 2 <= s.bindex && (s.bindex == |b| + 1 ==> s.prev == CR)
    requires n < |b| + 2 - s.bindex && end == index + n <= |data|
    requires forall k :: index <= k < end ==> data[k] == OpeningDelimiter(b)[s.bindex - 2 + (k - index)]
    requires t == AfterPrefix(s, b, n)
    ensures WF(t, b)
    ensures WriteFrom(s, b, data, index) == WriteFrom(t, b, data, end)
    decreases n
  {
    if n > 0 {
      var s1 := AfterPrefix(s, b, 1);
      assert t == AfterPrefix(s1, b, n - 1);
      FirstBoundaryPrefix(s1, b, data, index + 1, n - 1, t, end);
      assert data[index] == OpeningDelimiter(b)[s.bindex - 2 + (index - index)];
      AcceptOne(s, b, data, index);
    }
  }

  /** The rest of the opening delimiter from position 2 + j on, its final
      LF included, takes the parser to the header state at position `end`. */
  lemma {:induction false} FirstBoundaryAccepts(s: PState, b: seq<byte>, data: seq<byte>, index: nat, end: nat)
    requires WF(s, b) && s.state == 0 && 2 <= s.bindex && (s.bindex == |b| + 1 ==> s.prev == CR)
    requires end == index + |b| + 2 - s.bindex <= |data|
    requires forall k :: index <= k < end ==> data[k] == OpeningDelimiter(b)[s.bindex - 2 + (k - index)]
    ensures WriteFrom(s, b, data, index) == WriteFrom(s.(state := 1, bindex := 0, prev := 0), b, data, end)
  {
    var last := end - 1;
    var s1 := AfterPrefix(s, b, last - index);
    FirstBoundaryPrefix(s, b, data, index, last - index, s1, last);
    assert data[last] == OpeningDelimiter(b)[s1.bindex - 2];
    AcceptLast(s1, b, data, last);
    assert s1.(state := 1, bindex := 0, prev := 0) == s.(state := 1, bindex := 0, prev := 0);
  }

  /** A byte that differs from the opening delimiter fails the parser with
      the unexpected-boundary error. */
  lemma {:induction false} FirstBoundaryRejects(s: PState, b: seq<byte>, data: seq<byte>, index: nat, k: nat)
    requires WF(s, b) && s.state == 0 && 2 <= s.bindex && (s.bindex == |b| + 1 ==> s.prev == CR)
    requires index <= k < |data| && k - index < |b| + 2 - s.bindex
    requires data[k] != OpeningDelimiter(b)[s.bindex - 2 + (k - index)]
    ensures WriteFrom(s, b, data, index).0.state == -1
    ensures WriteFrom(s, b, data, index).0.events == s.events + [ErrorEmitted(UnexpectedBoundaryMessage)]
    decreases |data| - index
  {
    FirstBoundaryStep(s, b, data[index]);
    WriteFromSkip(s, b, data, index);
    if data[index] == OpeningDelimiter(b)[s.bindex - 2] {
      var s1 := AfterPrefix(s, b, 1);
      assert k > index;
      assert s1.bindex - 2 + (k - (index + 1)) == s.bindex - 2 + (k - index);
      FirstBoundaryRejects(s1, b, data, index + 1, k);
    }
  }

  /** The opening delimiter is two hyphens, the boundary text and CRLF. */
  lemma {:induction false} OpeningDelimiterBytes(contentType: string)
    ensures OpeningDelimiter(BoundaryBytes(contentType)) == [DASH, DASH] + Utf8(BoundaryText(contentType)) + [CR, LF]
  {
    var b := BoundaryBytes(contentType);
    assert b[2..] == [DASH, DASH] + Utf8(BoundaryText(contentType));
  }

  /** A new parser that receives the whole opening delimiter `--boundary` CRLF
      enters the header state with no event and goes on with the next byte. */
  lemma {:induction false} FirstBoundaryComplete(contentType: string, data: seq<byte>)
    requires BoundaryParam(contentType, 0).Some?
    requires var e := OpeningDelimiter(BoundaryBytes(contentType)); |data| >= |e| && data[..|e|] == e
    ensures var b := BoundaryBytes(contentType);
            WriteFrom(Initial(contentType), b, data, 0)
            == WriteFrom(Initial(contentType).(state := 1, bindex := 0), b, data, |b|)
  {
    var b := BoundaryBytes(contentType);
    var e := OpeningDelimiter(b);
    var s := Initial(contentType);
    forall k | 0 <= k < |b|
      ensures data[k] == e[s.bindex - 2 + (k - 0)]
    {
      assert data[..|e|][k] == data[k];
    }
    FirstBoundaryAccepts(s, b, data, 0, |b|);
    assert s.(state := 1, bindex := 0, prev := 0) == s.(state := 1, bindex := 0);
  }

  /** A proper prefix of the opening delimiter leaves a new parser waiting in
      state 0 with no event. */
  lemma {:induction false} FirstBoundaryPartial(contentType: string, data: seq<byte>)
    requires BoundaryParam(contentType, 0).Some?
    requires var e := OpeningDelimiter(BoundaryBytes(contentType)); |data| < |e| && data == e[..|data|]
    ensures WriteFrom(Initial(contentType), BoundaryBytes(contentType), data, 0).0.state == 0
    ensures WriteFrom(Initial(contentType), BoundaryBytes(contentType), data, 0).0.events == []
  {
    var b := BoundaryBytes(contentType);
    var e := OpeningDelimiter(b);
    var s := Initial(contentType);
    forall k | 0 <= k < 0 + |data|
      ensures data[k] == e[s.bindex - 2 + (k - 0)]
    {
      assert e[..|data|][k] == e[k];
    }
    var r := AfterPrefix(s, b, |data|);
    FirstBoundaryPrefix(s, b, data, 0, |data|, r, |data|);
    assert WriteFrom(r, b, data, |data|) == (r, false);
  }

  /** Any byte among the first |boundary| + 2 that differs from the opening
      delimiter fails a new parser with the unexpected-boundary error. */
  lemma {:induction false} FirstBoundaryMismatch(contentType: string, data: seq<byte>, k: nat)
    requires BoundaryParam(contentType, 0).Some?
    requires var e := OpeningDelimiter(BoundaryBytes(contentType)); k < |data| && k < |e| && data[k] != e[k]
    ensures WriteFrom(Initial(contentType), BoundaryBytes(contentType), data, 0).0.state == -1
    ensures WriteFrom(Initial(contentType), BoundaryBytes(contentType), data, 0).0.events
            == [ErrorEmitted(UnexpectedBoundaryMessage)]
  {
    var b := BoundaryBytes(contentType);
    var s := Initial(contentType);
    assert data[k] != OpeningDelimiter(b)[s.bindex - 2 + (k - 0)];
    FirstBoundaryRejects(s, b, data, 0, k);
  }

  // ---------------------------------------------------------------------
  // The data phase
  // ---------------------------------------------------------------------

  /** One iteration of the `write` loop in state 2. */
  lemma {:induction false} WriteFromData(s: PState, b: seq<byte>, data: seq<byte>, index: nat)
    requires WF(s, b) && s.state == 2 && index < |data|
    ensures var (s1, threw) := GetData(s, b, data, index);
            WriteFrom(s, b, data, index) == if threw then (s1, true) else WriteFrom(s1, b, data, index + 1)
  {
  }

  /** Payload bytes without a CR, short of the chunk's last byte, pass
      without changing the parser (the first byte of a chunk resets
      `pindex`, which is 0 here). */
  lemma {:induction false} PayloadRun(s: PState, b: seq<byte>, data: seq<byte>, index: nat, end: nat)
    requires WF(s, b) && s.state == 2 && s.bindex == 0 && s.pindex == 0
    requires index <= end < |data| && forall k :: index <= k < end ==> data[k] != CR
    ensures WriteFrom(s, b, data, index) == WriteFrom(s, b, data, end)
    decreases end - index
  {
    if index < end {
      assert GetData(s, b, data, index).0 == s by {
        var r := GetData(s, b, data, index);
        assert r.0.pindex == s.pindex && r.0.bindex == s.bindex && r.0.sindex == s.sindex;
      }
      DataStep(s, b, data, index, s);
      PayloadRun(s, b, data, index + 1, end);
    }
  }

  /** One byte of the write loop in state 2 that does not throw. */
  lemma {:induction false} DataStep(s: PState, b: seq<byte>, data: seq<byte>, index: nat, s1: PState)
    requires WF(s, b) && s.state == 2 && index < |data| && GetData(s, b, data, index) == (s1, false)
    ensures WriteFrom(s, b, data, index) == WriteFrom(s1, b, data, index + 1)
  {
    WriteFromData(s, b, data, index);
  }

  /** A matching byte inside the delimiter moves the cursor on. */
  lemma {:induction false} MatchStep(base: PState, b: seq<byte>, data: seq<byte>, index: nat, j: nat)
    requires WF(base, b) && base.state == 2 && 1 <= j < |b| && index < |data| && data[index] == b[j]
    requires 0 < index || base.pindex == 0
    ensures WriteFrom(base.(bindex := j), b, data, index) == WriteFrom(base.(bindex := j + 1), b, data, index + 1)
  {
    var t := base.(bindex := j);
    assert GetData(t, b, data, index).0 == t.(bindex := j + 1) by {
      var r := GetData(t, b, data, index);
      assert r.0.bindex == j + 1 && r.0.sindex == t.sindex && r.0.pindex == t.pindex;
    }
    DataStep(t, b, data, index, base.(bindex := j + 1));
  }

  /** From position `index` up to `end` the data holds the delimiter from
      its j-th byte on. */
  predicate DelimiterAt(b: seq<byte>, data: seq<byte>, index: nat, j: nat, end: nat)
  {
    && j <= |b| && end == index + |b| - j && end <= |data|
    && forall k :: index <= k < end ==> data[k] == b[j + (k - index)]
  }

  /** What follows the delimiter: CRLF before another part, "--" after the
      last one. */
  function Closing(final: bool): (r: seq<byte>)
    ensures |r| == 2 && r[0] == (if final then DASH else CR) && r[1] == (if final then DASH else LF)
  {
    if final then [DASH, DASH] else [CR, LF]
  }

  /** At position m the data holds CRLF, or "--" when `final`. */
  predicate ClosingAt(data: seq<byte>, m: nat, final: bool)
  {
    m + 1 < |data| && data[m] == (if final then DASH else CR) && data[m + 1] == (if final then DASH else LF)
  }

  /** The delimiter from its j-th byte on, peeled by one byte. */
  lemma {:induction false} DelimiterAtNext(b: seq<byte>, data: seq<byte>, index: nat, j: nat, end: nat)
    requires DelimiterAt(b, data, index, j, end) && j < |b|
    ensures index < |data| && data[index] == b[j] && DelimiterAt(b, data, index + 1, j + 1, end)
  {
    assert data[index] == b[j + (index - index)];
    forall k | index + 1 <= k < end
      ensures data[k] == b[(j + 1) + (k - (index + 1))]
    {
      assert data[k] == b[j + (k - index)];
    }
  }

  /** The rest of the delimiter, from cursor position j >= 1 on, moves the
      cursor to its end and keeps where the delimiter started. */
  lemma {:induction false} DelimiterRun(base: PState, b: seq<byte>, data: seq<byte>, index: nat, j: nat, end: nat)
    requires WF(base, b) && base.state == 2 && 1 <= j && (0 < index || base.pindex == 0)
    requires DelimiterAt(b, data, index, j, end)
    ensures WriteFrom(base.(bindex := j), b, data, index) == WriteFrom(base.(bindex := |b|), b, data, end)
    decreases |b| - j
  {
    if j < |b| {
      DelimiterAtNext(b, data, index, j, end);
      MatchStep(base, b, data, index, j);
      DelimiterRun(base, b, data, index + 1, j + 1, end);
      assert WriteFrom(base.(bindex := j), b, data, index) == WriteFrom(base.(bindex := |b|), b, data, end);
    } else {
      assert index == end && base.(bindex := j) == base.(bindex := |b|);
      assert WriteFrom(base.(bindex := j), b, data, index) == WriteFrom(base.(bindex := |b|), b, data, end);
    }
  }

  /** The state once a field's payload has been ended by a delimiter that
      started at `sindex`: the field holds one more chunk and is closed. */
  function EndedField(s: PState, b: seq<byte>, payload: seq<byte>, sindex: nat, next: int): (r: PState)
    requires WF(s, b) && s.field.Some? && (next == 1 || next == 4)
    ensures WF(r, b)
    ensures r.state == next && r.field == None && r.events == s.events && |r.fields| == |s.fields|
    ensures r.fields[s.field.value].chunks == s.fields[s.field.value].chunks + [payload]
    ensures r.fields[s.field.value].ended
  {
    EndPartData(s.(sindex := sindex), b, payload, next).0
  }

  /** Where the payload, the delimiter and its last two bytes sit. */
  lemma {:induction false} DataLayout(b: seq<byte>, payload: seq<byte>, final: bool, data: seq<byte>)
    requires |b| >= 1
    requires |payload| + |b| + 2 <= |data| && data[..|payload| + |b| + 2] == payload + b + Closing(final)
    ensures data[..|payload|] == payload && data[|payload|] == b[0]
    ensures DelimiterAt(b, data, |payload| + 1, 1, |payload| + |b|)
    ensures ClosingAt(data, |payload| + |b|, final)
  {
    var n := |payload|;
    var e := n + |b| + 2;
    forall k | 0 <= k < e ensures data[k] == (payload + b + Closing(final))[k] {
      assert data[k] == data[..e][k];
    }
  }

  /** The first byte of a chunk, a payload byte, only resets `pindex`. */
  lemma {:induction false} FirstPayloadByte(s: PState, b: seq<byte>, data: seq<byte>)
    requires WF(s, b) && s.state == 2 && s.bindex == 0 && 1 < |data| && data[0] != b[0]
    ensures WriteFrom(s, b, data, 0) == WriteFrom(s.(pindex := 0), b, data, 1)
  {
    assert GetData(s, b, data, 0).0 == s.(pindex := 0) by {
      var r := GetData(s, b, data, 0);
      assert r.0.pindex == 0 && r.0.bindex == s.bindex && r.0.sindex == s.sindex;
    }
    DataStep(s, b, data, 0, s.(pindex := 0));
  }

  /** The CR that opens the delimiter records where it starts (the first
      byte of a chunk also resets `pindex`). */
  lemma {:induction false} DelimiterStart(s: PState, b: seq<byte>, data: seq<byte>, n: nat)
    requires WF(s, b) && s.state == 2 && s.bindex == 0 && (s.pindex == 0 || n == 0)
    requires n < |data| && data[n] == b[0]
    ensures WriteFrom(s, b, data, n) == WriteFrom(s.(pindex := 0, sindex := n, bindex := 1), b, data, n + 1)
  {
    assert GetData(s, b, data, n).0 == s.(pindex := 0, sindex := n, bindex := 1) by {
      var r := GetData(s, b, data, n);
      assert r.0.pindex == 0 && r.0.bindex == 1 && r.0.sindex == n;
    }
    DataStep(s, b, data, n, s.(pindex := 0, sindex := n, bindex := 1));
  }

  /** After a whole delimiter, CRLF or "--" ends the open field with the
      bytes from `pindex` up to where the delimiter started. */
  lemma {:induction false} DelimiterEnd(base: PState, b: seq<byte>, data: seq<byte>, payload: seq<byte>, n: nat, m: nat, e: nat, final: bool)
    requires WF(base, b) && base.state == 2 && base.field.Some? && base.pindex == 0 && base.sindex == n
    requires 0 < m && e == m + 2 && n <= |data| && data[..n] == payload && ClosingAt(data, m, final)
    ensures WriteFrom(base.(bindex := |b|), b, data, m)
            == WriteFrom(EndedField(base, b, payload, n, if final then 4 else 1), b, data, e)
  {
    var s := base.(bindex := |b|);
    var s1 := base.(prev := if final then DASH else CR, bindex := |b| + 1);
    assert GetData(s, b, data, m).0 == s1 by {
      var r := GetData(s, b, data, m);
      assert r.0.prev == (if final then DASH else CR) && r.0.bindex == |b| + 1 && r.0.pindex == s.pindex;
    }
    DataStep(s, b, data, m, s1);
    var next := if final then 4 else 1;
    assert Slice(data, 0, n) == payload;
    assert base.(sindex := n) == base;
    assert EndPartData(s1, b, payload, next) == (EndedField(base, b, payload, n, next), false);
    DataStep(s1, b, data, m + 1, EndedField(base, b, payload, n, next));
  }

  /** The payload and the CR that starts the delimiter. */
  lemma {:induction false} DataPrefix(s: PState, b: seq<byte>, data: seq<byte>, payload: seq<byte>)
    requires WF(s, b) && s.state == 2 && s.bindex == 0
    requires |payload| + 1 < |data| && data[|payload|] == b[0] && forall k :: 0 <= k < |payload| ==> data[k] != CR
    ensures WriteFrom(s, b, data, 0)
            == WriteFrom(s.(pindex := 0, sindex := |payload|).(bindex := 1), b, data, |payload| + 1)
  {
    var n := |payload|;
    var s0 := s.(pindex := 0);
    if n > 0 {
      FirstPayloadByte(s, b, data);
      PayloadRun(s0, b, data, 1, n);
      DelimiterStart(s0, b, data, n);
      assert s0.(pindex := 0, sindex := n, bindex := 1) == s.(pindex := 0, sindex := n).(bindex := 1);
    } else {
      DelimiterStart(s, b, data, n);
      assert s.(pindex := 0, sindex := n, bindex := 1) == s.(pindex := 0, sindex := n).(bindex := 1);
    }
  }

  /** The delimiter after its CR, and CRLF or "--". */
  lemma {:induction false} DelimiterTail(s: PState, b: seq<byte>, data: seq<byte>, payload: seq<byte>, final: bool)
    requires WF(s, b) && s.state == 2 && s.field.Some? && s.pindex == 0 && s.sindex == |payload|
    requires |payload| <= |data| && data[..|payload|] == payload
    requires DelimiterAt(b, data, |payload| + 1, 1, |payload| + |b|) && ClosingAt(data, |payload| + |b|, final)
    ensures WriteFrom(s.(bindex := 1), b, data, |payload| + 1)
            == WriteFrom(EndedField(s, b, payload, |payload|, if final then 4 else 1), b, data, |payload| + |b| + 2)
  {
    DelimiterEnd(s, b, data, payload, |payload|, |payload| + |b|, |payload| + |b| + 2, final);
    DelimiterRun(s, b, data, |payload| + 1, 1, |payload| + |b|);
  }

  /** Ending a field does not depend on where the cursor was. */
  lemma EndedFieldCursor(s: PState, b: seq<byte>, payload: seq<byte>, next: int)
    requires WF(s, b) && s.field.Some? && (next == 1 || next == 4)
    ensures EndedField(s.(pindex := 0, sindex := |payload|), b, payload, |payload|, next)
            == EndedField(s, b, payload, |payload|, next)
  {
  }

  /** The payload, the delimiter and its last two bytes. */
  lemma {:induction false} DataChain(s: PState, b: seq<byte>, data: seq<byte>, payload: seq<byte>, final: bool)
    requires WF(s, b) && s.state == 2 && s.bindex == 0 && s.field.Some?
    requires |payload| < |data| && data[..|payload|] == payload && data[|payload|] == b[0]
    requires forall k :: 0 <= k < |payload| ==> data[k] != CR
    requires DelimiterAt(b, data, |payload| + 1, 1, |payload| + |b|) && ClosingAt(data, |payload| + |b|, final)
    ensures WriteFrom(s, b, data, 0)
            == WriteFrom(EndedField(s, b, payload, |payload|, if final then 4 else 1), b, data, |payload| + |b| + 2)
  {
    DataPrefix(s, b, data, payload);
    DelimiterTail(s.(pindex := 0, sindex := |payload|), b, data, payload, final);
    EndedFieldCursor(s, b, payload, if final then 4 else 1);
  }

  /** A chunk that starts with a CR-free payload followed by the delimiter
      and CRLF (or "--") ends the open field with exactly that payload as
      its last chunk, and the parser goes on reading headers (or is done). */
  lemma {:induction false} DataRoundTrip(s: PState, b: seq<byte>, payload: seq<byte>, final: bool, data: seq<byte>)
    requires WF(s, b) && s.state == 2 && s.bindex == 0 && s.field.Some?
    requires forall k :: 0 <= k < |payload| ==> payload[k] != CR
    requires |payload| + |b| + 2 <= |data| && data[..|payload| + |b| + 2] == payload + b + Closing(final)
    ensures WriteFrom(s, b, data, 0)
            == WriteFrom(EndedField(s, b, payload, |payload|, if final then 4 else 1), b, data, |payload| + |b| + 2)
  {
    DataLayout(b, payload, final, data);
    PrefixNoCR(data, payload);
    DataChain(s, b, data, payload, final);
  }

  /** When the chunk holds nothing more, that is all `write` does with it. */
  lemma {:induction false} DataChunkEnds(s: PState, b: seq<byte>, payload: seq<byte>, final: bool, data: seq<byte>)
    requires WF(s, b) && s.state == 2 && s.bindex == 0 && s.field.Some?
    requires forall k :: 0 <= k < |payload| ==> payload[k] != CR
    requires |payload| + |b| + 2 == |data| && data == payload + b + Closing(final)
    ensures WriteFrom(s, b, data, 0) == (EndedField(s, b, payload, |payload|, if final then 4 else 1), false)
  {
    assert data[..|payload| + |b| + 2] == data;
    DataRoundTrip(s, b, payload, final, data);
    ChunkEnd(EndedField(s, b, payload, |payload|, if final then 4 else 1), b, data, |payload| + |b| + 2);
  }

  /** A CR-free payload at the start of the chunk leaves no CR there. */
  lemma PrefixNoCR(data: seq<byte>, payload: seq<byte>)
    requires |payload| <= |data| && data[..|payload|] == payload
    requires forall k :: 0 <= k < |payload| ==> payload[k] != CR
    ensures forall k :: 0 <= k < |payload| ==> data[k] != CR
  {
    forall k | 0 <= k < |payload| ensures data[k] != CR {
      assert data[k] == data[..|payload|][k];
    }
  }

  // A delimiter split across two chunks
  // ---------------------------------------------------------------------

  /** The delimiter of boundary "B", and a payload "x" that ends the part. */
  const SplitBoundary: seq<byte> := [CR, LF, DASH, DASH, 0x42]
  const SplitData: seq<byte> := [0x78, CR, LF, DASH, DASH, 0x42, CR, LF]

  /** The first half, "x" and the CR that opens the delimiter, emits nothing:
      its last byte starts a match, so the chunk's payload is not flushed. */
  lemma {:induction false} SplitFirstHalf(s: PState)
    requires WF(s, SplitBoundary) && s.state == 2 && s.bindex == 0
    ensures WriteFrom(s, SplitBoundary, SplitData[..2], 0) == (s.(pindex := 0, sindex := 1, bindex := 1), false)
  {
    var b := SplitBoundary;
    var c1 := SplitData[..2];
    assert c1 == [0x78, CR];
    FirstPayloadByte(s, b, c1);
    DelimiterStart(s.(pindex := 0), b, c1, 1);
    assert s.(pindex := 0).(pindex := 0, sindex := 1, bindex := 1) == s.(pindex := 0, sindex := 1, bindex := 1);
    ChunkEnd(s.(pindex := 0, sindex := 1, bindex := 1), b, c1, 2);
  }

  /** The second half finishes the delimiter, but the part is ended with the
      bytes of this chunk before the first chunk's `sindex`: one LF. */
  lemma {:induction false} SplitSecondHalf(s: PState)
    requires WF(s, SplitBoundary) && s.state == 2 && s.field.Some? && s.pindex == 0 && s.sindex == 1
    ensures WriteFrom(s.(bindex := 1), SplitBoundary, SplitData[2..], 0) == (EndedField(s, SplitBoundary, [LF], 1, 1), false)
  {
    var b := SplitBoundary;
    var c2 := SplitData[2..];
    assert c2 == [LF, DASH, DASH, 0x42, CR, LF];
    assert DelimiterAt(b, c2, 0, 1, 4);
    assert c2[..1] == [LF];
    DelimiterEnd(s, b, c2, [LF], 1, 4, 6, false);
    DelimiterRun(s, b, c2, 0, 1, 4);
    ChunkEnd(EndedField(s, b, [LF], 1, 1), b, c2, 6);
  }

  /** Written in one chunk, the bytes end the open field with the payload
      "x"; written in two chunks split after the delimiter's CR, the same
      bytes end it with a lone LF instead, and "x" is lost. */
  lemma SplitDelimiterLosesPayload(s: PState)
    requires WF(s, SplitBoundary) && s.state == 2 && s.bindex == 0 && s.field.Some?
    ensures var whole := WriteFrom(s, SplitBoundary, SplitData, 0);
            && !whole.1 && whole.0.state == 1 && |whole.0.fields| == |s.fields|
            && whole.0.fields[s.field.value].chunks == s.fields[s.field.value].chunks + [[0x78]]
    ensures var first := WriteFrom(s, SplitBoundary, SplitData[..2], 0);
            && !first.1 && first.0.fields == s.fields
            && var second := WriteFrom(first.0, SplitBoundary, SplitData[2..], 0);
            && !second.1 && second.0.state == 1 && |second.0.fields| == |s.fields|
            && second.0.fields[s.field.value].chunks == s.fields[s.field.value].chunks + [[LF]]
  {
    var b := SplitBoundary;
    assert SplitData == [0x78] + b + Closing(false);
    DataChunkEnds(s, b, [0x78], false, SplitData);
    SplitFirstHalf(s);
    var base := s.(pindex := 0, sindex := 1);
    assert base.(bindex := 1) == s.(pindex := 0, sindex := 1, bindex := 1);
    SplitSecondHalf(base);
  }

  // A partial match that a byte other than CR breaks
  // ---------------------------------------------------------------------

  /** "x", CR LF, "y", then "--B" CR LF: CR LF "--B" never occurs in it. */
  const StuckData: seq<byte> := [0x78, CR, LF, 0x79, DASH, DASH, 0x42, CR, LF]

  /** The delimiter occurs nowhere in `StuckData`. */
  lemma StuckDataHasNoDelimiter()
    ensures forall k: nat :: !At(StuckData, k, SplitBoundary)
  {
    forall k: nat ensures !At(StuckData, k, SplitBoundary) {
      if k + |SplitBoundary| <= |StuckData| {
        var i := if k == 1 then 2 else 0;
        assert StuckData[k..k + |SplitBoundary|][i] == StuckData[k + i] != SplitBoundary[i];
      }
    }
  }

  /** The "y" inside the partial match CR LF is a payload byte, but the
      match is kept rather than restarted, and the "--B" after it completes
      the delimiter: the chunk holds no delimiter (`StuckDataHasNoDelimiter`),
      yet it ends the open field with "x" as its last chunk and goes on
      reading headers. */
  lemma {:induction false} StuckMatchEndsField(s: PState)
    requires WF(s, SplitBoundary) && s.state == 2 && s.bindex == 0 && s.field.Some?
    ensures WriteFrom(s, SplitBoundary, StuckData, 0) == (EndedField(s, SplitBoundary, [0x78], 1, 1), false)
  {
    var b := SplitBoundary;
    var d := StuckData;
    FirstPayloadByte(s, b, d);
    var s0 := s.(pindex := 0);
    DelimiterStart(s0, b, d, 1);
    var base := s.(pindex := 0, sindex := 1);
    assert s0.(pindex := 0, sindex := 1, bindex := 1) == base.(bindex := 1);
    MatchStep(base, b, d, 2, 1);
    StuckStep(base, b, d, 3, 2);
    StuckTail(base, b, d);
    assert EndedField(base, b, [0x78], 1, 1) == EndedField(s, b, [0x78], 1, 1);
  }

  /** The rest of `StuckData` after the "y": the delimiter completes and
      CR LF ends the field with "x". */
  lemma {:induction false} StuckTail(base: PState, b: seq<byte>, d: seq<byte>)
    requires b == SplitBoundary && d == StuckData
    requires WF(base, b) && base.state == 2 && base.field.Some? && base.pindex == 0 && base.sindex == 1
    ensures WriteFrom(base.(bindex := 2), b, d, 4) == (EndedField(base, b, [0x78], 1, 1), false)
  {
    assert DelimiterAt(b, d, 4, 2, 7);
    DelimiterRun(base, b, d, 4, 2, 7);
    assert d[..1] == [0x78];
    DelimiterEnd(base, b, d, [0x78], 1, 7, 9, false);
    ChunkEnd(EndedField(base, b, [0x78], 1, 1), b, d, 9);
  }

  /** A byte that is neither the next byte of the delimiter nor a CR leaves
      a partial match as it is. */
  lemma {:induction false} StuckStep(base: PState, b: seq<byte>, data: seq<byte>, index: nat, j: nat)
    requires WF(base, b) && base.state == 2 && 0 < j < |b| && 0 < index < |data| - 1
    requires data[index] != b[j] && data[index] != CR
    ensures WriteFrom(base.(bindex := j), b, data, index) == WriteFrom(base.(bindex := j), b, data, index + 1)
  {
    DataStep(base.(bindex := j), b, data, index, base.(bindex := j));
  }

  /** Nothing is left to read at the end of the chunk. */
  lemma {:induction false} ChunkEnd(s: PState, b: seq<byte>, data: seq<byte>, index: nat)
    requires WF(s, b) && index >= |data|
    ensures WriteFrom(s, b, data, index) == (s, false)
  {
  }
}
