/** The WebSocket frame decoder of utils/ws.js (`wsParse`, `wsUnmasking`,
    `wsMessageParse`) as functions over a snapshot of the `frame` object, and
    the header checks of its request listener. The framing is the base
    framing of section 5.2 of RFC 6455 and the masking of section 5.3. */
module WebSocketSpec {
  import opened Js

  /** The most bytes one unmasking step takes while the payload is still
      incomplete (a multiple of 4, so the mask stays aligned). */
  const UnmaskChunk: nat := 16384

  /** Why the decoder wrote the close frame [0x88, 0x00] to the socket. All but
      CloseReceived also destroy the socket once it is written. */
  datatype Violation =
    | Extensions      // a reserved bit is set
    | UnknownOpcode   // (opcode & 7) > 2
    | InvalidControl  // a control frame longer than 125 or not final
    | Unmasked        // the mask bit is clear
    | CloseReceived   // opcode 8
    | PingReceived    // opcode 9
    | LongLength      // a 64-bit length above 32 bits
    | TooBig          // the message would exceed the limit

  /** What the decoder does to the outside world, in order. */
  datatype Action =
    | Close(reason: Violation)
    | Deliver(payload: seq<byte>, text: bool)   // the `message` event, raw or binary
    | Dispatch(payload: seq<byte>)              // a structured (JSON) message

  /** A call queued with `setImmediate`. */
  datatype Continuation = UnmaskNext | ParseNext

  /** The members of `frame`, with the actions taken and the queued calls. */
  datatype FState = FState(data: seq<byte>, index: nat, mask: seq<byte>, length: nat, message: seq<byte>,
                           state: int, fin: bool, opcode: nat, actions: seq<Action>,
                           scheduled: seq<Continuation>)

  /** The frame object as the handshake creates it. */
  function Initial(): (s: FState)
    ensures Valid(s) && s.state == 0 && s.data == [] && s.message == [] && s.actions == [] && s.scheduled == []
  {
    FState([], 0, [], 0, [], 0, false, 0, [], [])
  }

  /** Invariant: a known state, a 4-byte mask once any frame reached the
      payload (and whenever an unmasking step is pending), a 4-bit opcode. */
  predicate Valid(s: FState)
  {
    && -1 <= s.state <= 4
    && (|s.mask| == 0 || |s.mask| == 4)
    && (s.state == 4 ==> |s.mask| == 4)
    && (UnmaskNext in s.scheduled ==> |s.mask| == 4)
    && s.opcode < 16
  }

  /** `readUIntBE` over the given bytes. */
  function BigEndian(bs: seq<byte>): (n: nat)
    ensures |bs| == 0 ==> n == 0
  {
    if bs == [] then 0 else BigEndian(bs[..|bs| - 1]) * 256 + bs[|bs| - 1] as nat
  }

  /** Payload bytes XORed with the masking key, byte j with key byte j mod 4
      (section 5.3 of RFC 6455). */
  function Masked(p: seq<byte>, mask: seq<byte>): (r: seq<byte>)
    requires |mask| == 4
    ensures |r| == |p|
    ensures forall j :: 0 <= j < |p| ==> r[j] == Xor(p[j], mask[j % 4])
  {
    seq(|p|, j requires 0 <= j < |p| => Xor(p[j], mask[j % 4]))
  }

  /** How many buffered bytes one unmasking step takes: the rest of the
      payload if it is all buffered, else 16384 if more than that is buffered,
      else nothing. */
  function UnmaskSize(buffered: nat, length: nat): (size: nat)
    ensures size <= length && size <= buffered
    ensures size == 0 <==> length == 0 || (buffered < length && buffered <= UnmaskChunk)
    ensures size != length ==> size == 0 || size == UnmaskChunk
  {
    if buffered >= length then length else if buffered > UnmaskChunk then UnmaskChunk else 0
  }

  /** `wsMessageParse`: the whole message goes out (raw mode or a binary
      frame as a `message` event typed text exactly for opcode 1, otherwise as
      a structured message), the message and state are reset, and parsing is
      queued again when two or more bytes are left. */
  function MessageParse(s: FState, rawMode: bool): (r: FState)
    requires Valid(s)
    ensures Valid(r) && r.state == 0 && r.message == [] && r.data == s.data
    ensures |r.actions| == |s.actions| + 1 && r.actions[..|s.actions|] == s.actions
    ensures s.opcode == 2 || rawMode ==> r.actions[|s.actions|] == Deliver(s.message, s.opcode == 1)
    ensures !(s.opcode == 2 || rawMode) ==> r.actions[|s.actions|] == Dispatch(s.message)
    ensures r.scheduled == s.scheduled + (if |s.data| >= 2 then [ParseNext] else [])
  {
    var event := if s.opcode == 2 || rawMode then Deliver(s.message, s.opcode == 1) else Dispatch(s.message);
    var s1 := s.(actions := s.actions + [event], message := [], state := 0);
    if |s1.data| >= 2 then s1.(scheduled := s1.scheduled + [ParseNext]) else s1
  }

  /** `wsUnmasking`: one step over the buffered payload. */
  function Unmasking(s: FState, rawMode: bool): (r: FState)
    requires Valid(s) && |s.mask| == 4
    ensures Valid(r) && |r.mask| == 4
    ensures var size := UnmaskSize(|s.data|, s.length);
            && (size == 0 ==> r == s)
            && (size > 0 ==> r.data == s.data[size..])
            && (size > 0 && !(s.fin && size == s.length) ==>
                  && r.message == s.message + Masked(s.data[..size], s.mask)
                  && r.length == s.length - size && r.state == s.state && r.actions == s.actions
                  && r.scheduled == s.scheduled + [UnmaskNext])
    ensures |r.data| + |r.scheduled| <= |s.data| + |s.scheduled|
  {
    var size := UnmaskSize(|s.data|, s.length);
    if size == 0 then s
    else
      var s1 := s.(message := s.message + Masked(s.data[..size], s.mask), data := s.data[size..],
                   length := s.length - size);
      if s1.fin && s1.length == 0 then MessageParse(s1, rawMode)
      else s1.(scheduled := s1.scheduled + [UnmaskNext])
  }

  /** The closes the checks on the first two bytes of a frame request, in
      the order of the checks. */
  function HeaderCloses(b0: nat, b1: nat): (closes: seq<Action>)
  {
    var fin := b0 >= 128;
    var opcode := b0 % 16;
    var length := b1 % 128;
    (if (b0 / 16) % 8 != 0 then [Close(Extensions)] else [])
    + (if opcode % 8 > 2 then [Close(UnknownOpcode)] else [])
    + (if opcode > 7 && (length > 125 || !fin) then [Close(InvalidControl)] else [])
    + (if b1 < 128 then [Close(Unmasked)] else [])
  }

  /** The first two bytes of a frame (utils/ws.js:102-145): FIN, opcode and
      7-bit length, a close for each violated rule, and the state the length
      selects (which overwrites the state those rules set). */
  function ReadHeader(s: FState): (r: FState)
    requires Valid(s) && |s.data| >= 2
    ensures Valid(r)
    ensures r.fin == (s.data[0] >= 128) && r.opcode == s.data[0] as nat % 16 && r.length == s.data[1] as nat % 128
    ensures r.actions == s.actions + HeaderCloses(s.data[0] as nat, s.data[1] as nat)
    ensures r.state == (if r.length == 126 then 1 else if r.length == 127 then 2 else 3)
    ensures r.data == s.data && r.index == s.index && r.message == s.message && r.mask == s.mask
    ensures r.scheduled == s.scheduled
  {
    var b0 := s.data[0] as nat;
    var b1 := s.data[1] as nat;
    var length := b1 % 128;
    s.(fin := b0 >= 128, opcode := b0 % 16, length := length, actions := s.actions + HeaderCloses(b0, b1),
       state := if length == 126 then 1 else if length == 127 then 2 else 3)
  }

  /** The opcode dispatch after the header (utils/ws.js:147-160): a close
      frame or a ping answers with a close and fails, a pong drops its six
      header bytes and its payload, anything else moves the cursor past the
      two header bytes. */
  function ControlOpcode(s: FState): (r: FState)
    requires Valid(s)
    ensures Valid(r)
    ensures r.fin == s.fin && r.opcode == s.opcode && r.length == s.length
    ensures r.message == s.message && r.mask == s.mask && r.scheduled == s.scheduled
    ensures s.opcode == 8 ==> r == s.(actions := s.actions + [Close(CloseReceived)], state := -1)
    ensures s.opcode == 9 ==> r == s.(actions := s.actions + [Close(PingReceived)], state := -1)
    ensures s.opcode == 10 ==> r.state == 0 && r.data == SliceFrom(s.data, 6 + s.length) && r.actions == s.actions
    ensures s.opcode !in {8, 9, 10} ==> r == s.(index := 2)
  {
    if s.opcode == 8 then s.(actions := s.actions + [Close(CloseReceived)], state := -1)
    else if s.opcode == 9 then s.(actions := s.actions + [Close(PingReceived)], state := -1)
    else if s.opcode == 10 then s.(data := SliceFrom(s.data, 6 + s.length), state := 0)
    else s.(index := 2)
  }

  /** `wsParse` in state 0 with at least two bytes buffered. */
  function ParseHeader(s: FState): (r: FState)
    requires Valid(s) && s.state == 0 && |s.data| >= 2
    ensures Valid(r)
  {
    ControlOpcode(ReadHeader(s))
  }

  /** The extended payload lengths (utils/ws.js:163-180): 16 bits from bytes
      2-3, or 32 bits from bytes 6-9 with a close when bytes 2-5 are not zero
      (the state stays 3 all the same). */
  function ParseLength(s: FState): (r: FState)
    requires Valid(s)
    ensures Valid(r) && r.data == s.data && r.message == s.message && r.scheduled == s.scheduled
    ensures s.state == 1 && |s.data| >= 4 ==> r.state == 3 && r.length == BigEndian(s.data[2..4]) && r.index == s.index + 2
    ensures s.state == 2 && |s.data| >= 10 ==> r.state == 3 && r.length == BigEndian(s.data[6..10]) && r.index == s.index + 8
    ensures s.state == 2 && |s.data| >= 10 ==>
              r.actions == s.actions + (if BigEndian(s.data[2..6]) != 0 then [Close(LongLength)] else [])
    ensures !(s.state == 1 && |s.data| >= 4) && !(s.state == 2 && |s.data| >= 10) ==> r == s
  {
    if s.state == 1 && |s.data| >= 4 then
      s.(length := BigEndian(s.data[2..4]), index := s.index + 2, state := 3)
    else if s.state == 2 && |s.data| >= 10 then
      var actions := if BigEndian(s.data[2..6]) != 0 then s.actions + [Close(LongLength)] else s.actions;
      s.(actions := actions, length := BigEndian(s.data[6..10]), index := s.index + 8, state := 3)
    else s
  }

  /** The masking key (utils/ws.js:183-196): with four bytes after `index`,
      a message that would pass the limit closes the connection; otherwise
      the key is taken and the header dropped. */
  function ParseMask(s: FState, limit: nat): (r: FState)
    requires Valid(s)
    ensures Valid(r) && r.message == s.message && r.scheduled == s.scheduled
    ensures |r.data| <= |s.data|
    ensures r.state == 4 && s.state != 4 ==>
              && s.state == 3 && s.length + |s.message| <= limit && s.index + 4 <= |s.data|
              && r.mask == s.data[s.index..s.index + 4] && r.data == s.data[s.index + 4..] && r.index == 0
              && r.length == s.length && r.actions == s.actions
    ensures s.state == 3 && |s.data| - s.index >= 4 && s.length + |s.message| <= limit ==> r.state == 4
    ensures s.state == 3 && |s.data| - s.index >= 4 && s.length + |s.message| > limit ==>
              r.state == -1 && r.actions == s.actions + [Close(TooBig)]
    // short of four bytes after the header, or in another state, nothing changes
    ensures !(s.state == 3 && |s.data| - s.index >= 4) ==> r == s
  {
    if s.state == 3 && |s.data| - s.index >= 4 then
      if s.length + |s.message| > limit then s.(actions := s.actions + [Close(TooBig)], state := -1)
      else s.(mask := s.data[s.index..s.index + 4], data := s.data[s.index + 4..], index := 0, state := 4)
    else s
  }

  /** `wsParse(connection, frame, chunk)`: the chunk is appended, then the
      header, the extended length, the key and the payload are taken in turn
      as far as the buffered bytes allow. */
  function Parse(s: FState, chunk: seq<byte>, limit: nat, rawMode: bool): (r: FState)
    requires Valid(s)
    ensures Valid(r)
    ensures |r.data| + |r.scheduled| <= |s.data| + |chunk| + |s.scheduled|
  {
    var s0 := s.(data := s.data + chunk);
    var s1 := if s0.state == 0 && |s0.data| >= 2 then ParseHeader(s0) else s0;
    var s2 := ParseLength(s1);
    var s3 := ParseMask(s2, limit);
    if s3.state == 4 then Unmasking(s3, rawMode) else s3
  }

  /** One queued call. */
  function RunContinuation(s: FState, c: Continuation, limit: nat, rawMode: bool): (r: FState)
    requires Valid(s) && (c == UnmaskNext ==> |s.mask| == 4)
    ensures Valid(r)
    ensures |r.data| + |r.scheduled| <= |s.data| + |s.scheduled|
  {
    match c
    case UnmaskNext => Unmasking(s, rawMode)
    case ParseNext => Parse(s, [], limit, rawMode)
  }

  /** The queued calls run in order until none is left. */
  function Drain(s: FState, limit: nat, rawMode: bool): (r: FState)
    requires Valid(s)
    ensures Valid(r) && r.scheduled == []
    decreases |s.data| + |s.scheduled|
  {
    if s.scheduled == [] then s
    else
      var c := s.scheduled[0];
      Drain(RunContinuation(s.(scheduled := s.scheduled[1..]), c, limit, rawMode), limit, rawMode)
  }

  /** A readable event with the given chunk, and every call it queues. */
  function Receive(s: FState, chunk: seq<byte>, limit: nat, rawMode: bool): (r: FState)
    requires Valid(s)
    ensures Valid(r) && r.scheduled == []
  {
    Drain(Parse(s, chunk, limit, rawMode), limit, rawMode)
  }

  // ---------------------------------------------------------------------
  // The upgrade request checks
  // ---------------------------------------------------------------------

  const NoHostMessage := "\nsimpleS: Request to an inexistent WebSocket host\n"
  const UpgradeMessage := "\nsimpleS: Unsupported WebSocket upgrade header\n"
  const NoKeyMessage := "\nsimpleS: No WebSocket handshake key\n"
  const VersionMessage := "\nsimpleS: Unsupported WebSocket version\n"
  const OriginMessage := "\nsimpleS: WebSocket origin not accepted\n"

  /** The headers of an upgrade request the listener looks at (absent headers
      are None), whether a WebSocket host serves its path, and whether the
      host accepts its origin. */
  datatype Upgrade = Upgrade(hostFound: bool, upgrade: Option<string>, key: Option<string>,
                             version: Option<string>, origin: Option<string>, originAccepted: bool)

  /** The error the listener logs before destroying the socket, or "" when the
      handshake goes ahead. Every check runs; the last failing one wins. */
  function HandshakeError(u: Upgrade): (error: string)
  {
    if !u.hostFound then NoHostMessage
    else
      var e1 := if u.upgrade != Some("websocket") then UpgradeMessage else "";
      var e2 := if u.key.None? || u.key == Some("") then NoKeyMessage else e1;
      var e3 := if u.version != Some("13") then VersionMessage else e2;
      if u.origin.Some? && u.origin != Some("") && !u.originAccepted then OriginMessage else e3
  }
}
