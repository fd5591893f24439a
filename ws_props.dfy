/** What the WebSocket frame decoder of utils/ws.js guarantees, proved on the
    functions of module WebSocketSpec. */
module WebSocketProperties {
  import opened Js
  import opened WebSocketSpec

  // ---------------------------------------------------------------------
  // Masking
  // ---------------------------------------------------------------------

  /** Unmasking what was masked with the same key gives the payload back. */
  lemma MaskedInvolutive(p: seq<byte>, mask: seq<byte>)
    requires |mask| == 4
    ensures Masked(Masked(p, mask), mask) == p
  {
    forall j | 0 <= j < |p|
      ensures Masked(Masked(p, mask), mask)[j] == p[j]
    {
      XorInvolutive(p[j], mask[j % 4]);
    }
  }

  /** Masking in two pieces, the first a multiple of 4 long, is masking the
      whole: the key stays aligned across the pieces. */
  lemma MaskedAppend(a: seq<byte>, b: seq<byte>, mask: seq<byte>)
    requires |mask| == 4 && |a| % 4 == 0
    ensures Masked(a + b, mask) == Masked(a, mask) + Masked(b, mask)
  {
    var l := Masked(a + b, mask);
    var r := Masked(a, mask) + Masked(b, mask);
    forall j | 0 <= j < |l|
      ensures l[j] == r[j]
    {
      if j >= |a| {
        ModShift(j, |a|);
        assert (a + b)[j] == b[j - |a|];
      } else {
        assert (a + b)[j] == a[j];
      }
    }
  }

  lemma ModShift(j: int, a: int)
    requires a % 4 == 0 && a <= j
    ensures (j - a) % 4 == j % 4
  {
  }

  /** A payload that is being unmasked, seen from the bytes on the wire: `wire`
      is the masked payload of the current frame, the first `done` bytes of it
      have been unmasked onto `before`, and the buffer continues the wire
      bytes from there. `done` is a multiple of 4 unless nothing is left. */
  predicate UnmaskingProgress(s: FState, wire: seq<byte>, done: nat, before: seq<byte>)
  {
    && s.state == 4 && |s.mask| == 4
    && done + s.length == |wire|
    && (done % 4 == 0 || s.length == 0)
    && s.message == before + Masked(wire[..done], s.mask)
    && forall k :: 0 <= k < |s.data| && done + k < |wire| ==> s.data[k] == wire[done + k]
  }

  /** One unmasking step keeps the progress invariant (so byte j of the
      payload is always XORed with key byte j mod 4), and when the final
      frame's payload is complete the message handed out is all of it. */
  lemma UnmaskingKeepsAlignment(s: FState, rawMode: bool, wire: seq<byte>, done: nat, before: seq<byte>)
    requires Valid(s) && UnmaskingProgress(s, wire, done, before)
    ensures var r := Unmasking(s, rawMode);
            var size := UnmaskSize(|s.data|, s.length);
            r.state == 4 ==> UnmaskingProgress(r, wire, done + size, before)
    ensures var r := Unmasking(s, rawMode);
            r.state != 4 ==>
              && s.fin && r.state == 0 && r.message == []
              && r.actions == s.actions + [if s.opcode == 2 || rawMode
                                           then Deliver(before + Masked(wire, s.mask), s.opcode == 1)
                                           else Dispatch(before + Masked(wire, s.mask))]
  {
    var size := UnmaskSize(|s.data|, s.length);
    if size > 0 {
      BufferedWire(s, wire, done, before, size);
      UnmaskedPrefix(s.message, before, wire, done, s.data[..size], s.mask);
      if s.fin && size == s.length {
        UnmaskingDelivers(s, rawMode, wire, done, before, size);
      } else {
        UnmaskingContinues(s, rawMode, wire, done, before, size);
      }
    }
  }

  lemma UnmaskingDelivers(s: FState, rawMode: bool, wire: seq<byte>, done: nat, before: seq<byte>, size: nat)
    requires Valid(s) && UnmaskingProgress(s, wire, done, before)
    requires size == UnmaskSize(|s.data|, s.length) && s.fin && 0 < size == s.length
    requires s.message + Masked(s.data[..size], s.mask) == before + Masked(wire[..done + size], s.mask)
    ensures var r := Unmasking(s, rawMode);
            && r.state == 0 && r.message == []
            && r.actions == s.actions + [if s.opcode == 2 || rawMode
                                         then Deliver(before + Masked(wire, s.mask), s.opcode == 1)
                                         else Dispatch(before + Masked(wire, s.mask))]
  {
    var message := s.message + Masked(s.data[..size], s.mask);
    var s1 := s.(message := message, data := s.data[size..], length := s.length - size);
    assert wire[..done + size] == wire;
    assert Unmasking(s, rawMode) == MessageParse(s1, rawMode);
  }

  lemma UnmaskingContinues(s: FState, rawMode: bool, wire: seq<byte>, done: nat, before: seq<byte>, size: nat)
    requires Valid(s) && UnmaskingProgress(s, wire, done, before)
    requires size == UnmaskSize(|s.data|, s.length) && size > 0 && !(s.fin && size == s.length)
    requires s.message + Masked(s.data[..size], s.mask) == before + Masked(wire[..done + size], s.mask)
    ensures UnmaskingProgress(Unmasking(s, rawMode), wire, done + size, before)
  {
    RestFollowsWire(s.data, wire, done, size);
  }

  /** The message after a step is the unmasked wire up to the new position. */
  lemma UnmaskedPrefix(message: seq<byte>, before: seq<byte>, wire: seq<byte>, done: nat, chunk: seq<byte>, mask: seq<byte>)
    requires |mask| == 4 && done % 4 == 0 && done + |chunk| <= |wire| && chunk == wire[done..done + |chunk|]
    requires message == before + Masked(wire[..done], mask)
    ensures message + Masked(chunk, mask) == before + Masked(wire[..done + |chunk|], mask)
  {
    assert wire[..done + |chunk|] == wire[..done] + chunk;
    MaskedAppend(wire[..done], chunk, mask);
    AppendAssoc(before, Masked(wire[..done], mask), Masked(chunk, mask));
  }

  lemma AppendAssoc<T>(a: seq<T>, b: seq<T>, c: seq<T>)
    ensures (a + b) + c == a + (b + c)
  {
  }

  /** The next `size` buffered bytes are the wire bytes from `done` on. */
  lemma BufferedWire(s: FState, wire: seq<byte>, done: nat, before: seq<byte>, size: nat)
    requires UnmaskingProgress(s, wire, done, before)
    requires size <= s.length && size <= |s.data|
    ensures s.data[..size] == wire[done..done + size]
  {
    forall k | 0 <= k < size
      ensures s.data[..size][k] == wire[done..done + size][k]
    {
      assert s.data[k] == wire[done + k];
    }
  }

  lemma RestFollowsWire(data: seq<byte>, wire: seq<byte>, done: nat, size: nat)
    requires size <= |data|
    requires forall k :: 0 <= k < |data| && done + k < |wire| ==> data[k] == wire[done + k]
    ensures forall k :: 0 <= k < |data| - size && done + size + k < |wire| ==> data[size..][k] == wire[done + size + k]
  {
    forall k | 0 <= k < |data| - size && done + size + k < |wire|
      ensures data[size..][k] == wire[done + size + k]
    {
      assert data[size..][k] == data[size + k];
    }
  }

  /** A parse call in the payload state appends the chunk and takes one
      unmasking step. */
  lemma ParseInPayload(s: FState, chunk: seq<byte>, limit: nat, rawMode: bool)
    requires Valid(s) && s.state == 4
    ensures Parse(s, chunk, limit, rawMode) == Unmasking(s.(data := s.data + chunk), rawMode)
  {
  }

  /** A frame whose remaining payload length is 0 never completes: the state
      stays 4 and every later chunk is only buffered (a zero-length frame, or
      a non-final frame after its payload). */
  lemma ZeroLengthStalls(s: FState, chunk: seq<byte>, limit: nat, rawMode: bool)
    requires Valid(s) && s.state == 4 && s.length == 0
    ensures Parse(s, chunk, limit, rawMode) == s.(data := s.data + chunk)
    ensures Unmasking(s, rawMode) == s
  {
  }

  /** After a non-final frame's payload is all unmasked the decoder is stuck in
      state 4 with length 0 and nothing delivered. */
  lemma NonFinalFrameStalls(s: FState, rawMode: bool)
    requires Valid(s) && s.state == 4 && !s.fin && 0 < s.length <= |s.data|
    ensures Unmasking(s, rawMode).state == 4 && Unmasking(s, rawMode).length == 0
    ensures Unmasking(s, rawMode).actions == s.actions
  {
  }

  /** A failed decoder only buffers. */
  lemma FailedOnlyBuffers(s: FState, chunk: seq<byte>, limit: nat, rawMode: bool)
    requires Valid(s) && s.state == -1
    ensures Parse(s, chunk, limit, rawMode) == s.(data := s.data + chunk)
  {
  }

  // ---------------------------------------------------------------------
  // The frame header
  // ---------------------------------------------------------------------

  /** Each header check adds its close exactly when its rule is broken. */
  lemma HeaderChecks(b0: byte, b1: byte)
    ensures var closes := HeaderCloses(b0 as nat, b1 as nat);
            var opcode := b0 as nat % 16;
            && (Close(Extensions) in closes <==> (b0 as nat / 16) % 8 != 0)
            && (Close(UnknownOpcode) in closes <==> opcode % 8 > 2)
            && (Close(InvalidControl) in closes <==> opcode > 7 && (b1 as nat % 128 > 125 || b0 < 128))
            && (Close(Unmasked) in closes <==> b1 < 128)
            && (closes == [] <==> (b0 as nat / 16) % 8 == 0 && opcode % 8 <= 2
                                  && !(opcode > 7 && (b1 as nat % 128 > 125 || b0 < 128)) && b1 >= 128)
  {
  }

  /** The control opcodes: a close or ping frame closes the connection and
      fails the decoder, a pong frame is dropped as 6 + length bytes. */
  lemma ControlFrames(s: FState)
    requires Valid(s) && s.state == 0 && |s.data| >= 2
    ensures var r := ParseHeader(s); var opcode := s.data[0] as nat % 16;
            && (opcode == 8 ==> r.state == -1 && r.actions[|r.actions| - 1] == Close(CloseReceived))
            && (opcode == 9 ==> r.state == -1 && r.actions[|r.actions| - 1] == Close(PingReceived))
            && (opcode == 10 ==> r.state == 0 && r.data == SliceFrom(s.data, 6 + s.data[1] as nat % 128))
            && (opcode < 8 ==> r.index == 2 && r.data == s.data && (r.state == 1 || r.state == 2 || r.state == 3))
  {
  }

  lemma BigEndian2(x: byte, y: byte)
    ensures BigEndian([x, y]) == x as nat * 256 + y as nat
  {
    assert [x, y][..1] == [x];
    assert [x][..0] == [];
  }

  lemma BigEndian4(a: byte, b: byte, c: byte, d: byte)
    ensures BigEndian([a, b, c, d]) == ((a as nat * 256 + b as nat) * 256 + c as nat) * 256 + d as nat
  {
    assert [a, b, c, d][..3] == [a, b, c];
    assert [a, b, c][..2] == [a, b];
    BigEndian2(a, b);
  }

  // ---------------------------------------------------------------------
  // Frames as a client sends them
  // ---------------------------------------------------------------------

  /** The payload length field with the mask bit set, in its shortest form:
      7 bits, or 126 and 16 bits, or 127 and 64 bits (of which the decoder
      accepts 32). */
  function LengthField(n: nat): (f: seq<byte>)
    requires n < 0x1_0000_0000
    ensures |f| == 1 || |f| == 3 || |f| == 9
    ensures f[0] as nat == 128 + (if n < 126 then n else if n < 0x1_0000 then 126 else 127)
  {
    if n < 126 then [(128 + n) as byte]
    else if n < 0x1_0000 then [254 as byte, (n / 256) as byte, (n % 256) as byte]
    else
      Decompose(n);
      [255 as byte, 0, 0, 0, 0, (n / 256 / 256 / 256) as byte, (n / 256 / 256 % 256) as byte,
       (n / 256 % 256) as byte, (n % 256) as byte]
  }

  /** A message a client sends in one final, masked frame. */
  datatype Message = Message(opcode: nat, mask: seq<byte>, payload: seq<byte>)

  /** A frame the encoder can write: a 4-bit opcode, a 4-byte key, a
      payload length below 2^32. */
  predicate Encodable(m: Message)
  {
    m.opcode < 16 && |m.mask| == 4 && |m.payload| < 0x1_0000_0000
  }

  /** A message the encoder can write. */
  type Frame = m: Message | Encodable(m) witness Message(0, [0, 0, 0, 0], [])

  /** A text or binary message with a non-empty payload within the limit. */
  predicate Sendable(m: Message, limit: nat)
  {
    Encodable(m) && (m.opcode == 1 || m.opcode == 2) && 0 < |m.payload| <= limit
  }

  function EncodeFrame(m: Message): (f: seq<byte>)
    requires Encodable(m)
    ensures |f| == 1 + |LengthField(|m.payload|)| + 4 + |m.payload|
  {
    [(128 + m.opcode) as byte] + LengthField(|m.payload|) + m.mask + Masked(m.payload, m.mask)
  }

  /** What the decoder does with a received message. */
  function Event(m: Message, rawMode: bool): Action
  {
    if m.opcode == 2 || rawMode then Deliver(m.payload, m.opcode == 1) else Dispatch(m.payload)
  }

  /** Where the parts of an encoded frame sit in the buffer. */
  lemma FrameLayout(m: Message, rest: seq<byte>)
    requires Encodable(m)
    ensures var d := EncodeFrame(m) + rest;
            var lf := LengthField(|m.payload|);
            var i := 1 + |lf|;
            && d[0] as nat == 128 + m.opcode && d[1..i] == lf
            && d[i..i + 4] == m.mask && d[i + 4..] == Masked(m.payload, m.mask) + rest
  {
    var lf := LengthField(|m.payload|);
    var d := EncodeFrame(m) + rest;
    var tail := Masked(m.payload, m.mask) + rest;
    var i := 1 + |lf|;
    assert d == [(128 + m.opcode) as byte] + lf + m.mask + tail;
    assert d[1..i] == lf;
    assert d[i..i + 4] == m.mask;
    assert d[i + 4..] == tail;
  }

  /** The first two bytes of a final masked data frame raise no close. */
  lemma DataFrameHeader(s: FState, opcode: nat, c: nat)
    requires Valid(s) && s.state == 0 && |s.data| >= 2 && (opcode == 1 || opcode == 2) && c < 128
    requires s.data[0] as nat == 128 + opcode && s.data[1] as nat == 128 + c
    ensures ParseHeader(s) == s.(fin := true, opcode := opcode, length := c, index := 2,
                                 state := if c == 126 then 1 else if c == 127 then 2 else 3)
  {
    assert HeaderCloses(s.data[0] as nat, s.data[1] as nat) == [];
  }

  /** The header of an encoded frame is read as final, with its opcode and
      payload length, no close, and the cursor past the length field. */
  lemma HeaderOfFrame(s: FState, m: Message, rest: seq<byte>, limit: nat)
    requires Valid(s) && s.state == 0 && Sendable(m, limit) && s.data == EncodeFrame(m) + rest
    ensures var r := ParseLength(ParseHeader(s));
            && r.state == 3 && r.fin && r.opcode == m.opcode && r.length == |m.payload|
            && r.index == 1 + |LengthField(|m.payload|)| && r.data == s.data && r.actions == s.actions
            && r.message == s.message && r.scheduled == s.scheduled
  {
    var n := |m.payload|;
    var lf := LengthField(n);
    FrameLayout(m, rest);
    var d := s.data;
    assert d[1] == d[1..1 + |lf|][0] == lf[0];
    var c := if n < 126 then n else if n < 0x1_0000 then 126 else 127;
    DataFrameHeader(s, m.opcode, c);
    var s1 := ParseHeader(s);
    if n >= 126 && n < 0x1_0000 {
      ShortLengthField(d, n);
    } else if n >= 0x1_0000 {
      LongLengthField(d, n);
    }
  }

  /** A 32-bit number is its four bytes, most significant first. */
  lemma Decompose(n: nat)
    requires n < 0x1_0000_0000
    ensures n / 256 / 256 / 256 < 256
    ensures ((n / 256 / 256 / 256 * 256 + n / 256 / 256 % 256) * 256 + n / 256 % 256) * 256 + n % 256 == n
  {
    var q1 := n / 256;
    var q2 := q1 / 256;
    var q3 := q2 / 256;
    assert n == q1 * 256 + n % 256;
    assert q1 == q2 * 256 + q1 % 256;
    assert q2 == q3 * 256 + q2 % 256;
  }

  lemma ShortLengthField(d: seq<byte>, n: nat)
    requires 126 <= n < 0x1_0000 && |d| >= 4 && d[1..4] == LengthField(n)
    ensures BigEndian(d[2..4]) == n
  {
    var lf := LengthField(n);
    assert d[2] == d[1..4][1] == lf[1];
    assert d[3] == d[1..4][2] == lf[2];
    assert d[2..4] == [d[2], d[3]];
    BigEndian2(d[2], d[3]);
  }

  lemma LongLengthField(d: seq<byte>, n: nat)
    requires 0x1_0000 <= n < 0x1_0000_0000 && |d| >= 10 && d[1..10] == LengthField(n)
    ensures BigEndian(d[2..6]) == 0 && BigEndian(d[6..10]) == n
  {
    var lf := LengthField(n);
    forall k | 1 <= k < 10
      ensures d[k] == lf[k - 1]
    {
      assert d[1..10][k - 1] == d[k];
    }
    assert d[2..6] == [d[2], d[3], d[4], d[5]];
    assert d[6..10] == [d[6], d[7], d[8], d[9]];
    BigEndian4(d[2], d[3], d[4], d[5]);
    BigEndian4(d[6], d[7], d[8], d[9]);
    Decompose(n);
  }

  /** With the header read, the key of an encoded frame is taken and the
      buffer holds the masked payload and what follows. */
  lemma MaskOfFrame(s: FState, m: Message, rest: seq<byte>, limit: nat)
    requires Valid(s) && s.state == 0 && s.message == [] && Sendable(m, limit) && s.data == EncodeFrame(m) + rest
    ensures var r := ParseMask(ParseLength(ParseHeader(s)), limit);
            && r.state == 4 && r.fin && r.opcode == m.opcode && r.length == |m.payload|
            && r.mask == m.mask && r.data == Masked(m.payload, m.mask) + rest
            && r.actions == s.actions && r.message == [] && r.scheduled == s.scheduled
  {
    HeaderOfFrame(s, m, rest, limit);
    FrameLayout(m, rest);
  }

  /** One encoded frame at the head of the buffer is delivered whole in a
      single parse call, leaving what follows buffered (and a parse queued
      if that is at least two bytes). */
  lemma ParseOneFrame(s: FState, chunk: seq<byte>, m: Message, rest: seq<byte>, limit: nat, rawMode: bool)
    requires Valid(s) && s.state == 0 && s.message == [] && Sendable(m, limit)
    requires s.data + chunk == EncodeFrame(m) + rest
    ensures var r := Parse(s, chunk, limit, rawMode);
            && Valid(r) && r.state == 0 && r.message == [] && r.data == rest
            && r.actions == s.actions + [Event(m, rawMode)]
            && r.scheduled == s.scheduled + (if |rest| >= 2 then [ParseNext] else [])
  {
    var s0 := s.(data := s.data + chunk);
    MaskOfFrame(s0, m, rest, limit);
    var s3 := ParseMask(ParseLength(ParseHeader(s0)), limit);
    var n := |m.payload|;
    assert s3.data[..n] == Masked(m.payload, m.mask);
    assert s3.data[n..] == rest;
    MaskedInvolutive(m.payload, m.mask);
    assert Parse(s, chunk, limit, rawMode) == Unmasking(s3, rawMode);
    assert UnmaskSize(|s3.data|, s3.length) == n;
    assert s3.message + Masked(s3.data[..n], m.mask) == m.payload;
    var s4 := s3.(message := m.payload, data := rest, length := 0);
    assert Unmasking(s3, rawMode) == MessageParse(s4, rawMode);
  }

  function Frames(ms: seq<Frame>): seq<byte>
  {
    if ms == [] then [] else EncodeFrame(ms[0]) + Frames(ms[1..])
  }

  function Events(ms: seq<Frame>, rawMode: bool): seq<Action>
  {
    if ms == [] then [] else [Event(ms[0], rawMode)] + Events(ms[1..], rawMode)
  }

  lemma EventsCons(before: seq<Action>, ms: seq<Frame>, rawMode: bool)
    requires ms != []
    ensures before + [Event(ms[0], rawMode)] + Events(ms[1..], rawMode) == before + Events(ms, rawMode)
  {
  }

  /** A single queued parse call runs with no new bytes. */
  lemma DrainParseNext(s: FState, limit: nat, rawMode: bool)
    requires Valid(s) && s.scheduled == [ParseNext]
    ensures Drain(s, limit, rawMode) == Drain(Parse(s.(scheduled := []), [], limit, rawMode), limit, rawMode)
  {
    assert RunContinuation(s.(scheduled := []), ParseNext, limit, rawMode) == Parse(s.(scheduled := []), [], limit, rawMode);
  }

  /** The queued parse calls deliver the buffered frames one by one. */
  lemma {:induction false} DrainFrames(s: FState, ms: seq<Frame>, limit: nat, rawMode: bool)
    requires forall i :: 0 <= i < |ms| ==> Sendable(ms[i], limit)
    requires Valid(s) && s.state == 0 && s.message == [] && s.data == Frames(ms)
    requires s.scheduled == (if |s.data| >= 2 then [ParseNext] else [])
    ensures var r := Drain(s, limit, rawMode);
            r.state == 0 && r.message == [] && r.data == [] && r.actions == s.actions + Events(ms, rawMode)
    decreases |ms|
  {
    if ms == [] {
      assert s.scheduled == [];
    } else {
      var rest := Frames(ms[1..]);
      assert s.data == EncodeFrame(ms[0]) + rest;
      var s1 := s.(scheduled := []);
      assert s1.data + [] == EncodeFrame(ms[0]) + rest;
      ParseOneFrame(s1, [], ms[0], rest, limit, rawMode);
      var s2 := Parse(s1, [], limit, rawMode);
      DrainParseNext(s, limit, rawMode);
      assert forall i :: 0 <= i < |ms[1..]| ==> Sendable(ms[1..][i], limit) by {
        forall i | 0 <= i < |ms[1..]| ensures Sendable(ms[1..][i], limit) {
          assert ms[1..][i] == ms[i + 1];
        }
      }
      DrainFrames(s2, ms[1..], limit, rawMode);
      EventsCons(s.actions, ms, rawMode);
    }
  }

  /** Any run of complete client frames arriving in one chunk between
      messages is delivered in order, each payload unmasked whole, and leaves
      the decoder empty and waiting for the next header. */
  lemma ReceiveFrames(s: FState, ms: seq<Frame>, limit: nat, rawMode: bool)
    requires forall i :: 0 <= i < |ms| ==> Sendable(ms[i], limit)
    requires Valid(s) && s.state == 0 && s.message == [] && s.data == [] && s.scheduled == []
    ensures var r := Receive(s, Frames(ms), limit, rawMode);
            r.state == 0 && r.data == [] && r.actions == s.actions + Events(ms, rawMode)
  {
    if ms == [] {
      assert Parse(s, [], limit, rawMode) == s;
    } else {
      var rest := Frames(ms[1..]);
      assert s.data + Frames(ms) == EncodeFrame(ms[0]) + rest;
      ParseOneFrame(s, Frames(ms), ms[0], rest, limit, rawMode);
      assert forall i :: 0 <= i < |ms[1..]| ==> Sendable(ms[1..][i], limit) by {
        forall i | 0 <= i < |ms[1..]| ensures Sendable(ms[1..][i], limit) {
          assert ms[1..][i] == ms[i + 1];
        }
      }
      DrainFrames(Parse(s, Frames(ms), limit, rawMode), ms[1..], limit, rawMode);
      EventsCons(s.actions, ms, rawMode);
    }
  }

  /** A frame with an empty payload is never delivered: the decoder stays in
      the payload state with length 0. */
  lemma EmptyFrameNeverDelivered(s: FState, opcode: nat, mask: seq<byte>, limit: nat, rawMode: bool)
    requires Valid(s) && s.state == 0 && s.message == [] && s.data == [] && s.scheduled == []
    requires (opcode == 1 || opcode == 2) && |mask| == 4
    ensures var r := Receive(s, EncodeFrame(Message(opcode, mask, [])), limit, rawMode);
            r.state == 4 && r.length == 0 && r.actions == s.actions
  {
    var m := Message(opcode, mask, []);
    FrameLayout(m, []);
    var f := EncodeFrame(m);
    var s0 := s.(data := s.data + f);
    assert s0.data == f + [];
    DataFrameHeader(s0, opcode, 0);
    var s1 := ParseHeader(s0);
    assert ParseLength(s1) == s1;
    var s3 := ParseMask(s1, limit);
    assert s3 == s1.(mask := mask, data := [], index := 0, state := 4);
    assert Parse(s, f, limit, rawMode) == Unmasking(s3, rawMode) == s3;
  }

  // ---------------------------------------------------------------------
  // The upgrade request
  // ---------------------------------------------------------------------

  /** The handshake goes ahead exactly when a host serves the path, the
      upgrade is `websocket`, a key is given, the version is `13`, and any
      origin is accepted; otherwise the last failing check names the error. */
  lemma HandshakeDecision(u: Upgrade)
    ensures var ok := u.hostFound && u.upgrade == Some("websocket") && u.key.Some? && u.key != Some("")
                      && u.version == Some("13") && (u.origin.None? || u.origin == Some("") || u.originAccepted);
            HandshakeError(u) == "" <==> ok
    ensures !u.hostFound ==> HandshakeError(u) == NoHostMessage
    ensures u.hostFound && u.origin.Some? && u.origin != Some("") && !u.originAccepted ==> HandshakeError(u) == OriginMessage
    ensures (u.hostFound && (u.origin.None? || u.origin == Some("") || u.originAccepted)
             && u.version != Some("13")) ==> HandshakeError(u) == VersionMessage
    ensures (u.hostFound && (u.origin.None? || u.origin == Some("") || u.originAccepted) && u.version == Some("13")
             && (u.key.None? || u.key == Some(""))) ==> HandshakeError(u) == NoKeyMessage
  {
  }
}
