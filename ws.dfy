/** The `frame` object of utils/ws.js and the functions that update it in
    place. The buffered bytes are an array: `wsUnmasking` XORs the payload in
    it before cutting it off. Every method is proved to leave the frame as
    the matching function of module WebSocketSpec says. */
module WebSocket {
  import opened Js
  import opened WebSocketSpec

  class Frame {
    /** `connection.config.messageLimit` and `connection.config.rawMode`. */
    const limit: nat
    const rawMode: bool
    var data: array<byte>
    var index: nat
    var mask: seq<byte>
    var length: nat
    var message: seq<byte>
    var state: int
    var fin: bool
    var opcode: nat
    var actions: seq<Action>
    var scheduled: seq<Continuation>

    function Snapshot(): FState
      reads this, data
    {
      FState(data[..], index, mask, length, message, state, fin, opcode, actions, scheduled)
    }

    ghost predicate Valid()
      reads this, data
    {
      WebSocketSpec.Valid(Snapshot())
    }

    constructor (limit: nat, rawMode: bool)
      ensures Valid() && fresh(data)
      ensures Snapshot() == Initial() && this.limit == limit && this.rawMode == rawMode
    {
      this.limit := limit;
      this.rawMode := rawMode;
      data := new byte[0];
      index := 0;
      mask := [];
      length := 0;
      message := [];
      state := 0;
      fin := false;
      opcode := 0;
      actions := [];
      scheduled := [];
    }

    /** A new buffer holding `s` (`Buffer.slice` and `utils.buffer`). */
    static method NewBuffer(s: seq<byte>) returns (a: array<byte>)
      ensures fresh(a) && a[..] == s
    {
      a := new byte[|s|](i requires 0 <= i < |s| => s[i]);
    }

    method MessageParse()
      requires Valid()
      modifies this
      ensures Valid() && data == old(data)
      ensures Snapshot() == WebSocketSpec.MessageParse(old(Snapshot()), rawMode)
    {
      var event := if opcode == 2 || rawMode then Deliver(message, opcode == 1) else Dispatch(message);
      actions := actions + [event];
      message := [];
      state := 0;
      if data.Length >= 2 {
        scheduled := scheduled + [ParseNext];
      }
    }

    method Unmasking()
      requires Valid() && |mask| == 4
      modifies this, data
      ensures Valid() && (data == old(data) || fresh(data))
      ensures Snapshot() == WebSocketSpec.Unmasking(old(Snapshot()), rawMode)
    {
      var size := UnmaskSize(data.Length, length);
      if size > 0 {
        MaskInPlace(data, mask, size);
        message := message + data[..size];
        data := NewBuffer(data[size..]);
        length := length - size;
        if fin && length == 0 {
          MessageParse();
        } else {
          scheduled := scheduled + [UnmaskNext];
        }
      }
    }

    /** The `while (index--)` loop of `wsUnmasking`: the first `size` bytes
        are XORed with the key in place, from the last one down. */
    static method MaskInPlace(a: array<byte>, mask: seq<byte>, size: nat)
      requires |mask| == 4 && size <= a.Length
      modifies a
      ensures a[..] == Masked(old(a[..size]), mask) + old(a[size..])
    {
      ghost var before := a[..];
      var i := size;
      while i > 0
        invariant 0 <= i <= size
        invariant forall k :: 0 <= k < i ==> a[k] == before[k]
        invariant forall k :: i <= k < size ==> a[k] == Xor(before[k], mask[k % 4])
        invariant forall k :: size <= k < a.Length ==> a[k] == before[k]
      {
        i := i - 1;
        a[i] := Xor(a[i], mask[i % 4]);
      }
      assert a[..] == Masked(before[..size], mask) + before[size..];
    }

    /** `wsParse(connection, frame, chunk)`. */
    method Parse(chunk: seq<byte>)
      requires Valid()
      modifies this, data
      ensures Valid() && (data == old(data) || fresh(data))
      ensures Snapshot() == WebSocketSpec.Parse(old(Snapshot()), chunk, limit, rawMode)
    {
      data := NewBuffer(data[..] + chunk);
      if state == 0 && data.Length >= 2 {
        ParseHeader();
      }
      ParseLength();
      ParseMask();
      if state == 4 {
        Unmasking();
      }
    }

    /** `wsParse` in state 0 with at least two bytes buffered
        (utils/ws.js:102-160). */
    method ParseHeader()
      requires Valid() && state == 0 && data.Length >= 2
      modifies this
      ensures Valid() && (data == old(data) || fresh(data))
      ensures Snapshot() == WebSocketSpec.ParseHeader(old(Snapshot()))
    {
      ReadHeader();
      ControlOpcode();
    }

    /** FIN, opcode and length of the first two bytes, and the checks. */
    method ReadHeader()
      requires Valid() && data.Length >= 2
      modifies this
      ensures Valid() && data == old(data)
      ensures Snapshot() == WebSocketSpec.ReadHeader(old(Snapshot()))
    {
      var b0 := data[0] as nat;
      var b1 := data[1] as nat;
      fin := b0 >= 128;
      opcode := b0 % 16;
      length := b1 % 128;
      // Each failed check writes the close frame; the state it sets is
      // overwritten by the length dispatch below.
      var closes := CheckHeader(b0, b1);
      actions := actions + closes;
      if length == 126 {
        state := 1;
      } else if length == 127 {
        state := 2;
      } else {
        state := 3;
      }
    }

    /** The control opcodes. */
    method ControlOpcode()
      requires Valid()
      modifies this
      ensures Valid() && (data == old(data) || fresh(data))
      ensures Snapshot() == WebSocketSpec.ControlOpcode(old(Snapshot()))
    {
      if opcode == 8 {
        actions := actions + [Close(CloseReceived)];
        state := -1;
      } else if opcode == 9 {
        actions := actions + [Close(PingReceived)];
        state := -1;
      } else if opcode == 10 {
        data := NewBuffer(SliceFrom(data[..], 6 + length));
        state := 0;
      } else {
        index := 2;
      }
    }

    /** The four header checks of `wsParse`, in order, each adding a close. */
    static method CheckHeader(b0: nat, b1: nat) returns (closes: seq<Action>)
      ensures closes == HeaderCloses(b0, b1)
    {
      var fin := b0 >= 128;
      var opcode := b0 % 16;
      var length := b1 % 128;
      closes := [];
      if (b0 / 16) % 8 != 0 {
        closes := closes + [Close(Extensions)];
      }
      if opcode % 8 > 2 {
        closes := closes + [Close(UnknownOpcode)];
      }
      if opcode > 7 && (length > 125 || !fin) {
        closes := closes + [Close(InvalidControl)];
      }
      if b1 < 128 {
        closes := closes + [Close(Unmasked)];
      }
    }

    /** The extended payload length (utils/ws.js:163-180). */
    method ParseLength()
      requires Valid()
      modifies this
      ensures Valid() && data == old(data)
      ensures Snapshot() == WebSocketSpec.ParseLength(old(Snapshot()))
    {
      if state == 1 && data.Length >= 4 {
        length := BigEndian(data[2..4]);
        index := index + 2;
        state := 3;
      } else if state == 2 && data.Length >= 10 {
        if BigEndian(data[2..6]) != 0 {
          actions := actions + [Close(LongLength)];
          state := -1;
        }
        length := BigEndian(data[6..10]);
        index := index + 8;
        state := 3;
      }
    }

    /** The masking key (utils/ws.js:183-196). */
    method ParseMask()
      requires Valid()
      modifies this
      ensures Valid() && (data == old(data) || fresh(data))
      ensures Snapshot() == WebSocketSpec.ParseMask(old(Snapshot()), limit)
    {
      if state == 3 && data.Length - index >= 4 {
        if length + |message| > limit {
          actions := actions + [Close(TooBig)];
          state := -1;
        } else {
          mask := data[index..index + 4];
          data := NewBuffer(data[index + 4..]);
          index := 0;
          state := 4;
        }
      }
    }

    /** A readable event: the chunk is parsed, then the calls queued with
        `setImmediate` run in order until none is left. */
    method Receive(chunk: seq<byte>)
      requires Valid()
      modifies this, data
      ensures Valid() && scheduled == []
      ensures Snapshot() == WebSocketSpec.Receive(old(Snapshot()), chunk, limit, rawMode)
    {
      Parse(chunk);
      while scheduled != []
        invariant Valid() && (data == old(data) || fresh(data))
        invariant WebSocketSpec.Receive(old(Snapshot()), chunk, limit, rawMode) == Drain(Snapshot(), limit, rawMode)
        decreases data.Length + |scheduled|
      {
        RunNext();
      }
    }

    /** The first queued call. */
    method RunNext()
      requires Valid() && scheduled != []
      modifies this, data
      ensures Valid() && (data == old(data) || fresh(data))
      ensures Snapshot() == RunContinuation(old(Snapshot()).(scheduled := old(scheduled[1..])), old(scheduled[0]), limit, rawMode)
    {
      var next := scheduled[0];
      scheduled := scheduled[1..];
      if next == UnmaskNext {
        Unmasking();
      } else {
        Parse([]);
      }
    }
  }
}
