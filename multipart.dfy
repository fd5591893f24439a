/** The multipart parser object of utils/parsers/multipart.js: its members are
    updated byte by byte by `write`. Every method is proved to leave the
    members as the matching function of module MultipartSpec says. */
module Multipart {
  import opened Js
  import opened MultipartSpec

  class MultipartParser {
    const boundary: seq<byte>
    const blength: nat
    var state: int
    var bindex: nat
    var prev: byte
    var pindex: nat
    var sindex: nat
    var buffer: seq<byte>
    var field: Option<nat>
    /** The field objects created so far; `field` is a position in it. */
    var fields: seq<Field>
    /** The events emitted so far, in order. */
    var events: seq<Event>

    function Snapshot(): PState
      reads this
    {
      PState(state, bindex, prev, pindex, sindex, buffer, field, fields, events)
    }

    ghost predicate Valid()
      reads this
    {
      blength == |boundary| && WF(Snapshot(), boundary)
    }

    constructor (contentType: string)
      ensures Valid()
      ensures boundary == BoundaryBytes(contentType)
      ensures Snapshot() == Initial(contentType)
    {
      var found := BoundaryParam(contentType, 0);
      events := [];
      if found.None? {
        events := events + [ErrorEmitted(NoBoundaryMessage)];
        state := -1;
      } else {
        state := 0;
      }
      bindex := 2;
      var bytes := BoundaryBytes(contentType);
      boundary := bytes;
      blength := |bytes|;
      buffer := [];
      field := None;
      fields := [];
      pindex := 0;
      prev := 0;
      sindex := 0;
    }

    method EndPartData(chunk: seq<byte>, next: int) returns (threw: bool)
      requires Valid() && (next == 1 || next == 4)
      modifies this
      ensures Valid()
      ensures (Snapshot(), threw) == MultipartSpec.EndPartData(old(Snapshot()), boundary, chunk, next)
    {
      match field
      case None =>
        threw := true;
      case Some(i) =>
        fields := fields[i := fields[i].(chunks := fields[i].chunks + [chunk], ended := true)];
        field := None;
        prev := 0;
        bindex := 0;
        state := next;
        pindex := 0;
        threw := false;
    }

    method GetData(data: seq<byte>, index: nat) returns (threw: bool)
      requires Valid() && state == 2 && index < |data|
      modifies this
      ensures Valid()
      ensures (Snapshot(), threw) == MultipartSpec.GetData(old(Snapshot()), boundary, data, index)
    {
      var current := data[index];
      threw := false;
      if index == 0 {
        pindex := 0;
      }
      if bindex < blength && current == boundary[bindex] {
        if bindex == 0 {
          sindex := index;
        }
        bindex := bindex + 1;
      } else if bindex == blength {
        if current == CR {
          prev := CR;
          bindex := bindex + 1;
        } else if current == DASH {
          prev := DASH;
          bindex := bindex + 1;
        } else {
          events := events + [ErrorEmitted(UnexpectedBoundaryMessage)];
          state := -1;
        }
      } else if bindex > blength {
        if current == LF && prev == CR {
          threw := EndPartData(Slice(data, pindex, sindex), 1);
        } else if current == DASH && prev == DASH {
          threw := EndPartData(Slice(data, pindex, sindex), 4);
        } else {
          events := events + [ErrorEmitted(UnexpectedBoundaryMessage)];
          state := -1;
        }
      } else if index == |data| - 1 {
        match field
        case None =>
          threw := true;
        case Some(i) =>
          fields := fields[i := fields[i].(chunks := fields[i].chunks + [SliceFrom(data, pindex)])];
          pindex := 0;
      } else if bindex != 0 && current == boundary[0] {
        sindex := index;
        bindex := 1;
      }
    }

    method GetHeader(index: nat, current: byte)
      requires Valid() && state == 1
      modifies this
      ensures Valid()
      ensures Snapshot() == MultipartSpec.GetHeader(old(Snapshot()), boundary, index, current)
    {
      if current == CR {
        prev := CR;
      } else if current == LF && prev == CR {
        if |buffer| > 0 {
          ParseHeader();
        } else {
          state := 2;
          pindex := index + 1;
          events := events + [FieldEmitted(field)];
        }
      } else {
        buffer := buffer + [current];
      }
    }

    method GetRequestEnd(current: byte)
      requires Valid() && state == 3
      modifies this
      ensures Valid()
      ensures Snapshot() == MultipartSpec.GetRequestEnd(old(Snapshot()), boundary, current)
    {
      if current == CR && prev == 0 {
        prev := CR;
      } else if current != LF && prev != CR {
        events := events + [ErrorEmitted(InvalidEndingMessage)];
        state := -1;
      }
    }

    method NewPart(disposition: string)
      requires Valid() && field.None?
      modifies this
      ensures Valid()
      ensures Snapshot() == MultipartSpec.NewPart(old(Snapshot()), boundary, disposition)
    {
      var title := ParseDisposition(disposition);
      match title
      case Some(t) =>
        field := Some(|fields|);
        fields := fields + [NewField(t)];
      case None =>
        events := events + [ErrorEmitted(InvalidDispositionMessage)];
        state := -1;
    }

    method ParseHeader()
      requires Valid()
      modifies this
      ensures Valid()
      ensures Snapshot() == MultipartSpec.ParseHeader(old(Snapshot()), boundary)
    {
      var line := buffer;
      var colon := IndexOf(line, [COLON], 0);
      buffer := [];
      if colon > 0 {
        ApplyHeaderLine(HeaderName(line, colon), HeaderValue(line, colon));
      } else {
        events := events + [ErrorEmitted(NoDelimiterMessage)];
        state := -1;
      }
    }

    /** The second half of `parseHeader`, once the line is split. */
    method ApplyHeaderLine(header: string, value: string)
      requires Valid()
      modifies this
      ensures Valid()
      ensures Snapshot() == MultipartSpec.ApplyHeaderLine(old(Snapshot()), boundary, header, value)
    {
      match field
      case None =>
        if header == "Content-Disposition" {
          NewPart(value);
        } else {
          state := -1;
        }
      case Some(i) =>
        var g := ApplyHeader(fields[i], header, value);
        UpdateCurrentField(Snapshot(), boundary, g);
        fields := fields[i := g];
    }

    method SkipFirstBoundary(current: byte)
      requires Valid() && state == 0
      modifies this
      ensures Valid()
      ensures Snapshot() == MultipartSpec.SkipFirstBoundary(old(Snapshot()), boundary, current)
    {
      if bindex < blength && current == boundary[bindex] {
        bindex := bindex + 1;
      } else if bindex == blength && current == CR {
        prev := CR;
        bindex := bindex + 1;
      } else if bindex > blength && current == LF && prev == CR {
        bindex := 0;
        prev := 0;
        state := 1;
      } else {
        events := events + [ErrorEmitted(UnexpectedBoundaryMessage)];
        state := -1;
      }
    }

    /** The dispatch on the state in the loop of `write`, for the byte at
        `index`. */
    method Dispatch(data: seq<byte>, index: nat) returns (threw: bool)
      requires Valid() && index < |data|
      modifies this
      ensures Valid()
      ensures (Snapshot(), threw) == Step(old(Snapshot()), boundary, data, index)
    {
      threw := false;
      var current := data[index];
      if state == 0 {
        SkipFirstBoundary(current);
      } else if state == 1 {
        GetHeader(index, current);
      } else if state == 2 {
        threw := GetData(data, index);
      } else if state == 3 {
        GetRequestEnd(current);
      }
    }

    /** `write(data)`: feeds one chunk of the body through the state machine.
        `threw` is true when a step raised a TypeError, which ends the call. */
    method Write(data: seq<byte>) returns (threw: bool)
      requires Valid()
      modifies this
      ensures Valid()
      ensures (Snapshot(), threw) == WriteFrom(old(Snapshot()), boundary, data, 0)
    {
      var index := 0;
      threw := false;
      while index < |data|
        invariant 0 <= index <= |data|
        invariant Valid() && !threw
        invariant WriteFrom(old(Snapshot()), boundary, data, 0) == WriteFrom(Snapshot(), boundary, data, index)
      {
        if state == -1 {
          break;
        }
        threw := Dispatch(data, index);
        if threw {
          return;
        }
        index := index + 1;
      }
    }

    /** `end()`: the end event, whatever the state. */
    method End()
      requires Valid()
      modifies this
      ensures Valid()
      ensures Snapshot() == old(Snapshot()).(events := old(events) + [EndEmitted])
    {
      events := events + [EndEmitted];
    }
  }
}
