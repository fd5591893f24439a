/** The `QSParser` object of lib/parsers/qs.js: `write` feeds the elements of
    a Buffer or string through `getKey`/`getValue`, which push onto `buffer`
    and reassign `key`, `value`, `state` and `result`. Every method is proved
    to leave the members as the matching function of module QueryStringSpec
    says. A method that returns `threw` stopped where the source's
    `decodeURIComponent` raised a URIError. */
module QueryString {
  import opened Js
  import opened QueryStringSpec

  class QSParser {
    var buffer: seq<Item>
    var key: string
    var value: string
    var result: Result
    var state: int

    function Snapshot(): QState
      reads this
    {
      QState(buffer, key, value, result, state)
    }

    constructor ()
      ensures Snapshot() == Initial()
    {
      buffer := [];
      key := "";
      result := map[];
      state := 0;
      value := "";
    }

    method AddData(decode: string -> Option<string>) returns (threw: bool)
      modifies this
      ensures (Snapshot(), threw) == QueryStringSpec.AddData(old(Snapshot()), decode)
    {
      var k := decode(key);
      var v := decode(value);
      if k.None? || v.None? {
        return true;
      }
      threw := false;
      if k.value != "" {
        result := AddPair(result, k.value, v.value);
        key := "";
        value := "";
      }
    }

    method GetKey(current: Item, decode: string -> Option<string>) returns (threw: bool)
      modifies this
      ensures (Snapshot(), threw) == QueryStringSpec.GetKey(old(Snapshot()), current, decode)
    {
      threw := false;
      if current == Octet(AMP) || current == Octet(EQ) {
        key := FromCharCodes(buffer);
        buffer := [];
        if current == Octet(AMP) {
          threw := AddData(decode);
        } else {
          state := 1;
        }
      } else {
        buffer := buffer + [current];
      }
    }

    method GetValue(current: Item, decode: string -> Option<string>) returns (threw: bool)
      modifies this
      ensures (Snapshot(), threw) == QueryStringSpec.GetValue(old(Snapshot()), current, decode)
    {
      threw := false;
      if current == Octet(AMP) {
        value := FromCharCodes(buffer);
        buffer := [];
        threw := AddData(decode);
        if threw {
          return;
        }
        state := 0;
      } else {
        buffer := buffer + [current];
      }
    }

    /** `write(data)`. */
    method Write(data: seq<Item>, decode: string -> Option<string>) returns (threw: bool)
      modifies this
      ensures (Snapshot(), threw) == Feed(old(Snapshot()), data, decode)
    {
      var index := 0;
      threw := false;
      while index < |data|
        invariant 0 <= index <= |data|
        invariant Feed(old(Snapshot()), data, decode) == Feed(Snapshot(), data[index..], decode)
      {
        assert data[index..][1..] == data[index + 1..];
        var current := data[index];
        if state == 0 {
          threw := GetKey(current, decode);
        } else {
          threw := GetValue(current, decode);
        }
        if threw {
          return;
        }
        index := index + 1;
      }
    }

    /** `end()`. */
    method End(decode: string -> Option<string>) returns (threw: bool)
      modifies this
      ensures (Snapshot(), threw) == QueryStringSpec.End(old(Snapshot()), decode)
    {
      if state == 0 {
        key := FromCharCodes(buffer);
      } else {
        value := FromCharCodes(buffer);
      }
      threw := AddData(decode);
    }

    /** `QSParser.parse(string)`: None when a decode threw. */
    static method Parse(input: Option<string>, decode: string -> Option<string>) returns (r: Option<Result>)
      ensures r == QueryStringSpec.Parse(input, decode)
    {
      var parser := new QSParser();
      if input.Some? && input.value != "" {
        var threw := parser.Write(Units(input.value), decode);
        if threw {
          return None;
        }
        threw := parser.End(decode);
        if threw {
          return None;
        }
      }
      r := Some(parser.result);
    }
  }
}
