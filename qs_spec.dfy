/** The query-string parser of lib/parsers/qs.js as functions over a snapshot
    of the parser object: a two-state machine (0 reading a key, 1 reading a
    value) over the elements it is written, with a buffer, the last key and
    value read, and the result object. `decodeURIComponent` is a parameter:
    None stands for the URIError it throws. */
module QueryStringSpec {
  import opened Js

  const AMP: byte := 38   // '&'
  const EQ: byte := 61    // '='

  /** One element of what `write` indexes: a byte of a Buffer, or a
      character of a JS string (which never equals a number). */
  datatype Item = Octet(b: byte) | Unit(c: char)

  /** `String.fromCharCode` of one buffered element. A byte is its own char
      code. A character goes through ToNumber first: a decimal digit gives its
      value, any other single character 0 (white space) or NaN, which both
      become code 0. */
  function CharCode(i: Item): (c: char)
    ensures i.Octet? ==> c as int == i.b as int
    ensures i.Unit? ==> c as int == (if '0' <= i.c <= '9' then i.c as int - '0' as int else 0)
  {
    match i
    case Octet(b) => (b as int) as char
    case Unit(c) => if '0' <= c <= '9' then (c as int - '0' as int) as char else 0 as char
  }

  /** `String.fromCharCode.apply(String, buffer)`. */
  function FromCharCodes(items: seq<Item>): (r: string)
    ensures |r| == |items|
    ensures forall k :: 0 <= k < |items| ==> r[k] == CharCode(items[k])
  {
    seq(|items|, k requires 0 <= k < |items| => CharCode(items[k]))
  }

  /** A property of the result object: a string, or an array of strings. */
  datatype Value = Scalar(s: string) | List(items: seq<string>)

  type Result = map<string, Value>

  /** JS truthiness of `result[key]`: an absent key and the empty string are
      false, every array is true. */
  predicate Truthy(r: Result, key: string)
  {
    key in r && (r[key].List? || r[key].s != "")
  }

  /** The values stored under `key`, in order. */
  function Values(r: Result, key: string): seq<string>
  {
    if key !in r then []
    else match r[key]
      case Scalar(s) => [s]
      case List(xs) => xs
  }

  /** `key.substr(-2) === '[]'`. */
  predicate IsListKey(key: string)
  {
    |key| >= 2 && key[|key| - 2..] == "[]"
  }

  /** The property a decoded key is stored under: without the brackets of a
      list key. */
  function Name(key: string): (n: string)
    ensures IsListKey(key) ==> key == n + "[]"
  {
    if IsListKey(key) then key[..|key| - 2] else key
  }

  /** The body of `addData` once `key` is known to be truthy: a list key
      forces an array (a truthy scalar is wrapped, an absent or empty entry
      starts empty); then a value is pushed onto an array, a truthy scalar
      becomes the pair [old, new], and anything else is replaced by the
      value. */
  function AddPair(r: Result, key: string, value: string): (r': Result)
    requires key != ""
    ensures r'.Keys == r.Keys + {Name(key)}
    ensures forall k :: k in r && k != Name(key) ==> r'[k] == r[k]
    ensures Values(r', Name(key)) == (if Truthy(r, Name(key)) then Values(r, Name(key)) else []) + [value]
    ensures r'[Name(key)].Scalar? <==> !IsListKey(key) && !Truthy(r, Name(key))
  {
    var name := Name(key);
    var r1 := if !IsListKey(key) then r
              else if !Truthy(r, name) then r[name := List([])]
              else if r[name].Scalar? then r[name := List([r[name].s])]
              else r;
    if name in r1 && r1[name].List? then r1[name := List(r1[name].items + [value])]
    else if Truthy(r1, name) then r1[name := List([r1[name].s, value])]
    else r1[name := Scalar(value)]
  }

  /** The members of the parser object. */
  datatype QState = QState(buffer: seq<Item>, key: string, value: string, result: Result, state: int)

  /** `new QSParser()`. */
  function Initial(): (s: QState)
    ensures s.state == 0 && s.buffer == [] && s.result == map[]
  {
    QState([], "", "", map[], 0)
  }

  /** `addData`: both members are decoded (either may throw); a non-empty key
      stores the pair and resets key and value, an empty one changes
      nothing. The flag is true when the call threw. */
  function AddData(s: QState, decode: string -> Option<string>): (r: (QState, bool))
    ensures r.1 <==> decode(s.key).None? || decode(s.value).None?
    ensures r.1 || decode(s.key).value == "" ==> r.0 == s
    ensures !r.1 && decode(s.key).value != "" ==>
              r.0 == s.(result := AddPair(s.result, decode(s.key).value, decode(s.value).value), key := "", value := "")
  {
    var key := decode(s.key);
    var value := decode(s.value);
    if key.None? || value.None? then (s, true)
    else if key.value == "" then (s, false)
    else (s.(result := AddPair(s.result, key.value, value.value), key := "", value := ""), false)
  }

  /** `getKey`: `&` and `=` end the key (`&` adds the pair, `=` moves on to
      the value); every other element is buffered. */
  function GetKey(s: QState, current: Item, decode: string -> Option<string>): (r: (QState, bool))
    ensures current != Octet(AMP) && current != Octet(EQ) ==> r == (s.(buffer := s.buffer + [current]), false)
    ensures current == Octet(EQ) ==> r == (s.(key := FromCharCodes(s.buffer), buffer := [], state := 1), false)
    ensures current == Octet(AMP) ==> r == AddData(s.(key := FromCharCodes(s.buffer), buffer := []), decode)
  {
    if current == Octet(AMP) || current == Octet(EQ) then
      var s1 := s.(key := FromCharCodes(s.buffer), buffer := []);
      if current == Octet(AMP) then AddData(s1, decode) else (s1.(state := 1), false)
    else (s.(buffer := s.buffer + [current]), false)
  }

  /** `getValue`: only `&` ends the value (the pair is added and a key is
      read next); `=` and every other element are buffered. */
  function GetValue(s: QState, current: Item, decode: string -> Option<string>): (r: (QState, bool))
    ensures current != Octet(AMP) ==> r == (s.(buffer := s.buffer + [current]), false)
    ensures current == Octet(AMP) && !r.1 ==> r.0.state == 0 && r.0.buffer == []
    // `&` flushes the buffer into the value and adds the pair; the call
    // throws exactly when adding it does, and a key is read next otherwise
    ensures current == Octet(AMP) ==>
              var added := AddData(s.(value := FromCharCodes(s.buffer), buffer := []), decode);
              && (r.1 <==> added.1)
              && r.0 == (if added.1 then added.0 else added.0.(state := 0))
  {
    if current == Octet(AMP) then
      var (s1, threw) := AddData(s.(value := FromCharCodes(s.buffer), buffer := []), decode);
      if threw then (s1, true) else (s1.(state := 0), false)
    else (s.(buffer := s.buffer + [current]), false)
  }

  /** One element of `write`. */
  function Step(s: QState, current: Item, decode: string -> Option<string>): (QState, bool)
  {
    if s.state == 0 then GetKey(s, current, decode) else GetValue(s, current, decode)
  }

  /** `write(data)`: every element in turn, until a decode throws. */
  function Feed(s: QState, data: seq<Item>, decode: string -> Option<string>): (r: (QState, bool))
    decreases |data|
  {
    if data == [] then (s, false)
    else
      var (s1, threw) := Step(s, data[0], decode);
      if threw then (s1, true) else Feed(s1, data[1..], decode)
  }

  /** `end()`: the buffer becomes the key or the value, as the state says,
      and the last pair is added. The buffer is left as it was. The call
      throws exactly when decoding the key or the value throws; a non-empty
      key stores the pair and resets key and value, an empty one stores
      nothing. */
  function End(s: QState, decode: string -> Option<string>): (r: (QState, bool))
    ensures r.0.buffer == s.buffer && r.0.state == s.state
    ensures var key := if s.state == 0 then FromCharCodes(s.buffer) else s.key;
            var value := if s.state == 0 then s.value else FromCharCodes(s.buffer);
            && (r.1 <==> decode(key).None? || decode(value).None?)
            && (r.1 || decode(key).value == "" ==> r.0 == s.(key := key, value := value))
            && (!r.1 && decode(key).value != "" ==>
                  r.0 == s.(key := "", value := "", result := AddPair(s.result, decode(key).value, decode(value).value)))
  {
    var s1 := if s.state == 0 then s.(key := FromCharCodes(s.buffer)) else s.(value := FromCharCodes(s.buffer));
    AddData(s1, decode)
  }

  /** The elements of a JS string. */
  function Units(t: string): (items: seq<Item>)
    ensures |items| == |t| && forall k :: 0 <= k < |t| ==> items[k] == Unit(t[k])
  {
    seq(|t|, k requires 0 <= k < |t| => Unit(t[k]))
  }

  /** `QSParser.parse(string)`: an absent or empty string gives an empty
      result; otherwise the string is written and ended. None when a decode
      threw. */
  function Parse(input: Option<string>, decode: string -> Option<string>): (r: Option<Result>)
    ensures input.None? || input == Some("") ==> r == Some(map[])
  {
    if input.None? || input.value == "" then Some(map[])
    else
      var (s1, threw) := Feed(Initial(), Units(input.value), decode);
      if threw then None
      else
        var (s2, threw2) := End(s1, decode);
        if threw2 then None else Some(s2.result)
  }
}
