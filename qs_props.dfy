/** What the query-string parser of lib/parsers/qs.js guarantees, proved on
    the functions of module QueryStringSpec. */
module QueryStringProperties {
  import opened Js
  import opened QueryStringSpec

  /** Writing two chunks one after the other is writing their concatenation:
      the parser carries everything it needs across `write` calls. */
  lemma {:induction false} FeedAppend(s: QState, a: seq<Item>, b: seq<Item>, decode: string -> Option<string>)
    ensures Feed(s, a + b, decode) == (var (s1, threw) := Feed(s, a, decode);
                                       if threw then (s1, true) else Feed(s1, b, decode))
    decreases |a|
  {
    if a == [] {
      assert a + b == b;
    } else {
      assert (a + b)[0] == a[0];
      assert (a + b)[1..] == a[1..] + b;
      FeedAppend(Step(s, a[0], decode).0, a[1..], b, decode);
    }
  }

  /** A first element that is only buffered leaves the rest to the next
      elements. */
  lemma FeedBuffers(s: QState, items: seq<Item>, decode: string -> Option<string>)
    requires items != [] && Step(s, items[0], decode) == (s.(buffer := s.buffer + [items[0]]), false)
    ensures Feed(s, items, decode) == Feed(s.(buffer := s.buffer + [items[0]]), items[1..], decode)
  {
  }

  /** In the key state every element other than the bytes `&` and `=` is
      only buffered. */
  lemma {:induction false} BufferKey(s: QState, items: seq<Item>, decode: string -> Option<string>)
    requires s.state == 0
    requires forall k :: 0 <= k < |items| ==> items[k] != Octet(AMP) && items[k] != Octet(EQ)
    ensures Feed(s, items, decode) == (s.(buffer := s.buffer + items), false)
    decreases |items|
  {
    if items != [] {
      var s1 := s.(buffer := s.buffer + [items[0]]);
      assert Step(s, items[0], decode) == (s1, false);
      FeedBuffers(s, items, decode);
      assert forall k :: 0 <= k < |items[1..]| ==> items[1..][k] == items[k + 1];
      BufferKey(s1, items[1..], decode);
      assert s1.buffer + items[1..] == s.buffer + items;
    } else {
      assert s.buffer + items == s.buffer;
    }
  }

  /** In the value state every element other than the byte `&` is only
      buffered, `=` included. */
  lemma {:induction false} BufferValue(s: QState, items: seq<Item>, decode: string -> Option<string>)
    requires s.state != 0
    requires forall k :: 0 <= k < |items| ==> items[k] != Octet(AMP)
    ensures Feed(s, items, decode) == (s.(buffer := s.buffer + items), false)
    decreases |items|
  {
    if items != [] {
      var s1 := s.(buffer := s.buffer + [items[0]]);
      assert Step(s, items[0], decode) == (s1, false);
      FeedBuffers(s, items, decode);
      assert forall k :: 0 <= k < |items[1..]| ==> items[1..][k] == items[k + 1];
      BufferValue(s1, items[1..], decode);
      assert s1.buffer + items[1..] == s.buffer + items;
    } else {
      assert s.buffer + items == s.buffer;
    }
  }

  // ---------------------------------------------------------------------
  // Buffers holding `key=value&key=value`
  // ---------------------------------------------------------------------

  /** The elements of a Buffer. */
  function Octets(bs: seq<byte>): (items: seq<Item>)
    ensures |items| == |bs| && forall k :: 0 <= k < |bs| ==> items[k] == Octet(bs[k])
  {
    seq(|bs|, k requires 0 <= k < |bs| => Octet(bs[k]))
  }

  /** A buffered run of bytes reads back as its Latin-1 string. */
  lemma OctetsText(bs: seq<byte>)
    ensures FromCharCodes(Octets(bs)) == Latin1(bs)
  {
  }

  /** A raw (still encoded) key and value. */
  datatype Pair = Pair(key: seq<byte>, value: seq<byte>)

  /** The key holds neither separator, the value no `&`. */
  predicate Separable(p: Pair)
  {
    AMP !in p.key && EQ !in p.key && AMP !in p.value
  }

  /** Both decode, and the key to a non-empty string. */
  predicate Decodes(p: Pair, decode: string -> Option<string>)
  {
    decode(Latin1(p.key)).Some? && decode(Latin1(p.key)).value != "" && decode(Latin1(p.value)).Some?
  }

  /** `key=value`. */
  function FieldBytes(p: Pair): seq<Item>
  {
    Octets(p.key) + [Octet(EQ)] + Octets(p.value)
  }

  /** The pairs joined with `&`. */
  function Query(ps: seq<Pair>): seq<Item>
    requires ps != []
  {
    if |ps| == 1 then FieldBytes(ps[0]) else FieldBytes(ps[0]) + [Octet(AMP)] + Query(ps[1..])
  }

  /** The result after storing each decoded pair in turn. */
  function Stored(r: Result, ps: seq<Pair>, decode: string -> Option<string>): Result
    requires forall i :: 0 <= i < |ps| ==> Decodes(ps[i], decode)
    decreases |ps|
  {
    if ps == [] then r
    else
      assert Decodes(ps[0], decode);
      assert forall i :: 0 <= i < |ps[1..]| ==> ps[1..][i] == ps[i + 1];
      Stored(AddPair(r, decode(Latin1(ps[0].key)).value, decode(Latin1(ps[0].value)).value), ps[1..], decode)
  }

  /** After `key=value` the key is read, the value is buffered and the parser
      is in the value state. */
  lemma FeedField(s: QState, p: Pair, decode: string -> Option<string>)
    requires s.state == 0 && s.buffer == [] && Separable(p)
    ensures Feed(s, FieldBytes(p), decode) == (s.(key := Latin1(p.key), buffer := Octets(p.value), state := 1), false)
  {
    var k := Octets(p.key);
    var v := Octets(p.value);
    assert FieldBytes(p) == k + ([Octet(EQ)] + v);
    FeedAppend(s, k, [Octet(EQ)] + v, decode);
    BufferKey(s, k, decode);
    assert s.buffer + k == k;
    var s1 := s.(buffer := k);
    assert Feed(s, k, decode) == (s1, false);
    var s2 := s.(key := Latin1(p.key), buffer := [], state := 1);
    OctetsText(p.key);
    assert Step(s1, Octet(EQ), decode) == (s2, false);
    assert ([Octet(EQ)] + v)[1..] == v;
    assert Feed(s1, [Octet(EQ)] + v, decode) == Feed(s2, v, decode);
    BufferValue(s2, v, decode);
    assert s2.buffer + v == v;
  }

  /** `key=value&` stores the pair and leaves the parser reading a key. */
  lemma FeedPair(s: QState, p: Pair, tail: seq<Item>, decode: string -> Option<string>, s2: QState)
    requires s.state == 0 && s.buffer == [] && Separable(p) && Decodes(p, decode)
    requires s2 == s.(value := "", buffer := [], key := "", state := 0,
                      result := AddPair(s.result, decode(Latin1(p.key)).value, decode(Latin1(p.value)).value))
    ensures Feed(s, FieldBytes(p) + ([Octet(AMP)] + tail), decode) == Feed(s2, tail, decode)
  {
    FeedField(s, p, decode);
    var s1 := s.(key := Latin1(p.key), buffer := Octets(p.value), state := 1);
    OctetsText(p.value);
    FeedAppend(s, FieldBytes(p), [Octet(AMP)] + tail, decode);
    FeedAppend(s1, [Octet(AMP)], tail, decode);
    assert Step(s1, Octet(AMP), decode) == (s2, false);
    assert Feed(s1, [Octet(AMP)], decode) == (s2, false);
  }

  /** A buffer of `&`-joined pairs, written and ended, stores every pair in
      order: keys never swallow a `=` or `&`, values keep their `=`. */
  lemma {:induction false} ParseQuery(s: QState, ps: seq<Pair>, decode: string -> Option<string>)
    requires s.state == 0 && s.buffer == [] && ps != []
    requires forall i :: 0 <= i < |ps| ==> Separable(ps[i]) && Decodes(ps[i], decode)
    ensures var (s1, threw) := Feed(s, Query(ps), decode);
            && !threw && s1.state == 1
            && !End(s1, decode).1 && End(s1, decode).0.result == Stored(s.result, ps, decode)
    decreases |ps|
  {
    var p := ps[0];
    FeedField(s, p, decode);
    var s1 := s.(key := Latin1(p.key), buffer := Octets(p.value), state := 1);
    OctetsText(p.value);
    var r1 := AddPair(s.result, decode(Latin1(p.key)).value, decode(Latin1(p.value)).value);
    if |ps| == 1 {
      assert Stored(s.result, ps, decode) == r1;
    } else {
      var rest := ps[1..];
      var s2 := s1.(value := "", buffer := [], result := r1, key := "", state := 0);
      assert Query(ps) == FieldBytes(p) + ([Octet(AMP)] + Query(rest));
      FeedPair(s, p, Query(rest), decode, s2);
      forall i | 0 <= i < |rest|
        ensures Separable(rest[i]) && Decodes(rest[i], decode)
      {
        assert rest[i] == ps[i + 1];
      }
      ParseQuery(s2, rest, decode);
    }
  }

  // ---------------------------------------------------------------------
  // Strings
  // ---------------------------------------------------------------------

  /** `QSParser.parse` is given a string, whose characters never equal the
      numbers 38 and 61: nothing is split, the whole input is buffered as one
      key made of char codes below 10 (a digit's value, else 0), and the
      result has at most that one property, with the value decoded from "". */
  lemma StringInputIsOneKey(t: string, decode: string -> Option<string>)
    requires t != ""
    ensures Feed(Initial(), Units(t), decode) == (Initial().(buffer := Units(t)), false)
    ensures forall k :: 0 <= k < |t| ==> FromCharCodes(Units(t))[k] as int < 10
    ensures Parse(Some(t), decode) ==
              (var key := decode(FromCharCodes(Units(t)));
               var value := decode("");
               if key.None? || value.None? then None
               else if key.value == "" then Some(map[])
               else Some(AddPair(map[], key.value, value.value)))
    ensures Parse(Some(t), decode).Some? ==> |Parse(Some(t), decode).value.Keys| <= 1
  {
    BufferKey(Initial(), Units(t), decode);
    assert [] + Units(t) == Units(t);
    var key := decode(FromCharCodes(Units(t)));
    var value := decode("");
    if key.Some? && value.Some? && key.value != "" {
      var r := AddPair(map[], key.value, value.value);
      assert r.Keys == {Name(key.value)};
    }
  }

  // ---------------------------------------------------------------------
  // Empty keys
  // ---------------------------------------------------------------------

  /** A key that decodes to "" stores nothing and resets neither key nor
      value: with an identity decoding, `=2&b` stores "2" under `b`. */
  lemma EmptyKeyKeepsValue()
    ensures var decode := (x: string) => Some(x);
            var (s1, threw) := Feed(Initial(), Octets([EQ, 50, AMP, 98]), decode);
            !threw && !End(s1, decode).1 && End(s1, decode).0.result == map["b" := Scalar("2")]
  {
    var decode := (x: string) => Some(x);
    var data := Octets([EQ, 50, AMP, 98]);
    var s1 := Initial().(state := 1);
    assert Step(Initial(), data[0], decode) == (s1, false);
    var s2 := s1.(buffer := [Octet(50)]);
    assert data[1] == Octet(50) && s1.buffer + [Octet(50)] == [Octet(50)];
    assert Step(s1, data[1], decode) == (s2, false);
    var s3 := s1.(value := "2", state := 0);
    assert FromCharCodes([Octet(50)]) == "2";
    assert Step(s2, data[2], decode) == (s3, false);
    var s4 := s3.(buffer := [Octet(98)]);
    assert data[3] == Octet(98) && s3.buffer + [Octet(98)] == [Octet(98)];
    assert Step(s3, data[3], decode) == (s4, false);
    assert data[1..][1..][1..][1..] == [];
    assert Feed(s4, data[1..][1..][1..][1..], decode) == (s4, false);
    assert Feed(s3, data[1..][1..][1..], decode) == (s4, false);
    assert Feed(s2, data[1..][1..], decode) == (s4, false);
    assert Feed(s1, data[1..], decode) == (s4, false);
    assert Feed(Initial(), data, decode) == (s4, false);
    assert FromCharCodes([Octet(98)]) == "b";
  }
}
