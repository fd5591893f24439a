/** The JavaScript built-ins the parsers rely on, with the semantics they have
    for the arguments the parsers pass them: Buffer and Array `slice`, String
    `substring`, `substr`, `charAt`, `indexOf` and `trim`, the Latin-1 view of
    `String.fromCharCode` over bytes, and the UTF-8 encoding of `new Buffer(string)`. */
module Js {

  newtype byte = b: int | 0 <= b < 256

  datatype Option<+T> = None | Some(value: T)

  /** Bitwise exclusive or of two naturals, bit by bit from the lowest. */
  function XorNat(a: nat, b: nat): nat
    decreases a + b
  {
    if a == 0 && b == 0 then 0 else 2 * XorNat(a / 2, b / 2) + (a + b) % 2
  }

  function Pow2(k: nat): (r: nat)
    ensures r >= 1
  {
    if k == 0 then 1 else 2 * Pow2(k - 1)
  }

  lemma {:induction false} XorNatBound(a: nat, b: nat, k: nat)
    requires a < Pow2(k) && b < Pow2(k)
    ensures XorNat(a, b) < Pow2(k)
    decreases k
  {
    if a != 0 || b != 0 {
      assert k > 0;
      XorNatBound(a / 2, b / 2, k - 1);
    }
  }

  /** The lowest bit of `a ^ m` and the bits above it. */
  lemma XorNatHalves(a: nat, m: nat)
    ensures XorNat(a, m) / 2 == XorNat(a / 2, m / 2)
    ensures XorNat(a, m) % 2 == (a + m) % 2
  {
    if a == 0 && m == 0 {
      assert XorNat(a / 2, m / 2) == 0;
    }
  }

  lemma {:induction false} XorNatInvolutive(a: nat, m: nat)
    ensures XorNat(XorNat(a, m), m) == a
    decreases a + m
  {
    var c := XorNat(a, m);
    var x := XorNat(c, m);
    if a != 0 || m != 0 {
      XorNatHalves(a, m);
      XorNatHalves(c, m);
      XorNatInvolutive(a / 2, m / 2);
      assert x / 2 == a / 2;
      assert x % 2 == a % 2 by {
        SameParity(a, m, c);
      }
      assert x == 2 * (x / 2) + x % 2;
    }
  }

  lemma SameParity(a: nat, m: nat, c: nat)
    requires c % 2 == (a + m) % 2
    ensures (c + m) % 2 == a % 2
  {
  }

  /** Bitwise exclusive or of two bytes (the `^` operator on Buffer elements). */
  function Xor(a: byte, b: byte): byte
  {
    XorNatBound(a as nat, b as nat, 8);
    XorNat(a as nat, b as nat) as byte
  }

  /** Masking a byte twice with the same key byte restores it. */
  lemma XorInvolutive(a: byte, m: byte)
    ensures Xor(Xor(a, m), m) == a
  {
    XorNatInvolutive(a as nat, m as nat);
  }

  /** `buf.slice(start, end)` for non-negative arguments: both ends are clamped to
      the length and an end before the start gives the empty sequence. */
  function Slice<T>(s: seq<T>, start: nat, end: nat): (r: seq<T>)
    ensures start <= end <= |s| ==> r == s[start..end]
    ensures end <= start ==> r == []
    ensures |r| <= |s|
  {
    var e := if end <= |s| then end else |s|;
    if start >= e then [] else s[start..e]
  }

  /** `buf.slice(start)` for a non-negative start. */
  function SliceFrom<T>(s: seq<T>, start: nat): (r: seq<T>)
    ensures start <= |s| ==> r == s[start..]
    ensures start >= |s| ==> r == []
  {
    if start <= |s| then s[start..] else []
  }

  /** `s.charAt(i)`: the one-character string at i, or "" past the end. */
  function CharAt(s: string, i: nat): (r: string)
    ensures i < |s| <==> r != ""
    ensures i < |s| ==> r == [s[i]]
  {
    if i < |s| then [s[i]] else ""
  }

  /** `s.substr(start, length)` for non-negative arguments. */
  function Substr(s: string, start: nat, length: nat): (r: string)
    ensures start + length <= |s| ==> r == s[start..start + length]
    ensures |r| <= length
    ensures start + length > |s| && length > 0 ==> |r| < length
  {
    if start >= |s| then ""
    else if start + length <= |s| then s[start..start + length]
    else s[start..]
  }

  /** `s.substring(a, b)`: negative arguments count as 0, arguments past the end
      as the length, and the two are swapped when a > b. */
  function Substring(s: string, a: int, b: int): (r: string)
    ensures 0 <= a <= b <= |s| ==> r == s[a..b]
    ensures 0 <= b <= a <= |s| ==> r == s[b..a]
  {
    var x := if a < 0 then 0 else if a > |s| then |s| else a;
    var y := if b < 0 then 0 else if b > |s| then |s| else b;
    if x <= y then s[x..y] else s[y..x]
  }

  /** True when `pat` occurs in `s` starting at position k. */
  predicate At<T(==)>(s: seq<T>, k: nat, pat: seq<T>)
  {
    k + |pat| <= |s| && s[k..k + |pat|] == pat
  }

  /** Comparing `s.substr(k, pat.length)` with a pattern is asking whether it
      occurs at k. */
  lemma SubstrAt(s: string, k: nat, pat: string)
    requires |pat| > 0
    ensures Substr(s, k, |pat|) == pat <==> At(s, k, pat)
  {
  }

  /** `s.indexOf(pat, from)` for a non-empty pattern: the first occurrence at
      or after `from`, or -1. */
  function IndexOf<T(==)>(s: seq<T>, pat: seq<T>, from: nat): (r: int)
    requires |pat| > 0
    ensures r == -1 || (from <= r && r + |pat| <= |s|)
    decreases |s| - from
  {
    if from + |pat| > |s| then -1
    else if At(s, from, pat) then from
    else IndexOf(s, pat, from + 1)
  }

  /** What `indexOf` finds is an occurrence with none before it, and -1 means
      there is none at all. */
  lemma {:induction false} IndexOfFacts<T>(s: seq<T>, pat: seq<T>, from: nat)
    requires |pat| > 0
    ensures var r := IndexOf(s, pat, from);
            && (r == -1 || At(s, r, pat))
            && (r >= 0 ==> forall k :: from <= k < r ==> !At(s, k, pat))
            && (r == -1 ==> forall k :: from <= k ==> !At(s, k, pat))
    decreases |s| - from
  {
    if from + |pat| <= |s| && !At(s, from, pat) {
      IndexOfFacts(s, pat, from + 1);
    }
  }

  /** The characters `String.prototype.trim` removes that a Latin-1 string can
      hold: TAB, LF, VT, FF, CR, SPACE and NO-BREAK SPACE. */
  predicate IsJsSpace(c: char)
  {
    c == '\t' || c == '\n' || c == '\U{000B}' || c == '\U{000C}' || c == '\r' || c == ' ' || c == '\U{00A0}'
  }

  function TrimStart(s: string): (r: string)
    ensures |r| <= |s| && r == s[|s| - |r|..]
    ensures r == [] || !IsJsSpace(r[0])
    ensures forall k :: 0 <= k < |s| - |r| ==> IsJsSpace(s[k])
  {
    if s != [] && IsJsSpace(s[0]) then TrimStart(s[1..]) else s
  }

  function TrimEnd(s: string): (r: string)
    ensures |r| <= |s| && r == s[..|r|]
    ensures r == [] || !IsJsSpace(r[|r| - 1])
    ensures forall k :: |r| <= k < |s| ==> IsJsSpace(s[k])
  {
    if s != [] && IsJsSpace(s[|s| - 1]) then TrimEnd(s[..|s| - 1]) else s
  }

  /** `s.trim()`. */
  function Trim(s: string): (r: string)
    ensures r == [] || (!IsJsSpace(r[0]) && !IsJsSpace(r[|r| - 1]))
    ensures exists i, j :: 0 <= i <= j <= |s| && r == s[i..j]
  {
    var t := TrimStart(s);
    var r := TrimEnd(t);
    assert r == s[|s| - |t|..|s| - |t| + |r|];
    r
  }

  /** `String.fromCharCode.apply(String, bytes)`: every byte becomes the
      character with that code. */
  function Latin1(bytes: seq<byte>): (r: string)
    ensures |r| == |bytes|
    ensures forall k :: 0 <= k < |bytes| ==> r[k] as int == bytes[k] as int
  {
    seq(|bytes|, k requires 0 <= k < |bytes| => (bytes[k] as int) as char)
  }

  /** The bytes of the string `s`, one per character, when every character is below 256. */
  function Latin1Bytes(s: string): (r: seq<byte>)
    requires forall k :: 0 <= k < |s| ==> s[k] as int < 256
    ensures Latin1(r) == s
  {
    var r := seq(|s|, k requires 0 <= k < |s| => s[k] as int as byte);
    assert Latin1(r) == s;
    r
  }

  /** The UTF-8 encoding of one Unicode scalar value. */
  function Utf8Char(c: char): (r: seq<byte>)
    ensures 1 <= |r| <= 4
    ensures (c as int < 0x80) <==> |r| == 1
    ensures c as int < 0x80 ==> r[0] as int == c as int
    ensures |r| > 1 ==> r[0] >= 0xC0
  {
    var n := c as int;
    if n < 0x80 then [n as byte]
    else if n < 0x800 then [(0xC0 + n / 0x40) as byte, (0x80 + n % 0x40) as byte]
    else if n < 0x10000 then
      [(0xE0 + n / 0x1000) as byte, (0x80 + (n / 0x40) % 0x40) as byte, (0x80 + n % 0x40) as byte]
    else
      [(0xF0 + (n / 0x40000) % 8) as byte, (0x80 + (n / 0x1000) % 0x40) as byte,
       (0x80 + (n / 0x40) % 0x40) as byte, (0x80 + n % 0x40) as byte]
  }

  /** `new Buffer(s)`: the UTF-8 encoding of a string. */
  function Utf8(s: string): (r: seq<byte>)
    ensures |r| >= |s|
  {
    if s == [] then [] else Utf8Char(s[0]) + Utf8(s[1..])
  }

  lemma {:induction false} Utf8Append(a: string, b: string)
    ensures Utf8(a + b) == Utf8(a) + Utf8(b)
  {
    if a != [] {
      assert (a + b)[0] == a[0];
      assert (a + b)[1..] == a[1..] + b;
      Utf8Append(a[1..], b);
      calc {
        Utf8(a + b);
        Utf8Char(a[0]) + Utf8(a[1..] + b);
        Utf8Char(a[0]) + (Utf8(a[1..]) + Utf8(b));
        Utf8(a) + Utf8(b);
      }
    } else {
      assert a + b == b;
    }
  }

  /** ASCII case folding, the only folding a JavaScript `/i` regular
      expression without the `u` flag applies to the ASCII letters. */
  function LowerAscii(c: char): (r: char)
    ensures 'A' <= c <= 'Z' ==> r as int == c as int + 32
    ensures !('A' <= c <= 'Z') ==> r == c
  {
    if 'A' <= c <= 'Z' then (c as int + 32) as char else c
  }

  predicate EqualsIgnoreCase(a: string, b: string)
  {
    |a| == |b| && forall k :: 0 <= k < |a| ==> LowerAscii(a[k]) == LowerAscii(b[k])
  }
}
