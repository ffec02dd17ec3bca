/** UTF-8 as the standard library encodes it, and the byte-length truncation every
    component uses. A Dafny `char` is a Unicode scalar value, which is what a Rust `char` is,
    so a `string` here is a Rust `&str` and its byte length is a derived quantity. */
module Utf8 {
  import opened Wrappers

  type Byte = b: int | 0 <= b < 256

  function EncodeChar(c: char): (bytes: seq<Byte>)
    ensures 1 <= |bytes| <= 4
  {
    var n := c as int;
    if n < 0x80 then [n]
    else if n < 0x800 then [0xC0 + n / 64, 0x80 + n % 64]
    else if n < 0x1_0000 then [0xE0 + n / 4096, 0x80 + n / 64 % 64, 0x80 + n % 64]
    else [0xF0 + n / 262144, 0x80 + n / 4096 % 64, 0x80 + n / 64 % 64, 0x80 + n % 64]
  }

  function Width(c: char): (w: nat)
    ensures 1 <= w <= 4
  {
    |EncodeChar(c)|
  }

  /** The encoding is the shortest: the width grows exactly at the standard's limits, and the first
      byte tells it. */
  lemma WidthAndFirstByte(c: char)
    ensures Width(c) <= 1 <==> c as int < 0x80
    ensures Width(c) <= 2 <==> c as int < 0x800
    ensures Width(c) <= 3 <==> c as int < 0x1_0000
    ensures var b := EncodeChar(c)[0];
            && (Width(c) == 1 <==> b < 0x80) && (Width(c) == 2 <==> 0xC0 <= b < 0xE0)
            && (Width(c) == 3 <==> 0xE0 <= b < 0xF0) && (Width(c) == 4 <==> 0xF0 <= b)
    ensures forall i :: 0 < i < Width(c) ==> 0x80 <= EncodeChar(c)[i] < 0xC0
  {
  }

  function Encode(s: string): seq<Byte> {
    if s == [] then [] else EncodeChar(s[0]) + Encode(s[1..])
  }

  /** The length a Rust `&str` reports: bytes, not characters. */
  function ByteLen(s: string): nat {
    if s == [] then 0 else Width(s[0]) + ByteLen(s[1..])
  }

  lemma {:induction false} EncodeLength(s: string)
    ensures |Encode(s)| == ByteLen(s)
  {
    if s != [] {
      EncodeLength(s[1..]);
    }
  }

  lemma {:induction false} EncodeConcat(s: string, t: string)
    ensures Encode(s + t) == Encode(s) + Encode(t)
  {
    if s == [] {
      assert s + t == t;
    } else {
      EncodeFirst(s);
      EncodeFirst(s + t);
      assert (s + t)[1..] == s[1..] + t;
      hide EncodeChar, Encode;
      EncodeConcat(s[1..], t);
      Reassociate(EncodeChar(s[0]), Encode(s[1..]), Encode(t));
    }
  }

  lemma EncodeFirst(s: string)
    requires s != []
    ensures Encode(s) == EncodeChar(s[0]) + Encode(s[1..])
  {
    hide EncodeChar;
  }

  lemma {:induction false} ByteLenConcat(s: string, t: string)
    ensures ByteLen(s + t) == ByteLen(s) + ByteLen(t)
  {
    hide Encode, ByteLen;
    EncodeConcat(s, t);
    EncodeLength(s);
    EncodeLength(t);
    EncodeLength(s + t);
  }

  lemma {:induction false} ByteLenAtLeast(s: string)
    ensures ByteLen(s) >= |s|
  {
    if s != [] {
      ByteLenAtLeast(s[1..]);
    }
  }

  predicate Ascii(s: string) {
    forall i :: 0 <= i < |s| ==> s[i] as int < 0x80
  }

  lemma {:induction false} AsciiByteLen(s: string)
    requires Ascii(s)
    ensures ByteLen(s) == |s|
  {
    if s != [] {
      AsciiByteLen(s[1..]);
    }
  }

  // The first byte fixes the width, and the bytes of that width fix the character.
  lemma EncodeCharPrefixFree(c: char, d: char, s: seq<Byte>, t: seq<Byte>)
    requires EncodeChar(c) + s == EncodeChar(d) + t
    ensures c == d && s == t
  {
    var x, y := EncodeChar(c), EncodeChar(d);
    assert x[0] == (x + s)[0] == (y + t)[0] == y[0];
    assert |x| == |y|;
    assert x == (x + s)[..|x|] == (y + t)[..|y|] == y;
    assert s == (x + s)[|x|..] == (y + t)[|y|..] == t;
    CharOfBytes(c, d);
  }

  lemma CharOfBytes(c: char, d: char)
    requires EncodeChar(c) == EncodeChar(d)
    ensures c == d
  {
    var x, y := EncodeChar(c), EncodeChar(d);
    DecodeBytes(c);
    DecodeBytes(d);
  }

  function Decode(b: seq<int>): int
    requires 1 <= |b| <= 4
  {
    if |b| == 1 then b[0]
    else if |b| == 2 then (b[0] - 0xC0) * 64 + (b[1] - 0x80)
    else if |b| == 3 then (b[0] - 0xE0) * 4096 + (b[1] - 0x80) * 64 + (b[2] - 0x80)
    else (b[0] - 0xF0) * 262144 + (b[1] - 0x80) * 4096 + (b[2] - 0x80) * 64 + (b[3] - 0x80)
  }

  lemma DecodeBytes(c: char)
    ensures Decode(EncodeChar(c)) == c as int
  {
    var n := c as int;
    var x := EncodeChar(c);
    if n < 0x800 {
    } else if n < 0x1_0000 {
      assert n / 4096 == n / 64 / 64;
    } else {
      assert n / 4096 == n / 64 / 64;
      assert n / 262144 == n / 64 / 64 / 64;
    }
  }

  /** UTF-8 loses nothing: equal bytes come from equal text. */
  lemma {:induction false} EncodeInjective(s: string, t: string)
    requires Encode(s) == Encode(t)
    ensures s == t
  {
    if s == [] || t == [] {
      EncodeLength(s);
      EncodeLength(t);
      ByteLenAtLeast(s);
      ByteLenAtLeast(t);
    } else {
      EncodeCharPrefixFree(s[0], t[0], Encode(s[1..]), Encode(t[1..]));
      EncodeInjective(s[1..], t[1..]);
      assert s == [s[0]] + s[1..] && t == [t[0]] + t[1..];
    }
  }

  // ---- truncation at a character boundary ----

  /** The longest prefix of `s` of at most `max` bytes. */
  function Truncated(s: string, max: nat): (r: string) {
    if s == [] || Width(s[0]) > max then []
    else [s[0]] + Truncated(s[1..], max - Width(s[0]))
  }

  /** A truncated text is a prefix within the bound, nothing is cut from a text that fits,
      and one more character would not have fitted (so at most 3 bytes are wasted). */
  lemma {:induction false} TruncatedIsLongestPrefix(s: string, max: nat)
    ensures Truncated(s, max) <= s
    ensures ByteLen(Truncated(s, max)) <= max
    ensures ByteLen(s) <= max ==> Truncated(s, max) == s
    ensures ByteLen(s) > max ==>
              var n := |Truncated(s, max)|;
              n < |s| && ByteLen(Truncated(s, max)) + Width(s[n]) > max
  {
    if s == [] || Width(s[0]) > max {
    } else {
      var rest := Truncated(s[1..], max - Width(s[0]));
      TruncatedIsLongestPrefix(s[1..], max - Width(s[0]));
      assert s == [s[0]] + s[1..];
      assert ([s[0]] + rest)[1..] == rest;
    }
  }

  // The number of whole characters that end at byte `k`, when some do.
  function BoundaryIndex(s: string, k: nat): (i: int)
    ensures -1 <= i <= |s|
    ensures i >= 0 ==> ByteLen(s[..i]) == k
    ensures i == -1 ==> forall j :: 0 <= j <= |s| ==> ByteLen(s[..j]) != k
  {
    if k == 0 then assert s[..0] == []; 0
    else if s == [] || Width(s[0]) > k then
      assert forall j :: 0 < j <= |s| ==> s[..j][0] == s[0];
      -1
    else
      assert forall j :: 0 < j <= |s| ==> s[..j][0] == s[0] && s[..j][1..] == s[1..][..j - 1];
      var i := BoundaryIndex(s[1..], k - Width(s[0]));
      if i == -1 then -1 else i + 1
  }

  predicate IsCharBoundary(s: string, k: nat) {
    BoundaryIndex(s, k) >= 0
  }

  lemma {:induction false} BoundariesBelowTruncation(s: string, max: nat, i: nat)
    requires i <= |s| && ByteLen(s[..i]) <= max
    ensures i <= |Truncated(s, max)|
  {
    if i > 0 {
      assert s[..i][0] == s[0] && s[..i][1..] == s[1..][..i - 1];
      BoundariesBelowTruncation(s[1..], max - Width(s[0]), i - 1);
    }
  }

  lemma {:induction false} PrefixBytesMonotone(s: string, i: nat, j: nat)
    requires i <= j <= |s|
    ensures ByteLen(s[..i]) <= ByteLen(s[..j])
    ensures i < j ==> ByteLen(s[..i]) < ByteLen(s[..j])
  {
    assert s[..j] == s[..i] + s[i..j];
    ByteLenConcat(s[..i], s[i..j]);
    ByteLenAtLeast(s[i..j]);
  }

  /** A byte index is a boundary exactly when no continuation byte stands there. */
  lemma {:induction false} BoundaryIffNoContinuation(s: string, k: nat)
    requires k <= |Encode(s)|
    ensures IsCharBoundary(s, k) <==> k == |Encode(s)| || !(0x80 <= Encode(s)[k] < 0xC0)
  {
    if s != [] {
      EncodeFirst(s);
      WidthAndFirstByte(s[0]);
      var w := Width(s[0]);
      hide EncodeChar, Encode;
      if k >= w {
        BoundaryIffNoContinuation(s[1..], k - w);
      }
    }
  }

  /** Walks back from byte `max` to the nearest character boundary. */
  method TruncateStr(s: string, max: nat) returns (r: string)
    ensures r == Truncated(s, max)
  {
    TruncatedIsLongestPrefix(s, max);
    if ByteLen(s) <= max {
      return s;
    }
    ghost var t := Truncated(s, max);
    var end := max;
    while end > 0 && !IsCharBoundary(s, end)
      invariant ByteLen(t) <= end <= max
    {
      assert s[..|t|] == t;
      assert end != ByteLen(s[..|t|]);
      end := end - 1;
    }
    var i := BoundaryIndex(s, end);
    BoundariesBelowTruncation(s, max, i);
    PrefixBytesMonotone(s, i, |t|);
    assert s[..|t|] == t;
    r := s[..i];
  }
}
