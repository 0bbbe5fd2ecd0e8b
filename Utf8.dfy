/**
 * `Encoding.UTF8.GetBytes` on the characters of a string, and the decoding that undoes it,
 * so that the request body is known to carry exactly the request content.
 */
module Utf8 {
  import opened Wrappers

  type Byte = b: int | 0 <= b < 256

  /** A continuation byte `10xxxxxx` holding the six bits of `n` selected by `n % 64`. */
  function Cont(n: nat): Byte { 0x80 + n % 64 }

  /** The bytes of one character: one to four, by the size of its scalar value. */
  function EncodeChar(c: char): (b: seq<Byte>)
    ensures 1 <= |b| <= 4
    ensures |b| == 1 <==> (c as int) < 0x80
  {
    var n := c as int;
    if n < 0x80 then [n]
    else if n < 0x800 then [0xC0 + n / 64, Cont(n)]
    else if n < 0x1_0000 then [0xE0 + n / 4096, Cont(n / 64), Cont(n)]
    else [0xF0 + n / 262144, Cont(n / 4096), Cont(n / 64), Cont(n)]
  }

  /** `Encoding.UTF8.GetBytes(s)`. */
  function Encode(s: string): seq<Byte>
  {
    if s == [] then [] else EncodeChar(s[0]) + Encode(s[1..])
  }

  predicate IsCont(b: Byte) { 0x80 <= b < 0xC0 }

  /** The length of the sequence a lead byte starts, 0 for a byte that cannot lead. */
  function SequenceLength(b: Byte): nat
  {
    if b < 0x80 then 1
    else if 0xC0 <= b < 0xE0 then 2
    else if 0xE0 <= b < 0xF0 then 3
    else if 0xF0 <= b < 0xF8 then 4
    else 0
  }

  /** The scalar value a sequence of `len` bytes carries (lead bits, then six bits per byte). */
  function ScalarOf(bs: seq<Byte>, len: nat): int
    requires 1 <= len <= 4 && len <= |bs|
  {
    var b: seq<int> := bs;
    if len == 1 then b[0]
    else if len == 2 then (b[0] - 0xC0) * 64 + (b[1] - 0x80)
    else if len == 3 then (b[0] - 0xE0) * 4096 + (b[1] - 0x80) * 64 + (b[2] - 0x80)
    else (b[0] - 0xF0) * 262144 + (b[1] - 0x80) * 4096 + (b[2] - 0x80) * 64 + (b[3] - 0x80)
  }

  predicate IsScalar(n: int) { 0 <= n < 0xD800 || 0xE000 <= n < 0x11_0000 }

  /** Decoding: a character per sequence; a malformed sequence or a non-scalar value fails. */
  function Decode(bs: seq<Byte>): Option<string>
    decreases |bs|
  {
    if bs == [] then Some([])
    else
      var len := SequenceLength(bs[0]);
      if len == 0 || |bs| < len || exists k :: 1 <= k < len && !IsCont(bs[k]) then None
      else
        var n := ScalarOf(bs, len);
        if !IsScalar(n) then None
        else
          var rest :- Decode(bs[len..]);
          Some([n as char] + rest)
  }

  /** One character's bytes start a sequence of their own length, which carries the character. */
  lemma EncodeCharShape(c: char)
    ensures var b := EncodeChar(c);
      && SequenceLength(b[0]) == |b|
      && (forall k :: 1 <= k < |b| ==> IsCont(b[k]))
      && ScalarOf(b, |b|) == c as int
  {
    var n := c as int;
    if 0x800 <= n < 0x1_0000 {
      ThreeBytes(n);
    } else if 0x1_0000 <= n {
      FourBytes(n);
    }
  }

  lemma ThreeBytes(n: nat)
    requires 0x800 <= n < 0x1_0000
    ensures (n / 4096) * 4096 + ((n / 64) % 64) * 64 + n % 64 == n
  {
    assert n / 64 == (n / 4096) * 64 + (n / 64) % 64;
  }

  lemma FourBytes(n: nat)
    requires 0x1_0000 <= n < 0x11_0000
    ensures (n / 262144) * 262144 + ((n / 4096) % 64) * 4096 + ((n / 64) % 64) * 64 + n % 64 == n
  {
    assert n / 4096 == (n / 262144) * 64 + (n / 4096) % 64;
    assert n / 64 == (n / 4096) * 64 + (n / 64) % 64;
  }

  /** Decoding one character's bytes, followed by anything, gives the character first. */
  lemma DecodeChar(c: char, rest: seq<Byte>)
    ensures Decode(EncodeChar(c) + rest) ==
      match Decode(rest) { case Some(t) => Some([c] + t) case None => None }
  {
    var b := EncodeChar(c);
    var bs := b + rest;
    EncodeCharShape(c);
    assert bs[..|b|] == b && bs[|b|..] == rest;
    assert forall k :: 1 <= k < |b| ==> bs[k] == b[k];
    assert ScalarOf(bs, |b|) == ScalarOf(b, |b|);
  }

  /** What `GetBytes` produces decodes back to the string. */
  lemma {:induction false} DecodeEncode(s: string)
    ensures Decode(Encode(s)) == Some(s)
  {
    if s != [] {
      DecodeEncode(s[1..]);
      DecodeChar(s[0], Encode(s[1..]));
      assert [s[0]] + s[1..] == s;
    }
  }

  /**
   * The byte count: at least one byte and at most four per character, and exactly one per
   * character precisely when every character is ASCII.
   */
  lemma {:induction false} EncodeLength(s: string)
    ensures |s| <= |Encode(s)| <= 4 * |s|
    ensures |Encode(s)| == |s| <==> forall i :: 0 <= i < |s| ==> (s[i] as int) < 0x80
  {
    if s != [] {
      EncodeLength(s[1..]);
      assert forall i :: 1 <= i < |s| ==> s[1..][i - 1] == s[i];
    }
  }
}
