/** Base16 encoding as section 8 of RFC 4648 defines it, with the lower-case
    alphabet that Go's `encoding/hex` emits; decoding accepts both cases. */
module Hex {
  import opened Wrappers
  import opened Bytes

  type nibble = x: int | 0 <= x < 16

  const Alphabet: string := "0123456789abcdef"

  /** `hex.EncodeToString`: two characters per byte, high nibble first. */
  function Encode(b: seq<byte>): (s: string)
    ensures |s| == 2 * |b|
  {
    if b == [] then [] else [Alphabet[b[0] / 16], Alphabet[b[0] % 16]] + Encode(b[1..])
  }

  /** The value of one hexadecimal digit of either case. */
  function DigitValue(c: char): Option<nibble>
  {
    if '0' <= c <= '9' then Some(c as int - '0' as int)
    else if 'a' <= c <= 'f' then Some(c as int - 'a' as int + 10)
    else if 'A' <= c <= 'F' then Some(c as int - 'A' as int + 10)
    else None
  }

  /** The byte whose high nibble is `hi` and low nibble `lo`. */
  function Combine(hi: nibble, lo: nibble): (x: byte)
    ensures x / 16 == hi && x % 16 == lo
  {
    hi as int * 16 + lo as int
  }

  /** `hex.DecodeString`: None for an odd length or a character outside the alphabet. */
  function Decode(s: string): Option<seq<byte>>
    decreases |s|
  {
    if |s| == 0 then Some([])
    else if |s| == 1 || DigitValue(s[0]).None? || DigitValue(s[1]).None? then None
    else
      var rest := Decode(s[2..]);
      if rest.None? then None
      else Some([Combine(DigitValue(s[0]).value, DigitValue(s[1]).value)] + rest.value)
  }

  lemma DigitOfAlphabet(d: nibble)
    ensures DigitValue(Alphabet[d]) == Some(d)
  {
  }

  /** Decoding two alphabet digits in front of a text. */
  lemma DecodePair(hi: nibble, lo: nibble, rest: string)
    ensures Decode([Alphabet[hi], Alphabet[lo]] + rest)
         == if Decode(rest).Some? then Some([Combine(hi, lo)] + Decode(rest).value) else None
  {
    var s := [Alphabet[hi], Alphabet[lo]] + rest;
    DigitOfAlphabet(hi);
    DigitOfAlphabet(lo);
    assert s[0] == Alphabet[hi] && s[1] == Alphabet[lo] && s[2..] == rest;
  }

  lemma CombineSplit(x: byte)
    ensures 0 <= x / 16 < 16 && Combine(x / 16, x % 16) == x
  {
  }

  lemma EncodeFirst(b: seq<byte>)
    requires b != []
    ensures Encode(b) == [Alphabet[b[0] / 16], Alphabet[b[0] % 16]] + Encode(b[1..])
  {
  }

  /** The encoding holds two alphabet characters per byte, high nibble first. */
  lemma {:induction false} EncodeLayout(b: seq<byte>)
    ensures forall i :: 0 <= i < |b| ==>
      Encode(b)[2 * i] == Alphabet[b[i] / 16] && Encode(b)[2 * i + 1] == Alphabet[b[i] % 16]
    ensures forall i :: 0 <= i < |Encode(b)| ==> Encode(b)[i] in Alphabet
  {
    if b != [] {
      var s, rest := Encode(b), Encode(b[1..]);
      EncodeFirst(b);
      EncodeLayout(b[1..]);
      assert forall i :: 2 <= i < |s| ==> s[i] == rest[i - 2];
      forall i | 1 <= i < |b|
        ensures s[2 * i] == Alphabet[b[i] / 16] && s[2 * i + 1] == Alphabet[b[i] % 16]
      {
        assert b[i] == b[1..][i - 1];
        assert s[2 * i] == rest[2 * (i - 1)] && s[2 * i + 1] == rest[2 * (i - 1) + 1];
      }
    }
  }

  /** Decoding the encoding gives the bytes back. */
  lemma {:induction false} RoundTrip(b: seq<byte>)
    ensures Decode(Encode(b)) == Some(b)
  {
    if b != [] {
      CombineSplit(b[0]);
      EncodeFirst(b);
      DecodePair(b[0] / 16, b[0] % 16, Encode(b[1..]));
      RoundTrip(b[1..]);
      assert [b[0]] + b[1..] == b;
    }
  }
}
