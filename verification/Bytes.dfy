/** Byte strings and the little-endian words stored in them. */
module Bytes {

  type Byte = x: int | 0 <= x < 256

  const WORD_LIMIT := 0x1_0000_0000

  /** The 32-bit little-endian word at offset `o`. */
  function Word(s: seq<Byte>, o: nat): (w: nat)
    requires o + 4 <= |s|
    ensures w < WORD_LIMIT
  {
    (s[o] as int) + 0x100 * (s[o + 1] as int) + 0x1_0000 * (s[o + 2] as int) + 0x100_0000 * (s[o + 3] as int)
  }

  function WordBytes(w: nat): (b: seq<Byte>)
    requires w < WORD_LIMIT
    ensures |b| == 4 && Word(b, 0) == w
  {
    var q1 := w / 0x100;
    var q2 := q1 / 0x100;
    [w % 0x100, q1 % 0x100, q2 % 0x100, q2 / 0x100]
  }

  /** `s` with the bytes from `o` on overwritten by `b`. */
  function Splice(s: seq<Byte>, o: nat, b: seq<Byte>): (r: seq<Byte>)
    requires o + |b| <= |s|
    ensures |r| == |s|
    ensures forall k :: 0 <= k < |s| ==> r[k] == if o <= k < o + |b| then b[k - o] else s[k]
  {
    s[..o] + b + s[o + |b|..]
  }

  /** `s` with the word at offset `o` replaced by `w`. */
  function PutWord(s: seq<Byte>, o: nat, w: nat): (r: seq<Byte>)
    requires o + 4 <= |s| && w < WORD_LIMIT
    ensures |r| == |s|
    ensures Word(r, o) == w
    ensures forall k :: 0 <= k < |s| && !(o <= k < o + 4) ==> r[k] == s[k]
  {
    Splice(s, o, WordBytes(w))
  }
}
