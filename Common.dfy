/** Types shared by the camera stream model and the PPS model. */
module Common {

  /** An unsigned 8-bit value, as `uint8_t` in the stream buffers. */
  newtype byte = x: int | 0 <= x < 256

  datatype Option<T> = None | Some(value: T)

  /** The subset of `T_DjiReturnCode` values the modelled code returns. */
  datatype ReturnCode = Success | SystemError | InvalidParameter | Busy

  /** The 4-byte start code `00 00 00 01` (zero_byte followed by
      start_code_prefix_one_3bytes, ITU-T H.264 Annex B, section B.1). */
  const START_CODE: seq<byte> := [0, 0, 0, 1]

  /** A start code begins at offset `j` of `s` and lies wholly inside `s`. */
  predicate StartCodeAt(s: seq<byte>, j: int)
  {
    0 <= j && j + 4 <= |s| && s[j] == 0 && s[j + 1] == 0 && s[j + 2] == 0 && s[j + 3] == 1
  }

  /** Concatenation of a sequence of byte strings, in order. */
  function Flatten(ss: seq<seq<byte>>): seq<byte>
  {
    if ss == [] then [] else ss[0] + Flatten(ss[1..])
  }

  lemma {:induction false} FlattenAppend(a: seq<seq<byte>>, b: seq<seq<byte>>)
    ensures Flatten(a + b) == Flatten(a) + Flatten(b)
  {
    if a == [] {
      assert a + b == b;
    } else {
      assert (a + b)[1..] == a[1..] + b;
      FlattenAppend(a[1..], b);
    }
  }

  /** Two start codes never overlap: the only 1 in `00 00 00 01` is its last byte. */
  lemma StartCodesApart(s: seq<byte>, i: int, j: int)
    requires StartCodeAt(s, i) && StartCodeAt(s, j) && i < j
    ensures i + 4 <= j
  {
  }

  /** A slice of a prefix is the same slice of the whole. */
  lemma SliceOfPrefix<T>(a: seq<T>, n: nat, i: nat, j: nat)
    requires i <= j <= n <= |a|
    ensures a[..n][i..j] == a[i..j]
  {
  }

  lemma AppendAssoc<T>(a: seq<T>, b: seq<T>, c: seq<T>)
    ensures a + b + c == a + (b + c)
  {
  }
}
