/** What `DjiTest_ProcessSingleNALUnit` does with one unit, as pure
    specifications: the annotated frame, the fragments handed to the
    transport, and how many bytes the fwrite retry loop gets into the
    recording file. */
module Delivery {
  import opened Common

  /** The access-unit-delimiter NAL unit appended to every frame: a start
      code, then nal_unit_type 9 and an AUD payload with its stop bit
      (section 7.3.2.4 of ITU-T H.264). */
  const AUD_TRAILER: seq<byte> := [0x00, 0x00, 0x00, 0x01, 0x09, 0x10]

  /** Frames larger than this are split for the transport. */
  const MAX_UNFRAGMENTED: nat := 60000

  /** The largest fragment handed to one transport send. */
  const FRAGMENT_SIZE: nat := 6000

  function Annotate(unit: seq<byte>): seq<byte>
  {
    unit + AUD_TRAILER
  }

  /** Consecutive slices of at most FRAGMENT_SIZE bytes, in offset order. */
  function Chunks(f: seq<byte>): seq<seq<byte>>
    decreases |f|
  {
    if f == [] then []
    else
      var k := if |f| > FRAGMENT_SIZE then FRAGMENT_SIZE else |f|;
      [f[..k]] + Chunks(f[k..])
  }

  /** The buffers one frame is sent as: a single send up to
      MAX_UNFRAGMENTED bytes, otherwise its chunks. */
  function Fragments(frame: seq<byte>): seq<seq<byte>>
  {
    if |frame| > MAX_UNFRAGMENTED then Chunks(frame) else [frame]
  }

  /** The chunks from `offset` on: one chunk, then the chunks after it. */
  lemma ChunksFrom(f: seq<byte>, offset: nat)
    requires offset < |f|
    ensures var k := if |f| - offset > FRAGMENT_SIZE then FRAGMENT_SIZE else |f| - offset;
      Chunks(f[offset..]) == [f[offset..offset + k]] + Chunks(f[offset + k..])
  {
    var k := if |f| - offset > FRAGMENT_SIZE then FRAGMENT_SIZE else |f| - offset;
    assert f[offset..][..k] == f[offset..offset + k];
    assert f[offset..][k..] == f[offset + k..];
  }

  lemma {:induction false} ChunksReassemble(f: seq<byte>)
    ensures Flatten(Chunks(f)) == f
    decreases |f|
  {
    if f != [] {
      var k := if |f| > FRAGMENT_SIZE then FRAGMENT_SIZE else |f|;
      ChunksReassemble(f[k..]);
      assert Chunks(f)[1..] == Chunks(f[k..]);
      assert f == f[..k] + f[k..];
    }
  }

  lemma {:induction false} ChunksSized(f: seq<byte>)
    ensures forall k :: 0 <= k < |Chunks(f)| ==> 0 < |Chunks(f)[k]| <= FRAGMENT_SIZE
    ensures |Chunks(f)| == (|f| + FRAGMENT_SIZE - 1) / FRAGMENT_SIZE
    decreases |f|
  {
    if f != [] {
      var k := if |f| > FRAGMENT_SIZE then FRAGMENT_SIZE else |f|;
      ChunksSized(f[k..]);
      forall i | 0 < i < |Chunks(f)| ensures 0 < |Chunks(f)[i]| <= FRAGMENT_SIZE {
        assert Chunks(f)[i] == Chunks(f[k..])[i - 1];
      }
    }
  }

  /** The fragments of a frame put back together are the frame; a frame over
      MAX_UNFRAGMENTED bytes goes out as ceil(n / FRAGMENT_SIZE) non-empty
      fragments of at most FRAGMENT_SIZE bytes, any other frame in one send. */
  lemma FragmentsOfFrame(frame: seq<byte>)
    ensures Flatten(Fragments(frame)) == frame
    ensures |frame| <= MAX_UNFRAGMENTED ==> Fragments(frame) == [frame]
    ensures |frame| > MAX_UNFRAGMENTED ==>
      && |Fragments(frame)| == (|frame| + FRAGMENT_SIZE - 1) / FRAGMENT_SIZE
      && forall k :: 0 <= k < |Fragments(frame)| ==> 0 < |Fragments(frame)[k]| <= FRAGMENT_SIZE
  {
    ChunksReassemble(frame);
    ChunksSized(frame);
    if |frame| <= MAX_UNFRAGMENTED {
      assert Flatten([frame]) == frame + Flatten([]);
    }
  }

  // ---- The fwrite retry loop -----------------------------------------------

  /** Each fwrite call accepts the next number of bytes from the script (at
      most what is asked for); 0, or an exhausted script, is a write error.
      The result is the number of bytes written and the script left over. */
  function Drain(script: seq<nat>, n: nat): (r: (nat, seq<nat>))
    decreases |script|
    ensures r.0 <= n
  {
    if n == 0 then (0, script)
    else if script == [] then (0, [])
    else if script[0] == 0 then (0, script[1..])
    else
      var k := if script[0] < n then script[0] else n;
      var rest := Drain(script[1..], n - k);
      (k + rest.0, rest.1)
  }

  /** How many bytes the file accepts before its first error. */
  function Accepted(script: seq<nat>): nat
  {
    if script == [] || script[0] == 0 then 0 else script[0] + Accepted(script[1..])
  }

  /** The retry loop writes everything the file accepts, up to the frame
      length: all of it when the file accepts that much. */
  lemma {:induction false} DrainWritesAccepted(script: seq<nat>, n: nat)
    ensures Drain(script, n).0 == if Accepted(script) < n then Accepted(script) else n
    decreases |script|
  {
    if n != 0 && script != [] && script[0] != 0 {
      var k := if script[0] < n then script[0] else n;
      DrainWritesAccepted(script[1..], n - k);
    }
  }
}
