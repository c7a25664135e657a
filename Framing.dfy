/** The start-code framer as a pure specification: what
    `DjiTest_ProcessCompleteNALUnits` emits and how many bytes it consumes,
    and how that relates to the byte stream fed through the accumulator. */
module Framing {
  import opened Common

  /** The units handed to the per-unit processor, in order, and the number of
      leading bytes reported as consumed. */
  datatype Framed = Framed(units: seq<seq<byte>>, consumed: nat)

  /** The first offset `p >= from` at which a start code begins (the inner
      search loop of the framer). */
  function FirstStartFrom(s: seq<byte>, from: nat): (r: Option<nat>)
    decreases |s| - from
    ensures r.Some? ==> from <= r.value && StartCodeAt(s, r.value)
    ensures r.Some? ==> forall j :: from <= j < r.value ==> !StartCodeAt(s, j)
    ensures r.None? ==> forall j :: from <= j ==> !StartCodeAt(s, j)
  {
    if from + 4 > |s| then None
    else if StartCodeAt(s, from) then Some(from)
    else FirstStartFrom(s, from + 1)
  }

  /** Framing from offset `pos` on: a start code with a later start code
      yields the unit between them; a start code without one stops the scan;
      any other byte is skipped and counted as consumed. */
  function FrameFrom(s: seq<byte>, pos: nat): (r: Framed)
    requires pos <= |s|
    decreases |s| - pos
    ensures pos <= r.consumed <= |s|
  {
    if |s| - pos < 4 then Framed([], pos)
    else if StartCodeAt(s, pos) then
      match FirstStartFrom(s, pos + 4)
      case None => Framed([], pos)
      case Some(e) =>
        var rest := FrameFrom(s, e);
        Framed([s[pos..e]] + rest.units, rest.consumed)
    else FrameFrom(s, pos + 1)
  }

  function Frame(s: seq<byte>): Framed
  {
    FrameFrom(s, 0)
  }

  /** One step of the scan at `pos`, as the imperative framer takes it:
      a skipped byte, a unit up to the next start code, or the stop. */
  lemma FrameFromStep(s: seq<byte>, pos: nat)
    requires pos <= |s|
    ensures |s| - pos < 4 ==> FrameFrom(s, pos) == Framed([], pos)
    ensures |s| - pos >= 4 && !StartCodeAt(s, pos) ==> FrameFrom(s, pos) == FrameFrom(s, pos + 1)
    ensures StartCodeAt(s, pos) && FirstStartFrom(s, pos + 4).None? ==>
      FrameFrom(s, pos) == Framed([], pos)
    ensures StartCodeAt(s, pos) && FirstStartFrom(s, pos + 4).Some? ==>
      var e := FirstStartFrom(s, pos + 4).value;
      FrameFrom(s, pos) == Framed([s[pos..e]] + FrameFrom(s, e).units, FrameFrom(s, e).consumed)
  {
  }

  /** A unit as emitted: it begins with a start code, has at least the four
      bytes of it, and no other start code begins inside it. */
  predicate WellFormedUnit(u: seq<byte>)
  {
    |u| >= 4 && StartCodeAt(u, 0) && forall j :: 0 < j < |u| ==> !StartCodeAt(u, j)
  }

  /** What the framer leaves unconsumed: fewer than four bytes, or a start
      code with no later start code (the partial unit awaiting its end). */
  predicate Tail(s: seq<byte>, c: int)
  {
    |s| - c < 4 || (StartCodeAt(s, c) && forall j :: c < j < |s| ==> !StartCodeAt(s, j))
  }

  lemma StartCodeInSlice(s: seq<byte>, a: int, b: int, j: int)
    requires 0 <= a <= b <= |s| && 0 <= j && j + 4 <= b - a
    ensures StartCodeAt(s[a..b], j) == StartCodeAt(s, a + j)
  {
  }

  /** The bytes between a start code and the next one form a well-formed unit. */
  lemma {:induction false} UnitBetweenStartCodes(s: seq<byte>, pos: nat, e: nat)
    requires StartCodeAt(s, pos) && FirstStartFrom(s, pos + 4) == Some(e)
    ensures WellFormedUnit(s[pos..e])
  {
    var u := s[pos..e];
    StartCodeInSlice(s, pos, e, 0);
    forall j | 0 < j < |u| ensures !StartCodeAt(u, j) {
      if StartCodeAt(u, j) {
        StartCodeInSlice(s, pos, e, j);
        if j < 4 {
          StartCodesApart(s, pos, pos + j);
        }
        assert false;
      }
    }
  }

  /** The unconsumed remainder is a Tail. */
  lemma {:induction false} FrameFromTail(s: seq<byte>, pos: nat)
    requires pos <= |s|
    ensures Tail(s, FrameFrom(s, pos).consumed)
    decreases |s| - pos
  {
    if |s| - pos < 4 {
    } else if StartCodeAt(s, pos) {
      match FirstStartFrom(s, pos + 4)
      case None =>
        forall j | pos < j < |s| ensures !StartCodeAt(s, j) {
          if j < pos + 4 && StartCodeAt(s, j) {
            StartCodesApart(s, pos, j);
          }
        }
      case Some(e) =>
        FrameFromTail(s, e);
    } else {
      FrameFromTail(s, pos + 1);
    }
  }

  /** Layout of what the framer emits from `pos` on: the units are
      well-formed, lie contiguously in `s` just before the consumed mark,
      the last one is followed by a start code, and nothing before the first
      unit is a start code (those bytes were skipped while resynchronising). */
  ghost predicate LaidOut(s: seq<byte>, pos: nat, r: Framed)
  {
    && pos <= r.consumed - |Flatten(r.units)|
    && r.consumed <= |s|
    && s[r.consumed - |Flatten(r.units)|..r.consumed] == Flatten(r.units)
    && (forall j :: pos <= j < r.consumed - |Flatten(r.units)| ==> !StartCodeAt(s, j))
    && (forall k :: 0 <= k < |r.units| ==> WellFormedUnit(r.units[k]))
    && (r.units != [] ==> StartCodeAt(s, r.consumed))
  }

  lemma {:induction false} FrameFromLayout(s: seq<byte>, pos: nat)
    requires pos <= |s|
    ensures LaidOut(s, pos, FrameFrom(s, pos))
    decreases |s| - pos
  {
    if |s| - pos < 4 {
    } else if StartCodeAt(s, pos) {
      match FirstStartFrom(s, pos + 4)
      case None =>
      case Some(e) =>
        FrameFromLayout(s, e);
        UnitBetweenStartCodes(s, pos, e);
        LayoutStep(s, pos, e, FrameFrom(s, e));
    } else {
      FrameFromLayout(s, pos + 1);
    }
  }

  /** One unit in front of a laid-out remainder is still laid out. */
  lemma LayoutStep(s: seq<byte>, pos: nat, e: nat, rest: Framed)
    requires StartCodeAt(s, pos) && pos + 4 <= e && StartCodeAt(s, e)
    requires WellFormedUnit(s[pos..e]) && LaidOut(s, e, rest)
    ensures LaidOut(s, pos, Framed([s[pos..e]] + rest.units, rest.consumed))
  {
    var r := Framed([s[pos..e]] + rest.units, rest.consumed);
    var lead := rest.consumed - |Flatten(rest.units)|;
    assert !(e < lead) by {
      assert StartCodeAt(s, e);
    }
    assert r.units[1..] == rest.units;
    assert Flatten(r.units) == s[pos..e] + Flatten(rest.units);
    assert s[pos..rest.consumed] == s[pos..e] + s[e..rest.consumed];
    forall k | 0 <= k < |r.units| ensures WellFormedUnit(r.units[k]) {
      if k > 0 {
        assert r.units[k] == rest.units[k - 1];
      }
    }
  }

  /** The framer's contract on a whole buffer. */
  lemma FrameSpec(s: seq<byte>)
    ensures var r := Frame(s);
      && r.consumed <= |s|
      && (|s| < 4 ==> r == Framed([], 0))
      && Tail(s, r.consumed)
      && |Flatten(r.units)| <= r.consumed
      && s[r.consumed - |Flatten(r.units)|..r.consumed] == Flatten(r.units)
      && (forall j :: 0 <= j < r.consumed - |Flatten(r.units)| ==> !StartCodeAt(s, j))
      && (forall k :: 0 <= k < |r.units| ==> WellFormedUnit(r.units[k]))
      && (r.units != [] ==> StartCodeAt(s, r.consumed))
      && ((forall k :: 0 <= k <= |s| - 4 ==> !StartCodeAt(s, k)) ==>
            r == Framed([], if |s| < 4 then 0 else |s| - 3))
  {
    FrameFromTail(s, 0);
    FrameFromLayout(s, 0);
    if forall k :: 0 <= k <= |s| - 4 ==> !StartCodeAt(s, k) {
      FrameFromNoStartCode(s, 0);
    }
  }

  /** Without a start code from `pos` on, the scan skips every byte up to the
      last three and emits nothing. */
  lemma {:induction false} FrameFromNoStartCode(s: seq<byte>, pos: nat)
    requires pos <= |s|
    requires forall k :: pos <= k <= |s| - 4 ==> !StartCodeAt(s, k)
    ensures FrameFrom(s, pos) == Framed([], if |s| - pos < 4 then pos else |s| - 3)
    decreases |s| - pos
  {
    if |s| - pos >= 4 {
      FrameFromNoStartCode(s, pos + 1);
    }
  }

  // ---- Shifting and extending the input -------------------------------------

  lemma StartCodeShift(p: seq<byte>, q: seq<byte>, j: int)
    requires 0 <= j
    ensures StartCodeAt(p + q, |p| + j) == StartCodeAt(q, j)
  {
  }

  function ShiftBy(o: Option<nat>, d: nat): Option<nat>
  {
    match o
    case None => None
    case Some(e) => Some(e + d)
  }

  lemma {:induction false} FirstStartShift(p: seq<byte>, q: seq<byte>, i: nat)
    ensures FirstStartFrom(p + q, |p| + i) == ShiftBy(FirstStartFrom(q, i), |p|)
    decreases |q| - i
  {
    StartCodeShift(p, q, i);
    if i + 4 > |q| {
    } else if StartCodeAt(q, i) {
    } else {
      FirstStartShift(p, q, i + 1);
    }
  }

  /** Framing does not depend on the bytes before the scan position. */
  lemma {:induction false} FrameFromShift(p: seq<byte>, q: seq<byte>, i: nat)
    requires i <= |q|
    ensures FrameFrom(p + q, |p| + i)
         == Framed(FrameFrom(q, i).units, |p| + FrameFrom(q, i).consumed)
    decreases |q| - i
  {
    StartCodeShift(p, q, i);
    if |q| - i < 4 {
    } else if StartCodeAt(q, i) {
      FirstStartShift(p, q, i + 4);
      match FirstStartFrom(q, i + 4)
      case None =>
      case Some(e) =>
        FrameFromShift(p, q, e);
        ShiftUnitStep(p, q, i, e);
    } else {
      FrameFromShift(p, q, i + 1);
    }
  }

  lemma ShiftUnitStep(p: seq<byte>, q: seq<byte>, i: nat, e: nat)
    requires i + 4 <= e <= |q| && StartCodeAt(q, i)
    requires FirstStartFrom(q, i + 4) == Some(e)
    requires FirstStartFrom(p + q, |p| + i + 4) == Some(|p| + e)
    requires FrameFrom(p + q, |p| + e) == Framed(FrameFrom(q, e).units, |p| + FrameFrom(q, e).consumed)
    ensures FrameFrom(p + q, |p| + i)
         == Framed(FrameFrom(q, i).units, |p| + FrameFrom(q, i).consumed)
  {
    assert StartCodeAt(p + q, |p| + i);
    assert (p + q)[|p| + i..|p| + e] == q[i..e];
  }

  lemma {:induction false} FirstStartExtend(s: seq<byte>, t: seq<byte>, from: nat)
    requires FirstStartFrom(s, from).Some?
    ensures FirstStartFrom(s + t, from) == FirstStartFrom(s, from)
    decreases |s| - from
  {
    assert StartCodeAt(s + t, from) == StartCodeAt(s, from) by {
      if from + 4 <= |s| {
        assert (s + t)[from..from + 4] == s[from..from + 4];
      }
    }
    if StartCodeAt(s, from) {
    } else {
      FirstStartExtend(s, t, from + 1);
    }
  }

  /** Appending bytes does not change the decisions the framer made on the
      shorter input: it continues from where it stopped. */
  lemma {:induction false} FrameFromExtend(s: seq<byte>, t: seq<byte>, pos: nat)
    requires pos <= |s|
    ensures var r := FrameFrom(s, pos);
      var r2 := FrameFrom(s + t, r.consumed);
      FrameFrom(s + t, pos) == Framed(r.units + r2.units, r2.consumed)
    decreases |s| - pos
  {
    var st := s + t;
    if |s| - pos < 4 {
    } else {
      assert StartCodeAt(st, pos) == StartCodeAt(s, pos) by {
        assert st[pos..pos + 4] == s[pos..pos + 4];
      }
      if StartCodeAt(s, pos) {
        match FirstStartFrom(s, pos + 4)
        case None =>
        case Some(e) =>
          FirstStartExtend(s, t, pos + 4);
          assert st[pos..e] == s[pos..e];
          FrameFromExtend(s, t, e);
          var rest := FrameFrom(s, e);
          var r2 := FrameFrom(st, rest.consumed);
          assert [s[pos..e]] + rest.units + r2.units == [s[pos..e]] + (rest.units + r2.units);
      } else {
        FrameFromExtend(s, t, pos + 1);
      }
    }
  }

  /** Framing a stream in two pieces, carrying the unconsumed remainder of the
      first into the second, emits exactly the units of framing it whole. */
  lemma FrameStreaming(s: seq<byte>, t: seq<byte>)
    ensures var c := Frame(s).consumed;
      var r2 := Frame(s[c..] + t);
      Frame(s + t) == Framed(Frame(s).units + r2.units, c + r2.consumed)
  {
    var c := Frame(s).consumed;
    FrameFromExtend(s, t, 0);
    assert s + t == s[..c] + (s[c..] + t);
    FrameFromShift(s[..c], s[c..] + t, 0);
  }

  /** The accumulator invariant: if the units emitted so far are those of
      framing everything received, and the buffer holds what that framing left
      over, then after appending a chunk and framing the buffer the same holds
      of the longer stream. */
  lemma AccumulatorTracksStream(received: seq<byte>, emitted: seq<seq<byte>>,
                                buffered: seq<byte>, chunk: seq<byte>)
    requires Frame(received).units == emitted
    requires buffered == received[Frame(received).consumed..]
    ensures var r := Frame(buffered + chunk);
      && Frame(received + chunk).units == emitted + r.units
      && (buffered + chunk)[r.consumed..]
         == (received + chunk)[Frame(received + chunk).consumed..]
  {
    FrameStreaming(received, chunk);
    var c := Frame(received).consumed;
    var r := Frame(buffered + chunk);
    assert received + chunk == received[..c] + (buffered + chunk);
    assert (received + chunk)[c + r.consumed..] == (buffered + chunk)[r.consumed..];
  }

  // ---- Resynchronisation and the worked example ----------------------------

  /** Leading bytes at which no start code begins are skipped and counted as
      consumed, but contribute nothing to any unit (when at least four bytes
      follow them). */
  lemma {:induction false} LeadingJunkDiscarded(junk: seq<byte>, s: seq<byte>)
    requires |s| >= 4
    requires forall j :: 0 <= j < |junk| ==> !StartCodeAt(junk + s, j)
    ensures Frame(junk + s) == Framed(Frame(s).units, |junk| + Frame(s).consumed)
  {
    SkipTo(junk + s, 0, |junk|);
    FrameFromShift(junk, s, 0);
  }

  lemma {:induction false} SkipTo(x: seq<byte>, pos: nat, k: nat)
    requires pos <= k && k + 4 <= |x|
    requires forall j :: pos <= j < k ==> !StartCodeAt(x, j)
    ensures FrameFrom(x, pos) == FrameFrom(x, k)
    decreases k - pos
  {
    if pos < k {
      SkipTo(x, pos + 1, k);
    }
  }

  /** A well-formed unit followed by a start code is emitted as it is, and
      framing continues at that start code. */
  lemma UnitThenStartCode(u: seq<byte>, v: seq<byte>)
    requires WellFormedUnit(u) && StartCodeAt(v, 0)
    ensures Frame(u + v) == Framed([u] + Frame(v).units, |u| + Frame(v).consumed)
  {
    var x := u + v;
    assert StartCodeAt(x, 0) by { assert x[..4] == u[..4]; }
    assert StartCodeAt(x, |u|);
    forall j | 4 <= j < |u| ensures !StartCodeAt(x, j) {
      if j + 4 <= |u| {
        assert x[j..j + 4] == u[j..j + 4];
        assert !StartCodeAt(u, j);
      } else {
        assert x[j + 3] == v[j + 3 - |u|];
      }
    }
    assert FirstStartFrom(x, 4) == Some(|u|);
    assert x[0..|u|] == u;
    FrameFromShift(u, v, 0);
  }

  /** Appending `00 00 00 01 AA BB` to an empty buffer emits nothing and
      consumes nothing; appending `00 00 00 01 CC` then emits the 6-byte unit
      `00 00 00 01 AA BB` and leaves `00 00 00 01 CC` unconsumed. */
  lemma WorkedExample()
    ensures Frame([0, 0, 0, 1, 0xAA, 0xBB]) == Framed([], 0)
    ensures Frame([0, 0, 0, 1, 0xAA, 0xBB] + [0, 0, 0, 1, 0xCC])
         == Framed([[0, 0, 0, 1, 0xAA, 0xBB]], 6)
  {
    var a: seq<byte> := [0, 0, 0, 1, 0xAA, 0xBB];
    var b: seq<byte> := [0, 0, 0, 1, 0xCC];
    assert StartCodeAt(a, 0);
    assert FirstStartFrom(a, 4) == None;
    assert WellFormedUnit(a) by {
      forall j | 0 < j < |a| ensures !StartCodeAt(a, j) {
      }
    }
    assert StartCodeAt(b, 0);
    assert FirstStartFrom(b, 4) == None;
    assert Frame(b) == Framed([], 0);
    UnitThenStartCode(a, b);
  }
}
