/**
 * Segment excision: the audio processor that re-reads the signal frame by
 * frame, counts frames from 0, and forwards to the writer only the frames
 * whose index is not in the repeated-index set. The writer is modelled as
 * the sequence of frames it has been given.
 */
module Excision {

  /** The frames of `frames` whose index is not in `repeated`, in order. */
  function KeepUnrepeated<T>(frames: seq<T>, repeated: set<int>): seq<T>
  {
    if frames == [] then []
    else
      var n := |frames| - 1;
      KeepUnrepeated(frames[..n], repeated) + (if n in repeated then [] else [frames[n]])
  }

  /**
   * Indices below n that are not in `repeated`, increasing; an independent
   * description of which frames are kept.
   */
  function KeptIndices(n: nat, repeated: set<int>): (r: seq<int>)
    ensures forall p, q :: 0 <= p < q < |r| ==> r[p] < r[q]
    ensures forall x :: x in r <==> 0 <= x < n && x !in repeated
    ensures |r| <= n
  {
    if n == 0 then []
    else
      var r := KeptIndices(n - 1, repeated);
      assert forall p :: 0 <= p < |r| ==> r[p] in r;
      r + (if n - 1 in repeated then [] else [n - 1])
  }

  /** The anonymous processor of `removeRepeatedSegments`. */
  class ExcisionProcessor<T> {
    const repeated: set<int>
    var frameCount: int
    /** Frames handed to the writer so far. */
    var written: seq<T>
    /** Frames the dispatcher has offered so far. */
    ghost var received: seq<T>

    ghost predicate Valid()
      reads this
    {
      frameCount == |received| && written == KeepUnrepeated(received, repeated)
    }

    constructor (repeated: set<int>)
      ensures Valid()
      ensures this.repeated == repeated && frameCount == 0
      ensures received == [] && written == []
    {
      this.repeated := repeated;
      frameCount := 0;
      written := [];
      received := [];
    }

    /**
     * `process`: forward the frame when its index is not repeated, and
     * count it either way; the dispatcher is always told to continue.
     */
    method Process(frame: T) returns (continueProcessing: bool)
      requires Valid()
      modifies this
      ensures Valid()
      ensures received == old(received) + [frame]
      ensures frameCount == old(frameCount) + 1
      ensures written == if old(frameCount) in repeated then old(written) else old(written) + [frame]
      ensures continueProcessing
    {
      if frameCount !in repeated {
        written := written + [frame];
      }
      frameCount := frameCount + 1;
      received := received + [frame];
      assert received[..|received| - 1] == old(received);
      continueProcessing := true;
    }
  }

  /**
   * `removeRepeatedSegments` without the decoding and the file: every frame
   * of the input goes through a fresh processor; the result is what the
   * writer received.
   */
  method RemoveRepeatedSegments<T>(frames: seq<T>, repeated: set<int>) returns (output: seq<T>)
    ensures output == KeepUnrepeated(frames, repeated)
    ensures |output| <= |frames|
  {
    var processor := new ExcisionProcessor(repeated);
    var t := 0;
    while t < |frames|
      invariant 0 <= t <= |frames|
      invariant processor.Valid() && processor.repeated == repeated
      invariant processor.received == frames[..t]
      invariant processor.frameCount == t
    {
      var _ := processor.Process(frames[t]);
      assert frames[..t + 1] == frames[..t] + [frames[t]];
      t := t + 1;
    }
    assert frames[..t] == frames;
    output := processor.written;
    KeepUnrepeatedSelects(frames, repeated);
  }

  // ---------------------------------------------------------------------
  // Properties of the filter

  /** Output position p holds the frame at the p-th kept index. */
  lemma {:induction false} KeepUnrepeatedSelects<T>(frames: seq<T>, repeated: set<int>)
    ensures |KeepUnrepeated(frames, repeated)| == |KeptIndices(|frames|, repeated)|
    ensures forall p :: 0 <= p < |KeptIndices(|frames|, repeated)| ==>
      0 <= KeptIndices(|frames|, repeated)[p] < |frames| &&
      KeepUnrepeated(frames, repeated)[p] == frames[KeptIndices(|frames|, repeated)[p]]
  {
    if frames != [] {
      var n := |frames| - 1;
      KeepUnrepeatedSelects(frames[..n], repeated);
      var ks := KeptIndices(n, repeated);
      assert forall p :: 0 <= p < |ks| ==> ks[p] in ks;
    }
  }

  /** With no repeated index the output is the input. */
  lemma {:induction false} KeepAllWhenNoneRepeated<T>(frames: seq<T>)
    ensures KeepUnrepeated(frames, {}) == frames
  {
    if frames != [] {
      var n := |frames| - 1;
      KeepAllWhenNoneRepeated(frames[..n]);
      assert frames[..n] + [frames[n]] == frames;
    }
  }

  /** Indices outside [0, |frames|) have no effect on the output. */
  lemma {:induction false} OutOfRangeIgnored<T>(frames: seq<T>, repeated: set<int>, repeated': set<int>)
    requires forall x :: 0 <= x < |frames| ==> (x in repeated <==> x in repeated')
    ensures KeepUnrepeated(frames, repeated) == KeepUnrepeated(frames, repeated')
  {
    if frames != [] {
      OutOfRangeIgnored(frames[..|frames| - 1], repeated, repeated');
    }
  }

  /** Feeding one more frame appends it exactly when its index is not repeated. */
  lemma KeepUnrepeatedExtend<T>(frames: seq<T>, repeated: set<int>, k: nat)
    requires k < |frames|
    ensures KeepUnrepeated(frames[..k + 1], repeated) ==
      KeepUnrepeated(frames[..k], repeated) + (if k in repeated then [] else [frames[k]])
  {
    assert frames[..k + 1][..k] == frames[..k];
  }

  /** Removing {2, 3, 4} from ten frames keeps frames 0, 1, 5, 6, 7, 8 and 9. */
  lemma ExcisionExample<T>(frames: seq<T>)
    requires |frames| == 10
    ensures KeepUnrepeated(frames, {2, 3, 4}) ==
      [frames[0], frames[1], frames[5], frames[6], frames[7], frames[8], frames[9]]
  {
    var s: set<int> := {2, 3, 4};
    assert frames[..0] == [];
    KeepUnrepeatedExtend(frames, s, 0);
    KeepUnrepeatedExtend(frames, s, 1);
    KeepUnrepeatedExtend(frames, s, 2);
    KeepUnrepeatedExtend(frames, s, 3);
    KeepUnrepeatedExtend(frames, s, 4);
    KeepUnrepeatedExtend(frames, s, 5);
    KeepUnrepeatedExtend(frames, s, 6);
    KeepUnrepeatedExtend(frames, s, 7);
    KeepUnrepeatedExtend(frames, s, 8);
    KeepUnrepeatedExtend(frames, s, 9);
    assert frames[..10] == frames;
  }
}
