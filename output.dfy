/**
 * The write-out loop of `void_main` (main.c:125-138): the decompressed
 * buffer is written to standard output from `offset` on until `offset`
 * reaches `decompressed_count`, retrying a write interrupted by a signal.
 */
module Output {
  import opened Container

  /** EINTR on Linux: the call was interrupted before it wrote anything. */
  const EINTR: int := 4

  /**
   * What one `write(2)` call returns: the number of bytes it wrote, or -1
   * together with `errno`.
   */
  datatype WriteAnswer = Wrote(n: int) | Failed(errno: int)

  /**
   * The answers the operating system gives to the successive write calls
   * of the loop, when `remaining` bytes are still to be written: every
   * count is between 1 and what was asked, an interrupted call is followed
   * by more answers, and the answers stop once everything is written or
   * after an error other than EINTR.
   */
  ghost predicate Answers(script: seq<WriteAnswer>, remaining: nat)
    decreases |script|
  {
    if remaining == 0 then script == []
    else
      |script| > 0 &&
      match script[0]
      case Wrote(n) => 1 <= n <= remaining && Answers(script[1..], remaining - n)
      case Failed(e) => if e == EINTR then Answers(script[1..], remaining) else script[1..] == []
  }

  /** What the next answer may be while bytes remain, and what must follow it. */
  lemma AnswersNext(script: seq<WriteAnswer>, remaining: nat)
    requires Answers(script, remaining) && remaining > 0
    ensures |script| > 0
    ensures script[0].Wrote? ==> 1 <= script[0].n <= remaining && Answers(script[1..], remaining - script[0].n)
    ensures script[0].Failed? && script[0].errno == EINTR ==> Answers(script[1..], remaining)
    ensures script[0].Failed? && script[0].errno != EINTR ==> script[1..] == []
  {
  }

  /** The value of `offset` after one call of the loop body (main.c:130-137). */
  function NextOffset(offset: int, answer: WriteAnswer): (next: int)
    // a failed call, EINTR included, leaves the offset where it was
    ensures answer.Failed? ==> next == offset
    // the offset moves forward exactly when a positive count was written
    ensures next > offset <==> answer.Wrote? && answer.n > 0
  {
    match answer
    case Wrote(n) => offset + n
    case Failed(_) => offset
  }

  /** How the loop ended: everything written, or `write` failed with `errno`. */
  datatype WriteStatus = Flushed | WriteFailed(errno: int)

  /**
   * The loop of main.c:125-138 over the decompressed bytes `data`
   * (`decompressed_count == |data|`), with the operating system's answers
   * given in order by `script`. Returns how it ended, the final `offset`,
   * the bytes that reached standard output, and `trace`, the value of
   * `offset` before the first call and after each call.
   */
  method WriteAll(data: seq<bv8>, script: seq<WriteAnswer>)
    returns (status: WriteStatus, offset: nat, emitted: seq<bv8>, ghost trace: seq<nat>)
    requires |data| <= IntMax
    requires Answers(script, |data|)
    // what reached standard output is exactly the first `offset` bytes, in order
    ensures offset <= |data| && emitted == data[..offset]
    // the loop ends exactly when `offset == decompressed_count`, or on a hard error
    ensures status.Flushed? <==> offset == |data|
    ensures status.WriteFailed? ==> status.errno != EINTR
    // one trace entry per call, plus the initial offset
    ensures |trace| == |script| + 1 && trace[0] == 0 && trace[|script|] == offset
    ensures forall k :: 0 <= k < |trace| ==> trace[k] <= |data|
    ensures forall k :: 0 <= k < |script| ==> trace[k] < |data|
    // offset never decreases, grows by the count written, and EINTR leaves it as it was
    ensures forall k :: 0 <= k < |script| ==> trace[k] <= trace[k + 1]
    ensures forall k :: 0 <= k < |script| && script[k].Wrote? ==> trace[k + 1] == trace[k] + script[k].n
    ensures forall k :: 0 <= k < |script| && script[k].Failed? ==> trace[k + 1] == trace[k]
  {
    offset := 0;
    emitted := [];
    trace := [0];
    status := Flushed;
    var i := 0;
    while offset != |data|
      invariant 0 <= i <= |script|
      invariant offset <= |data| && emitted == data[..offset]
      invariant Answers(script[i..], |data| - offset)
      invariant |trace| == i + 1 && trace[0] == 0 && trace[i] == offset
      invariant StepsFollow(script, trace, |data|)
      decreases |script| - i
    {
      AnswersNext(script[i..], |data| - offset);
      assert script[i..][0] == script[i] && script[i..][1..] == script[i + 1..];
      var answer := script[i];
      i := i + 1;
      StepsExtend(script, trace, |data|, NextOffset(offset, answer));
      match answer
      case Failed(e) =>
        trace := trace + [offset];
        if e != EINTR {
          status := WriteFailed(e);
          break;
        }
      case Wrote(w) =>
        assert data[..offset + w] == data[..offset] + data[offset..offset + w];
        emitted := emitted + data[offset..offset + w];
        offset := offset + w;
        trace := trace + [offset];
    }
    assert script[i..] == [];
    TraceSteps(script, trace, |data|);
  }

  /**
   * Each of the first `|trace| - 1` calls started below `count`, a count it
   * returned was positive, and `trace` follows the offsets from call to call.
   */
  ghost predicate StepsFollow(script: seq<WriteAnswer>, trace: seq<nat>, count: nat) {
    1 <= |trace| <= |script| + 1 &&
    forall k :: 0 <= k < |trace| - 1 ==>
      trace[k] < count && (script[k].Wrote? ==> script[k].n > 0) && trace[k + 1] == NextOffset(trace[k], script[k])
  }

  lemma StepsExtend(script: seq<WriteAnswer>, trace: seq<nat>, count: nat, next: nat)
    requires StepsFollow(script, trace, count) && |trace| <= |script|
    requires trace[|trace| - 1] < count
    requires script[|trace| - 1].Wrote? ==> script[|trace| - 1].n > 0
    requires next == NextOffset(trace[|trace| - 1], script[|trace| - 1])
    ensures StepsFollow(script, trace + [next], count)
  {
  }

  /** Reads the per-call facts of WriteAll's loop invariant back as separate properties. */
  lemma TraceSteps(script: seq<WriteAnswer>, trace: seq<nat>, count: nat)
    requires |trace| == |script| + 1 && trace[|script|] <= count
    requires StepsFollow(script, trace, count)
    ensures forall k :: 0 <= k < |trace| ==> trace[k] <= count
    ensures forall k :: 0 <= k < |script| ==> trace[k] <= trace[k + 1]
    ensures forall k :: 0 <= k < |script| && script[k].Wrote? ==> trace[k + 1] == trace[k] + script[k].n
    ensures forall k :: 0 <= k < |script| && script[k].Failed? ==> trace[k + 1] == trace[k]
  {
  }
}
