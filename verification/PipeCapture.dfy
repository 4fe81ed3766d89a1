/** The byte-limited capture of a command's two output pipes. */
module PipeCapture {
  // The selector and the clock are inputs: a round says either that the deadline had
  // passed when the loop checked it, or which chunks the selector delivered.  An empty
  // chunk is the end of its pipe.

  import opened Sequences

  datatype Pipe = Stdout | Stderr

  datatype Chunk = Chunk(pipe: Pipe, data: Bytes)

  datatype Round = DeadlinePassed | Ready(chunks: seq<Chunk>)

  datatype Violation = StageTimeout | SandboxViolation

  function Delivered(chunks: seq<Chunk>, pipe: Pipe): Bytes
  {
    if chunks == [] then [] else
      var last := chunks[|chunks| - 1];
      Delivered(chunks[..|chunks| - 1], pipe) + (if last.pipe == pipe then last.data else [])
  }

  predicate Ended(chunks: seq<Chunk>, pipe: Pipe) {
    exists i :: 0 <= i < |chunks| && chunks[i] == Chunk(pipe, [])
  }

  function Chunks(rounds: seq<Round>): seq<Chunk>
  {
    if rounds == [] then [] else
      var last := rounds[|rounds| - 1];
      Chunks(rounds[..|rounds| - 1]) + (if last.Ready? then last.chunks else [])
  }

  function Capacity(limit: int): nat { if limit > 0 then limit else 0 }

  /** The first bytes of the data, as many as the limit admits. */
  function Clipped(data: Bytes, limit: int): Bytes {
    if |data| <= Capacity(limit) then data else data[..Capacity(limit)]
  }

  predicate Exceeds(data: Bytes, limit: int) { |data| > Capacity(limit) }

  lemma DeliveredSnoc(chunks: seq<Chunk>, c: Chunk, pipe: Pipe)
    ensures Delivered(chunks + [c], pipe) ==
            Delivered(chunks, pipe) + (if c.pipe == pipe then c.data else [])
    ensures Ended(chunks + [c], pipe) <==> Ended(chunks, pipe) || c == Chunk(pipe, [])
  {
    assert (chunks + [c])[..|chunks|] == chunks;
    if Ended(chunks, pipe) {
      var i :| 0 <= i < |chunks| && chunks[i] == Chunk(pipe, []);
      assert (chunks + [c])[i] == Chunk(pipe, []);
    }
    if c == Chunk(pipe, []) {
      assert (chunks + [c])[|chunks|] == Chunk(pipe, []);
    }
  }

  lemma ChunksSnoc(rounds: seq<Round>, k: nat)
    requires k < |rounds|
    ensures Chunks(rounds[..k + 1]) ==
            if rounds[k].Ready? then Chunks(rounds[..k]) + rounds[k].chunks else Chunks(rounds[..k])
  {
    assert rounds[..k + 1][..k] == rounds[..k];
  }

  /** `target.extend(chunk[:max(0, limit - len(target))])`. */
  function Extended(target: Bytes, chunk: Bytes, limit: int): Bytes {
    var remaining := limit - |target|;
    target + (if |chunk| <= remaining then chunk else if remaining <= 0 then [] else chunk[..remaining])
  }

  /** Appending a chunk to a clipped buffer clips the longer stream, and the chunk does
      not fit exactly when the longer stream exceeds the limit. */
  lemma ClipStep(before: Bytes, chunk: Bytes, limit: int)
    requires chunk != []
    ensures Extended(Clipped(before, limit), chunk, limit) == Clipped(before + chunk, limit)
    ensures |chunk| > limit - |Clipped(before, limit)| <==> Exceeds(before + chunk, limit)
  {
  }

  /** The buffers, the size flag and the set of open pipes after these chunks. */
  ghost predicate Consistent(
    seen: seq<Chunk>, stdout: Bytes, stderr: Bytes, oversize: bool, open: set<Pipe>,
    stdoutLimit: int, stderrLimit: int)
  {
    && stdout == Clipped(Delivered(seen, Stdout), stdoutLimit)
    && stderr == Clipped(Delivered(seen, Stderr), stderrLimit)
    && (oversize <==> Exceeds(Delivered(seen, Stdout), stdoutLimit) ||
                      Exceeds(Delivered(seen, Stderr), stderrLimit))
    && (Stdout in open <==> !Ended(seen, Stdout))
    && (Stderr in open <==> !Ended(seen, Stderr))
  }

  lemma DataStep(
    seen: seq<Chunk>, c: Chunk, stdout: Bytes, stderr: Bytes, oversize: bool, open: set<Pipe>,
    stdoutLimit: int, stderrLimit: int)
    requires Consistent(seen, stdout, stderr, oversize, open, stdoutLimit, stderrLimit)
    requires c.data != []
    ensures
      var limit := if c.pipe == Stdout then stdoutLimit else stderrLimit;
      var target := if c.pipe == Stdout then stdout else stderr;
      Consistent(seen + [c],
        if c.pipe == Stdout then Extended(stdout, c.data, limit) else stdout,
        if c.pipe == Stderr then Extended(stderr, c.data, limit) else stderr,
        oversize || |c.data| > limit - |target|, open, stdoutLimit, stderrLimit)
  {
    DeliveredSnoc(seen, c, Stdout);
    DeliveredSnoc(seen, c, Stderr);
    ClipStep(Delivered(seen, c.pipe), c.data, if c.pipe == Stdout then stdoutLimit else stderrLimit);
  }

  lemma EndStep(
    seen: seq<Chunk>, pipe: Pipe, stdout: Bytes, stderr: Bytes, oversize: bool, open: set<Pipe>,
    stdoutLimit: int, stderrLimit: int)
    requires Consistent(seen, stdout, stderr, oversize, open, stdoutLimit, stderrLimit)
    ensures Consistent(seen + [Chunk(pipe, [])], stdout, stderr, oversize, open - {pipe},
                       stdoutLimit, stderrLimit)
  {
    DeliveredSnoc(seen, Chunk(pipe, []), Stdout);
    DeliveredSnoc(seen, Chunk(pipe, []), Stderr);
  }

  /** One ready chunk. */
  method CaptureChunk(
    ghost seen: seq<Chunk>, chunk: Chunk, stdout: Bytes, stderr: Bytes, oversize: bool, open: set<Pipe>,
    stdoutLimit: int, stderrLimit: int)
    returns (stdout': Bytes, stderr': Bytes, oversize': bool, open': set<Pipe>)
    requires Consistent(seen, stdout, stderr, oversize, open, stdoutLimit, stderrLimit)
    ensures open' <= open
    ensures Consistent(seen + [chunk], stdout', stderr', oversize', open', stdoutLimit, stderrLimit)
  {
    stdout', stderr', oversize', open' := stdout, stderr, oversize, open;
    if chunk.data == [] {
      EndStep(seen, chunk.pipe, stdout, stderr, oversize, open, stdoutLimit, stderrLimit);
      open' := open - {chunk.pipe};
    } else {
      DataStep(seen, chunk, stdout, stderr, oversize, open, stdoutLimit, stderrLimit);
      var limit := if chunk.pipe == Stdout then stdoutLimit else stderrLimit;
      var target := if chunk.pipe == Stdout then stdout else stderr;
      var remaining := limit - |target|;
      target := Extended(target, chunk.data, limit);
      if chunk.pipe == Stdout { stdout' := target; } else { stderr' := target; }
      if |chunk.data| > remaining {
        oversize' := true;
      }
    }
  }

  /** The body of the selector loop: one batch of ready chunks. */
  method CaptureRound(
    ghost seen: seq<Chunk>, chunks: seq<Chunk>, stdout: Bytes, stderr: Bytes, open: set<Pipe>,
    stdoutLimit: int, stderrLimit: int)
    returns (stdout': Bytes, stderr': Bytes, oversize: bool, open': set<Pipe>)
    requires Consistent(seen, stdout, stderr, false, open, stdoutLimit, stderrLimit)
    ensures open' <= open
    ensures Consistent(seen + chunks, stdout', stderr', oversize, open', stdoutLimit, stderrLimit)
  {
    stdout', stderr', oversize, open' := stdout, stderr, false, open;
    assert seen + chunks[..0] == seen;
    for i := 0 to |chunks|
      invariant open' <= open
      invariant Consistent(seen + chunks[..i], stdout', stderr', oversize, open', stdoutLimit, stderrLimit)
    {
      stdout', stderr', oversize, open' := CaptureChunk(
        seen + chunks[..i], chunks[i], stdout', stderr', oversize, open', stdoutLimit, stderrLimit);
      TakeSnoc(chunks, i);
      ConcatIsAssociative(seen, chunks[..i], [chunks[i]]);
    }
    assert chunks[..|chunks|] == chunks;
  }

  /** One pass of the loop: the deadline, or a batch of ready chunks. */
  method CaptureStep(
    rounds: seq<Round>, k: nat, stdout: Bytes, stderr: Bytes, open: set<Pipe>, stdoutLimit: int, stderrLimit: int)
    returns (stdout': Bytes, stderr': Bytes, violation: Option<Violation>, open': set<Pipe>)
    requires k < |rounds|
    requires Consistent(Chunks(rounds[..k]), stdout, stderr, false, open, stdoutLimit, stderrLimit)
    ensures open' <= open
    ensures Consistent(Chunks(rounds[..k + 1]), stdout', stderr', violation == Some(SandboxViolation), open',
                       stdoutLimit, stderrLimit)
    ensures violation == Some(StageTimeout) <==> rounds[k] == DeadlinePassed
  {
    stdout', stderr', violation, open' := stdout, stderr, None, open;
    ChunksSnoc(rounds, k);
    match rounds[k] {
      case DeadlinePassed =>
        violation := Some(StageTimeout);
      case Ready(chunks) =>
        var oversize;
        stdout', stderr', oversize, open' := CaptureRound(
          Chunks(rounds[..k]), chunks, stdout, stderr, open, stdoutLimit, stderrLimit);
        if oversize {
          violation := Some(SandboxViolation);
        }
    }
  }

  lemma NothingOpen(
    seen: seq<Chunk>, stdout: Bytes, stderr: Bytes, oversize: bool, open: set<Pipe>,
    stdoutLimit: int, stderrLimit: int)
    requires Consistent(seen, stdout, stderr, oversize, open, stdoutLimit, stderrLimit)
    requires open <= {Stdout, Stderr}
    ensures open == {} <==> Ended(seen, Stdout) && Ended(seen, Stderr)
  {
    assert open == {} <==> Stdout !in open && Stderr !in open;
  }

  lemma NothingSeen(rounds: seq<Round>, stdoutLimit: int, stderrLimit: int)
    ensures Consistent(Chunks(rounds[..0]), [], [], false, {Stdout, Stderr}, stdoutLimit, stderrLimit)
  {
  }

  /** `_capture`: for every schedule and chunking each buffer is exactly the clipped
      stream of its pipe.  The result is not finished only when the schedule stops
      before the loop does. */
  method Capture(rounds: seq<Round>, stdoutLimit: int, stderrLimit: int)
    returns (stdout: Bytes, stderr: Bytes, violation: Option<Violation>, finished: bool, used: nat)
    ensures used <= |rounds|
    ensures stdout == Clipped(Delivered(Chunks(rounds[..used]), Stdout), stdoutLimit)
    ensures stderr == Clipped(Delivered(Chunks(rounds[..used]), Stderr), stderrLimit)
    ensures violation == Some(SandboxViolation) <==>
              Exceeds(Delivered(Chunks(rounds[..used]), Stdout), stdoutLimit) ||
              Exceeds(Delivered(Chunks(rounds[..used]), Stderr), stderrLimit)
    ensures violation == Some(StageTimeout) <==> used > 0 && rounds[used - 1] == DeadlinePassed
    ensures forall k :: 0 <= k < used - 1 ==> rounds[k].Ready?
    ensures finished <==>
              || violation.Some?
              || (Ended(Chunks(rounds[..used]), Stdout) && Ended(Chunks(rounds[..used]), Stderr))
    ensures !finished ==> used == |rounds|
  {
    hide Delivered, Clipped, Exceeds;
    stdout, stderr, violation := [], [], None;
    var open := {Stdout, Stderr};
    NothingSeen(rounds, stdoutLimit, stderrLimit);
    var k: nat := 0;
    while open != {} && violation.None? && k < |rounds|
      invariant k <= |rounds| && open <= {Stdout, Stderr}
      invariant Consistent(Chunks(rounds[..k]), stdout, stderr, violation == Some(SandboxViolation), open,
                           stdoutLimit, stderrLimit)
      invariant violation == Some(StageTimeout) <==> k > 0 && rounds[k - 1] == DeadlinePassed
      invariant forall j :: 0 <= j < k - 1 ==> rounds[j].Ready?
      decreases |rounds| - k
    {
      stdout, stderr, violation, open := CaptureStep(rounds, k, stdout, stderr, open, stdoutLimit, stderrLimit);
      k := k + 1;
    }
    used := k;
    finished := open == {} || violation.Some?;
    NothingOpen(
      Chunks(rounds[..k]), stdout, stderr, violation == Some(SandboxViolation), open, stdoutLimit, stderrLimit);
  }

  /** What a caller may conclude: a buffer is a prefix of what its pipe delivered and
      respects the limit; it is the whole stream unless the stream exceeds the limit,
      and then it is exactly full and the pipe delivered more. */
  lemma CaptureMeaning(data: Bytes, limit: int)
    ensures Clipped(data, limit) <= data && |Clipped(data, limit)| <= Capacity(limit)
    ensures !Exceeds(data, limit) <==> Clipped(data, limit) == data
    ensures Exceeds(data, limit) <==>
              |Clipped(data, limit)| == Capacity(limit) && Clipped(data, limit) < data
  {
  }
}
