/**
 * The transcription retry loop. For each audio file the batch size starts at
 * the configured value; every failed call to the transcriber is followed by
 * another call, with the batch size lowered by one (never below 1) when the
 * failure was a RuntimeError whose first argument is the CUDA out-of-memory
 * message, and unchanged otherwise. The exception is a RuntimeError without
 * arguments: reading its first argument raises inside the handler, and that
 * error leaves the loop.
 *
 * The transcriber itself is not modelled: the outcome of each call is given
 * as a trace of `Attempt`s, one per call, in order. A finite trace without a
 * successful call stands for a loop that is still retrying.
 */
module BatchBackoff {
  import opened Options

  const OutOfMemoryMessage: string := "CUDA failed with error out of memory"

  /** How one call of the transcriber ends. */
  datatype Attempt =
    | Transcribed                        // a result was returned
    | RuntimeFailure(args: seq<string>)  // a RuntimeError with these arguments
    | OtherFailure                       // any other Exception

  /** How the retry loop of one file ends, as far as the trace goes. */
  datatype FileStatus =
    | Done            // the loop left with a result
    | Crashed         // handling a failure raised, and the error escaped the loop
    | StillRetrying   // the trace ran out while the loop was still retrying

  /** The batch size used by each call for one file, and how the loop ended. */
  datatype FileRun = FileRun(status: FileStatus, sizes: seq<int>)

  predicate IsOutOfMemory(a: Attempt)
  {
    a.RuntimeFailure? && |a.args| > 0 && a.args[0] == OutOfMemoryMessage
  }

  /** `e.args[0]` on a RuntimeError without arguments raises IndexError inside the handler. */
  predicate CrashesHandler(a: Attempt)
  {
    a.RuntimeFailure? && |a.args| == 0
  }

  function Max(a: int, b: int): int
  {
    if a >= b then a else b
  }

  /**
   * The batch size for the next call after the failed call `a` made with
   * batch size `b`, or None when handling `a` raises.
   */
  function AfterFailure(b: int, a: Attempt): (next: Option<int>)
    requires !a.Transcribed?
    ensures next.None? <==> CrashesHandler(a)
    ensures next.Some? && IsOutOfMemory(a) ==> next.value == Max(b - 1, 1)
    ensures next.Some? && !IsOutOfMemory(a) ==> next.value == b
  {
    match a
    case OtherFailure => Some(b)
    case RuntimeFailure(args) =>
      if |args| == 0 then None
      else if args[0] == OutOfMemoryMessage then
        var lowered := b - 1;
        Some(if lowered < 1 then 1 else lowered)
      else Some(b)
  }

  /** The retry loop of one file, as a function of the starting batch size and the call outcomes. */
  function Run(b: int, attempts: seq<Attempt>): (r: FileRun)
    ensures |r.sizes| <= |attempts|
    decreases |attempts|
  {
    if attempts == [] then FileRun(StillRetrying, [])
    else if attempts[0].Transcribed? then FileRun(Done, [b])
    else match AfterFailure(b, attempts[0])
      case None => FileRun(Crashed, [b])
      case Some(next) =>
        var rest := Run(next, attempts[1..]);
        FileRun(rest.status, [b] + rest.sizes)
  }

  /**
   * The loop makes one call per outcome until a call returns a result or its
   * failure crashes the handler; the first call uses the starting size.
   */
  lemma {:induction false} RunShape(b: int, attempts: seq<Attempt>)
    ensures var r := Run(b, attempts);
      && (r.status == StillRetrying ==> |r.sizes| == |attempts| && forall i :: 0 <= i < |attempts| ==> !Ends(attempts[i]))
      && (r.status != StillRetrying ==> |r.sizes| > 0 && Ends(attempts[|r.sizes| - 1]))
      && (r.status == Done <==> |r.sizes| > 0 && attempts[|r.sizes| - 1].Transcribed?)
      && (forall i :: 0 <= i < |r.sizes| - 1 ==> !Ends(attempts[i]))
      && (|attempts| > 0 ==> r.sizes[0] == b)
    decreases |attempts|
  {
    if attempts != [] && !Ends(attempts[0]) {
      RunShape(AfterFailure(b, attempts[0]).value, attempts[1..]);
    }
  }

  /** A call after which the loop does not call again. */
  predicate Ends(a: Attempt)
  {
    a.Transcribed? || CrashesHandler(a)
  }

  /** `while result == None: try: result = transcribe(batch_size) except ...`. */
  method TranscribeFile(start: int, attempts: seq<Attempt>) returns (status: FileStatus, sizes: seq<int>)
    ensures FileRun(status, sizes) == Run(start, attempts)
  {
    var batchSize := start;
    var i := 0;
    status, sizes := StillRetrying, [];
    while status == StillRetrying && i < |attempts|
      invariant 0 <= i <= |attempts| && |sizes| == i
      invariant status == StillRetrying ==> Run(start, attempts) == Resume(sizes, Run(batchSize, attempts[i..]))
      invariant status != StillRetrying ==> Run(start, attempts) == FileRun(status, sizes)
      decreases |attempts| - i
    {
      var attempt := attempts[i];
      RunUnfold(batchSize, attempts[i..]);
      sizes := sizes + [batchSize];
      if attempt.Transcribed? {
        status := Done;
      } else {
        match AfterFailure(batchSize, attempt) {
          case None =>
            status := Crashed;
          case Some(next) =>
            assert attempts[i..][1..] == attempts[i + 1..];
            ResumeAppend(sizes[..i], sizes[i], Run(next, attempts[i + 1..]));
            batchSize := next;
        }
      }
      i := i + 1;
    }
    if status == StillRetrying {
      assert attempts[i..] == [];
    }
  }

  /** The run of the remaining calls, after the calls that used the sizes `done`. */
  function Resume(done: seq<int>, rest: FileRun): FileRun
  {
    FileRun(rest.status, done + rest.sizes)
  }

  lemma ResumeAppend(done: seq<int>, b: int, rest: FileRun)
    ensures Resume(done, Resume([b], rest)) == Resume(done + [b], rest)
  {
    assert done + ([b] + rest.sizes) == (done + [b]) + rest.sizes;
  }

  lemma RunUnfold(b: int, attempts: seq<Attempt>)
    requires |attempts| > 0
    ensures attempts[0].Transcribed? ==> Run(b, attempts) == FileRun(Done, [b])
    ensures CrashesHandler(attempts[0]) ==> Run(b, attempts) == FileRun(Crashed, [b])
    ensures !Ends(attempts[0]) ==>
      Run(b, attempts) == Resume([b], Run(AfterFailure(b, attempts[0]).value, attempts[1..]))
  {
  }

  /** What happened to one audio file. */
  datatype FileOutcome = FileOutcome(name: string, run: FileRun)

  /**
   * The loop over the audio files: the batch size is reset to `start` for each
   * file, and a file whose retry loop has not finished keeps the next files
   * from being reached. A finished file is moved to the processed directory.
   */
  method TranscribeAll(start: int, audioFiles: seq<string>, traces: seq<seq<Attempt>>)
    returns (outcomes: seq<FileOutcome>, processed: seq<string>)
    requires |traces| == |audioFiles|
    ensures |outcomes| <= |audioFiles|
    ensures forall i :: 0 <= i < |outcomes| ==> outcomes[i] == FileOutcome(audioFiles[i], Run(start, traces[i]))
    ensures forall i :: 0 <= i < |outcomes| - 1 ==> outcomes[i].run.status == Done
    ensures |outcomes| < |audioFiles| ==> |outcomes| > 0 && outcomes[|outcomes| - 1].run.status != Done
    ensures processed == audioFiles[..if |outcomes| > 0 && outcomes[|outcomes| - 1].run.status != Done then |outcomes| - 1 else |outcomes|]
  {
    outcomes, processed := [], [];
    var k := 0;
    while k < |audioFiles| && (k == 0 || outcomes[k - 1].run.status == Done)
      invariant 0 <= k <= |audioFiles| && |outcomes| == k
      invariant forall i :: 0 <= i < k ==> outcomes[i] == FileOutcome(audioFiles[i], Run(start, traces[i]))
      invariant forall i :: 0 <= i < k - 1 ==> outcomes[i].run.status == Done
      invariant processed == audioFiles[..if k > 0 && outcomes[k - 1].run.status != Done then k - 1 else k]
    {
      var status, sizes := TranscribeFile(start, traces[k]);
      outcomes := outcomes + [FileOutcome(audioFiles[k], FileRun(status, sizes))];
      if status == Done {
        assert audioFiles[..k + 1] == audioFiles[..k] + [audioFiles[k]];
        processed := processed + [audioFiles[k]];
      }
      k := k + 1;
    }
  }

  /** The number of out-of-memory failures in a trace. */
  function CountOutOfMemory(attempts: seq<Attempt>): nat
  {
    if attempts == [] then 0
    else (if IsOutOfMemory(attempts[0]) then 1 else 0) + CountOutOfMemory(attempts[1..])
  }

  /** Reference closed form: the batch size after `n` out-of-memory failures, starting from `start`. */
  function BatchAfter(start: int, n: nat): int
  {
    if n == 0 then start else Max(start - n, 1)
  }

  /** Each call of a file's loop uses the starting size lowered once per earlier out-of-memory failure, floored at 1. */
  lemma {:induction false} RunSizesClosedForm(b: int, attempts: seq<Attempt>, i: nat)
    requires i < |Run(b, attempts).sizes|
    ensures Run(b, attempts).sizes[i] == BatchAfter(b, CountOutOfMemory(attempts[..i]))
    decreases i
  {
    RunShape(b, attempts);
    if i > 0 {
      var a := attempts[0];
      assert !Ends(a);
      var next := AfterFailure(b, a).value;
      RunSizesClosedForm(next, attempts[1..], i - 1);
      assert attempts[..i][1..] == attempts[1..][..i - 1];
    }
  }

  /** With a positive starting size, every call of the loop uses a size between 1 and the starting size. */
  lemma RunSizesBounded(b: int, attempts: seq<Attempt>)
    requires b >= 1
    ensures forall i :: 0 <= i < |Run(b, attempts).sizes| ==> 1 <= Run(b, attempts).sizes[i] <= b
  {
    forall i | 0 <= i < |Run(b, attempts).sizes|
      ensures 1 <= Run(b, attempts).sizes[i] <= b
    {
      RunSizesClosedForm(b, attempts, i);
    }
  }

  /** Once an out-of-memory failure has happened, whatever the starting size, no later call uses a size below 1. */
  lemma SizeAtLeastOneAfterOutOfMemory(b: int, attempts: seq<Attempt>, i: nat)
    requires i < |Run(b, attempts).sizes| && CountOutOfMemory(attempts[..i]) > 0
    ensures Run(b, attempts).sizes[i] >= 1
  {
    RunSizesClosedForm(b, attempts, i);
  }

  /** Failures other than out-of-memory leave the batch size as it was. */
  lemma OtherFailuresKeepSize(b: int, attempts: seq<Attempt>, i: nat)
    requires i + 1 < |Run(b, attempts).sizes| && !IsOutOfMemory(attempts[i])
    ensures Run(b, attempts).sizes[i + 1] == Run(b, attempts).sizes[i]
  {
    RunSizesClosedForm(b, attempts, i);
    RunSizesClosedForm(b, attempts, i + 1);
    CountOutOfMemoryAppend(attempts[..i], attempts[i]);
    assert attempts[..i + 1] == attempts[..i] + [attempts[i]];
  }

  lemma {:induction false} CountOutOfMemoryAppend(attempts: seq<Attempt>, a: Attempt)
    ensures CountOutOfMemory(attempts + [a]) == CountOutOfMemory(attempts) + if IsOutOfMemory(a) then 1 else 0
  {
    if attempts != [] {
      assert (attempts + [a])[1..] == attempts[1..] + [a];
      CountOutOfMemoryAppend(attempts[1..], a);
    }
  }
}
