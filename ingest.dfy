/**
 * `save_log`: for every S3 event record, fetch the log object, split it
 * into lines, and for each line decode it, parse it and post the payload to
 * the search index. Nothing is caught, so the first fetch, decode or parse
 * failure ends the invocation: later lines and later records are never
 * posted.
 *
 * The S3 store is a map from locations to object bodies (a missing key is a
 * failing `get_object`); UTF-8 decoding is a parameter that may fail; a post
 * appends its payload to the sequence of posted documents.
 */
module Ingest {
  import opened Wrappers
  import opened ElbParser
  import opened ElbFormat

  newtype byte = b: int | 0 <= b < 256

  const LF: byte := 10
  const CR: byte := 13

  predicate IsBreak(b: byte) { b == LF || b == CR }

  /** The bucket name and object key of one event record. */
  datatype Location = Location(bucket: string, key: string)

  /** Why one line produces no document. */
  datatype LineFault = NotUtf8 | NoRecord

  /** What ends an invocation early. */
  datatype Failure =
    | FetchFailed(loc: Location)
    | LineFailed(loc: Location, index: nat, fault: LineFault)

  /** The documents posted, in order, and the failure that ended the run, if any. */
  datatype Outcome = Outcome(posted: seq<Payload>, failure: Option<Failure>)

  // ---------------------------------------------------------------------
  // Splitting an object body into lines, as bytes.splitlines does.
  // ---------------------------------------------------------------------

  /** The first line break at or after `i`, or the end of the body. */
  function LineEnd(body: seq<byte>, i: nat): (k: nat)
    requires i <= |body|
    ensures i <= k <= |body|
    decreases |body| - i
  {
    if i == |body| || IsBreak(body[i]) then i else LineEnd(body, i + 1)
  }

  /** Where the next line starts after a break at `k`: `\r\n` is one break. */
  function NextLine(body: seq<byte>, k: nat): (n: nat)
    requires k < |body|
    ensures k < n <= |body|
  {
    if body[k] == CR && k + 1 < |body| && body[k + 1] == LF then k + 2 else k + 1
  }

  /**
   * The lines of a body, without their breaks (`\n`, `\r` or `\r\n`); a
   * break at the very end does not start another, empty line.
   */
  function SplitLines(body: seq<byte>): (lines: seq<seq<byte>>)
    ensures |lines| <= |body|
    ensures lines == [] <==> body == []
    decreases |body|
  {
    if body == [] then []
    else
      var k := LineEnd(body, 0);
      if k == |body| then [body]
      else [body[..k]] + SplitLines(body[NextLine(body, k)..])
  }

  /** Lines laid end to end, line `i` followed by the break `ts[i]`. */
  function Join(lines: seq<seq<byte>>, ts: seq<seq<byte>>): seq<byte>
    requires |ts| == |lines|
  {
    if lines == [] then [] else lines[0] + ts[0] + Join(lines[1..], ts[1..])
  }

  // ---------------------------------------------------------------------
  // What one invocation does, as a value.
  // ---------------------------------------------------------------------

  /**
   * One line: decode it, then parse it; the payload is the document to post.
   * A line that does not decode fails as such, whatever its bytes; a posted
   * document names every field of the log format and nothing else.
   */
  function Document(line: seq<byte>, decode: seq<byte> -> Option<string>): (r: Result<Payload, LineFault>)
    ensures decode(line).None? <==> r == Err(NotUtf8)
    ensures r.Ok? <==> decode(line).Some? && ParseLine(decode(line).value).Some?
    ensures r.Ok? ==> forall k :: k in r.value <==> k in Fields
  {
    match decode(line)
    case None => Err(NotUtf8)
    case Some(text) =>
      match ParseLine(text)
      case None => Err(NoRecord)
      case Some(p) => Ok(p)
  }

  /** What each line of a file yields. */
  function Documents(lines: seq<seq<byte>>, decode: seq<byte> -> Option<string>): (docs: seq<Result<Payload, LineFault>>)
    ensures |docs| == |lines|
  {
    seq(|lines|, i requires 0 <= i < |lines| => Document(lines[i], decode))
  }

  /** The lines of the file at `loc` from index `k` on, given what each line yields. */
  function RunDocs(loc: Location, docs: seq<Result<Payload, LineFault>>, k: nat): (r: Outcome)
    requires k <= |docs|
    ensures r.failure.None? ==> |r.posted| == |docs| - k
    ensures r.failure.Some? ==> |r.posted| < |docs| - k
    ensures r.failure.Some? ==>
      r.failure.value.LineFailed? && r.failure.value.loc == loc &&
      k <= r.failure.value.index < |docs| && docs[r.failure.value.index].Err?
    decreases |docs| - k
  {
    if k == |docs| then Outcome([], None)
    else
      match docs[k]
      case Err(f) => Outcome([], Some(LineFailed(loc, k, f)))
      case Ok(p) => Prepend([p], RunDocs(loc, docs, k + 1))
  }

  /** `o` after `posted` have already been posted. */
  function Prepend(posted: seq<Payload>, o: Outcome): Outcome {
    Outcome(posted + o.posted, o.failure)
  }

  /** `first`, then `rest` only if `first` did not fail. */
  function AndThen(first: Outcome, rest: Outcome): Outcome {
    if first.failure.Some? then first else Prepend(first.posted, rest)
  }

  /** The event records from index `j` on. */
  function RunRecords(records: seq<Location>, j: nat, objects: map<Location, seq<byte>>,
                      decode: seq<byte> -> Option<string>): (r: Outcome)
    requires j <= |records|
    ensures r.failure.Some? ==> r.failure.value.loc in records[j..]
    ensures r.failure.Some? && r.failure.value.FetchFailed? ==> r.failure.value.loc !in objects
    decreases |records| - j
  {
    if j == |records| then Outcome([], None)
    else
      var loc := records[j];
      assert loc in records[j..];
      assert forall x :: x in records[j + 1..] ==> x in records[j..];
      if loc !in objects then Outcome([], Some(FetchFailed(loc)))
      else AndThen(RunDocs(loc, Documents(SplitLines(objects[loc]), decode), 0),
                   RunRecords(records, j + 1, objects, decode))
  }

  /**
   * `save_log`: records in order, and within a file its lines in order,
   * posting one document per line and stopping at the first failure.
   */
  method SaveLog(records: seq<Location>, objects: map<Location, seq<byte>>,
                 decode: seq<byte> -> Option<string>)
    returns (posted: seq<Payload>, failure: Option<Failure>)
    ensures Outcome(posted, failure) == RunRecords(records, 0, objects, decode)
  {
    posted, failure := [], None;
    ghost var run := RunRecords(records, 0, objects, decode);
    assert run == Prepend(posted, run);
    var j := 0;
    while j < |records|
      invariant 0 <= j <= |records|
      invariant run == Prepend(posted, RunRecords(records, j, objects, decode))
    {
      var loc := records[j];
      RecordStep(records, j, objects, decode);
      if loc !in objects {
        // get_object raises.
        failure := Some(FetchFailed(loc));
        StopHere(posted, failure.value);
        return;
      }
      var filePosted, fileFailure := PostLines(loc, SplitLines(objects[loc]), decode);
      FileStep(records, j, objects, decode, posted, filePosted, fileFailure);
      posted := posted + filePosted;
      if fileFailure.Some? {
        failure := fileFailure;
        return;
      }
      j := j + 1;
    }
    assert posted + [] == posted;
  }

  /**
   * The inner loop of `save_log` over the lines of the file at `loc`:
   * decode, parse and post each line in order, stopping at the first line
   * that fails.
   */
  method PostLines(loc: Location, lines: seq<seq<byte>>, decode: seq<byte> -> Option<string>)
    returns (posted: seq<Payload>, failure: Option<Failure>)
    ensures Outcome(posted, failure) == RunDocs(loc, Documents(lines, decode), 0)
  {
    posted, failure := [], None;
    ghost var docs := Documents(lines, decode);
    ghost var run := RunDocs(loc, docs, 0);
    assert run == Prepend(posted, run);
    var i := 0;
    while i < |lines|
      invariant 0 <= i <= |lines|
      invariant run == Prepend(posted, RunDocs(loc, docs, i))
    {
      assert docs[i] == Document(lines[i], decode);
      var text := decode(lines[i]);
      if text.None? {
        // line.decode('utf-8') raises.
        failure := Some(LineFailed(loc, i, NotUtf8));
        StopHere(posted, failure.value);
        return;
      }
      var payload := Parse(text.value);
      if payload.None? {
        // parse raises.
        failure := Some(LineFailed(loc, i, NoRecord));
        StopHere(posted, failure.value);
        return;
      }
      // requests.post sends the payload.
      PrependTwice(posted, [payload.value], RunDocs(loc, docs, i + 1));
      posted := posted + [payload.value];
      i := i + 1;
    }
    assert posted + [] == posted;
  }

  // ---------------------------------------------------------------------
  // One step of the run, as the loops take it.
  // ---------------------------------------------------------------------

  /** Posting `a` and then `b` is posting `a + b`. */
  lemma PrependTwice(a: seq<Payload>, b: seq<Payload>, o: Outcome)
    ensures Prepend(a, Prepend(b, o)) == Prepend(a + b, o)
  {
    assert a + (b + o.posted) == (a + b) + o.posted;
  }

  /** A failure after `posted` keeps those posts and ends the run. */
  lemma StopHere(posted: seq<Payload>, f: Failure)
    ensures Prepend(posted, Outcome([], Some(f))) == Outcome(posted, Some(f))
  {
    assert posted + [] == posted;
  }

  /** A missing object ends the run; otherwise its lines run first, then the other records. */
  lemma RecordStep(records: seq<Location>, j: nat, objects: map<Location, seq<byte>>,
                   decode: seq<byte> -> Option<string>)
    requires j < |records|
    ensures records[j] !in objects ==> RunRecords(records, j, objects, decode) == Outcome([], Some(FetchFailed(records[j])))
    ensures records[j] in objects ==>
      RunRecords(records, j, objects, decode) ==
      AndThen(RunDocs(records[j], Documents(SplitLines(objects[records[j]]), decode), 0),
              RunRecords(records, j + 1, objects, decode))
  {
  }

  /**
   * After the lines of record `j` have run with outcome `filePosted`,
   * `fileFailure`: a failure ends the run there, otherwise the run goes on
   * with record `j + 1`.
   */
  lemma FileStep(records: seq<Location>, j: nat, objects: map<Location, seq<byte>>,
                 decode: seq<byte> -> Option<string>,
                 posted: seq<Payload>, filePosted: seq<Payload>, fileFailure: Option<Failure>)
    requires j < |records| && records[j] in objects
    requires Outcome(filePosted, fileFailure) ==
      RunDocs(records[j], Documents(SplitLines(objects[records[j]]), decode), 0)
    ensures fileFailure.Some? ==>
      Prepend(posted, RunRecords(records, j, objects, decode)) == Outcome(posted + filePosted, fileFailure)
    ensures fileFailure.None? ==>
      Prepend(posted, RunRecords(records, j, objects, decode)) ==
      Prepend(posted + filePosted, RunRecords(records, j + 1, objects, decode))
  {
    RecordStep(records, j, objects, decode);
    PrependTwice(posted, filePosted, RunRecords(records, j + 1, objects, decode));
  }

  // ---------------------------------------------------------------------
  // What a run posts.
  // ---------------------------------------------------------------------

  /**
   * One post per line, in file order, up to the first failing line: when
   * lines `k..m-1` all yield a document and line `m` does not (or `m` is the
   * end of the file), exactly those documents are posted, in order, and the
   * run stops at line `m` (or finishes the file cleanly). Nothing after a
   * failing line is posted.
   */
  lemma {:induction false} StopsAtFirstFailure(loc: Location, docs: seq<Result<Payload, LineFault>>, k: nat, m: nat)
    requires k <= m <= |docs|
    requires forall t :: k <= t < m ==> docs[t].Ok?
    requires m < |docs| ==> docs[m].Err?
    ensures var r := RunDocs(loc, docs, k);
      |r.posted| == m - k &&
      (forall t :: 0 <= t < m - k ==> r.posted[t] == docs[k + t].value) &&
      r.failure == if m == |docs| then None else Some(LineFailed(loc, m, docs[m].error))
    decreases m - k
  {
    if k < m {
      StopsAtFirstFailure(loc, docs, k + 1, m);
      var r := RunDocs(loc, docs, k + 1);
      forall t | 0 <= t < m - k
        ensures ([docs[k].value] + r.posted)[t] == docs[k + t].value
      {
        if t > 0 {
          assert ([docs[k].value] + r.posted)[t] == r.posted[t - 1];
        }
      }
    }
  }

  /** The index of the first line from `k` on that yields no document, or the number of lines. */
  function FirstFault(docs: seq<Result<Payload, LineFault>>, k: nat): (m: nat)
    requires k <= |docs|
    ensures k <= m <= |docs|
    ensures forall t :: k <= t < m ==> docs[t].Ok?
    ensures m < |docs| ==> docs[m].Err?
    decreases |docs| - k
  {
    if k == |docs| || docs[k].Err? then k else FirstFault(docs, k + 1)
  }

  /** Every line of the file at `loc` exists and yields a document. */
  ghost predicate FileClean(loc: Location, objects: map<Location, seq<byte>>, decode: seq<byte> -> Option<string>) {
    loc in objects &&
    var docs := Documents(SplitLines(objects[loc]), decode);
    forall t :: 0 <= t < |docs| ==> docs[t].Ok?
  }

  /** The number of lines in the files of records `j..`, all of which are present. */
  function LineCount(records: seq<Location>, j: nat, objects: map<Location, seq<byte>>): nat
    requires j <= |records|
    requires forall r :: r in records[j..] ==> r in objects
    decreases |records| - j
  {
    if j == |records| then 0
    else
      assert records[j] in records[j..];
      assert forall r :: r in records[j + 1..] ==> r in records[j..];
      |SplitLines(objects[records[j]])| + LineCount(records, j + 1, objects)
  }

  /** A file run ends without failure exactly when every line yields a document, one post each. */
  lemma CleanFile(loc: Location, docs: seq<Result<Payload, LineFault>>)
    ensures RunDocs(loc, docs, 0).failure.None? <==> forall t :: 0 <= t < |docs| ==> docs[t].Ok?
    ensures RunDocs(loc, docs, 0).failure.None? ==> |RunDocs(loc, docs, 0).posted| == |docs|
  {
    StopsAtFirstFailure(loc, docs, 0, FirstFault(docs, 0));
  }

  /**
   * An invocation ends without failure exactly when every record's object
   * exists and every line of it decodes and parses; it then posts one
   * document per line of all the files.
   */
  lemma {:induction false} CleanRun(records: seq<Location>, j: nat, objects: map<Location, seq<byte>>,
                                    decode: seq<byte> -> Option<string>)
    requires j <= |records|
    ensures RunRecords(records, j, objects, decode).failure.None? <==>
      forall r :: r in records[j..] ==> FileClean(r, objects, decode)
    ensures (forall r :: r in records[j..] ==> FileClean(r, objects, decode)) ==>
      |RunRecords(records, j, objects, decode).posted| == LineCount(records, j, objects)
    decreases |records| - j
  {
    if j < |records| {
      var loc := records[j];
      assert records[j..] == [loc] + records[j + 1..];
      assert (forall r :: r in records[j..] ==> FileClean(r, objects, decode)) <==>
        FileClean(loc, objects, decode) && forall r :: r in records[j + 1..] ==> FileClean(r, objects, decode);
      CleanRun(records, j + 1, objects, decode);
      RecordStep(records, j, objects, decode);
      if loc in objects {
        CleanFile(loc, Documents(SplitLines(objects[loc]), decode));
      }
    }
  }

  // ---------------------------------------------------------------------
  // Splitting lines.
  // ---------------------------------------------------------------------

  /** `LineEnd` finds the first break: none before it, one at it unless it is the end. */
  lemma {:induction false} LineEndIsFirstBreak(body: seq<byte>, i: nat)
    requires i <= |body|
    ensures forall t :: i <= t < LineEnd(body, i) ==> !IsBreak(body[t])
    ensures LineEnd(body, i) < |body| ==> IsBreak(body[LineEnd(body, i)])
    decreases |body| - i
  {
    if i < |body| && !IsBreak(body[i]) {
      LineEndIsFirstBreak(body, i + 1);
    }
  }

  /** No line that splitting yields contains a line break. */
  lemma {:induction false} SplitLinesHaveNoBreaks(body: seq<byte>)
    ensures forall l, t :: l in SplitLines(body) && 0 <= t < |l| ==> !IsBreak(l[t])
    decreases |body|
  {
    if body != [] {
      var k := LineEnd(body, 0);
      LineEndIsFirstBreak(body, 0);
      if k < |body| {
        SplitLinesHaveNoBreaks(body[NextLine(body, k)..]);
      }
    }
  }

  /** The breaks `bytes.splitlines` recognises. */
  predicate IsTerminator(t: seq<byte>) {
    t == [LF] || t == [CR] || t == [CR, LF]
  }

  predicate BreakFree(l: seq<byte>) {
    forall i :: 0 <= i < |l| ==> !IsBreak(l[i])
  }

  /**
   * Break-free lines, each with its own terminator, where no lone `\r` is
   * followed by an empty line ended by `\n` (the two would read as one `\r\n`).
   */
  predicate WellTerminated(lines: seq<seq<byte>>, ts: seq<seq<byte>>) {
    |ts| == |lines| &&
    (forall i :: 0 <= i < |lines| ==> IsTerminator(ts[i]) && BreakFree(lines[i])) &&
    (forall i :: 0 <= i < |lines| - 1 && ts[i] == [CR] ==> lines[i + 1] != [] || ts[i + 1] != [LF])
  }

  /**
   * Splitting undoes joining: break-free lines, each ended by its own `\n`,
   * `\r` or `\r\n`, then an optional unterminated last line, split back into
   * exactly those lines (an empty last part adds no line).
   */
  lemma {:induction false} SplitJoin(lines: seq<seq<byte>>, ts: seq<seq<byte>>, last: seq<byte>)
    requires WellTerminated(lines, ts) && BreakFree(last)
    ensures SplitLines(Join(lines, ts) + last) == if last == [] then lines else lines + [last]
    decreases |lines|
  {
    if lines == [] {
      assert Join(lines, ts) + last == last;
      if last != [] {
        LineEndIs(last, 0, |last|);
      }
    } else {
      SplitFirst(lines, ts, last);
      WellTerminatedTail(lines, ts);
      SplitJoin(lines[1..], ts[1..], last);
      assert lines == [lines[0]] + lines[1..];
    }
  }

  /** Splitting joined lines yields the first line, then the split of the rest. */
  lemma SplitFirst(lines: seq<seq<byte>>, ts: seq<seq<byte>>, last: seq<byte>)
    requires WellTerminated(lines, ts) && BreakFree(last) && lines != []
    ensures SplitLines(Join(lines, ts) + last) == [lines[0]] + SplitLines(Join(lines[1..], ts[1..]) + last)
  {
    var rest := Join(lines[1..], ts[1..]) + last;
    assert Join(lines, ts) + last == lines[0] + ts[0] + rest;
    WellTerminatedTail(lines, ts);
    if ts[0] == [CR] && |rest| > 0 {
      NextStartsWithoutLf(lines[1..], ts[1..], last);
    }
    FirstLineOf(lines[0], ts[0], rest);
  }

  /** Dropping the first line keeps the lines well terminated; a lone `\r` first is not followed by an empty `\n` line. */
  lemma WellTerminatedTail(lines: seq<seq<byte>>, ts: seq<seq<byte>>)
    requires WellTerminated(lines, ts) && lines != []
    ensures WellTerminated(lines[1..], ts[1..])
    ensures IsTerminator(ts[0]) && BreakFree(lines[0])
    ensures ts[0] == [CR] && |lines| > 1 ==> lines[1] != [] || ts[1] != [LF]
  {
    var ls, tt := lines[1..], ts[1..];
    forall i | 0 <= i < |ls|
      ensures IsTerminator(tt[i]) && BreakFree(ls[i])
    {
      assert ls[i] == lines[i + 1] && tt[i] == ts[i + 1];
    }
    forall i | 0 <= i < |ls| - 1 && tt[i] == [CR]
      ensures ls[i + 1] != [] || tt[i + 1] != [LF]
    {
      assert tt[i] == ts[i + 1];
    }
  }

  /** A join whose first line is not an empty `\n` line, followed by a break-free part, never starts with `\n`. */
  lemma NextStartsWithoutLf(lines: seq<seq<byte>>, ts: seq<seq<byte>>, last: seq<byte>)
    requires WellTerminated(lines, ts) && BreakFree(last)
    requires lines != [] ==> lines[0] != [] || ts[0] != [LF]
    requires |Join(lines, ts) + last| > 0
    ensures (Join(lines, ts) + last)[0] != LF
  {
    if lines == [] {
      assert Join(lines, ts) + last == last;
    } else {
      var body := Join(lines, ts) + last;
      assert body == lines[0] + ts[0] + (Join(lines[1..], ts[1..]) + last);
      if lines[0] != [] {
        assert body[0] == lines[0][0];
        assert !IsBreak(lines[0][0]);
      } else {
        assert IsTerminator(ts[0]);
        assert body[0] == ts[0][0];
      }
    }
  }

  /** A break-free line, a terminator, and whatever follows: the line ends at the terminator. */
  lemma FirstLineOf(a: seq<byte>, t: seq<byte>, rest: seq<byte>)
    requires IsTerminator(t) && BreakFree(a)
    requires t == [CR] && |rest| > 0 ==> rest[0] != LF
    ensures var body := a + t + rest;
      |a| < |body| && LineEnd(body, 0) == |a| && NextLine(body, |a|) == |a| + |t| &&
      body[..|a|] == a && body[|a| + |t|..] == rest
  {
    var body := a + t + rest;
    assert forall i :: 0 <= i < |a| ==> body[i] == a[i];
    LineEndIs(body, 0, |a|);
    assert body[..|a|] == a;
    assert body[|a| + |t|..] == rest;
  }

  /** The first break from `i` is at `k` when there is none before it and one (or the end) at it. */
  lemma {:induction false} LineEndIs(body: seq<byte>, i: nat, k: nat)
    requires i <= k <= |body|
    requires forall t :: i <= t < k ==> !IsBreak(body[t])
    requires k < |body| ==> IsBreak(body[k])
    ensures LineEnd(body, i) == k
    decreases k - i
  {
    if i < k {
      LineEndIs(body, i + 1, k);
    }
  }
}
