/**
 * The Reduce stage: download and concatenate the partition's intermediate
 * files, sort their lines, and collapse each run of equal keys into one
 * `key\tcount\n` record in a single streaming pass.
 */
module Reducer {
  import opened Wrappers
  import opened Types
  import opened Decimal
  import opened Records

  /** One output record `word\tcount\n`, written only for a positive count. */
  function Emit(word: Bytes, count: int): (out: Bytes)
    ensures count <= 0 <==> out == []
  {
    if count > 0 then Record(word, DecimalBytes(count)) + [Newline] else []
  }

  /** `count++` on Go's 64-bit int, which wraps from the largest value to the smallest. */
  function Inc(c: int): (r: int)
    ensures MinInt64 <= c <= MaxInt64 ==> MinInt64 <= r <= MaxInt64
  {
    if c == MaxInt64 then MinInt64 else c + 1
  }

  /** k increments in a row. */
  function IncBy(c: int, k: nat): int
    decreases k
  {
    if k == 0 then c else IncBy(Inc(c), k - 1)
  }

  /** Without overflow, k increments add k. */
  lemma {:induction false} IncByAdds(c: int, k: nat)
    requires c + k <= MaxInt64
    ensures IncBy(c, k) == c + k
    decreases k
  {
    if k > 0 {
      IncByAdds(c + 1, k - 1);
    }
  }

  /** Output already written, followed by what is still to come (or the error that discards it all). */
  function Prepend(out: Bytes, r: Result<Bytes, Error>): (r': Result<Bytes, Error>)
    ensures r'.Success? <==> r.Success?
    ensures r'.Failure? ==> r'.error == r.error
  {
    match r
    case Success(rest) => Success(out + rest)
    case Failure(e) => Failure(e)
  }

  lemma {:induction false} PrependNothing(r: Result<Bytes, Error>)
    ensures Prepend([], r) == r
  {
    if r.Success? {
      assert [] + r.value == r.value;
    }
  }

  lemma {:induction false} PrependTwice(a: Bytes, b: Bytes, r: Result<Bytes, Error>)
    ensures Prepend(a, Prepend(b, r)) == Prepend(a + b, r)
  {
    if r.Success? {
      assert a + (b + r.value) == (a + b) + r.value;
    }
  }

  /**
   * The merge pass of Reduce as a state machine over the scanned lines: what
   * it writes from the state (word, count) on, including the final flush, or
   * the error that ends it. A line whose key differs from `word` flushes the
   * previous group and parses the line's second tab-separated field as the
   * new count; a line with the same key adds 1 to the count without reading
   * its value. The only ways it fails are the index-out-of-range panic and a
   * count field `Atoi` rejects.
   */
  function MergeFrom(word: Bytes, count: int, lines: seq<Bytes>): (r: Result<Bytes, Error>)
    ensures r.Failure? ==> r.error == IndexOutOfRange || r.error.BadCount?
    decreases |lines|
  {
    if lines == [] then Success(Emit(word, count))
    else
      var fs := Fields(lines[0]);
      if fs[0] != word then
        if |fs| < 2 then Failure(IndexOutOfRange)
        else match Atoi(fs[1])
          case Failure(e) => Failure(e)
          case Success(v) => Prepend(Emit(word, count), MergeFrom(fs[0], v, lines[1..]))
      else MergeFrom(word, Inc(count), lines[1..])
  }

  /**
   * A line that starts a new key but whose count field `Atoi` rejects ends
   * the merge with that error, whatever follows: nothing is uploaded.
   */
  lemma {:induction false} MergeBadCount(word: Bytes, count: int, line: Bytes, rest: seq<Bytes>)
    requires Key(line) != word && |Fields(line)| >= 2 && Atoi(Fields(line)[1]).Failure?
    ensures MergeFrom(word, count, [line] + rest) == Failure(BadCount(Fields(line)[1]))
  {
    assert ([line] + rest)[0] == line;
  }

  /**
   * A record written for a positive count and a word without tab or newline
   * reads back as one line, whose key is the word and whose value parses back
   * to the count: Reduce output has the `word<TAB>count` form Map output has.
   */
  lemma {:induction false} EmitReadsBack(word: Bytes, count: int)
    requires 0 < count <= MaxInt64
    requires Tab !in word && Newline !in word
    ensures Lines(Emit(word, count)) == [Record(word, DecimalBytes(count))]
    ensures Fields(Record(word, DecimalBytes(count))) == [word, DecimalBytes(count)]
    ensures Atoi(DecimalBytes(count)) == Success(count)
  {
    var d := DecimalBytes(count);
    assert Tab !in d && Newline !in d by {
      forall j | 0 <= j < |d|
        ensures d[j] != Tab && d[j] != Newline
      {
        assert IsDigit(d[j]);
      }
    }
    RecordFields(word, d);
    var line := Record(word, d);
    assert Newline !in line;
    assert Terminated([line]) == Emit(word, count) by {
      var none: seq<Bytes> := [];
      assert [line][1..] == none;
    }
    LinesOfTerminated([line]);
    AtoiOfDecimal(count);
  }

  /** The length of the maximal run of equal keys at the head of `lines`. */
  function RunLength(lines: seq<Bytes>): (n: nat)
    requires lines != []
    ensures 1 <= n <= |lines|
    ensures forall j :: 0 <= j < n ==> Key(lines[j]) == Key(lines[0])
    ensures n < |lines| ==> Key(lines[n]) != Key(lines[0])
    decreases |lines|
  {
    if |lines| == 1 || Key(lines[1]) != Key(lines[0]) then 1 else 1 + RunLength(lines[1..])
  }

  /** `lines` cut into its maximal runs of equal keys. */
  function Runs(lines: seq<Bytes>): (rs: seq<seq<Bytes>>)
    ensures forall a :: 0 <= a < |rs| ==> rs[a] != [] && |rs[a]| <= |lines|
    decreases |lines|
  {
    if lines == [] then []
    else
      var n := RunLength(lines);
      [lines[..n]] + Runs(lines[n..])
  }

  /** Concatenating the runs gives back the lines. */
  lemma {:induction false} RunsFlatten(lines: seq<Bytes>)
    ensures Flatten(Runs(lines)) == lines
    decreases |lines|
  {
    if lines != [] {
      var n := RunLength(lines);
      var rest := lines[n..];
      RunsFlatten(rest);
      FlattenAppend([lines[..n]], Runs(rest));
      assert lines[..n] + rest == lines;
    }
  }

  /** Each run holds a single key, and neighbouring runs hold different keys: the runs are maximal. */
  lemma {:induction false} RunsMaximal(lines: seq<Bytes>)
    ensures forall a, j :: 0 <= a < |Runs(lines)| && 0 <= j < |Runs(lines)[a]| ==>
      Key(Runs(lines)[a][j]) == Key(Runs(lines)[a][0])
    ensures forall a :: 0 <= a < |Runs(lines)| - 1 ==>
      Key(Runs(lines)[a][0]) != Key(Runs(lines)[a + 1][0])
    decreases |lines|
  {
    if lines != [] {
      var n := RunLength(lines);
      var rest := lines[n..];
      RunsMaximal(rest);
      var rs := Runs(lines);
      assert rs == [lines[..n]] + Runs(rest);
      forall a | 1 <= a < |rs|
        ensures rs[a] == Runs(rest)[a - 1]
      {
      }
      if Runs(rest) != [] {
        assert Runs(rest)[0][0] == rest[0];
      }
    }
  }

  /**
   * The count the merge reaches at the end of a run. The very first run is
   * special when its key is empty: it matches the initial empty word, so even
   * its first line is counted by increment, without being parsed.
   */
  function RunCount(run: seq<Bytes>, leading: bool): Result<int, Error>
    requires run != []
  {
    if leading && Key(run[0]) == [] then Success(IncBy(0, |run|))
    else
      var fs := Fields(run[0]);
      if |fs| < 2 then Failure(IndexOutOfRange)
      else match Atoi(fs[1])
        case Failure(e) => Failure(e)
        case Success(v) => Success(IncBy(v, |run| - 1))
  }

  /** The output for a sequence of runs: one record per run with a positive count, or the first error. */
  function GroupsOut(runs: seq<seq<Bytes>>, leading: bool): Result<Bytes, Error>
    requires forall a :: 0 <= a < |runs| ==> runs[a] != []
    decreases |runs|
  {
    if runs == [] then Success([])
    else match RunCount(runs[0], leading)
      case Failure(e) => Failure(e)
      case Success(c) => Prepend(Emit(Key(runs[0][0]), c), GroupsOut(runs[1..], false))
  }

  /** What the merge pass produces from the scanned lines of the sorted file, defined run by run. */
  function Grouped(lines: seq<Bytes>): Result<Bytes, Error>
  {
    GroupsOut(Runs(lines), true)
  }

  /** Lines that repeat the current key only add to the count. */
  lemma {:induction false} MergeWithinRun(word: Bytes, count: int, run: seq<Bytes>, rest: seq<Bytes>)
    requires forall j :: 0 <= j < |run| ==> Key(run[j]) == word
    ensures MergeFrom(word, count, run + rest) == MergeFrom(word, IncBy(count, |run|), rest)
    decreases |run|
  {
    if run == [] {
      assert run + rest == rest;
    } else {
      assert (run + rest)[0] == run[0] && (run + rest)[1..] == run[1..] + rest;
      MergeWithinRun(word, Inc(count), run[1..], rest);
    }
  }

  /** From a state whose word differs from the next key, the merge emits the state's group, then the runs. */
  lemma {:induction false} MergeFromRuns(word: Bytes, count: int, lines: seq<Bytes>)
    requires lines == [] || Key(lines[0]) != word
    ensures MergeFrom(word, count, lines) == Prepend(Emit(word, count), GroupsOut(Runs(lines), false))
    decreases |lines|
  {
    if lines == [] {
      assert Emit(word, count) + [] == Emit(word, count);
    } else {
      var n := RunLength(lines);
      var run, rest := lines[..n], lines[n..];
      assert Runs(lines) == [run] + Runs(rest);
      assert Runs(lines)[1..] == Runs(rest);
      var fs := Fields(lines[0]);
      if |fs| >= 2 && Atoi(fs[1]).Success? {
        var v := Atoi(fs[1]).value;
        assert lines[1..] == run[1..] + rest;
        MergeWithinRun(fs[0], v, run[1..], rest);
        MergeFromRuns(fs[0], IncBy(v, n - 1), rest);
      }
    }
  }

  /** The state machine, started from the empty word and a zero count, computes the run-by-run output. */
  lemma {:induction false} MergeIsGrouped(lines: seq<Bytes>)
    ensures MergeFrom([], 0, lines) == Grouped(lines)
  {
    if lines != [] {
      var n := RunLength(lines);
      var run, rest := lines[..n], lines[n..];
      assert Runs(lines) == [run] + Runs(rest);
      assert Runs(lines)[1..] == Runs(rest);
      if Key(lines[0]) == [] {
        assert lines == run + rest;
        MergeWithinRun([], 0, run, rest);
        MergeFromRuns([], IncBy(0, n), rest);
      } else {
        MergeFromRuns([], 0, lines);
        PrependNothing(GroupsOut(Runs(lines), false));
      }
    }
  }

  /**
   * The merge pass of Reduce: a scan over the lines keeping the current word
   * and its count, appending a record to the output each time the key changes
   * and once more at the end.
   */
  method Merge(lines: seq<Bytes>) returns (r: Result<Bytes, Error>)
    ensures r == Grouped(lines)
  {
    MergeIsGrouped(lines);
    var word: Bytes := [];
    var count := 0;
    var output: Bytes := [];
    assert lines[0..] == lines;
    PrependNothing(MergeFrom(word, count, lines));
    var i := 0;
    while i < |lines|
      invariant 0 <= i <= |lines|
      invariant Prepend(output, MergeFrom(word, count, lines[i..])) == Grouped(lines)
    {
      assert lines[i..][0] == lines[i] && lines[i..][1..] == lines[i + 1..];
      var splitted := Fields(lines[i]);
      if splitted[0] != word {
        ghost var flushed, before, step := Emit(word, count), output, MergeFrom(word, count, lines[i..]);
        if count > 0 {
          output := output + Record(word, DecimalBytes(count)) + [Newline];
        }
        assert output == before + flushed;
        word := splitted[0];
        if |splitted| < 2 {
          return Failure(IndexOutOfRange);
        }
        var parsed := Atoi(splitted[1]);
        if parsed.Failure? {
          return Failure(parsed.error);
        }
        assert step == Prepend(flushed, MergeFrom(word, parsed.value, lines[i + 1..]));
        PrependTwice(before, flushed, MergeFrom(word, parsed.value, lines[i + 1..]));
        count := parsed.value;
      } else {
        assert MergeFrom(word, count, lines[i..]) == MergeFrom(word, Inc(count), lines[i + 1..]);
        count := Inc(count);
      }
      i := i + 1;
    }
    assert lines[i..] == [];
    ghost var before := output;
    if count > 0 {
      output := output + Record(word, DecimalBytes(count)) + [Newline];
    }
    assert output == before + Emit(word, count);
    assert Prepend(before, MergeFrom(word, count, [])) == Success(output);
    r := Success(output);
  }

  /** A line whose second tab-separated field is exactly `1`, as every line Map writes is. */
  predicate ValueIsOne(line: Bytes)
  {
    |Fields(line)| >= 2 && Fields(line)[1] == [One]
  }

  /** One `key\tn\n` record per run, n the run's length. */
  function Tally(runs: seq<seq<Bytes>>): Bytes
    requires forall a :: 0 <= a < |runs| ==> runs[a] != []
    decreases |runs|
  {
    if runs == [] then [] else Record(Key(runs[0][0]), DecimalBytes(|runs[0]|)) + [Newline] + Tally(runs[1..])
  }

  /** Every run's head is one of the lines. */
  lemma {:induction false} RunHeadsIn(lines: seq<Bytes>)
    ensures forall a :: 0 <= a < |Runs(lines)| ==> Runs(lines)[a][0] in lines
    decreases |lines|
  {
    if lines != [] {
      var n := RunLength(lines);
      var rest := lines[n..];
      RunHeadsIn(rest);
      var rs := Runs(lines);
      assert rs == [lines[..n]] + Runs(rest);
      forall a | 1 <= a < |rs|
        ensures rs[a][0] in lines
      {
        assert rs[a] == Runs(rest)[a - 1];
        var m :| 0 <= m < |rest| && rest[m] == rs[a][0];
        assert lines[n + m] == rest[m];
      }
    }
  }

  lemma {:induction false} AtoiOfOne()
    ensures Atoi([One]) == Success(1)
  {
    AtoiAcceptsDigits([One]);
    assert BytesValue([One]) == BytesValue([]) * 10 + 1;
  }

  /**
   * When every run starts with a line whose value is 1 and is not
   * astronomically long, each run's count is its length.
   */
  lemma {:induction false} RunCountOfOnes(run: seq<Bytes>, leading: bool)
    requires run != [] && |run| <= MaxInt64 && ValueIsOne(run[0])
    ensures RunCount(run, leading) == Success(|run|)
  {
    if leading && Key(run[0]) == [] {
      IncByAdds(0, |run|);
    } else {
      AtoiOfOne();
      IncByAdds(1, |run| - 1);
    }
  }

  lemma {:induction false} GroupsOutAllOnes(runs: seq<seq<Bytes>>, leading: bool)
    requires forall a :: 0 <= a < |runs| ==> runs[a] != [] && |runs[a]| <= MaxInt64
    requires forall a :: 0 <= a < |runs| ==> ValueIsOne(runs[a][0])
    ensures GroupsOut(runs, leading) == Success(Tally(runs))
    decreases |runs|
  {
    if runs != [] {
      var run := runs[0];
      assert forall a :: 1 <= a < |runs| ==> runs[1..][a - 1] == runs[a];
      GroupsOutAllOnes(runs[1..], false);
      RunCountOfOnes(run, leading);
      assert Emit(Key(run[0]), |run|) == Record(Key(run[0]), DecimalBytes(|run|)) + [Newline];
    }
  }

  /**
   * On the lines Map produces (value always 1) the merge counts each run's
   * lines: one `key\tn\n` record per maximal run, n its length. With the
   * summation quirk this is the only case in which the count is the sum of
   * the values.
   */
  lemma {:induction false} GroupedAllOnes(lines: seq<Bytes>)
    requires forall j :: 0 <= j < |lines| ==> ValueIsOne(lines[j])
    requires |lines| <= MaxInt64
    ensures Grouped(lines) == Success(Tally(Runs(lines)))
  {
    RunHeadsIn(lines);
    GroupsOutAllOnes(Runs(lines), true);
  }

  /** After the first run, no line carries its key again, when equal keys are contiguous. */
  lemma {:induction false} RestAvoidsFirstKey(lines: seq<Bytes>)
    requires lines != [] && KeysContiguous(lines)
    ensures forall m :: RunLength(lines) <= m < |lines| ==> Key(lines[m]) != Key(lines[0])
  {
    var n := RunLength(lines);
    forall m | n < m < |lines|
      ensures Key(lines[m]) != Key(lines[0])
    {
      assert Between(0, n, m);
    }
  }

  lemma {:induction false} ContiguousSuffix(lines: seq<Bytes>, n: nat)
    requires n <= |lines| && KeysContiguous(lines)
    ensures KeysContiguous(lines[n..])
  {
    var rest := lines[n..];
    forall i, j, l | 0 <= i && Between(i, j, l) && l < |rest| && Key(rest[i]) == Key(rest[l])
      ensures Key(rest[j]) == Key(rest[i])
    {
      assert rest[i] == lines[n + i] && rest[j] == lines[n + j] && rest[l] == lines[n + l];
      assert Between(n + i, n + j, n + l);
    }
  }

  /** With equal keys contiguous, no key has two runs: the merge writes one record per distinct key. */
  lemma {:induction false} RunKeysDistinct(lines: seq<Bytes>)
    requires KeysContiguous(lines)
    ensures forall a, b :: 0 <= a < b < |Runs(lines)| ==> Key(Runs(lines)[a][0]) != Key(Runs(lines)[b][0])
    decreases |lines|
  {
    if lines != [] {
      var n := RunLength(lines);
      var rest := lines[n..];
      ContiguousSuffix(lines, n);
      RunKeysDistinct(rest);
      RestAvoidsFirstKey(lines);
      RunHeadsIn(rest);
      var rs := Runs(lines);
      assert rs == [lines[..n]] + Runs(rest);
      forall a, b | 0 <= a < b < |rs|
        ensures Key(rs[a][0]) != Key(rs[b][0])
      {
        assert rs[b] == Runs(rest)[b - 1];
        if a == 0 {
          var m :| 0 <= m < |rest| && rest[m] == rs[b][0];
          assert lines[n + m] == rest[m];
        } else {
          assert rs[a] == Runs(rest)[a - 1];
        }
      }
    }
  }

  /** The number of lines with key k. */
  function KeyCount(lines: seq<Bytes>, k: Bytes): nat
    decreases |lines|
  {
    if lines == [] then 0 else (if Key(lines[0]) == k then 1 else 0) + KeyCount(lines[1..], k)
  }

  lemma {:induction false} KeyCountAppend(a: seq<Bytes>, b: seq<Bytes>, k: Bytes)
    ensures KeyCount(a + b, k) == KeyCount(a, k) + KeyCount(b, k)
    decreases |a|
  {
    if a == [] {
      assert a + b == b;
    } else {
      assert (a + b)[0] == a[0] && (a + b)[1..] == a[1..] + b;
      KeyCountAppend(a[1..], b, k);
    }
  }

  lemma {:induction false} KeyCountUniform(lines: seq<Bytes>, k: Bytes)
    ensures (forall j :: 0 <= j < |lines| ==> Key(lines[j]) == k) ==> KeyCount(lines, k) == |lines|
    ensures (forall j :: 0 <= j < |lines| ==> Key(lines[j]) != k) ==> KeyCount(lines, k) == 0
    decreases |lines|
  {
    if lines != [] {
      KeyCountUniform(lines[1..], k);
      assert forall j :: 1 <= j < |lines| ==> lines[1..][j - 1] == lines[j];
    }
  }

  /** With equal keys contiguous, a run holds every line of its key: its length is the key's count. */
  lemma {:induction false} RunLengthIsKeyCount(lines: seq<Bytes>)
    requires KeysContiguous(lines)
    ensures forall a :: 0 <= a < |Runs(lines)| ==> |Runs(lines)[a]| == KeyCount(lines, Key(Runs(lines)[a][0]))
    decreases |lines|
  {
    if lines != [] {
      var n := RunLength(lines);
      var run, rest := lines[..n], lines[n..];
      ContiguousSuffix(lines, n);
      RunLengthIsKeyCount(rest);
      RunKeysDistinct(lines);
      RestAvoidsFirstKey(lines);
      var rs := Runs(lines);
      assert rs == [run] + Runs(rest);
      assert lines == run + rest;
      forall a | 0 <= a < |rs|
        ensures |rs[a]| == KeyCount(lines, Key(rs[a][0]))
      {
        var k := Key(rs[a][0]);
        KeyCountAppend(run, rest, k);
        KeyCountUniform(run, k);
        KeyCountUniform(rest, k);
        if a > 0 {
          assert rs[a] == Runs(rest)[a - 1];
          assert Key(rs[0][0]) != k;
        }
      }
    }
  }

  /** The object name the Reduce output for partition `id` is uploaded under, in the `reduce/` prefix. */
  function ReduceName(id: int): (name: string)
    ensures |name| > 7 && name[..7] == "reduce/"
  {
    "reduce/" + IntText(id) + ".txt"
  }

  /** Reduce tasks with different ids upload under different names. */
  lemma {:induction false} ReduceNamesDistinct(a: int, b: int)
    requires ReduceName(a) == ReduceName(b)
    ensures a == b
  {
    var ta, tb := IntText(a), IntText(b);
    assert |ta| == |tb|;
    assert ta == ReduceName(a)[7..|ReduceName(a)| - 4];
    assert tb == ReduceName(b)[7..|ReduceName(b)| - 4];
    IntTextInjective(a, b);
  }

  function Content(r: Result<Bytes, Error>): Bytes
  {
    if r.Success? then r.value else []
  }

  /**
   * The concatenation of every input's content, downloaded in order, or the
   * error of the first download that fails.
   */
  function Fetched(inputs: seq<Locator>, download: Locator -> Result<Bytes, Error>): (r: Result<Bytes, Error>)
    ensures r.Success? <==> forall j :: 0 <= j < |inputs| ==> download(inputs[j]).Success?
    ensures r.Success? ==> r.value == Flatten(seq(|inputs|, j requires 0 <= j < |inputs| => Content(download(inputs[j]))))
    ensures r.Failure? ==> exists k :: 0 <= k < |inputs| && download(inputs[k]) == Failure(r.error)
                                      && forall j :: 0 <= j < k ==> download(inputs[j]).Success?
    decreases |inputs|
  {
    if inputs == [] then Success([])
    else
      var init := inputs[..|inputs| - 1];
      match Fetched(init, download)
      case Failure(e) => Failure(e)
      case Success(f) =>
        match download(inputs[|inputs| - 1])
        case Failure(e) => Failure(e)
        case Success(c) =>
          assert seq(|inputs|, j requires 0 <= j < |inputs| => Content(download(inputs[j])))[..|inputs| - 1]
            == seq(|init|, j requires 0 <= j < |init| => Content(download(init[j])));
          Success(f + c)
  }

  /**
   * `Reduce(id, inputs)`. `download` stands for `utils.GetS3Object` with the
   * copy into the local file, `sort` for the external `sort` process over the
   * lines of that file, `upload` for `utils.UploadFilename`. Any failure ends
   * the invocation with that error and nothing is uploaded.
   */
  method Reduce(id: int, inputs: seq<Locator>, download: Locator -> Result<Bytes, Error>,
                sort: seq<Bytes> -> Result<seq<Bytes>, Error>,
                upload: (string, Bytes) -> Result<Locator, Error>)
    returns (r: Result<Locator, Error>)
    ensures Fetched(inputs, download).Failure? ==> r == Failure(Fetched(inputs, download).error)
    ensures Fetched(inputs, download).Success? ==>
      var sorted := sort(Lines(Fetched(inputs, download).value));
      && (sorted.Failure? ==> r == Failure(sorted.error))
      && (sorted.Success? ==>
            var merged := Grouped(ScanTexts(sorted.value));
            && (merged.Failure? ==> r == Failure(merged.error))
            && (merged.Success? ==> r == upload(ReduceName(id), merged.value)))
  {
    var f: Bytes := [];
    var i := 0;
    while i < |inputs|
      invariant 0 <= i <= |inputs|
      invariant Fetched(inputs[..i], download) == Success(f)
    {
      assert inputs[..i + 1][..i] == inputs[..i];
      var rd := download(inputs[i]);
      if rd.Failure? {
        FetchedFailsFrom(inputs, download, i + 1);
        return Failure(rd.error);
      }
      f := f + rd.value;
      i := i + 1;
    }
    assert inputs[..i] == inputs;
    var sorted := sort(Lines(f));
    if sorted.Failure? {
      return Failure(sorted.error);
    }
    var merged := Merge(ScanTexts(sorted.value));
    if merged.Failure? {
      return Failure(merged.error);
    }
    r := upload(ReduceName(id), merged.value);
  }

  /** Once a prefix of the inputs fails to download, so do all the inputs, with the same error. */
  lemma {:induction false} FetchedFailsFrom(inputs: seq<Locator>, download: Locator -> Result<Bytes, Error>, k: nat)
    requires k <= |inputs| && Fetched(inputs[..k], download).Failure?
    ensures Fetched(inputs, download) == Fetched(inputs[..k], download)
    decreases |inputs| - k
  {
    if k < |inputs| {
      assert inputs[..k + 1][..k] == inputs[..k];
      FetchedFailsFrom(inputs, download, k + 1);
    } else {
      assert inputs[..k] == inputs;
    }
  }
}
