/**
 * Map and Reduce composed for one partition: the documents are tokenised
 * and routed by the Map stage, the Reduce stage for partition p downloads
 * every document's partition-p buffer, sorts the lines and merges them. On
 * that input the merge emits, for every word that hashes to p and only for
 * those, one record whose count is the word's number of occurrences across
 * all documents.
 */
module WordCount {
  import opened Wrappers
  import opened Types
  import opened Decimal
  import opened Partition
  import opened Tokenize
  import opened Records
  import opened Mapper
  import opened Reducer

  /** Every token of every document, in document order. */
  function AllTokens(docs: seq<Bytes>): seq<Bytes>
  {
    Flatten(seq(|docs|, j requires 0 <= j < |docs| => Tokens(docs[j])))
  }

  /** The partition-p buffers the Map tasks for `docs` upload, in document order. */
  function MapOutputs(docs: seq<Bytes>, p: int): seq<Bytes>
  {
    seq(|docs|, j requires 0 <= j < |docs| => PartitionFile(Tokens(docs[j]), p))
  }

  predicate AllWords(ts: seq<Bytes>)
  {
    forall j :: 0 <= j < |ts| ==> IsWord(ts[j])
  }

  /** A line as the Map stage writes it: a key, a tab and the count 1. */
  predicate IsCountLine(line: Bytes)
  {
    line == Record(Key(line), [One])
  }

  lemma {:induction false} CountRecordInjective(a: Bytes, b: Bytes)
    requires Record(a, [One]) == Record(b, [One])
    ensures a == b
  {
    assert |a| == |b|;
    assert a == Record(a, [One])[..|a|];
    assert b == Record(b, [One])[..|b|];
  }

  lemma {:induction false} WordHasNoTab(w: Bytes)
    requires IsWord(w)
    ensures Tab !in w
  {
  }

  /** What a count line offers the Reduce stage: value 1, a tab, no carriage return to drop. */
  lemma {:induction false} CountLineFacts(line: Bytes)
    requires IsCountLine(line)
    ensures ValueIsOne(line) && Tab in line && DropCR(line) == line
  {
    var k := Key(line);
    RecordFields(k, [One]);
    assert line[|k|] == Tab;
    assert line[|line| - 1] == One;
  }

  lemma {:induction false} CountLinesAppend(a: seq<Bytes>, b: seq<Bytes>)
    ensures CountLines(a + b) == CountLines(a) + CountLines(b)
  {
    assert forall j :: 0 <= j < |a + b| ==> CountLines(a + b)[j] == (CountLines(a) + CountLines(b))[j];
  }

  /** Concatenating the documents' partition-p buffers gives the buffer of the concatenated tokens. */
  lemma {:induction false} MapOutputsConcatenate(docs: seq<Bytes>, p: int)
    ensures Flatten(MapOutputs(docs, p)) == PartitionFile(AllTokens(docs), p)
    decreases |docs|
  {
    if docs != [] {
      var n := |docs|;
      var init := docs[..n - 1];
      MapOutputsConcatenate(init, p);
      var parts := seq(|docs|, j requires 0 <= j < |docs| => Tokens(docs[j]));
      assert parts[..n - 1] == seq(|init|, j requires 0 <= j < |init| => Tokens(init[j]));
      assert MapOutputs(docs, p)[..n - 1] == MapOutputs(init, p);
      var a, b := AllTokens(init), Tokens(docs[n - 1]);
      assert AllTokens(docs) == a + b;
      RoutedAppend(a, b, p);
      CountLinesAppend(Routed(a, p), Routed(b, p));
      TerminatedAppend(CountLines(Routed(a, p)), CountLines(Routed(b, p)));
    }
  }

  lemma {:induction false} AllTokensAreWords(docs: seq<Bytes>)
    ensures AllWords(AllTokens(docs))
    decreases |docs|
  {
    if docs != [] {
      var n := |docs|;
      var init := docs[..n - 1];
      AllTokensAreWords(init);
      var parts := seq(|docs|, j requires 0 <= j < |docs| => Tokens(docs[j]));
      assert parts[..n - 1] == seq(|init|, j requires 0 <= j < |init| => Tokens(init[j]));
      var a, b := AllTokens(init), Tokens(docs[n - 1]);
      assert AllTokens(docs) == a + b;
      forall j | 0 <= j < |a + b|
        ensures IsWord((a + b)[j])
      {
        if j >= |a| {
          assert (a + b)[j] == b[j - |a|];
        }
      }
    }
  }

  /** A word occurring k times yields exactly k copies of its count line. */
  lemma {:induction false} CountLineMultiplicity(ws: seq<Bytes>, k: Bytes)
    ensures multiset(CountLines(ws))[Record(k, [One])] == multiset(ws)[k]
    decreases |ws|
  {
    if ws != [] {
      var n := |ws|;
      var init, w := ws[..n - 1], ws[n - 1];
      CountLineMultiplicity(init, k);
      assert ws == init + [w];
      CountLinesAppend(init, [w]);
      if Record(w, [One]) == Record(k, [One]) {
        CountRecordInjective(w, k);
      }
    }
  }

  /** Among count lines, the lines with key k are exactly the copies of `k\t1`. */
  lemma {:induction false} KeyCountOfCountLines(lines: seq<Bytes>, k: Bytes)
    requires forall j :: 0 <= j < |lines| ==> IsCountLine(lines[j])
    ensures KeyCount(lines, k) == multiset(lines)[Record(k, [One])]
    decreases |lines|
  {
    if lines != [] {
      KeyCountOfCountLines(lines[1..], k);
      assert lines == [lines[0]] + lines[1..];
      if lines[0] == Record(k, [One]) {
        CountRecordInjective(Key(lines[0]), k);
      }
    }
  }

  /** Every line's key is the key of some run. */
  lemma {:induction false} RunOfLine(lines: seq<Bytes>, j: nat)
    requires j < |lines|
    ensures exists a :: 0 <= a < |Runs(lines)| && Key(Runs(lines)[a][0]) == Key(lines[j])
    decreases |lines|
  {
    var n := RunLength(lines);
    var rs := Runs(lines);
    assert rs == [lines[..n]] + Runs(lines[n..]);
    if j < n {
      assert rs[0][0] == lines[0];
    } else {
      RunOfLine(lines[n..], j - n);
      var a :| 0 <= a < |Runs(lines[n..])| && Key(Runs(lines[n..])[a][0]) == Key(lines[n..][j - n]);
      assert rs[a + 1] == Runs(lines[n..])[a];
    }
  }

  /** The sorted lines of a partition are count lines of words hashing to that partition. */
  lemma {:induction false} SortedAreCountLines(tokens: seq<Bytes>, p: int, sorted: seq<Bytes>)
    requires AllWords(tokens)
    requires SortedPermutationOf(sorted, CountLines(Routed(tokens, p)))
    ensures |sorted| <= |tokens|
    ensures forall j :: 0 <= j < |sorted| ==> IsCountLine(sorted[j]) && Hash(Key(sorted[j]), PartitionCount) == p
  {
    var ws := Routed(tokens, p);
    PartitionFileLines(tokens, p);
    var lines := CountLines(ws);
    assert |sorted| == |multiset(sorted)| == |multiset(lines)| == |lines|;
    forall j | 0 <= j < |sorted|
      ensures IsCountLine(sorted[j]) && Hash(Key(sorted[j]), PartitionCount) == p
    {
      assert sorted[j] in multiset(lines);
      var m :| 0 <= m < |lines| && lines[m] == sorted[j];
      assert Key(lines[m]) == ws[m];
    }
  }

  /** Each run of the sorted lines is as long as its key's occurrences among the tokens. */
  lemma {:induction false} RunLengthsAreOccurrences(tokens: seq<Bytes>, p: int, sorted: seq<Bytes>)
    requires AllWords(tokens)
    requires SortedPermutationOf(sorted, CountLines(Routed(tokens, p)))
    requires KeysContiguous(sorted)
    ensures forall a :: 0 <= a < |Runs(sorted)| ==>
      |Runs(sorted)[a]| == multiset(tokens)[Key(Runs(sorted)[a][0])]
  {
    SortedAreCountLines(tokens, p, sorted);
    PartitionFileLines(tokens, p);
    RunLengthIsKeyCount(sorted);
    RunHeadsIn(sorted);
    var rs := Runs(sorted);
    forall a | 0 <= a < |rs|
      ensures |rs[a]| == multiset(tokens)[Key(rs[a][0])]
    {
      var k := Key(rs[a][0]);
      var m :| 0 <= m < |sorted| && sorted[m] == rs[a][0];
      KeyCountOfCountLines(sorted, k);
      CountLineMultiplicity(Routed(tokens, p), k);
      RoutedCount(tokens, p, k);
    }
  }

  /** No two runs of the lines share a key: the merge writes at most one record per word. */
  predicate RunKeysUnique(sorted: seq<Bytes>)
  {
    forall a, b :: 0 <= a < b < |Runs(sorted)| ==> Key(Runs(sorted)[a][0]) != Key(Runs(sorted)[b][0])
  }

  /** Every run's key belongs to partition p and the run is as long as the key's occurrences in `tokens`. */
  predicate RunsCountTokens(sorted: seq<Bytes>, tokens: seq<Bytes>, p: int)
  {
    forall a :: 0 <= a < |Runs(sorted)| ==>
      && Hash(Key(Runs(sorted)[a][0]), PartitionCount) == p
      && |Runs(sorted)[a]| == multiset(tokens)[Key(Runs(sorted)[a][0])]
  }

  /** Every token of partition p is the key of some run. */
  predicate RunsCoverTokens(sorted: seq<Bytes>, tokens: seq<Bytes>, p: int)
  {
    forall i :: 0 <= i < |tokens| && Hash(tokens[i], PartitionCount) == p ==> HasRun(sorted, tokens[i])
  }

  /** Some run of the lines has key w: the merge writes a record for w. */
  predicate HasRun(sorted: seq<Bytes>, w: Bytes)
  {
    exists a :: 0 <= a < |Runs(sorted)| && Key(Runs(sorted)[a][0]) == w
  }

  /** Every word of the partition is the key of some run. */
  lemma {:induction false} EveryWordHasRun(tokens: seq<Bytes>, p: int, sorted: seq<Bytes>, i: nat)
    requires AllWords(tokens)
    requires SortedPermutationOf(sorted, CountLines(Routed(tokens, p)))
    requires i < |tokens| && Hash(tokens[i], PartitionCount) == p
    ensures HasRun(sorted, tokens[i])
  {
    var w := tokens[i];
    PartitionFileLines(tokens, p);
    RoutedCount(tokens, p, w);
    CountLineMultiplicity(Routed(tokens, p), w);
    var line := Record(w, [One]);
    assert line in multiset(sorted);
    var j :| 0 <= j < |sorted| && sorted[j] == line;
    WordHasNoTab(w);
    RecordFields(w, [One]);
    RunOfLine(sorted, j);
  }

  lemma {:induction false} EveryWordHasRuns(tokens: seq<Bytes>, p: int, sorted: seq<Bytes>)
    requires AllWords(tokens)
    requires SortedPermutationOf(sorted, CountLines(Routed(tokens, p)))
    ensures RunsCoverTokens(sorted, tokens, p)
  {
    forall i | 0 <= i < |tokens| && Hash(tokens[i], PartitionCount) == p
      ensures HasRun(sorted, tokens[i])
    {
      EveryWordHasRun(tokens, p, sorted, i);
    }
  }

  /** The scanner hands the sorted count lines to the merge unchanged, as lines the merge can count. */
  lemma {:induction false} ScanKeepsCountLines(sorted: seq<Bytes>)
    requires forall j :: 0 <= j < |sorted| ==> IsCountLine(sorted[j])
    ensures ScanTexts(sorted) == sorted
    ensures forall j :: 0 <= j < |sorted| ==> ValueIsOne(sorted[j]) && Tab in sorted[j]
  {
    forall j | 0 <= j < |sorted|
      ensures ValueIsOne(sorted[j]) && Tab in sorted[j] && DropCR(sorted[j]) == sorted[j]
    {
      CountLineFacts(sorted[j]);
    }
  }

  /** The partition's lines after `sort`, merged: one record per word of the partition, with its count. */
  lemma {:induction false} SortedPartitionCounted(tokens: seq<Bytes>, p: int, sorted: seq<Bytes>)
    requires AllWords(tokens) && |tokens| <= MaxInt64
    requires SortedPermutationOf(sorted, CountLines(Routed(tokens, p)))
    ensures ScanTexts(sorted) == sorted
    ensures Grouped(sorted) == Success(Tally(Runs(sorted)))
    ensures RunKeysUnique(sorted)
    ensures RunsCountTokens(sorted, tokens, p)
  {
    SortedAreCountLines(tokens, p, sorted);
    ScanKeepsCountLines(sorted);
    GroupedAllOnes(sorted);
    SortedKeysContiguous(sorted);
    RunKeysDistinct(sorted);
    RunLengthsAreOccurrences(tokens, p, sorted);
    RunHeadsIn(sorted);
  }

  /**
   * The lines of the documents' partition-p buffers, downloaded one after
   * another, are one count line per word routed to p, in document order.
   */
  lemma {:induction false} DownloadedLines(docs: seq<Bytes>, p: int)
    ensures Lines(Flatten(MapOutputs(docs, p))) == CountLines(Routed(AllTokens(docs), p))
  {
    MapOutputsConcatenate(docs, p);
    AllTokensAreWords(docs);
    PartitionFileLines(AllTokens(docs), p);
  }

  /**
   * One partition end to end. Once `sort` has ordered the lines the Reduce
   * stage downloads (`DownloadedLines`), the scanner leaves every line as it
   * is and the merge succeeds with one record per run; no two runs
   * share a key; every run's key hashes to p and its count is the key's
   * number of occurrences in all documents; and every word of the documents
   * that hashes to p has a run.
   */
  lemma {:induction false} PartitionCounted(docs: seq<Bytes>, p: int, sorted: seq<Bytes>)
    requires |AllTokens(docs)| <= MaxInt64
    requires SortedPermutationOf(sorted, CountLines(Routed(AllTokens(docs), p)))
    ensures ScanTexts(sorted) == sorted
    ensures Grouped(ScanTexts(sorted)) == Success(Tally(Runs(sorted)))
    ensures RunKeysUnique(sorted)
    ensures RunsCountTokens(sorted, AllTokens(docs), p)
    ensures RunsCoverTokens(sorted, AllTokens(docs), p)
  {
    var tokens := AllTokens(docs);
    AllTokensAreWords(docs);
    SortedPartitionCounted(tokens, p, sorted);
    EveryWordHasRuns(tokens, p, sorted);
  }

  /** No Map intermediate object is ever named like a Reduce output, so neither overwrites the other. */
  lemma {:induction false} ObjectNamesDisjoint(id: int, i: int, rid: int)
    ensures MapName(id, i) != ReduceName(rid)
  {
    var m, r := MapName(id, i), ReduceName(rid);
    assert m[..4] == "map/" && r[..4] == "redu";
  }
}
