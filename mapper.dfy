/**
 * The Map stage: tokenise one input document, append `word\t1\n` to the
 * buffer of partition `hash(word, 5)`, then upload the five buffers and
 * return partition index -> locator.
 */
module Mapper {
  import opened Wrappers
  import opened Types
  import opened Decimal
  import opened Partition
  import opened Tokenize
  import opened Records

  /** The number of partitions, hard-wired in the Map stage. */
  const PartitionCount: int := 5

  /** The words of `tokens` that hash to partition i, in input order. */
  function Routed(tokens: seq<Bytes>, i: int): (ws: seq<Bytes>)
    ensures forall j :: 0 <= j < |ws| ==> Hash(ws[j], PartitionCount) == i
    ensures |ws| <= |tokens|
    decreases |tokens|
  {
    if tokens == [] then []
    else
      var w := tokens[|tokens| - 1];
      Routed(tokens[..|tokens| - 1], i) + (if Hash(w, PartitionCount) == i then [w] else [])
  }

  /** The lines Map writes for the words ws, one `w\t1` per occurrence. */
  function CountLines(ws: seq<Bytes>): (ls: seq<Bytes>)
    ensures |ls| == |ws|
    ensures forall j :: 0 <= j < |ws| ==> ls[j] == Record(ws[j], [One])
  {
    seq(|ws|, j requires 0 <= j < |ws| => Record(ws[j], [One]))
  }

  /** The content of partition i's buffer once all of `tokens` has been routed. */
  function PartitionFile(tokens: seq<Bytes>, i: int): Bytes
  {
    Terminated(CountLines(Routed(tokens, i)))
  }

  /** The object name partition i of Map task `id` is uploaded under, in the `map/` prefix. */
  function MapName(id: int, i: int): (name: string)
    ensures |name| > 4 && name[..4] == "map/"
  {
    "map/" + IntText(id) + "-" + IntText(i) + ".txt"
  }

  /** The indices 0 .. k-1. */
  function Below(k: int): (r: set<int>)
    ensures forall i :: i in r <==> 0 <= i < k
    decreases k
  {
    if k <= 0 then {} else Below(k - 1) + {k - 1}
  }

  /** Routing splits the token stream by concatenation: order within a partition is input order. */
  lemma {:induction false} RoutedAppend(a: seq<Bytes>, b: seq<Bytes>, i: int)
    ensures Routed(a + b, i) == Routed(a, i) + Routed(b, i)
    decreases |b|
  {
    if b == [] {
      assert a + b == a;
    } else {
      var b' := b[..|b| - 1];
      assert (a + b)[..|a + b| - 1] == a + b';
      RoutedAppend(a, b', i);
    }
  }

  /**
   * Each occurrence of a word lands in exactly one partition, the one its hash
   * names, and is neither dropped nor deduplicated.
   */
  lemma {:induction false} RoutedCount(tokens: seq<Bytes>, i: int, w: Bytes)
    ensures multiset(Routed(tokens, i))[w] == if Hash(w, PartitionCount) == i then multiset(tokens)[w] else 0
    decreases |tokens|
  {
    if tokens != [] {
      var t' := tokens[..|tokens| - 1];
      RoutedCount(t', i, w);
      assert tokens == t' + [tokens[|tokens| - 1]];
    }
  }

  /** Sum of the sizes of partitions 0 .. k-1. */
  function RoutedTotal(tokens: seq<Bytes>, k: nat): nat
  {
    if k == 0 then 0 else RoutedTotal(tokens, k - 1) + |Routed(tokens, k - 1)|
  }

  /** Summed over the five partitions, every token is routed exactly once. */
  lemma {:induction false} TokensConserved(tokens: seq<Bytes>)
    ensures RoutedTotal(tokens, PartitionCount as nat) == |tokens|
    decreases |tokens|
  {
    if tokens != [] {
      var t' := tokens[..|tokens| - 1];
      TokensConserved(t');
      var p := Hash(tokens[|tokens| - 1], PartitionCount);
      assert p < 5;
      TotalStep(tokens, 5);
    } else {
      TotalOfNothing(5);
    }
  }

  lemma {:induction false} TotalOfNothing(k: nat)
    ensures RoutedTotal([], k) == 0
  {
    if k > 0 {
      TotalOfNothing(k - 1);
    }
  }

  lemma {:induction false} TotalStep(tokens: seq<Bytes>, k: nat)
    requires tokens != []
    ensures RoutedTotal(tokens, k)
      == RoutedTotal(tokens[..|tokens| - 1], k) + (if Hash(tokens[|tokens| - 1], PartitionCount) < k then 1 else 0)
  {
    if k > 0 {
      TotalStep(tokens, k - 1);
    }
  }

  /** Reading a partition file back line by line yields one `w\t1` record per routed word. */
  lemma {:induction false} PartitionFileLines(tokens: seq<Bytes>, i: int)
    requires forall j :: 0 <= j < |tokens| ==> IsWord(tokens[j])
    ensures Lines(PartitionFile(tokens, i)) == CountLines(Routed(tokens, i))
    ensures forall j :: 0 <= j < |Routed(tokens, i)| ==>
      Key(CountLines(Routed(tokens, i))[j]) == Routed(tokens, i)[j]
  {
    var ws := Routed(tokens, i);
    RoutedAreTokens(tokens, i);
    forall j | 0 <= j < |ws|
      ensures Newline !in CountLines(ws)[j] && Key(CountLines(ws)[j]) == ws[j]
    {
      assert ws[j] in multiset(tokens);
      assert Tab !in ws[j] && Newline !in ws[j] by {
        var m :| 0 <= m < |tokens| && tokens[m] == ws[j];
        assert IsWord(tokens[m]);
      }
      RecordFields(ws[j], [One]);
    }
    LinesOfTerminated(CountLines(ws));
  }

  lemma {:induction false} RoutedAreTokens(tokens: seq<Bytes>, i: int)
    ensures multiset(Routed(tokens, i)) <= multiset(tokens)
    decreases |tokens|
  {
    if tokens != [] {
      var t' := tokens[..|tokens| - 1];
      RoutedAreTokens(t', i);
      assert tokens == t' + [tokens[|tokens| - 1]];
    }
  }

  /** Distinct (task, partition) pairs get distinct object names, so shards never collide. */
  lemma {:induction false} MapNamesDistinct(id1: int, i1: int, id2: int, i2: int)
    requires 0 <= i1 < PartitionCount && 0 <= i2 < PartitionCount
    requires MapName(id1, i1) == MapName(id2, i2)
    ensures id1 == id2 && i1 == i2
  {
    var t1, t2 := IntText(id1), IntText(id2);
    var c1, c2 := IntText(i1), IntText(i2);
    assert |c1| == 1 && |c2| == 1;
    MapNameParts(id1, i1);
    MapNameParts(id2, i2);
    assert |t1| == |t2|;
    SliceOfConcat("map/", t1, "-" + c1 + ".txt");
    SliceOfConcat("map/", t2, "-" + c2 + ".txt");
    IntTextInjective(id1, id2);
    SliceOfConcat("map/" + t1 + "-", c1, ".txt");
    SliceOfConcat("map/" + t2 + "-", c2, ".txt");
    IntTextInjective(i1, i2);
  }

  lemma MapNameParts(id: int, i: int)
    ensures MapName(id, i) == "map/" + IntText(id) + ("-" + IntText(i) + ".txt")
    ensures MapName(id, i) == ("map/" + IntText(id) + "-") + IntText(i) + ".txt"
    ensures |MapName(id, i)| == 9 + |IntText(id)| + |IntText(i)|
  {
  }

  lemma SliceOfConcat<T>(a: seq<T>, b: seq<T>, c: seq<T>)
    ensures (a + b + c)[|a|..|a| + |b|] == b
  {
  }

  /** Appending one token changes only the buffer of the partition it hashes to. */
  lemma {:induction false} RouteStep(tokens: seq<Bytes>, t: nat, i: int)
    requires t < |tokens|
    ensures PartitionFile(tokens[..t + 1], i) == PartitionFile(tokens[..t], i)
      + (if Hash(tokens[t], PartitionCount) == i then Record(tokens[t], [One]) + [Newline] else [])
  {
    var word := tokens[t];
    assert tokens[..t + 1][..t] == tokens[..t];
    var ws := Routed(tokens[..t], i);
    assert Routed(tokens[..t + 1], i) == ws + (if Hash(word, PartitionCount) == i then [word] else []);
    if Hash(word, PartitionCount) == i {
      var rec := Record(word, [One]);
      assert CountLines(ws + [word]) == CountLines(ws) + [rec];
      TerminatedAppend(CountLines(ws), [rec]);
      var nothing: seq<Bytes> := [];
      assert [rec][1..] == nothing;
      assert Terminated([rec]) == rec + [Newline];
    } else {
      assert ws + [] == ws;
    }
  }

  /**
   * The tokenise-and-route loop of Map: one buffer per partition, each word
   * appended as `word\t1\n` to the buffer of the partition it hashes to.
   */
  method Route(tokens: seq<Bytes>) returns (files: seq<Bytes>)
    ensures |files| == PartitionCount
    ensures forall i :: 0 <= i < PartitionCount ==> files[i] == PartitionFile(tokens, i)
  {
    var buffers := new Bytes[PartitionCount](_ => []);
    var t := 0;
    while t < |tokens|
      invariant 0 <= t <= |tokens|
      invariant forall i :: 0 <= i < PartitionCount ==> buffers[i] == PartitionFile(tokens[..t], i)
    {
      var word := tokens[t];
      var p := Hash(word, PartitionCount);
      forall i | 0 <= i < PartitionCount {
        RouteStep(tokens, t, i);
      }
      buffers[p] := buffers[p] + Record(word, [One]) + [Newline];
      t := t + 1;
    }
    assert tokens[..t] == tokens;
    files := buffers[..];
  }

  /**
   * The upload loop of Map: buffer i goes up under `names[i]`; the first
   * failing upload ends the loop, returning the locators collected so far
   * with the error.
   */
  method UploadAll(names: seq<string>, files: seq<Bytes>, upload: (string, Bytes) -> Result<Locator, Error>)
    returns (outputs: map<int, Locator>, err: Option<Error>)
    requires |names| == |files| == PartitionCount
    ensures forall i :: i in outputs ==> 0 <= i < PartitionCount && upload(names[i], files[i]) == Success(outputs[i])
    ensures err.None? <==> outputs.Keys == Below(PartitionCount)
    ensures err.None? <==> forall i :: 0 <= i < PartitionCount ==> upload(names[i], files[i]).Success?
    ensures err.Some? ==> exists k :: 0 <= k < PartitionCount && outputs.Keys == Below(k)
                                      && upload(names[k], files[k]) == Failure(err.value)
  {
    outputs := map[];
    var i := 0;
    while i < PartitionCount
      invariant 0 <= i <= PartitionCount
      invariant outputs.Keys == Below(i)
      invariant forall j :: j in outputs ==> upload(names[j], files[j]) == Success(outputs[j])
    {
      var uploaded := upload(names[i], files[i]);
      if uploaded.Failure? {
        return outputs, Some(uploaded.error);
      }
      outputs := outputs[i := uploaded.value];
      i := i + 1;
    }
    err := None;
  }

  /**
   * `Map(id, input)`. `fetch` stands for the HTTP GET of the input and
   * `upload` for `utils.UploadFilename`; each returns a value or an error.
   * On success every partition 0..4 is present, each holding the locator of
   * its uploaded buffer; an upload failure returns the locators of the
   * partitions uploaded before it together with that error.
   */
  method Map(id: int, input: Locator, fetch: Locator -> Result<Bytes, Error>,
             upload: (string, Bytes) -> Result<Locator, Error>)
    returns (outputs: map<int, Locator>, err: Option<Error>)
    ensures fetch(input).Failure? ==> outputs == map[] && err == Some(fetch(input).error)
    ensures fetch(input).Success? ==>
      var tokens := Tokens(fetch(input).value);
      && (forall i :: i in outputs ==> upload(MapName(id, i), PartitionFile(tokens, i)) == Success(outputs[i]))
      && (err.None? <==> outputs.Keys == Below(PartitionCount))
      && (err.None? <==> forall i :: 0 <= i < PartitionCount ==> upload(MapName(id, i), PartitionFile(tokens, i)).Success?)
      && (err.Some? ==> exists k :: 0 <= k < PartitionCount && outputs.Keys == Below(k)
                                   && upload(MapName(id, k), PartitionFile(tokens, k)) == Failure(err.value))
  {
    var fetched := fetch(input);
    if fetched.Failure? {
      return map[], Some(fetched.error);
    }
    var tokens := Tokens(fetched.value);
    var files := Route(tokens);
    var names := seq(PartitionCount, i => MapName(id, i));
    outputs, err := UploadAll(names, files, upload);
  }
}
