# Word count on kubemr, modelled in Dafny

kubemr runs MapReduce jobs on Kubernetes. Its example job, `cmd/wordcount`,
counts words.

- **Map** (`Map(id, input)`) fetches one document over HTTP and splits it
  into whitespace-separated words with a `bufio.Scanner` in `ScanWords` mode.
  For each word it appends the line `word<TAB>1` to one of five partition
  buffers, chosen by FNV-1a (32 bits) of the word modulo 5. It then uploads
  the five buffers as `map/<id>-<i>.txt` and returns the map from partition
  index to object locator.
- **Reduce** (`Reduce(id, inputs)`) downloads every input object and
  concatenates them. It sorts the lines with the external `sort` program and
  reads them back with `ScanLines`. A single pass then merges adjacent lines
  with equal keys: the first line of a key gives the starting count through
  `strconv.Atoi`, and every further line adds one. Reduce writes
  `key<TAB>count` for each key whose count is positive and uploads the result
  as `reduce/<id>.txt`.

The model has these modules, one file each:

| module | file | what it holds |
|---|---|---|
| `Types`, `Wrappers` | `types.dfy`, `wrappers.dfy` | bytes, the record-format constants, errors, `Option`/`Result`, `Flatten` |
| `Partition` | `partition.dfy` | FNV-1a 32 and `hash(s, n)` |
| `Tokenize` | `tokenize.dfy` | `bufio.ScanWords` as a scan over bytes |
| `Records` | `records.dfy` | `strings.Split`, record lines, the line view of a file, `ScanLines`' carriage-return drop, byte order and what `sort` guarantees |
| `Decimal` | `decimal.dfy` | `%d`/`%v` formatting and `strconv.Atoi` on int64 |
| `Mapper` | `mapper.dfy` | routing, the five partition buffers (an array updated in place), uploading, `Map` |
| `Reducer` | `reducer.dfy` | the merge loop as a method, a run-based reference definition, `Reduce` |
| `ReduceExamples` | `reduce_examples.dfy` | concrete merges, including the source's edge cases |
| `WordCount` | `wordcount.dfy` | Map and Reduce composed for one partition |

Collaborators are function-valued parameters that return a value or an
error:
- `fetch` is the HTTP GET;
- `download` is `GetS3Object` plus the copy;
- `sort` is the `sort` process;
- `upload` is `UploadFilename`.

Go's `int` is treated as 64 bits. `count++` wraps from 2^63-1 to -2^63, and
`Atoi` accepts exactly the int64 range.

## Model

| member | source | states |
|---|---|---|
| Partition.Hash | cmd/wordcount/main.go:29-34 | The partition is in `[0, n mod 2^32)`, and in `[0, n)` for `0 < n < 2^32`. A divisor that is 0 after Go's `uint32(n)` truncation is excluded, because the source panics on it. |
| Partition.Fnv1aVectors | cmd/wordcount/main.go:30-32 | The hash function is FNV-1a 32: it gives the published FNV test vectors 0x811c9dc5 (""), 0xe40c292c ("a") and 0xbf9cf968 ("foobar"). |
| Partition.Fnv1aSnoc | cmd/wordcount/main.go:30-32 | `Fnv1a` is the left fold of the FNV-1a round: the empty string hashes to the offset basis, and appending a byte applies one xor-then-multiply round to the hash so far. |
| Partition.AbsorbAppend | cmd/wordcount/main.go:30-31 | Hashing `a + b` equals hashing `a` and then feeding `b`. The hash depends only on the bytes written, not on how writes are chunked. |
| Tokenize.Tokens | cmd/wordcount/main.go:58-62 | Every word the scanner yields is non-empty and contains no whitespace byte. |
| Tokenize.ScanPrefix | cmd/wordcount/main.go:58-62 | After any prefix, the completed words are valid words and the word in progress has no whitespace. |
| Tokenize.TokensOfSpace | cmd/wordcount/main.go:58-62 | Input that is all whitespace, including empty input, yields no words. |
| Tokenize.TokensOfWord | cmd/wordcount/main.go:58-62 | A lone word is yielded whole, as the only token. |
| Tokenize.TokensSplit | cmd/wordcount/main.go:58-62 | A whitespace byte separates the input: the tokens of `a c b` are the tokens of `a` followed by the tokens of `b`. |
| Tokenize.TokensConserveBytes | cmd/wordcount/main.go:58-62 | The words, concatenated, are exactly the input's non-whitespace bytes in order. No byte is lost or duplicated. |
| Tokenize.ScanConservesBytes | cmd/wordcount/main.go:58-62 | The same conservation holds after every prefix, counting the word in progress. |
| Records.Split | cmd/wordcount/main.go:136 | `strings.Split` always returns at least one piece, and no piece contains the separator. |
| Records.JoinSplit | cmd/wordcount/main.go:136 | Joining the pieces with the separator gives back the original line. |
| Records.Key | cmd/wordcount/main.go:136-137 | A line's key, `splitted[0]`, contains no tab. |
| Records.RecordFields | cmd/wordcount/main.go:65 | The line Map writes for a tab-free word has that word as key and at least two fields. With a tab-free value the fields are exactly `[word, value]`. |
| Records.Lines | cmd/wordcount/main.go:108-117 | No line of a file contains a newline. |
| Records.LinesOfTerminated | cmd/wordcount/main.go:65 | Reading back lines that were each written with a trailing newline gives exactly those lines. |
| Records.TerminatedAppend | cmd/wordcount/main.go:101 | Appending files concatenates their newline-terminated line lists. |
| Records.DropCR | cmd/wordcount/main.go:131-135 | `ScanLines` changes a line exactly when it ends with a carriage return, and then removes only that one byte. |
| Records.ScanCRLF | cmd/wordcount/main.go:131-135 | A file whose lines end with CR LF is scanned back to exactly its lines, with no carriage return left. |
| Records.DropCRKeepsKey | cmd/wordcount/main.go:135-136 | Dropping the carriage return never changes the key of a line that has a tab. |
| Records.SortedKeysContiguous | cmd/wordcount/main.go:108 | In byte-sorted lines that each contain a tab, lines with equal keys are adjacent. This is what makes one pass over the sorted file sufficient. |
| Records.PrefixBetween | cmd/wordcount/main.go:108 | In byte order, a line between two lines that share a prefix shares it too. |
| Decimal.ValueOfDigits | cmd/wordcount/main.go:140 | The digits `%d` writes denote the number. |
| Decimal.DecimalBytes | cmd/wordcount/main.go:140 | `%d` of a non-negative count writes one or more digit bytes, with no leading zero. |
| Decimal.IntText | cmd/wordcount/main.go:70 | `%v` of an int is non-empty and starts with a minus sign exactly when the int is negative. |
| Decimal.IntTextInjective | cmd/wordcount/main.go:70 | `%v` of an int determines the int. |
| Decimal.Atoi | cmd/wordcount/main.go:143-146 | A parsed count lies in int64 range. A rejected field fails with that field. Empty input and a bare sign are rejected. |
| Decimal.AtoiRejectsNonDigit | cmd/wordcount/main.go:143-146 | A field with a byte that is neither a digit nor a leading sign is rejected, e.g. `1a` or `abc`. |
| Decimal.AtoiSigned | cmd/wordcount/main.go:143 | `+d` parses to d and `-d` to -d. `-d` is accepted down to -2^63, `+d` up to 2^63-1. |
| Decimal.AtoiAcceptsDigits | cmd/wordcount/main.go:143 | A digit string is accepted exactly when its value fits in int64, and then it parses to that value. |
| Decimal.AtoiOfDecimal | cmd/wordcount/main.go:140-143 | The output of `%d` for a value up to 2^63-1 parses back to that value. |
| Mapper.Routed | cmd/wordcount/main.go:61-66 | Every word routed to partition i hashes to i. A partition never has more words than the input. |
| Mapper.RoutedAppend | cmd/wordcount/main.go:61-66 | Routing commutes with concatenating inputs, so order within a partition is input order. |
| Mapper.RoutedCount | cmd/wordcount/main.go:64-65 | Partition i holds each word exactly as often as the input does if the word hashes to i, and never otherwise. |
| Mapper.RoutedAreTokens | cmd/wordcount/main.go:61-66 | Each partition is a sub-multiset of the input words. |
| Mapper.TokensConserved | cmd/wordcount/main.go:64 | Over the five partitions, every token is routed exactly once. |
| Mapper.PartitionFileLines | cmd/wordcount/main.go:65 | Read back line by line, partition i's buffer is one `w<TAB>1` line per routed word, and each line's key is its word. |
| Mapper.MapName | cmd/wordcount/main.go:70 | Every Map object is named under the `map/` prefix. |
| Mapper.MapNamesDistinct | cmd/wordcount/main.go:70 | Different (task, partition) pairs get different object names `map/<id>-<i>.txt`. |
| Mapper.Route | cmd/wordcount/main.go:45-66 | The five buffers, filled in place word by word, end up as the partition files of the token stream. |
| Mapper.UploadAll | cmd/wordcount/main.go:68-75 | Outputs has every index exactly when every upload succeeded. Otherwise it has exactly the indices before the first failed upload, and that upload's error is returned. Each entry is the locator its upload returned. |
| Mapper.Map | cmd/wordcount/main.go:41-78 | A failed fetch returns an empty map and the error. Otherwise each uploaded object is the partition file of the fetched document's words, under `map/<id>-<i>.txt`, with the same all-or-prefix outcome as `UploadAll`. |
| Reducer.Emit | cmd/wordcount/main.go:139-141 | Output is written for a group exactly when its count is positive. A count of 0 or below writes nothing. |
| Reducer.EmitReadsBack | cmd/wordcount/main.go:139-141 | For a positive count and a word without tab or newline, the record reads back as the single line `word<TAB>count`. Its fields are the word and the digits, and the digits parse back to the count. |
| Reducer.Inc | cmd/wordcount/main.go:148 | `count++` stays within int64, wrapping at the top. |
| Reducer.IncByAdds | cmd/wordcount/main.go:148 | k increments add k while no wrap occurs. |
| Reducer.RunLength | cmd/wordcount/main.go:137 | The head run of equal keys is non-empty and maximal: every line in it has the head's key, and the next line does not. |
| Reducer.RunsFlatten | cmd/wordcount/main.go:134-150 | The maximal runs, concatenated, are exactly the lines. |
| Reducer.RunsMaximal | cmd/wordcount/main.go:137 | Each run has one key, and adjacent runs have different keys. |
| Reducer.MergeFrom | cmd/wordcount/main.go:132-154 | The merge state machine from any (word, count). It fails only with the index-out-of-range panic or an `Atoi` rejection. |
| Reducer.MergeBadCount | cmd/wordcount/main.go:137-146 | A line that starts a new key and has a non-numeric second field makes the merge fail with `Atoi`'s error, whatever follows. |
| Reducer.MergeIsGrouped | cmd/wordcount/main.go:132-154 | The merge state machine started from `word = ""`, `count = 0` agrees with the run-based reference `Grouped`: one record per maximal run, counted from the run's first value. A leading run with empty key continues the initial word and counts from 0. |
| Reducer.Merge | cmd/wordcount/main.go:130-154 | The imperative loop over the scanned lines returns `Grouped(lines)`, including its `Atoi` error and its index-out-of-range panic. |
| Reducer.GroupedAllOnes | cmd/wordcount/main.go:132-154 | When every line's value is `1`, as Map writes it, the merge succeeds and writes `key<TAB>n` for each run, n being the run's length. |
| Reducer.RunKeysDistinct | cmd/wordcount/main.go:137-142 | With equal keys adjacent, no two runs share a key, so each word is written at most once. |
| Reducer.RunLengthIsKeyCount | cmd/wordcount/main.go:137-148 | With equal keys adjacent, each run's length is the number of lines carrying its key. |
| Reducer.ReduceName | cmd/wordcount/main.go:160 | Every Reduce output is named under the `reduce/` prefix. |
| Reducer.ReduceNamesDistinct | cmd/wordcount/main.go:160 | Reduce tasks with different ids upload under different names `reduce/<id>.txt`. |
| Reducer.Fetched | cmd/wordcount/main.go:96-106 | Downloading succeeds exactly when every download does, and the content is their concatenation in input order. Otherwise the result is the error of the first failed download. |
| Reducer.FetchedFailsFrom | cmd/wordcount/main.go:97-100 | A failure in a prefix of the inputs is the failure of the whole download loop. |
| Reducer.Reduce | cmd/wordcount/main.go:87-161 | Reduce returns the first error among download, sort and merge. Otherwise it uploads the merge of the sorted lines under `reduce/<id>.txt` and returns what the upload returns. |
| ReduceExamples.ThreeWords | cmd/wordcount/main.go:132-154 | The sorted lines `x 1, x 1, x 1, y 1, z 1` reduce to `x 3, y 1, z 1`. |
| ReduceExamples.TablessNewKeyPanics | cmd/wordcount/main.go:136-143 | A tab-less line whose text differs from the current word fails with index out of range, whatever follows it. |
| ReduceExamples.TablessFirstLinePanics | cmd/wordcount/main.go:136-143 | A non-empty, tab-less first line fails the whole merge. |
| ReduceExamples.TablessSameKeyCounted | cmd/wordcount/main.go:137-148 | A tab-less line equal to the current word is counted, not rejected: `x 1, x` gives `x 2`. |
| ReduceExamples.LaterValuesIgnored | cmd/wordcount/main.go:143-148 | Only a run's first value is parsed: `x 5, x 7` gives `x 6`. |
| ReduceExamples.LeadingEmptyKey | cmd/wordcount/main.go:132-137 | Leading lines with an empty key extend the initial empty word and are counted from 0: `<TAB>5, <TAB>5` gives `<TAB>2`. |
| ReduceExamples.NonNumericCountFails | cmd/wordcount/main.go:143-146 | A first line `x<TAB>a` with a non-numeric count fails the whole reduction with `Atoi`'s error on `a`, whatever follows. |
| ReduceExamples.NegativeCountSuppressed | cmd/wordcount/main.go:139-153 | A signed count is parsed with its sign, and a non-positive count writes nothing: `x<TAB>-3` alone reduces to empty output. |
| WordCount.ObjectNamesDisjoint | cmd/wordcount/main.go:160 | No Map object name `map/<id>-<i>.txt` equals a Reduce output name `reduce/<id>.txt`, so neither stage overwrites the other's objects. |
| WordCount.MapOutputsConcatenate | cmd/wordcount/main.go:101 | Concatenating the documents' partition-p buffers gives the partition-p buffer of all their words. |
| WordCount.CountLineMultiplicity | cmd/wordcount/main.go:65 | A word occurring k times gives exactly k copies of its `w<TAB>1` line. |
| WordCount.SortedPartitionCounted | cmd/wordcount/main.go:108-154 | Take a sorted permutation of partition p's count lines for some words. The scanner changes none of them, the merge succeeds, and no two runs share a key. Each run's key hashes to p, and its count is the word's number of occurrences. |
| WordCount.DownloadedLines | cmd/wordcount/main.go:96-108 | The lines `sort` receives for partition p are exactly one `w<TAB>1` line per word of the documents that hashes to p, in document order. The downloaded data is the concatenated partition-p Map outputs. |
| WordCount.PartitionCounted | cmd/wordcount/main.go:41-161 | End to end for partition p over any documents, given a sorted permutation of those lines. The scanner changes nothing and the merge succeeds, writing one record per run. No two runs share a key. There is a record for every word that hashes to p and none for other words. Each count is the word's total occurrences across all documents. |

## Left out

- HTTP, S3 and the `sort` process are parameters, as described above. Temporary files are not modelled: their creation, `Close`, `os.Remove`, `f.Name()` and their errors.
- Map's temp-file creation (lines 45-51) happens before the fetch. Its failure path, which returns an empty map and the error, is not modelled separately from the fetch failure.
- Reduce reads `f.Name()` before checking the `TempFile` error (lines 88-93), so a failed `TempFile` would dereference nil. Temp files are not modelled, so this is not either.
- The HTTP status code is never checked by the source. A non-200 body is tokenised like any other; the model passes the fetched bytes through as they are.
- `bufio.Scanner` limits tokens and lines to 64 KiB and reports I/O errors through `Err()`. The source never calls `Err()`, so a scan ends silently. The model scans all input, with no token limit and no read error.
- `Tokenize.Tokens`: whitespace is the six ASCII bytes `\t \n \v \f \r` and space. `ScanWords` also splits on U+0085, U+00A0 and other Unicode spaces, which are not modelled.
- `sort` is any sorted permutation in byte order, as the C locale gives. A locale with a different collation is not modelled; the contiguity of equal keys (`Records.SortedKeysContiguous`) depends on byte order.
- Hash: the requires excludes every n whose low 32 bits are zero. For those n, Go's `uint32(n)` divisor is 0 and the `%` panics. The only call passes 5.
- `Decimal.Atoi`: syntax and range errors are one error, `BadCount`. Go's `*NumError` distinguishes them, and the model does not.
- The index-out-of-range panic on `splitted[1]` becomes the error value `IndexOutOfRange`. It is not a process crash.
- Logging, flags, `init` and `main`, and the worker runner are not part of this model.

