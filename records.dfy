/**
 * The intermediate record format (`key<TAB>value` lines), how the file of
 * records is cut into lines, and the byte order the external `sort` puts
 * those lines in.
 */
module Records {
  import opened Types

  /** `strings.Split(s, sep)` for a one-byte separator: the pieces between separators. */
  function Split(s: Bytes, sep: Byte): (ps: seq<Bytes>)
    ensures |ps| >= 1
    ensures forall j :: 0 <= j < |ps| ==> sep !in ps[j]
    decreases |s|
  {
    if s == [] then [[]]
    else if s[0] == sep then [[]] + Split(s[1..], sep)
    else
      var rest := Split(s[1..], sep);
      [[s[0]] + rest[0]] + rest[1..]
  }

  /** `strings.Join(ps, sep)`. */
  function Join(ps: seq<Bytes>, sep: Byte): Bytes
    requires |ps| >= 1
    decreases |ps|
  {
    if |ps| == 1 then ps[0] else ps[0] + [sep] + Join(ps[1..], sep)
  }

  /** Joining the pieces gives back the string: Split loses nothing but the separators. */
  lemma {:induction false} JoinSplit(s: Bytes, sep: Byte)
    ensures Join(Split(s, sep), sep) == s
    decreases |s|
  {
    if s != [] {
      JoinSplit(s[1..], sep);
      var rest := Split(s[1..], sep);
      if s[0] != sep {
        if |rest| == 1 {
          assert [s[0]] + rest[0] == s;
        } else {
          assert [[s[0]] + rest[0]] + rest[1..] == [[s[0]] + rest[0]] + rest[1..];
          assert ([[s[0]] + rest[0]] + rest[1..])[1..] == rest[1..];
          assert Join(rest, sep) == rest[0] + [sep] + Join(rest[1..], sep);
          assert s == [s[0]] + s[1..];
        }
      } else {
        assert ([[]] + rest)[1..] == rest;
        assert s == [sep] + s[1..];
      }
    }
  }

  /** A separator-free prefix is the first piece. */
  lemma {:induction false} SplitAfterPiece(p: Bytes, sep: Byte, rest: Bytes)
    requires sep !in p
    ensures Split(p + [sep] + rest, sep) == [p] + Split(rest, sep)
    decreases |p|
  {
    var s := p + [sep] + rest;
    if p == [] {
      assert s == [sep] + rest && s[1..] == rest;
    } else {
      assert s[0] == p[0] && s[1..] == p[1..] + [sep] + rest;
      SplitAfterPiece(p[1..], sep, rest);
      assert [p[0]] + p[1..] == p;
    }
  }

  /** A string without the separator is one piece. */
  lemma {:induction false} SplitWithoutSeparator(s: Bytes, sep: Byte)
    requires sep !in s
    ensures Split(s, sep) == [s]
    decreases |s|
  {
    if s != [] {
      SplitWithoutSeparator(s[1..], sep);
      assert [s[0]] + s[1..] == s;
    }
  }

  /** `strings.Split(line, "\t")`. */
  function Fields(line: Bytes): (fs: seq<Bytes>)
    ensures |fs| >= 1
  {
    Split(line, Tab)
  }

  /** The key of a record: everything before its first tab. */
  function Key(line: Bytes): (k: Bytes)
    ensures Tab !in k
  {
    Fields(line)[0]
  }

  /** The line the Map stage writes for one occurrence of a word, without its newline. */
  function Record(word: Bytes, value: Bytes): Bytes
  {
    word + [Tab] + value
  }

  lemma {:induction false} RecordFields(word: Bytes, value: Bytes)
    requires Tab !in word
    ensures Key(Record(word, value)) == word
    ensures |Fields(Record(word, value))| >= 2
    ensures Tab !in value ==> Fields(Record(word, value)) == [word, value]
  {
    SplitAfterPiece(word, Tab, value);
    if Tab !in value {
      SplitWithoutSeparator(value, Tab);
    }
  }

  /**
   * The lines of a file as both `sort` and `bufio.ScanLines` see them: the
   * pieces between newlines, where a last piece that is empty (the file ends
   * with a newline, or is empty) is no line.
   */
  function Lines(data: Bytes): (ls: seq<Bytes>)
    ensures forall j :: 0 <= j < |ls| ==> Newline !in ls[j]
  {
    var ps := Split(data, Newline);
    if ps[|ps| - 1] == [] then ps[..|ps| - 1] else ps
  }

  /** Lines written one after another, each followed by a newline. */
  function Terminated(ls: seq<Bytes>): Bytes
    decreases |ls|
  {
    if ls == [] then [] else ls[0] + [Newline] + Terminated(ls[1..])
  }

  lemma {:induction false} TerminatedAppend(a: seq<Bytes>, b: seq<Bytes>)
    ensures Terminated(a + b) == Terminated(a) + Terminated(b)
    decreases |a|
  {
    if a == [] {
      assert a + b == b;
    } else {
      assert (a + b)[0] == a[0] && (a + b)[1..] == a[1..] + b;
      TerminatedAppend(a[1..], b);
    }
  }

  /** Reading back newline-terminated lines gives the lines. */
  lemma {:induction false} LinesOfTerminated(ls: seq<Bytes>)
    requires forall j :: 0 <= j < |ls| ==> Newline !in ls[j]
    ensures Lines(Terminated(ls)) == ls
  {
    SplitOfTerminated(ls);
  }

  lemma {:induction false} SplitOfTerminated(ls: seq<Bytes>)
    requires forall j :: 0 <= j < |ls| ==> Newline !in ls[j]
    ensures Split(Terminated(ls), Newline) == ls + [[]]
    decreases |ls|
  {
    if ls != [] {
      SplitOfTerminated(ls[1..]);
      SplitAfterPiece(ls[0], Newline, Terminated(ls[1..]));
      assert [ls[0]] + (ls[1..] + [[]]) == ls + [[]];
    }
  }

  /**
   * `bufio.ScanLines` removes one carriage return before the newline: the
   * text changes exactly when the line ends with a carriage return, and then
   * loses that one byte.
   */
  function DropCR(line: Bytes): (r: Bytes)
    ensures (|line| > 0 && line[|line| - 1] == CarriageReturn) <==> r != line
    ensures r != line ==> line == r + [CarriageReturn]
  {
    if |line| > 0 && line[|line| - 1] == CarriageReturn then line[..|line| - 1] else line
  }

  /** The texts the scanner hands out for the lines of the sorted file. */
  function ScanTexts(ls: seq<Bytes>): (ts: seq<Bytes>)
    ensures |ts| == |ls|
    ensures forall j :: 0 <= j < |ls| ==> ts[j] == DropCR(ls[j])
  {
    seq(|ls|, j requires 0 <= j < |ls| => DropCR(ls[j]))
  }

  /** The lines written one after another, each ended by a carriage return and a newline. */
  function CRLFTerminated(ls: seq<Bytes>): Bytes
  {
    Terminated(seq(|ls|, j requires 0 <= j < |ls| => ls[j] + [CarriageReturn]))
  }

  /** A file with CRLF line ends is scanned back to exactly its lines, without the carriage returns. */
  lemma {:induction false} ScanCRLF(ls: seq<Bytes>)
    requires forall j :: 0 <= j < |ls| ==> Newline !in ls[j]
    ensures ScanTexts(Lines(CRLFTerminated(ls))) == ls
  {
    var crs := seq(|ls|, j requires 0 <= j < |ls| => ls[j] + [CarriageReturn]);
    forall j | 0 <= j < |crs|
      ensures Newline !in crs[j] && DropCR(crs[j]) == ls[j]
    {
      assert crs[j][..|ls[j]|] == ls[j];
    }
    LinesOfTerminated(crs);
  }

  /** A carriage return at the end of a line that has a tab leaves its key alone. */
  lemma {:induction false} DropCRKeepsKey(line: Bytes)
    requires Tab in line
    ensures Tab in DropCR(line) && Key(DropCR(line)) == Key(line)
  {
    var k := Key(line);
    JoinSplit(line, Tab);
    var fs := Fields(line);
    assert |fs| >= 2;
    assert line == k + [Tab] + Join(fs[1..], Tab);
    var rest := Join(fs[1..], Tab);
    if DropCR(line) != line && rest != [] {
      assert DropCR(line) == k + [Tab] + rest[..|rest| - 1];
    }
    var r := DropCR(line);
    var tail := r[|k| + 1..];
    assert r == k + [Tab] + tail;
    SplitAfterPiece(k, Tab, tail);
  }

  /** Byte-wise lexicographic order on lines (`sort` under the C locale). */
  predicate LexLe(a: Bytes, b: Bytes)
    decreases |a|
  {
    a == [] || (b != [] && (a[0] < b[0] || (a[0] == b[0] && LexLe(a[1..], b[1..]))))
  }

  predicate Sorted(ls: seq<Bytes>)
  {
    forall i, j :: 0 <= i < j < |ls| ==> LexLe(ls[i], ls[j])
  }

  /** What the external `sort` produces from the lines of its input file. */
  predicate SortedPermutationOf(sorted: seq<Bytes>, lines: seq<Bytes>)
  {
    multiset(sorted) == multiset(lines) && Sorted(sorted)
  }

  predicate IsPrefix(p: Bytes, s: Bytes)
  {
    |p| <= |s| && s[..|p|] == p
  }

  /** The lines sharing a prefix form an interval of the order. */
  lemma {:induction false} PrefixBetween(p: Bytes, x: Bytes, y: Bytes, z: Bytes)
    requires IsPrefix(p, x) && IsPrefix(p, z)
    requires LexLe(x, y) && LexLe(y, z)
    ensures IsPrefix(p, y)
    decreases |p|
  {
    if p != [] {
      assert x[0] == p[0] && z[0] == p[0];
      assert y != [];
      assert y[0] == p[0];
      assert x[1..][..|p| - 1] == p[1..] && z[1..][..|p| - 1] == p[1..];
      PrefixBetween(p[1..], x[1..], y[1..], z[1..]);
      assert y[..|p|] == [y[0]] + y[1..][..|p| - 1];
    }
  }

  /** In a line with a tab, the key followed by a tab is a prefix. */
  lemma {:induction false} KeyTabPrefix(line: Bytes)
    requires Tab in line
    ensures IsPrefix(Key(line) + [Tab], line)
  {
    JoinSplit(line, Tab);
    var fs := Fields(line);
    assert |fs| >= 2;
    assert line == fs[0] + [Tab] + Join(fs[1..], Tab);
  }

  /** A line that starts with a tab-free k and a tab has key k. */
  lemma {:induction false} KeyOfPrefixed(k: Bytes, line: Bytes)
    requires Tab !in k && IsPrefix(k + [Tab], line)
    ensures Key(line) == k
  {
    var rest := line[|k| + 1..];
    assert line == k + [Tab] + rest;
    SplitAfterPiece(k, Tab, rest);
  }

  /** `i < j < l`, named only to serve as the trigger of the quantifier in `KeysContiguous`. */
  predicate Between(i: int, j: int, l: int)
  {
    i < j < l
  }

  /** Equal keys are adjacent: no line with another key sits between two lines with key k. */
  ghost predicate KeysContiguous(ls: seq<Bytes>)
  {
    forall i, j, l {:trigger Between(i, j, l)} ::
      0 <= i && Between(i, j, l) && l < |ls| && Key(ls[i]) == Key(ls[l]) ==> Key(ls[j]) == Key(ls[i])
  }

  /**
   * Sorting whole lines byte-wise groups the lines by key, provided every line
   * has a tab: each line with key k then starts with k and a tab. (A tab-less
   * line is its own key and can fall between the lines of another key: "a",
   * "a\x01", "a\t1" is sorted.)
   */
  lemma {:induction false} SortedKeysContiguous(ls: seq<Bytes>)
    requires Sorted(ls)
    requires forall j :: 0 <= j < |ls| ==> Tab in ls[j]
    ensures KeysContiguous(ls)
  {
    forall i, j, l | 0 <= i && Between(i, j, l) && l < |ls| && Key(ls[i]) == Key(ls[l])
      ensures Key(ls[j]) == Key(ls[i])
    {
      var p := Key(ls[i]) + [Tab];
      KeyTabPrefix(ls[i]);
      KeyTabPrefix(ls[l]);
      PrefixBetween(p, ls[i], ls[j], ls[l]);
      KeyOfPrefixed(Key(ls[i]), ls[j]);
    }
  }
}
