/**
 * Splitting the Map input into words, as `bufio.ScanWords` does: runs of
 * whitespace separate words and no empty word is ever produced.
 */
module Tokenize {
  import opened Types

  /** The single-byte whitespace of `bufio.ScanWords`: \t \n \v \f \r and space. */
  predicate IsSpace(b: Byte)
  {
    (9 <= b <= 13) || b == 32
  }

  predicate NoSpace(s: Bytes)
  {
    forall i :: 0 <= i < |s| ==> !IsSpace(s[i])
  }

  predicate AllSpace(s: Bytes)
  {
    forall i :: 0 <= i < |s| ==> IsSpace(s[i])
  }

  /** A well-formed word: non-empty and free of whitespace. */
  predicate IsWord(w: Bytes)
  {
    w != [] && NoSpace(w)
  }

  /** The scanner's state after a prefix: the words completed so far and the word under way. */
  datatype Scan = Scan(words: seq<Bytes>, partial: Bytes)

  function ScanPrefix(s: Bytes): (st: Scan)
    ensures forall j :: 0 <= j < |st.words| ==> IsWord(st.words[j])
    ensures NoSpace(st.partial)
    decreases |s|
  {
    if s == [] then Scan([], [])
    else
      var st := ScanPrefix(s[..|s| - 1]);
      var b := s[|s| - 1];
      if !IsSpace(b) then Scan(st.words, st.partial + [b])
      else if st.partial == [] then st
      else Scan(st.words + [st.partial], [])
  }

  /** The words a `bufio.Scanner` in `ScanWords` mode yields for input s. */
  function Tokens(s: Bytes): (ws: seq<Bytes>)
    ensures forall j :: 0 <= j < |ws| ==> IsWord(ws[j])
  {
    var st := ScanPrefix(s);
    if st.partial == [] then st.words else st.words + [st.partial]
  }

  /** A run of whitespace yields no word. */
  lemma {:induction false} TokensOfSpace(s: Bytes)
    requires AllSpace(s)
    ensures Tokens(s) == []
  {
    ScanOfSpace(s);
  }

  lemma {:induction false} ScanOfSpace(s: Bytes)
    requires AllSpace(s)
    ensures ScanPrefix(s) == Scan([], [])
    decreases |s|
  {
    if s != [] {
      ScanOfSpace(s[..|s| - 1]);
    }
  }

  /** A word standing alone is yielded whole. */
  lemma {:induction false} TokensOfWord(w: Bytes)
    requires IsWord(w)
    ensures Tokens(w) == [w]
  {
    ScanOfNoSpace(w);
  }

  lemma {:induction false} ScanOfNoSpace(s: Bytes)
    requires NoSpace(s)
    ensures ScanPrefix(s) == Scan([], s)
    decreases |s|
  {
    if s != [] {
      ScanOfNoSpace(s[..|s| - 1]);
      assert s[..|s| - 1] + [s[|s| - 1]] == s;
    }
  }

  /**
   * A whitespace byte separates: the words of `a + [c] + b` are those of a
   * followed by those of b. With TokensOfSpace and TokensOfWord this pins
   * Tokens down as the maximal non-whitespace runs of the input.
   */
  lemma {:induction false} TokensSplit(a: Bytes, c: Byte, b: Bytes)
    requires IsSpace(c)
    ensures Tokens(a + [c] + b) == Tokens(a) + Tokens(b)
  {
    ScanAfterSeparator(a, c, b);
    var sb := ScanPrefix(b);
    if sb.partial != [] {
      assert Tokens(a) + sb.words + [sb.partial] == Tokens(a) + (sb.words + [sb.partial]);
    }
  }

  lemma {:induction false} ScanAfterSeparator(a: Bytes, c: Byte, b: Bytes)
    requires IsSpace(c)
    ensures ScanPrefix(a + [c] + b) == Scan(Tokens(a) + ScanPrefix(b).words, ScanPrefix(b).partial)
    decreases |b|
  {
    var s := a + [c] + b;
    if b == [] {
      assert s[..|s| - 1] == a;
    } else {
      var b' := b[..|b| - 1];
      assert s[..|s| - 1] == a + [c] + b';
      ScanAfterSeparator(a, c, b');
      var sb' := ScanPrefix(b');
      assert Tokens(a) + sb'.words + [sb'.partial] == Tokens(a) + (sb'.words + [sb'.partial]);
    }
  }

  /** The bytes of s that are not whitespace, in order. */
  function NonSpace(s: Bytes): (r: Bytes)
    ensures NoSpace(r) && |r| <= |s|
  {
    if s == [] then []
    else NonSpace(s[..|s| - 1]) + (if IsSpace(s[|s| - 1]) then [] else [s[|s| - 1]])
  }

  /** Every non-whitespace byte of the input ends up in exactly one word, in order. */
  lemma {:induction false} TokensConserveBytes(s: Bytes)
    ensures Flatten(Tokens(s)) == NonSpace(s)
  {
    ScanConservesBytes(s);
    var st := ScanPrefix(s);
    if st.partial != [] {
      FlattenAppend(st.words, [st.partial]);
    }
  }

  lemma {:induction false} ScanConservesBytes(s: Bytes)
    ensures Flatten(ScanPrefix(s).words) + ScanPrefix(s).partial == NonSpace(s)
    decreases |s|
  {
    if s != [] {
      var s' := s[..|s| - 1];
      ScanConservesBytes(s');
      var st := ScanPrefix(s');
      if IsSpace(s[|s| - 1]) && st.partial != [] {
        FlattenAppend(st.words, [st.partial]);
      }
    }
  }
}
