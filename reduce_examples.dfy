/**
 * Concrete runs of the Reduce merge on small sorted inputs, including the
 * inputs where the loop's sentinel, its unchecked `count++` and its
 * unchecked `splitted[1]` show through. Words are single bytes `x`, `y`,
 * `z` other than a tab, so each statement covers every such word.
 */
module ReduceExamples {
  import opened Wrappers
  import opened Types
  import opened Decimal
  import opened Records
  import opened Reducer

  lemma {:induction false} SmallDecimal(n: nat)
    requires n < 10
    ensures DecimalBytes(n) == [Zero + n]
  {
  }

  lemma {:induction false} AtoiDigit(v: Byte)
    requires Zero <= v <= Nine
    ensures Atoi([v]) == Success(v - Zero)
  {
    var d: nat := v - Zero;
    assert [v] == DecimalBytes(d) by {
      SmallDecimal(d);
    }
    AtoiOfDecimal(d);
  }

  lemma {:induction false} EmitSmall(word: Bytes, n: nat)
    requires 0 < n < 10
    ensures Emit(word, n) == word + [Tab, Zero + n, Newline]
  {
    SmallDecimal(n);
  }

  lemma {:induction false} EmitWord(w: Byte, n: nat)
    requires 0 < n < 10
    ensures Emit([w], n) == [w, Tab, Zero + n, Newline]
  {
    EmitSmall([w], n);
    assert [w] + [Tab, Zero + n, Newline] == [w, Tab, Zero + n, Newline];
  }

  lemma {:induction false} DigitRecord(w: Byte, v: Byte)
    requires w != Tab && Zero <= v <= Nine
    ensures Fields([w, Tab, v]) == [[w], [v]]
  {
    assert [w, Tab, v] == Record([w], [v]);
    RecordFields([w], [v]);
  }

  /** A line whose key is the current word only bumps the count. */
  lemma {:induction false} MergeSame(word: Bytes, count: int, line: Bytes, rest: seq<Bytes>)
    requires Key(line) == word
    ensures MergeFrom(word, count, [line] + rest) == MergeFrom(word, Inc(count), rest)
  {
    assert ([line] + rest)[1..] == rest;
  }

  /** A line `w<TAB>v`, v a digit, with a new key flushes the current word and restarts the count at v. */
  lemma {:induction false} MergeNew(word: Bytes, count: int, w: Byte, v: Byte, rest: seq<Bytes>)
    requires w != Tab && Zero <= v <= Nine && word != [w]
    ensures MergeFrom(word, count, [[w, Tab, v]] + rest) == Prepend(Emit(word, count), MergeFrom([w], v - Zero, rest))
  {
    DigitRecord(w, v);
    AtoiDigit(v);
    assert ([[w, Tab, v]] + rest)[1..] == rest;
  }

  lemma {:induction false} ThreeWordsSteps(x: Byte, y: Byte, z: Byte)
    requires x != Tab && y != Tab && z != Tab && x != y && y != z
    ensures MergeFrom([], 0, [[x, Tab, One], [x, Tab, One], [x, Tab, One], [y, Tab, One], [z, Tab, One]])
         == Prepend([], Prepend(Emit([x], 3), Prepend(Emit([y], 1), Success(Emit([z], 1)))))
  {
    var a, b, c: Bytes := [x, Tab, One], [y, Tab, One], [z, Tab, One];
    assert [a, a, a, b, c] == [a] + [a, a, b, c];
    MergeNew([], 0, x, One, [a, a, b, c]);
    DigitRecord(x, One);
    assert [a, a, b, c] == [a] + [a, b, c];
    MergeSame([x], 1, a, [a, b, c]);
    assert [a, b, c] == [a] + [b, c];
    MergeSame([x], 2, a, [b, c]);
    assert [b, c] == [b] + [c];
    MergeNew([x], 3, y, One, [c]);
    assert [c] == [c] + [];
    MergeNew([y], 1, z, One, []);
  }

  lemma {:induction false} ThreeWordsMerge(x: Byte, y: Byte, z: Byte)
    requires x != Tab && y != Tab && z != Tab && x != y && y != z
    ensures MergeFrom([], 0, [[x, Tab, One], [x, Tab, One], [x, Tab, One], [y, Tab, One], [z, Tab, One]])
         == Success([x, Tab, Zero + 3, Newline, y, Tab, One, Newline, z, Tab, One, Newline])
  {
    ThreeWordsSteps(x, y, z);
    EmitWord(x, 3);
    EmitWord(y, 1);
    EmitWord(z, 1);
    var ex, ey, ez: Bytes := [x, Tab, Zero + 3, Newline], [y, Tab, One, Newline], [z, Tab, One, Newline];
    assert Prepend([], Prepend(ex, Prepend(ey, Success(ez)))) == Success([] + (ex + (ey + ez)));
    assert [] + (ex + (ey + ez)) == [x, Tab, Zero + 3, Newline, y, Tab, One, Newline, z, Tab, One, Newline];
  }

  /** Sorted map output `x 1, x 1, x 1, y 1, z 1` reduces to `x 3, y 1, z 1`. */
  lemma {:induction false} ThreeWords(x: Byte, y: Byte, z: Byte)
    requires x != Tab && y != Tab && z != Tab && x != y && y != z
    ensures Grouped([[x, Tab, One], [x, Tab, One], [x, Tab, One], [y, Tab, One], [z, Tab, One]])
         == Success([x, Tab, Zero + 3, Newline, y, Tab, One, Newline, z, Tab, One, Newline])
  {
    ThreeWordsMerge(x, y, z);
    MergeIsGrouped([[x, Tab, One], [x, Tab, One], [x, Tab, One], [y, Tab, One], [z, Tab, One]]);
  }

  /**
   * A line without a tab whose text differs from the current word makes the
   * loop index `splitted[1]` out of range, whatever follows it.
   */
  lemma {:induction false} TablessNewKeyPanics(word: Bytes, count: int, line: Bytes, rest: seq<Bytes>)
    requires Tab !in line && line != word
    ensures MergeFrom(word, count, [line] + rest) == Failure(IndexOutOfRange)
  {
    SplitWithoutSeparator(line, Tab);
    assert Fields(([line] + rest)[0]) == [line];
  }

  /** In particular a first line that is non-empty and has no tab fails the whole reduction. */
  lemma {:induction false} TablessFirstLinePanics(line: Bytes, rest: seq<Bytes>)
    requires Tab !in line && line != []
    ensures Grouped([line] + rest) == Failure(IndexOutOfRange)
  {
    TablessNewKeyPanics([], 0, line, rest);
    MergeIsGrouped([line] + rest);
  }

  lemma {:induction false} TablessSameKeyMerge(x: Byte)
    requires x != Tab
    ensures MergeFrom([], 0, [[x, Tab, One], [x]]) == Success([x, Tab, Zero + 2, Newline])
  {
    var a: Bytes := [x, Tab, One];
    SplitWithoutSeparator([x], Tab);
    assert [a, [x]] == [a] + [[x]];
    MergeNew([], 0, x, One, [[x]]);
    assert [[x]] == [[x]] + [];
    MergeSame([x], 1, [x], []);
    assert Inc(1) == 2;
    assert MergeFrom([x], 2, []) == Success(Emit([x], 2));
    EmitWord(x, 2);
    assert Prepend([], Success([x, Tab, Zero + 2, Newline])) == Success([] + [x, Tab, Zero + 2, Newline]);
    assert [] + [x, Tab, Zero + 2, Newline] == [x, Tab, Zero + 2, Newline];
  }

  /** A tab-less line equal to the current word is counted, not rejected. */
  lemma {:induction false} TablessSameKeyCounted(x: Byte)
    requires x != Tab
    ensures Grouped([[x, Tab, One], [x]]) == Success([x, Tab, Zero + 2, Newline])
  {
    TablessSameKeyMerge(x);
    MergeIsGrouped([[x, Tab, One], [x]]);
  }

  lemma {:induction false} LaterValuesMerge(x: Byte)
    requires x != Tab
    ensures MergeFrom([], 0, [[x, Tab, Zero + 5], [x, Tab, Zero + 7]]) == Success([x, Tab, Zero + 6, Newline])
  {
    var a, b: Bytes := [x, Tab, Zero + 5], [x, Tab, Zero + 7];
    assert [a, b] == [a] + [b];
    MergeNew([], 0, x, Zero + 5, [b]);
    DigitRecord(x, Zero + 7);
    assert [b] == [b] + [];
    MergeSame([x], 5, b, []);
    assert Inc(5) == 6;
    assert MergeFrom([x], 6, []) == Success(Emit([x], 6));
    EmitWord(x, 6);
    assert Prepend([], Success([x, Tab, Zero + 6, Newline])) == Success([] + [x, Tab, Zero + 6, Newline]);
    assert [] + [x, Tab, Zero + 6, Newline] == [x, Tab, Zero + 6, Newline];
  }

  /**
   * Only the first value of a run is parsed; every later line adds one,
   * whatever its value: `x 5, x 7` reduces to `x 6`.
   */
  lemma {:induction false} LaterValuesIgnored(x: Byte)
    requires x != Tab
    ensures Grouped([[x, Tab, Zero + 5], [x, Tab, Zero + 7]]) == Success([x, Tab, Zero + 6, Newline])
  {
    LaterValuesMerge(x);
    MergeIsGrouped([[x, Tab, Zero + 5], [x, Tab, Zero + 7]]);
  }

  lemma {:induction false} LeadingEmptyKeyMerge()
    ensures MergeFrom([], 0, [[Tab, Zero + 5], [Tab, Zero + 5]]) == Success([Tab, Zero + 2, Newline])
  {
    var a: Bytes := [Tab, Zero + 5];
    assert a == Record([], [Zero + 5]);
    RecordFields([], [Zero + 5]);
    assert [a, a] == [a] + [a];
    MergeSame([], 0, a, [a]);
    assert [a] == [a] + [];
    MergeSame([], 1, a, []);
    assert Inc(0) == 1 && Inc(1) == 2;
    assert MergeFrom([], 2, []) == Success(Emit([], 2));
    EmitSmall([], 2);
    assert [] + [Tab, Zero + 2, Newline] == [Tab, Zero + 2, Newline];
  }

  /**
   * Lines whose key is empty at the head of the input continue the initial
   * empty word, so their values are never parsed and they are counted from
   * zero: `<TAB>5, <TAB>5` reduces to `<TAB>2`.
   */
  lemma {:induction false} LeadingEmptyKey()
    ensures Grouped([[Tab, Zero + 5], [Tab, Zero + 5]]) == Success([Tab, Zero + 2, Newline])
  {
    LeadingEmptyKeyMerge();
    MergeIsGrouped([[Tab, Zero + 5], [Tab, Zero + 5]]);
  }

  /**
   * A new key whose count field is not a number, such as `x<TAB>a`, ends the
   * whole reduction with `Atoi`'s error, whatever follows.
   */
  lemma {:induction false} NonNumericCountFails(x: Byte, a: Byte, rest: seq<Bytes>)
    requires x != Tab && a != Tab && !IsDigit(a)
    ensures Grouped([[x, Tab, a]] + rest) == Failure(BadCount([a]))
  {
    var line: Bytes := [x, Tab, a];
    assert line == Record([x], [a]);
    RecordFields([x], [a]);
    if a != Plus && a != Minus {
      AtoiRejectsNonDigit([a], 0);
    }
    MergeBadCount([], 0, line, rest);
    MergeIsGrouped([line] + rest);
  }

  lemma {:induction false} NegativeCountMerge(x: Byte, v: Byte)
    requires x != Tab && IsDigit(v)
    ensures MergeFrom([], 0, [[x, Tab, Minus, v]]) == Success([])
  {
    var line: Bytes := [x, Tab, Minus, v];
    assert line == Record([x], [Minus, v]);
    RecordFields([x], [Minus, v]);
    AtoiSigned([v]);
    assert [Minus] + [v] == [Minus, v];
    assert BytesValue([v]) == v - Zero by {
      assert [v][..0] == [];
    }
    assert [line] == [line] + [];
    assert MergeFrom([x], -(v - Zero), []) == Success([]);
    PrependNothing(Success([]));
  }

  /**
   * A signed count is parsed with its sign, and a run whose count is not
   * positive writes nothing: `x<TAB>-3` alone reduces to empty output.
   */
  lemma {:induction false} NegativeCountSuppressed(x: Byte, v: Byte)
    requires x != Tab && IsDigit(v)
    ensures Grouped([[x, Tab, Minus, v]]) == Success([])
  {
    NegativeCountMerge(x, v);
    MergeIsGrouped([[x, Tab, Minus, v]]);
  }
}
