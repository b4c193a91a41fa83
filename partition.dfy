/**
 * The partitioner shared by every Map invocation: 32-bit FNV-1a over the key's
 * bytes (section 2 of the IETF draft "The FNV Non-Cryptographic Hash
 * Algorithm", draft-eastlake-fnv), reduced modulo the partition count.
 */
module Partition {
  import opened Types

  const OffsetBasis: bv32 := 2166136261
  const Prime: bv32 := 16777619

  /** One FNV-1a round: xor the byte in, then multiply modulo 2^32. */
  function Round(h: bv32, b: Byte): bv32
  {
    (h ^ (b as bv32)) * Prime
  }

  /** The state of a 32-bit FNV-1a hasher after `Write(s)`, starting from h. */
  function Absorb(h: bv32, s: Bytes): bv32
    decreases |s|
  {
    if s == [] then h else Absorb(Round(h, s[0]), s[1..])
  }

  /**
   * Writing the key in two pieces gives the same state as writing it at once,
   * so the hash is a function of the byte string alone, however it is fed.
   */
  lemma {:induction false} AbsorbAppend(h: bv32, a: Bytes, b: Bytes)
    ensures Absorb(h, a + b) == Absorb(Absorb(h, a), b)
    decreases |a|
  {
    if a == [] {
      assert a + b == b;
    } else {
      assert (a + b)[0] == a[0] && (a + b)[1..] == a[1..] + b;
      AbsorbAppend(Round(h, a[0]), a[1..], b);
    }
  }

  /** `fnv.New32a()`, `Write(s)`, `Sum32()`. */
  function Fnv1a(s: Bytes): bv32
  {
    Absorb(OffsetBasis, s)
  }

  /**
   * The hash is a left fold: the offset basis for the empty string, and one
   * more xor-multiply round for each byte appended.
   */
  lemma {:induction false} Fnv1aSnoc(s: Bytes, b: Byte)
    ensures Fnv1a([]) == OffsetBasis
    ensures Fnv1a(s + [b]) == Round(Fnv1a(s), b)
  {
    AbsorbAppend(OffsetBasis, s, [b]);
    assert [b][1..] == [];
  }

  /** The test vectors of the FNV draft for "", "a" and "foobar". */
  lemma Fnv1aVectors()
    ensures Fnv1a([]) == 0x811c9dc5
    ensures Fnv1a([97]) == 0xe40c292c
    ensures Fnv1a([102, 111, 111, 98, 97, 114]) == 0xbf9cf968
  {
    assert Round(OffsetBasis, 97) == 0xe40c292c;
    assert Fnv1a([97]) == Absorb(0xe40c292c, []);
    var foobar: Bytes := [102, 111, 111, 98, 97, 114];
    assert Round(OffsetBasis, 102) == 0xe30c2799;
    assert Round(0xe30c2799, 111) == 0x6222e842;
    assert Round(0x6222e842, 111) == 0xa9f37ed7;
    assert Round(0xa9f37ed7, 98) == 0x3f5076ef;
    assert Round(0x3f5076ef, 97) == 0x39aaa18a;
    assert Round(0x39aaa18a, 114) == 0xbf9cf968;
    calc {
      Fnv1a(foobar);
      Absorb(0xe30c2799, foobar[1..]);
      Absorb(0x6222e842, foobar[2..]);
      Absorb(0xa9f37ed7, foobar[3..]);
      Absorb(0x3f5076ef, foobar[4..]);
      Absorb(0x39aaa18a, foobar[5..]);
      Absorb(0xbf9cf968, foobar[6..]);
    }
  }

  /**
   * `hash(s, n)`: `h.Sum32() % uint32(n)`. Go converts n to uint32 by keeping
   * its low 32 bits and panics on a zero divisor, so the requires is exactly
   * the set of n for which the source does not panic.
   */
  function Hash(s: Bytes, n: int): (r: int)
    requires n % 0x1_0000_0000 != 0
    ensures 0 <= r < n % 0x1_0000_0000
    ensures 0 < n < 0x1_0000_0000 ==> r < n
  {
    (Fnv1a(s) as int) % (n % 0x1_0000_0000)
  }
}
