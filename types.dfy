/**
 * Bytes, the byte values the record format gives meaning to, and the errors a
 * Map or Reduce invocation can end with.
 */
module Types {

  /** A Go `byte`. */
  type Byte = x: int | 0 <= x < 256

  /** A Go `string` or `[]byte`: strings in Go hold arbitrary bytes. */
  type Bytes = seq<Byte>

  /** An opaque reference to a stored object (a URL or an object-store URI). */
  type Locator = string

  const Tab: Byte := 9
  const Newline: Byte := 10
  const CarriageReturn: Byte := 13
  const Plus: Byte := 43
  const Minus: Byte := 45
  const Zero: Byte := 48
  const Nine: Byte := 57
  const One: Byte := 49

  datatype Error =
    /** An error returned by a collaborator: the HTTP fetch, an object-store
        download or upload, or the external `sort` process. */
    | External(reason: string)
    /** `strconv.Atoi` rejected the count field (syntax or range error). */
    | BadCount(field: Bytes)
    /** The Go run-time panic raised by `splitted[1]` on a line with no tab. */
    | IndexOutOfRange

  /** Concatenation of a sequence of sequences. */
  function Flatten<T>(parts: seq<seq<T>>): (r: seq<T>)
    ensures |parts| == 1 ==> r == parts[0]
  {
    if parts == [] then [] else Flatten(parts[..|parts| - 1]) + parts[|parts| - 1]
  }

  lemma {:induction false} FlattenAppend<T>(a: seq<seq<T>>, b: seq<seq<T>>)
    ensures Flatten(a + b) == Flatten(a) + Flatten(b)
    decreases |b|
  {
    if b == [] {
      assert a + b == a;
    } else {
      var b' := b[..|b| - 1];
      assert (a + b)[..|a + b| - 1] == a + b';
      FlattenAppend(a, b');
    }
  }
}
