/** Byte strings, optional values and the few sequence operations that every module shares. */
module Bytes {

  /** A Go `byte`. Bytes are integers here; only the checksum looks at them as bit vectors. */
  type byte = x: int | 0 <= x < 256

  type Bytes = seq<byte>

  datatype Option<+T> = None | Some(value: T)

  const UINT32_RANGE: int := 0x1_0000_0000
  const INT32_RANGE: int := 0x8000_0000

  type uint32 = x: int | 0 <= x < UINT32_RANGE

  /** Two bytes, high byte first. */
  function BigEndian16(high: byte, low: byte): nat {
    high * 0x100 + low
  }

  /** The chunks laid end to end. */
  function Concat(chunks: seq<Bytes>): (r: Bytes)
  {
    if chunks == [] then [] else chunks[0] + Concat(chunks[1..])
  }

  lemma {:induction false} ConcatAppend(a: seq<Bytes>, b: seq<Bytes>)
    ensures Concat(a + b) == Concat(a) + Concat(b)
  {
    if a == [] {
      assert a + b == b;
    } else {
      assert (a + b)[1..] == a[1..] + b;
      ConcatAppend(a[1..], b);
    }
  }

  lemma ConcatOne(a: Bytes)
    ensures Concat([a]) == a
  {
    assert [a][1..] == [];
  }

  lemma ConcatSnoc(chunks: seq<Bytes>, last: Bytes)
    ensures Concat(chunks + [last]) == Concat(chunks) + last
  {
    ConcatAppend(chunks, [last]);
    ConcatOne(last);
  }
}
