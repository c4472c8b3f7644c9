/** Shared vocabulary: options, results, byte strings and the flattening of a
    sequence of byte strings. */
module Basics {

  datatype Option<+T> = None | Some(value: T)

  datatype Result<+T, +E> = Ok(value: T) | Err(error: E)

  newtype byte = x: int | 0 <= x < 256

  type bytes = seq<byte>

  /** 64-bit counters wrap here. */
  const TWO_64: nat := 0x1_0000_0000_0000_0000

  /** A 64-bit unsigned counter value. */
  type u64 = n: int | 0 <= n < TWO_64

  /** A 64-bit counter after an atomic addition. */
  function FetchAdd(counter: nat, n: nat): u64 {
    (counter + n) % TWO_64
  }

  /** The two ends of a tunnel. */
  datatype Side = Client | Server

  function Peer(side: Side): Side {
    if side == Client then Server else Client
  }

  /** The byte string obtained by writing the parts one after the other. */
  function Concat(parts: seq<bytes>): bytes {
    if parts == [] then [] else Concat(parts[..|parts| - 1]) + parts[|parts| - 1]
  }

  lemma ConcatSnoc(parts: seq<bytes>, last: bytes)
    ensures Concat(parts + [last]) == Concat(parts) + last
  {
    assert (parts + [last])[..|parts|] == parts;
  }

  lemma ConcatOne(part: bytes)
    ensures Concat([part]) == part
  {
    assert [part][..0] == [];
  }

  lemma {:induction false} ConcatAppend(a: seq<bytes>, b: seq<bytes>)
    ensures Concat(a + b) == Concat(a) + Concat(b)
  {
    if b == [] {
      assert a + b == a;
    } else {
      var front := b[..|b| - 1];
      assert (a + b)[..|a + b| - 1] == a + front;
      ConcatAppend(a, front);
    }
  }

  lemma ConcatPrefix(a: seq<bytes>, b: seq<bytes>)
    requires a <= b
    ensures Concat(a) <= Concat(b)
  {
    assert b == a + b[|a|..];
    ConcatAppend(a, b[|a|..]);
  }

  lemma ConcatCons(parts: seq<bytes>)
    requires parts != []
    ensures Concat(parts) == parts[0] + Concat(parts[1..])
  {
    assert parts == [parts[0]] + parts[1..];
    ConcatAppend([parts[0]], parts[1..]);
    ConcatOne(parts[0]);
  }

  lemma ConcatMiddle(a: seq<bytes>, part: bytes, b: seq<bytes>)
    ensures Concat(a + [part] + b) == Concat(a) + part + Concat(b)
  {
    hide Concat;
    ConcatAppend(a + [part], b);
    ConcatSnoc(a, part);
  }

  /** What is left of a stream after its first k parts starts with part k. */
  lemma {:induction false} ConcatSplit(parts: seq<bytes>, k: nat)
    requires k < |parts|
    ensures Concat(parts) == Concat(parts[..k]) + parts[k] + Concat(parts[k + 1..])
  {
    hide Concat;
    ConcatMiddle(parts[..k], parts[k], parts[k + 1..]);
    assert parts == parts[..k] + [parts[k]] + parts[k + 1..];
  }
}
