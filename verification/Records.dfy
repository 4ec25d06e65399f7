/**
 Byte strings made of records of one size: joining them, and cutting them apart again.
 */
module Records {
  import opened Bytes

  function Concat(parts: seq<seq<byte>>): seq<byte> {
    if parts == [] then [] else Concat(parts[..|parts| - 1]) + parts[|parts| - 1]
  }

  /** The record at position `i`. */
  function RecordAt(b: seq<byte>, size: nat, i: nat): seq<byte>
    requires (i + 1) * size <= |b|
  {
    b[i * size..i * size + size]
  }

  ghost predicate AllOfSize(parts: seq<seq<byte>>, size: nat) {
    forall i :: 0 <= i < |parts| ==> |parts[i]| == size
  }

  lemma {:induction false} ConcatSize(parts: seq<seq<byte>>, size: nat)
    requires AllOfSize(parts, size)
    ensures |Concat(parts)| == |parts| * size
  {
    if parts != [] {
      var n := |parts| - 1;
      ConcatSize(parts[..n], size);
      assert n * size + size == (n + 1) * size;
    }
  }

  lemma Within(i: nat, n: nat, size: nat)
    requires i < n
    ensures 0 <= i * size && (i + 1) * size <= n * size
  {
  }

  /** Cutting the joined string at multiples of the size gives the parts back. */
  lemma {:induction false} RecordsRecovered(parts: seq<seq<byte>>, size: nat, i: nat)
    requires AllOfSize(parts, size) && i < |parts|
    ensures |Concat(parts)| == |parts| * size
    ensures (i + 1) * size <= |Concat(parts)|
    ensures RecordAt(Concat(parts), size, i) == parts[i]
  {
    var front := parts[..|parts| - 1];
    ConcatSize(parts, size);
    ConcatSize(front, size);
    Within(i, |parts|, size);
    if i < |front| {
      RecordsRecovered(front, size, i);
    }
  }

  /** The number of whole records of a string of joined records. */
  lemma RecordCount(parts: seq<seq<byte>>, size: nat)
    requires AllOfSize(parts, size) && size > 0
    ensures |Concat(parts)| / size == |parts|
  {
    ConcatSize(parts, size);
    MultipleDivided(|parts|, size);
  }

  lemma {:induction false} MultipleDivided(n: nat, size: nat)
    requires size > 0
    ensures n * size / size == n
  {
    var q, r := n * size / size, n * size % size;
    assert n * size == q * size + r;
    assert (n - q) * size == r;
    if n - q >= 1 {
      Within(0, n - q, size);
    } else if n - q <= -1 {
      Within(0, q - n, size);
    }
  }
}
