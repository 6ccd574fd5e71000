/** Records as they lie in memory: little-endian, `size` bytes each. */
module CopyCoding {
  import opened Arith
  import opened RangeCoding

  function LeBytes(x: nat, size: nat): (b: seq<byte>)
    ensures |b| == size
    decreases size
  {
    if size == 0 then [] else [x % 256] + LeBytes(x / 256, size - 1)
  }

  function LeVal(b: seq<byte>): nat {
    if b == [] then 0 else var first: int := b[0]; first + 256 * LeVal(b[1..])
  }

  lemma {:induction false} LeRoundTrip(x: nat, size: nat)
    requires x < Pow2(8 * size)
    ensures LeVal(LeBytes(x, size)) == x
    decreases size
  {
    if size > 0 {
      Pow2Add(8 * (size - 1), 8);
      Pow2Values();
      assert 8 * size == 8 * (size - 1) + 8;
      LeRoundTrip(x / 256, size - 1);
      assert LeBytes(x, size)[1..] == LeBytes(x / 256, size - 1);
    }
  }

  /** The bytes of a number, from the least significant. */
  lemma {:induction false} LeBytesAt(x: nat, size: nat, j: nat)
    requires j < size
    ensures LeBytes(x, size)[j] as int == x / Pow2(8 * j) % 256
    decreases size
  {
    hide Pow2;
    Pow2Values();
    if j > 0 {
      LeBytesAt(x / 256, size - 1, j - 1);
      Pow2Add(8, 8 * (j - 1));
      QuotientOfQuotient(x, 256, Pow2(8 * (j - 1)));
      assert 8 * j == 8 + 8 * (j - 1);
    }
  }

  /** All records, one after the other. */
  function Image(vals: seq<nat>, size: nat): (b: seq<byte>)
    ensures |b| == |vals| * size
    decreases |vals|
  {
    if vals == [] then []
    else
      var n := |vals| - 1;
      assert (n + 1) * size == n * size + size;
      Image(vals[..n], size) + LeBytes(vals[n], size)
  }

  lemma {:induction false} ImageAt(vals: seq<nat>, size: nat, i: nat)
    requires i < |vals|
    ensures i * size + size <= |vals| * size
    ensures Image(vals, size)[i * size..i * size + size] == LeBytes(vals[i], size)
    decreases |vals|
  {
    hide LeBytes;
    var n := |vals| - 1;
    Offsets(i, n, size);
    if i < n {
      ImageAt(vals[..n], size, i);
    }
    SliceOfJoin(Image(vals[..n], size), LeBytes(vals[n], size), i * size, i * size + size);
  }

  lemma Offsets(i: nat, n: nat, size: nat)
    requires i <= n
    ensures i * size + size <= (n + 1) * size == n * size + size
    ensures i < n ==> i * size + size <= n * size
  {
    if i < n {
      MulMonotone(i + 1, n, size);
    }
  }

  lemma SliceOfJoin(a: seq<byte>, b: seq<byte>, i: nat, j: nat)
    requires i <= j <= |a| + |b|
    ensures j <= |a| ==> (a + b)[i..j] == a[i..j]
    ensures i == |a| && j == |a| + |b| ==> (a + b)[i..j] == b
  {
  }

  method CopyOut(src: array<nat>, nrec: nat, size: nat) returns (b: seq<byte>)
    requires nrec <= src.Length
    ensures b == Image(src[..nrec], size)
  {
    b := [];
    for i := 0 to nrec
      invariant b == Image(src[..i], size)
    {
      assert src[..i+1][..i] == src[..i];
      b := b + LeBytes(src[i], size);
    }
  }

  method CopyIn(dest: array<nat>, b: seq<byte>, nrec: nat, size: nat, ghost vals: seq<nat>)
    requires nrec == |vals| <= dest.Length && b == Image(vals, size)
    requires forall i :: 0 <= i < nrec ==> vals[i] < Pow2(8 * size)
    modifies dest
    ensures dest[..nrec] == vals
  {
    hide Image, LeBytes, LeVal, Pow2;
    for i := 0 to nrec
      invariant forall k :: 0 <= k < i ==> dest[k] == vals[k]
    {
      ImageAt(vals, size, i);
      LeRoundTrip(vals[i], size);
      dest[i] := LeVal(b[i * size..i * size + size]);
    }
  }
}
