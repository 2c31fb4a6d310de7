/** The id list the program scans and its division into chunks: `build_data`
    and `slice::chunks` as `entry_point_mt` applies it. */
module DataFrame {
  import opened Prelude

  /** The inclusive run of ids `start, start + 1, ..., end`; empty when
      `start > end`. */
  function Ids(start: U32, end: U32): (r: seq<U32>)
    ensures |r| == if start <= end then end - start + 1 else 0
    ensures forall i :: 0 <= i < |r| ==> r[i] == start + i
    decreases end - start
  {
    if start > end then []
    else if start == end then [start]
    else [start] + Ids(start + 1, end)
  }

  /** `build_data`: pushes `start..=end` one id at a time. */
  method BuildData(start: U32, end: U32) returns (v: seq<U32>)
    ensures v == Ids(start, end)
    ensures start <= end ==> |v| == end - start + 1
    ensures start > end ==> v == []
  {
    v := [];
    if start > end {
      return;
    }
    var n := start;
    while n <= end
      invariant start <= n <= end + 1
      invariant |v| == n - start
      invariant forall i :: 0 <= i < |v| ==> v[i] == start + i
      decreases end - n
    {
      v := v + [n];
      n := n + 1;
    }
  }

  /** The ids are in increasing order, each one above its predecessor. */
  lemma IdsIncreasing(start: U32, end: U32)
    ensures forall i, j :: 0 <= i < j < |Ids(start, end)| ==> Ids(start, end)[i] < Ids(start, end)[j]
  {
  }

  /** An id appears in the run exactly when it lies between the bounds. */
  lemma IdsMembership(start: U32, end: U32, x: U32)
    ensures x in Ids(start, end) <==> start <= x <= end
  {
    if start <= x <= end {
      assert Ids(start, end)[x - start] == x;
    }
  }

  /** The program's own test case: 1..=10 holds ten ids. */
  lemma IdsExample()
    ensures |Ids(1, 10)| == 10
  {
  }

  /** All chunks glued back together in order. */
  function Flatten<T>(chunks: seq<seq<T>>): seq<T> {
    if |chunks| == 0 then [] else chunks[0] + Flatten(chunks[1..])
  }

  lemma {:induction false} FlattenAppend<T>(a: seq<seq<T>>, b: seq<seq<T>>)
    ensures Flatten(a + b) == Flatten(a) + Flatten(b)
    decreases |a|
  {
    if |a| == 0 {
      assert a + b == b;
    } else {
      assert (a + b)[0] == a[0];
      assert (a + b)[1..] == a[1..] + b;
      FlattenAppend(a[1..], b);
    }
  }

  /** Division is determined by any quotient-remainder decomposition. */
  lemma DivUnique(m: nat, size: nat, q: nat, r: nat)
    requires size > 0 && r < size && m == q * size + r
    ensures m / size == q
  {
    var q': int, r': int := m / size, m % size;
    var k := q' - q;
    assert k * size == r - r';
    MulAwayFromZero(k, size);
  }

  lemma MulAwayFromZero(k: int, size: nat)
    ensures k >= 1 ==> k * size >= size
    ensures k <= -1 ==> k * size <= 0 - size
  {
    if k >= 1 {
      assert k * size == (k - 1) * size + size;
    } else if k <= -1 {
      assert k * size == (k + 1) * size - size;
    }
  }

  /** Integer facts behind the chunk count ceil(n / size). */
  lemma CeilDiv(n: nat, size: nat)
    requires size > 0
    ensures n == 0 ==> (n + size - 1) / size == 0
    ensures 0 < n <= size ==> (n + size - 1) / size == 1
    ensures n > size ==> (n + size - 1) / size == 1 + (n - size + size - 1) / size
  {
    if n == 0 {
      DivUnique(size - 1, size, 0, size - 1);
    } else if n <= size {
      DivUnique(n + size - 1, size, 1, n - 1);
    } else {
      var q, r := (n - 1) / size, (n - 1) % size;
      DivUnique(n - 1, size, q, r);
      assert n + size - 1 == (q + 1) * size + r;
      DivUnique(n + size - 1, size, q + 1, r);
    }
  }

  /** `s.chunks(size)`: consecutive pieces of `size` elements, the last one
      holding whatever remains. Nothing is lost or reordered, every piece is
      non-empty, all but the last are exactly `size` long, and there are
      ceil(|s| / size) pieces. */
  function Chunks<T>(s: seq<T>, size: nat): (cs: seq<seq<T>>)
    requires size > 0
    ensures Flatten(cs) == s
    ensures forall i :: 0 <= i < |cs| ==> 0 < |cs[i]| <= size
    ensures forall i :: 0 <= i < |cs| - 1 ==> |cs[i]| == size
    ensures |cs| == (|s| + size - 1) / size
    decreases |s|
  {
    CeilDiv(|s|, size);
    if |s| == 0 then []
    else if |s| <= size then
      assert Flatten([s]) == s + Flatten([]);
      [s]
    else
      var rest := Chunks(s[size..], size);
      assert s == s[..size] + s[size..];
      var cs := [s[..size]] + rest;
      assert cs[0] == s[..size] && cs[1..] == rest;
      cs
  }
}
