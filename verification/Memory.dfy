// Flat byte memory, and what a forward byte-by-byte copy does to it.
//
// Memory is one sequence of bytes and a pointer is an index into it, so two
// regions may overlap in any way that two C pointers can.
module Memory {
  import opened Arithmetic

  type Byte = b: int | 0 <= b < 256

  const NUL: Byte := 0

  // The memory after `count` steps of  dst[j] = src[j],  j = 0, 1, 2, ...
  function ForwardCopy(m: seq<Byte>, dst: nat, src: nat, count: nat): (r: seq<Byte>)
    requires dst + count <= |m| && src + count <= |m|
    ensures |r| == |m|
  {
    if count == 0 then m
    else
      var prev := ForwardCopy(m, dst, src, count - 1);
      prev[dst + count - 1 := prev[src + count - 1]]
  }

  // Where the byte at address a after the copy was before it. A destination that
  // starts d bytes inside the source reads back its own output every d bytes.
  function Origin(dst: nat, src: nat, count: nat, a: nat): (o: nat)
    ensures dst <= a < dst + count ==> src <= o < src + count
  {
    if !(dst <= a < dst + count) then a
    else if src < dst then
      assert (a - dst) % (dst - src) <= a - dst by { RemainderAtMost(a - dst, dst - src); }
      src + (a - dst) % (dst - src)
    else src + (a - dst)
  }

  // The whole effect of a forward copy, overlaps in both directions included.
  lemma {:induction false} ForwardCopyEffect(m: seq<Byte>, dst: nat, src: nat, count: nat)
    requires dst + count <= |m| && src + count <= |m|
    ensures forall a :: 0 <= a < |m| ==> ForwardCopy(m, dst, src, count)[a] == m[Origin(dst, src, count, a)]
  {
    if count > 0 {
      var last := count - 1;
      var prev := ForwardCopy(m, dst, src, last);
      ForwardCopyEffect(m, dst, src, last);
      assert prev[src + last] == m[Origin(dst, src, last, src + last)];
      assert Origin(dst, src, last, src + last) == Origin(dst, src, count, dst + last) by {
        if src < dst { RemainderAtMost(last, dst - src); }
      }
    }
  }

  // The next byte to copy is still the original one, unless the destination
  // begins between the start of the source and that byte.
  lemma {:induction false} NextByteUntouched(m: seq<Byte>, dst: nat, src: nat, k: nat)
    requires dst + k <= |m| && src + k < |m|
    requires !(src < dst <= src + k)
    ensures ForwardCopy(m, dst, src, k)[src + k] == m[src + k]
  {
    ForwardCopyEffect(m, dst, src, k);
    assert Origin(dst, src, k, src + k) == src + k;
  }

  // What ISO C promises for memcpy and memmove: the destination is the old source.
  predicate CopiedFaithfully(m: seq<Byte>, r: seq<Byte>, dst: nat, src: nat, count: nat)
    requires dst + count <= |m| && src + count <= |m|
  {
    |r| == |m| && r[dst..dst + count] == m[src..src + count]
  }

  lemma {:induction false} FaithfulUnlessAhead(m: seq<Byte>, dst: nat, src: nat, count: nat)
    requires dst + count <= |m| && src + count <= |m|
    requires !(src < dst < src + count)
    ensures CopiedFaithfully(m, ForwardCopy(m, dst, src, count), dst, src, count)
  {
    ForwardCopyEffect(m, dst, src, count);
    var r := ForwardCopy(m, dst, src, count);
    var to, from := r[dst..dst + count], m[src..src + count];
    forall j | 0 <= j < count
      ensures to[j] == from[j]
    {
      assert r[dst + j] == m[Origin(dst, src, count, dst + j)];
      if src < dst { RemainderAtMost(j, dst - src); }
    }
  }

  // A memory on which a copy into the middle of the source goes wrong.
  lemma {:induction false} AheadIsUnfaithful(size: nat, dst: nat, src: nat, count: nat) returns (m: seq<Byte>)
    requires dst + count <= size && src + count <= size
    requires src < dst < src + count
    ensures |m| == size && !CopiedFaithfully(m, ForwardCopy(m, dst, src, count), dst, src, count)
  {
    var zeros := seq<Byte>(size, _ => 0);
    m := zeros[dst := 1];
    var r := ForwardCopy(m, dst, src, count);
    var d := dst - src;
    ForwardCopyEffect(m, dst, src, count);
    RemainderAtMost(d, d);
    RemainderAtMost(0, d);
    assert r[dst + d] == m[src];
    assert r[dst..dst + count][d] == 0;
    assert m[src..src + count][d] == 1;
  }

  // A forward copy is a faithful one, whatever memory holds, exactly when the
  // destination does not start strictly inside the source.
  lemma {:induction false} FaithfulIffNotAhead(size: nat, dst: nat, src: nat, count: nat)
    requires dst + count <= size && src + count <= size
    ensures (forall m: seq<Byte> | |m| == size :: CopiedFaithfully(m, ForwardCopy(m, dst, src, count), dst, src, count))
       <==> !(src < dst < src + count)
  {
    if src < dst < src + count {
      var m := AheadIsUnfaithful(size, dst, src, count);
    } else {
      forall m: seq<Byte> | |m| == size
        ensures CopiedFaithfully(m, ForwardCopy(m, dst, src, count), dst, src, count)
      {
        FaithfulUnlessAhead(m, dst, src, count);
      }
    }
  }

  // Copying n bytes and then k more is copying n + k bytes.
  lemma {:induction false} ForwardCopySplit(m: seq<Byte>, dst: nat, src: nat, n: nat, k: nat)
    requires dst + n + k <= |m| && src + n + k <= |m|
    ensures ForwardCopy(m, dst, src, n + k) == ForwardCopy(ForwardCopy(m, dst, src, n), dst + n, src + n, k)
  {
    if k > 0 {
      ForwardCopySplit(m, dst, src, n, k - 1);
      assert n + k - 1 == n + (k - 1);
    }
  }

  // A whole-word store of the word at src. With both pointers on word boundaries
  // the two words coincide or are disjoint, so it is four forward byte stores.
  lemma {:induction false} WordStoreIsFourBytes(m: seq<Byte>, dst: nat, src: nat)
    requires dst + 4 <= |m| && src + 4 <= |m|
    requires dst == src || dst + 4 <= src || src + 4 <= dst
    ensures m[dst := m[src]][dst + 1 := m[src + 1]][dst + 2 := m[src + 2]][dst + 3 := m[src + 3]]
         == ForwardCopy(m, dst, src, 4)
  {
    assert ForwardCopy(m, dst, src, 4) == ForwardCopy(m, dst, src, 3)[dst + 3 := ForwardCopy(m, dst, src, 3)[src + 3]];
    assert ForwardCopy(m, dst, src, 2) == ForwardCopy(m, dst, src, 1)[dst + 1 := ForwardCopy(m, dst, src, 1)[src + 1]];
    FaithfulUnlessAhead(m, dst, src, 4);
    ForwardCopyEffect(m, dst, src, 4);
    var r := ForwardCopy(m, dst, src, 4);
    var w := m[dst := m[src]][dst + 1 := m[src + 1]][dst + 2 := m[src + 2]][dst + 3 := m[src + 3]];
    assert w[dst..dst + 4] == m[src..src + 4];
    forall a | 0 <= a < |m|
      ensures w[a] == r[a]
    {
      if dst <= a < dst + 4 {
        assert w[a] == w[dst..dst + 4][a - dst];
        assert r[a] == r[dst..dst + 4][a - dst];
      }
    }
  }

  // --- C strings -----------------------------------------------------------

  // There is a terminator at or after p.
  predicate IsCString(m: seq<Byte>, p: nat) {
    exists k :: p <= k < |m| && m[k] == NUL
  }

  // The bytes of the C string at p, without its terminator.
  function CStringLength(m: seq<Byte>, p: nat): (n: nat)
    requires IsCString(m, p)
    ensures p + n < |m| && m[p + n] == NUL
    ensures forall k :: p <= k < p + n ==> m[k] != NUL
    decreases |m| - p
  {
    if m[p] == NUL then 0
    else 1 + CStringLength(m, p + 1)
  }

  function CString(m: seq<Byte>, p: nat): (s: seq<Byte>)
    requires IsCString(m, p)
    ensures NUL !in s
  {
    m[p..p + CStringLength(m, p)]
  }

  // A first terminator at distance n determines the length.
  lemma {:induction false} CStringLengthUnique(m: seq<Byte>, p: nat, n: nat)
    requires p + n < |m| && m[p + n] == NUL
    requires forall k :: p <= k < p + n ==> m[k] != NUL
    ensures IsCString(m, p) && CStringLength(m, p) == n
  {
  }

  // Copying a string to a destination that begins inside it, its terminator
  // included, overwrites the terminator before reading it: however far the copy
  // runs, the next byte to copy is never NUL. So the string loops need
  // !(src < dst <= src + length) to stop.
  lemma {:induction false} CopyIntoOwnTailNeverMeetsNul(m: seq<Byte>, dst: nat, src: nat, k: nat)
    requires IsCString(m, src) && src < dst <= src + CStringLength(m, src)
    requires dst + k <= |m|
    ensures ForwardCopy(m, dst, src, k)[src + k] != NUL
  {
    ForwardCopyEffect(m, dst, src, k);
    var o := Origin(dst, src, k, src + k);
    assert ForwardCopy(m, dst, src, k)[src + k] == m[o];
    assert src <= o < dst by {
      if dst <= src + k { assert o == src + (src + k - dst) % (dst - src); }
    }
  }
}
