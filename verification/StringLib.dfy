// The hypervisor's string library. `mem` is all of memory and pointers are
// indices into it; every routine works in place.
module StringLib {
  import opened Memory

  // Counters in these routines are compared as unsigned 32-bit numbers but held
  // in a signed one; past this bound the signed counter would overflow.
  const INT32_LIMIT := 0x8000_0000

  // *(uint32_t *)dst = *(uint32_t *)src, with both pointers on word boundaries.
  method StoreWord(mem: array<Byte>, dst: nat, src: nat)
    requires dst + 4 <= mem.Length && src + 4 <= mem.Length
    requires dst % 4 == 0 && src % 4 == 0
    modifies mem
    ensures mem[..] == ForwardCopy(old(mem[..]), dst, src, 4)
  {
    WordStoreIsFourBytes(mem[..], dst, src);
    mem[dst], mem[dst + 1], mem[dst + 2], mem[dst + 3] := mem[src], mem[src + 1], mem[src + 2], mem[src + 3];
  }

  // Both paths leave memory as a forward byte copy does: with word-aligned
  // pointers the faster loop is indistinguishable from the plain one.
  method Memcpy(mem: array<Byte>, dst: nat, src: nat, count: nat) returns (ret: nat)
    requires dst + count <= mem.Length && src + count <= mem.Length
    requires count + 2 < INT32_LIMIT
    modifies mem
    ensures ret == dst
    ensures mem[..] == ForwardCopy(old(mem[..]), dst, src, count)
  {
    if src % 4 == 0 && dst % 4 == 0 {
      ghost var m := mem[..];
      var i := CopyWords(mem, dst, src, count);
      // count - 1 is unsigned: for count == 0 it is the largest 32-bit number
      if i <= (if count == 0 then 0xFFFF_FFFF else count - 1) {
        CopyBytes(mem, dst + i, src + i, count - i);
        ForwardCopySplit(m, dst, src, i, count - i);
      }
    } else {
      CopyBytes(mem, dst, src, count);
    }
    return dst;
  }

  // The word loop, which stops early rather than copy past the end.
  method CopyWords(mem: array<Byte>, dst: nat, src: nat, count: nat) returns (i: nat)
    requires dst + count <= mem.Length && src + count <= mem.Length
    requires dst % 4 == 0 && src % 4 == 0
    modifies mem
    ensures i <= count < i + 4
    ensures mem[..] == ForwardCopy(old(mem[..]), dst, src, i)
  {
    i := 0;
    var dstTmp, srcTmp := dst, src;
    while i < count
      invariant i <= count && i % 4 == 0
      invariant dstTmp == dst + i && srcTmp == src + i
      invariant mem[..] == ForwardCopy(old(mem[..]), dst, src, i)
    {
      if i + 3 > count - 1 {
        break;
      }
      Aligned(dst, i);
      Aligned(src, i);
      StoreWord(mem, dstTmp, srcTmp);
      ForwardCopySplit(old(mem[..]), dst, src, i, 4);
      dstTmp := dstTmp + 4;
      srcTmp := srcTmp + 4;
      i := i + 4;
    }
  }

  lemma Aligned(p: nat, i: nat)
    requires p % 4 == 0 && i % 4 == 0
    ensures (p + i) % 4 == 0
  {
  }

  method CopyBytes(mem: array<Byte>, dst: nat, src: nat, count: nat)
    requires dst + count <= mem.Length && src + count <= mem.Length
    modifies mem
    ensures mem[..] == ForwardCopy(old(mem[..]), dst, src, count)
  {
    var i := 0;
    while i < count
      invariant i <= count
      invariant mem[..] == ForwardCopy(old(mem[..]), dst, src, i)
    {
      mem[dst + i] := mem[src + i];
      i := i + 1;
    }
  }

  // The fill value is truncated to a byte by the store.
  method Memset(mem: array<Byte>, dest: nat, c: nat, count: nat) returns (ret: nat)
    requires dest + count <= mem.Length
    modifies mem
    ensures ret == dest
    ensures forall a :: dest <= a < dest + count ==> mem[a] == c % 256
    ensures forall a :: 0 <= a < mem.Length && !(dest <= a < dest + count) ==> mem[a] == old(mem[a])
  {
    var d, left := dest, count;
    while left > 0
      invariant d + left == dest + count && dest <= d
      invariant forall a :: dest <= a < d ==> mem[a] == c % 256
      invariant forall a :: 0 <= a < mem.Length && !(dest <= a < d) ==> mem[a] == old(mem[a])
    {
      left := left - 1;
      mem[d] := c % 256;
      d := d + 1;
    }
    return dest;
  }

  method Strlen(mem: array<Byte>, s: nat) returns (n: nat)
    requires IsCString(mem[..], s)
    ensures n == CStringLength(mem[..], s)
  {
    var sc := s;
    ghost var l := CStringLength(mem[..], s);
    while mem[sc] != NUL
      invariant s <= sc <= s + l
      decreases s + l - sc
    {
      sc := sc + 1;
    }
    CStringLengthUnique(mem[..], s, sc - s);
    return sc - s;
  }

  // The terminator test comes before the budget test, so with no terminator among
  // the first n bytes the byte at s + n is read too.
  predicate StrnlenReadable(m: seq<Byte>, s: nat, n: nat) {
    s + n < |m| || IsCString(m, s)
  }

  // The distance to the first NUL, and n when that is further away.
  function StrnlenOf(m: seq<Byte>, s: nat, n: nat): (r: nat)
    requires StrnlenReadable(m, s, n)
    ensures r <= n && s + r < |m| + 1
    ensures forall k :: s <= k < s + r ==> k < |m| && m[k] != NUL
    ensures r < n ==> s + r < |m| && m[s + r] == NUL
  {
    if IsCString(m, s) && CStringLength(m, s) < n then CStringLength(m, s)
    else n
  }

  method Strnlen(mem: array<Byte>, s: nat, n: nat) returns (r: nat)
    requires StrnlenReadable(mem[..], s, n)
    ensures r == StrnlenOf(mem[..], s, n)
  {
    ghost var m := mem[..];
    ghost var goal := StrnlenOf(m, s, n);
    var str, left := s, n;
    while true
      invariant s <= str <= s + goal && left == n - (str - s)
      decreases left
    {
      if mem[str] == NUL { break; }
      var more := left != 0;
      if !more { break; }
      left := left - 1;
      str := str + 1;
    }
    return str - s;
  }

  // A string copy ends iff its destination is not inside the source string,
  // terminator included (CopyIntoOwnTailNeverMeetsNul).
  predicate StringCopyEnds(m: seq<Byte>, dest: nat, src: nat) {
    IsCString(m, src) && !(src < dest <= src + CStringLength(m, src))
  }

  method Strcpy(mem: array<Byte>, dest: nat, src: nat) returns (ret: nat)
    requires StringCopyEnds(mem[..], dest, src)
    requires dest + CStringLength(mem[..], src) < mem.Length
    modifies mem
    ensures ret == dest
    ensures mem[..] == ForwardCopy(old(mem[..]), dest, src, CStringLength(old(mem[..]), src) + 1)
  {
    CopyLoop(mem, dest, src);
    return dest;
  }

  // while ((*dest++ = *src++) != 0) ;
  method CopyLoop(mem: array<Byte>, dest: nat, src: nat)
    requires StringCopyEnds(mem[..], dest, src)
    requires dest + CStringLength(mem[..], src) < mem.Length
    modifies mem
    ensures mem[..] == ForwardCopy(old(mem[..]), dest, src, CStringLength(old(mem[..]), src) + 1)
  {
    ghost var m := mem[..];
    ghost var n := CStringLength(m, src);
    var d, s := dest, src;
    while true
      invariant 0 <= d - dest <= n && s == src + (d - dest)
      invariant mem[..] == ForwardCopy(m, dest, src, d - dest)
      decreases n - (d - dest)
    {
      NextByteUntouched(m, dest, src, d - dest);
      assert mem[..][s] == m[s];
      var c := mem[s];
      mem[d] := c;
      d := d + 1;
      s := s + 1;
      if c == NUL { break; }
    }
  }

  method Strcat(mem: array<Byte>, dest: nat, src: nat) returns (ret: nat)
    requires IsCString(mem[..], dest)
    requires StringCopyEnds(mem[..], dest + CStringLength(mem[..], dest), src)
    requires dest + CStringLength(mem[..], dest) + CStringLength(mem[..], src) < mem.Length
    modifies mem
    ensures ret == dest
    ensures mem[..] == ForwardCopy(old(mem[..]), dest + CStringLength(old(mem[..]), dest), src,
                                   CStringLength(old(mem[..]), src) + 1)
  {
    ghost var m := mem[..];
    ghost var n := CStringLength(m, dest);
    var d := dest;
    while mem[d] != NUL
      invariant dest <= d <= dest + n
      decreases dest + n - d
    {
      d := d + 1;
    }
    CStringLengthUnique(m, dest, d - dest);
    CopyLoop(mem, d, src);
    return dest;
  }

  // What strcpy leaves at dest, whichever way the two strings overlap.
  lemma {:induction false} StrcpyResult(m: seq<Byte>, dest: nat, src: nat, r: seq<Byte>)
    requires StringCopyEnds(m, dest, src) && dest + CStringLength(m, src) < |m|
    requires r == ForwardCopy(m, dest, src, CStringLength(m, src) + 1)
    ensures IsCString(r, dest) && CString(r, dest) == CString(m, src)
  {
    var n := CStringLength(m, src);
    FaithfulUnlessAhead(m, dest, src, n + 1);
    SameString(m, src, r, dest, n);
  }

  // The same bytes, terminator included, are the same string.
  lemma {:induction false} SameString(m: seq<Byte>, p: nat, r: seq<Byte>, q: nat, n: nat)
    requires IsCString(m, p) && CStringLength(m, p) == n
    requires q + n + 1 <= |r| && r[q..q + n + 1] == m[p..p + n + 1]
    ensures IsCString(r, q) && CString(r, q) == CString(m, p)
  {
    var to, from := r[q..q + n + 1], m[p..p + n + 1];
    forall k | q <= k <= q + n
      ensures r[k] == m[p + (k - q)]
    {
      assert to[k - q] == from[k - q];
    }
    CStringLengthUnique(r, q, n);
    assert r[q..q + n] == to[..n] && m[p..p + n] == from[..n];
  }

  // strcat concatenates: the destination keeps its own string and gains the
  // source's, provided the source does not reach the destination's terminator.
  lemma {:induction false} StrcatResult(m: seq<Byte>, dest: nat, src: nat)
    requires IsCString(m, dest)
    requires StringCopyEnds(m, dest + CStringLength(m, dest), src)
    requires dest + CStringLength(m, dest) + CStringLength(m, src) < |m|
    ensures var r := ForwardCopy(m, dest + CStringLength(m, dest), src, CStringLength(m, src) + 1);
            IsCString(r, dest) && CString(r, dest) == CString(m, dest) + CString(m, src)
  {
    var e, n := dest + CStringLength(m, dest), CStringLength(m, src);
    assert m[dest..e] == CString(m, dest);
    FrontKept(m, dest, e, src, n + 1);
    var r := ForwardCopy(m, e, src, n + 1);
    StrcpyResult(m, e, src, r);
    assert CString(r, e) == CString(m, src);
    CStringAppend(r, dest, e, CString(m, dest));
  }

  lemma {:induction false} FrontKept(m: seq<Byte>, p: nat, dst: nat, src: nat, count: nat)
    requires p <= dst && dst + count <= |m| && src + count <= |m|
    ensures ForwardCopy(m, dst, src, count)[p..dst] == m[p..dst]
  {
    ForwardCopyEffect(m, dst, src, count);
  }

  // A NUL-free run of bytes ending where a C string begins extends that string.
  lemma {:induction false} CStringAppend(m: seq<Byte>, p: nat, e: nat, front: seq<Byte>)
    requires p <= e && IsCString(m, e)
    requires m[p..e] == front && NUL !in front
    ensures IsCString(m, p) && CString(m, p) == front + CString(m, e)
  {
    var n := CStringLength(m, e);
    forall k | p <= k < e ensures m[k] != NUL { assert m[k] == front[k - p]; }
    CStringLengthUnique(m, p, e - p + n);
    assert m[p..p + (e - p + n)] == m[p..e] + m[e..e + n];
  }
}
