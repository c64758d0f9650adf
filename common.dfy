/** Shared vocabulary of the C code: bytes, NUL-terminated character
    arrays, strlcpy, narrowing of 64-bit numbers into a C `int`, and the
    errno values the modelled functions return. */
module Common {

  datatype Option<T> = None | Some(value: T)

  /** An unsigned char. */
  type Byte = b: int | 0 <= b < 256

  const TWO_32: int := 0x1_0000_0000
  const TWO_64: int := 0x1_0000_0000_0000_0000

  /** The values an nvlist number (uint64_t) can hold. */
  type Uint64 = n: int | 0 <= n < TWO_64

  /** errno values of FreeBSD's sys/errno.h used by the modelled code. */
  type Errno = int
  const EPERM: Errno := 1
  const ENOENT: Errno := 2
  const EFAULT: Errno := 14
  const EINVAL: Errno := 22
  const ENOSPC: Errno := 28

  function Min(a: int, b: int): int { if a <= b then a else b }

  /** Storing a number into a 32-bit two's-complement `int`: the low 32 bits
      are kept and read back as a signed value. */
  function Int32Of(n: int): (r: int)
    ensures -0x8000_0000 <= r < 0x8000_0000
    ensures (n - r) % TWO_32 == 0
    ensures -0x8000_0000 <= n < 0x8000_0000 ==> r == n
  {
    var low := n % TWO_32;
    if low < 0x8000_0000 then low else low - TWO_32
  }

  /** Bit `k` of the two's-complement representation of `x`
      (`x & (1 << k)` is nonzero). */
  predicate BitSet(x: int, k: nat)
  {
    (x / Pow2(k)) % 2 == 1
  }

  function Pow2(k: nat): (r: nat)
    ensures r >= 1
  {
    if k == 0 then 1 else 2 * Pow2(k - 1)
  }

  const NUL: char := '\0'

  /** strlen: the index of the first NUL, or the whole array when there is none. */
  function CStrLen(s: string): (n: nat)
    ensures n <= |s|
    ensures forall i :: 0 <= i < n ==> s[i] != NUL
    ensures n < |s| ==> s[n] == NUL
  {
    if s == [] || s[0] == NUL then 0 else 1 + CStrLen(s[1..])
  }

  /** The C string a character array holds. */
  function CString(s: string): string
  {
    s[..CStrLen(s)]
  }

  /** strlcpy(dst, src, |dst|) on the array `dst`: at most |dst| - 1
      characters of the C string `src` are copied and a NUL is written after
      them; the characters of `dst` after that NUL keep their old values. */
  function Strlcpy(dst: string, src: string): (r: string)
    requires |dst| > 0
    ensures |r| == |dst|
    ensures CString(r) == CString(src)[..Min(CStrLen(src), |dst| - 1)]
    ensures CStrLen(r) < |r|
    ensures forall i :: Min(CStrLen(src), |dst| - 1) < i < |dst| ==> r[i] == dst[i]
  {
    var n := Min(CStrLen(src), |dst| - 1);
    var r := src[..n] + [NUL] + dst[n + 1..];
    assert r[n] == NUL;
    assert forall i :: 0 <= i < n ==> r[i] == src[i];
    r
  }

  /** The character-by-character copy strlcpy performs, in place. */
  method StrlcpyInto(dst: array<char>, src: string)
    requires dst.Length > 0
    modifies dst
    ensures dst[..] == Strlcpy(old(dst[..]), src)
  {
    var n := 0;
    while n < dst.Length - 1 && n < |src| && src[n] != NUL
      invariant 0 <= n <= dst.Length - 1
      invariant n <= CStrLen(src)
      invariant forall i :: 0 <= i < n ==> dst[i] == src[i]
      invariant forall i :: n <= i < dst.Length ==> dst[i] == old(dst[i])
    {
      dst[n] := src[n];
      n := n + 1;
    }
    dst[n] := NUL;
    assert n == Min(CStrLen(src), dst.Length - 1);
    assert dst[..] == src[..n] + [NUL] + old(dst[..])[n + 1..];
  }

  /** bzero over a whole character array. */
  method ZeroChars(dst: array<char>)
    modifies dst
    ensures forall i :: 0 <= i < dst.Length ==> dst[i] == NUL
  {
    forall i | 0 <= i < dst.Length {
      dst[i] := NUL;
    }
  }
}
