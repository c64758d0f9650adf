/** The C structures the pfsync status code fills in: `struct
    sockaddr_storage` as an opaque 128-byte block whose second byte is the
    address family, and `struct pfsync_kstatus` (syncdev, syncpeer,
    maxupdates, flags). Sizes and constants are FreeBSD's. */
module PfsyncTypes {
  import opened Common

  const IFNAMSIZ: nat := 16
  /** sizeof(struct sockaddr_storage) */
  const SS_SIZE: nat := 128
  /** sizeof(struct sockaddr_in) */
  const SIN_SIZE: nat := 16
  /** sizeof(struct sockaddr_in6) */
  const SIN6_SIZE: nat := 28
  /** BSD socket addresses start with a length byte; the family byte follows. */
  const FAMILY_OFFSET: nat := 1
  /** Offset of sin_addr in a sockaddr_in (after sin_len, sin_family, sin_port). */
  const SIN_ADDR_OFFSET: nat := 4

  const AF_UNSPEC: int := 0
  const AF_INET: int := 2
  const AF_INET6: int := 28

  /** Bits of pfsync_kstatus.flags. */
  const PFSYNCF_OK: int := 1
  const PFSYNCF_DEFER: int := 2

  /** The families the codec supports (both INET and INET6 compiled in). */
  predicate IsInetFamily(af: int)
  {
    af == AF_INET || af == AF_INET6
  }

  /** sizeof the family-specific socket address structure. */
  function SockaddrSize(af: int): (n: nat)
    requires IsInetFamily(af)
    ensures FAMILY_OFFSET < n <= SS_SIZE
  {
    if af == AF_INET then SIN_SIZE else SIN6_SIZE
  }

  function Zeros(n: nat): (z: seq<Byte>)
    ensures |z| == n && forall i :: 0 <= i < n ==> z[i] == 0
  {
    seq(n, _ => 0)
  }

  /** `after` is `before` with its first |blob| bytes replaced by `blob`
      (what memcpy(before, blob, |blob|) leaves). */
  predicate PrefixCopied(after: seq<Byte>, blob: seq<Byte>, before: seq<Byte>)
  {
    |blob| <= |before| && after == blob + before[|blob|..]
  }

  /** The value of a struct pfsync_kstatus. */
  datatype Status = Status(syncdev: string, syncpeer: seq<Byte>, maxupdates: int, flags: int)

  predicate WellSized(st: Status)
  {
    |st.syncdev| == IFNAMSIZ && |st.syncpeer| == SS_SIZE
  }

  /** A memset(&status, 0, sizeof(status)) record. */
  function ZeroStatus(): (st: Status)
    ensures WellSized(st)
  {
    Status(seq(IFNAMSIZ, _ => NUL), Zeros(SS_SIZE), 0, 0)
  }

  /** A struct pfsync_kstatus in memory: the two arrays are fixed buffers
      inside the structure, the two integers are assigned in place. */
  class KStatus {
    const syncdev: array<char>
    const syncpeer: array<Byte>
    var maxupdates: int
    var flags: int

    predicate Valid()
    {
      syncdev.Length == IFNAMSIZ && syncpeer.Length == SS_SIZE
    }

    function View(): (st: Status)
      reads this, syncdev, syncpeer
      ensures Valid() ==> WellSized(st)
    {
      Status(syncdev[..], syncpeer[..], maxupdates, flags)
    }

    /** memset(&status, 0, sizeof(struct pfsync_kstatus)) */
    constructor Zeroed()
      ensures Valid() && fresh(syncdev) && fresh(syncpeer)
      ensures View() == ZeroStatus()
    {
      syncdev := new char[IFNAMSIZ](_ => NUL);
      syncpeer := new Byte[SS_SIZE](_ => 0);
      maxupdates, flags := 0, 0;
      new;
      assert syncpeer[..] == Zeros(SS_SIZE);
      assert syncdev[..] == seq(IFNAMSIZ, _ => NUL);
    }
  }

  /** A struct assignment between two sockaddr_storage buffers. */
  method CopyBytes(dst: array<Byte>, src: array<Byte>)
    requires dst.Length == src.Length
    modifies dst
    ensures dst[..] == old(src[..])
  {
    forall i | 0 <= i < dst.Length {
      dst[i] := src[i];
    }
  }

  /** memset(dst, 0, sizeof(*dst)) */
  method ZeroBytes(dst: array<Byte>)
    modifies dst
    ensures dst[..] == Zeros(dst.Length)
  {
    forall i | 0 <= i < dst.Length {
      dst[i] := 0;
    }
  }
}
