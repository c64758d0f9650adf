/** ifconfig's pfsync support (sbin/ifconfig/ifpfsync.c): the commands
    that fetch the interface's pfsyncreq, change one field and store it
    back, the userland copies of the nvlist decoders, and the decisions of
    the status display. */
module IfPfsync {
  import opened Common
  import opened Nv
  import opened PfsyncTypes
  import PfsyncNv

  // ---------------------------------------------------------------------
  // The request record and the set/unset commands.

  /** A struct in_addr: four bytes in network order. */
  type InAddr = a: seq<Byte> | |a| == 4 witness [0, 0, 0, 0]

  /** ntohl(s_addr) */
  function Ntohl(a: InAddr): nat
  {
    (a[0] as int) * 0x100_0000 + (a[1] as int) * 0x1_0000 + (a[2] as int) * 0x100 + (a[3] as int)
  }

  /** IN_MULTICAST(ntohl(s_addr)), that is (i & 0xf0000000) == 0xe0000000,
      written as a test on the top four bits of the 32-bit value. */
  predicate InMulticast(a: InAddr)
  {
    Ntohl(a) / 0x1000_0000 == 0xe
  }

  /** IN_MULTICAST is exactly the class D range 224.0.0.0/4 of section 4 of
      RFC 1112: the first octet is between 224 and 239. */
  lemma {:induction false} MulticastIsClassD(a: InAddr)
    ensures InMulticast(a) <==> 224 <= a[0] <= 239
  {
    var top: int := a[0];
    var rest := (a[1] as int) * 0x1_0000 + (a[2] as int) * 0x100 + (a[3] as int);
    var q, m := top / 16, top % 16;
    assert top == 16 * q + m;
    assert Ntohl(a) == q * 0x1000_0000 + (m * 0x100_0000 + rest);
    assert 0 <= m * 0x100_0000 + rest < 0x1000_0000;
    assert Ntohl(a) / 0x1000_0000 == q;
  }

  /** What getaddrinfo() resolved the syncpeer argument to (its first
      result): an IPv4 address, or an address of another family. */
  datatype AddrInfo = Inet(addr: InAddr) | OtherFamily(family: int)

  /** The reasons the commands exit through errx() before storing the
      record back. */
  datatype CmdError = OutOfRange | LookupFailed | MulticastPeer | UnsupportedFamily

  /** The pfsyncreq as fetched with SIOCGETPFSYNC; a command that succeeds
      stores it back with SIOCSETPFSYNC, one that fails exits first, so an
      error leaves the interface's configuration as it was. */
  class PfsyncReq {
    const syncdev: array<char>
    var syncpeer: InAddr
    var maxupdates: int
    var defer: int

    predicate Valid()
    {
      syncdev.Length == IFNAMSIZ
    }

    constructor (dev: string, peer: InAddr, maxupd: int, deferFlags: int)
      requires |dev| == IFNAMSIZ
      ensures Valid() && fresh(syncdev)
      ensures syncdev[..] == dev && syncpeer == peer && maxupdates == maxupd && defer == deferFlags
    {
      syncdev := new char[IFNAMSIZ](i => if 0 <= i < |dev| then dev[i] else NUL);
      syncpeer, maxupdates, defer := peer, maxupd, deferFlags;
      new;
      assert syncdev[..] == dev;
    }

    /** setpfsync_syncdev: strlcpy of the argument into the fixed field. */
    method SetSyncdev(val: string)
      requires Valid()
      modifies syncdev
      ensures syncdev[..] == Strlcpy(old(syncdev[..]), val)
      ensures CString(syncdev[..]) == CString(val)[..Min(CStrLen(val), IFNAMSIZ - 1)]
      ensures unchanged(this)
    {
      StrlcpyInto(syncdev, val);
    }

    /** unsetpfsync_syncdev: bzero of the whole field. */
    method UnsetSyncdev()
      requires Valid()
      modifies syncdev
      ensures forall i :: 0 <= i < syncdev.Length ==> syncdev[i] == NUL
      ensures CString(syncdev[..]) == []
      ensures unchanged(this)
    {
      ZeroChars(syncdev);
    }

    /** setpfsync_syncpeer: only a non-multicast IPv4 address is accepted,
        and exactly its sin_addr is stored. */
    method SetSyncpeer(res: Option<AddrInfo>) returns (err: Option<CmdError>)
      modifies this
      ensures res.None? ==> err == Some(LookupFailed)
      ensures res.Some? && res.value.OtherFamily? ==> err == Some(UnsupportedFamily)
      ensures res.Some? && res.value.Inet? ==>
                err == (if 224 <= res.value.addr[0] <= 239 then Some(MulticastPeer) else None)
      ensures syncpeer == if err.None? then res.value.addr else old(syncpeer)
      ensures maxupdates == old(maxupdates) && defer == old(defer)
    {
      if res.None? {
        return Some(LookupFailed);
      }
      match res.value
      case Inet(addr) =>
        MulticastIsClassD(addr);
        if InMulticast(addr) {
          return Some(MulticastPeer);
        }
        syncpeer := addr;
        return None;
      case OtherFamily(_) =>
        return Some(UnsupportedFamily);
    }

    /** unsetpfsync_syncpeer: only s_addr is cleared. */
    method UnsetSyncpeer()
      modifies this
      ensures syncpeer == [0, 0, 0, 0]
      ensures maxupdates == old(maxupdates) && defer == old(defer)
    {
      syncpeer := [0, 0, 0, 0];
    }

    /** setpfsync_maxupd: the value atoi() read must lie in 0..255. */
    method SetMaxupd(val: int) returns (err: Option<CmdError>)
      modifies this
      ensures err.None? <==> 0 <= val <= 255
      ensures err.Some? ==> err == Some(OutOfRange)
      ensures maxupdates == if err.None? then val else old(maxupdates)
      ensures syncpeer == old(syncpeer) && defer == old(defer)
    {
      if val < 0 || val > 255 {
        return Some(OutOfRange);
      }
      maxupdates := val;
      return None;
    }

    /** setpfsync_defer: "defer" passes d = 1, "-defer" d = 0. */
    method SetDefer(d: int)
      modifies this
      ensures defer == if d != 0 then PFSYNCF_DEFER else 0
      ensures syncpeer == old(syncpeer) && maxupdates == old(maxupdates)
    {
      defer := if d != 0 then PFSYNCF_DEFER else 0;
    }
  }

  // ---------------------------------------------------------------------
  // The userland copies of the nvlist decoders.

  /** The userland pfsync_syncpeer_nvlist_to_sockaddr: the same checks as
      the kernel's, but its AF_INET6 case does not write the family byte
      before the length check. */
  function UserPeerDecode(nvl: Nvlist, sa: seq<Byte>): (r: PfsyncNv.PeerDecode)
    requires |sa| == SS_SIZE
    ensures |r.sa| == SS_SIZE
    ensures r.err == 0 || r.err == EINVAL
    ensures r.err == 0 <==> PfsyncNv.WellFormedPeer(nvl)
    ensures !HasNumber(nvl, "af") || !HasBinary(nvl, "address") ==> r == PfsyncNv.PeerDecode(EINVAL, sa)
    ensures HasNumber(nvl, "af") && !IsInetFamily(PfsyncNv.AfOf(nvl)) ==> r == PfsyncNv.PeerDecode(EINVAL, sa)
    ensures r.err == 0 ==> PrefixCopied(r.sa, GetBinary(nvl, "address"), sa)
    ensures r.err != 0 ==> r.sa == sa || (PfsyncNv.AfOf(nvl) == AF_INET && r.sa == sa[FAMILY_OFFSET := AF_INET])
    ensures HasNumber(nvl, "af") && HasBinary(nvl, "address") && PfsyncNv.AfOf(nvl) == AF_INET && !PfsyncNv.WellFormedPeer(nvl) ==>
              r.sa == sa[FAMILY_OFFSET := AF_INET]
  {
    if !HasNumber(nvl, "af") || !HasBinary(nvl, "address") then
      PfsyncNv.PeerDecode(EINVAL, sa)
    else
      var af := PfsyncNv.AfOf(nvl);
      var blob := GetBinary(nvl, "address");
      if af == AF_INET then
        var stamped := sa[FAMILY_OFFSET := AF_INET];
        if |blob| != SIN_SIZE then PfsyncNv.PeerDecode(EINVAL, stamped)
        else PfsyncNv.PeerDecode(0, blob + stamped[SIN_SIZE..])
      else if af == AF_INET6 then
        if |blob| != SIN6_SIZE then PfsyncNv.PeerDecode(EINVAL, sa)
        else PfsyncNv.PeerDecode(0, blob + sa[SIN6_SIZE..])
      else
        PfsyncNv.PeerDecode(EINVAL, sa)
  }

  /** The two copies return the same error on every input and leave the same
      bytes, except that a wrong-sized AF_INET6 blob makes only the kernel's
      write the family byte. */
  lemma {:induction false} PeerDecodersAgree(nvl: Nvlist, sa: seq<Byte>)
    requires |sa| == SS_SIZE
    ensures UserPeerDecode(nvl, sa).err == PfsyncNv.KernelPeerDecode(nvl, sa).err
    ensures UserPeerDecode(nvl, sa).sa == PfsyncNv.KernelPeerDecode(nvl, sa).sa
            || (PfsyncNv.AfOf(nvl) == AF_INET6 && !PfsyncNv.WellFormedPeer(nvl)
                && PfsyncNv.KernelPeerDecode(nvl, sa).sa == UserPeerDecode(nvl, sa).sa[FAMILY_OFFSET := AF_INET6])
  {
    var u, k := UserPeerDecode(nvl, sa), PfsyncNv.KernelPeerDecode(nvl, sa);
    if HasNumber(nvl, "af") && HasBinary(nvl, "address") && PfsyncNv.AfOf(nvl) == AF_INET6 && !PfsyncNv.WellFormedPeer(nvl) {
      assert u.sa == sa;
      assert k.sa == sa[FAMILY_OFFSET := AF_INET6];
    }
  }

  /** The userland pfsync_syncpeer_nvlist_to_sockaddr, into *sa. */
  method SyncpeerNvlistToSockaddr(nvl: Nvlist, sa: array<Byte>) returns (err: Errno)
    requires sa.Length == SS_SIZE
    modifies sa
    ensures PfsyncNv.PeerDecode(err, sa[..]) == UserPeerDecode(nvl, old(sa[..]))
  {
    if !HasNumber(nvl, "af") {
      return EINVAL;
    }
    if !HasBinary(nvl, "address") {
      return EINVAL;
    }
    var af := Int32Of(GetNumber(nvl, "af"));
    if af == AF_INET {
      var blob := GetBinary(nvl, "address");
      sa[FAMILY_OFFSET] := AF_INET;
      if |blob| != SIN_SIZE {
        return EINVAL;
      }
      forall i | 0 <= i < SIN_SIZE {
        sa[i] := blob[i];
      }
      assert sa[..] == blob + old(sa[..])[FAMILY_OFFSET := AF_INET][SIN_SIZE..];
    } else if af == AF_INET6 {
      var blob := GetBinary(nvl, "address");
      if |blob| != SIN6_SIZE {
        return EINVAL;
      }
      forall i | 0 <= i < SIN6_SIZE {
        sa[i] := blob[i];
      }
      assert sa[..] == blob + old(sa[..])[SIN6_SIZE..];
    } else {
      return EINVAL;
    }
    return 0;
  }

  /** The userland pfsync_nvstatus_to_kstatus: every key is optional and an
      absent one leaves its field alone; the peer is decoded into an
      uninitialised sockaddr_storage (`stack`, whatever bytes it held) and
      copied whole on success; a failed peer decode is printed and dropped,
      leaving syncpeer as it was. */
  function UserStatusDecode(nvl: Nvlist, st: Status, stack: seq<Byte>): (r: Status)
    requires WellSized(st) && |stack| == SS_SIZE
    ensures WellSized(r)
    ensures r.syncdev == if HasString(nvl, "syncdev") then Strlcpy(st.syncdev, GetString(nvl, "syncdev")) else st.syncdev
    ensures r.maxupdates == if HasNumber(nvl, "maxupdates") then Int32Of(GetNumber(nvl, "maxupdates")) else st.maxupdates
    ensures r.flags == if HasNumber(nvl, "flags") then Int32Of(GetNumber(nvl, "flags")) else st.flags
    ensures HasNvlist(nvl, "syncpeer") && PfsyncNv.WellFormedPeer(GetNvlist(nvl, "syncpeer")) ==>
              PrefixCopied(r.syncpeer, PfsyncNv.PeerBlob(nvl), stack)
    ensures !(HasNvlist(nvl, "syncpeer") && PfsyncNv.WellFormedPeer(GetNvlist(nvl, "syncpeer"))) ==>
              r.syncpeer == st.syncpeer
  {
    var syncdev := if HasString(nvl, "syncdev") then Strlcpy(st.syncdev, GetString(nvl, "syncdev")) else st.syncdev;
    var maxupdates := if HasNumber(nvl, "maxupdates") then Int32Of(GetNumber(nvl, "maxupdates")) else st.maxupdates;
    var flags := if HasNumber(nvl, "flags") then Int32Of(GetNumber(nvl, "flags")) else st.flags;
    var syncpeer :=
      if HasNvlist(nvl, "syncpeer") then
        var d := UserPeerDecode(GetNvlist(nvl, "syncpeer"), stack);
        if d.err == 0 then d.sa else st.syncpeer
      else st.syncpeer;
    Status(syncdev, syncpeer, maxupdates, flags)
  }

  /** The userland pfsync_nvstatus_to_kstatus, field by field into *status. */
  method NvstatusToKstatus(nvl: Nvlist, status: KStatus, stack: seq<Byte>)
    requires status.Valid() && |stack| == SS_SIZE
    modifies status, status.syncdev, status.syncpeer
    ensures status.View() == UserStatusDecode(nvl, old(status.View()), stack)
  {
    if HasString(nvl, "syncdev") {
      StrlcpyInto(status.syncdev, GetString(nvl, "syncdev"));
    }
    if HasNumber(nvl, "maxupdates") {
      status.maxupdates := Int32Of(GetNumber(nvl, "maxupdates"));
    }
    if HasNumber(nvl, "flags") {
      status.flags := Int32Of(GetNumber(nvl, "flags"));
    }
    if HasNvlist(nvl, "syncpeer") {
      var addr := new Byte[SS_SIZE](i => if 0 <= i < |stack| then stack[i] else 0);
      assert addr[..] == stack;
      var ret := SyncpeerNvlistToSockaddr(GetNvlist(nvl, "syncpeer"), addr);
      if ret == 0 {
        CopyBytes(status.syncpeer, addr);
      }
    }
  }

  /** Decoding a status in userland never fails outright: even where the
      kernel's decoder returns EINVAL for a bad peer record, the userland one
      keeps the fields it could read and the peer it had. */
  lemma {:induction false} UserDecodeKeepsPeerOnBadRecord(nvl: Nvlist, st: Status, stack: seq<Byte>)
    requires WellSized(st) && |stack| == SS_SIZE
    requires HasNumber(nvl, "maxupdates") && HasNumber(nvl, "flags")
    requires HasNvlist(nvl, "syncpeer") && !PfsyncNv.WellFormedPeer(GetNvlist(nvl, "syncpeer"))
    ensures PfsyncNv.KernelStatusDecode(nvl, st).err == EINVAL
    ensures UserStatusDecode(nvl, st, stack) == PfsyncNv.KernelStatusDecode(nvl, st).status
  {
  }

  // ---------------------------------------------------------------------
  // The status display.

  /** INADDR_PFSYNC_GROUP (224.0.0.240) after htonl, in network order. */
  const PFSYNC_GROUP: InAddr := [224, 0, 0, 240]

  /** The sin_addr of a sockaddr_storage read as a sockaddr_in. */
  function SinAddr(sa: seq<Byte>): InAddr
    requires |sa| == SS_SIZE
  {
    sa[SIN_ADDR_OFFSET..SIN_ADDR_OFFSET + 4]
  }

  /** What pfsync_status prints for a status: the leading tab, syncdev,
      the peer (as the address getnameinfo renders), maxupd, defer and
      syncok. */
  datatype Report = Report(tab: bool, syncdev: Option<string>, syncpeer: Option<InAddr>,
                           maxupd: int, deferOn: bool, syncok: bool)

  function StatusReport(st: Status): (r: Report)
    requires WellSized(st)
    ensures r.tab <==> CStrLen(st.syncdev) > 0 || st.syncpeer[FAMILY_OFFSET] != AF_UNSPEC
    ensures r.syncdev.Some? <==> CString(st.syncdev) != []
    ensures r.syncdev.Some? ==> r.syncdev.value == CString(st.syncdev)
    ensures r.syncpeer.Some? <==> st.syncpeer[FAMILY_OFFSET] == AF_INET && SinAddr(st.syncpeer) != PFSYNC_GROUP
    ensures r.syncdev.Some? || r.syncpeer.Some? ==> r.tab
    ensures r.maxupd == st.maxupdates
    ensures r.deferOn <==> BitSet(st.flags, 1)
    ensures r.syncok <==> BitSet(st.flags, 0)
  {
    var hasDev := st.syncdev[0] != NUL;
    var family := st.syncpeer[FAMILY_OFFSET];
    Report(
      tab := hasDev || family != AF_UNSPEC,
      syncdev := if hasDev then Some(CString(st.syncdev)) else None,
      syncpeer := if family == AF_INET && SinAddr(st.syncpeer) != PFSYNC_GROUP
                  then Some(SinAddr(st.syncpeer)) else None,
      maxupd := st.maxupdates,
      deferOn := (st.flags / PFSYNCF_DEFER) % 2 == 1,
      syncok := (st.flags / PFSYNCF_OK) % 2 == 1)
  }

  /** pfsync_status: a zeroed status filled by the userland decoder from the
      nvlist the kernel returned, then displayed. */
  function StatusDisplay(nvl: Nvlist, stack: seq<Byte>): (r: Report)
    requires |stack| == SS_SIZE
    ensures r.maxupd == if HasNumber(nvl, "maxupdates") then Int32Of(GetNumber(nvl, "maxupdates")) else 0
    ensures r.deferOn <==> HasNumber(nvl, "flags") && BitSet(Int32Of(GetNumber(nvl, "flags")), 1)
    ensures r.syncok <==> HasNumber(nvl, "flags") && BitSet(Int32Of(GetNumber(nvl, "flags")), 0)
    ensures r.syncdev.Some? <==> HasString(nvl, "syncdev") && CStrLen(GetString(nvl, "syncdev")) > 0
    ensures r.syncdev.Some? ==>
              r.syncdev.value == CString(GetString(nvl, "syncdev"))[..Min(CStrLen(GetString(nvl, "syncdev")), IFNAMSIZ - 1)]
    ensures r.syncpeer.Some? ==>
              && HasNvlist(nvl, "syncpeer") && PfsyncNv.WellFormedPeer(GetNvlist(nvl, "syncpeer"))
              && r.syncpeer.value == PfsyncNv.PeerBlob(nvl)[SIN_ADDR_OFFSET..SIN_ADDR_OFFSET + 4]
    ensures r.tab ==> HasString(nvl, "syncdev") || HasNvlist(nvl, "syncpeer")
  {
    var st := UserStatusDecode(nvl, ZeroStatus(), stack);
    assert ZeroStatus().syncdev[0] == NUL;
    assert ZeroStatus().syncpeer[FAMILY_OFFSET] == AF_UNSPEC;
    StatusReport(st)
  }

  /** pfsync_status on a struct in memory: memset to zero, filled by
      pfsync_nvstatus_to_kstatus from the nvlist SIOCGETPFSYNCNV returned,
      then displayed. When that ioctl fails (`ioctlOk` false), as it does
      for every interface that is not a pfsync one, nothing is displayed. */
  method PfsyncStatus(ioctlOk: bool, nvl: Nvlist, stack: seq<Byte>) returns (r: Option<Report>)
    requires |stack| == SS_SIZE
    ensures r.None? <==> !ioctlOk
    ensures r.Some? ==> r.value == StatusDisplay(nvl, stack)
  {
    var status := new KStatus.Zeroed();
    if !ioctlOk {
      return None;
    }
    NvstatusToKstatus(nvl, status, stack);
    r := Some(StatusReport(status.View()));
  }

  /** With neither a "syncdev" string nor a "syncpeer" record the line has
      no tab, no device and no peer; only maxupd, defer and syncok. */
  lemma {:induction false} BareStatusPrintsNoPeer(nvl: Nvlist, stack: seq<Byte>)
    requires |stack| == SS_SIZE
    requires !HasString(nvl, "syncdev") && !HasNvlist(nvl, "syncpeer")
    ensures !StatusDisplay(nvl, stack).tab
    ensures StatusDisplay(nvl, stack).syncdev.None? && StatusDisplay(nvl, stack).syncpeer.None?
  {
    var st := UserStatusDecode(nvl, ZeroStatus(), stack);
    assert st.syncdev == ZeroStatus().syncdev && st.syncpeer == Zeros(SS_SIZE);
    assert st.syncdev[0] == NUL;
  }

  /** A peer record the kernel encoded from an IPv4 sync peer other than the
      pfsync multicast group is shown, with that peer's address. */
  lemma {:induction false} EncodedInetPeerIsShown(peer: seq<Byte>, nvl: Nvlist, stack: seq<Byte>)
    requires |peer| == SS_SIZE && |stack| == SS_SIZE
    requires peer[FAMILY_OFFSET] == AF_INET && SinAddr(peer) != PFSYNC_GROUP
    requires "syncpeer" in nvl && nvl["syncpeer"] == Nested(PfsyncNv.SockaddrToSyncpeerNvlist(peer).value)
    ensures StatusDisplay(nvl, stack).syncpeer == Some(SinAddr(peer))
  {
    var inner := PfsyncNv.SockaddrToSyncpeerNvlist(peer).value;
    assert PfsyncNv.AfOf(inner) == AF_INET;
    assert PfsyncNv.WellFormedPeer(inner);
    var st := UserStatusDecode(nvl, ZeroStatus(), stack);
    assert st.syncpeer[..SIN_SIZE] == peer[..SIN_SIZE];
    assert SinAddr(st.syncpeer) == SinAddr(peer);
  }
}
