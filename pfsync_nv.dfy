/** The kernel's converters between nvlists and the pfsync status
    structures (sys/netpfil/pf/pfsync_nv.c).

    A sync peer travels as an nvlist with a number "af" and a binary
    "address" holding the WHOLE sockaddr_in or sockaddr_in6 (length byte,
    family, port, address and padding), not the bare 4 or 16 address bytes.
    A status travels as "maxupdates", "flags", "syncdev" and a nested
    "syncpeer" nvlist. */
module PfsyncNv {
  import opened Common
  import opened Nv
  import opened PfsyncTypes

  /** The family an "af" entry yields once nvlist_get_number's uint64 is
      stored into the C `int af`: only the low 32 bits count, so a number
      such as 2^32 + 2 reads as AF_INET. */
  function AfOf(nvl: Nvlist): (r: int)
    requires HasNumber(nvl, "af")
    ensures -0x8000_0000 <= r < 0x8000_0000
    ensures GetNumber(nvl, "af") < 0x8000_0000 ==> r == GetNumber(nvl, "af")
  {
    Int32Of(GetNumber(nvl, "af"))
  }

  /** The family agrees with the "af" number in its low 32 bits, so every
      number 2 + k * 2^32 is read as AF_INET. */
  lemma {:induction false} AfOfLow32(nvl: Nvlist)
    requires HasNumber(nvl, "af")
    ensures GetNumber(nvl, "af") % TWO_32 == AfOf(nvl) % TWO_32
    ensures GetNumber(nvl, "af") % TWO_32 == AF_INET ==> AfOf(nvl) == AF_INET
  {
    var n, r := GetNumber(nvl, "af"), AfOf(nvl);
    assert (n - r) % TWO_32 == 0;
  }

  /** A peer record both copies of the decoder accept: both keys present
      with the right types, a supported family, and a blob exactly the size
      of that family's socket address structure. */
  predicate WellFormedPeer(nvl: Nvlist)
  {
    && HasNumber(nvl, "af")
    && HasBinary(nvl, "address")
    && IsInetFamily(AfOf(nvl))
    && |GetBinary(nvl, "address")| == SockaddrSize(AfOf(nvl))
  }

  /** The error a peer decoder returns and what it leaves in *sa. */
  datatype PeerDecode = PeerDecode(err: Errno, sa: seq<Byte>)

  /** pfsync_syncpeer_nvlist_to_sockaddr: the family byte of *sa is
      written before the length check, so a wrong-sized blob still leaves
      that one byte changed; on success the blob is copied over the front
      of *sa and the family inside the blob wins. */
  function KernelPeerDecode(nvl: Nvlist, sa: seq<Byte>): (r: PeerDecode)
    requires |sa| == SS_SIZE
    ensures |r.sa| == SS_SIZE
    ensures r.err == 0 || r.err == EINVAL
    ensures r.err == 0 <==> WellFormedPeer(nvl)
    ensures !HasNumber(nvl, "af") || !HasBinary(nvl, "address") ==> r == PeerDecode(EINVAL, sa)
    ensures HasNumber(nvl, "af") && !IsInetFamily(AfOf(nvl)) ==> r == PeerDecode(EINVAL, sa)
    ensures r.err == 0 ==> PrefixCopied(r.sa, GetBinary(nvl, "address"), sa)
    ensures r.err == 0 ==> r.sa[FAMILY_OFFSET] == GetBinary(nvl, "address")[FAMILY_OFFSET]
    ensures r.err != 0 && HasNumber(nvl, "af") && HasBinary(nvl, "address") && IsInetFamily(AfOf(nvl)) ==>
              r.sa == sa[FAMILY_OFFSET := AfOf(nvl)]
  {
    if !HasNumber(nvl, "af") || !HasBinary(nvl, "address") then
      PeerDecode(EINVAL, sa)
    else
      var af := AfOf(nvl);
      if !IsInetFamily(af) then
        PeerDecode(EINVAL, sa)
      else
        var blob := GetBinary(nvl, "address");
        var stamped := sa[FAMILY_OFFSET := af];
        if |blob| != SockaddrSize(af) then PeerDecode(EINVAL, stamped)
        else PeerDecode(0, blob + stamped[|blob|..])
  }

  /** pfsync_syncpeer_nvlist_to_sockaddr, writing into the caller's
      sockaddr_storage. The AF_INET and AF_INET6 cases of the source differ
      only in the structure size. */
  method SyncpeerNvlistToSockaddr(nvl: Nvlist, sa: array<Byte>) returns (err: Errno)
    requires sa.Length == SS_SIZE
    modifies sa
    ensures PeerDecode(err, sa[..]) == KernelPeerDecode(nvl, old(sa[..]))
  {
    if !HasNumber(nvl, "af") {
      return EINVAL;
    }
    if !HasBinary(nvl, "address") {
      return EINVAL;
    }
    var af := Int32Of(GetNumber(nvl, "af"));
    if af == AF_INET || af == AF_INET6 {
      var size := if af == AF_INET then SIN_SIZE else SIN6_SIZE;
      var blob := GetBinary(nvl, "address");
      sa[FAMILY_OFFSET] := af;
      if |blob| != size {
        return EINVAL;
      }
      forall i | 0 <= i < size {
        sa[i] := blob[i];
      }
      assert sa[..] == blob + old(sa[..])[FAMILY_OFFSET := af][size..];
      return 0;
    }
    return EINVAL;
  }

  /** pfsync_sockaddr_to_syncpeer_nvlist: None stands for the NULL returned
      for a family other than AF_INET and AF_INET6. */
  function SockaddrToSyncpeerNvlist(sa: seq<Byte>): (r: Option<Nvlist>)
    requires |sa| == SS_SIZE
    ensures r.Some? <==> IsInetFamily(sa[FAMILY_OFFSET])
    ensures r.Some? ==> r.value.Keys == {"af", "address"}
    ensures r.Some? ==> r.value["af"] == Number(sa[FAMILY_OFFSET])
    ensures r.Some? ==> r.value["address"] == Binary(sa[..SockaddrSize(sa[FAMILY_OFFSET])])
  {
    var af := sa[FAMILY_OFFSET];
    if IsInetFamily(af) then
      Some(map["af" := Number(af), "address" := Binary(sa[..SockaddrSize(af)])])
    else
      None
  }

  /** Encoding a supported peer and decoding it into any sockaddr_storage
      succeeds and reproduces the family-sized front of the original; the
      bytes after it are those the destination already had. */
  lemma {:induction false} SyncpeerRoundTrip(sa: seq<Byte>, dst: seq<Byte>)
    requires |sa| == SS_SIZE && |dst| == SS_SIZE
    requires IsInetFamily(sa[FAMILY_OFFSET])
    ensures SockaddrToSyncpeerNvlist(sa).Some?
    ensures var n := SockaddrSize(sa[FAMILY_OFFSET]);
            KernelPeerDecode(SockaddrToSyncpeerNvlist(sa).value, dst) == PeerDecode(0, sa[..n] + dst[n..])
  {
    var nvl := SockaddrToSyncpeerNvlist(sa).value;
    assert GetNumber(nvl, "af") == sa[FAMILY_OFFSET];
    assert AfOf(nvl) == sa[FAMILY_OFFSET];
    assert WellFormedPeer(nvl);
  }

  /** The peer blob of a status nvlist's "syncpeer" record. */
  function PeerBlob(nvl: Nvlist): seq<Byte>
    requires HasNvlist(nvl, "syncpeer") && WellFormedPeer(GetNvlist(nvl, "syncpeer"))
  {
    GetBinary(GetNvlist(nvl, "syncpeer"), "address")
  }

  /** The error a status decoder returns and the status it leaves. */
  datatype StatusDecode = StatusDecode(err: Errno, status: Status)

  /** pfsync_nvstatus_to_kstatus (kernel). "maxupdates" and "flags" are
      required; they, and "syncdev" when present, are stored before the
      peer is decoded, so a bad "syncpeer" record returns its error with
      those fields already overwritten and syncpeer untouched. The peer is
      decoded into a zeroed sockaddr_storage; an absent "syncpeer" zeroes
      the field. */
  function KernelStatusDecode(nvl: Nvlist, st: Status): (r: StatusDecode)
    requires WellSized(st)
    ensures WellSized(r.status)
    ensures r.err == 0 || r.err == EINVAL
    ensures !HasNumber(nvl, "maxupdates") || !HasNumber(nvl, "flags") ==> r == StatusDecode(EINVAL, st)
    ensures HasNumber(nvl, "maxupdates") && HasNumber(nvl, "flags") ==>
              && r.status.maxupdates == Int32Of(GetNumber(nvl, "maxupdates"))
              && r.status.flags == Int32Of(GetNumber(nvl, "flags"))
              && r.status.syncdev == if HasString(nvl, "syncdev")
                                     then Strlcpy(st.syncdev, GetString(nvl, "syncdev"))
                                     else st.syncdev
    ensures r.err == 0 <==>
              && HasNumber(nvl, "maxupdates") && HasNumber(nvl, "flags")
              && (HasNvlist(nvl, "syncpeer") ==> WellFormedPeer(GetNvlist(nvl, "syncpeer")))
    ensures r.err == 0 && HasNvlist(nvl, "syncpeer") ==>
              PrefixCopied(r.status.syncpeer, PeerBlob(nvl), Zeros(SS_SIZE))
    ensures r.err == 0 && !HasNvlist(nvl, "syncpeer") ==> r.status.syncpeer == Zeros(SS_SIZE)
    ensures r.err != 0 ==> r.status.syncpeer == st.syncpeer
  {
    if !HasNumber(nvl, "maxupdates") || !HasNumber(nvl, "flags") then
      StatusDecode(EINVAL, st)
    else
      var written := st.(maxupdates := Int32Of(GetNumber(nvl, "maxupdates")),
                         flags := Int32Of(GetNumber(nvl, "flags")),
                         syncdev := if HasString(nvl, "syncdev")
                                    then Strlcpy(st.syncdev, GetString(nvl, "syncdev"))
                                    else st.syncdev);
      if HasNvlist(nvl, "syncpeer") then
        var d := KernelPeerDecode(GetNvlist(nvl, "syncpeer"), Zeros(SS_SIZE));
        if d.err == 0 then StatusDecode(0, written.(syncpeer := d.sa))
        else StatusDecode(d.err, written)
      else
        StatusDecode(0, written.(syncpeer := Zeros(SS_SIZE)))
  }

  /** pfsync_nvstatus_to_kstatus (kernel), field by field into *status. */
  method NvstatusToKstatus(nvl: Nvlist, status: KStatus) returns (err: Errno)
    requires status.Valid()
    modifies status, status.syncdev, status.syncpeer
    ensures StatusDecode(err, status.View()) == KernelStatusDecode(nvl, old(status.View()))
  {
    if !HasNumber(nvl, "maxupdates") {
      return EINVAL;
    }
    if !HasNumber(nvl, "flags") {
      return EINVAL;
    }
    status.maxupdates := Int32Of(GetNumber(nvl, "maxupdates"));
    status.flags := Int32Of(GetNumber(nvl, "flags"));
    if HasString(nvl, "syncdev") {
      StrlcpyInto(status.syncdev, GetString(nvl, "syncdev"));
    }
    if HasNvlist(nvl, "syncpeer") {
      var addr := new Byte[SS_SIZE](_ => 0);
      assert addr[..] == Zeros(SS_SIZE);
      err := SyncpeerNvlistToSockaddr(GetNvlist(nvl, "syncpeer"), addr);
      if err == 0 {
        CopyBytes(status.syncpeer, addr);
      } else {
        return err;
      }
    } else {
      ZeroBytes(status.syncpeer);
    }
    return 0;
  }

  /** pfsync_kstatus_to_nvstatus is a stub: it returns a fresh, empty nvlist
      whatever the status holds. */
  function KstatusToNvstatus(st: Status): (r: Nvlist)
    ensures |r| == 0
  {
    map[]
  }

  /** Because the encoder is a stub, the kernel decoder refuses its output
      and leaves the status as it was: status does not round-trip. */
  lemma {:induction false} StatusStubDoesNotRoundTrip(st: Status)
    requires WellSized(st)
    ensures KernelStatusDecode(KstatusToNvstatus(st), st) == StatusDecode(EINVAL, st)
  {
    assert !HasNumber(KstatusToNvstatus(st), "maxupdates");
  }
}
