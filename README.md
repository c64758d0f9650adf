# pfsync status codec, ifconfig pfsync commands and NDIS wireless rules

This project is a Dafny model of three pieces of FreeBSD, with proofs about it.

**The kernel pfsync codec** (`sys/netpfil/pf/pfsync_nv.c`) converts between name/value lists and the pfsync status structure. A sync peer travels as an nvlist holding:

- a number `"af"`;
- a binary `"address"` that is the whole `sockaddr_in` or `sockaddr_in6`.

A status travels as `"maxupdates"`, `"flags"`, `"syncdev"` and a nested `"syncpeer"`.

**ifconfig's pfsync support** (`sbin/ifconfig/ifpfsync.c`) has three parts:

- commands that edit the `pfsyncreq` record;
- userland copies of the two nvlist decoders, which behave differently from the kernel's;
- the status display.

**A set of rules from the NDIS wrapper** (`sys/dev/if_ndis/if_ndis.c`):

- WEP key-length padding;
- the TKIP key record;
- the `TESTSETRATE` macro;
- the signal, rates and information-element handling of a scan entry;
- the status-event ring shared by `ndis_linksts`, the `SIOCGPRIVATE_0` ioctl and `ndis_stop`.

Code that fills caller-owned structures or arrays in place is modelled as methods. This covers the two decoders, the `pfsyncreq` commands, `TESTSETRATE`, the rates copy, the element walk and the event ring. The decoders, the rates copy and the element walk are proved against pure specification functions, and the properties are stated on those functions. The `pfsyncreq` commands, `TESTSETRATE` and the event-ring methods state the new value of every field they change directly in their contracts, and the ring's invariant is kept by each of them. Code that only computes a value is modelled as functions, each with a contract.

The files are:

- `common.dfy`: bytes, errno values, the narrowing of a `uint64_t` into `int`, `strlen` and `strlcpy`.
- `nvlist.dfy`: the nvlist as a map of typed values.
- `pfsync_types.dfy`: `sockaddr_storage` and `struct pfsync_kstatus`.
- `pfsync_nv.dfy`: the kernel codec.
- `ifpfsync.dfy`: the ifconfig commands, the userland decoders and the display.
- `ndis_keys.dfy`, `ndis_rates.dfy`, `ndis_scan.dfy`, `ndis_events.dfy`: the NDIS rules.

## Model

| member | source | states |
|---|---|---|
| Common.Int32Of | sys/netpfil/pf/pfsync_nv.c:142-143 | storing an nvlist `uint64_t` into a C `int` gives a value in the signed 32-bit range that is congruent to it modulo 2^32, and leaves numbers already in range unchanged |
| Common.CStrLen | sys/netpfil/pf/pfsync_nv.c:146-147 | `strlen`: the characters before the result are not NUL, and the character at the result is NUL unless the array has none |
| Common.Strlcpy | sys/netpfil/pf/pfsync_nv.c:146-147 | `strlcpy` into a fixed array keeps the length, always NUL-terminates, holds the source string cut to size-1 characters and leaves the bytes after the terminator alone |
| Common.StrlcpyInto | sbin/ifconfig/ifpfsync.c:74 | the in-place copy loop leaves the array equal to `Strlcpy` of its old contents |
| Common.ZeroChars | sbin/ifconfig/ifpfsync.c:92 | `bzero` of the device-name field leaves every character NUL |
| PfsyncTypes.SockaddrSize | sys/netpfil/pf/pfsync_nv.c:57-85 | `sizeof(struct sockaddr_in)`/`sizeof(struct sockaddr_in6)` lies past the family byte and within a `sockaddr_storage` |
| PfsyncTypes.KStatus.Zeroed | sbin/ifconfig/ifpfsync.c:285 | a zeroed `pfsync_kstatus`: the empty device name, an all-zero peer, and zero counts and flags |
| PfsyncTypes.CopyBytes | sys/netpfil/pf/pfsync_nv.c:152-153 | the struct assignment `status->syncpeer = addr` |
| PfsyncTypes.ZeroBytes | sys/netpfil/pf/pfsync_nv.c:157 | `memset` of the peer to zeros |
| PfsyncNv.AfOf | sys/netpfil/pf/pfsync_nv.c:52 | the family read into `int af` lies in the signed 32-bit range, and numbers below 2^31 are kept as they are |
| PfsyncNv.AfOfLow32 | sys/netpfil/pf/pfsync_nv.c:52 | the family agrees with the nvlist number in its low 32 bits, so any number 2 + k * 2^32 reads as AF_INET |
| PfsyncNv.KernelPeerDecode | sys/netpfil/pf/pfsync_nv.c:41-89 | the errors are 0 or EINVAL, and success holds exactly for a record with both keys, family AF_INET or AF_INET6, and a blob of that family's size; a missing key or another family leaves `*sa` untouched; success copies the blob over the front of `*sa` and the family comes from the blob; a wrong-sized blob still leaves the family byte written |
| PfsyncNv.SyncpeerNvlistToSockaddr | sys/netpfil/pf/pfsync_nv.c:41-89 | the in-place decoder returns the error and leaves the bytes that `KernelPeerDecode` specifies |
| PfsyncNv.SockaddrToSyncpeerNvlist | sys/netpfil/pf/pfsync_nv.c:91-129 | only AF_INET and AF_INET6 produce an nvlist, and it has exactly the keys `"af"` (the family) and `"address"` (the family-sized front of the sockaddr) |
| PfsyncNv.SyncpeerRoundTrip | sys/netpfil/pf/pfsync_nv.c:41-129 | decoding the encoding of an AF_INET or AF_INET6 peer succeeds and gives back its family-sized front, whatever the destination held before |
| PfsyncNv.KernelStatusDecode | sys/netpfil/pf/pfsync_nv.c:131-170 | a missing `"maxupdates"` or `"flags"` is EINVAL with nothing changed; otherwise those fields and `syncdev` are written before the peer is decoded; success holds exactly when any `"syncpeer"` record is well formed; on success the peer is the blob over zeros, or all zeros when absent; on failure the peer is untouched |
| PfsyncNv.NvstatusToKstatus | sys/netpfil/pf/pfsync_nv.c:131-170 | the field-by-field decoder leaves the status and the error that `KernelStatusDecode` specifies |
| PfsyncNv.KstatusToNvstatus | sys/netpfil/pf/pfsync_nv.c:172-181 | the status encoder returns an nvlist with no entries |
| PfsyncNv.StatusStubDoesNotRoundTrip | sys/netpfil/pf/pfsync_nv.c:131-181 | the kernel decoder rejects the encoder's output with EINVAL and leaves the status as it was |
| IfPfsync.MulticastIsClassD | sbin/ifconfig/ifpfsync.c:121-122 | `IN_MULTICAST(ntohl(addr))` holds exactly when the first octet is 224..239 |
| IfPfsync.PfsyncReq.constructor | sbin/ifconfig/ifpfsync.c:67-72 | the record as fetched with SIOCGETPFSYNC |
| IfPfsync.PfsyncReq.SetSyncdev | sbin/ifconfig/ifpfsync.c:63-78 | the device name is `strlcpy`'d into the fixed field, which then holds the name cut to IFNAMSIZ-1 characters; nothing else changes |
| IfPfsync.PfsyncReq.UnsetSyncdev | sbin/ifconfig/ifpfsync.c:81-96 | the whole field is zeroed, so the name is empty |
| IfPfsync.PfsyncReq.SetSyncpeer | sbin/ifconfig/ifpfsync.c:99-135 | a failed lookup, another family or a multicast address is refused with the record unchanged; otherwise exactly the IPv4 address is stored and the other fields are kept |
| IfPfsync.PfsyncReq.UnsetSyncpeer | sbin/ifconfig/ifpfsync.c:138-163 | the peer address becomes 0.0.0.0 and the other fields are kept |
| IfPfsync.PfsyncReq.SetMaxupd | sbin/ifconfig/ifpfsync.c:166-186 | the value is accepted exactly when it is in 0..255; it is stored only then, and the other fields are kept |
| IfPfsync.PfsyncReq.SetDefer | sbin/ifconfig/ifpfsync.c:189-203 | the flags become PFSYNCF_DEFER for `defer` and 0 for `-defer` |
| IfPfsync.UserPeerDecode | sbin/ifconfig/ifpfsync.c:205-252 | the same error as the kernel decoder, and success holds exactly for well-formed records; a failed AF_INET6 decode leaves `*sa` unchanged, and a failed AF_INET decode (wrong-sized blob) writes exactly the family byte |
| IfPfsync.PeerDecodersAgree | sbin/ifconfig/ifpfsync.c:205-252 | the userland and kernel peer decoders return the same error on every input and leave the same bytes, except for the family byte of a wrong-sized AF_INET6 blob |
| IfPfsync.SyncpeerNvlistToSockaddr | sbin/ifconfig/ifpfsync.c:205-252 | the in-place userland decoder leaves what `UserPeerDecode` specifies |
| IfPfsync.UserStatusDecode | sbin/ifconfig/ifpfsync.c:254-274 | each key is optional, and an absent key leaves its field alone; a well-formed peer is copied over the uninitialised stack buffer, and any other peer record leaves the peer as it was |
| IfPfsync.NvstatusToKstatus | sbin/ifconfig/ifpfsync.c:254-274 | the in-place userland decoder leaves what `UserStatusDecode` specifies |
| IfPfsync.UserDecodeKeepsPeerOnBadRecord | sbin/ifconfig/ifpfsync.c:254-274 | where the kernel decoder fails on a bad peer record, the userland one gives the same status the kernel leaves behind |
| IfPfsync.StatusReport | sbin/ifconfig/ifpfsync.c:312-334 | the tab is printed exactly when there is a device name or a peer family; the device is shown exactly when named; the peer is shown exactly for AF_INET with an address other than 224.0.0.240; defer and syncok reflect bits 1 and 0 of the flags |
| IfPfsync.StatusDisplay | sbin/ifconfig/ifpfsync.c:276-334 | what is displayed for the nvlist the kernel returned, in terms of its keys: maxupd is the `"maxupdates"` number or 0 when absent; defer and syncok are bits 1 and 0 of `"flags"`, off when absent; the device is shown exactly for a non-empty `"syncdev"` and is that name cut to IFNAMSIZ-1 characters; a peer is shown only for a well-formed `"syncpeer"` record and is the `sin_addr` of its blob; no tab without one of the two keys |
| IfPfsync.PfsyncStatus | sbin/ifconfig/ifpfsync.c:276-334 | nothing is displayed exactly when the `SIOCGETPFSYNCNV` ioctl fails, as it does on every interface that is not pfsync; otherwise zeroing a `pfsync_kstatus` in memory, filling it with the userland decoder and displaying it gives `StatusDisplay` |
| IfPfsync.BareStatusPrintsNoPeer | sbin/ifconfig/ifpfsync.c:276-334 | a status without `"syncdev"` or `"syncpeer"` prints no tab, device or peer |
| IfPfsync.EncodedInetPeerIsShown | sbin/ifconfig/ifpfsync.c:276-334 | a peer the kernel encoded from an IPv4 address other than the pfsync group is displayed with that address |
| NdisKeys.WepKeyLength | sys/dev/if_ndis/if_ndis.c:2336-2351 | key lengths are only padded up; a length up to 16 becomes the smallest of 5, 13 and 16 that holds it; 5, 13 and anything from 16 on are kept |
| NdisKeys.WepKeyRecord | sys/dev/if_ndis/if_ndis.c:2328-2360 | a record is sent exactly for a non-empty WEP slot; its length is 12 plus the padded key length; the slot index sits in the low byte and bits 8-30 are clear; the TX bit is set exactly for the default transmit key |
| NdisKeys.TkipKeyIndex | sys/dev/if_ndis/if_ndis.c:3264-3286 | the low 16 bits are the key slot, or 0 for IEEE80211_KEYIX_NONE; bits 16-28 are clear; bit 31 is set iff the key transmits, bit 30 iff it is not a group key, bit 29 iff keyrsc is nonzero |
| NdisKeys.KeyData | sys/dev/if_ndis/if_ndis.c:3288-3293 | with a software MIC the key is followed by the two MIC halves swapped; otherwise the first keylen bytes are followed by zeros |
| NdisKeys.SwmicLayoutIsInvolution | sys/dev/if_ndis/if_ndis.c:3288-3291 | the software-MIC layout applied twice gives back net80211's buffer, and it is a permutation of the bytes |
| NdisKeys.AddKey | sys/dev/if_ndis/if_ndis.c:3239-3316 | a record is sent exactly for TKIP, and success means WEP, or TKIP accepted by the miniport; the record's key length grows by 16 with a software MIC, and it carries the index, the broadcast or BSS address, net80211's `keyrsc`, and the key data above |
| NdisRates.WithRate | sys/dev/if_ndis/if_ndis.c:772-783 | a rate already present leaves the list exactly as it was, even one holding duplicates; an absent rate is appended at the end; afterwards the rate is present and no other rate was added, and a list without duplicates stays so |
| NdisRates.WithRateIdempotent | sys/dev/if_ndis/if_ndis.c:772-783 | inserting the same rate twice equals inserting it once |
| NdisRates.RateSet.Empty | sys/dev/if_ndis/if_ndis.c:791-796 | a rate set whose `rs_nrates` was reset to 0 holds no rate |
| NdisRates.RateSet.TestSetRate | sys/dev/if_ndis/if_ndis.c:772-783 | a rate already present changes nothing; otherwise it is written at index `rs_nrates`, the count grows by one, and every other entry is kept |
| NdisRates.Basic11bFallback | sys/dev/if_ndis/if_ndis.c:834-842 | the four 802.11b `TESTSETRATE` calls on a reset rate set leave exactly the four basic 802.11b rates, without duplicates, in the order tried |
| NdisScan.ToUint | sys/dev/if_ndis/if_ndis.c:3550 | an `int` passed to libkern's `u_int` parameters keeps its value modulo 2^32, so a negative one becomes at least 2^31 |
| NdisScan.UnsignedClamp100 | sys/dev/if_ndis/if_ndis.c:3550 | libkern's `max(0, min(x, 100))` on `u_int` keeps 0..100, and clamps both values above 100 and negative values to 100 |
| NdisScan.RssiPercentAsWritten | sys/dev/if_ndis/if_ndis.c:3549-3550 | for an RSSI whose `int` arithmetic does not overflow, the value as written is always 0 or 100, and it is 100 exactly from -32 dBm up or at -160 dBm and below |
| NdisScan.RssiPercent | sys/dev/if_ndis/if_ndis.c:3549-3550 | the intended percentage with a signed clamp lies in 0..100: 0 at or below the -96 dBm noise floor, 100 from -32 dBm up, and linear in between |
| NdisScan.RssiPercentMonotone | sys/dev/if_ndis/if_ndis.c:3549-3550 | a stronger signal never reports a lower percentage |
| NdisScan.RssiHalfwayIsLost | sys/dev/if_ndis/if_ndis.c:3549-3550 | at -64 dBm the code as written reports 0 where the linear scale gives 50 |
| NdisScan.RssiVeryWeakReadsFull | sys/dev/if_ndis/if_ndis.c:3549-3550 | at -200 dBm the code as written reports 100 where the intended scale gives 0 |
| NdisScan.ReorderedWithUnsignedClampStillWraps | sys/dev/if_ndis/if_ndis.c:3549-3550 | multiplying before dividing but keeping libkern's unsigned clamp still reports 100 at -100 dBm, where the signed clamp gives 0 |
| NdisScan.RateCount | sys/dev/if_ndis/if_ndis.c:3563-3569 | the count is at most IEEE80211_RATE_MAXSIZE, all entries before it are nonzero, and the entry at it is zero unless the limit was reached |
| NdisScan.CopyRates | sys/dev/if_ndis/if_ndis.c:3563-3570 | `rates[1]` is the count, each copied rate has its basic-rate bit masked off, and the element id and the slots past the count are untouched |
| NdisScan.BaseCapinfo | sys/dev/if_ndis/if_ndis.c:3551-3561 | starting from a zeroed entry: the privacy bit is set iff the network uses privacy, IBSS iff it is ad hoc, ESS iff it is infrastructure, and no other bit is set (bits 2 and 3 clear, nothing from bit 5 up) |
| NdisScan.Elements | sys/dev/if_ndis/if_ndis.c:3597-3606 | the walk visits a chain of elements, each fitting inside the buffer and each following the previous one; it is empty iff the first does not fit, and it stops at the first element that would overrun |
| NdisScan.LastRsn | sys/dev/if_ndis/if_ndis.c:3600-3604 | None iff no visited element is RSN; otherwise a visited RSN element after which none follows |
| NdisScan.WalkStep | sys/dev/if_ndis/if_ndis.c:3597-3606 | one loop step adds the current element to those visited, moves on by `frm[1] + 2`, and remembers the element if it is RSN |
| NdisScan.WalkRsnFits | sys/dev/if_ndis/if_ndis.c:3597-3606 | the remembered RSN element is a visited one, so it lies inside the buffer past the fixed fields |
| NdisScan.WalkElements | sys/dev/if_ndis/if_ndis.c:3597-3606 | the pointer loop remembers `LastRsn` of `Elements`, an RSN element that lies inside the buffer |
| NdisScan.ParseExtended | sys/dev/if_ndis/if_ndis.c:3585-3607 | without extended information or with fewer than 12 bytes nothing changes; otherwise the timestamp, beacon interval and capability come from the fixed fields, and the RSN pointer comes from the walk |
| NdisEvents.StopFreed | sys/dev/if_ndis/if_ndis.c:3436-3440 | the buffers `ndis_stop` frees are exactly those of slots holding an event with a non-NULL buffer |
| NdisEvents.AnyDangling | sys/dev/if_ndis/if_ndis.c:3436-3440 | true iff some slot holds an event whose buffer is no longer live |
| NdisEvents.StopStep | sys/dev/if_ndis/if_ndis.c:3436-3443 | one slot of the stop loop frees exactly that slot's buffer, which none of the earlier slots shared |
| NdisEvents.EventRing.constructor | sys/dev/if_ndis/if_ndis.c:3436-3443 | an empty ring: every slot free, both indices 0, no live buffer, the state `ndis_stop` also leaves the indices in |
| NdisEvents.EventRing.Post | sys/dev/if_ndis/if_ndis.c:1531-1570 | the status is always recorded; an occupied slot drops the event and changes nothing else; a failed allocation NULLs the slot's buffer and keeps the index; otherwise the event is stored, a payload gets a fresh buffer, and the producer index advances |
| NdisEvents.EventRing.Free | sys/dev/if_ndis/if_ndis.c:3438-3439 | freeing removes the buffer and faults iff it was not live |
| NdisEvents.EventRing.Take | sys/dev/if_ndis/if_ndis.c:2959-2999 | EPERM, ENOENT on a free slot, EFAULT for a failed `copyin`, ENOSPC for a short user buffer, and EFAULT for a failed header or payload `copyout`, each leaving the ring unchanged; success exactly when every step succeeds, handing out the status and the stored payload, freeing and NULLing the buffer, clearing the slot and advancing the consumer index |
| NdisEvents.EventRing.ClearSlot | sys/dev/if_ndis/if_ndis.c:3436-3442 | one iteration of the stop loop: the slot's buffer is freed if it holds an event, `ne_sts` and `ne_len` are cleared, and a fault is recorded iff the buffer was already dead |
| NdisEvents.EventRing.StopAsWritten | sys/dev/if_ndis/if_ndis.c:3436-3445 | every slot is cleared but keeps its buffer pointer, the freed buffers are those of `StopFreed`, both indices become 0, and it faults iff some event's buffer was already freed |
| NdisEvents.EventRing.Stop | sys/dev/if_ndis/if_ndis.c:3436-3445 | the stop loop with the freed pointer NULLed: it never faults and leaves no stale pointer |
| NdisEvents.PostThenTake | sys/dev/if_ndis/if_ndis.c:1547-1566 | an event with a nonzero status posted into an empty ring is handed out by SIOCGPRIVATE_0 with its status and payload (a zero status would leave the slot looking free) |
| NdisEvents.DoubleFreeAsWritten | sys/dev/if_ndis/if_ndis.c:3436-3443 | an event with a payload, then a stop, then a payload-less event, then a stop: this frees a buffer twice |
| NdisEvents.NoDoubleFreeCorrected | sys/dev/if_ndis/if_ndis.c:3436-3443 | the same sequence with the corrected stop does not fault |

## Left out

- I/O, system calls and libraries outside the modelled functions are not modelled. This covers `ioctl`, `copyin` and `copyout`, `priv_check`, `malloc`, `ndis_set_info`, `getaddrinfo`, `getnameinfo`, `atoi`, `err`/`errx` and `printf`. Where the source branches on one of their outcomes and carries on, that outcome is a parameter: a boolean for success (the `SIOCGETPFSYNCNV` ioctl of `pfsync_status`, `copyin`/`copyout`, `priv_check`, `malloc` in `ndis_linksts`, `ndis_set_info`), the resolved address, or the parsed number. A failure that ends ifconfig through `err`/`errx` is not modelled as such, and the model follows the path on which the call succeeds. This covers the `SIOCGETPFSYNC`/`SIOCSETPFSYNC` ioctls of the commands, and `malloc`, `nvlist_unpack` and `getnameinfo` in `pfsync_status`.
- The nvlist library is not modelled: creating, packing and unpacking lists, the library's error state, and allocation failure. An nvlist is a map from names to typed values.
- The layout inside `sockaddr_in`/`sockaddr_in6` is not modelled beyond the family byte and, for the display, `sin_addr`. A socket address is an opaque block of `sizeof` bytes.
- Encoder memory is not modelled: the leak of the nvlist on the default path of `pfsync_sockaddr_to_syncpeer_nvlist`, and freeing in general.
- `pfsync_ctor` and the command table of `ifpfsync.c` are registration only, so they are not modelled.
- The `pfsync_status` display is modelled by its decisions, not by the text it prints. The AF_INET6 peer display is absent from the source as well.
- Locking, DPCs, work items and the state-machine hooks of the NDIS wrapper are not modelled, so neither are the concurrent interleavings of the producer, the ioctl and `ndis_stop`.
- `NDIS_EVTINC` and `NDIS_EVENTS` are defined in `if_ndisvar.h`, which is not part of this model. The increment is an abstract successor function on slot indices that keeps them in range.
- NdisEvents.EventRing: FIFO order across several events is not stated. The ring could carry a sequence of pending events as a ghost view, but no such view is modelled, so only one post followed by one take is proved to hand the event back.
- NdisEvents.EventRing.Post: the `sbuf`/`slen` pair is modelled as one byte sequence, and a buffer's identity stands for its address, so pointer arithmetic and aliasing of `sbuf` are not captured.
- NdisKeys.WepKeyRecord: the key bytes copied into `nw_keydata` are not modelled. That copy takes `nw_length` bytes from `wk_key`, which is more than the key itself.
- NdisRates.RateSet.TestSetRate: requires room for a new rate. The macro does not check `IEEE80211_RATE_MAXSIZE`, and its callers add at most four rates.
- `SETRATE` and `INCRATE` are unchecked store and increment steps of the loop over the driver's rates. They are not modelled, and neither is that loop.
- Not modelled in the rest of `ndis_scan_results`: the SSID copy, the channel lookup, and the hand-over to `ieee80211_add_scan`. The model covers one scan entry, not the iteration over the list.
- NdisScan.RssiPercentAsWritten: requires an RSSI whose `int` arithmetic does not overflow (`RssiInRange`). Signed overflow is undefined in C, so the source gives no value to model there. Every RSSI within about ±1.3 * 10^9 dBm meets the condition, which covers what NDIS reports.
- Both the kernel and ifconfig are assumed to be built with INET and INET6. Without one of them, its `case` is compiled out and that family is refused with EINVAL; this is not modelled.
- Names are strings of `char`, one `char` standing for one C byte. A device name is therefore assumed to be single-byte (ASCII). A multibyte UTF-8 name would be measured and cut by `strlen`/`strlcpy` in bytes, which the model does not capture.
- The softc, and with it the event ring, starts zeroed when the device is allocated. That allocation is not in `if_ndis.c`, so the ring's constructor stands for it.

## Findings

| source | as written | input that shows it | evidently intended | confidence | as-written member | corrected member |
|---|---|---|---|---|---|---|
| sys/dev/if_ndis/if_ndis.c:3549-3550 | `(rssi - noise) / (-32 - noise) * 100` divides, truncating, before it multiplies, and libkern's `max`/`min` compare as `u_int`, so the result is only ever 0 or 100, and 100 also for very weak signals | an RSSI of -64 dBm with noise -96 gives 0; an RSSI of -200 dBm gives 100 | `imax(0, imin((rssi - noise) * 100 / (-32 - noise), 100))`: multiply first and clamp signed, a linear 0..100 scale (50 at -64 dBm, 0 at -200 dBm); reordering alone still gives 100 at -100 dBm | not executed | NdisScan.RssiPercentAsWritten | NdisScan.RssiPercent |
| sys/dev/if_ndis/if_ndis.c:3436-3443 | `ndis_stop` frees `ne_buf` of each occupied slot but leaves the pointer set; `ndis_linksts` keeps `ne_buf` for a payload-less event | an event with a payload, then `ndis_stop`, then a status indication with `slen == 0`, then `ndis_stop` frees the first buffer twice | set `ne_buf = NULL` after the free, as the SIOCGPRIVATE_0 path does | not executed | NdisEvents.DoubleFreeAsWritten | NdisEvents.NoDoubleFreeCorrected |
