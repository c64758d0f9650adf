/** Key material the NDIS wrapper hands to a Windows miniport
    (sys/dev/if_ndis/if_ndis.c): the WEP key lengths set in
    ndis_setstate_80211 and the TKIP key record built by ndis_add_key. */
module NdisKeys {
  import opened Common

  // ---------------------------------------------------------------------
  // WEP keys (ndis_setstate_80211).

  /** The key lengths NDIS accepts for WEP: 40-, 104- and 128-bit keys. */
  predicate StandardWepLength(n: nat)
  {
    n == 5 || n == 13 || n == 16
  }

  /** nw_keylen for a WEP key of `keylen` bytes: a length between the
      standard ones is zero-padded up to the next one; 5, 13 and anything
      from 16 on is passed through. */
  function WepKeyLength(keylen: nat): (r: nat)
    ensures r >= keylen
    ensures keylen <= 16 ==> StandardWepLength(r)
    ensures keylen <= 16 ==> forall v :: StandardWepLength(v) && keylen <= v ==> r <= v
    ensures keylen >= 16 || StandardWepLength(keylen) ==> r == keylen
  {
    if keylen < 5 then 5
    else if keylen > 5 && keylen < 13 then 13
    else if keylen > 13 && keylen < 16 then 16
    else keylen
  }

  /** NDIS_80211_WEPKEY_TX: the index flag of the default transmit key. */
  const WEPKEY_TX: bv32 := 0x8000_0000

  /** The NDIS_80211_WEP record for key slot `i`: nw_length counts the
      three 32-bit header words and the key. */
  datatype NdisWepKey = NdisWepKey(length: nat, keyidx: bv32, keylen: nat)

  /** The record sent for slot `i` of the IEEE80211_WEP_NKID (4) slots;
      None for an empty slot or one whose cipher is not WEP, which the loop
      skips. */
  function WepKeyRecord(i: nat, keylen: nat, isWep: bool, txkey: int): (r: Option<NdisWepKey>)
    requires i < 4
    ensures r.Some? <==> keylen != 0 && isWep
    ensures r.Some? ==> r.value.keylen == WepKeyLength(keylen) && r.value.length == 12 + r.value.keylen
    ensures r.Some? ==> r.value.keyidx & 0xff == i as bv32
    ensures r.Some? ==> r.value.keyidx & 0x7fff_ff00 == 0
    ensures r.Some? ==> (r.value.keyidx & WEPKEY_TX != 0 <==> i == txkey)
  {
    if keylen == 0 || !isWep then None
    else
      var keyidx: bv32 := if i == txkey then (i as bv32) | WEPKEY_TX else i as bv32;
      Some(NdisWepKey(12 + WepKeyLength(keylen), keyidx, WepKeyLength(keylen)))
  }

  // ---------------------------------------------------------------------
  // TKIP keys (ndis_add_key).

  /** IEEE80211_KEYIX_NONE: ((ieee80211_keyix) -1) for a 16-bit keyix. */
  const KEYIX_NONE: nat := 0xffff

  /** The net80211 key flags ndis_add_key tests. */
  datatype KeyFlags = KeyFlags(xmit: bool, group: bool, swmic: bool)

  /** nk_keyidx: the key slot in the low bits, bit 31 for a transmit key,
      bit 30 for a pairwise (non-group) key, bit 29 when a receive sequence
      counter is supplied. */
  function TkipKeyIndex(keyix: nat, flags: KeyFlags, keyrsc: nat): (r: bv32)
    requires keyix <= 0xffff
    ensures r & 0xffff == (if keyix == KEYIX_NONE then 0 else keyix as bv32)
    ensures r & 0x1fff_0000 == 0
    ensures r & 0x8000_0000 != 0 <==> flags.xmit
    ensures r & 0x4000_0000 != 0 <==> !flags.group
    ensures r & 0x2000_0000 != 0 <==> keyrsc != 0
  {
    var base: bv32 := if keyix != KEYIX_NONE then keyix as bv32 else 0;
    var withXmit := if flags.xmit then base | (1 << 31) else base;
    var withPairwise := if flags.group then withXmit else withXmit | (1 << 30);
    if keyrsc != 0 then withPairwise | (1 << 29) else withPairwise
  }

  /** IEEE80211_KEYBUF_SIZE + IEEE80211_MICBUF_SIZE: net80211's key buffer,
      and the size of nk_keydata. */
  const KEYDATA_SIZE: nat := 32

  /** nk_keydata. With a software MIC the 16-byte key is followed by the two
      8-byte MIC keys in the opposite order from net80211's buffer;
      otherwise the first keylen bytes are copied into the zeroed field. */
  function KeyData(key: seq<Byte>, keylen: nat, swmic: bool): (r: seq<Byte>)
    requires |key| == KEYDATA_SIZE && keylen <= KEYDATA_SIZE
    ensures |r| == KEYDATA_SIZE
    ensures swmic ==> r[..16] == key[..16] && r[16..24] == key[24..32] && r[24..32] == key[16..24]
    ensures !swmic ==> r[..keylen] == key[..keylen] && forall i :: keylen <= i < KEYDATA_SIZE ==> r[i] == 0
  {
    if swmic then key[..16] + key[24..32] + key[16..24]
    else key[..keylen] + seq(KEYDATA_SIZE - keylen, _ => 0)
  }

  /** The SWMIC layout only swaps the two MIC halves: applying it twice gives
      back net80211's buffer, and it loses no byte. */
  lemma {:induction false} SwmicLayoutIsInvolution(key: seq<Byte>, keylen: nat)
    requires |key| == KEYDATA_SIZE && keylen <= KEYDATA_SIZE
    ensures KeyData(KeyData(key, keylen, true), keylen, true) == key
    ensures multiset(KeyData(key, keylen, true)) == multiset(key)
  {
    var once := KeyData(key, keylen, true);
    assert once[..16] + once[24..32] + once[16..24] == key[..16] + key[16..24] + key[24..32];
    assert key == key[..16] + key[16..24] + key[24..32];
    calc {
      multiset(once);
      multiset(key[..16]) + multiset(key[24..32]) + multiset(key[16..24]);
      multiset(key[..16] + key[16..24] + key[24..32]);
    }
  }

  datatype Cipher = Wep | Tkip | AesCcm | OtherCipher

  /** The net80211 key ndis_add_key is given. */
  datatype Key80211 = Key80211(cipher: Cipher, keyix: nat, flags: KeyFlags, keylen: nat,
                               keyrsc: nat, key: seq<Byte>)

  predicate ValidKey(k: Key80211)
  {
    k.keyix <= 0xffff && |k.key| == KEYDATA_SIZE && k.keylen <= KEYDATA_SIZE
  }

  /** The ndis_80211_key record for OID_802_11_ADD_KEY. */
  datatype NdisKey = NdisKey(keylen: nat, keyidx: bv32, bssid: seq<Byte>, keyrsc: nat, keydata: seq<Byte>)

  /** What ndis_add_key does: the record it sends (only for TKIP) and the
      value it returns (1 for success, 0 for failure). `setInfoOk` is the
      outcome of ndis_set_info. */
  datatype AddKeyOutcome = AddKeyOutcome(sent: Option<NdisKey>, ok: bool)

  function AddKey(k: Key80211, broadcast: seq<Byte>, bssid: seq<Byte>, setInfoOk: bool): (r: AddKeyOutcome)
    requires ValidKey(k)
    ensures r.sent.Some? <==> k.cipher == Tkip
    ensures r.ok <==> k.cipher == Wep || (k.cipher == Tkip && setInfoOk)
    ensures r.sent.Some? ==>
              && r.sent.value.keylen == k.keylen + (if k.flags.swmic then 16 else 0)
              && r.sent.value.keyidx == TkipKeyIndex(k.keyix, k.flags, k.keyrsc)
              && r.sent.value.bssid == (if k.flags.group then broadcast else bssid)
              && r.sent.value.keyrsc == k.keyrsc
              && r.sent.value.keydata == KeyData(k.key, k.keylen, k.flags.swmic)
  {
    match k.cipher
    case Tkip =>
      var keylen := if k.flags.swmic then k.keylen + 16 else k.keylen;
      var rec := NdisKey(keylen, TkipKeyIndex(k.keyix, k.flags, k.keyrsc),
                         if k.flags.group then broadcast else bssid,
                         k.keyrsc, KeyData(k.key, k.keylen, k.flags.swmic));
      AddKeyOutcome(Some(rec), setInfoOk)
    case Wep => AddKeyOutcome(None, true)
    case _ => AddKeyOutcome(None, false)
  }
}
