/** One BSSID entry of ndis_scan_results (sys/dev/if_ndis/if_ndis.c): the
    signal strength it reports to net80211, the rates it copies, the
    capability and beacon interval it derives, and the walk over the
    information elements a miniport appends to the entry. */
module NdisScan {
  import opened Common
  import opened NdisRates

  // ---------------------------------------------------------------------
  // Signal strength.

  /** The noise floor ndis_scan_results assumes, in dBm. */
  const NOISE: int := -96

  /** C's `/` on int: the quotient truncated toward zero. */
  function CDiv(a: int, b: int): (q: int)
    requires b > 0
    ensures a >= 0 ==> q >= 0
    ensures a <= 0 ==> q <= 0
  {
    if a >= 0 then a / b else -((-a) / b)
  }

  /** max(lo, min(x, hi)) */
  function Clamp(x: int, lo: int, hi: int): (r: int)
    requires lo <= hi
    ensures lo <= r <= hi
    ensures lo <= x <= hi ==> r == x
  {
    if x < lo then lo else if x > hi then hi else x
  }

  /** A value a C `int` can hold. Signed overflow is undefined in C, so the
      source's arithmetic means something only while every intermediate
      value stays in this range. */
  predicate InInt(x: int)
  {
    -0x8000_0000 <= x < 0x8000_0000
  }

  /** An `int` passed where libkern expects a `u_int`: the value modulo
      2^32, so a negative value becomes one of at least 2^31. */
  function ToUint(x: int): (u: nat)
    requires InInt(x)
    ensures u < TWO_32
    ensures u % TWO_32 == x % TWO_32
    ensures x >= 0 ==> u == x
    ensures x < 0 ==> u >= 0x8000_0000
  {
    if x >= 0 then x else x + TWO_32
  }

  /** `max(0, min(x, 100))` with libkern's `u_int max(u_int, u_int)` and
      `u_int min(u_int, u_int)` from <sys/systm.h>: a negative `x` compares
      above 100, so it is clamped to 100, not to 0. */
  function UnsignedClamp100(x: int): (r: int)
    requires InInt(x)
    ensures 0 <= r <= 100
    ensures 0 <= x <= 100 ==> r == x
    ensures x < 0 || x > 100 ==> r == 100
  {
    var m := if ToUint(x) < 100 then ToUint(x) else 100;
    if 0 > m then 0 else m
  }

  /** The C `int` arithmetic of the percentage does not overflow for this
      RSSI. */
  predicate RssiInRange(rssi: int)
  {
    InInt(rssi) && InInt(rssi - NOISE) && InInt(CDiv(rssi - NOISE, -32 - NOISE) * 100)
  }

  /** The percentage as the source computes it: the division by
      (-32 - noise) happens BEFORE the multiplication by 100, and it
      truncates, so every RSSI in the window (-160, -32) maps to 0; and
      the unsigned clamp turns the negative products of RSSIs at or below
      -160 dBm into 100. */
  function RssiPercentAsWritten(rssi: int): (r: int)
    requires RssiInRange(rssi)
    ensures r == 0 || r == 100
    ensures r == 100 <==> rssi >= -32 || rssi <= -160
  {
    var q := CDiv(rssi - NOISE, -32 - NOISE);
    assert rssi >= -32 ==> q >= 1;
    assert rssi <= -160 ==> q <= -1;
    assert -160 < rssi < -32 ==> q == 0;
    UnsignedClamp100(q * 100)
  }

  /** The evidently intended percentage: the RSSI placed linearly in the
      window [noise, -32] dBm, scaled to 0..100, then clamped with the
      signed `imax(0, imin(..., 100))`. */
  function RssiPercent(rssi: int): (r: int)
    ensures 0 <= r <= 100
    ensures rssi <= NOISE ==> r == 0
    ensures rssi >= -32 ==> r == 100
    ensures NOISE <= rssi <= -32 ==> r == (rssi - NOISE) * 100 / (-32 - NOISE)
  {
    Clamp(CDiv((rssi - NOISE) * 100, -32 - NOISE), 0, 100)
  }

  /** A stronger signal never reports a lower percentage. */
  lemma {:induction false} RssiPercentMonotone(a: int, b: int)
    requires a <= b
    ensures RssiPercent(a) <= RssiPercent(b)
  {
    if a <= NOISE {
    } else if b >= -32 {
    } else {
      var x, y := (a - NOISE) * 100, (b - NOISE) * 100;
      assert 0 <= x <= y;
      var qx, qy := x / 64, y / 64;
      assert qx * 64 <= x < qx * 64 + 64;
      assert qy * 64 <= y < qy * 64 + 64;
      assert qx <= qy;
    }
  }

  /** The two agree only at the ends: a signal halfway up the window
      reports 0 where 50 is meant. */
  lemma RssiHalfwayIsLost()
    ensures RssiPercentAsWritten(-64) == 0
    ensures RssiPercent(-64) == 50
  {
  }

  /** Below the noise floor the code as written reports a full signal:
      at -200 dBm it gives 100 where 0 is meant. */
  lemma RssiVeryWeakReadsFull()
    ensures RssiPercentAsWritten(-200) == 100
    ensures RssiPercent(-200) == 0
  {
  }

  /** Reordering the arithmetic alone is not enough: with libkern's
      unsigned clamp, the linear value at -100 dBm is negative and still
      reads as 100, so the intended fix needs the signed clamp too. */
  lemma ReorderedWithUnsignedClampStillWraps()
    ensures UnsignedClamp100(CDiv((-100 - NOISE) * 100, -32 - NOISE)) == 100
    ensures RssiPercent(-100) == 0
  {
  }

  // ---------------------------------------------------------------------
  // Supported rates.

  /** NDIS_80211_RATES_EX: entries of nwbx_supportedrates. */
  const RATES_EX: nat := 16
  /** IEEE80211_RATE_VAL: the rate without its basic-rate flag. */
  const RATE_VAL_MOD: nat := 128

  /** How many of the first RATE_MAXSIZE entries precede the first zero. */
  function RateCountFrom(supported: seq<Byte>, j: nat): (n: nat)
    requires |supported| >= RATE_MAXSIZE && j <= RATE_MAXSIZE
    ensures j <= n <= RATE_MAXSIZE
    ensures forall k :: j <= k < n ==> supported[k] != 0
    ensures n < RATE_MAXSIZE ==> supported[n] == 0
    decreases RATE_MAXSIZE - j
  {
    if j == RATE_MAXSIZE || supported[j] == 0 then j else RateCountFrom(supported, j + 1)
  }

  function RateCount(supported: seq<Byte>): (n: nat)
    requires |supported| >= RATE_MAXSIZE
    ensures n <= RATE_MAXSIZE
    ensures forall k :: 0 <= k < n ==> supported[k] != 0
    ensures n < RATE_MAXSIZE ==> supported[n] == 0
  {
    RateCountFrom(supported, 0)
  }

  /** The rates element handed to net80211: rates[1] is the count and
      rates[2..] the rates with the basic-rate bit masked off; the element
      id in rates[0] and the entries past the count are left as they were. */
  method CopyRates(supported: seq<Byte>, rates: array<Byte>) returns (n: nat)
    requires |supported| == RATES_EX && rates.Length == 2 + RATE_MAXSIZE
    modifies rates
    ensures n == RateCount(supported)
    ensures rates[1] == n
    ensures forall k :: 0 <= k < n ==> rates[2 + k] == supported[k] % RATE_VAL_MOD
    ensures rates[0] == old(rates[0])
    ensures forall k :: 2 + n <= k < rates.Length ==> rates[k] == old(rates[k])
  {
    var j := 0;
    while j < RATE_MAXSIZE
      invariant 0 <= j <= RATE_MAXSIZE
      invariant forall k :: 0 <= k < j ==> supported[k] != 0
      invariant RateCountFrom(supported, j) == RateCount(supported)
      invariant forall k :: 0 <= k < j ==> rates[2 + k] == supported[k] % RATE_VAL_MOD
      invariant rates[0] == old(rates[0]) && rates[1] == old(rates[1])
      invariant forall k :: 2 + j <= k < rates.Length ==> rates[k] == old(rates[k])
    {
      if supported[j] == 0 {
        break;
      }
      rates[2 + j] := supported[j] % RATE_VAL_MOD;
      j := j + 1;
    }
    rates[1] := j;
    n := j;
  }

  // ---------------------------------------------------------------------
  // Capability and information elements.

  const CAPINFO_ESS: nat := 0x0001
  const CAPINFO_IBSS: nat := 0x0002
  const CAPINFO_PRIVACY: nat := 0x0010

  /** nwbx_netinfra */
  datatype NetInfra = Ibss | Bss | AutoUnknown

  /** sp.capinfo before any extended information: the privacy bit, and
      IBSS or ESS from the network type. */
  function BaseCapinfo(privacy: bool, infra: NetInfra): (c: nat)
    ensures BitSet(c, 4) <==> privacy
    ensures BitSet(c, 1) <==> infra == Ibss
    ensures BitSet(c, 0) <==> infra == Bss
    ensures !BitSet(c, 2) && !BitSet(c, 3)
    ensures c < 0x20
  {
    (if privacy then CAPINFO_PRIVACY else 0) +
    (match infra case Ibss => CAPINFO_IBSS case Bss => CAPINFO_ESS case AutoUnknown => 0)
  }

  /** IEEE80211_ELEMID_RSN */
  const ELEMID_RSN: Byte := 48
  /** Timestamp (8 bytes), beacon interval (2) and capability (2). */
  const FIXED_FIELDS: nat := 12

  /** An element header and body starting at `o` lie inside the buffer:
      at least two bytes remain, and no fewer than the length byte says. */
  predicate Fits(ies: seq<Byte>, o: nat)
  {
    o + 2 <= |ies| && o + 2 + ies[o + 1] <= |ies|
  }

  /** Where the element after the one at `o` starts. */
  function Next(ies: seq<Byte>, o: nat): nat
    requires Fits(ies, o)
  {
    o + 2 + ies[o + 1]
  }

  /** The offsets of the elements the walk visits from `off`: it stops as
      soon as an element would not fit. */
  function Elements(ies: seq<Byte>, off: nat): (r: seq<nat>)
    requires off <= |ies|
    ensures |r| == 0 <==> !Fits(ies, off)
    ensures |r| > 0 ==> r[0] == off
    ensures forall k :: 0 <= k < |r| ==> off <= r[k] && Fits(ies, r[k])
    ensures forall k :: 0 <= k < |r| - 1 ==> r[k + 1] == Next(ies, r[k])
    ensures |r| > 0 ==> !Fits(ies, Next(ies, r[|r| - 1]))
    decreases |ies| - off
  {
    if !Fits(ies, off) then [] else [off] + Elements(ies, Next(ies, off))
  }

  /** The last RSN element among `offs`, which is the one sp.rsn keeps. */
  function LastRsn(ies: seq<Byte>, offs: seq<nat>): (r: Option<nat>)
    requires forall k :: 0 <= k < |offs| ==> offs[k] < |ies|
    ensures r.None? <==> forall k :: 0 <= k < |offs| ==> ies[offs[k]] != ELEMID_RSN
    ensures r.Some? ==> exists k :: 0 <= k < |offs| && offs[k] == r.value && ies[offs[k]] == ELEMID_RSN &&
                                    forall j :: k < j < |offs| ==> ies[offs[j]] != ELEMID_RSN
  {
    if offs == [] then None
    else if ies[offs[|offs| - 1]] == ELEMID_RSN then Some(offs[|offs| - 1])
    else LastRsn(ies, offs[..|offs| - 1])
  }

  /** The fields of the scan entry the extended information sets. tstamp
      and rsn are offsets into the information elements. */
  datatype ScanParams = ScanParams(tstamp: Option<nat>, bintval: nat, capinfo: nat, rsn: Option<nat>)

  function Le16(ies: seq<Byte>, o: nat): (v: nat)
    requires o + 2 <= |ies|
    ensures v < 0x1_0000
  {
    ies[o] as int + 256 * (ies[o + 1] as int)
  }

  /** One step of the walk: the element at `frm` joins the visited ones,
      and it becomes the remembered RSN element if it is one. */
  lemma {:induction false} WalkStep(ies: seq<Byte>, start: nat, seen: seq<nat>, frm: nat)
    requires start <= frm <= |ies| && Fits(ies, frm)
    requires Elements(ies, start) == seen + Elements(ies, frm)
    requires forall k :: 0 <= k < |seen| ==> seen[k] < |ies|
    ensures Elements(ies, start) == (seen + [frm]) + Elements(ies, Next(ies, frm))
    ensures forall k :: 0 <= k < |seen + [frm]| ==> (seen + [frm])[k] < |ies|
    ensures LastRsn(ies, seen + [frm]) == if ies[frm] == ELEMID_RSN then Some(frm) else LastRsn(ies, seen)
  {
    assert Elements(ies, frm) == [frm] + Elements(ies, Next(ies, frm));
    assert (seen + [frm])[..|seen|] == seen;
  }

  /** The RSN element the walk remembers is one of the visited elements. */
  lemma {:induction false} WalkRsnFits(ies: seq<Byte>, start: nat)
    requires start <= |ies|
    ensures LastRsn(ies, Elements(ies, start)).Some? ==>
              var o := LastRsn(ies, Elements(ies, start)).value;
              start <= o && Fits(ies, o) && ies[o] == ELEMID_RSN
  {
    var offs := Elements(ies, start);
    if LastRsn(ies, offs).Some? {
      var k :| 0 <= k < |offs| && offs[k] == LastRsn(ies, offs).value && ies[offs[k]] == ELEMID_RSN &&
               forall j :: k < j < |offs| ==> ies[offs[j]] != ELEMID_RSN;
      assert start <= offs[k] && Fits(ies, offs[k]);
    }
  }

  /** The element walk from `start`: it moves one element at a time while
      at least two bytes remain and the element fits, remembering the last
      RSN element. */
  method WalkElements(ies: seq<Byte>, start: nat) returns (rsn: Option<nat>)
    requires start <= |ies|
    ensures rsn == LastRsn(ies, Elements(ies, start))
    ensures rsn.Some? ==> start <= rsn.value && Fits(ies, rsn.value) && ies[rsn.value] == ELEMID_RSN
  {
    rsn := None;
    var frm := start;
    ghost var seen: seq<nat> := [];
    while |ies| - frm > 1
      invariant start <= frm <= |ies|
      invariant Elements(ies, start) == seen + Elements(ies, frm)
      invariant forall k :: 0 <= k < |seen| ==> seen[k] < |ies|
      invariant rsn == LastRsn(ies, seen)
      decreases |ies| - frm
    {
      if |ies| - frm < ies[frm + 1] as int + 2 {
        break;
      }
      WalkStep(ies, start, seen, frm);
      if ies[frm] == ELEMID_RSN {
        rsn := Some(frm);
      }
      seen := seen + [frm];
      frm := frm + 2 + ies[frm + 1];
    }
    assert Elements(ies, frm) == [];
    assert seen == Elements(ies, start);
    WalkRsnFits(ies, start);
  }

  /** The extended-information block: `extended` is nwbx_len exceeding the
      basic record. With fewer than 12 bytes the fixed fields are skipped
      along with the elements; otherwise they replace bintval and capinfo,
      and every element that fits is visited. */
  method ParseExtended(extended: bool, ies: seq<Byte>, bintval: nat, capinfo: nat) returns (sp: ScanParams)
    ensures !extended || |ies| < FIXED_FIELDS ==> sp == ScanParams(None, bintval, capinfo, None)
    ensures extended && |ies| >= FIXED_FIELDS ==>
              && sp.tstamp == Some(0)
              && sp.bintval == Le16(ies, 8)
              && sp.capinfo == Le16(ies, 10)
              && sp.rsn == LastRsn(ies, Elements(ies, FIXED_FIELDS))
    ensures sp.rsn.Some? ==> FIXED_FIELDS <= sp.rsn.value && Fits(ies, sp.rsn.value) && ies[sp.rsn.value] == ELEMID_RSN
  {
    if !extended || |ies| < FIXED_FIELDS {
      return ScanParams(None, bintval, capinfo, None);
    }
    var rsn := WalkElements(ies, FIXED_FIELDS);
    sp := ScanParams(Some(0), Le16(ies, 8), Le16(ies, 10), rsn);
  }
}
