/** The TESTSETRATE macro of ndis_attach (sys/dev/if_ndis/if_ndis.c): add
    a rate to a net80211 rate set unless it is already there. */
module NdisRates {
  import opened Common

  /** IEEE80211_RATE_MAXSIZE: the capacity of rs_rates. */
  const RATE_MAXSIZE: nat := 15

  /** No rate appears twice. */
  predicate NoDuplicates(rs: seq<Byte>)
  {
    forall i, j :: 0 <= i < j < |rs| ==> rs[i] != rs[j]
  }

  /** The rates after inserting `y` if absent. */
  function WithRate(rs: seq<Byte>, y: Byte): (r: seq<Byte>)
    ensures y in r
    ensures forall x :: x in r <==> x in rs || x == y
    ensures |rs| <= |r| <= |rs| + 1
    ensures r[..|rs|] == rs
    ensures y in rs ==> r == rs
    ensures y !in rs ==> r == rs + [y]
    ensures NoDuplicates(rs) ==> NoDuplicates(r)
  {
    if y in rs then rs else rs + [y]
  }

  /** Inserting the same rate twice is the same as inserting it once. */
  lemma {:induction false} WithRateIdempotent(rs: seq<Byte>, y: Byte)
    ensures WithRate(WithRate(rs, y), y) == WithRate(rs, y)
  {
    assert y in WithRate(rs, y);
  }

  /** struct ieee80211_rateset: rs_nrates and rs_rates[]. */
  class RateSet {
    const rates: array<Byte>
    var nrates: nat

    predicate Valid()
      reads this
    {
      rates.Length == RATE_MAXSIZE && nrates <= RATE_MAXSIZE
    }

    /** The rates in use, rs_rates[0 .. rs_nrates). */
    function Rates(): seq<Byte>
      reads this, rates
      requires Valid()
    {
      rates[..nrates]
    }

    /** A rate set whose rs_nrates was reset to 0. */
    constructor Empty()
      ensures Valid() && fresh(rates) && Rates() == []
    {
      rates := new Byte[RATE_MAXSIZE](_ => 0);
      nrates := 0;
    }

    /** TESTSETRATE(x, y): scan rs_rates[0 .. rs_nrates) for y; when it is
        absent store it at index rs_nrates and count it. The macro does not
        check the capacity, so the caller must leave room for a new rate. */
    method TestSetRate(y: Byte)
      requires Valid()
      requires y in Rates() || nrates < RATE_MAXSIZE
      modifies this, rates
      ensures Valid()
      ensures Rates() == WithRate(old(Rates()), y)
      ensures old(y in Rates()) ==> nrates == old(nrates) && rates[..] == old(rates[..])
      ensures old(y !in Rates()) ==> nrates == old(nrates) + 1 && rates[..] == old(rates[..])[old(nrates) := y]
    {
      var i := 0;
      while i < nrates
        invariant 0 <= i <= nrates
        invariant forall k :: 0 <= k < i ==> rates[k] != y
      {
        if rates[i] == y {
          break;
        }
        i := i + 1;
      }
      if i == nrates {
        rates[i] := y;
        nrates := nrates + 1;
      }
    }
  }

  /** IEEE80211_RATE_BASIC: the basic-rate flag of a rate byte. */
  const RATE_BASIC: Byte := 0x80

  /** ndis_attach's 802.11b fallback on a rate set whose rs_nrates was just
      reset and into which the driver reported no rate: the four
      TESTSETRATE calls leave exactly the four basic 802.11b rates, in the
      order they were tried. */
  method Basic11bFallback() returns (r: seq<Byte>)
    ensures r == [RATE_BASIC + 2, RATE_BASIC + 4, RATE_BASIC + 11, RATE_BASIC + 22]
    ensures NoDuplicates(r)
  {
    var rs := new RateSet.Empty();
    rs.TestSetRate(RATE_BASIC + 2);
    rs.TestSetRate(RATE_BASIC + 4);
    rs.TestSetRate(RATE_BASIC + 11);
    rs.TestSetRate(RATE_BASIC + 22);
    r := rs.Rates();
  }
}
