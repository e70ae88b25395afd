/** The choropleth's fill colour: an age is classified into one of six
    ordered bands with half-open boundaries 25, 50, 75, 90 and 105. */
module Colour {

  /** The six fill colours from the youngest band to the oldest, spelled as
      the dashboard spells them ("yelow" included). */
  const PALETTE: seq<string> := ["green", "orange", "blue", "yelow", "black", "red"]

  /** The lower bounds of bands 1 to 5, ascending. */
  const THRESHOLDS: seq<int> := [25, 50, 75, 90, 105]

  /** The nested `get_color` of the map callback: the first branch of the
      chain whose bound the age is below decides. */
  function GetColor(eta: int): (c: string)
    ensures c in PALETTE
  {
    if eta < 25 then "green"
    else if eta < 50 then "orange"
    else if eta < 75 then "blue"
    else if eta < 90 then "yelow"
    else if eta < 105 then "black"
    else "red"
  }

  /** How many of the thresholds the age has reached. */
  function Passed(ts: seq<int>, eta: int): (n: nat)
    ensures n <= |ts|
  {
    if |ts| == 0 then 0 else (if ts[0] <= eta then 1 else 0) + Passed(ts[1..], eta)
  }

  /** The band of an age, defined without the branch chain: the number of
      thresholds it has reached. */
  function Bucket(eta: int): (i: nat)
    ensures i < |PALETTE|
  {
    Passed(THRESHOLDS, eta)
  }

  predicate Ascending(ts: seq<int>)
  {
    forall i, j :: 0 <= i < j < |ts| ==> ts[i] < ts[j]
  }

  /** The position of a colour in the palette, or -1 for any other string. */
  function Rank(c: string): (i: int)
    ensures -1 <= i < |PALETTE|
    ensures i == -1 <==> c !in PALETTE
    ensures 0 <= i ==> PALETTE[i] == c
  {
    if c == "green" then 0
    else if c == "orange" then 1
    else if c == "blue" then 2
    else if c == "yelow" then 3
    else if c == "black" then 4
    else if c == "red" then 5
    else -1
  }

  /** Over ascending thresholds, threshold k is reached exactly when the count
      of reached thresholds exceeds k: the bands are the half-open intervals
      between consecutive thresholds. */
  lemma {:induction false} PassedAscending(ts: seq<int>, eta: int)
    requires Ascending(ts)
    ensures forall k :: 0 <= k < |ts| ==> (ts[k] <= eta <==> k < Passed(ts, eta))
  {
    if |ts| > 0 {
      assert Ascending(ts[1..]);
      PassedAscending(ts[1..], eta);
      forall k | 0 <= k < |ts|
        ensures ts[k] <= eta <==> k < Passed(ts, eta)
      {
        if k > 0 {
          assert ts[k] == ts[1..][k - 1];
          assert ts[0] < ts[k];
        } else if ts[0] > eta && |ts| > 1 {
          PassedNone(ts[1..], eta);
        }
      }
    }
  }

  lemma {:induction false} PassedNone(ts: seq<int>, eta: int)
    requires forall k :: 0 <= k < |ts| ==> eta < ts[k]
    ensures Passed(ts, eta) == 0
  {
    if |ts| > 0 {
      PassedNone(ts[1..], eta);
    }
  }

  /** Reaching more age never reaches fewer thresholds. */
  lemma {:induction false} PassedMonotone(ts: seq<int>, a: int, b: int)
    requires a <= b
    ensures Passed(ts, a) <= Passed(ts, b)
  {
    if |ts| > 0 {
      PassedMonotone(ts[1..], a, b);
    }
  }

  /** The branch chain agrees with the threshold count on every integer age. */
  lemma GetColorIsBucket(eta: int)
    ensures GetColor(eta) == PALETTE[Bucket(eta)]
  {
    PassedAscending(THRESHOLDS, eta);
    var b := Bucket(eta);
    assert THRESHOLDS[0] <= eta <==> 0 < b;
    assert THRESHOLDS[1] <= eta <==> 1 < b;
    assert THRESHOLDS[2] <= eta <==> 2 < b;
    assert THRESHOLDS[3] <= eta <==> 3 < b;
    assert THRESHOLDS[4] <= eta <==> 4 < b;
  }

  /** Totality and exclusiveness: every age gets exactly one palette colour,
      and band i holds exactly the ages between threshold i-1 (inclusive) and
      threshold i (exclusive). */
  lemma GetColorPartition(eta: int)
    ensures forall i :: 0 <= i < |PALETTE| ==> (GetColor(eta) == PALETTE[i] <==> i == Bucket(eta))
    ensures forall k :: 0 <= k < |THRESHOLDS| ==> (THRESHOLDS[k] <= eta <==> k < Bucket(eta))
  {
    GetColorIsBucket(eta);
    PassedAscending(THRESHOLDS, eta);
  }

  /** Order: an older age never gets a colour earlier in the palette. */
  lemma GetColorOrdered(a: int, b: int)
    requires a <= b
    ensures Rank(GetColor(a)) <= Rank(GetColor(b))
  {
    GetColorIsBucket(a);
    GetColorIsBucket(b);
    PassedMonotone(THRESHOLDS, a, b);
  }

  /** The band edges. */
  lemma GetColorBoundaries()
    ensures GetColor(24) == "green" && GetColor(25) == "orange"
    ensures GetColor(49) == "orange" && GetColor(50) == "blue"
    ensures GetColor(74) == "blue" && GetColor(75) == "yelow"
    ensures GetColor(89) == "yelow" && GetColor(90) == "black"
    ensures GetColor(104) == "black" && GetColor(105) == "red"
  {
  }
}
