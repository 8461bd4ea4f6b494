/**
 The second-chance sweep shared by AddrSpace::getNextSCTLB and
 AddrSpace::getNextSCSWAP, on the use bits alone.  A sweep starts at the hand,
 clears every set bit it passes and stops at the first clear bit.
 */
module Clock {

  /** The entry `j` places after `hand` on a ring of `n` entries. */
  function Ring(hand: nat, j: nat, n: nat): (k: nat)
    requires hand < n && j <= n
    ensures k < n && (k == hand + j || k + n == hand + j)
  {
    if hand + j < n then hand + j else hand + j - n
  }

  /** How far the sweep travels before it meets a clear bit; n if there is none. */
  function DistanceFrom(use: seq<bool>, hand: nat, j: nat): (d: nat)
    requires hand < |use| && j <= |use|
    ensures j <= d <= |use|
    ensures forall i :: j <= i < d ==> use[Ring(hand, i, |use|)]
    ensures d < |use| ==> !use[Ring(hand, d, |use|)]
    decreases |use| - j
  {
    if j == |use| || !use[Ring(hand, j, |use|)] then j else DistanceFrom(use, hand, j + 1)
  }

  function Distance(use: seq<bool>, hand: nat): (d: nat)
    requires hand < |use|
    ensures d <= |use|
    ensures forall i :: 0 <= i < d ==> use[Ring(hand, i, |use|)]
    ensures d < |use| ==> !use[Ring(hand, d, |use|)]
  {
    DistanceFrom(use, hand, 0)
  }

  /** The entry a sweep selects: the first with a clear bit in ring order, or the
      hand itself when every bit is set. */
  function Victim(use: seq<bool>, hand: nat): (k: nat)
    requires hand < |use|
    ensures k < |use|
  {
    Ring(hand, Distance(use, hand), |use|)
  }

  /** How far entry `k` lies ahead of the hand. */
  function Ahead(hand: nat, k: nat, n: nat): (d: nat)
    requires hand < n && k < n
    ensures d < n && Ring(hand, d, n) == k
  {
    if hand <= k then k - hand else k + n - hand
  }

  /** From the hand on, entry `k` comes before entry `v`. */
  predicate Before(hand: nat, k: nat, v: nat, n: nat)
    requires hand < n && k < n && v < n
  {
    Ahead(hand, k, n) < Ahead(hand, v, n)
  }

  /** The use bits once the sweep has passed `j` entries. */
  function Swept(use: seq<bool>, hand: nat, j: nat): (r: seq<bool>)
    requires hand < |use| && j <= |use|
    ensures |r| == |use|
    ensures forall k :: 0 <= k < |use| ==> r[k] == (use[k] && j <= Ahead(hand, k, |use|))
  {
    seq(|use|, k requires 0 <= k < |use| => use[k] && j <= Ahead(hand, k, |use|))
  }

  lemma AheadRing(hand: nat, k: nat, j: nat, n: nat)
    requires hand < n && k < n && j < n
    ensures Ahead(hand, k, n) == j <==> k == Ring(hand, j, n)
  {
  }

  /** One loop iteration: passing a set bit extends the sweep by one entry, and a
      sweep that has gone all the way round can only meet a clear bit. */
  lemma SweepStep(use: seq<bool>, hand: nat, j: nat)
    requires hand < |use| && j <= Distance(use, hand)
    ensures var at := Ring(hand, j, |use|);
            && (Swept(use, hand, j)[at] <==> j < Distance(use, hand))
            && (j < Distance(use, hand) ==>
                  && Swept(use, hand, j + 1) == Swept(use, hand, j)[at := false]
                  && Ring(hand, j + 1, |use|) == if at + 1 == |use| then 0 else at + 1)
  {
    var n, at := |use|, Ring(hand, j, |use|);
    assert j < n ==> Ahead(hand, at, n) == j;
    if j < Distance(use, hand) {
      var s, t := Swept(use, hand, j + 1), Swept(use, hand, j)[at := false];
      forall k | 0 <= k < n
        ensures s[k] == t[k]
      {
        assert Ahead(hand, k, n) == j ==> k == at;
      }
      assert s == t;
    }
  }

  /** The victim is the first entry in ring order whose bit is clear, or the hand itself if
      all are set; the bits cleared are exactly those of the entries passed, and the
      sweep passes at most one whole turn. */
  lemma VictimExact(use: seq<bool>, hand: nat)
    requires hand < |use|
    ensures var v, n := Victim(use, hand), |use|;
            var swept := Swept(use, hand, Distance(use, hand));
            && ((forall k :: 0 <= k < n ==> use[k]) ==>
                  v == hand && Distance(use, hand) == n && forall k :: 0 <= k < n ==> !swept[k])
            && (!(forall k :: 0 <= k < n ==> use[k]) ==>
                  && !use[v] && Distance(use, hand) == Ahead(hand, v, n)
                  && forall k :: 0 <= k < n ==>
                       if Ahead(hand, k, n) < Ahead(hand, v, n) then use[k] && !swept[k] else swept[k] == use[k])
  {
    var n, d := |use|, Distance(use, hand);
    forall k | 0 <= k < n && Ahead(hand, k, n) < d ensures use[k] {
      assert use[Ring(hand, Ahead(hand, k, n), n)];
    }
    if d < n {
      AheadRing(hand, Ring(hand, d, n), d, n);
    }
  }
}
