/** What the proofs need of sequences. */
module Sequences {
  import opened Wrappers

  lemma Reassociate<T>(a: seq<T>, b: seq<T>, c: seq<T>)
    ensures a + (b + c) == (a + b) + c
  {
  }

  /** What the places from `i` up to `e` give, in order. */
  function Collect<T>(xs: seq<Option<T>>, i: nat, e: nat): seq<T>
    requires i <= e <= |xs|
    decreases e - i
  {
    if i == e then [] else (if xs[i].Some? then [xs[i].value] else []) + Collect(xs, i + 1, e)
  }

  /** `ks` are the places that give something, in order, and `ys` what they give. */
  ghost predicate Places<T(!new)>(xs: seq<Option<T>>, i: nat, e: nat, ys: seq<T>, ks: seq<nat>)
    requires i <= e <= |xs|
  {
    && |ks| == |ys| && (forall j, k :: 0 <= j < k < |ks| ==> ks[j] < ks[k])
    && (forall j :: 0 <= j < |ks| ==> i <= ks[j] < e && xs[ks[j]] == Some(ys[j]))
    && (forall k :: i <= k < e && xs[k].Some? ==> k in ks)
  }

  lemma {:induction false} CollectPlaces<T(!new)>(xs: seq<Option<T>>, i: nat, e: nat) returns (ks: seq<nat>)
    requires i <= e <= |xs|
    ensures Places(xs, i, e, Collect(xs, i, e), ks)
    decreases e - i
  {
    ks := [];
    if i < e {
      var rest := CollectPlaces(xs, i + 1, e);
      var ys := Collect(xs, i + 1, e);
      if xs[i].Some? {
        OneMorePlace(xs, i, e, ys, rest);
        ks := [i] + rest;
      } else {
        NoMorePlace(xs, i, e, ys, rest);
        assert Collect(xs, i, e) == [] + ys == ys;
        ks := rest;
      }
    }
  }

  lemma NoMorePlace<T(!new)>(xs: seq<Option<T>>, i: nat, e: nat, ys: seq<T>, rest: seq<nat>)
    requires i < e <= |xs| && xs[i].None? && Places(xs, i + 1, e, ys, rest)
    ensures Places(xs, i, e, ys, rest)
  {
  }

  lemma OneMorePlace<T(!new)>(xs: seq<Option<T>>, i: nat, e: nat, ys: seq<T>, rest: seq<nat>)
    requires i < e <= |xs| && xs[i].Some? && Places(xs, i + 1, e, ys, rest)
    ensures Places(xs, i, e, [xs[i].value] + ys, [i] + rest)
  {
    var ks, zs := [i] + rest, [xs[i].value] + ys;
    assert forall j :: 1 <= j < |ks| ==> ks[j] == rest[j - 1] && zs[j] == ys[j - 1];
    forall k | i <= k < e && xs[k].Some? ensures k in ks {
      if k > i { assert k in rest; } else { assert ks[0] == i; }
    }
  }
}
