/** The reflection layer's two paths: the one that enumerates an enum's declarations and insertion-sorts
    them, and the one that scans a range of values. They must derive the same metadata.

    An enum is its enumerators in declaration order. The compiler facts the scan rests on are taken as
    given: a value reads as the first enumerator declared with it, and enumerator names are distinct. */
module Reflect {
  import opened Wrappers
  import opened Sequences

  /** One failure an enum declares. */
  datatype Info = Info(value: int, name: string)

  type Enum = seq<Info>

  // ------------------------------------------------------------ the reflection path

  /** `enum_name`: the first declaration with the value. */
  function NameOf(e: Enum, v: int): Option<string> {
    if e == [] then None else if e[0].value == v then Some(e[0].name) else NameOf(e[1..], v)
  }

  /** `enum_cast`: the first declaration with the name. */
  function ValueOf(e: Enum, name: string): Option<int> {
    if e == [] then None else if e[0].name == name then Some(e[0].value) else ValueOf(e[1..], name)
  }

  /** `message` over the declarations: the last one with the value wins. */
  function LinearMessage(e: Enum, v: int): string {
    if e == [] then "unknown error"
    else if e[|e| - 1].value == v then e[|e| - 1].name
    else LinearMessage(e[..|e| - 1], v)
  }

  /** Insertion from the back, behind equal values. */
  function Insert(s: seq<Info>, x: Info): seq<Info> {
    if s == [] || s[|s| - 1].value <= x.value then s + [x]
    else Insert(s[..|s| - 1], x) + [s[|s| - 1]]
  }

  function InsertAll(e: Enum): seq<Info> {
    if e == [] then [] else Insert(InsertAll(e[..|e| - 1]), e[|e| - 1])
  }

  /** Insertion puts the element where the shifting loop stops. */
  lemma {:induction false} InsertsAt(s: seq<Info>, x: Info, j: nat)
    requires j <= |s| && (j == 0 || s[j - 1].value <= x.value)
    requires forall m :: j <= m < |s| ==> s[m].value > x.value
    ensures Insert(s, x) == s[..j] + [x] + s[j..]
    decreases |s|
  {
    if j < |s| {
      var n := |s| - 1;
      InsertsAt(s[..n], x, j);
      assert s[..n][..j] == s[..j] && s[..n][j..] + [s[n]] == s[j..];
    } else {
      assert s[..j] == s;
    }
  }

  lemma Shifted(o: seq<Info>, s: seq<Info>, x: Info, j: nat)
    requires j <= |s| && |o| == |s| + 1 && o[j] == x
    requires forall m :: 0 <= m < j ==> o[m] == s[m]
    requires forall m :: j < m < |o| ==> o[m] == s[m - 1]
    ensures o == s[..j] + [x] + s[j..]
  {
  }

  /** The reflection path's `build_failures`, in place. */
  method InsertionFailures(e: Enum) returns (out: array<Info>)
    ensures fresh(out) && out[..] == InsertAll(e)
  {
    out := new Info[|e|](_ => Info(0, ""));
    var k := 0;
    while k < |e|
      invariant 0 <= k <= |e|
      invariant out[..k] == InsertAll(e[..k])
    {
      PlaceOne(out, k, e[k]);
      assert e[..k + 1][..k] == e[..k];
      k := k + 1;
    }
    assert e[..k] == e && out[..k] == out[..];
  }

  /** The shifting loop: one more element into the sorted front. */
  method PlaceOne(out: array<Info>, k: nat, x: Info)
    requires k < out.Length
    modifies out
    ensures out[..k + 1] == Insert(old(out[..k]), x)
  {
    ghost var s := out[..k];
    var j := k;
    while j > 0 && out[j - 1].value > x.value
      invariant 0 <= j <= k
      invariant forall m :: 0 <= m < j ==> out[m] == s[m]
      invariant forall m :: j < m <= k ==> out[m] == s[m - 1]
      invariant forall m :: j <= m < k ==> s[m].value > x.value
    {
      out[j] := out[j - 1];
      j := j - 1;
    }
    out[j] := x;
    InsertsAt(s, x, j);
    Shifted(out[..k + 1], s, x, j);
  }

  // ------------------------------------------------------------ the scanning path

  /** What a scan of the values `v` to `hi` collects. */
  function ScanFrom(e: Enum, v: int, hi: int): seq<Info>
    decreases hi - v + 1
  {
    if v > hi then []
    else
      (match NameOf(e, v) case None => [] case Some(n) => [Info(v, n)]) + ScanFrom(e, v + 1, hi)
  }

  method CountEnumerators(e: Enum, lo: int, hi: int) returns (n: nat)
    ensures n == |ScanFrom(e, lo, hi)|
  {
    n := 0;
    var v := lo;
    while v <= hi
      invariant lo <= v && (v <= hi + 1 || v == lo)
      invariant n + |ScanFrom(e, v, hi)| == |ScanFrom(e, lo, hi)|
      decreases hi - v + 1
    {
      if NameOf(e, v).Some? { n := n + 1; }
      v := v + 1;
    }
  }

  /** The scanning path's `build_failures`: count, then fill with a running index. */
  method ScanFailures(e: Enum, lo: int, hi: int) returns (out: array<Info>)
    ensures fresh(out) && out[..] == ScanFrom(e, lo, hi)
  {
    var n := CountEnumerators(e, lo, hi);
    out := new Info[n](_ => Info(0, ""));
    var k, v := 0, lo;
    ghost var all := ScanFrom(e, lo, hi);
    while v <= hi
      invariant lo <= v && (v <= hi + 1 || v == lo) && 0 <= k <= n && n == |all|
      invariant out[..k] + ScanFrom(e, v, hi) == all
      decreases hi - v + 1
    {
      var name := NameOf(e, v);
      if name.Some? {
        ghost var front, rest := out[..k], ScanFrom(e, v + 1, hi);
        Reassociate(front, [Info(v, name.value)], rest);
        out[k] := Info(v, name.value);
        assert out[..k + 1] == front + [Info(v, name.value)];
        k := k + 1;
      }
      v := v + 1;
    }
    assert out[..k] == out[..];
  }

  /** `scan_value`: the first value in the range that reads as the name. */
  function ScanValue(e: Enum, name: string, v: int, hi: int): Option<int>
    decreases hi - v + 1
  {
    if v > hi then None else if NameOf(e, v) == Some(name) then Some(v) else ScanValue(e, name, v + 1, hi)
  }

  /** `scan_name`: the name, when the value is in the range. */
  function ScanName(e: Enum, v: int, lo: int, hi: int): Option<string> {
    if lo <= v <= hi then NameOf(e, v) else None
  }

  /** `name_table`: slot `v - lo` is the name of `v`, if it has one. */
  method NameTable(e: Enum, lo: int, hi: int) returns (t: array<Option<string>>)
    ensures fresh(t) && t.Length == (if lo <= hi then hi - lo + 1 else 0)
    ensures forall i :: 0 <= i < t.Length ==> t[i] == NameOf(e, lo + i)
  {
    t := new Option<string>[if lo <= hi then hi - lo + 1 else 0](_ => None);
    var i := 0;
    while i < t.Length
      invariant 0 <= i <= t.Length
      invariant forall k :: 0 <= k < i ==> t[k] == NameOf(e, lo + k)
    {
      t[i] := NameOf(e, lo + i);
      i := i + 1;
    }
  }

  // ------------------------------------------------------------ the two agree

  ghost predicate DistinctValues(e: Enum) {
    forall i, j :: 0 <= i < j < |e| ==> e[i].value != e[j].value
  }

  ghost predicate DistinctNames(e: Enum) {
    forall i, j :: 0 <= i < j < |e| ==> e[i].name != e[j].name
  }

  ghost predicate InRange(e: Enum, lo: int, hi: int) {
    forall i :: 0 <= i < |e| ==> lo <= e[i].value <= hi
  }

  ghost predicate Increasing(s: seq<Info>) {
    forall i, j :: 0 <= i < j < |s| ==> s[i].value < s[j].value
  }

  ghost predicate Ordered(s: seq<Info>) {
    forall i, j :: 0 <= i < j < |s| ==> s[i].value <= s[j].value
  }

  ghost predicate NewValue(s: seq<Info>, v: int) {
    forall i :: 0 <= i < |s| ==> s[i].value != v
  }

  /** Where insertion into an ordered front puts the element. */
  lemma {:induction false} Position(s: seq<Info>, x: Info) returns (j: nat)
    requires Ordered(s)
    ensures j <= |s| && Insert(s, x) == s[..j] + [x] + s[j..]
    ensures forall m :: 0 <= m < j ==> s[m].value <= x.value
    ensures forall m :: j <= m < |s| ==> s[m].value > x.value
  {
    j := |s|;
    while j > 0 && s[j - 1].value > x.value
      invariant 0 <= j <= |s|
      invariant forall m :: j <= m < |s| ==> s[m].value > x.value
    {
      j := j - 1;
    }
    InsertsAt(s, x, j);
  }

  lemma InsertKeepsElements(s: seq<Info>, x: Info)
    requires Ordered(s)
    ensures multiset(Insert(s, x)) == multiset(s) + multiset{x}
  {
    var j := Position(s, x);
    Split(s[..j], x, s[j..]);
    assert s == s[..j] + s[j..];
  }

  lemma Split(a: seq<Info>, x: Info, b: seq<Info>)
    ensures multiset(a + [x] + b) == multiset(a + b) + multiset{x}
  {
  }

  lemma InsertOrders(s: seq<Info>, x: Info)
    requires Ordered(s)
    ensures Ordered(Insert(s, x))
  {
    var j := Position(s, x);
  }

  /** `r` is `s` with `x` put in at `j`. */
  ghost predicate Placed(s: seq<Info>, x: Info, j: nat, r: seq<Info>) {
    && j <= |s| && |r| == |s| + 1 && r[j] == x
    && (forall m :: 0 <= m < j ==> r[m] == s[m])
    && (forall m :: j <= m < |s| ==> s[m] == r[m + 1])
  }

  lemma PlacedIncreases(s: seq<Info>, x: Info, j: nat, r: seq<Info>)
    requires Placed(s, x, j, r) && Increasing(s) && NewValue(s, x.value)
    requires forall m :: 0 <= m < j ==> s[m].value <= x.value
    requires forall m :: j <= m < |s| ==> s[m].value > x.value
    ensures Increasing(r)
  {
    forall i, k | 0 <= i < k < |r| ensures r[i].value < r[k].value {
      if i < j { assert r[i] == s[i]; } else if i > j { assert r[i] == s[i - 1]; }
      if k < j { assert r[k] == s[k]; } else if k > j { assert r[k] == s[k - 1]; }
    }
  }

  lemma PlacedWasIncreasing(s: seq<Info>, x: Info, j: nat, r: seq<Info>)
    requires Placed(s, x, j, r) && Increasing(r)
    ensures Increasing(s) && NewValue(s, x.value)
  {
  }

  lemma PositionPlaces(s: seq<Info>, x: Info) returns (j: nat)
    requires Ordered(s)
    ensures Placed(s, x, j, Insert(s, x))
    ensures forall m :: 0 <= m < j ==> s[m].value <= x.value
    ensures forall m :: j <= m < |s| ==> s[m].value > x.value
  {
    j := Position(s, x);
  }

  /** The front stays strictly increasing exactly when the value is new. */
  lemma InsertIncreasesIff(s: seq<Info>, x: Info)
    requires Ordered(s)
    ensures Increasing(Insert(s, x)) <==> Increasing(s) && NewValue(s, x.value)
  {
    var j := PositionPlaces(s, x);
    var r := Insert(s, x);
    if Increasing(r) { PlacedWasIncreasing(s, x, j, r); }
    if Increasing(s) && NewValue(s, x.value) { PlacedIncreases(s, x, j, r); }
  }

  lemma {:induction false} InsertAllSorts(e: Enum)
    ensures Ordered(InsertAll(e)) && multiset(InsertAll(e)) == multiset(e)
    decreases |e|
  {
    if e != [] {
      var less, x := e[..|e| - 1], e[|e| - 1];
      InsertAllSorts(less);
      InsertOrders(InsertAll(less), x);
      InsertKeepsElements(InsertAll(less), x);
      assert e == less + [x];
    }
  }

  lemma {:induction false} InsertAllIncreasesIff(e: Enum)
    ensures Increasing(InsertAll(e)) <==> DistinctValues(e)
    decreases |e|
  {
    if e != [] {
      var less, x := e[..|e| - 1], e[|e| - 1];
      InsertAllSorts(less);
      InsertAllIncreasesIff(less);
      InsertIncreasesIff(InsertAll(less), x);
      SameValues(less, InsertAll(less), x.value);
      DistinctSplits(less, x, e);
    }
  }

  lemma DistinctSplits(less: Enum, x: Info, e: Enum)
    requires e == less + [x]
    ensures DistinctValues(e) <==> DistinctValues(less) && NewValue(less, x.value)
  {
    assert e[|less|] == x && forall i :: 0 <= i < |less| ==> e[i] == less[i];
    assert DistinctValues(e) ==> forall i :: 0 <= i < |less| ==> e[i].value != e[|less|].value;
  }

  /** For every enum the insertion-built set is an ordered permutation of the declarations, strictly
      increasing exactly when the values are distinct. */
  lemma InsertAllOrders(e: Enum)
    ensures Ordered(InsertAll(e)) && multiset(InsertAll(e)) == multiset(e)
    ensures Increasing(InsertAll(e)) <==> DistinctValues(e)
  {
    InsertAllSorts(e);
    InsertAllIncreasesIff(e);
  }

  lemma SameValues(e: Enum, s: seq<Info>, v: int)
    requires multiset(e) == multiset(s)
    ensures NewValue(e, v) <==> NewValue(s, v)
  {
    assert forall x :: x in e <==> x in multiset(e);
    assert forall x :: x in s <==> x in multiset(s);
    assert NewValue(e, v) <==> forall x :: x in e ==> x.value != v;
    assert NewValue(s, v) <==> forall x :: x in s ==> x.value != v;
  }

  lemma {:induction false} NameOfIsFirst(e: Enum, v: int)
    ensures match NameOf(e, v)
            case None => forall i :: 0 <= i < |e| ==> e[i].value != v
            case Some(n) => Info(v, n) in e
    ensures DistinctValues(e) ==> forall i :: 0 <= i < |e| && e[i].value == v ==> NameOf(e, v) == Some(e[i].name)
    decreases |e|
  {
    if e != [] && e[0].value != v {
      NameOfIsFirst(e[1..], v);
      assert forall i :: 1 <= i < |e| ==> e[i] == e[1..][i - 1];
    }
  }

  lemma {:induction false} ScanHolds(e: Enum, v: int, hi: int)
    ensures Increasing(ScanFrom(e, v, hi))
    ensures forall x :: x in ScanFrom(e, v, hi) <==> v <= x.value <= hi && NameOf(e, x.value) == Some(x.name)
    decreases hi - v + 1
  {
    if v <= hi {
      ScanHolds(e, v + 1, hi);
      var rest := ScanFrom(e, v + 1, hi);
      assert forall i :: 0 <= i < |rest| ==> rest[i] in rest;
    }
  }

  /** Two increasing sequences with the same elements are the same. */
  lemma {:induction false} IncreasingIsUnique(a: seq<Info>, b: seq<Info>)
    requires Increasing(a) && Increasing(b) && forall x :: x in a <==> x in b
    ensures a == b
    decreases |a|
  {
    assert b == [] || b[0] in b;
    if a != [] {
      SameHead(a, b);
      SameTail(a, b);
      IncreasingIsUnique(a[1..], b[1..]);
      assert a == [a[0]] + a[1..] && b == [b[0]] + b[1..];
    }
  }

  lemma SameHead(a: seq<Info>, b: seq<Info>)
    requires Increasing(a) && Increasing(b) && a != [] && forall x :: x in a <==> x in b
    ensures b != [] && a[0] == b[0]
  {
    assert a[0] in a;
    var k :| 0 <= k < |b| && b[k] == a[0];
    assert b[0] in b;
    var l :| 0 <= l < |a| && a[l] == b[0];
  }

  lemma SameTail(a: seq<Info>, b: seq<Info>)
    requires Increasing(a) && Increasing(b) && forall x :: x in a <==> x in b
    requires a != [] && b != [] && a[0] == b[0]
    ensures forall x :: x in a[1..] <==> x in b[1..]
  {
    forall x ensures x in a[1..] <==> x in a && x != a[0] { InTail(a, x); }
    forall x ensures x in b[1..] <==> x in b && x != b[0] { InTail(b, x); }
  }

  lemma InTail(a: seq<Info>, x: Info)
    requires Increasing(a) && a != []
    ensures x in a[1..] <==> x in a && x != a[0]
  {
    assert a == [a[0]] + a[1..];
    assert forall i :: 0 <= i < |a[1..]| ==> a[1..][i] == a[i + 1];
  }

  /** The two paths build the same failure set exactly when the values are pairwise distinct and inside
      the scanned range; the set is then strictly ordered by value. */
  lemma PathsAgreeIff(e: Enum, lo: int, hi: int)
    ensures InsertAll(e) == ScanFrom(e, lo, hi) <==> DistinctValues(e) && InRange(e, lo, hi)
  {
    InsertAllOrders(e);
    ScanHolds(e, lo, hi);
    var s, t := InsertAll(e), ScanFrom(e, lo, hi);
    if DistinctValues(e) && InRange(e, lo, hi) {
      forall x ensures x in s <==> x in t { SameMembers(e, lo, hi, x); }
      IncreasingIsUnique(s, t);
    }
    if s == t {
      forall i | 0 <= i < |e| ensures lo <= e[i].value <= hi {
        assert e[i] in multiset(e);
        assert e[i] in s;
      }
    }
  }

  lemma SameMembers(e: Enum, lo: int, hi: int, x: Info)
    requires DistinctValues(e) && InRange(e, lo, hi)
    ensures x in InsertAll(e) <==> x in ScanFrom(e, lo, hi)
  {
    InsertAllOrders(e);
    ScanHolds(e, lo, hi);
    NameOfIsFirst(e, x.value);
    assert x in InsertAll(e) <==> x in multiset(InsertAll(e));
    assert x in e <==> x in multiset(e);
    if x in e { var i :| 0 <= i < |e| && e[i] == x; }
  }

  // ------------------------------------------------------------ lookups

  /** `enum_cast(enum_name(v))` is `v` on both paths, whenever `v` has a name there. */
  lemma CastOfName(e: Enum, lo: int, hi: int, v: int)
    requires DistinctNames(e)
    ensures NameOf(e, v).Some? ==> ValueOf(e, NameOf(e, v).value) == Some(v)
    ensures ScanName(e, v, lo, hi).Some? ==> ScanValue(e, ScanName(e, v, lo, hi).value, lo, hi) == Some(v)
  {
    NameOfIsFirst(e, v);
    if NameOf(e, v).Some? {
      var name := NameOf(e, v).value;
      var i :| 0 <= i < |e| && e[i] == Info(v, name);
      CastBack(e, i);
      forall u | u != v ensures NameOf(e, u) != Some(name) { NameIsOnce(e, u, v, name); }
      if lo <= v <= hi { ScanStopsAt(e, name, v, lo, hi); }
    }
  }

  lemma NameIsOnce(e: Enum, u: int, v: int, name: string)
    requires DistinctNames(e) && u != v && NameOf(e, v) == Some(name)
    ensures NameOf(e, u) != Some(name)
  {
    NameOfIsFirst(e, u);
    NameOfIsFirst(e, v);
  }

  lemma {:induction false} ScanStopsAt(e: Enum, name: string, v: int, lo: int, hi: int)
    requires lo <= v <= hi && NameOf(e, v) == Some(name) && forall u :: u != v ==> NameOf(e, u) != Some(name)
    ensures ScanValue(e, name, lo, hi) == Some(v)
    decreases v - lo
  {
    if lo < v { ScanStopsAt(e, name, v, lo + 1, hi); }
  }

  /** The name lookups agree for every value exactly when the enum is inside the scanned range. */
  lemma NamesAgreeIff(e: Enum, lo: int, hi: int)
    ensures (forall v :: ScanName(e, v, lo, hi) == NameOf(e, v)) <==> InRange(e, lo, hi)
  {
    forall v ensures InRange(e, lo, hi) ==> ScanName(e, v, lo, hi) == NameOf(e, v) { NameOfIsFirst(e, v); }
    if forall v :: ScanName(e, v, lo, hi) == NameOf(e, v) {
      forall i | 0 <= i < |e| ensures lo <= e[i].value <= hi {
        NameOfIsFirst(e, e[i].value);
        assert ScanName(e, e[i].value, lo, hi) == NameOf(e, e[i].value);
      }
    }
  }

  lemma {:induction false} ScanValueHolds(e: Enum, name: string, v: int, hi: int)
    ensures var r := ScanValue(e, name, v, hi);
            r.Some? ==> v <= r.value <= hi && NameOf(e, r.value) == Some(name)
    decreases hi - v + 1
  {
    if v <= hi && NameOf(e, v) != Some(name) { ScanValueHolds(e, name, v + 1, hi); }
  }

  ghost predicate SameCasts(e: Enum, lo: int, hi: int) {
    forall name :: ScanValue(e, name, lo, hi) == ValueOf(e, name)
  }

  /** The value lookups agree for every name exactly when the values are distinct and inside the range. */
  lemma ValuesAgreeIff(e: Enum, lo: int, hi: int)
    requires DistinctNames(e)
    ensures SameCasts(e, lo, hi) <==> DistinctValues(e) && InRange(e, lo, hi)
  {
    if DistinctValues(e) && InRange(e, lo, hi) {
      forall name ensures ScanValue(e, name, lo, hi) == ValueOf(e, name) { ScanFindsName(e, lo, hi, name, lo); }
    }
    if SameCasts(e, lo, hi) {
      forall i | 0 <= i < |e| ensures lo <= e[i].value <= hi && NameOf(e, e[i].value) == Some(e[i].name) {
        assert ScanValue(e, e[i].name, lo, hi) == ValueOf(e, e[i].name);
        CastBack(e, i);
        ScanValueHolds(e, e[i].name, lo, hi);
      }
      forall i, j | 0 <= i < j < |e| ensures e[i].value != e[j].value {
        assert NameOf(e, e[i].value) == Some(e[i].name) && NameOf(e, e[j].value) == Some(e[j].name);
      }
    }
  }

  // ------------------------------------------------------------ messages

  /** The scanning path's message. */
  function ScanMessage(e: Enum, v: int, lo: int, hi: int): string {
    match ScanName(e, v, lo, hi) case None => "unknown error" case Some(n) => n
  }

  /** No enumerator is called what an unknown value is called; identifiers have no blanks. */
  ghost predicate Identifiers(e: Enum) {
    forall i :: 0 <= i < |e| ==> e[i].name != "unknown error"
  }

  lemma {:induction false} LastNamed(e: Enum, v: int, i: nat) returns (k: nat)
    requires i < |e| && e[i].value == v
    ensures i <= k < |e| && e[k].value == v && LinearMessage(e, v) == e[k].name
    decreases |e|
  {
    k := |e| - 1;
    if e[k].value != v { k := LastNamed(e[..k], v, i); }
  }

  lemma {:induction false} FirstNamed(e: Enum, v: int, i: nat) returns (k: nat)
    requires i < |e| && e[i].value == v
    ensures k <= i && e[k].value == v && NameOf(e, v) == Some(e[k].name)
    decreases |e|
  {
    k := 0;
    if e[0].value != v {
      var rest := FirstNamed(e[1..], v, i - 1);
      k := rest + 1;
    }
  }

  /** The messages agree for every integer exactly when the values are distinct and inside the range: the
      last declaration of a value wins on one path and the first on the other. */
  lemma MessagesAgreeIff(e: Enum, lo: int, hi: int)
    requires DistinctNames(e) && Identifiers(e)
    ensures (forall v :: ScanMessage(e, v, lo, hi) == LinearMessage(e, v)) <==> DistinctValues(e) && InRange(e, lo, hi)
  {
    if DistinctValues(e) && InRange(e, lo, hi) {
      NamesAgreeIff(e, lo, hi);
      forall v ensures ScanMessage(e, v, lo, hi) == LinearMessage(e, v) {
        assert ScanName(e, v, lo, hi) == NameOf(e, v);
        MessageIsName(e, v);
      }
    }
    if forall v :: ScanMessage(e, v, lo, hi) == LinearMessage(e, v) {
      forall i | 0 <= i < |e| ensures lo <= e[i].value <= hi {
        var k := LastNamed(e, e[i].value, i);
        assert ScanMessage(e, e[i].value, lo, hi) == e[k].name;
      }
      forall i, j | 0 <= i < j < |e| ensures e[i].value != e[j].value {
        if e[i].value == e[j].value {
          var k := LastNamed(e, e[i].value, j);
          var f := FirstNamed(e, e[i].value, i);
        }
      }
    }
  }

  /** `message`, indexed: the scanning path's message for every integer. */
  method TableMessage(e: Enum, t: array<Option<string>>, lo: int, v: int) returns (m: string)
    requires forall i :: 0 <= i < t.Length ==> t[i] == NameOf(e, lo + i)
    ensures m == ScanMessage(e, v, lo, lo + t.Length - 1)
    ensures DistinctValues(e) && InRange(e, lo, lo + t.Length - 1) ==> m == LinearMessage(e, v)
  {
    ghost var hi := lo + t.Length - 1;
    if DistinctValues(e) && InRange(e, lo, hi) {
      NamesAgreeIff(e, lo, hi);
      assert ScanName(e, v, lo, hi) == NameOf(e, v);
      MessageIsName(e, v);
    }
    if v >= lo && v < lo + t.Length {
      var s := t[v - lo];
      assert s == NameOf(e, v);
      if s.Some? { return s.value; }
    }
    return "unknown error";
  }

  lemma {:induction false} CastBack(e: Enum, i: nat)
    requires DistinctNames(e) && i < |e|
    ensures ValueOf(e, e[i].name) == Some(e[i].value)
    decreases |e|
  {
    if i > 0 { CastBack(e[1..], i - 1); }
  }

  lemma {:induction false} ValueOfHolds(e: Enum, name: string)
    ensures match ValueOf(e, name)
            case None => forall i :: 0 <= i < |e| ==> e[i].name != name
            case Some(v) => Info(v, name) in e
    decreases |e|
  {
    if e != [] && e[0].name != name {
      ValueOfHolds(e[1..], name);
      assert forall i :: 1 <= i < |e| ==> e[i] == e[1..][i - 1];
    }
  }

  lemma {:induction false} ScanFindsName(e: Enum, lo: int, hi: int, name: string, v: int)
    requires DistinctValues(e) && DistinctNames(e) && InRange(e, lo, hi) && lo <= v
    requires forall u :: lo <= u < v ==> NameOf(e, u) != Some(name)
    ensures ScanValue(e, name, v, hi) == ValueOf(e, name)
    decreases hi - v + 1
  {
    ValueOfHolds(e, name);
    if v > hi {
      if ValueOf(e, name).Some? {
        var i :| 0 <= i < |e| && e[i] == Info(ValueOf(e, name).value, name);
        NameOfIsFirst(e, e[i].value);
      }
    } else if NameOf(e, v) == Some(name) {
      NameOfIsFirst(e, v);
      var i :| 0 <= i < |e| && e[i] == Info(v, name);
      CastBack(e, i);
    } else {
      ScanFindsName(e, lo, hi, name, v + 1);
    }
  }

  lemma {:induction false} MessageIsName(e: Enum, v: int)
    requires DistinctValues(e)
    ensures LinearMessage(e, v) == match NameOf(e, v) case None => "unknown error" case Some(n) => n
    decreases |e|
  {
    if e != [] {
      var less, last := e[..|e| - 1], e[|e| - 1];
      MessageIsName(less, v);
      NameOfIsFirst(e, v);
      NameOfIsFirst(less, v);
      if last.value != v && NameOf(less, v).Some? {
        var i :| 0 <= i < |less| && less[i] == Info(v, NameOf(less, v).value);
        assert e[i] == less[i];
      }
    }
  }
}
