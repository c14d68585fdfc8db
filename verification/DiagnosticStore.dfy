/** The out-of-band diagnostic store: a fixed arena of 16 records with marks, truncation, bounded hop
    chains and a wrapping 32-bit handle counter, against an unbounded stack of failure histories. */
module DiagnosticStore {
  import opened Wrappers

  const MAX_CHAIN: nat := 16
  const MAX_INFLIGHT: nat := 16
  const TWO_TO_THE_32: nat := 0x1_0000_0000

  /** The number of distinct handles: every 32-bit value but 0. */
  const PERIOD: nat := 0xFFFF_FFFF

  /** A source location. */
  type Loc = nat

  datatype Record = Record(id: nat, origin: Loc, hops: seq<Loc>, truncated: bool)

  // ------------------------------------------------------------ the arena

  /** The records in use, oldest first, and the next handle. */
  datatype Arena = Arena(records: seq<Record>, nextId: nat)

  /** The 32-bit increment that skips 0. */
  function Bump(id: nat): nat {
    var n := (id + 1) % TWO_TO_THE_32;
    if n == 0 then 1 else n
  }

  function OpenRecord(a: Arena, origin: Loc): Arena {
    if |a.records| >= MAX_INFLIGHT then a.(nextId := Bump(a.nextId))
    else Arena(a.records + [Record(a.nextId, origin, [], false)], Bump(a.nextId))
  }

  /** The newest record with the handle. */
  function FindRecord(records: seq<Record>, id: nat): (r: Option<nat>)
    ensures r.Some? ==> r.value < |records| && records[r.value].id == id
  {
    if records == [] then None
    else if records[|records| - 1].id == id then Some(|records| - 1)
    else FindRecord(records[..|records| - 1], id)
  }

  /** `find`: handle 0 means no record. */
  function Find(a: Arena, id: nat): Option<nat> {
    if id == 0 then None else FindRecord(a.records, id)
  }

  function Hopped(r: Record, loc: Loc): Record {
    if |r.hops| >= MAX_CHAIN then r.(truncated := true) else r.(hops := r.hops + [loc])
  }

  function AddHop(a: Arena, id: nat, loc: Loc): Arena {
    match Find(a, id)
    case None => a
    case Some(i) => if i < |a.records| then a.(records := a.records[i := Hopped(a.records[i], loc)]) else a
  }

  function Truncate(a: Arena, mark: int): Arena {
    if 0 <= mark < |a.records| then a.(records := a.records[..mark]) else a
  }

  // ------------------------------------------------------------ the store object

  class Store {
    const records: array<Record>
    var depth: nat
    var nextId: nat

    ghost predicate Valid()
      reads this
    {
      records.Length == MAX_INFLIGHT && depth <= MAX_INFLIGHT && 0 < nextId < TWO_TO_THE_32
    }

    ghost function View(): Arena
      requires Valid()
      reads this, records
    {
      Arena(records[..depth], nextId)
    }

    constructor ()
      ensures Valid() && View() == Arena([], 1) && fresh(records)
    {
      records := new Record[MAX_INFLIGHT](_ => Record(0, 0, [], false));
      depth, nextId := 0, 1;
    }

    method Open(origin: Loc) returns (id: nat)
      requires Valid()
      modifies this, records
      ensures Valid() && View() == OpenRecord(old(View()), origin)
      ensures id == old(nextId) && id != 0 && nextId == if id == 0xFFFF_FFFF then 1 else id + 1
      ensures View().records == if |old(View()).records| < 16 then old(View()).records + [Record(id, origin, [], false)]
                                else old(View()).records
    {
      id := nextId;
      nextId := (nextId + 1) % TWO_TO_THE_32;
      if nextId == 0 { nextId := 1; }
      if depth >= MAX_INFLIGHT { return; }
      records[depth] := Record(id, origin, [], false);
      depth := depth + 1;
    }

    /** The backward scan; a slot at or above the depth is never found. */
    method FindSlot(id: nat) returns (slot: int)
      requires Valid()
      ensures slot == match Find(View(), id) case None => -1 case Some(i) => i as int
      ensures slot == -1 || (0 <= slot < |View().records| && id != 0 && View().records[slot].id == id)
      ensures id != 0 ==> forall k :: slot < k < |View().records| && 0 <= k ==> View().records[k].id != id
    {
      if id == 0 { return -1; }
      var i := depth - 1;
      while i >= 0
        invariant -1 <= i < depth
        invariant forall k :: i < k < depth ==> records[k].id != id
        invariant FindRecord(records[..depth], id) == FindRecord(records[..i + 1], id)
      {
        if records[i].id == id { return i; }
        assert records[..i + 1][..i] == records[..i];
        i := i - 1;
      }
      return -1;
    }

    method Hop(id: nat, loc: Loc)
      requires Valid()
      modifies records
      ensures Valid() && View() == AddHop(old(View()), id, loc)
      ensures |View().records| == |old(View()).records| && View().nextId == old(View()).nextId
      ensures forall k :: 0 <= k < |View().records| && View().records[k] != old(View()).records[k] ==>
                var r := old(View()).records[k];
                r.id == id && View().records[k] == if |r.hops| < 16 then r.(hops := r.hops + [loc]) else r.(truncated := true)
    {
      var slot := FindSlot(id);
      if slot < 0 { return; }
      if |records[slot].hops| >= MAX_CHAIN {
        records[slot] := records[slot].(truncated := true);
        return;
      }
      records[slot] := records[slot].(hops := records[slot].hops + [loc]);
    }

    method Mark() returns (m: nat)
      requires Valid()
      ensures m == |View().records|
    {
      m := depth;
    }

    /** A mark at or above the depth changes nothing. */
    method TruncateTo(mark: int)
      requires Valid()
      modifies this
      ensures Valid() && View() == Truncate(old(View()), mark)
      ensures nextId == old(nextId)
      ensures View().records == if 0 <= mark < |old(View()).records| then old(View()).records[..mark]
                                else old(View()).records
    {
      if mark >= 0 && mark < depth { depth := mark; }
      assert 0 <= mark < old(depth) ==> records[..depth] == old(records[..depth])[..mark];
    }
  }

  // ------------------------------------------------------------ handles

  /** The handle of the n-th failure opened, counting from 0. */
  function Handle(n: nat): (h: nat)
    ensures 0 < h < TWO_TO_THE_32
  {
    1 + n % PERIOD
  }

  /** Issuing handles one after the other walks through them all and starts again. */
  lemma HandlesFollow(n: nat)
    ensures Bump(Handle(n)) == Handle(n + 1)
  {
    var q, r := n / PERIOD, n % PERIOD;
    assert n + 1 == q * PERIOD + (r + 1);
    if r + 1 == PERIOD {
      ModUnique(n + 1, q + 1, 0);
    } else {
      ModUnique(n + 1, q, r + 1);
    }
  }

  lemma ModUnique(x: nat, q: nat, r: nat)
    requires r < PERIOD && x == q * PERIOD + r
    ensures x % PERIOD == r
  {
  }

  /** Two failures share a handle exactly when a multiple of 2^32 - 1 opens lies between them. */
  lemma HandlesCollideIff(a: nat, b: nat)
    requires a <= b
    ensures Handle(a) == Handle(b) <==> (b - a) % 0xFFFF_FFFF == 0
  {
    var qa, ra, qb, rb := a / PERIOD, a % PERIOD, b / PERIOD, b % PERIOD;
    if ra == rb {
      ModUnique(b - a, qb - qa, 0);
    } else if ra < rb {
      ModUnique(b - a, qb - qa, rb - ra);
    } else {
      ModUnique(b - a, qb - qa - 1, PERIOD + rb - ra);
    }
  }

  /** The failures number `m` and `n` have the same handle. */
  predicate Alias(m: nat, n: nat) {
    (m - n) % 0xFFFF_FFFF == 0
  }

  lemma AliasIff(m: nat, n: nat)
    ensures Handle(m) == Handle(n) <==> Alias(m, n)
  {
    if m <= n { HandlesCollideIff(m, n); } else { HandlesCollideIff(n, m); }
  }

  lemma DistinctWithinPeriod(a: nat, b: nat)
    requires a != b && a < b + PERIOD && b < a + PERIOD
    ensures Handle(a) != Handle(b) && !Alias(a, b)
  {
    AliasIff(a, b);
    if a < b { HandlesCollideIff(a, b); } else { HandlesCollideIff(b, a); }
  }

  // ------------------------------------------------------------ histories without bounds

  /** One failure: its number, its origin, every site it went through, and whether the arena had room. */
  datatype Entry = Entry(serial: nat, origin: Loc, hops: seq<Loc>, stored: bool)

  datatype Op = Open(loc: Loc) | Hop(serial: nat, loc: Loc) | Enter | Exit

  /** The failures whose landing is still open, oldest first; the open landings; failures so far. */
  datatype Ideal = Ideal(live: seq<Entry>, marks: seq<nat>, count: nat)

  function Room(live: seq<Entry>): nat {
    if live == [] then 0 else Room(live[..|live| - 1]) + (if live[|live| - 1].stored then 1 else 0)
  }

  function HopAll(live: seq<Entry>, n: nat, loc: Loc): (r: seq<Entry>)
    ensures |r| == |live|
    ensures forall i :: 0 <= i < |r| ==>
              r[i] == if live[i].serial == n then live[i].(hops := live[i].hops + [loc]) else live[i]
  {
    seq(|live|, i requires 0 <= i < |live| =>
      if live[i].serial == n then live[i].(hops := live[i].hops + [loc]) else live[i])
  }

  function StepIdeal(s: Ideal, op: Op): Ideal {
    match op
    case Open(loc) =>
      s.(live := s.live + [Entry(s.count, loc, [], Room(s.live) < 16)], count := s.count + 1)
    case Hop(n, loc) => s.(live := HopAll(s.live, n, loc))
    case Enter => s.(marks := s.marks + [|s.live|])
    case Exit =>
      if s.marks == [] then s
      else
        var m := s.marks[|s.marks| - 1];
        s.(live := if m <= |s.live| then s.live[..m] else s.live, marks := s.marks[..|s.marks| - 1])
  }

  /** The same operations on the arena; `marks` are the marks held by the landing objects. */
  datatype Conc = Conc(arena: Arena, marks: seq<nat>)

  function StepConc(c: Conc, op: Op): Conc {
    match op
    case Open(loc) => c.(arena := OpenRecord(c.arena, loc))
    case Hop(n, loc) => c.(arena := AddHop(c.arena, Handle(n), loc))
    case Enter => c.(marks := c.marks + [|c.arena.records|])
    case Exit =>
      if c.marks == [] then c
      else Conc(Truncate(c.arena, c.marks[|c.marks| - 1]), c.marks[..|c.marks| - 1])
  }

  function RunIdeal(s: Ideal, ops: seq<Op>): Ideal
    decreases |ops|
  {
    if ops == [] then s else RunIdeal(StepIdeal(s, ops[0]), ops[1..])
  }

  function RunConc(c: Conc, ops: seq<Op>): Conc
    decreases |ops|
  {
    if ops == [] then c else RunConc(StepConc(c, ops[0]), ops[1..])
  }

  // ------------------------------------------------------------ refinement

  /** What the arena keeps of a history: the first 16 sites, and whether there were more. */
  function Shadow(e: Entry): Record {
    Record(Handle(e.serial), e.origin, if |e.hops| <= 16 then e.hops else e.hops[..16], |e.hops| > 16)
  }

  function Shadows(live: seq<Entry>): (r: seq<Record>)
    ensures |r| == Room(live)
  {
    if live == [] then []
    else
      var last := live[|live| - 1];
      Shadows(live[..|live| - 1]) + (if last.stored then [Shadow(last)] else [])
  }

  ghost predicate Numbered(live: seq<Entry>, count: nat) {
    && (forall i :: 0 <= i < |live| ==> live[i].serial < count)
    && (forall i, j :: 0 <= i < j < |live| ==> live[i].serial < live[j].serial)
  }

  ghost predicate Refines(c: Conc, s: Ideal) {
    && c.arena.records == Shadows(s.live) && |c.arena.records| <= MAX_INFLIGHT
    && c.arena.nextId == Handle(s.count)
    && Numbered(s.live, s.count)
    && |c.marks| == |s.marks|
    && (forall i :: 0 <= i < |s.marks| ==>
          s.marks[i] <= |s.live| && c.marks[i] == Room(s.live[..s.marks[i]]))
    && (forall i, j :: 0 <= i < j < |s.marks| ==> s.marks[i] <= s.marks[j])
  }

  lemma {:induction false} ShadowsPrefix(live: seq<Entry>, m: nat)
    requires m <= |live|
    ensures Room(live[..m]) <= Room(live)
    ensures Shadows(live)[..Room(live[..m])] == Shadows(live[..m])
    decreases |live|
  {
    if m < |live| {
      ShadowsPrefix(live[..|live| - 1], m);
      assert live[..|live| - 1][..m] == live[..m];
    } else {
      assert live[..m] == live;
    }
  }

  lemma ShadowsSplit(live: seq<Entry>)
    requires live != []
    ensures var less, last := live[..|live| - 1], live[|live| - 1];
            if last.stored then
              Shadows(live) == Shadows(less) + [Shadow(last)] && Shadows(live)[..|Shadows(live)| - 1] == Shadows(less)
            else Shadows(live) == Shadows(less)
  {
  }

  /** The hop on the newest record with the handle, written over the records. */
  function HopRecords(records: seq<Record>, id: nat, loc: Loc): seq<Record> {
    if records == [] then []
    else
      var less, last := records[..|records| - 1], records[|records| - 1];
      if last.id == id then less + [Hopped(last, loc)] else HopRecords(less, id, loc) + [last]
  }

  lemma UpdateInFront(less: seq<Record>, i: nat, r: Record, last: Record)
    requires i < |less|
    ensures (less + [last])[i := r] == less[i := r] + [last]
  {
  }

  lemma {:induction false} HopRecordsUpdates(records: seq<Record>, id: nat, loc: Loc)
    ensures var i := FindRecord(records, id);
            HopRecords(records, id, loc) ==
            if i.None? then records else records[i.value := Hopped(records[i.value], loc)]
    decreases |records|
  {
    if records != [] {
      var less, last := records[..|records| - 1], records[|records| - 1];
      assert records == less + [last];
      if last.id != id {
        HopRecordsUpdates(less, id, loc);
        var i := FindRecord(less, id);
        if i.Some? { UpdateInFront(less, i.value, Hopped(less[i.value], loc), last); }
      }
    }
  }

  lemma ShadowsSnoc(less: seq<Entry>, last: Entry)
    ensures Shadows(less + [last]) == if last.stored then Shadows(less) + [Shadow(last)] else Shadows(less)
  {
    assert (less + [last])[..|less|] == less;
  }

  lemma HopRecordsSnoc(less: seq<Record>, last: Record, id: nat, loc: Loc)
    ensures HopRecords(less + [last], id, loc) ==
            if last.id == id then less + [Hopped(last, loc)] else HopRecords(less, id, loc) + [last]
  {
    assert (less + [last])[..|less|] == less;
  }

  lemma HopShadow(e: Entry, loc: Loc)
    ensures Shadow(e.(hops := e.hops + [loc])) == Hopped(Shadow(e), loc)
  {
    if |e.hops| >= MAX_CHAIN {
      assert (e.hops + [loc])[..MAX_CHAIN] == e.hops[..MAX_CHAIN];
      assert |e.hops| == MAX_CHAIN ==> e.hops[..MAX_CHAIN] == e.hops;
    }
  }

  lemma OpenKeepsRefinement(c: Conc, s: Ideal, loc: Loc)
    requires Refines(c, s)
    ensures Refines(StepConc(c, Open(loc)), StepIdeal(s, Open(loc)))
  {
    var s' := StepIdeal(s, Open(loc));
    assert s'.live[..|s.live|] == s.live;
    HandlesFollow(s.count);
    forall i | 0 <= i < |s.marks| ensures s'.live[..s.marks[i]] == s.live[..s.marks[i]] {}
  }

  // ------------------------------------------------------------ which record a handle reaches

  /** The newest stored live failure that has the handle of failure `n`. */
  function Newest(live: seq<Entry>, n: nat): (r: Option<nat>)
    ensures r.Some? ==> r.value < |live| && live[r.value].stored
    decreases |live|
  {
    if live == [] then None
    else
      var last := live[|live| - 1];
      if last.stored && Alias(last.serial, n) then Some(|live| - 1) else Newest(live[..|live| - 1], n)
  }

  /** Failure `n` itself, if it is live and the arena had room for it. */
  function Own(live: seq<Entry>, n: nat): (r: Option<nat>)
    ensures r.Some? ==> r.value < |live| && live[r.value].stored && live[r.value].serial == n
    ensures r.None? ==> forall i :: 0 <= i < |live| && live[i].stored ==> live[i].serial != n
    decreases |live|
  {
    if live == [] then None
    else
      var last := live[|live| - 1];
      if last.stored && last.serial == n then Some(|live| - 1) else Own(live[..|live| - 1], n)
  }

  /** The slot of the arena in which a stored failure lies. */
  function Slot(live: seq<Entry>, j: Option<nat>): Option<nat>
    requires j.Some? ==> j.value < |live|
  {
    if j.Some? then Some(Room(live[..j.value])) else None
  }

  /** No other stored live failure stands in for `n`: none has its handle, or `n` is there itself and is
      newer than all that have. */
  ghost predicate NoAlias(live: seq<Entry>, n: nat) {
    forall i :: 0 <= i < |live| && live[i].stored && Alias(live[i].serial, n) ==>
      live[i].serial == n || (Own(live, n).Some? && live[i].serial < n)
  }

  lemma {:induction false} NewestIsLast(live: seq<Entry>, n: nat)
    ensures var j := Newest(live, n);
            && (j.Some? ==> Alias(live[j.value].serial, n))
            && (forall i :: 0 <= i < |live| && live[i].stored && Alias(live[i].serial, n) ==> j.Some? && i <= j.value)
    decreases |live|
  {
    if live != [] {
      var less := live[..|live| - 1];
      NewestIsLast(less, n);
      assert forall i :: 0 <= i < |less| ==> less[i] == live[i];
    }
  }

  /** The handle reaches its own failure, or nothing when that is not there, exactly when no alias is. */
  lemma OwnIffNoAlias(live: seq<Entry>, n: nat, count: nat)
    requires Numbered(live, count)
    ensures Newest(live, n) == Own(live, n) <==> NoAlias(live, n)
  {
    NewestIsLast(live, n);
    var j, o := Newest(live, n), Own(live, n);
    if o.Some? { assert Alias(live[o.value].serial, n); }
    if NoAlias(live, n) && j.Some? && live[j.value].serial != n { assert o.value <= j.value; }
  }

  lemma {:induction false} SlotHolds(live: seq<Entry>, j: nat)
    requires j < |live| && live[j].stored
    ensures Room(live[..j]) < |Shadows(live)| && Shadows(live)[Room(live[..j])] == Shadow(live[j])
  {
    ShadowsPrefix(live, j + 1);
    var front := live[..j + 1];
    assert front[..j] == live[..j] && front[j] == live[j];
    ShadowsSplit(front);
    assert Shadows(front)[Room(live[..j])] == Shadow(live[j]);
  }

  /** The scan finds the newest failure with the handle, whatever came before. */
  lemma {:induction false} FindsNewest(live: seq<Entry>, n: nat)
    ensures FindRecord(Shadows(live), Handle(n)) == Slot(live, Newest(live, n))
    decreases |live|
  {
    if live != [] {
      var less, last := live[..|live| - 1], live[|live| - 1];
      FindsNewest(less, n);
      AliasIff(last.serial, n);
      ShadowsSplit(live);
      FindRecordSnoc(Shadows(less), Shadow(last), Handle(n));
      SlotInFront(live, Newest(less, n));
    }
  }

  lemma FindRecordSnoc(less: seq<Record>, last: Record, id: nat)
    ensures FindRecord(less + [last], id) == if last.id == id then Some(|less|) else FindRecord(less, id)
  {
    assert (less + [last])[..|less|] == less;
  }

  lemma SlotInFront(live: seq<Entry>, j: Option<nat>)
    requires live != [] && (j.Some? ==> j.value < |live| - 1)
    ensures Slot(live[..|live| - 1], j) == Slot(live, j)
  {
    if j.Some? { assert live[..|live| - 1][..j.value] == live[..j.value]; }
  }

  /** A hop on one entry. */
  function HopAt(live: seq<Entry>, j: Option<nat>, loc: Loc): seq<Entry>
    requires j.Some? ==> j.value < |live|
  {
    if j.None? then live else live[j.value := live[j.value].(hops := live[j.value].hops + [loc])]
  }

  lemma {:induction false} HopReachesNewest(live: seq<Entry>, n: nat, loc: Loc)
    ensures HopRecords(Shadows(live), Handle(n), loc) == Shadows(HopAt(live, Newest(live, n), loc))
    decreases |live|
  {
    if live != [] {
      var less, last := live[..|live| - 1], live[|live| - 1];
      assert live == less + [last];
      HopReachesNewest(less, n, loc);
      AliasIff(last.serial, n);
      if last.stored && Alias(last.serial, n) {
        HopOnLast(less, last, n, loc);
      } else {
        HopBelowLast(less, last, n, loc, Newest(less, n));
      }
    }
  }

  lemma HopOnLast(less: seq<Entry>, last: Entry, n: nat, loc: Loc)
    requires last.stored && Handle(last.serial) == Handle(n)
    ensures HopRecords(Shadows(less + [last]), Handle(n), loc) == Shadows(HopAt(less + [last], Some(|less|), loc))
  {
    var hopped := last.(hops := last.hops + [loc]);
    ShadowsSnoc(less, last);
    HopRecordsSnoc(Shadows(less), Shadow(last), Handle(n), loc);
    HopShadow(last, loc);
    assert HopAt(less + [last], Some(|less|), loc) == less + [hopped];
    ShadowsSnoc(less, hopped);
  }

  lemma HopBelowLast(less: seq<Entry>, last: Entry, n: nat, loc: Loc, j: Option<nat>)
    requires last.stored ==> Handle(last.serial) != Handle(n)
    requires (j.Some? ==> j.value < |less|) && HopRecords(Shadows(less), Handle(n), loc) == Shadows(HopAt(less, j, loc))
    ensures HopRecords(Shadows(less + [last]), Handle(n), loc) == Shadows(HopAt(less + [last], j, loc))
  {
    ShadowsSnoc(less, last);
    if last.stored { HopRecordsSnoc(Shadows(less), Shadow(last), Handle(n), loc); }
    assert HopAt(less + [last], j, loc) == HopAt(less, j, loc) + [last];
    ShadowsSnoc(HopAt(less, j, loc), last);
  }

  /** The record already has its 16 sites and the truncation mark, so one more changes nothing. */
  predicate Saturated(e: Entry) {
    |e.hops| > 16
  }

  lemma HopShowsUnlessSaturated(e: Entry, loc: Loc)
    ensures Shadow(e.(hops := e.hops + [loc])) == Shadow(e) <==> Saturated(e)
  {
    HopShadow(e, loc);
    assert |Shadow(e).hops| < MAX_CHAIN ==> |Hopped(Shadow(e), loc).hops| > |Shadow(e).hops|;
  }

  ghost predicate SameStored(x: seq<Entry>, y: seq<Entry>)
    requires |x| == |y|
  {
    forall i :: 0 <= i < |x| && x[i].stored ==> Shadow(x[i]) == Shadow(y[i])
  }

  lemma {:induction false} SameShadowsIff(x: seq<Entry>, y: seq<Entry>)
    requires |x| == |y| && forall i :: 0 <= i < |x| ==> x[i].stored == y[i].stored
    ensures Shadows(x) == Shadows(y) <==> SameStored(x, y)
    decreases |x|
  {
    if x != [] {
      var x', y', a, b := x[..|x| - 1], y[..|y| - 1], x[|x| - 1], y[|y| - 1];
      SameShadowsIff(x', y');
      SameRoom(x', y');
      ShadowsSplit(x);
      ShadowsSplit(y);
      if a.stored { LastApart(Shadows(x'), Shadow(a), Shadows(y'), Shadow(b)); }
      SameStoredSplit(x, y);
    }
  }

  lemma SameStoredSplit(x: seq<Entry>, y: seq<Entry>)
    requires |x| == |y| > 0
    ensures var k := |x| - 1;
            SameStored(x, y) <==> SameStored(x[..k], y[..k]) && (x[k].stored ==> Shadow(x[k]) == Shadow(y[k]))
  {
    var k := |x| - 1;
    assert forall i :: 0 <= i < k ==> x[..k][i] == x[i] && y[..k][i] == y[i];
  }

  lemma {:induction false} SameRoom(x: seq<Entry>, y: seq<Entry>)
    requires |x| == |y| && forall i :: 0 <= i < |x| ==> x[i].stored == y[i].stored
    ensures Room(x) == Room(y)
    decreases |x|
  {
    if x != [] { SameRoom(x[..|x| - 1], y[..|y| - 1]); }
  }

  lemma LastApart(s: seq<Record>, a: Record, t: seq<Record>, b: Record)
    requires |s| == |t|
    ensures s + [a] == t + [b] <==> s == t && a == b
  {
    if s + [a] == t + [b] {
      assert (s + [a])[..|s|] == s && (t + [b])[..|t|] == t;
      assert (s + [a])[|s|] == a && (t + [b])[|t|] == b;
    }
  }

  /** A hop on failure `n` shows in the arena as it does in the histories: no alias stands in for `n`, or
      neither the alias nor `n` has a record that could still change. */
  ghost predicate GoodHop(live: seq<Entry>, n: nat) {
    || NoAlias(live, n)
    || forall j :: 0 <= j < |live| && (Newest(live, n) == Some(j) || Own(live, n) == Some(j)) ==> Saturated(live[j])
  }

  /** The same, entry by entry. */
  ghost predicate EntriesAgree(live: seq<Entry>, o: Option<nat>, j: Option<nat>) {
    forall i :: 0 <= i < |live| && live[i].stored ==> (o == Some(i) <==> j == Some(i)) || Saturated(live[i])
  }

  lemma GoodHopIff(live: seq<Entry>, n: nat, count: nat)
    requires Numbered(live, count)
    ensures GoodHop(live, n) <==> EntriesAgree(live, Own(live, n), Newest(live, n))
  {
    OwnIffNoAlias(live, n, count);
  }

  lemma HopShowsAt(live: seq<Entry>, n: nat, loc: Loc, j: Option<nat>, i: nat, count: nat)
    requires Numbered(live, count) && i < |live| && live[i].stored && (j.Some? ==> j.value < |live|)
    ensures Shadow(HopAll(live, n, loc)[i]) == Shadow(HopAt(live, j, loc)[i]) <==>
            (Own(live, n) == Some(i) <==> j == Some(i)) || Saturated(live[i])
  {
    HopShowsUnlessSaturated(live[i], loc);
    OwnIsAt(live, n, i, count);
  }

  lemma EntriesAgreeIff(live: seq<Entry>, n: nat, loc: Loc, j: Option<nat>, count: nat)
    requires Numbered(live, count) && (j.Some? ==> j.value < |live|)
    ensures Shadows(HopAll(live, n, loc)) == Shadows(HopAt(live, j, loc)) <==> EntriesAgree(live, Own(live, n), j)
  {
    var x, y := HopAll(live, n, loc), HopAt(live, j, loc);
    SameShadowsIff(x, y);
    forall i | 0 <= i < |live| && live[i].stored
      ensures Shadow(x[i]) == Shadow(y[i]) <==> (Own(live, n) == Some(i) <==> j == Some(i)) || Saturated(live[i])
    {
      HopShowsAt(live, n, loc, j, i, count);
    }
    AgreeEntryByEntry(live, x, y, Own(live, n), j);
  }

  lemma AgreeEntryByEntry(live: seq<Entry>, x: seq<Entry>, y: seq<Entry>, o: Option<nat>, j: Option<nat>)
    requires |x| == |y| == |live| && forall i :: 0 <= i < |x| ==> x[i].stored == live[i].stored
    requires forall i :: 0 <= i < |live| && live[i].stored ==>
               (Shadow(x[i]) == Shadow(y[i]) <==> (o == Some(i) <==> j == Some(i)) || Saturated(live[i]))
    ensures SameStored(x, y) <==> EntriesAgree(live, o, j)
  {
  }

  /** A hop in the arena is a hop on that failure's own history, and on no other, exactly when it is a
      good one. */
  lemma HopRefinesIff(live: seq<Entry>, n: nat, loc: Loc, count: nat)
    requires Numbered(live, count)
    ensures Shadows(HopAll(live, n, loc)) == HopRecords(Shadows(live), Handle(n), loc) <==> GoodHop(live, n)
  {
    HopReachesNewest(live, n, loc);
    EntriesAgreeIff(live, n, loc, Newest(live, n), count);
    GoodHopIff(live, n, count);
  }

  lemma OwnIsAt(live: seq<Entry>, n: nat, i: nat, count: nat)
    requires Numbered(live, count) && i < |live| && live[i].stored
    ensures Own(live, n) == Some(i) <==> live[i].serial == n
  {
  }

  /** When only hops changed, the two states agree exactly when the records do. */
  lemma OnlyHopsChanged(c: Conc, s: Ideal, records: seq<Record>, live: seq<Entry>)
    requires Refines(c, s) && |records| == |c.arena.records| && |live| == |s.live|
    requires forall i :: 0 <= i < |live| ==> live[i].serial == s.live[i].serial && live[i].stored == s.live[i].stored
    ensures Refines(c.(arena := c.arena.(records := records)), s.(live := live)) <==> records == Shadows(live)
  {
    forall i | 0 <= i < |s.marks| ensures Room(live[..s.marks[i]]) == Room(s.live[..s.marks[i]]) {
      SameRoom(live[..s.marks[i]], s.live[..s.marks[i]]);
    }
  }

  /** One hop keeps the arena in step with the histories exactly when it is a good one. */
  lemma HopKeepsRefinementIff(c: Conc, s: Ideal, n: nat, loc: Loc)
    requires Refines(c, s)
    ensures Refines(StepConc(c, Hop(n, loc)), StepIdeal(s, Hop(n, loc))) <==> GoodHop(s.live, n)
  {
    HopRefinesIff(s.live, n, loc, s.count);
    HopOnArena(c.arena, n, loc);
    OnlyHopsChanged(c, s, HopRecords(c.arena.records, Handle(n), loc), HopAll(s.live, n, loc));
  }

  lemma HopOnArena(a: Arena, n: nat, loc: Loc)
    ensures AddHop(a, Handle(n), loc) == a.(records := HopRecords(a.records, Handle(n), loc))
    ensures |HopRecords(a.records, Handle(n), loc)| == |a.records|
  {
    HopRecordsUpdates(a.records, Handle(n), loc);
  }

  /** Leaving a landing releases exactly what was opened since it was entered. */
  lemma ExitKeepsRefinement(c: Conc, s: Ideal)
    requires Refines(c, s)
    ensures Refines(StepConc(c, Exit), StepIdeal(s, Exit))
  {
    if s.marks != [] {
      var last := |s.marks| - 1;
      ShadowsPrefix(s.live, s.marks[last]);
      TruncateToMark(c.arena.records, s.live, s.marks[last]);
      forall i | 0 <= i < last
        ensures s.live[..s.marks[last]][..s.marks[i]] == s.live[..s.marks[i]]
      {
        assert s.marks[i] <= s.marks[last];
      }
    }
  }

  lemma TruncateToMark(records: seq<Record>, live: seq<Entry>, m: nat)
    requires records == Shadows(live) && m <= |live|
    ensures Truncate(Arena(records, 0), Room(live[..m])).records == Shadows(live[..m])
  {
    ShadowsPrefix(live, m);
    assert records[..|records|] == records;
  }

  lemma EnterKeepsRefinement(c: Conc, s: Ideal)
    requires Refines(c, s)
    ensures Refines(StepConc(c, Enter), StepIdeal(s, Enter))
  {
    assert s.live[..|s.live|] == s.live;
  }

  /** Every hop of the run is a good one, where it stands. */
  ghost predicate GoodHops(s: Ideal, ops: seq<Op>)
    decreases |ops|
  {
    ops == [] || ((ops[0].Hop? ==> GoodHop(s.live, ops[0].serial)) && GoodHops(StepIdeal(s, ops[0]), ops[1..]))
  }

  lemma StepKeepsRefinementIff(c: Conc, s: Ideal, op: Op)
    requires Refines(c, s)
    ensures Refines(StepConc(c, op), StepIdeal(s, op)) <==> (op.Hop? ==> GoodHop(s.live, op.serial))
  {
    match op
    case Open(loc) => OpenKeepsRefinement(c, s, loc);
    case Hop(n, loc) => HopKeepsRefinementIff(c, s, n, loc);
    case Enter => EnterKeepsRefinement(c, s);
    case Exit => ExitKeepsRefinement(c, s);
  }

  /** The arena and the histories agree at every moment of the run. */
  ghost predicate AgreeThroughout(c: Conc, s: Ideal, ops: seq<Op>)
    decreases |ops|
  {
    Refines(c, s) && (ops == [] || AgreeThroughout(StepConc(c, ops[0]), StepIdeal(s, ops[0]), ops[1..]))
  }

  /** Over every run of opens, hops and landings the arena agrees with the unbounded histories at every
      moment exactly when every hop is a good one where it stands. */
  lemma {:induction false} ArenaRefinesHistories(c: Conc, s: Ideal, ops: seq<Op>)
    requires Refines(c, s)
    ensures AgreeThroughout(c, s, ops) <==> GoodHops(s, ops)
    ensures GoodHops(s, ops) ==> Refines(RunConc(c, ops), RunIdeal(s, ops))
    decreases |ops|
  {
    if ops != [] {
      StepKeepsRefinementIff(c, s, ops[0]);
      var c', s' := StepConc(c, ops[0]), StepIdeal(s, ops[0]);
      if Refines(c', s') { ArenaRefinesHistories(c', s', ops[1..]); }
    }
  }

  // ------------------------------------------------------------ every run, aliases included

  /** The histories as the arena really records them: a hop goes to whichever live failure has the handle
      and is newest. */
  function StepRecorded(s: Ideal, op: Op): Ideal {
    match op
    case Hop(n, loc) => s.(live := HopAt(s.live, Newest(s.live, n), loc))
    case _ => StepIdeal(s, op)
  }

  function RunRecorded(s: Ideal, ops: seq<Op>): Ideal
    decreases |ops|
  {
    if ops == [] then s else RunRecorded(StepRecorded(s, ops[0]), ops[1..])
  }

  lemma RecordedHop(c: Conc, s: Ideal, n: nat, loc: Loc)
    requires Refines(c, s)
    ensures Refines(StepConc(c, Hop(n, loc)), StepRecorded(s, Hop(n, loc)))
  {
    HopReachesNewest(s.live, n, loc);
    HopOnArena(c.arena, n, loc);
    OnlyHopsChanged(c, s, HopRecords(c.arena.records, Handle(n), loc), HopAt(s.live, Newest(s.live, n), loc));
  }

  /** Without any condition on the run. */
  lemma {:induction false} ArenaRefinesRecorded(c: Conc, s: Ideal, ops: seq<Op>)
    requires Refines(c, s)
    ensures Refines(RunConc(c, ops), RunRecorded(s, ops))
    decreases |ops|
  {
    if ops != [] {
      var op := ops[0];
      if op.Hop? { RecordedHop(c, s, op.serial, op.loc); } else { StepKeepsRefinementIff(c, s, op); }
      ArenaRefinesRecorded(StepConc(c, op), StepRecorded(s, op), ops[1..]);
    }
  }

  /** The same failures are live in both, hops aside. */
  ghost predicate SameButHops(s: Ideal, t: Ideal) {
    && s.marks == t.marks && s.count == t.count && |s.live| == |t.live|
    && forall i :: 0 <= i < |s.live| ==> s.live[i].(hops := []) == t.live[i].(hops := [])
  }

  lemma {:induction false} HopsChangeNothingElse(s: Ideal, t: Ideal, ops: seq<Op>)
    requires SameButHops(s, t)
    ensures SameButHops(RunRecorded(s, ops), RunIdeal(t, ops))
    decreases |ops|
  {
    if ops != [] {
      SameRoom(s.live, t.live);
      HopsChangeNothingElse(StepRecorded(s, ops[0]), StepIdeal(t, ops[0]), ops[1..]);
    }
  }

  lemma {:induction false} NewestIgnoresHops(x: seq<Entry>, y: seq<Entry>, n: nat)
    requires |x| == |y| && forall i :: 0 <= i < |x| ==> x[i].(hops := []) == y[i].(hops := [])
    ensures Newest(x, n) == Newest(y, n) && Slot(x, Newest(x, n)) == Slot(y, Newest(y, n))
    decreases |x|
  {
    if x != [] {
      assert x[|x| - 1].(hops := []) == y[|y| - 1].(hops := []);
      NewestIgnoresHops(x[..|x| - 1], y[..|y| - 1], n);
      var j := Newest(x, n);
      if j.Some? { SameRoom(x[..j.value], y[..j.value]); }
    }
  }

  const FRESH: Conc := Conc(Arena([], 1), [])
  const NOTHING: Ideal := Ideal([], [], 0)

  lemma FreshRefines()
    ensures Refines(FRESH, NOTHING)
  {
  }

  /** After every run whatever, a handle reaches the slot of the newest stored live failure that has it;
      this is its own failure, or nothing when that was not stored or its landing is closed, exactly when
      no alias stands in for it. */
  lemma HandleResolvesIff(ops: seq<Op>, n: nat, s: Ideal, c: Conc)
    requires s == RunIdeal(NOTHING, ops) && c == RunConc(FRESH, ops)
    ensures Find(c.arena, Handle(n)) == Slot(s.live, Newest(s.live, n))
    ensures Find(c.arena, Handle(n)) == Slot(s.live, Own(s.live, n)) <==> NoAlias(s.live, n)
  {
    var r := RunRecorded(NOTHING, ops);
    FreshRefines();
    ArenaRefinesRecorded(FRESH, NOTHING, ops);
    HopsChangeNothingElse(NOTHING, NOTHING, ops);
    FindsNewest(r.live, n);
    NewestIgnoresHops(r.live, s.live, n);
    SerialsCarryOver(r, s);
    OwnIffNoAlias(s.live, n, s.count);
    SlotsApart(s.live, Newest(s.live, n), Own(s.live, n));
  }

  lemma SerialsCarryOver(r: Ideal, s: Ideal)
    requires SameButHops(r, s) && Numbered(r.live, r.count)
    ensures Numbered(s.live, s.count)
  {
    assert forall i :: 0 <= i < |s.live| ==> r.live[i].(hops := []).serial == s.live[i].serial;
  }

  lemma SlotsApart(live: seq<Entry>, a: Option<nat>, b: Option<nat>)
    requires a.Some? ==> a.value < |live| && live[a.value].stored
    requires b.Some? ==> b.value < |live| && live[b.value].stored
    ensures Slot(live, a) == Slot(live, b) <==> a == b
  {
    if a.Some? && b.Some? {
      if a.value < b.value { RoomGrows(live, a.value, b.value); }
      if b.value < a.value { RoomGrows(live, b.value, a.value); }
    }
  }

  lemma RoomGrows(live: seq<Entry>, i: nat, j: nat)
    requires i < j <= |live| && live[i].stored
    ensures Room(live[..i]) < Room(live[..j])
  {
    assert live[..i + 1][..i] == live[..i];
    ShadowsPrefix(live[..j], i + 1);
    assert live[..j][..i + 1] == live[..i + 1];
  }

  /** When the hops were good as well, the record reached is the whole history of the failure reached. */
  lemma HandleShowsHistory(ops: seq<Op>, n: nat)
    requires GoodHops(NOTHING, ops)
    ensures var live := RunIdeal(NOTHING, ops).live;
            var a := RunConc(FRESH, ops).arena;
            match Newest(live, n)
            case None => Find(a, Handle(n)).None?
            case Some(j) => Find(a, Handle(n)).Some? && a.records[Find(a, Handle(n)).value] == Shadow(live[j])
  {
    var live := RunIdeal(NOTHING, ops).live;
    FreshRefines();
    ArenaRefinesHistories(FRESH, NOTHING, ops);
    FindsNewest(live, n);
    var j := Newest(live, n);
    if j.Some? { SlotHolds(live, j.value); }
  }

  // ------------------------------------------------------------ a window a caller can check

  /** Fewer than 2^32 - 1 opens lie between the newest failure and each live one, and the one named. */
  ghost predicate InWindow(s: Ideal, n: nat) {
    && n < s.count <= n + PERIOD
    && forall i :: 0 <= i < |s.live| ==> s.count <= s.live[i].serial + PERIOD
  }

  /** Inside the window nothing is an alias of anything, so every hop is good and every handle its own. */
  lemma WindowSuffices(s: Ideal, n: nat)
    requires Numbered(s.live, s.count) && InWindow(s, n)
    ensures NoAlias(s.live, n) && GoodHop(s.live, n)
  {
    forall i | 0 <= i < |s.live| && s.live[i].serial != n ensures !Alias(s.live[i].serial, n) {
      DistinctWithinPeriod(s.live[i].serial, n);
    }
  }

  function Opens(ops: seq<Op>): nat {
    if ops == [] then 0 else (if ops[0].Open? then 1 else 0) + Opens(ops[1..])
  }

  /** Every hop names a failure that was opened before it. */
  ghost predicate NamesOpened(count: nat, ops: seq<Op>)
    decreases |ops|
  {
    ops == [] || ((ops[0].Hop? ==> ops[0].serial < count)
                  && NamesOpened(count + (if ops[0].Open? then 1 else 0), ops[1..]))
  }

  /** A run that opens no more than 2^32 - 1 failures has good hops only, and no aliases at its end. */
  lemma {:induction false} ShortRunsAreGood(s: Ideal, ops: seq<Op>, n: nat)
    requires Numbered(s.live, s.count) && s.count + Opens(ops) <= 0xFFFF_FFFF && NamesOpened(s.count, ops)
    ensures GoodHops(s, ops)
    ensures n < RunIdeal(s, ops).count ==> NoAlias(RunIdeal(s, ops).live, n)
    decreases |ops|
  {
    if ops == [] {
      if n < s.count { WindowSuffices(s, n); }
    } else {
      if ops[0].Hop? { WindowSuffices(s, ops[0].serial); }
      ShortRunsAreGood(StepIdeal(s, ops[0]), ops[1..], n);
    }
  }

  // ------------------------------------------------------------ where the window ends

  lemma {:induction false} RunConcAppend(c: Conc, a: seq<Op>, b: seq<Op>)
    ensures RunConc(c, a + b) == RunConc(RunConc(c, a), b)
    decreases |a|
  {
    if a == [] {
      assert a + b == b;
    } else {
      assert (a + b)[1..] == a[1..] + b;
      RunConcAppend(StepConc(c, a[0]), a[1..], b);
    }
  }

  /** Failures that come and go, each in a landing of its own. */
  function Churn(times: nat): seq<Op> {
    if times == 0 then [] else [Enter, Open(0), Exit] + Churn(times - 1)
  }

  lemma {:induction false} ChurnOnlyCounts(c: Conc, n: nat, times: nat)
    requires |c.arena.records| < MAX_INFLIGHT && c.arena.nextId == Handle(n)
    ensures RunConc(c, Churn(times)) == c.(arena := c.arena.(nextId := Handle(n + times)))
    decreases times
  {
    if times > 0 {
      var step := [Enter, Open(0), Exit];
      var c' := c.(arena := c.arena.(nextId := Handle(n + 1)));
      HandlesFollow(n);
      OneChurn(c, n);
      ChurnOnlyCounts(c', n + 1, times - 1);
      RunConcAppend(c, step, Churn(times - 1));
    }
  }

  lemma OneChurn(c: Conc, n: nat)
    requires |c.arena.records| < MAX_INFLIGHT && c.arena.nextId == Handle(n)
    ensures RunConc(c, [Enter, Open(0), Exit]) == c.(arena := c.arena.(nextId := Handle(n + 1)))
  {
    HandlesFollow(n);
    var ops := [Enter, Open(0), Exit];
    var c1 := StepConc(c, Enter);
    var c2 := StepConc(c1, Open(0));
    var c3 := StepConc(c2, Exit);
    assert c2.arena.records[..|c.arena.records|] == c.arena.records;
    assert c1.marks[..|c.marks|] == c.marks;
    assert ops[1..] == [Open(0), Exit] && ops[1..][1..] == [Exit] && ops[1..][1..][1..] == [];
    assert RunConc(c2, [Exit]) == RunConc(c3, []);
  }

  /** Outside the window the promise fails, whatever the two sites: a record that stays live while
      2^32 - 2 failures come and go above it shares its handle with the next one, and its handle then
      resolves to that other failure. */
  lemma WindowIsNeeded(first: Loc, second: Loc, between: nat)
    requires between + 1 == 0xFFFF_FFFF
    ensures var a := RunConc(FRESH, [Open(first)] + Churn(between) + [Open(second)]).arena;
            && a.records == [Record(Handle(0), first, [], false), Record(Handle(0), second, [], false)]
            && Find(a, Handle(0)) == Some(1)
    ensures forall m :: 0 < m < PERIOD ==> Handle(m) != Handle(0)
  {
    var c1 := StepConc(FRESH, Open(first));
    HandlesFollow(0);
    assert RunConc(FRESH, [Open(first)]) == RunConc(c1, []);
    ChurnOnlyCounts(c1, 1, between);
    var c2 := RunConc(c1, Churn(between));
    HandlesCollideIff(0, PERIOD);
    RunConcAppend(FRESH, [Open(first)], Churn(between));
    RunConcAppend(FRESH, [Open(first)] + Churn(between), [Open(second)]);
    assert RunConc(c2, [Open(second)]) == RunConc(StepConc(c2, Open(second)), []);
    forall m | 0 < m < PERIOD ensures Handle(m) != Handle(0) { DistinctWithinPeriod(m, 0); }
  }
}
