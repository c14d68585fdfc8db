/** `result<T, E>`: a hand-managed union and a flag, whose alternatives are built by placement new and
    destroyed by hand, with user constructors and assignments that may throw.

    The program's results live in one memory, keyed by object identity, so self-assignment is the case
    where source and destination are the same key. Constructing over a live alternative, or destroying
    one that is not there, is undefined behaviour in the source; here it is a precondition of the
    primitive steps, so the proof shows it never happens. */
module Transport {

  /** The plain sum type a result stands for. */
  datatype Sum<V, E> = Val(v: V) | Err(e: E)

  /** The union's bytes: no object, a live value, or a live error. */
  datatype Store<V, E> = Raw | HoldsV(v: V) | HoldsE(e: E)

  datatype Cell<V, E> = Cell(has: bool, store: Store<V, E>)

  predicate SameSide<V, E>(a: Sum<V, E>, b: Sum<V, E>) {
    a.Val? <==> b.Val?
  }

  /** What the user's types decide: whether the one throwing step of an operation throws, what a throwing
      assignment leaves in its destination, and what an object holds that was moved from, or that a move
      which threw began to move from. */
  datatype Oracle<V, E> = Oracle(throws: bool, leftV: V, leftE: E, movedV: V, movedE: E)

  /** What an assignment leaves in a destination of the given alternative when it throws. */
  function Left<V, E>(o: Oracle<V, E>, s: Sum<V, E>): Sum<V, E> {
    if s.Val? then Val(o.leftV) else Err(o.leftE)
  }

  function Moved<V, E>(o: Oracle<V, E>, s: Sum<V, E>): Sum<V, E> {
    if s.Val? then Val(o.movedV) else Err(o.movedE)
  }

  /** The operations of the class, by object key. `tmp` is the temporary the source assigns from. */
  datatype Op<V, E> =
    | Make(id: nat, with: Sum<V, E>, o: Oracle<V, E>)
    | CopyMake(id: nat, src: nat, o: Oracle<V, E>)
    | MoveMake(id: nat, src: nat, o: Oracle<V, E>)
    | CopyAssign(id: nat, src: nat, o: Oracle<V, E>)
    | MoveAssign(id: nat, src: nat, o: Oracle<V, E>)
    | AssignFrom(id: nat, tmp: nat, with: Sum<V, E>, build: Oracle<V, E>, o: Oracle<V, E>)
    | Destroy(id: nat)

  /** What the language lets a program ask for: existing objects where one is used, a new one where one
      is made. Nothing forbids `id == src` in an assignment. */
  predicate Legal<V, E>(p: map<nat, Sum<V, E>>, op: Op<V, E>) {
    match op
    case Make(id, _, _) => id !in p
    case CopyMake(id, src, _) => id !in p && src in p
    case MoveMake(id, src, _) => id !in p && src in p
    case CopyAssign(id, src, _) => id in p && src in p
    case MoveAssign(id, src, _) => id in p && src in p
    case AssignFrom(id, tmp, _, _, _) => id in p && tmp !in p
    case Destroy(id) => id in p
  }

  /** Move assignment in the sum-type model. Between alternatives it cannot throw. */
  function MoveInto<V, E>(p: map<nat, Sum<V, E>>, id: nat, src: nat, o: Oracle<V, E>): map<nat, Sum<V, E>>
    requires id in p && src in p
  {
    if SameSide(p[id], p[src]) && o.throws then p[id := Left(o, p[id])][src := Moved(o, p[src])]
    else p[id := p[src]][src := Moved(o, p[src])]
  }

  /** The operations in the sum-type model, where an object just holds a value or an error. */
  function Apply<V, E>(p: map<nat, Sum<V, E>>, op: Op<V, E>): map<nat, Sum<V, E>>
    requires Legal(p, op)
  {
    match op
    case Make(id, with, o) => if o.throws then p else p[id := with]
    case CopyMake(id, src, o) => if o.throws then p else p[id := p[src]]
    case MoveMake(id, src, o) =>
      if o.throws then p[src := Moved(o, p[src])] else p[id := p[src]][src := Moved(o, p[src])]
    case CopyAssign(id, src, o) =>
      if !o.throws then p[id := p[src]]
      else if SameSide(p[id], p[src]) then p[id := Left(o, p[id])]
      else p
    case MoveAssign(id, src, o) => MoveInto(p, id, src, o)
    case AssignFrom(id, tmp, with, build, o) =>
      if build.throws then p else MoveInto(p[tmp := with], id, tmp, o) - {tmp}
    case Destroy(id) => p - {id}
  }

  /** A whole program: operations that are not legal where they stand are not in the program. */
  function ApplyAll<V, E>(p: map<nat, Sum<V, E>>, ops: seq<Op<V, E>>): map<nat, Sum<V, E>>
    decreases |ops|
  {
    if ops == [] then p
    else
      var q := ApplyAll(p, ops[..|ops| - 1]);
      var op := ops[|ops| - 1];
      if Legal(q, op) then Apply(q, op) else q
  }

  // ------------------------------------------------------------ what the operations promise

  /** No object outside `ks` appears, disappears or changes. */
  ghost predicate OnlyChanges<V, E>(p: map<nat, Sum<V, E>>, q: map<nat, Sum<V, E>>, ks: set<nat>) {
    forall k :: k !in ks ==> (k in p <==> k in q) && (k in p ==> q[k] == p[k])
  }

  /** The object is there before and after, with the same alternative. */
  ghost predicate KeepsSide<V, E>(p: map<nat, Sum<V, E>>, q: map<nat, Sum<V, E>>, k: nat) {
    k in p && k in q && SameSide(p[k], q[k])
  }

  ghost predicate Holds<V, E>(q: map<nat, Sum<V, E>>, k: nat, s: Sum<V, E>) {
    k in q && q[k] == s
  }

  /** A move whose one throwing step is the user's own move assignment: between alternatives it goes
      through whatever the oracle says. */
  ghost predicate MovePromise<V, E>(p: map<nat, Sum<V, E>>, id: nat, src: nat, o: Oracle<V, E>, q: map<nat, Sum<V, E>>)
    requires id in p && src in p
  {
    && OnlyChanges(p, q, {id, src}) && KeepsSide(p, q, src)
    && (o.throws && SameSide(p[id], p[src]) ==> KeepsSide(p, q, id))
    && (!(o.throws && SameSide(p[id], p[src])) && id != src ==> Holds(q, id, p[src]))
  }

  /** What an operation promises of the objects before and after it. */
  ghost predicate Promise<V, E>(p: map<nat, Sum<V, E>>, op: Op<V, E>, q: map<nat, Sum<V, E>>)
    requires Legal(p, op)
  {
    match op
    case Make(id, with, o) =>
      OnlyChanges(p, q, {id}) && (if o.throws then id !in q else Holds(q, id, with))
    case CopyMake(id, src, o) =>
      OnlyChanges(p, q, {id}) && (if o.throws then id !in q else Holds(q, id, p[src]))
    case MoveMake(id, src, o) =>
      OnlyChanges(p, q, {id, src}) && KeepsSide(p, q, src) && (if o.throws then id !in q else Holds(q, id, p[src]))
    case CopyAssign(id, src, o) =>
      && OnlyChanges(p, q, {id})
      && (!o.throws ==> Holds(q, id, p[src]))
      && (o.throws && !SameSide(p[id], p[src]) ==> q == p)
      && (o.throws && SameSide(p[id], p[src]) ==> KeepsSide(p, q, id))
    case MoveAssign(id, src, o) => MovePromise(p, id, src, o, q)
    case AssignFrom(id, tmp, with, build, o) =>
      && OnlyChanges(p, q, {id})
      && (build.throws ==> q == p)
      && (!build.throws && o.throws && SameSide(p[id], with) ==> KeepsSide(p, q, id))
      && (!build.throws && !(o.throws && SameSide(p[id], with)) ==> Holds(q, id, with))
    case Destroy(id) => OnlyChanges(p, q, {id}) && id !in q
  }

  /** The sum-type model keeps the promises, with source and destination the same object or not. */
  lemma ApplyKeepsPromise<V, E>(p: map<nat, Sum<V, E>>, op: Op<V, E>)
    requires Legal(p, op)
    ensures Promise(p, op, Apply(p, op))
  {
    if op.AssignFrom? && !op.build.throws {
      var q := MoveInto(p[op.tmp := op.with], op.id, op.tmp, op.o);
      assert op.id in q && forall k :: k in p && k != op.id ==> q[k] == p[k];
    }
  }

  /** The objects an operation needs to find, and the ones it brings into being. */
  function Uses<V, E>(op: Op<V, E>): set<nat> {
    match op
    case Make(_, _, _) => {}
    case CopyMake(_, src, _) => {src}
    case MoveMake(_, src, _) => {src}
    case CopyAssign(id, src, _) => {id, src}
    case MoveAssign(id, src, _) => {id, src}
    case AssignFrom(id, _, _, _, _) => {id}
    case Destroy(id) => {id}
  }

  function Makes<V, E>(op: Op<V, E>): set<nat> {
    match op
    case Make(id, _, _) => {id}
    case CopyMake(id, _, _) => {id}
    case MoveMake(id, _, _) => {id}
    case AssignFrom(_, tmp, _, _, _) => {tmp}
    case _ => {}
  }

  /** An operation is in a program exactly when what it uses is there and what it makes is not; nothing
      keeps source and destination apart. */
  lemma LegalIff<V, E>(p: map<nat, Sum<V, E>>, op: Op<V, E>)
    ensures Legal(p, op) <==> Uses(op) <= p.Keys && Makes(op) !! p.Keys
  {
  }

  /** Over a whole program an object that no operation names stays as it is. */
  lemma {:induction false} UnnamedStays<V, E>(p: map<nat, Sum<V, E>>, ops: seq<Op<V, E>>, k: nat)
    requires forall i :: 0 <= i < |ops| ==> k !in Uses(ops[i]) + Makes(ops[i])
    ensures k in p <==> k in ApplyAll(p, ops)
    ensures k in p ==> ApplyAll(p, ops)[k] == p[k]
    decreases |ops|
  {
    if ops != [] {
      var less, op := ops[..|ops| - 1], ops[|ops| - 1];
      UnnamedStays(p, less, k);
      var q := ApplyAll(p, less);
      if Legal(q, op) {
        ApplyKeepsPromise(q, op);
        assert OnlyChanges(q, Apply(q, op), Uses(op) + Makes(op));
      }
    }
  }

  // ------------------------------------------------------------ counting live objects

  ghost predicate HonestCell<V, E>(c: Cell<V, E>) {
    if c.has then c.store.HoldsV? else c.store.HoldsE?
  }

  ghost function SumOf<V, E>(c: Cell<V, E>): Sum<V, E>
    requires HonestCell(c)
  {
    if c.has then Val(c.store.v) else Err(c.store.e)
  }

  ghost predicate AllHonest<V, E>(cells: map<nat, Cell<V, E>>) {
    forall id :: id in cells ==> HonestCell(cells[id])
  }

  ghost function Abs<V, E>(cells: map<nat, Cell<V, E>>): map<nat, Sum<V, E>>
    requires AllHonest(cells)
  {
    map id | id in cells :: SumOf(cells[id])
  }

  lemma AbsUpdate<V, E>(cells: map<nat, Cell<V, E>>, id: nat, c: Cell<V, E>)
    requires AllHonest(cells) && HonestCell(c)
    ensures AllHonest(cells[id := c]) && Abs(cells[id := c]) == Abs(cells)[id := SumOf(c)]
  {
  }

  ghost function ValueKeys<V, E>(cells: map<nat, Cell<V, E>>): set<nat> {
    set id | id in cells && cells[id].store.HoldsV?
  }

  ghost function ErrorKeys<V, E>(cells: map<nat, Cell<V, E>>): set<nat> {
    set id | id in cells && cells[id].store.HoldsE?
  }

  ghost function CountV<V, E>(cells: map<nat, Cell<V, E>>): nat { |ValueKeys(cells)| }

  ghost function CountE<V, E>(cells: map<nat, Cell<V, E>>): nat { |ErrorKeys(cells)| }

  lemma CountRemove<V, E>(cells: map<nat, Cell<V, E>>, id: nat)
    requires id in cells
    ensures CountV(cells) == CountV(cells - {id}) + (if cells[id].store.HoldsV? then 1 else 0)
    ensures CountE(cells) == CountE(cells - {id}) + (if cells[id].store.HoldsE? then 1 else 0)
  {
    assert ValueKeys(cells - {id}) == ValueKeys(cells) - {id};
    assert ErrorKeys(cells - {id}) == ErrorKeys(cells) - {id};
  }

  lemma CountUpdate<V, E>(cells: map<nat, Cell<V, E>>, id: nat, c: Cell<V, E>)
    ensures CountV(cells[id := c]) == CountV(cells - {id}) + (if c.store.HoldsV? then 1 else 0)
    ensures CountE(cells[id := c]) == CountE(cells - {id}) + (if c.store.HoldsE? then 1 else 0)
  {
    CountRemove(cells[id := c], id);
    assert cells[id := c] - {id} == cells - {id};
  }

  class Memory<V, E> {
    var cells: map<nat, Cell<V, E>>
    ghost var builtV: int          // value objects constructed so far, temporaries included
    ghost var builtE: int
    ghost var goneV: int           // value objects destroyed so far
    ghost var goneE: int

    /** The flag names the alternative that is alive. */
    ghost predicate Honest()
      reads this
    {
      AllHonest(cells)
    }

    ghost function Abstract(): map<nat, Sum<V, E>>
      requires Honest()
      reads this
    {
      Abs(cells)
    }

    /** Every object constructed and not destroyed is the live alternative of some result, apart from
        `extraV` and `extraE` locals of the operation under way. */
    ghost predicate Balanced(extraV: int, extraE: int)
      reads this
    {
      builtV - goneV == CountV(cells) + extraV && builtE - goneE == CountE(cells) + extraE
    }

    ghost predicate Valid()
      reads this
    {
      Honest() && Balanced(0, 0)
    }

    constructor ()
      ensures Valid() && cells == map[]
    {
      cells := map[];
      builtV, builtE, goneV, goneE := 0, 0, 0, 0;
    }

    method SetCell(id: nat, c: Cell<V, E>)
      modifies this
      ensures cells == old(cells)[id := c]
      ensures CountV(cells) == CountV(old(cells) - {id}) + (if c.store.HoldsV? then 1 else 0)
      ensures CountE(cells) == CountE(old(cells) - {id}) + (if c.store.HoldsE? then 1 else 0)
      ensures id in old(cells) ==>
                && CountV(old(cells)) == CountV(old(cells) - {id}) + (if old(cells)[id].store.HoldsV? then 1 else 0)
                && CountE(old(cells)) == CountE(old(cells) - {id}) + (if old(cells)[id].store.HoldsE? then 1 else 0)
      ensures id !in old(cells) ==> old(cells) - {id} == old(cells)
      ensures builtV == old(builtV) && builtE == old(builtE) && goneV == old(goneV) && goneE == old(goneE)
    {
      CountUpdate(cells, id, c);
      if id in cells { CountRemove(cells, id); }
      cells := cells[id := c];
    }

    // ------------------------------------------------------------ primitive steps

    /** Placement new of one alternative into raw storage of an existing cell. */
    method Place(id: nat, s: Sum<V, E>, ghost xv: int, ghost xe: int)
      requires id in cells && cells[id].store.Raw? && Balanced(xv, xe)
      modifies this
      ensures cells == old(cells)[id := old(cells)[id].(store := if s.Val? then HoldsV(s.v) else HoldsE(s.e))]
      ensures Balanced(xv, xe)
    {
      SetCell(id, cells[id].(store := if s.Val? then HoldsV(s.v) else HoldsE(s.e)));
      if s.Val? { builtV := builtV + 1; } else { builtE := builtE + 1; }
    }

    /** `destroy`: the explicit destructor call of the alternative the flag names. */
    method DestroyAlternative(id: nat, ghost xv: int, ghost xe: int)
      requires id in cells && Balanced(xv, xe) && HonestCell(cells[id])
      modifies this
      ensures cells == old(cells)[id := old(cells)[id].(store := Raw)]
      ensures Balanced(xv, xe)
    {
      var has := cells[id].has;
      SetCell(id, cells[id].(store := Raw));
      if has { goneV := goneV + 1; } else { goneE := goneE + 1; }
    }

    /** Raw storage for a new result. */
    method Reserve(id: nat, has: bool)
      requires id !in cells && Balanced(0, 0)
      modifies this
      ensures cells == old(cells)[id := Cell(has, Raw)] && Balanced(0, 0)
    {
      SetCell(id, Cell(has, Raw));
    }

    /** The end of a result whose alternative is gone, or was never built. */
    method Release(id: nat)
      requires id in cells && cells[id].store.Raw? && Balanced(0, 0)
      modifies this
      ensures cells == old(cells) - {id} && Balanced(0, 0)
    {
      CountRemove(cells, id);
      cells := cells - {id};
    }

    /** Overwrite the live alternative with another object of the same alternative: a user assignment,
        or what a move leaves behind. */
    method Overwrite(id: nat, s: Sum<V, E>, ghost xv: int, ghost xe: int)
      requires Honest() && Balanced(xv, xe) && id in cells && (cells[id].has <==> s.Val?)
      modifies this
      ensures Honest() && Balanced(xv, xe) && Abstract() == old(Abstract())[id := s]
      ensures cells.Keys == old(cells.Keys)
      ensures forall i :: i in cells ==> cells[i].has == old(cells)[i].has
    {
      assert HonestCell(cells[id]);
      SetCell(id, cells[id].(store := if s.Val? then HoldsV(s.v) else HoldsE(s.e)));
      AbsUpdate(old(cells), id, cells[id]);
    }

    method Read(id: nat) returns (s: Sum<V, E>)
      requires Honest() && id in cells
      ensures s == Abstract()[id]
    {
      assert HonestCell(cells[id]);
      s := if cells[id].has then Val(cells[id].store.v) else Err(cells[id].store.e);
    }

    // ------------------------------------------------------------ the class's operations

    /** The constructors: the flag is set first, then the alternative is built; if that throws there is
        no object. */
    method Construct(id: nat, s: Sum<V, E>, throws: bool)
      requires Valid() && id !in cells
      modifies this
      ensures Valid()
      ensures Abstract() == if throws then old(Abstract()) else old(Abstract())[id := s]
    {
      Reserve(id, s.Val?);
      if throws {
        Release(id);
        assert cells == old(cells);
        return;
      }
      Place(id, s, 0, 0);
      assert cells == old(cells)[id := cells[id]];
      AbsUpdate(old(cells), id, cells[id]);
    }

    /** The destructor. */
    method Drop(id: nat)
      requires Valid() && id in cells
      modifies this
      ensures Valid() && Abstract() == old(Abstract()) - {id}
    {
      DestroyAlternative(id, 0, 0);
      Release(id);
    }

    /** The cross-state half of both `assign_from`s, once the incoming local exists: destroy the old
        alternative, build the new one by a move that cannot throw, then flip the flag. */
    method Switch(id: nat, incoming: Sum<V, E>)
      requires id in cells && (cells[id].has <==> incoming.Err?) && Honest()
      requires Balanced(if incoming.Val? then 1 else 0, if incoming.Err? then 1 else 0)
      modifies this
      ensures Valid() && Abstract() == old(Abstract())[id := incoming]
    {
      ghost var xv, xe := if incoming.Val? then 1 else 0, if incoming.Err? then 1 else 0;
      assert HonestCell(cells[id]);
      DestroyAlternative(id, xv, xe);
      Place(id, incoming, xv, xe);
      SetCell(id, cells[id].(has := incoming.Val?));
      assert cells == old(cells)[id := cells[id]] && HonestCell(cells[id]);
      AbsUpdate(old(cells), id, cells[id]);
      // the moved-from local dies at the end of the block
      if incoming.Val? { goneV := goneV + 1; } else { goneE := goneE + 1; }
    }

    /** `assign_from(const result&)`, with `id == src` allowed. */
    method AssignCopy(id: nat, src: nat, o: Oracle<V, E>)
      requires Valid() && id in cells && src in cells
      modifies this
      ensures Valid()
      ensures Abstract() == Apply(old(Abstract()), CopyAssign(id, src, o))
      ensures Promise(old(Abstract()), CopyAssign(id, src, o), Abstract())
    {
      ApplyKeepsPromise(Abstract(), CopyAssign(id, src, o));
      var s := Read(src);
      var d := Read(id);
      if cells[id].has && cells[src].has {
        Overwrite(id, if o.throws then Left(o, d) else s, 0, 0);
      } else if !cells[id].has && !cells[src].has {
        Overwrite(id, if o.throws then Left(o, d) else s, 0, 0);
      } else {
        if o.throws { return; }            // the copy into the local threw; nothing was touched
        if s.Val? { builtV := builtV + 1; } else { builtE := builtE + 1; }
        Switch(id, s);
      }
    }

    /** `assign_from(result&&)`, with `id == src` allowed. */
    method AssignMove(id: nat, src: nat, o: Oracle<V, E>)
      requires Valid() && id in cells && src in cells
      modifies this
      ensures Valid()
      ensures Abstract() == MoveInto(old(Abstract()), id, src, o)
      ensures Promise(old(Abstract()), MoveAssign(id, src, o), Abstract())
    {
      ApplyKeepsPromise(Abstract(), MoveAssign(id, src, o));
      var s := Read(src);
      var d := Read(id);
      if cells[id].has == cells[src].has {
        Overwrite(id, if o.throws then Left(o, d) else s, 0, 0);
        Overwrite(src, Moved(o, s), 0, 0);
      } else {
        MoveAcross(id, src, s, Moved(o, s));
      }
    }

    /** Its cross-state half: the incoming local is moved out of the source first. */
    method MoveAcross(id: nat, src: nat, s: Sum<V, E>, after: Sum<V, E>)
      requires Valid() && id in cells && src in cells && s == Abstract()[src] && SameSide(s, after)
      requires cells[id].has != cells[src].has
      modifies this
      ensures Valid() && Abstract() == old(Abstract())[src := after][id := s]
    {
      assert HonestCell(cells[src]);
      if s.Val? { builtV := builtV + 1; } else { builtE := builtE + 1; }
      Overwrite(src, after, if s.Val? then 1 else 0, if s.Err? then 1 else 0);
      Switch(id, s);
    }

    /** Assigning a bare value or failure: build a temporary, move-assign from it, destroy it. The
        temporary dies on the throwing path too. */
    method AssignBare(id: nat, tmp: nat, s: Sum<V, E>, build: Oracle<V, E>, o: Oracle<V, E>)
      requires Valid() && id in cells && tmp !in cells
      modifies this
      ensures Valid()
      ensures Abstract() == Apply(old(Abstract()), AssignFrom(id, tmp, s, build, o))
      ensures Promise(old(Abstract()), AssignFrom(id, tmp, s, build, o), Abstract())
    {
      ApplyKeepsPromise(Abstract(), AssignFrom(id, tmp, s, build, o));
      Construct(tmp, s, build.throws);
      if build.throws { return; }
      assert tmp in Abstract() && id in Abstract();
      AssignMove(id, tmp, o);
      assert tmp in Abstract();
      Drop(tmp);
    }

    /** One operation of a program. */
    method Do(op: Op<V, E>)
      requires Valid() && Legal(Abstract(), op)
      modifies this
      ensures Valid() && Abstract() == Apply(old(Abstract()), op)
      ensures Promise(old(Abstract()), op, Abstract())
    {
      ApplyKeepsPromise(Abstract(), op);
      match op {
        case Make(id, with, o) => Construct(id, with, o.throws);
        case CopyMake(id, src, o) =>
          var s := Read(src);
          Construct(id, s, o.throws);
        case MoveMake(id, src, o) =>
          var s := Read(src);
          Construct(id, s, o.throws);
          assert src in Abstract();
          Overwrite(src, Moved(o, s), 0, 0);
        case CopyAssign(id, src, o) => AssignCopy(id, src, o);
        case MoveAssign(id, src, o) => AssignMove(id, src, o);
        case AssignFrom(id, tmp, with, build, o) => AssignBare(id, tmp, with, build, o);
        case Destroy(id) => Drop(id);
      }
    }

    /** Over any program, with anything throwing that may: every result holds the alternative its flag
        names, objects built and destroyed balance, and the contents are those of the sum-type model. */
    method Program(ops: seq<Op<V, E>>)
      requires Valid() && cells == map[]
      modifies this
      ensures Valid() && Abstract() == ApplyAll(map[], ops)
      ensures cells == map[] ==> builtV == goneV && builtE == goneE
    {
      var i := 0;
      while i < |ops|
        invariant 0 <= i <= |ops|
        invariant Valid() && Abstract() == ApplyAll(map[], ops[..i])
      {
        assert ops[..i + 1][..i] == ops[..i];
        var legal := Check(ops[i]);
        if legal { Do(ops[i]); }
        i := i + 1;
      }
      assert ops[..i] == ops;
    }

    method Check(op: Op<V, E>) returns (legal: bool)
      requires Honest()
      ensures legal == Legal(Abstract(), op)
    {
      match op {
        case Make(id, _, _) => legal := id !in cells;
        case CopyMake(id, src, _) => legal := id !in cells && src in cells;
        case MoveMake(id, src, _) => legal := id !in cells && src in cells;
        case CopyAssign(id, src, _) => legal := id in cells && src in cells;
        case MoveAssign(id, src, _) => legal := id in cells && src in cells;
        case AssignFrom(id, tmp, _, _, _) => legal := id in cells && tmp !in cells;
        case Destroy(id) => legal := id in cells;
      }
    }
  }
}
