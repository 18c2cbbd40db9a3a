/**
 * The override table as a value: the canonical root aggregate, one append-only
 * stack of superseded values per field path, and the operations the table
 * class performs on them (read, write, override, overridden).
 *
 * This is the reference definition the class `SwiftProtected.PropertyTable`
 * is proved against, and the place where the properties that relate several
 * operations (stacks only grow, a super index keeps resolving to the value it
 * captured, a read sees the last value assigned) are proved.
 */
module OverrideTable {

  /** An opaque, stable, comparable identifier of one stored property of the root. */
  type Path = string

  /** The identity of a stored closure (a computed getter or setter). */
  type ClosureId = nat

  /**
   * What a root property holds: a plain value, a getter closure `() -> Value`
   * or a setter closure `(Value) -> Void`. The constructor stands for the
   * property's static type: a key path only ever carries values of one kind.
   */
  datatype Field<V> =
    | Stored(value: V)
    | Getter(getter: ClosureId)
    | Setter(setter: ClosureId)

  /** Two fields have the same static type. */
  predicate SameKind<V>(a: Field<V>, b: Field<V>) {
    match a
    case Stored(_) => b.Stored?
    case Getter(_) => b.Getter?
    case Setter(_) => b.Setter?
  }

  /**
   * The table's state: the root type's writable key paths, the canonical
   * root value (one field per path) and the override stacks.
   */
  datatype Table<V> = Table(
    writable: set<Path>,
    canonical: map<Path, Field<V>>,
    stacks: map<Path, seq<Field<V>>>)

  /**
   * Well-formedness: only writable paths get stacks, and every superseded
   * value on a path's stack has that path's type (so the cast on retrieval
   * cannot fail).
   */
  ghost predicate Valid<V>(t: Table<V>) {
    && t.writable <= t.canonical.Keys
    && t.stacks.Keys <= t.writable
    && forall p, i :: p in t.stacks && 0 <= i < |t.stacks[p]| ==> SameKind(t.stacks[p][i], t.canonical[p])
  }

  /** The canonical field at `p`. */
  function Read<V>(t: Table<V>, p: Path): Field<V>
    requires p in t.canonical
  {
    t.canonical[p]
  }

  /** The override stack of `p`; a path that was never overridden has none, which reads as empty. */
  function Stack<V>(t: Table<V>, p: Path): seq<Field<V>> {
    if p in t.stacks then t.stacks[p] else []
  }

  /** `v` may be stored through a writable key path to `p`. */
  predicate Fits<V>(t: Table<V>, v: Field<V>, p: Path) {
    p in t.writable && p in t.canonical && SameKind(v, t.canonical[p])
  }

  /** Replaces the canonical field at `p`. */
  function Write<V>(t: Table<V>, v: Field<V>, p: Path): (t': Table<V>)
    requires Valid(t) && Fits(t, v, p)
    ensures Valid(t')
    ensures t'.writable == t.writable && t'.canonical.Keys == t.canonical.Keys
    ensures Read(t', p) == v
    ensures forall q :: q in t.canonical && q != p ==> t'.canonical[q] == t.canonical[q]
    ensures t'.stacks == t.stacks
  {
    t.(canonical := t.canonical[p := v])
  }

  /**
   * Pushes the current canonical field at `p` onto `p`'s stack (creating the
   * stack if absent), installs `v`, and returns the new entry's index.
   */
  function Override<V>(t: Table<V>, v: Field<V>, p: Path): (r: (Table<V>, nat))
    requires Valid(t) && Fits(t, v, p)
    ensures Valid(r.0)
    ensures r.1 == |Stack(t, p)|
    ensures Stack(r.0, p) == Stack(t, p) + [Read(t, p)]
    ensures Read(r.0, p) == v
    ensures r.0.writable == t.writable && r.0.canonical.Keys == t.canonical.Keys
    ensures forall q :: q in t.canonical && q != p ==> r.0.canonical[q] == t.canonical[q]
    ensures forall q :: q != p ==> Stack(r.0, q) == Stack(t, q)
  {
    var stack := Stack(t, p) + [t.canonical[p]];
    (Table(t.writable, t.canonical[p := v], t.stacks[p := stack]), |stack| - 1)
  }

  /** Entry `i` of `p`'s stack; it always has `p`'s type. */
  function Overridden<V>(t: Table<V>, p: Path, i: nat): (f: Field<V>)
    requires p in t.stacks && i < |t.stacks[p]|
    ensures Valid(t) ==> SameKind(f, Read(t, p))
  {
    t.stacks[p][i]
  }

  /*
   * Histories. Reads are functions of the state, so a history is the
   * sequence of the state-changing calls.
   */

  datatype Op<V> =
    | WriteOp(value: Field<V>, path: Path)
    | OverrideOp(value: Field<V>, path: Path)

  function Step<V>(t: Table<V>, op: Op<V>): (t': Table<V>)
    requires Valid(t) && Fits(t, op.value, op.path)
    ensures Valid(t')
  {
    match op
    case WriteOp(v, p) => Write(t, v, p)
    case OverrideOp(v, p) => Override(t, v, p).0
  }

  /** Every call of the history is well-typed in the state it meets. */
  ghost predicate Runnable<V>(t: Table<V>, ops: seq<Op<V>>)
    decreases |ops|
  {
    Valid(t) && (ops == [] || (Fits(t, ops[0].value, ops[0].path) && Runnable(Step(t, ops[0]), ops[1..])))
  }

  /** The state after performing the history `ops` on `t`. */
  function Run<V>(t: Table<V>, ops: seq<Op<V>>): Table<V>
    requires Runnable(t, ops)
    decreases |ops|
  {
    if ops == [] then t else Run(Step(t, ops[0]), ops[1..])
  }

  /** The number of overrides of `p` in `ops`. */
  function OverrideCount<V>(ops: seq<Op<V>>, p: Path): nat {
    if ops == [] then 0
    else (if ops[0].OverrideOp? && ops[0].path == p then 1 else 0) + OverrideCount(ops[1..], p)
  }

  /** The value last assigned to `p` by `ops` (by write or override), or `current` if none. */
  function LastAssigned<V>(ops: seq<Op<V>>, p: Path, current: Field<V>): Field<V> {
    if ops == [] then current
    else LastAssigned(ops[1..], p, if ops[0].path == p then ops[0].value else current)
  }

  /*
   * Properties.
   */

  /**
   * Stacks only grow: whatever a history does, each path's old stack is a
   * prefix of its new one, which is longer by exactly the number of
   * overrides of that path.
   */
  lemma {:induction false} StacksOnlyGrow<V>(t: Table<V>, ops: seq<Op<V>>, p: Path)
    requires Runnable(t, ops)
    ensures Stack(t, p) <= Stack(Run(t, ops), p)
    ensures |Stack(Run(t, ops), p)| == |Stack(t, p)| + OverrideCount(ops, p)
    decreases |ops|
  {
    if ops != [] {
      var t1 := Step(t, ops[0]);
      StacksOnlyGrow(t1, ops[1..], p);
    }
  }

  /**
   * A super index handed out by `Override` keeps resolving to the value that
   * was canonical just before that override, under any later history.
   */
  lemma SuperIndexKeepsResolving<V>(t: Table<V>, v: Field<V>, p: Path, ops: seq<Op<V>>)
    requires Valid(t) && Fits(t, v, p)
    requires Runnable(Override(t, v, p).0, ops)
    ensures var (t1, i) := Override(t, v, p);
            p in Run(t1, ops).stacks && i < |Run(t1, ops).stacks[p]| &&
            Overridden(Run(t1, ops), p, i) == Read(t, p)
  {
    var (t1, i) := Override(t, v, p);
    StacksOnlyGrow(t1, ops, p);
    assert Stack(t1, p)[i] == Read(t, p);
    assert Stack(Run(t1, ops), p)[i] == Read(t, p);
  }

  /** After any history, `read(p)` is the value last assigned to `p`, or the initial one. */
  lemma {:induction false} ReadIsLastAssigned<V>(t: Table<V>, ops: seq<Op<V>>, p: Path)
    requires Runnable(t, ops) && p in t.canonical
    ensures p in Run(t, ops).canonical
    ensures Read(Run(t, ops), p) == LastAssigned(ops, p, Read(t, p))
    decreases |ops|
  {
    if ops != [] {
      var t1 := Step(t, ops[0]);
      ReadIsLastAssigned(t1, ops[1..], p);
    }
  }

  /**
   * Two overrides of a fresh path: the first returns 0 and the second 1;
   * entry 0 is the value canonical before the first, entry 1 the first
   * override's value, and the canonical value is the second's.
   */
  lemma TwoOverrides<V>(t: Table<V>, p: Path, v1: Field<V>, v2: Field<V>)
    requires Valid(t) && Fits(t, v1, p) && Fits(t, v2, p) && p !in t.stacks
    ensures var (t1, i1) := Override(t, v1, p);
            Fits(t1, v2, p) &&
            var (t2, i2) := Override(t1, v2, p);
            && i1 == 0 && i2 == 1
            && p in t2.stacks && |t2.stacks[p]| == 2
            && Overridden(t2, p, 0) == Read(t, p)
            && Overridden(t2, p, 1) == v1
            && Read(t2, p) == v2
  {
  }
}
