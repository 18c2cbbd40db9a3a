/**
 * The override table class and the field handles that route every access
 * through it. Each class keeps the source's own fields; each mutating method
 * is proved against the reference operations of module `OverrideTable`.
 *
 * Swift's reflection over the owning instance is replaced by an explicit
 * instance: a sequence of layers (the instance's own stored properties first,
 * then those of each superclass in turn), each a sequence of members.
 */
module SwiftProtected {

  import opened Wrappers
  import opened OverrideTable

  /** One call of a stored setter closure: which closure, with which argument. */
  datatype Invocation<V> = Invocation(setter: ClosureId, argument: V)

  /**
   * A stored property of the owning instance as the reflection walk sees it:
   * a handle of one of the seven kinds, or anything else (which the cast to a
   * handle of this root rejects).
   */
  datatype Member<V> =
    | Plain
    | AsProtected(protected: Protected<V>)
    | AsProtectedGet(protectedGet: ProtectedGet<V>)
    | AsOverrideGet(overrideGet: ProtectedOverrideGet<V>)
    | AsComputed(computed: ProtectedPropertyComputed<V>)
    | AsComputedGet(computedGet: ProtectedPropertyComputedGet<V>)
    | AsComputedOverride(computedOverride: ProtectedPropertyComputedOverride<V>)
    | AsComputedOverrideGet(computedOverrideGet: ProtectedPropertyComputedOverrideGet<V>)
  {
    predicate IsHandle() {
      !Plain?
    }

    /** The handle object, if any. */
    function Handle(): set<object> {
      match this
      case Plain => {}
      case AsProtected(h) => {h}
      case AsProtectedGet(h) => {h}
      case AsOverrideGet(h) => {h}
      case AsComputed(h) => {h}
      case AsComputedGet(h) => {h}
      case AsComputedOverride(h) => {h}
      case AsComputedOverrideGet(h) => {h}
    }

    /** The handle's table reference. */
    function BoundTable(): PropertyTable?<V>
      reads Handle()
    {
      match this
      case Plain => null
      case AsProtected(h) => h.table
      case AsProtectedGet(h) => h.table
      case AsOverrideGet(h) => h.table
      case AsComputed(h) => h.table
      case AsComputedGet(h) => h.table
      case AsComputedOverride(h) => h.table
      case AsComputedOverrideGet(h) => h.table
    }

    /** The handle's override state: its one-shot flag and its captured super indices. */
    function Marks(): (bool, Option<nat>, Option<nat>)
      reads Handle()
    {
      match this
      case AsOverrideGet(h) => (h.didOverride, h.superIndex, None)
      case AsComputedOverride(h) => (h.didOverride, h.superGetIndex, h.superSetIndex)
      case AsComputedOverrideGet(h) => (h.didOverride, h.superIndex, None)
      case _ => (false, None, None)
    }
  }

  type Layer<V> = seq<Member<V>>

  /** An object has one class, so two members that share a handle object are the same member. */
  lemma SameHandleSameMember<V>(m: Member<V>, n: Member<V>)
    requires !(m.Handle() !! n.Handle())
    ensures m == n
  {
  }

  /** The handle objects found in layers `from` onwards. */
  ghost function Handles<V>(instance: seq<Layer<V>>, from: nat): set<object> {
    set l, i, o | from <= l < |instance| && 0 <= i < |instance[l]| && o in instance[l][i].Handle() :: o
  }

  /** Every handle in layers `from` onwards refers to table `t`. */
  ghost predicate BoundFrom<V>(instance: seq<Layer<V>>, from: nat, t: PropertyTable<V>)
    reads Handles(instance, from)
  {
    forall l, i :: from <= l < |instance| && 0 <= i < |instance[l]| && instance[l][i].IsHandle() ==>
      instance[l][i].BoundTable() == t
  }

  /** The table of one root aggregate. */
  class PropertyTable<V> {

    /** The root type's stored properties, and those of them with a writable key path. */
    const fields: set<Path>
    const writable: set<Path>

    /** The canonical root value. */
    var staticTable: map<Path, Field<V>>

    /** The override stacks, one per overridden path. */
    var virtualTable: map<Path, seq<Field<V>>>

    /** Set once linking has run. */
    var isCemented: bool

    function State(): Table<V>
      reads this
    {
      Table(writable, staticTable, virtualTable)
    }

    ghost predicate Valid()
      reads this
    {
      OverrideTable.Valid(State()) && staticTable.Keys == fields
    }

    /**
     * Takes the root value and the owning instance, and links every handle
     * found on the instance's layers to the new table.
     */
    constructor (root: map<Path, Field<V>>, writable: set<Path>, instance: seq<Layer<V>>)
      requires writable <= root.Keys
      requires |instance| > 0
      modifies Handles(instance, 0)
      ensures Valid() && fields == root.Keys && this.writable == writable
      ensures staticTable == root && virtualTable == map[] && isCemented
      ensures BoundFrom(instance, 0, this)
      ensures forall l, i :: 0 <= l < |instance| && 0 <= i < |instance[l]| ==>
        instance[l][i].Marks() == old(instance[l][i].Marks())
    {
      fields := root.Keys;
      this.writable := writable;
      staticTable := root;
      virtualTable := map[];
      isCemented := false;
      new;
      Solidify(instance);
    }

    /** The canonical root value. */
    function WrappedValue(): (root: map<Path, Field<V>>)
      reads this
      requires Valid()
      ensures root.Keys == fields
      ensures forall p :: p in writable ==> p in root
    {
      staticTable
    }

    /** Links the instance's handles, the first time only. */
    method Solidify(instance: seq<Layer<V>>)
      requires |instance| > 0
      modifies this`isCemented, Handles(instance, 0)
      ensures isCemented
      ensures old(isCemented) ==> unchanged(Handles(instance, 0))
      ensures !old(isCemented) ==> BoundFrom(instance, 0, this)
      ensures forall l, i :: 0 <= l < |instance| && 0 <= i < |instance[l]| ==>
        instance[l][i].Marks() == old(instance[l][i].Marks())
    {
      if isCemented {
        return;
      }
      isCemented := true;
      MirrorAndLink(instance, 0);
    }

    /**
     * Links the handles of layer `k`, then continues with the superclass
     * layer `k + 1` if there is one. Linking assigns table references only,
     * and only ever this table.
     */
    method MirrorAndLink(instance: seq<Layer<V>>, k: nat)
      requires k < |instance|
      modifies Handles(instance, k)
      ensures BoundFrom(instance, k, this)
      ensures forall l, i :: 0 <= l < |instance| && 0 <= i < |instance[l]| ==>
        instance[l][i].Marks() == old(instance[l][i].Marks()) &&
        (instance[l][i].BoundTable() == old(instance[l][i].BoundTable()) || instance[l][i].BoundTable() == this)
      decreases |instance| - k
    {
      var layer := instance[k];
      var j := 0;
      while j < |layer|
        invariant 0 <= j <= |layer|
        invariant forall i :: 0 <= i < j && layer[i].IsHandle() ==> layer[i].BoundTable() == this
        invariant forall l, i :: 0 <= l < |instance| && 0 <= i < |instance[l]| ==>
          instance[l][i].Marks() == old(instance[l][i].Marks()) &&
          (instance[l][i].BoundTable() == old(instance[l][i].BoundTable()) || instance[l][i].BoundTable() == this)
      {
        if layer[j].IsHandle() {
          label before:
          Link(layer[j]);
          forall l, i | 0 <= l < |instance| && 0 <= i < |instance[l]|
            ensures instance[l][i].Marks() == old@before(instance[l][i].Marks())
            ensures instance[l][i].BoundTable() == old@before(instance[l][i].BoundTable()) ||
                    instance[l][i].BoundTable() == this
          {
            if !(instance[l][i].Handle() !! layer[j].Handle()) {
              SameHandleSameMember(instance[l][i], layer[j]);
            }
          }
        }
        j := j + 1;
      }
      if k + 1 < |instance| {
        MirrorAndLink(instance, k + 1);
      }
    }

    /** Binds one handle to this table. */
    method Link(m: Member<V>)
      requires m.IsHandle()
      modifies m.Handle()
      ensures m.BoundTable() == this
      ensures m.Marks() == old(m.Marks())
    {
      match m
      case AsProtected(h) => h.table := this;
      case AsProtectedGet(h) => h.table := this;
      case AsOverrideGet(h) => h.table := this;
      case AsComputed(h) => h.table := this;
      case AsComputedGet(h) => h.table := this;
      case AsComputedOverride(h) => h.table := this;
      case AsComputedOverrideGet(h) => h.table := this;
    }

    /** The canonical field at `p`; reading changes nothing. */
    function Read(p: Path): (f: Field<V>)
      reads this
      requires Valid() && p in fields
      ensures f == OverrideTable.Read(State(), p)
    {
      WrappedValue()[p]
    }

    /** Replaces the canonical field at `p`; the stacks are untouched. */
    method Write(v: Field<V>, p: Path)
      requires Valid() && Fits(State(), v, p)
      modifies this`staticTable
      ensures Valid()
      ensures State() == OverrideTable.Write(old(State()), v, p)
    {
      staticTable := staticTable[p := v];
    }

    /**
     * Pushes the current field at `p` onto `p`'s stack, installs `v`, and
     * returns the index of the pushed entry.
     */
    method Override(v: Field<V>, p: Path) returns (superIndex: nat)
      requires Valid() && Fits(State(), v, p)
      modifies this`staticTable, this`virtualTable
      ensures Valid()
      ensures (State(), superIndex) == OverrideTable.Override(old(State()), v, p)
    {
      var oldValue := staticTable[p];
      var stack := if p in virtualTable then virtualTable[p] else [];
      stack := stack + [oldValue];
      staticTable := staticTable[p := v];
      superIndex := |stack| - 1;
      virtualTable := virtualTable[p := stack];
    }

    /** Entry `i` of `p`'s stack, of `p`'s own type. */
    function Overridden(p: Path, i: nat): (f: Field<V>)
      reads this
      requires Valid() && p in virtualTable && i < |virtualTable[p]|
      ensures f == Stack(State(), p)[i]
      ensures SameKind(f, OverrideTable.Read(State(), p))
    {
      OverrideTable.Overridden(State(), p, i)
    }
  }

  /** A read-write handle on a stored property. */
  class Protected<V> {
    var table: PropertyTable?<V>
    const keyPath: Path

    constructor (keyPath: Path)
      ensures this.keyPath == keyPath && table == null
    {
      this.keyPath := keyPath;
      table := null;
    }

    /** Linked, to a table whose root has a writable property at `keyPath`. */
    ghost predicate Ready()
      reads this, table
    {
      table != null && table.Valid() && keyPath in table.writable
    }

    function WrappedValue(): (f: Field<V>)
      reads this, table
      requires Ready()
      ensures f == OverrideTable.Read(table.State(), keyPath)
    {
      table.Read(keyPath)
    }

    method SetWrappedValue(v: Field<V>)
      requires Ready() && SameKind(v, WrappedValue())
      modifies table`staticTable
      ensures Ready()
      ensures table.State() == OverrideTable.Write(old(table.State()), v, keyPath)
      ensures WrappedValue() == v
      ensures table.virtualTable == old(table.virtualTable)
    {
      table.Write(v, keyPath);
    }
  }

  /** A read-only handle on a stored property. */
  class ProtectedGet<V> {
    var table: PropertyTable?<V>
    const keyPath: Path

    constructor (keyPath: Path)
      ensures this.keyPath == keyPath && table == null
    {
      this.keyPath := keyPath;
      table := null;
    }

    ghost predicate Ready()
      reads this, table
    {
      table != null && table.Valid() && keyPath in table.fields
    }

    function WrappedValue(): (f: Field<V>)
      reads this, table
      requires Ready()
      ensures f == OverrideTable.Read(table.State(), keyPath)
    {
      table.Read(keyPath)
    }
  }

  /** A read-only handle on a stored property that can be overridden once. */
  class ProtectedOverrideGet<V> {
    var table: PropertyTable?<V>
    const keyPath: Path
    var superIndex: Option<nat>
    var didOverride: bool

    constructor (keyPath: Path)
      ensures this.keyPath == keyPath && table == null
      ensures superIndex == None && !didOverride
    {
      this.keyPath := keyPath;
      table := null;
      superIndex := None;
      didOverride := false;
    }

    /**
     * Linked to a valid table that has the path, and overridden exactly when
     * an index was captured. A rebound handle may hold an index that is not
     * on its current table's stack; only `Super` reads it.
     */
    ghost predicate Ready()
      reads this, table
    {
      && table != null && table.Valid() && keyPath in table.writable
      && (didOverride <==> superIndex.Some?)
    }

    /** The captured index, if any, is on the stack of the table the handle is bound to now. */
    ghost predicate SuperInRange()
      reads this, table
    {
      table != null && (superIndex.Some? ==> superIndex.value < |Stack(table.State(), keyPath)|)
    }

    function WrappedValue(): (f: Field<V>)
      reads this, table
      requires Ready()
      ensures f == OverrideTable.Read(table.State(), keyPath)
    {
      table.Read(keyPath)
    }

    /** The value before this handle's override, or the current one if it never overrode. */
    function Super(): (f: Field<V>)
      reads this, table
      requires Ready() && SuperInRange()
      ensures superIndex.None? ==> f == WrappedValue()
      ensures superIndex.Some? ==> f == Stack(table.State(), keyPath)[superIndex.value]
      ensures SameKind(f, WrappedValue())
    {
      match superIndex
      case None => WrappedValue()
      case Some(i) => table.Overridden(keyPath, i)
    }

    /** Overrides the property, the first time only. */
    method Override(v: Field<V>)
      requires Ready() && SameKind(v, WrappedValue())
      modifies this`didOverride, this`superIndex, table`staticTable, table`virtualTable
      ensures Ready() && didOverride
      ensures old(didOverride) ==> superIndex == old(superIndex) && table.State() == old(table.State())
      ensures !old(didOverride) ==>
        superIndex.Some? &&
        (table.State(), superIndex.value) == OverrideTable.Override(old(table.State()), v, keyPath)
      ensures !old(didOverride) || old(SuperInRange()) ==> SuperInRange()
      ensures !old(didOverride) ==> WrappedValue() == v && Super() == old(WrappedValue())
    {
      if didOverride {
        return;
      }
      didOverride := true;
      var i := table.Override(v, keyPath);
      superIndex := Some(i);
    }
  }

  /** A handle on a computed property: a getter closure and a setter closure stored in the root. */
  class ProtectedPropertyComputed<V> {
    var table: PropertyTable?<V>
    const getKeyPath: Path
    const setKeyPath: Path

    constructor (getKeyPath: Path, setKeyPath: Path)
      ensures this.getKeyPath == getKeyPath && this.setKeyPath == setKeyPath && table == null
    {
      this.getKeyPath := getKeyPath;
      this.setKeyPath := setKeyPath;
      table := null;
    }

    ghost predicate Ready()
      reads this, table
    {
      && table != null && table.Valid()
      && getKeyPath in table.fields && table.staticTable[getKeyPath].Getter?
      && setKeyPath in table.fields && table.staticTable[setKeyPath].Setter?
    }

    /** Invokes the getter stored at `getKeyPath`; `run` gives what each closure returns. */
    function WrappedValue(run: ClosureId -> V): (r: V)
      reads this, table
      requires Ready()
      ensures r == run(OverrideTable.Read(table.State(), getKeyPath).getter)
    {
      run(table.Read(getKeyPath).getter)
    }

    /** Invokes the setter stored at `setKeyPath` with `v`. */
    method SetWrappedValue(v: V) returns (call: Invocation<V>)
      requires Ready()
      ensures call == Invocation(OverrideTable.Read(table.State(), setKeyPath).setter, v)
    {
      call := Invocation(table.Read(setKeyPath).setter, v);
    }
  }

  /** A handle on a computed property that has only a getter. */
  class ProtectedPropertyComputedGet<V> {
    var table: PropertyTable?<V>
    const getKeyPath: Path

    constructor (getKeyPath: Path)
      ensures this.getKeyPath == getKeyPath && table == null
    {
      this.getKeyPath := getKeyPath;
      table := null;
    }

    ghost predicate Ready()
      reads this, table
    {
      table != null && table.Valid() && getKeyPath in table.fields && table.staticTable[getKeyPath].Getter?
    }

    function WrappedValue(run: ClosureId -> V): (r: V)
      reads this, table
      requires Ready()
      ensures r == run(OverrideTable.Read(table.State(), getKeyPath).getter)
    {
      run(table.Read(getKeyPath).getter)
    }
  }

  /** A handle on a computed getter/setter pair that can be overridden once. */
  class ProtectedPropertyComputedOverride<V> {
    var table: PropertyTable?<V>
    const getKeyPath: Path
    const setKeyPath: Path
    var superGetIndex: Option<nat>
    var superSetIndex: Option<nat>
    var didOverride: bool

    constructor (getKeyPath: Path, setKeyPath: Path)
      ensures this.getKeyPath == getKeyPath && this.setKeyPath == setKeyPath && table == null
      ensures superGetIndex == None && superSetIndex == None && !didOverride
    {
      this.getKeyPath := getKeyPath;
      this.setKeyPath := setKeyPath;
      table := null;
      superGetIndex := None;
      superSetIndex := None;
      didOverride := false;
    }

    ghost predicate Ready()
      reads this, table
    {
      && table != null && table.Valid()
      && getKeyPath in table.writable && table.staticTable[getKeyPath].Getter?
      && setKeyPath in table.writable && table.staticTable[setKeyPath].Setter?
      && (didOverride <==> superGetIndex.Some?)
      && (didOverride <==> superSetIndex.Some?)
    }

    /** The captured getter index, if any, is on the current table's stack for `getKeyPath`. */
    ghost predicate SuperGetInRange()
      reads this, table
    {
      table != null && (superGetIndex.Some? ==> superGetIndex.value < |Stack(table.State(), getKeyPath)|)
    }

    /** The captured setter index, if any, is on the current table's stack for `setKeyPath`. */
    ghost predicate SuperSetInRange()
      reads this, table
    {
      table != null && (superSetIndex.Some? ==> superSetIndex.value < |Stack(table.State(), setKeyPath)|)
    }

    /** The getter the handle's get invokes. */
    function Getter(): ClosureId
      reads this, table
      requires Ready()
    {
      table.Read(getKeyPath).getter
    }

    /** The setter the handle's set invokes. */
    function Setter(): ClosureId
      reads this, table
      requires Ready()
    {
      table.Read(setKeyPath).setter
    }

    /** The getter the handle's super get invokes. */
    function SuperGetter(): (g: ClosureId)
      reads this, table
      requires Ready() && SuperGetInRange()
      ensures superGetIndex.None? ==> g == Getter()
      ensures superGetIndex.Some? ==> Stack(table.State(), getKeyPath)[superGetIndex.value] == OverrideTable.Getter(g)
    {
      match superGetIndex
      case None => Getter()
      case Some(i) => table.Overridden(getKeyPath, i).getter
    }

    /** The setter the handle's super set invokes. */
    function SuperSetter(): (s: ClosureId)
      reads this, table
      requires Ready() && SuperSetInRange()
      ensures superSetIndex.None? ==> s == Setter()
      ensures superSetIndex.Some? ==> Stack(table.State(), setKeyPath)[superSetIndex.value] == OverrideTable.Setter(s)
    {
      match superSetIndex
      case None => Setter()
      case Some(i) => table.Overridden(setKeyPath, i).setter
    }

    function WrappedValue(run: ClosureId -> V): (r: V)
      reads this, table
      requires Ready()
      ensures OverrideTable.Read(table.State(), getKeyPath) == OverrideTable.Getter(Getter())
      ensures r == run(Getter())
    {
      run(Getter())
    }

    method SetWrappedValue(v: V) returns (call: Invocation<V>)
      requires Ready()
      ensures OverrideTable.Read(table.State(), setKeyPath) == OverrideTable.Setter(call.setter)
      ensures call == Invocation(Setter(), v)
    {
      call := Invocation(Setter(), v);
    }

    function SuperGet(run: ClosureId -> V): (r: V)
      reads this, table
      requires Ready() && SuperGetInRange()
      ensures superGetIndex.None? ==> r == WrappedValue(run)
      ensures r == run(SuperGetter())
    {
      match superGetIndex
      case None => WrappedValue(run)
      case Some(i) => run(SuperGetter())
    }

    method SuperSet(v: V) returns (call: Invocation<V>)
      requires Ready() && SuperSetInRange()
      ensures superSetIndex.None? ==> call == Invocation(Setter(), v)
      ensures call == Invocation(SuperSetter(), v)
    {
      match superSetIndex {
        case None =>
          call := SetWrappedValue(v);
        case Some(i) =>
          call := Invocation(table.Overridden(setKeyPath, i).setter, v);
      }
    }

    /** Overrides getter and setter, the first time only, capturing one index per path. */
    method Override(getter: ClosureId, setter: ClosureId)
      requires Ready()
      modifies this`didOverride, this`superGetIndex, this`superSetIndex, table`staticTable, table`virtualTable
      ensures Ready() && didOverride
      ensures old(didOverride) ==>
        superGetIndex == old(superGetIndex) && superSetIndex == old(superSetIndex) &&
        table.State() == old(table.State())
      ensures !old(didOverride) ==>
        var (t1, gi) := OverrideTable.Override(old(table.State()), OverrideTable.Getter(getter), getKeyPath);
        && Fits(t1, OverrideTable.Setter(setter), setKeyPath)
        && var (t2, si) := OverrideTable.Override(t1, OverrideTable.Setter(setter), setKeyPath);
        && table.State() == t2 && superGetIndex == Some(gi) && superSetIndex == Some(si)
      ensures !old(didOverride) || old(SuperGetInRange()) ==> SuperGetInRange()
      ensures !old(didOverride) || old(SuperSetInRange()) ==> SuperSetInRange()
      ensures !old(didOverride) ==>
        && Getter() == getter && Setter() == setter
        && SuperGetter() == old(Getter()) && SuperSetter() == old(Setter())
    {
      if didOverride {
        return;
      }
      didOverride := true;
      var gi := table.Override(OverrideTable.Getter(getter), getKeyPath);
      superGetIndex := Some(gi);
      var si := table.Override(OverrideTable.Setter(setter), setKeyPath);
      superSetIndex := Some(si);
    }
  }

  /** A handle on a computed getter that can be overridden once. */
  class ProtectedPropertyComputedOverrideGet<V> {
    var table: PropertyTable?<V>
    const getKeyPath: Path
    var superIndex: Option<nat>
    var didOverride: bool

    constructor (getKeyPath: Path)
      ensures this.getKeyPath == getKeyPath && table == null
      ensures superIndex == None && !didOverride
    {
      this.getKeyPath := getKeyPath;
      table := null;
      superIndex := None;
      didOverride := false;
    }

    ghost predicate Ready()
      reads this, table
    {
      && table != null && table.Valid()
      && getKeyPath in table.writable && table.staticTable[getKeyPath].Getter?
      && (didOverride <==> superIndex.Some?)
    }

    /** The captured index, if any, is on the current table's stack for `getKeyPath`. */
    ghost predicate SuperInRange()
      reads this, table
    {
      table != null && (superIndex.Some? ==> superIndex.value < |Stack(table.State(), getKeyPath)|)
    }

    /** The getter the handle's get invokes. */
    function Getter(): ClosureId
      reads this, table
      requires Ready()
    {
      table.Read(getKeyPath).getter
    }

    /** The getter the handle's super invokes. */
    function SuperGetter(): (g: ClosureId)
      reads this, table
      requires Ready() && SuperInRange()
      ensures superIndex.None? ==> g == Getter()
      ensures superIndex.Some? ==> Stack(table.State(), getKeyPath)[superIndex.value] == OverrideTable.Getter(g)
    {
      match superIndex
      case None => Getter()
      case Some(i) => table.Overridden(getKeyPath, i).getter
    }

    function WrappedValue(run: ClosureId -> V): (r: V)
      reads this, table
      requires Ready()
      ensures OverrideTable.Read(table.State(), getKeyPath) == OverrideTable.Getter(Getter())
      ensures r == run(Getter())
    {
      run(Getter())
    }

    function Super(run: ClosureId -> V): (r: V)
      reads this, table
      requires Ready() && SuperInRange()
      ensures superIndex.None? ==> r == WrappedValue(run)
      ensures r == run(SuperGetter())
    {
      match superIndex
      case None => WrappedValue(run)
      case Some(i) => run(SuperGetter())
    }

    /** Overrides the getter, the first time only. */
    method Override(getter: ClosureId)
      requires Ready()
      modifies this`didOverride, this`superIndex, table`staticTable, table`virtualTable
      ensures Ready() && didOverride
      ensures old(didOverride) ==> superIndex == old(superIndex) && table.State() == old(table.State())
      ensures !old(didOverride) ==>
        superIndex.Some? &&
        (table.State(), superIndex.value) == OverrideTable.Override(old(table.State()), OverrideTable.Getter(getter), getKeyPath)
      ensures !old(didOverride) || old(SuperInRange()) ==> SuperInRange()
      ensures !old(didOverride) ==> Getter() == getter && SuperGetter() == old(Getter())
    {
      if didOverride {
        return;
      }
      didOverride := true;
      var i := table.Override(OverrideTable.Getter(getter), getKeyPath);
      superIndex := Some(i);
    }
  }
}
