/**
 * Client code that builds an owning instance, a table over its root and its
 * handles, and drives them. Each method's postcondition follows from the
 * contracts of the classes alone.
 */
module Scenarios {

  import opened Wrappers
  import opened OverrideTable
  import opened SwiftProtected

  /**
   * Root `{x: 1, y: 2}`. Overriding `x` with 10 captures index 0; then `x`
   * reads 10 and its super 1. A second override with 20 changes nothing.
   */
  method StoredOverrideIsOneShot() returns (index: nat, super1: int, value1: int, super2: int, value2: int)
    ensures index == 0 && super1 == 1 && value1 == 10
    ensures super2 == 1 && value2 == 10
  {
    var x := new ProtectedOverrideGet<int>("x");
    var instance: seq<Layer<int>> := [[AsOverrideGet(x), Plain]];
    var table := new PropertyTable(map["x" := Stored(1), "y" := Stored(2)], {"x", "y"}, instance);
    assert instance[0][0].BoundTable() == table && instance[0][0].Marks() == (false, None, None);

    x.Override(Stored(10));
    index := x.superIndex.value;
    super1 := x.Super().value;
    value1 := x.WrappedValue().value;

    x.Override(Stored(20));
    super2 := x.Super().value;
    value2 := x.WrappedValue().value;
  }

  /**
   * A computed pair whose getter (closure 1) returns 5. After overriding with
   * getter 3 (which returns 7) and setter 4, get gives 7 and super get 5;
   * super set calls the original setter 2 and set calls the new setter 4.
   */
  method ComputedOverrideKeepsOriginals()
    returns (superBefore: int, value: int, superAfter: int, superCall: Invocation<int>, call: Invocation<int>)
    ensures superBefore == 5 && value == 7 && superAfter == 5
    ensures superCall == Invocation(2, 42) && call == Invocation(4, 42)
  {
    var run := (c: ClosureId) => if c == 1 then 5 else if c == 3 then 7 else 0;
    var h := new ProtectedPropertyComputedOverride<int>("get", "set");
    var instance: seq<Layer<int>> := [[AsComputedOverride(h)]];
    var table := new PropertyTable(map["get" := Getter(1), "set" := Setter(2)], {"get", "set"}, instance);
    assert instance[0][0].BoundTable() == table && instance[0][0].Marks() == (false, None, None);

    superBefore := h.SuperGet(run);
    h.Override(3, 4);
    value := h.WrappedValue(run);
    superAfter := h.SuperGet(run);
    superCall := h.SuperSet(42);
    call := h.SetWrappedValue(42);
  }

  /** Handles declared on the instance's layer and on its superclass layer all bind to the one table. */
  method LayersBindToOneTable() returns (allBound: bool)
    ensures allBound
  {
    var g := new ProtectedGet<int>("x");
    var o := new ProtectedOverrideGet<int>("x");
    var p := new Protected<int>("y");
    var instance: seq<Layer<int>> := [[AsProtectedGet(g), Plain], [AsOverrideGet(o), AsProtected(p)]];
    var table := new PropertyTable(map["x" := Stored(1), "y" := Stored(2)], {"x", "y"}, instance);
    assert instance[0][0].BoundTable() == table;
    assert instance[1][0].BoundTable() == table && instance[1][1].BoundTable() == table;
    allBound := g.table == table && o.table == table && p.table == table;
  }

  /**
   * Read-only handles observe overrides made through other handles on the
   * same path, and a write leaves the stacks, and so a captured super value,
   * alone.
   */
  method ReadersObserveOverrides() returns (seen: int, superX: int, written: int)
    ensures seen == 10 && superX == 1 && written == 5
  {
    var g := new ProtectedGet<int>("x");
    var o := new ProtectedOverrideGet<int>("x");
    var w := new Protected<int>("x");
    var instance: seq<Layer<int>> := [[AsProtectedGet(g), AsOverrideGet(o), AsProtected(w)]];
    var table := new PropertyTable(map["x" := Stored(1)], {"x"}, instance);
    assert instance[0][0].BoundTable() == table && instance[0][2].BoundTable() == table;
    assert instance[0][1].BoundTable() == table && instance[0][1].Marks() == (false, None, None);

    o.Override(Stored(10));
    seen := g.WrappedValue().value;

    w.SetWrappedValue(Stored(5));
    superX := o.Super().value;
    written := g.WrappedValue().value;
  }

  /** A computed getter handle invokes the getter another handle installed on its path. */
  method ComputedReaderObservesOverride() returns (before: int, after: int)
    ensures before == 0 && after == 9
  {
    var run := (c: ClosureId) => c;
    var cg := new ProtectedPropertyComputedGet<int>("f");
    var co := new ProtectedPropertyComputedOverrideGet<int>("f");
    var instance: seq<Layer<int>> := [[AsComputedGet(cg)], [AsComputedOverrideGet(co)]];
    var table := new PropertyTable(map["f" := Getter(0)], {"f"}, instance);
    assert instance[0][0].BoundTable() == table;
    assert instance[1][0].BoundTable() == table && instance[1][0].Marks() == (false, None, None);

    before := cg.WrappedValue(run);
    co.Override(9);
    after := cg.WrappedValue(run);
  }

  /**
   * A handle that overrode through one table and is then rebound by a second
   * table (whose stack at `x` is empty) still reads the new table's field,
   * and its second override is a no-op; only its super index is stale.
   */
  method ReboundHandleKeepsWorking() returns (index: nat, value: int, after: int)
    ensures index == 0 && value == 5 && after == 5
  {
    var o := new ProtectedOverrideGet<int>("x");
    var first: seq<Layer<int>> := [[AsOverrideGet(o)]];
    var a := new PropertyTable(map["x" := Stored(1)], {"x"}, first);
    assert first[0][0].BoundTable() == a && first[0][0].Marks() == (false, None, None);
    o.Override(Stored(10));
    index := o.superIndex.value;

    var second: seq<Layer<int>> := [[AsOverrideGet(o)]];
    var b := new PropertyTable(map["x" := Stored(5)], {"x"}, second);
    assert second[0][0].BoundTable() == b && second[0][0].Marks() == (true, Some(0), None);
    assert !o.SuperInRange();
    value := o.WrappedValue().value;
    o.Override(Stored(20));
    after := o.WrappedValue().value;
  }

  /** Linking runs once per table: a second run binds nothing. */
  method LinkingRunsOnce() returns (stillUnlinked: bool)
    ensures stillUnlinked
  {
    var table := new PropertyTable(map["x" := Stored(1)], {"x"}, [[]]);
    var late := new ProtectedGet<int>("x");
    table.Solidify([[AsProtectedGet(late)]]);
    stillUnlinked := late.table == null;
  }
}
