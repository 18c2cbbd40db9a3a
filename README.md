# swift-protected: the override table and its field handles

This project models the core of SwiftProtected, a Swift library. In SwiftProtected, a value-type root aggregate is owned by a
`PropertyTable`, and it exposes its fields only through small handle objects.
Any field can be overridden at runtime, and the handle that overrode it can still
reach the pre-override ("super") value.

The table holds three things:
- the canonical root value (`staticTable`);
- one append-only stack of superseded values per key path (`virtualTable`);
- a one-shot flag (`isCemented`) that guards linking.

When the table is built, it links every handle found on the owning instance and on
the instance's superclass layers to itself. After that, each handle's get, set,
super and override calls become table calls.

Files:

- `wrappers.dfy`, module `Wrappers`: `Option`, used for the handles' captured
  super indices (Swift's `Int?`).
- `override_table.dfy`, module `OverrideTable`: the table's state as a value and
  its read, write, override and overridden operations. These are the reference
  definitions the class is proved against. The module also holds the lemmas about
  histories of calls:
  - stacks only grow;
  - a super index keeps resolving to the value it captured;
  - a read returns the value last assigned.
- `swift_protected.dfy`, module `SwiftProtected`: the class `PropertyTable`, with
  the source's fields, and the seven handle classes. Each handle has the source's
  fields: the table reference, the key paths, `didOverride` and the captured
  indices. Linking walks an explicit instance: a sequence of layers, the
  instance's own stored properties first and then each superclass's, each a
  sequence of `Member`s. A `Member` is a handle of one of the seven kinds, or
  `Plain` for anything the cast to a handle of this root rejects.
- `scenarios.dfy`, module `Scenarios`: client code that builds instances, tables
  and handles and drives them. Its postconditions follow from the class
  contracts alone.

Modelling choices:

- A root property holds a `Field<V>`. A field is a plain value `Stored(v)`, a getter closure
  `Getter(id)` or a setter closure `Setter(id)`. Swift's static key-path types
  become the field's kind (`SameKind`). A write or override must keep a path's
  kind, and the table invariant says every stacked value has its path's kind. So
  the `as!` cast in `overridden` cannot fail.
- Closures are identified by their `ClosureId`. The model does not run a getter.
  The handle takes a parameter `run: ClosureId -> V` that says what each closure
  returns now, and the contract states which closure is invoked.
- Setters are external effects. A setter call returns an `Invocation(setter,
  argument)` record that says which setter was called with which value.
- A trap on `table!` becomes the precondition `Ready()`: the handle is linked to
  a valid table whose root has the handle's paths with the right kinds. For the
  three handles that can override, `Ready()` also says that `didOverride` holds
  exactly when super indices were captured, which the handle itself keeps true
  and linking never touches. An out-of-range `overridden` is a precondition of
  the members that read a captured index, like Swift's crash. That precondition
  is `SuperInRange()` (`SuperGetInRange()` or `SuperSetInRange()` for the
  computed pair, each checking only its own path), so a handle rebound to a
  table with a shorter stack can still get, set and override.

Binding is not guarded per handle. `link`
(Sources/SwiftProtected/ProtectedTable.swift:64-67) assigns `other.table = self`
without a check, so a handle reachable from two instances is rebound by the
second table. `PropertyTable.Link` does the same. Linking runs at most once per
table, through `isCemented`, not once per handle.

## Model

| member | source | states |
|---|---|---|
| OverrideTable.Write | Sources/SwiftProtected/ProtectedTable.swift:78-84 | a write keeps the table well-typed, makes `read(p)` return the written value, leaves every other path's value and all stacks unchanged, and keeps the root's set of fields |
| OverrideTable.Override | Sources/SwiftProtected/ProtectedTable.swift:92-108 | an override appends the pre-call value at `p` to `p`'s stack (an absent stack counts as empty), installs the new value, returns the old stack length (the new entry's index), and leaves other paths' values and stacks unchanged |
| OverrideTable.Overridden | Sources/SwiftProtected/ProtectedTable.swift:112-120 | a stack entry in a well-formed table has its path's type, so the cast on retrieval never fails |
| OverrideTable.StacksOnlyGrow | Sources/SwiftProtected/ProtectedTable.swift:94-102 | after any history of writes and overrides, each path's old stack is a prefix of its new stack, and the new stack is longer by exactly the number of overrides of that path |
| OverrideTable.SuperIndexKeepsResolving | Sources/SwiftProtected/ProtectedTable.swift:92-102 | the index an override returns still resolves, under any later history, to the value that was canonical just before that override |
| OverrideTable.ReadIsLastAssigned | Sources/SwiftProtected/ProtectedTable.swift:72-106 | after any history, `read(p)` is the value most recently written or overridden at `p`, or the initial value if there was none |
| OverrideTable.TwoOverrides | Sources/SwiftProtected/ProtectedTable.swift:92-119 | on a fresh path, the first override returns 0 and the second returns 1; entry 0 is the original value, entry 1 is the first override's value, and `read` gives the second's |
| SwiftProtected.PropertyTable.constructor | Sources/SwiftProtected/ProtectedTable.swift:13-21 | the canonical root is the given value, there are no stacks, the table is cemented, every handle on every layer refers to the new table, and no handle's override state changes |
| SwiftProtected.PropertyTable.WrappedValue | Sources/SwiftProtected/ProtectedTable.swift:27-29 | the getter returns the canonical root value; its contract gives only the key set: exactly the root type's fields, writable ones included |
| SwiftProtected.PropertyTable.Solidify | Sources/SwiftProtected/ProtectedTable.swift:40-47 | on the first call every handle of every layer is bound to this table; once cemented, a call changes no handle; either way the table ends cemented |
| SwiftProtected.PropertyTable.MirrorAndLink | Sources/SwiftProtected/ProtectedTable.swift:50-61 | every handle in layer `k` and in every later (superclass) layer is bound to this table; any handle whose binding changes now refers to this table; override states are untouched; non-handle members are skipped |
| SwiftProtected.PropertyTable.Link | Sources/SwiftProtected/ProtectedTable.swift:64-67 | the handle's table reference becomes this table, and its override state is unchanged |
| SwiftProtected.PropertyTable.Read | Sources/SwiftProtected/ProtectedTable.swift:72-75 | the canonical field at `p`, as the reference read defines it |
| SwiftProtected.PropertyTable.Write | Sources/SwiftProtected/ProtectedTable.swift:78-84 | the new state is the reference `Write` of the old one, so the table stays valid |
| SwiftProtected.PropertyTable.Override | Sources/SwiftProtected/ProtectedTable.swift:87-109 | the new state and the returned index are the reference `Override` of the old state |
| SwiftProtected.PropertyTable.Overridden | Sources/SwiftProtected/ProtectedTable.swift:112-120 | entry `i` of `p`'s stack, of the same kind as `p`'s canonical field; a missing stack or an out-of-range index is a precondition failure |
| SwiftProtected.Protected.constructor | Sources/SwiftProtected/Protected.swift:13-22 | the key path is fixed at creation and the handle starts unlinked |
| SwiftProtected.Protected.WrappedValue | Sources/SwiftProtected/Protected.swift:25 | the getter returns the table's canonical field at the key path |
| SwiftProtected.Protected.SetWrappedValue | Sources/SwiftProtected/Protected.swift:26 | the setter is the table's write at the key path; a later get returns the new value; no override stack changes |
| SwiftProtected.ProtectedGet.constructor | Sources/SwiftProtected/ProtectedGet.swift:13-22 | the key path is fixed at creation and the handle starts unlinked |
| SwiftProtected.ProtectedGet.WrappedValue | Sources/SwiftProtected/ProtectedGet.swift:24-26 | the handle's only accessor returns the canonical field at the key path, so it sees writes and overrides made through other handles |
| SwiftProtected.ProtectedOverrideGet.constructor | Sources/SwiftProtected/ProtectedOverrideGet.swift:13-24 | the key path is fixed at creation; the handle starts unlinked, with no captured index and `didOverride` false |
| SwiftProtected.ProtectedOverrideGet.WrappedValue | Sources/SwiftProtected/ProtectedOverrideGet.swift:26-28 | the getter returns the table's canonical field at the key path |
| SwiftProtected.ProtectedOverrideGet.Super | Sources/SwiftProtected/ProtectedOverrideGet.swift:32-40 | with no captured index, super equals the wrapped value; otherwise it is the captured entry of the key path's stack; either way it has the property's type; it requires only that the captured index be on the current stack, where the source's `overridden` traps |
| SwiftProtected.ProtectedOverrideGet.Override | Sources/SwiftProtected/ProtectedOverrideGet.swift:42-52 | the first call sets `didOverride`, captures the index the table's override returns, and makes get return the new value while super returns the value before the override; a later call changes neither the index nor the table, including on a handle rebound after overriding; the captured index is in range after a first call and stays in range if it was |
| SwiftProtected.ProtectedPropertyComputed.constructor | Sources/SwiftProtected/ProtectedPropertyComputed.swift:13-25 | both read-only key paths are fixed at creation and the handle starts unlinked |
| SwiftProtected.ProtectedPropertyComputed.WrappedValue | Sources/SwiftProtected/ProtectedPropertyComputed.swift:28 | get invokes the getter closure stored at the get path |
| SwiftProtected.ProtectedPropertyComputed.SetWrappedValue | Sources/SwiftProtected/ProtectedPropertyComputed.swift:29 | set invokes the setter closure stored at the set path with the new value, and changes nothing in the table |
| SwiftProtected.ProtectedPropertyComputedGet.constructor | Sources/SwiftProtected/ProtectedPropertyComputedGet.swift:13-22 | the read-only get path is fixed at creation and the handle starts unlinked |
| SwiftProtected.ProtectedPropertyComputedGet.WrappedValue | Sources/SwiftProtected/ProtectedPropertyComputedGet.swift:24-26 | get invokes whatever getter is currently stored at the path, including one that another handle installed |
| SwiftProtected.ProtectedPropertyComputedOverride.constructor | Sources/SwiftProtected/ProtectedPropertyComputedOverride.swift:13-28 | both key paths are fixed at creation; the handle starts unlinked, with no captured indices and `didOverride` false |
| SwiftProtected.ProtectedPropertyComputedOverride.SuperGetter | Sources/SwiftProtected/ProtectedPropertyComputedOverride.swift:40-45 | before override, super get uses the current getter; after override, it uses the getter held in the captured entry of the get path's stack; only the get index must be in range |
| SwiftProtected.ProtectedPropertyComputedOverride.SuperSetter | Sources/SwiftProtected/ProtectedPropertyComputedOverride.swift:49-59 | before override, super set uses the current setter; after override, it uses the setter held in the captured entry of the set path's stack; only the set index must be in range |
| SwiftProtected.ProtectedPropertyComputedOverride.WrappedValue | Sources/SwiftProtected/ProtectedPropertyComputedOverride.swift:31 | get invokes the getter stored at the get path |
| SwiftProtected.ProtectedPropertyComputedOverride.SetWrappedValue | Sources/SwiftProtected/ProtectedPropertyComputedOverride.swift:32 | set invokes the setter stored at the set path with the new value |
| SwiftProtected.ProtectedPropertyComputedOverride.SuperGet | Sources/SwiftProtected/ProtectedPropertyComputedOverride.swift:38-46 | before override, super get equals get; in general it invokes the super getter |
| SwiftProtected.ProtectedPropertyComputedOverride.SuperSet | Sources/SwiftProtected/ProtectedPropertyComputedOverride.swift:47-60 | before override, super set is a call of the current setter, as the wrapped-value setter makes it; in general it calls the super setter with the new value |
| SwiftProtected.ProtectedPropertyComputedOverride.Override | Sources/SwiftProtected/ProtectedPropertyComputedOverride.swift:63-81 | the first call overrides the get path with the new getter and then the set path with the new setter, capturing each path's own index; afterwards get and set use the new closures and super get and super set use the old ones; a later call changes neither index nor the table; each captured index is in range after a first call and stays in range if it was |
| SwiftProtected.ProtectedPropertyComputedOverrideGet.constructor | Sources/SwiftProtected/ProtectedPropertyComputedOverrideGet.swift:13-24 | the key path is fixed at creation; the handle starts unlinked, with no captured index and `didOverride` false |
| SwiftProtected.ProtectedPropertyComputedOverrideGet.SuperGetter | Sources/SwiftProtected/ProtectedPropertyComputedOverrideGet.swift:34-39 | before override, super uses the current getter; after override, it uses the getter held in the captured stack entry |
| SwiftProtected.ProtectedPropertyComputedOverrideGet.WrappedValue | Sources/SwiftProtected/ProtectedPropertyComputedOverrideGet.swift:26-28 | get invokes the getter stored at the path |
| SwiftProtected.ProtectedPropertyComputedOverrideGet.Super | Sources/SwiftProtected/ProtectedPropertyComputedOverrideGet.swift:32-40 | with no captured index, super equals get; in general it invokes the super getter |
| SwiftProtected.ProtectedPropertyComputedOverrideGet.Override | Sources/SwiftProtected/ProtectedPropertyComputedOverrideGet.swift:42-52 | the first call captures the index the table returns, installs the new getter, and leaves super invoking the getter stored just before; a later call changes nothing; the captured index is in range after a first call and stays in range if it was |
| Scenarios.StoredOverrideIsOneShot | Sources/SwiftProtected/ProtectedOverrideGet.swift:32-52 | over root `{x: 1, y: 2}`, overriding `x` with 10 captures index 0, after which get is 10 and super is 1; a second override with 20 leaves get at 10 and super at 1 |
| Scenarios.ComputedOverrideKeepsOriginals | Sources/SwiftProtected/ProtectedPropertyComputedOverride.swift:37-81 | a getter returning 5 is overridden by one returning 7: get gives 7 and super get still gives 5; super set calls the original setter, and set calls the new one |
| Scenarios.LayersBindToOneTable | Sources/SwiftProtected/ProtectedTable.swift:50-61 | handles on the instance layer and on the superclass layer all end up referring to the one table |
| Scenarios.ReadersObserveOverrides | Sources/SwiftProtected/ProtectedGet.swift:24-26 | a read-only handle sees an override made through another handle on its path; a later write leaves the overriding handle's super value unchanged |
| Scenarios.ComputedReaderObservesOverride | Sources/SwiftProtected/ProtectedPropertyComputedGet.swift:24-26 | a computed getter handle invokes the getter another handle has just installed on its path |
| Scenarios.ReboundHandleKeepsWorking | Sources/SwiftProtected/ProtectedTable.swift:64-67 | a handle that overrode through one table and is rebound by a second table with an empty stack reads the second table's value, and its second override is a no-op |
| Scenarios.LinkingRunsOnce | Sources/SwiftProtected/ProtectedTable.swift:42-46 | once a table is cemented, a second linking run binds none of the handles it is given |

## Left out

- Runtime reflection (`Mirror`, `superclassMirror`): the owning instance is given
  explicitly, as the sequence of its layers. The instance always has its own
  layer, so `Solidify` requires at least one.
- The cast `as? AbstractProtected<Root>`: a child that is not a handle of this
  root is the member `Plain`, which linking skips. `AbstractProtected` itself only
  declares the `table` field, and that field is folded into each handle class.
- Swift's dynamic typing (`[Any]` stacks and `as!`): one value type `Field<V>`.
  The kind of a field stands for its static type.
- What closures do: a getter's result is given by the parameter `run`. A
  setter's effect is external; the model returns the call it makes.
- `projectedValue` and the property-wrapper syntax: accessor sugar only.
- `virtualTable` is `public var` in the source, so outside code could rewrite a
  stack. Like the source, the model leaves the field writable: Dafny has no
  private fields, so any method that may modify the table can assign it. The
  append-only properties (`StacksOnlyGrow`, `SuperIndexKeepsResolving`) are
  proved for histories made through `Write` and `Override`. A direct assignment
  can break `Valid()`, and after that no handle's `Ready()` holds.
- Key paths are modelled as pairwise distinct, top-level stored properties of
  the root, each an atomic slot. Nested key paths (`\Root.a.b` beside `\Root.a`)
  and key paths to computed properties of the root are not modelled. Through
  those, a write or override through one path changes what another path reads,
  so the "every other path unchanged" clauses of `Write` and `Override` hold
  only for distinct stored properties.
- `PropertyTable.Override`: the source's second store of the new value (the
  `write` call after the stack update) writes the value just stored. It is
  modelled as the one assignment.
- Integer width: super indices are unbounded naturals, not 64-bit `Int`, since a
  stack never approaches 2^63 entries.
- Concurrency: the source provides none, and none is modelled.
- `Package.swift`: the build manifest is not part of this model.
