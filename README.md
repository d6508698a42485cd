# FieldGroupV6 and TransactionalPropertyWrapper in Dafny

This project models two Vaadin 6 data-binding classes and proves properties of them.

`TransactionalPropertyWrapper` wraps one Vaadin property and gives it two-phase-commit behaviour:
- `getValue` and `setValue` go straight through to the wrapped property.
- `startTransaction` records the current value.
- `commit` ends the transaction.
- `rollback` writes the recorded value back and then, in a `finally` block, clears the pending flag and ends the transaction.
- While a transaction is open, the wrapper's own value-change events are held back, and at most one is released when the transaction ends.

`FieldGroupV6` keeps a binding table between fields and property ids:
- `fieldToPropertyId` is a hash map.
- `propertyIdToField` is a linked hash map, whose key insertion order is modelled as a sequence.

The group also keeps three flags: buffered, enabled and read-only. When one changes, the group pushes it onto every bound field. `bind` records a binding and gives the field a fresh transactional wrapper of the item's property. `setItemDataSource` re-binds every field.

Files:
- `outcomes.dfy` (module `Outcomes`): `Option`, which stands for Java's nullable references, and `Outcome`, which says whether a void Java method returned normally or threw.
- `transactional_property.dfy` (module `TransactionalProperty`):
  - `TxState` is the wrapper's state together with the wrapped property's value and read-only flag.
  - The step functions `Written`, `Started`, `Committed`, `RolledBack`, `Ended`, `Fired`, `Notified` and `ReadOnlySet` each give one method's effect on that state.
  - `Run` applies a sequence of client calls.
  - The classes `Property` (the wrapped cell) and `TransactionalPropertyWrapper` are the mutable objects. Each wrapper method is proved to move `State()` exactly as its step function says, and the lemmas state the laws of the step functions.
- `field_group.dfy` (module `FieldGroup`):
  - `Bindings` and `BindEntries` describe the two maps and bind's update of them as values, with the table invariant `Wellformed`.
  - The classes `Field` and `FieldGroupV6` are the mutable objects.
  - Each group method states its whole new state: the maps through `Table()`, the group's flags, and every bound field's attributes.

Events the wrapper fires (through `AbstractProperty`'s `fireValueChange` and `fireReadOnlyStatusChange`) are ghost counters. The listener that the constructor registers on a change-notifying property is modelled as the wrapper calling its own `WrappedValueChanged` after each successful write. The constant `listening` says whether that listener was registered, which happens exactly when the property is a notifier.

## Model

TP stands for `src/main/java/com/macquail/vaadin6/data/transactionalproperty/TransactionalPropertyWrapper.java`, FG for `src/main/java/com/macquail/vaadin6/data/fieldgroup/FieldGroupV6.java`; the table cells give the full paths.

| member | source | states |
|---|---|---|
| TransactionalProperty.Property.SetValue | src/main/java/com/macquail/vaadin6/data/transactionalproperty/TransactionalPropertyWrapper.java:65 | the wrapped property's setValue: a read-only property throws ReadOnlyException and keeps its value, a writable one takes the new value |
| TransactionalProperty.Property.SetReadOnly | src/main/java/com/macquail/vaadin6/data/transactionalproperty/TransactionalPropertyWrapper.java:118 | the wrapped property's setReadOnly stores the flag and keeps the value |
| TransactionalProperty.TransactionalPropertyWrapper.constructor | src/main/java/com/macquail/vaadin6/data/transactionalproperty/TransactionalPropertyWrapper.java:37-49 | a new wrapper is outside a transaction, has no snapshot, nothing pending and no events, and listens exactly when the wrapped property is a notifier |
| TransactionalProperty.TransactionalPropertyWrapper.GetValue | src/main/java/com/macquail/vaadin6/data/transactionalproperty/TransactionalPropertyWrapper.java:56-59 | the result is the wrapped property's current value, in or out of a transaction |
| TransactionalProperty.TransactionalPropertyWrapper.IsReadOnly | src/main/java/com/macquail/vaadin6/data/transactionalproperty/TransactionalPropertyWrapper.java:110-113 | the result is the wrapped property's read-only flag |
| TransactionalProperty.TransactionalPropertyWrapper.SetValue | src/main/java/com/macquail/vaadin6/data/transactionalproperty/TransactionalPropertyWrapper.java:61-66 | throws exactly when the property is read-only; otherwise the value is written through at once and the listener runs; keeps the wrapper invariant |
| TransactionalProperty.TransactionalPropertyWrapper.WrappedValueChanged | src/main/java/com/macquail/vaadin6/data/transactionalproperty/TransactionalPropertyWrapper.java:41-47 | the listener calls fireValueChange when registered and does nothing otherwise |
| TransactionalProperty.TransactionalPropertyWrapper.StartTransaction | src/main/java/com/macquail/vaadin6/data/transactionalproperty/TransactionalPropertyWrapper.java:68-72 | opens a transaction and records the current value as the snapshot |
| TransactionalProperty.TransactionalPropertyWrapper.Commit | src/main/java/com/macquail/vaadin6/data/transactionalproperty/TransactionalPropertyWrapper.java:74-77 | the new state is the end of the transaction, as endTransaction leaves it |
| TransactionalProperty.TransactionalPropertyWrapper.Rollback | src/main/java/com/macquail/vaadin6/data/transactionalproperty/TransactionalPropertyWrapper.java:79-87 | writes the snapshot back through the property; whether or not that throws, clears the pending flag and ends the transaction; returns the write-back's exception |
| TransactionalProperty.TransactionalPropertyWrapper.EndTransaction | src/main/java/com/macquail/vaadin6/data/transactionalproperty/TransactionalPropertyWrapper.java:89-95 | closes the transaction, drops the snapshot and fires one event when a change is pending |
| TransactionalProperty.TransactionalPropertyWrapper.FireValueChange | src/main/java/com/macquail/vaadin6/data/transactionalproperty/TransactionalPropertyWrapper.java:97-104 | inside a transaction it only marks a change pending; outside it fires one event |
| TransactionalProperty.TransactionalPropertyWrapper.SetReadOnly | src/main/java/com/macquail/vaadin6/data/transactionalproperty/TransactionalPropertyWrapper.java:115-122 | forwards the flag and fires a read-only-status event when the flag changed |
| TransactionalProperty.ChangeIsDeferredInTransaction | src/main/java/com/macquail/vaadin6/data/transactionalproperty/TransactionalPropertyWrapper.java:97-104 | a change seen by the listener fires nothing in a transaction and marks a change pending if the wrapper listens; outside a transaction it fires one event if the wrapper listens; the value is untouched |
| TransactionalProperty.SetValueWritesThrough | src/main/java/com/macquail/vaadin6/data/transactionalproperty/TransactionalPropertyWrapper.java:61-66 | setValue fails exactly on a read-only property and then changes nothing; otherwise the value is the new one at once |
| TransactionalProperty.StartRecordsCurrentValue | src/main/java/com/macquail/vaadin6/data/transactionalproperty/TransactionalPropertyWrapper.java:68-72 | startTransaction opens a transaction with the current value as snapshot; starting again after any calls overwrites the snapshot with the value at that later moment |
| TransactionalProperty.CommitFlushesPending | src/main/java/com/macquail/vaadin6/data/transactionalproperty/TransactionalPropertyWrapper.java:89-95 | commit keeps the value, closes the transaction, drops the snapshot, leaves the pending flag as it was, and fires exactly one event if a change was pending, or none |
| TransactionalProperty.CommitRefiresStalePending | src/main/java/com/macquail/vaadin6/data/transactionalproperty/TransactionalPropertyWrapper.java:89-95 | the pending flag survives a commit that fired, so a later start-and-commit with no change fires again |
| TransactionalProperty.RollbackAlwaysEndsTransaction | src/main/java/com/macquail/vaadin6/data/transactionalproperty/TransactionalPropertyWrapper.java:79-87 | from any state, and even when the write-back throws, rollback leaves no transaction, nothing pending and no snapshot; it restores the snapshot unless the property is read-only, and fires only if it was called outside a transaction |
| TransactionalProperty.ReadOnlyEventIffChanged | src/main/java/com/macquail/vaadin6/data/transactionalproperty/TransactionalPropertyWrapper.java:115-122 | setReadOnly stores the flag, keeps the value and fires one read-only-status event exactly when the flag changed |
| TransactionalProperty.WritesInsideTransaction | src/main/java/com/macquail/vaadin6/data/transactionalproperty/TransactionalPropertyWrapper.java:97-104 | any run of writes inside a transaction leaves the last written value on the property (unless it is read-only), fires no event, keeps the snapshot and marks a change pending exactly when a listened write happened |
| TransactionalProperty.WritesOutsideTransaction | src/main/java/com/macquail/vaadin6/data/transactionalproperty/TransactionalPropertyWrapper.java:97-104 | outside a transaction every successful write fires exactly one event when the wrapper listens, and none otherwise |
| TransactionalProperty.RollbackUndoesWrites | src/main/java/com/macquail/vaadin6/data/transactionalproperty/TransactionalPropertyWrapper.java:79-87 | start, any writes, rollback: the value is the one at the start, no wrapper event was fired, and the wrapper is closed with nothing pending |
| TransactionalProperty.CommitFiresAtMostOnce | src/main/java/com/macquail/vaadin6/data/transactionalproperty/TransactionalPropertyWrapper.java:74-77 | start, any writes, commit: the last written value stays, and at most one event fires, exactly when a change was pending |
| TransactionalProperty.RunKeepsSnapshotInTransaction | src/main/java/com/macquail/vaadin6/data/transactionalproperty/TransactionalPropertyWrapper.java:68-95 | every sequence of client calls keeps the snapshot null outside a transaction |
| TransactionalProperty.NonNotifierNeverFires | src/main/java/com/macquail/vaadin6/data/transactionalproperty/TransactionalPropertyWrapper.java:37-49 | a wrapper with no listener never fires a value-change event and never marks one pending, whatever is called on it |
| FieldGroup.BindEntries | src/main/java/com/macquail/vaadin6/data/fieldgroup/FieldGroupV6.java:92-99 | bind's map update: refused exactly when the id is bound to another field; otherwise field maps to id and id maps to field, the key sets grow by just those two keys, every other entry is unchanged, and the id joins the insertion order only when new |
| FieldGroup.BindPreservesWellformed | src/main/java/com/macquail/vaadin6/data/fieldgroup/FieldGroupV6.java:93-99 | a successful bind keeps the table invariant: distinct ordered ids, every bound field's id leads back to it, every field in the id map is bound |
| FieldGroup.BindIsIdempotent | src/main/java/com/macquail/vaadin6/data/fieldgroup/FieldGroupV6.java:93-99 | binding the same field to the same id a second time leaves both maps as the first bind left them |
| FieldGroup.RebindRecordedIsIdentity | src/main/java/com/macquail/vaadin6/data/fieldgroup/FieldGroupV6.java:37-38 | re-binding a bound field to its recorded id is not refused and leaves both maps and the order unchanged |
| FieldGroup.RebindKeepsStaleEntry | src/main/java/com/macquail/vaadin6/data/fieldgroup/FieldGroupV6.java:98-99 | a field rebound to a new id keeps its old id entry, which still points at the field |
| FieldGroup.DistinctFieldsHaveDistinctIds | src/main/java/com/macquail/vaadin6/data/fieldgroup/FieldGroupV6.java:93-97 | in a well-formed table no two fields are bound to the same id |
| FieldGroup.WrapsAnewIsInitial | src/main/java/com/macquail/vaadin6/data/fieldgroup/FieldGroupV6.java:105 | a data source described by WrapsAnew is a valid wrapper in the wrapper constructor's initial state |
| FieldGroup.RebindRecordedResult | src/main/java/com/macquail/vaadin6/data/fieldgroup/FieldGroupV6.java:37-38 | re-binding a field to its recorded id never hits the duplicate error; it fails only when the item lacks the id |
| FieldGroup.SetFieldsThrough | src/main/java/com/macquail/vaadin6/data/fieldgroup/FieldGroupV6.java:56-59 | every given field ends with the read-through and write-through flags set to the value passed in; its other attributes are unchanged |
| FieldGroup.SetFieldsEnabled | src/main/java/com/macquail/vaadin6/data/fieldgroup/FieldGroupV6.java:68-70 | every given field ends enabled exactly when the flag is set; its other attributes are unchanged |
| FieldGroup.SetFieldsReadOnly | src/main/java/com/macquail/vaadin6/data/fieldgroup/FieldGroupV6.java:79-85 | every given field ends read-only exactly when the flag is set or its data source is read-only; its other attributes are unchanged |
| FieldGroup.FieldGroupV6.constructor | src/main/java/com/macquail/vaadin6/data/fieldgroup/FieldGroupV6.java:30-32 | a new group is buffered, enabled and writable, has an empty well-formed table and holds the given item |
| FieldGroup.FieldGroupV6.GetFields | src/main/java/com/macquail/vaadin6/data/fieldgroup/FieldGroupV6.java:88-90 | the result is exactly the set of bound fields |
| FieldGroup.FieldGroupV6.Bind | src/main/java/com/macquail/vaadin6/data/fieldgroup/FieldGroupV6.java:92-107 | fails with the duplicate error exactly when the id is bound to another field, and then changes nothing. Otherwise the maps are updated as BindEntries says. With no item it returns and leaves the field alone. A missing property fails after the maps are updated. An existing one gives the field a fresh wrapper of it. Only the field's data source can change |
| FieldGroup.FieldGroupV6.SetItemDataSource | src/main/java/com/macquail/vaadin6/data/fieldgroup/FieldGroupV6.java:34-40 | stores the item; re-binds every field without a duplicate error and leaves the table unchanged; succeeds exactly when there is no item or the item holds every bound id; with no item no data source changes; on success every field has a fresh wrapper of its property |
| FieldGroup.FieldGroupV6.SetBuffered | src/main/java/com/macquail/vaadin6/data/fieldgroup/FieldGroupV6.java:50-60 | the current value changes nothing at all; otherwise the flag is stored and every bound field reads and writes through exactly when not buffered, with nothing else changed |
| FieldGroup.FieldGroupV6.SetEnabled | src/main/java/com/macquail/vaadin6/data/fieldgroup/FieldGroupV6.java:66-71 | stores the flag; every bound field gets that enabled state and nothing else changes |
| FieldGroup.FieldGroupV6.SetReadOnly | src/main/java/com/macquail/vaadin6/data/fieldgroup/FieldGroupV6.java:77-86 | stores the flag; every bound field is read-only exactly when the flag is set or its data source is read-only, so a read-only source always wins; nothing else changes |

## Left out

- The group's commit protocol. FieldGroupV6.java has no commit or discard method. The `commitHandlers` list (FieldGroupV6.java:28) and the `CommitHandler`, `CommitEvent` and `CommitException` types (FieldGroupV6.java:115-178) have no behaviour, so they are not modelled.
- `getItemProperty`, `wrapInTransactionalProperty` and `configureField` are called by `bind` (FieldGroupV6.java:105-106) but are not defined in FieldGroupV6.java.
  - The item is modelled as a map from property id to property, and wrapping constructs a fresh `TransactionalPropertyWrapper`.
  - An id the item lacks makes bind fail with `NoSuchProperty`. The maps have already been updated by then, and the field keeps its data source.
  - `configureField` is not modelled, so bind leaves every field flag unchanged.
- The `BindException` of `bind` is the outcome `Fail(AlreadyBound)`.
  - `setItemDataSource` calls `bind` without declaring that checked exception, so FieldGroupV6.java does not compile as written.
  - The model lets the first failure of the loop end `setItemDataSource` and returns it.
  - It proves that the duplicate error cannot happen there.
- The plain getters are not modelled: `getType` and `getWrappedProperty` (TransactionalPropertyWrapper.java:51-54, 106-108) and `getItemDataSource`, `isBuffered`, `isEnabled` and `isReadOnly` (FieldGroupV6.java:42-75). The model reads those fields directly.
- Logging, `Serializable` and the exception class hierarchies are not modelled.
- How `AbstractProperty` dispatches events to listeners is not modelled. Fired events are counters.
- Only writes made through the wrapper reach the modelled listener. Changes that other code makes directly on the wrapped property also reach the listener in the source, but they are not modelled.
- A Vaadin property refusing a write while read-only is an assumption built into `Property.SetValue`. It is not something the wrapper enforces.
- Rollback writes the snapshot back through the wrapped property's own `setValue` (TransactionalPropertyWrapper.java:82). The model follows that code: a read-only property refuses the write-back, and the transaction still ends. The model does not implement a rollback that forces the value past the read-only flag.
- `setReadOnly` dereferences every field's data source (FieldGroupV6.java:80). The model requires every bound field to have one, rather than modelling a null-pointer failure.
- `HashMap` iteration order is unspecified. The loops pick the next field from the remaining set in any order, and each postcondition holds for every order.
- FieldGroup.FieldGroupV6.SetItemDataSource: its contract is weaker than the full effect in three ways. Each is left out because it makes the loop proof too expensive.
  - It does not state that the fields' enabled, read-only, read-through and write-through flags are unchanged. Bind's frame states this for each call.
  - It does not say which fields were already re-bound when the loop stopped at a failure.
  - It requires only that every bound field's id leads back to it (`LeadsBack`), not the whole table invariant. It then ensures the table is unchanged, which keeps `Valid()`.
- FieldGroup.FieldGroupV6.Bind: neither requires nor ensures the table invariant. Its preservation is the separate lemma `BindPreservesWellformed` over the map update the method is proved to perform.
