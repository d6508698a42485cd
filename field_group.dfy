/**
  The binding table of a field group: which field shows which property of the
  item, plus the group-level flags (buffered, enabled, read-only) that the
  group pushes onto every bound field.

  As in the transactional-property module there are two layers: `Bindings`
  and `BindEntries` describe the two maps as values, and the class
  `FieldGroupV6` holds them as fields and is proved against that description.
*/
module FieldGroup {
  import opened Outcomes
  import opened TransactionalProperty

  /** Why bind fails. */
  datatype BindError =
    | AlreadyBound      // the property id is bound to another field (the BindException of bind)
    | NoSuchProperty    // the item has no property with that id

  /**
    The two maps of a group: fieldToPropertyId (a hash map) and
    propertyIdToField (a linked hash map, whose key insertion order is
    propertyIdOrder).
  */
  datatype Bindings<K(==), F(==)> = Bindings(
    fieldToPropertyId: map<F, K>,
    propertyIdToField: map<K, F>,
    propertyIdOrder: seq<K>)

  /** Every bound field's id is recorded in propertyIdToField and leads back to that field. */
  ghost predicate LeadsBack<K, F>(b: Bindings<K, F>)
  {
    forall f :: f in b.fieldToPropertyId ==>
      b.fieldToPropertyId[f] in b.propertyIdToField && b.propertyIdToField[b.fieldToPropertyId[f]] == f
  }

  /**
    What the group's methods keep true of the maps: the order lists each key
    of propertyIdToField once; every bound field's id leads back to that
    field; every field in propertyIdToField is bound. propertyIdToField may
    hold stale ids of fields that were rebound, so it need not be the inverse
    of fieldToPropertyId.
  */
  ghost predicate Wellformed<K, F>(b: Bindings<K, F>)
  {
    && (forall i, j :: 0 <= i < j < |b.propertyIdOrder| ==> b.propertyIdOrder[i] != b.propertyIdOrder[j])
    && (forall k :: k in b.propertyIdToField ==> k in b.propertyIdOrder)
    && (forall i :: 0 <= i < |b.propertyIdOrder| ==> b.propertyIdOrder[i] in b.propertyIdToField)
    && LeadsBack(b)
    && (forall k :: k in b.propertyIdToField ==> b.propertyIdToField[k] in b.fieldToPropertyId)
  }

  function Empty<K(==), F(==)>(): Bindings<K, F>
  {
    Bindings(map[], map[], [])
  }

  /** The guard of bind: the id is already bound to a field other than `f`. */
  predicate BoundElsewhere<K(==), F(==)>(b: Bindings<K, F>, f: F, id: K)
  {
    id in b.propertyIdToField && b.propertyIdToField[id] != f
  }

  /** The map updates of bind, or None when bind throws. */
  function BindEntries<K(==), F(==)>(b: Bindings<K, F>, f: F, id: K): (r: Option<Bindings<K, F>>)
    ensures r.None? <==> (id in b.propertyIdToField && b.propertyIdToField[id] != f)
    ensures r.Some? ==> f in r.value.fieldToPropertyId && r.value.fieldToPropertyId[f] == id
    ensures r.Some? ==> id in r.value.propertyIdToField && r.value.propertyIdToField[id] == f
    ensures r.Some? ==> r.value.fieldToPropertyId.Keys == b.fieldToPropertyId.Keys + {f}
    ensures r.Some? ==> r.value.propertyIdToField.Keys == b.propertyIdToField.Keys + {id}
    ensures r.Some? ==> forall g :: g in b.fieldToPropertyId && g != f ==>
      r.value.fieldToPropertyId[g] == b.fieldToPropertyId[g]
    ensures r.Some? ==> forall k :: k in b.propertyIdToField && k != id ==>
      r.value.propertyIdToField[k] == b.propertyIdToField[k]
    ensures r.Some? ==>
      r.value.propertyIdOrder == (if id in b.propertyIdToField then b.propertyIdOrder else b.propertyIdOrder + [id])
  {
    if BoundElsewhere(b, f, id) then None
    else
      var order := if id in b.propertyIdToField then b.propertyIdOrder else b.propertyIdOrder + [id];
      Some(Bindings(b.fieldToPropertyId[f := id], b.propertyIdToField[id := f], order))
  }

  lemma BindPreservesWellformed<K, F>(b: Bindings<K, F>, f: F, id: K)
    requires Wellformed(b)
    ensures BindEntries(b, f, id).Some? ==> Wellformed(BindEntries(b, f, id).value)
  {
  }

  /** Binding a field to the id it is already bound to changes nothing. */
  lemma BindIsIdempotent<K, F>(b: Bindings<K, F>, f: F, id: K)
    requires BindEntries(b, f, id).Some?
    ensures BindEntries(BindEntries(b, f, id).value, f, id) == BindEntries(b, f, id)
  {
    var c := BindEntries(b, f, id).value;
    assert c.fieldToPropertyId[f := id] == c.fieldToPropertyId;
    assert c.propertyIdToField[id := f] == c.propertyIdToField;
  }

  /** Rebinding a field the group already knows, to its recorded id, leaves both maps as they were. */
  lemma RebindRecordedIsIdentity<K, F>(b: Bindings<K, F>, f: F)
    requires LeadsBack(b) && f in b.fieldToPropertyId
    ensures BindEntries(b, f, b.fieldToPropertyId[f]) == Some(b)
  {
    var id := b.fieldToPropertyId[f];
    assert b.fieldToPropertyId[f := id] == b.fieldToPropertyId;
    assert b.propertyIdToField[id := f] == b.propertyIdToField;
  }

  /** A field rebound to a new id keeps its old id entry, which still points at it. */
  lemma RebindKeepsStaleEntry<K, F>(b: Bindings<K, F>, f: F, id: K)
    requires Wellformed(b) && f in b.fieldToPropertyId && b.fieldToPropertyId[f] != id
    requires !BoundElsewhere(b, f, id)
    ensures var was := b.fieldToPropertyId[f];
      var c := BindEntries(b, f, id).value;
      && c.fieldToPropertyId[f] == id
      && was in c.propertyIdToField && c.propertyIdToField[was] == f
  {
  }

  /** In a well-formed table no two fields share a property id. */
  lemma DistinctFieldsHaveDistinctIds<K, F>(b: Bindings<K, F>, f: F, g: F)
    requires Wellformed(b) && f in b.fieldToPropertyId && g in b.fieldToPropertyId && f != g
    ensures b.fieldToPropertyId[f] != b.fieldToPropertyId[g]
  {
  }

  /** A Vaadin field, reduced to the state the group reads and writes. */
  class Field<T> {
    var enabled: bool
    var readOnly: bool
    var readThrough: bool
    var writeThrough: bool
    var propertyDataSource: TransactionalPropertyWrapper?<T>
  }

  /** An item: its properties by id. */
  type Item<K(==), T> = map<K, Property<T>>

  /**
    The field's data source is a wrapper of `p` as its constructor leaves it:
    outside a transaction, nothing pending, no snapshot, no event fired, and
    listening exactly when `p` notifies. Its value and read-only status are
    `p`'s own.
  */
  ghost predicate WrapsAnew<T>(field: Field<T>, p: Property<T>)
    reads field, field.propertyDataSource
  {
    && field.propertyDataSource != null
    && var w := field.propertyDataSource;
    && w.wrappedProperty == p && w.listening == p.isNotifier
    && !w.inTransaction && !w.valueChangePending && w.valueBeforeTransaction == None
    && w.valueChangeEvents == 0 && w.readOnlyStatusEvents == 0
  }

  /** A wrapper as WrapsAnew describes it is well-formed and in the wrapper's initial state. */
  lemma WrapsAnewIsInitial<T>(field: Field<T>, p: Property<T>)
    requires WrapsAnew(field, p)
    ensures field.propertyDataSource.Valid()
    ensures field.propertyDataSource.State() == Initial(p.value, p.readOnly, p.isNotifier)
  {
  }

  /** How bind completes, given the maps and the item before the call. */
  function BindResult<K(==), T>(b: Bindings<K, Field<T>>, item: Option<Item<K, T>>, field: Field<T>, id: K): Outcome<BindError>
  {
    if BoundElsewhere(b, field, id) then Fail(AlreadyBound)
    else if item.Some? && id !in item.value then Fail(NoSuchProperty)
    else Pass
  }

  /** Rebinding a field to its recorded id never meets a conflict; it fails only when the item lacks the id. */
  lemma RebindRecordedResult<K, T>(b: Bindings<K, Field<T>>, item: Option<Item<K, T>>, field: Field<T>)
    requires LeadsBack(b) && field in b.fieldToPropertyId
    ensures var id := b.fieldToPropertyId[field];
      BindResult(b, item, field, id) == (if item.Some? && id !in item.value then Fail(NoSuchProperty) else Pass)
  {
  }

  /** The loop of setBuffered: every field of `fields` reads and writes through exactly when `through`. */
  method SetFieldsThrough<T>(fields: set<Field<T>>, through: bool)
    modifies fields
    ensures forall f :: f in fields ==>
      && f.readThrough == through && f.writeThrough == through
      && f.enabled == old(f.enabled) && f.readOnly == old(f.readOnly)
      && f.propertyDataSource == old(f.propertyDataSource)
  {
    var remaining := fields;
    while remaining != {}
      invariant remaining <= fields
      invariant forall f :: f in fields - remaining ==> f.readThrough == through && f.writeThrough == through
      invariant forall f :: f in remaining ==> f.readThrough == old(f.readThrough) && f.writeThrough == old(f.writeThrough)
      invariant forall f :: f in fields ==>
        f.enabled == old(f.enabled) && f.readOnly == old(f.readOnly) && f.propertyDataSource == old(f.propertyDataSource)
      decreases remaining
    {
      var f: Field<T> :| f in remaining;
      f.readThrough := through;
      f.writeThrough := through;
      remaining := remaining - {f};
    }
  }

  /** The loop of setEnabled: every field of `fields` gets the enabled state `enabled`. */
  method SetFieldsEnabled<T>(fields: set<Field<T>>, enabled: bool)
    modifies fields
    ensures forall f :: f in fields ==>
      && f.enabled == enabled
      && f.readOnly == old(f.readOnly) && f.readThrough == old(f.readThrough)
      && f.writeThrough == old(f.writeThrough) && f.propertyDataSource == old(f.propertyDataSource)
  {
    var remaining := fields;
    while remaining != {}
      invariant remaining <= fields
      invariant forall f :: f in fields - remaining ==> f.enabled == enabled
      invariant forall f :: f in fields ==>
        && f.readOnly == old(f.readOnly) && f.readThrough == old(f.readThrough)
        && f.writeThrough == old(f.writeThrough) && f.propertyDataSource == old(f.propertyDataSource)
      decreases remaining
    {
      var f: Field<T> :| f in remaining;
      f.enabled := enabled;
      remaining := remaining - {f};
    }
  }

  /**
    The loop of setReadOnly: a field whose data source is writable takes the
    group's flag, a field whose data source is read-only becomes read-only.
  */
  method SetFieldsReadOnly<T>(fields: set<Field<T>>, fieldsReadOnly: bool)
    requires forall f :: f in fields ==> f.propertyDataSource != null
    modifies fields
    ensures forall f :: f in fields ==>
      && f.propertyDataSource == old(f.propertyDataSource) && f.propertyDataSource != null
      && f.readOnly == (fieldsReadOnly || f.propertyDataSource.wrappedProperty.readOnly)
      && f.enabled == old(f.enabled) && f.readThrough == old(f.readThrough)
      && f.writeThrough == old(f.writeThrough)
  {
    var remaining := fields;
    while remaining != {}
      invariant remaining <= fields
      invariant forall f :: f in fields ==>
        && f.propertyDataSource == old(f.propertyDataSource) && f.propertyDataSource != null
        && f.enabled == old(f.enabled) && f.readThrough == old(f.readThrough)
        && f.writeThrough == old(f.writeThrough)
      invariant forall f :: f in fields - remaining ==>
        f.readOnly == (fieldsReadOnly || f.propertyDataSource.wrappedProperty.readOnly)
      decreases remaining
    {
      var f: Field<T> :| f in remaining;
      var sourceReadOnly := f.propertyDataSource.IsReadOnly();
      if !sourceReadOnly {
        f.readOnly := fieldsReadOnly;
      } else {
        f.readOnly := true;
      }
      remaining := remaining - {f};
    }
  }

  class FieldGroupV6<K(==), T> {
    var itemDataSource: Option<Item<K, T>>
    var buffered: bool
    var enabled: bool
    var readOnly: bool
    var fieldToPropertyId: map<Field<T>, K>
    var propertyIdToField: map<K, Field<T>>
    var propertyIdOrder: seq<K>

    ghost function Table(): Bindings<K, Field<T>>
      reads this
    {
      Bindings(fieldToPropertyId, propertyIdToField, propertyIdOrder)
    }

    ghost predicate Valid()
      reads this
    {
      Wellformed(Table())
    }

    constructor (itemDataSource: Option<Item<K, T>>)
      ensures Valid() && Table() == Empty()
      ensures this.itemDataSource == itemDataSource
      ensures buffered && enabled && !readOnly
    {
      this.itemDataSource := None;
      buffered, enabled, readOnly := true, true, false;
      fieldToPropertyId, propertyIdToField, propertyIdOrder := map[], map[], [];
      new;
      var outcome := SetItemDataSource(itemDataSource);
    }

    method GetFields() returns (fields: set<Field<T>>)
      ensures fields == fieldToPropertyId.Keys
    {
      fields := fieldToPropertyId.Keys;
    }

    method Bind(field: Field<T>, propertyId: K) returns (r: Outcome<BindError>)
      modifies this, field`propertyDataSource
      ensures itemDataSource == old(itemDataSource) && buffered == old(buffered)
      ensures enabled == old(enabled) && readOnly == old(readOnly)
      ensures r == BindResult(old(Table()), itemDataSource, field, propertyId)
      ensures Table() == if r == Fail(AlreadyBound) then old(Table()) else BindEntries(old(Table()), field, propertyId).value
      ensures if r == Pass && itemDataSource.Some?
        then fresh(field.propertyDataSource) && WrapsAnew(field, itemDataSource.value[propertyId])
        else field.propertyDataSource == old(field.propertyDataSource)
    {
      if propertyId in propertyIdToField && propertyIdToField[propertyId] != field {
        return Fail(AlreadyBound);
      }
      if propertyId !in propertyIdToField {
        propertyIdOrder := propertyIdOrder + [propertyId];
      }
      fieldToPropertyId := fieldToPropertyId[field := propertyId];
      propertyIdToField := propertyIdToField[propertyId := field];
      if itemDataSource.None? {
        // bound when a data source is set
        return Pass;
      }
      if propertyId !in itemDataSource.value {
        return Fail(NoSuchProperty);
      }
      var wrapper := new TransactionalPropertyWrapper(itemDataSource.value[propertyId]);
      field.propertyDataSource := wrapper;
      r := Pass;
    }

    /** Sets the item and re-binds every bound field to its recorded id; the first failure ends the pass. */
    method SetItemDataSource(item: Option<Item<K, T>>) returns (r: Outcome<BindError>)
      requires LeadsBack(Table())
      modifies this, fieldToPropertyId.Keys
      ensures Table() == old(Table())
      ensures itemDataSource == item && buffered == old(buffered)
      ensures enabled == old(enabled) && readOnly == old(readOnly)
      ensures r != Fail(AlreadyBound)
      ensures r == Pass <==> item.None? || forall f :: f in fieldToPropertyId ==> fieldToPropertyId[f] in item.value
      ensures item.None? ==> forall f :: f in fieldToPropertyId ==> f.propertyDataSource == old(f.propertyDataSource)
      ensures r == Pass && item.Some? ==> forall f :: f in fieldToPropertyId ==>
        fresh(f.propertyDataSource) && WrapsAnew(f, item.value[fieldToPropertyId[f]])
    {
      ghost var table := Table();
      itemDataSource := item;
      var fields := fieldToPropertyId.Keys;
      var remaining: set<Field<T>> := fields;
      ghost var done: set<Field<T>> := {};
      r := Pass;
      while remaining != {}
        invariant remaining <= fields == table.fieldToPropertyId.Keys
        invariant Table() == table
        invariant itemDataSource == item && buffered == old(buffered)
        invariant enabled == old(enabled) && readOnly == old(readOnly)
        invariant r == Pass
        invariant done == fields - remaining
        invariant forall f :: f in fields ==>
          if f in done && item.Some?
          then table.fieldToPropertyId[f] in item.value
            && fresh(f.propertyDataSource) && WrapsAnew(f, item.value[table.fieldToPropertyId[f]])
          else f.propertyDataSource == old(f.propertyDataSource)
        decreases remaining
      {
        var f: Field<T> :| f in remaining;
        RebindRecordedIsIdentity(table, f);
        r := Bind(f, fieldToPropertyId[f]);
        if r != Pass {
          assert fieldToPropertyId == table.fieldToPropertyId;
          return;
        }
        assert item.Some? ==>
          && table.fieldToPropertyId[f] in item.value
          && fresh(f.propertyDataSource) && WrapsAnew(f, item.value[table.fieldToPropertyId[f]]);
        remaining := remaining - {f};
        done := done + {f};
      }
      assert fieldToPropertyId == table.fieldToPropertyId;
    }

    /** A no-op when the flag is unchanged; otherwise stores it and sets every field's read-through and write-through to its negation. */
    method SetBuffered(buffered: bool)
      modifies this, fieldToPropertyId.Keys
      ensures buffered == old(this.buffered) ==> unchanged(this) && unchanged(fieldToPropertyId.Keys)
      ensures this.buffered == buffered && Table() == old(Table()) && itemDataSource == old(itemDataSource)
      ensures enabled == old(enabled) && readOnly == old(readOnly)
      ensures buffered != old(this.buffered) ==> forall f :: f in fieldToPropertyId ==>
        && f.readThrough == !buffered && f.writeThrough == !buffered
        && f.enabled == old(f.enabled) && f.readOnly == old(f.readOnly)
        && f.propertyDataSource == old(f.propertyDataSource)
    {
      if buffered == this.buffered {
        return;
      }
      this.buffered := buffered;
      var fields := GetFields();
      SetFieldsThrough(fields, !buffered);
    }

    /** Stores the flag and sets every field's enabled state to it. */
    method SetEnabled(fieldsEnabled: bool)
      modifies this, fieldToPropertyId.Keys
      ensures enabled == fieldsEnabled && Table() == old(Table()) && itemDataSource == old(itemDataSource)
      ensures buffered == old(buffered) && readOnly == old(readOnly)
      ensures forall f :: f in fieldToPropertyId ==>
        && f.enabled == fieldsEnabled
        && f.readOnly == old(f.readOnly) && f.readThrough == old(f.readThrough)
        && f.writeThrough == old(f.writeThrough) && f.propertyDataSource == old(f.propertyDataSource)
    {
      enabled := fieldsEnabled;
      var fields := GetFields();
      SetFieldsEnabled(fields, fieldsEnabled);
    }

    /** Stores the flag; every field becomes read-only when the flag is set or its data source is read-only. */
    method SetReadOnly(fieldsReadOnly: bool)
      requires forall f :: f in fieldToPropertyId ==> f.propertyDataSource != null
      modifies this, fieldToPropertyId.Keys
      ensures readOnly == fieldsReadOnly && Table() == old(Table()) && itemDataSource == old(itemDataSource)
      ensures buffered == old(buffered) && enabled == old(enabled)
      ensures forall f :: f in fieldToPropertyId ==>
        && f.propertyDataSource == old(f.propertyDataSource) && f.propertyDataSource != null
        && f.readOnly == (fieldsReadOnly || f.propertyDataSource.wrappedProperty.readOnly)
        && f.enabled == old(f.enabled) && f.readThrough == old(f.readThrough)
        && f.writeThrough == old(f.writeThrough)
    {
      readOnly := fieldsReadOnly;
      var fields := GetFields();
      SetFieldsReadOnly(fields, fieldsReadOnly);
    }
  }
}
