/**
  A two-phase-commit wrapper around one mutable property.

  Reads and writes go straight through to the wrapped property. The wrapper
  remembers the value at the start of a transaction so that a rollback can
  write it back, and it holds back its own value-change events while a
  transaction is open, releasing at most one when the transaction ends.

  The module has two layers. `TxState` and the functions over it are the
  abstract state machine. The classes `Property` and
  `TransactionalPropertyWrapper` are the mutable objects, and every method of
  the wrapper is proved to move `State()` exactly as the matching function
  says. The lemmas at the end are about the state machine.
*/
module TransactionalProperty {
  import opened Outcomes

  /** The exception a read-only property throws from setValue. */
  datatype PropertyError = ReadOnlyException

  /** One wrapper together with the property it wraps. */
  datatype TxState<T> = TxState(
    value: Option<T>,                // the wrapped property's value
    readOnly: bool,                  // the wrapped property's read-only flag
    listening: bool,                 // the wrapper listens to the wrapped property
    inTransaction: bool,
    valueChangePending: bool,
    valueBeforeTransaction: Option<T>,
    valueChangeEvents: nat,          // value-change events the wrapper has fired
    readOnlyStatusEvents: nat)       // read-only-status events the wrapper has fired

  /** A freshly constructed wrapper around a property in the given state. */
  function Initial<T>(value: Option<T>, readOnly: bool, isNotifier: bool): TxState<T>
  {
    TxState(value, readOnly, isNotifier, false, false, None, 0, 0)
  }

  /** The snapshot is held only while a transaction is open. */
  predicate SnapshotOnlyInTransaction<T>(s: TxState<T>)
  {
    !s.inTransaction ==> s.valueBeforeTransaction == None
  }

  /** fireValueChange: defer while in a transaction, otherwise fire. */
  function Fired<T>(s: TxState<T>): TxState<T>
  {
    if s.inTransaction then s.(valueChangePending := true)
    else s.(valueChangeEvents := s.valueChangeEvents + 1)
  }

  /** The listener the constructor attaches: a change of the wrapped property calls fireValueChange. */
  function Notified<T>(s: TxState<T>): TxState<T>
  {
    if s.listening then Fired(s) else s
  }

  /** How the wrapped property's setValue completes: a read-only property throws. */
  function WriteOutcome<T>(s: TxState<T>): Outcome<PropertyError>
  {
    if s.readOnly then Fail(ReadOnlyException) else Pass
  }

  /** setValue: write through to the wrapped property, whose change signal reaches the listener. */
  function Written<T>(s: TxState<T>, v: Option<T>): TxState<T>
  {
    if s.readOnly then s else Notified(s.(value := v))
  }

  /** startTransaction */
  function Started<T>(s: TxState<T>): TxState<T>
  {
    s.(inTransaction := true, valueBeforeTransaction := s.value)
  }

  /** endTransaction: close, drop the snapshot, fire if a change is pending. */
  function Ended<T>(s: TxState<T>): TxState<T>
  {
    var t := s.(inTransaction := false, valueBeforeTransaction := None);
    if t.valueChangePending then Fired(t) else t
  }

  /** commit */
  function Committed<T>(s: TxState<T>): TxState<T>
  {
    Ended(s)
  }

  /** rollback: write the snapshot back; then, whatever that write did, clear the pending flag and end. */
  function RolledBack<T>(s: TxState<T>): TxState<T>
  {
    Ended(Written(s, s.valueBeforeTransaction).(valueChangePending := false))
  }

  /** setReadOnly: forward the flag; fire a read-only-status event when it changed. */
  function ReadOnlySet<T>(s: TxState<T>, newStatus: bool): TxState<T>
  {
    var t := s.(readOnly := newStatus);
    if s.readOnly != t.readOnly then t.(readOnlyStatusEvents := t.readOnlyStatusEvents + 1) else t
  }

  /** The calls a client can make on a wrapper. */
  datatype Op<T> = SetTo(v: Option<T>) | SetReadOnlyTo(b: bool) | StartTx | CommitTx | RollbackTx

  function Apply<T>(s: TxState<T>, op: Op<T>): TxState<T>
  {
    match op
    case SetTo(v) => Written(s, v)
    case SetReadOnlyTo(b) => ReadOnlySet(s, b)
    case StartTx => Started(s)
    case CommitTx => Committed(s)
    case RollbackTx => RolledBack(s)
  }

  /** The state after the calls `ops`, in order. */
  function Run<T>(s: TxState<T>, ops: seq<Op<T>>): TxState<T>
    decreases |ops|
  {
    if ops == [] then s else Run(Apply(s, ops[0]), ops[1..])
  }

  /** Every call in `ops` is a setValue. */
  predicate AllWrites<T>(ops: seq<Op<T>>)
  {
    forall i :: 0 <= i < |ops| ==> ops[i].SetTo?
  }

  /** The value a sequence of setValue calls leaves in a writable property. */
  function LastWritten<T>(ops: seq<Op<T>>, current: Option<T>): Option<T>
    requires AllWrites(ops)
  {
    if ops == [] then current else ops[|ops| - 1].v
  }

  /**
    The property being wrapped. Its setValue refusing to write while read-only
    is an assumption about the Vaadin property, not something the wrapper
    enforces. `isNotifier` says whether the property can notify listeners of
    changes (implements ValueChangeNotifier).
  */
  class Property<T> {
    var value: Option<T>
    var readOnly: bool
    const isNotifier: bool

    constructor (value: Option<T>, readOnly: bool, isNotifier: bool)
      ensures this.value == value && this.readOnly == readOnly && this.isNotifier == isNotifier
    {
      this.value := value;
      this.readOnly := readOnly;
      this.isNotifier := isNotifier;
    }

    method SetValue(newValue: Option<T>) returns (r: Outcome<PropertyError>)
      modifies this
      ensures r == (if old(readOnly) then Fail(ReadOnlyException) else Pass)
      ensures value == (if old(readOnly) then old(value) else newValue)
      ensures readOnly == old(readOnly)
    {
      if readOnly {
        r := Fail(ReadOnlyException);
      } else {
        value := newValue;
        r := Pass;
      }
    }

    method SetReadOnly(newStatus: bool)
      modifies this
      ensures readOnly == newStatus && value == old(value)
    {
      readOnly := newStatus;
    }
  }

  class TransactionalPropertyWrapper<T> {
    const wrappedProperty: Property<T>
    /** The constructor attached a listener to the wrapped property. */
    const listening: bool
    var inTransaction: bool
    var valueChangePending: bool
    var valueBeforeTransaction: Option<T>
    /** Events fired through AbstractProperty's fireValueChange and fireReadOnlyStatusChange. */
    ghost var valueChangeEvents: nat
    ghost var readOnlyStatusEvents: nat

    ghost function State(): TxState<T>
      reads this, wrappedProperty
    {
      TxState(wrappedProperty.value, wrappedProperty.readOnly, listening, inTransaction,
              valueChangePending, valueBeforeTransaction, valueChangeEvents, readOnlyStatusEvents)
    }

    ghost predicate Valid()
      reads this, wrappedProperty
    {
      listening == wrappedProperty.isNotifier && SnapshotOnlyInTransaction(State())
    }

    /** Hooks the listener up exactly when the wrapped property is a change notifier. */
    constructor (wrappedProperty: Property<T>)
      ensures this.wrappedProperty == wrappedProperty && Valid()
      ensures State() == Initial(wrappedProperty.value, wrappedProperty.readOnly, wrappedProperty.isNotifier)
    {
      this.wrappedProperty := wrappedProperty;
      listening := wrappedProperty.isNotifier;
      inTransaction := false;
      valueChangePending := false;
      valueBeforeTransaction := None;
      valueChangeEvents := 0;
      readOnlyStatusEvents := 0;
    }

    method GetValue() returns (v: Option<T>)
      ensures v == wrappedProperty.value
    {
      v := wrappedProperty.value;
    }

    method IsReadOnly() returns (b: bool)
      ensures b == wrappedProperty.readOnly
    {
      b := wrappedProperty.readOnly;
    }

    method SetValue(newValue: Option<T>) returns (r: Outcome<PropertyError>)
      requires Valid()
      modifies this, wrappedProperty
      ensures Valid()
      ensures r == WriteOutcome(old(State()))
      ensures State() == Written(old(State()), newValue)
    {
      r := wrappedProperty.SetValue(newValue);
      if r.Pass? {
        WrappedValueChanged();
      }
    }

    /** The listener's valueChange callback, run after each change of the wrapped property. */
    method WrappedValueChanged()
      modifies this
      ensures State() == Notified(old(State()))
    {
      if listening {
        FireValueChange();
      }
    }

    method StartTransaction()
      requires Valid()
      modifies this
      ensures Valid()
      ensures State() == Started(old(State()))
    {
      inTransaction := true;
      valueBeforeTransaction := GetValue();
    }

    method Commit()
      requires Valid()
      modifies this
      ensures Valid()
      ensures State() == Committed(old(State()))
    {
      EndTransaction();
    }

    /** Returns the exception the write-back threw, after the cleanup has run. */
    method Rollback() returns (r: Outcome<PropertyError>)
      requires Valid()
      modifies this, wrappedProperty
      ensures Valid()
      ensures r == WriteOutcome(old(State()))
      ensures State() == RolledBack(old(State()))
    {
      r := wrappedProperty.SetValue(valueBeforeTransaction);
      if r.Pass? {
        WrappedValueChanged();
      }
      // the finally block
      valueChangePending := false;
      EndTransaction();
    }

    method EndTransaction()
      modifies this
      ensures State() == Ended(old(State()))
    {
      inTransaction := false;
      valueBeforeTransaction := None;
      if valueChangePending {
        FireValueChange();
      }
    }

    method FireValueChange()
      modifies this
      ensures State() == Fired(old(State()))
    {
      if inTransaction {
        valueChangePending := true;
      } else {
        valueChangeEvents := valueChangeEvents + 1;
      }
    }

    method SetReadOnly(newStatus: bool)
      requires Valid()
      modifies this, wrappedProperty
      ensures Valid()
      ensures State() == ReadOnlySet(old(State()), newStatus)
    {
      var oldStatus := IsReadOnly();
      wrappedProperty.SetReadOnly(newStatus);
      var status := IsReadOnly();
      if oldStatus != status {
        readOnlyStatusEvents := readOnlyStatusEvents + 1;
      }
    }
  }

  // ---------------------------------------------------------------------
  // Laws of the state machine

  /** The listener: inside a transaction a change only marks itself pending; outside it fires once; without a listener nothing happens. */
  lemma ChangeIsDeferredInTransaction<T>(s: TxState<T>)
    ensures var t := Notified(s);
      && t.value == s.value && t.inTransaction == s.inTransaction
      && (s.inTransaction ==> t.valueChangeEvents == s.valueChangeEvents
                              && t.valueChangePending == (s.valueChangePending || s.listening))
      && (!s.inTransaction ==> t.valueChangePending == s.valueChangePending
                               && t.valueChangeEvents == s.valueChangeEvents + (if s.listening then 1 else 0))
  {
  }

  /** setValue writes through at once, or throws and changes nothing when the property is read-only. */
  lemma SetValueWritesThrough<T>(s: TxState<T>, v: Option<T>)
    ensures WriteOutcome(s).Fail? <==> s.readOnly
    ensures Written(s, v).value == (if s.readOnly then s.value else v)
    ensures s.readOnly ==> Written(s, v) == s
  {
  }

  /** startTransaction opens a transaction and records the current value, overwriting an earlier snapshot. */
  lemma StartRecordsCurrentValue<T>(s: TxState<T>, ops: seq<Op<T>>)
    ensures Started(s).inTransaction && Started(s).valueBeforeTransaction == s.value
    ensures Started(s).value == s.value && Started(s).valueChangeEvents == s.valueChangeEvents
    ensures var t := Run(Started(s), ops);
      Started(t).valueBeforeTransaction == t.value
  {
  }

  /** commit keeps the value, closes the transaction, keeps the pending flag and fires once exactly when a change was pending. */
  lemma CommitFlushesPending<T>(s: TxState<T>)
    ensures var t := Committed(s);
      && t.value == s.value && t.readOnly == s.readOnly
      && !t.inTransaction && t.valueBeforeTransaction == None
      && t.valueChangePending == s.valueChangePending
      && t.valueChangeEvents == s.valueChangeEvents + (if s.valueChangePending then 1 else 0)
  {
  }

  /** Only rollback clears the pending flag, so after a commit that fired, the next commit fires again with no change in between. */
  lemma CommitRefiresStalePending<T>(s: TxState<T>)
    requires s.valueChangePending
    ensures var t := Committed(s);
      && t.valueChangeEvents == s.valueChangeEvents + 1
      && t.valueChangePending
      && Committed(Started(t)).valueChangeEvents == t.valueChangeEvents + 1
  {
  }

  /** Whatever state it starts from and whether or not the write-back throws, rollback ends the transaction with nothing pending. */
  lemma RollbackAlwaysEndsTransaction<T>(s: TxState<T>)
    ensures var t := RolledBack(s);
      && !t.inTransaction && !t.valueChangePending && t.valueBeforeTransaction == None
      && (WriteOutcome(s).Fail? <==> s.readOnly)
      && t.value == (if s.readOnly then s.value else s.valueBeforeTransaction)
      && t.valueChangeEvents == s.valueChangeEvents + (if !s.inTransaction && s.listening && !s.readOnly then 1 else 0)
  {
  }

  /** setReadOnly forwards the flag and fires a read-only-status event exactly when the flag changed. */
  lemma ReadOnlyEventIffChanged<T>(s: TxState<T>, newStatus: bool)
    ensures var t := ReadOnlySet(s, newStatus);
      && t.readOnly == newStatus && t.value == s.value
      && t.valueChangeEvents == s.valueChangeEvents
      && t.readOnlyStatusEvents == s.readOnlyStatusEvents + (if s.readOnly != newStatus then 1 else 0)
  {
  }

  /** Writes inside a transaction land on the property at once but fire no event; they only mark a change pending. */
  lemma {:induction false} WritesInsideTransaction<T>(s: TxState<T>, ops: seq<Op<T>>)
    requires s.inTransaction && AllWrites(ops)
    ensures var t := Run(s, ops);
      && t.inTransaction && t.readOnly == s.readOnly && t.listening == s.listening
      && t.valueBeforeTransaction == s.valueBeforeTransaction
      && t.value == (if s.readOnly then s.value else LastWritten(ops, s.value))
      && t.valueChangeEvents == s.valueChangeEvents
      && t.readOnlyStatusEvents == s.readOnlyStatusEvents
      && t.valueChangePending == (s.valueChangePending || (s.listening && !s.readOnly && ops != []))
    decreases |ops|
  {
    if ops != [] {
      var s' := Written(s, ops[0].v);
      assert Apply(s, ops[0]) == s';
      assert AllWrites(ops[1..]) by {
        forall i | 0 <= i < |ops[1..]| ensures ops[1..][i].SetTo? {
          assert ops[1..][i] == ops[i + 1];
        }
      }
      WritesInsideTransaction(s', ops[1..]);
      if ops[1..] != [] {
        assert ops[1..][|ops[1..]| - 1] == ops[|ops| - 1];
      }
    }
  }

  /** Outside a transaction every successful write fires exactly one event when the wrapper listens, and none otherwise. */
  lemma {:induction false} WritesOutsideTransaction<T>(s: TxState<T>, ops: seq<Op<T>>)
    requires !s.inTransaction && AllWrites(ops)
    ensures var t := Run(s, ops);
      && !t.inTransaction && t.readOnly == s.readOnly
      && t.valueBeforeTransaction == s.valueBeforeTransaction
      && t.valueChangePending == s.valueChangePending
      && t.value == (if s.readOnly then s.value else LastWritten(ops, s.value))
      && t.valueChangeEvents == s.valueChangeEvents + (if s.listening && !s.readOnly then |ops| else 0)
    decreases |ops|
  {
    if ops != [] {
      var s' := Written(s, ops[0].v);
      assert Apply(s, ops[0]) == s';
      assert AllWrites(ops[1..]) by {
        forall i | 0 <= i < |ops[1..]| ensures ops[1..][i].SetTo? {
          assert ops[1..][i] == ops[i + 1];
        }
      }
      WritesOutsideTransaction(s', ops[1..]);
      if ops[1..] != [] {
        assert ops[1..][|ops[1..]| - 1] == ops[|ops| - 1];
      }
    }
  }

  /** Undo law: start, any writes, rollback gives back the value at the start and fires no wrapper event. */
  lemma RollbackUndoesWrites<T>(s: TxState<T>, ops: seq<Op<T>>)
    requires AllWrites(ops)
    ensures var t := RolledBack(Run(Started(s), ops));
      && t.value == s.value
      && t.valueChangeEvents == s.valueChangeEvents
      && !t.inTransaction && !t.valueChangePending && t.valueBeforeTransaction == None
  {
    WritesInsideTransaction(Started(s), ops);
  }

  /** A transaction of writes ended by commit keeps the last written value and fires at most one event. */
  lemma CommitFiresAtMostOnce<T>(s: TxState<T>, ops: seq<Op<T>>)
    requires AllWrites(ops)
    ensures var changed := s.valueChangePending || (s.listening && !s.readOnly && ops != []);
      var t := Committed(Run(Started(s), ops));
      && t.value == (if s.readOnly then s.value else LastWritten(ops, s.value))
      && !t.inTransaction && t.valueBeforeTransaction == None
      && t.valueChangePending == changed
      && t.valueChangeEvents == s.valueChangeEvents + (if changed then 1 else 0)
  {
    WritesInsideTransaction(Started(s), ops);
  }

  /** Every call keeps the snapshot confined to open transactions. */
  lemma {:induction false} RunKeepsSnapshotInTransaction<T>(s: TxState<T>, ops: seq<Op<T>>)
    requires SnapshotOnlyInTransaction(s)
    ensures SnapshotOnlyInTransaction(Run(s, ops))
    decreases |ops|
  {
    if ops != [] {
      RunKeepsSnapshotInTransaction(Apply(s, ops[0]), ops[1..]);
    }
  }

  /** A wrapper around a property that cannot notify never fires a value-change event, whatever is called on it. */
  lemma {:induction false} NonNotifierNeverFires<T>(s: TxState<T>, ops: seq<Op<T>>)
    requires !s.listening && !s.valueChangePending
    ensures Run(s, ops).valueChangeEvents == s.valueChangeEvents
    ensures !Run(s, ops).valueChangePending
    decreases |ops|
  {
    if ops != [] {
      NonNotifierNeverFires(Apply(s, ops[0]), ops[1..]);
    }
  }
}
