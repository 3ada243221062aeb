/** The cell handle `Element<ElementType>`: a view of one slot's optional
    value. Every write reports the change-notification it raises, so that the
    owning node can apply it (see module Matrix). */
module Element {
  import opened Wrappers

  /** The event a write raises: `_on_value_added`, `_on_value_deleted`, or
      nothing at all. */
  datatype Signal = Added | Deleted | Silent

  /** The change in occupancy an event stands for. */
  function Delta(s: Signal): int
  {
    match s
    case Added => 1
    case Deleted => -1
    case Silent => 0
  }

  /** 1 if the cell holds a value, 0 otherwise. */
  function Presence<T>(cell: Option<T>): nat
  {
    if cell.Some? then 1 else 0
  }

  /** A written cell together with the event the write raised. */
  datatype Written<T> = Written(cell: Option<T>, signal: Signal)

  predicate IsEmpty<T>(cell: Option<T>)
  {
    cell.None?
  }

  /** `operator=(ElementType)`: both the copy and the move overload. The added
      event is raised exactly when the cell goes from empty to present. */
  function Assign<T>(cell: Option<T>, val: T): (r: Written<T>)
    ensures r.cell == Some(val)
    ensures r.signal != Deleted
    ensures Delta(r.signal) == Presence(r.cell) - Presence(cell)
  {
    var wereEmpty := IsEmpty(cell);
    Written(Some(val), if wereEmpty then Added else Silent)
  }

  /** `operator=(boost::none_t)`: the deleted event is raised exactly when the
      cell goes from present to empty. */
  function Clear<T>(cell: Option<T>): (r: Written<T>)
    ensures IsEmpty(r.cell)
    ensures r.signal != Added
    ensures Delta(r.signal) == Presence(r.cell) - Presence(cell)
  {
    var wereNotEmpty := !IsEmpty(cell);
    Written(None, if wereNotEmpty then Deleted else Silent)
  }

  /** Either overload, chosen by the value written: `Some(val)` stands for
      `= val`, `None` for `= boost::none`. */
  function Store<T>(cell: Option<T>, v: Option<T>): (r: Written<T>)
    ensures r.cell == v
    ensures Delta(r.signal) == Presence(v) - Presence(cell)
  {
    match v
    case Some(val) => Assign(cell, val)
    case None => Clear(cell)
  }

  /** The conversion `operator ElementType&`, which asserts the cell is not
      empty. */
  function Read<T>(cell: Option<T>): (r: T)
    requires !IsEmpty(cell)
    ensures cell == Some(r)
  {
    cell.value
  }

  /** A signal is determined by the change in occupancy it stands for. */
  lemma DeltaDeterminesSignal(s: Signal, t: Signal)
    requires Delta(s) == Delta(t)
    ensures s == t
  {
  }
}
