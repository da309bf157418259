/** The lifetime of a managed resource: one slot, terminal closure, and counted leases. */
module Lifecycle {
  import opened Wrappers

  datatype Slot<T> = Slot(value: Option<T>, closed: bool, active: nat) {
    // `take`
    function Taken(): Slot<T> {
      this.(value := None)
    }

    // `restore`: refused once closed.
    function Restored(v: T): Slot<T> {
      if closed then this else this.(value := Some(v))
    }

    // `enter`: refused once closed.
    function Entered(): Option<Slot<T>> {
      if closed then None else Some(this.(active := active + 1))
    }

    // Dropping a lease.
    function Left(): Slot<T>
      requires active > 0
    {
      this.(active := active - 1)
    }

    function MarkedClosed(): Slot<T> {
      this.(closed := true)
    }
  }

  class ManagedResource<T> {
    var value: Option<T>
    var closed: bool
    var active: nat

    function Contents(): Slot<T>
      reads this
    {
      Slot(value, closed, active)
    }

    constructor (initial: T)
      ensures Contents() == Slot(Some(initial), false, 0)
    {
      value, closed, active := Some(initial), false, 0;
    }

    method Begin() returns (admitted: bool)
      modifies this
      ensures admitted <==> old(Contents()).Entered().Some?
      ensures Contents() == if admitted then old(Contents()).Entered().value else old(Contents())
    {
      if closed {
        return false;
      }
      active := active + 1;
      return true;
    }

    // Dropping a lease; `true` when closers waiting for idleness are notified.
    method Release() returns (notified: bool)
      requires active > 0
      modifies this
      ensures Contents() == old(Contents()).Left()
      ensures notified <==> Contents().active == 0
    {
      active := active - 1;
      notified := active == 0;
    }

    method Take() returns (taken: Option<T>)
      modifies this
      ensures taken == old(value) && Contents() == old(Contents()).Taken()
    {
      taken, value := value, None;
    }

    method Restore(v: T)
      modifies this
      ensures Contents() == old(Contents()).Restored(v)
    {
      if !closed {
        value := Some(v);
      }
    }

    method StartClose() returns (dropped: Option<T>)
      modifies this
      ensures Contents() == old(Contents()).MarkedClosed().Taken() && dropped == old(value)
    {
      closed := true;
      dropped := Take();
    }

    // An iterator advance that is dropped before it finishes: its value goes back, if it may.
    method AbandonAdvance() returns (had: Option<T>)
      modifies this
      ensures had == old(value)
      ensures Contents() == if closed then old(Contents()).Taken() else old(Contents())
    {
      had := Take();
      if had.Some? {
        Restore(had.value);
      }
    }
  }
}
