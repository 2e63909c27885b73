/**
 * The halls screen (src/components/Halls/HallList.tsx): delete a hall after
 * confirmation, and save the hall the form returns — in place when a hall
 * was being edited, appended when a new one was being created.
 */
module HallList {
  import opened Seqs
  import opened Types
  import opened Collections
  import opened Storage
  import opened HallForm

  /** Every stored hall's capacity is its count of available seats. */
  ghost predicate AllCapacitiesConsistent(halls: seq<Hall>) {
    forall h :: h in halls ==> CapacityConsistent(h)
  }

  /** Deleting halls keeps every remaining capacity consistent. */
  lemma DeleteKeepsCapacities(halls: seq<Hall>, hallId: string)
    requires AllCapacitiesConsistent(halls)
    ensures AllCapacitiesConsistent(WithoutKey(halls, HallId, hallId))
  {
  }

  /** Saving a consistent hall, as an update or as a new hall, keeps every capacity consistent. */
  lemma SaveKeepsCapacities(halls: seq<Hall>, hall: Hall)
    requires AllCapacitiesConsistent(halls) && CapacityConsistent(hall)
    ensures AllCapacitiesConsistent(ReplaceByKey(halls, HallId, hall))
    ensures AllCapacitiesConsistent(halls + [hall])
  {
    forall h | h in ReplaceByKey(halls, HallId, hall) ensures CapacityConsistent(h) {
      ReplaceByKeyMembers(halls, HallId, hall, h);
    }
  }

  class HallListState {
    const store: RecordStore
    /** The hall open in the form: Some when editing, None when creating. */
    var editingHall: Option<Hall>

    constructor (store: RecordStore)
      ensures this.store == store && editingHall.None?
    {
      this.store := store;
      editingHall := None;
    }

    /** `handleDelete`: `confirmed` is the user's answer to the confirmation prompt. */
    method HandleDelete(hallId: string, confirmed: bool)
      modifies store`halls
      ensures store.halls == if confirmed then WithoutKey(old(store.halls), HallId, hallId) else old(store.halls)
      ensures AllCapacitiesConsistent(old(store.halls)) ==> AllCapacitiesConsistent(store.halls)
    {
      if confirmed {
        store.halls := WithoutKey(store.halls, HallId, hallId);
      }
    }

    /** `handleEdit`: open the form on an existing hall. */
    method HandleEdit(hall: Hall)
      modifies this`editingHall
      ensures editingHall == Some(hall)
    {
      editingHall := Some(hall);
    }

    /** The form's `onSave`: update in place when editing, append otherwise, then close the form. */
    method SaveHall(hall: Hall)
      modifies store`halls, this`editingHall
      ensures store.halls == if old(editingHall).Some? then ReplaceByKey(old(store.halls), HallId, hall)
                             else old(store.halls) + [hall]
      ensures editingHall.None?
      ensures AllCapacitiesConsistent(old(store.halls)) && CapacityConsistent(hall) ==> AllCapacitiesConsistent(store.halls)
    {
      if AllCapacitiesConsistent(store.halls) && CapacityConsistent(hall) {
        SaveKeepsCapacities(store.halls, hall);
      }
      if editingHall.Some? {
        store.halls := ReplaceByKey(store.halls, HallId, hall);
      } else {
        store.halls := store.halls + [hall];
      }
      editingHall := None;
    }
  }
}
