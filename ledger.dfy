/**
 The booking ledger (`BookingAgent`): an append-only list of bookings kept in
 a store that is read whole, extended by one record and written back whole.
 Each new record's id is the length of the list read plus one.

 The store is a value describing the bookings file; `IoFault` stands for what
 the file system does during one call, so every failure path of the source
 can be chosen by the caller of the model.
 */
module Ledger {

  datatype Booking = Booking(id: int, carModel: string, date: string, time: string, createdAt: string)

  /** The bookings file: missing, present but not a readable list, or holding a list of bookings. */
  datatype Store = Absent | Unreadable | Holds(bookings: seq<Booking>)

  /** What goes wrong, if anything, while `create_booking` reads and rewrites the file. */
  datatype IoFault =
    | NoFault
    | ReadFault                 // opening or reading the file raises
    | OpenForWriteFault         // opening the file for writing raises; nothing is written
    | WriteFaultAfterTruncate   // the file was truncated for writing, then writing raised

  /** One call's arguments, with the timestamp it records and the fault it meets. */
  datatype Request = Request(carModel: string, date: string, time: string, createdAt: string, fault: IoFault)

  datatype CreateResult = CreateResult(ok: bool, store: Store)

  /** The record `create_booking` appends to the list `bs` it read. */
  function NewBooking(bs: seq<Booking>, carModel: string, date: string, time: string, createdAt: string): Booking
  {
    Booking(|bs| + 1, carModel, date, time, createdAt)
  }

  /** `create_booking` on the value of the store: its boolean result and the store afterwards. */
  function Create(store: Store, carModel: string, date: string, time: string, createdAt: string, fault: IoFault): (r: CreateResult)
    // true exactly on the path where the extended list is written
    ensures r.ok <==> store.Holds? && fault == NoFault
    // success: one more record, everything before it untouched, the new one carries the arguments
    ensures r.ok ==> r.store.Holds? && |r.store.bookings| == |store.bookings| + 1
    ensures r.ok ==> r.store.bookings[..|store.bookings|] == store.bookings
    ensures r.ok ==> r.store.bookings[|store.bookings|]
                     == Booking(|store.bookings| + 1, carModel, date, time, createdAt)
    // failure: no record added; only a write that failed after truncation changes the file
    ensures !r.ok && fault != WriteFaultAfterTruncate ==> r.store == store
    ensures !r.ok && fault == WriteFaultAfterTruncate ==> r.store == (if store.Holds? then Unreadable else store)
  {
    match store
    case Holds(bs) =>
      if fault == NoFault then CreateResult(true, Holds(bs + [NewBooking(bs, carModel, date, time, createdAt)]))
      else if fault == WriteFaultAfterTruncate then CreateResult(false, Unreadable)
      else CreateResult(false, store)
    case _ => CreateResult(false, store)
  }

  /** Every record's id is its 1-based position. */
  ghost predicate SequentialIds(bs: seq<Booking>)
  {
    forall i :: 0 <= i < |bs| ==> bs[i].id == i + 1
  }

  /** A store whose list, when it has one, is numbered by position. */
  ghost predicate WellNumbered(store: Store)
  {
    store.Holds? ==> SequentialIds(store.bookings)
  }

  /** `create_booking` keeps the numbering, whatever the file system does. */
  lemma CreateKeepsNumbering(store: Store, carModel: string, date: string, time: string, createdAt: string, fault: IoFault)
    requires WellNumbered(store)
    ensures WellNumbered(Create(store, carModel, date, time, createdAt, fault).store)
  {
    var r := Create(store, carModel, date, time, createdAt, fault);
    if r.ok {
      var bs, bs' := store.bookings, r.store.bookings;
      forall i | 0 <= i < |bs'| ensures bs'[i].id == i + 1 {
        if i < |bs| {
          assert bs'[i] == bs'[..|bs|][i] == bs[i];
        }
      }
    }
  }

  /** The store after a sequence of `create_booking` calls. */
  function Run(store: Store, reqs: seq<Request>): Store
    decreases |reqs|
  {
    if reqs == [] then store
    else
      var q := reqs[|reqs| - 1];
      Create(Run(store, reqs[..|reqs| - 1]), q.carModel, q.date, q.time, q.createdAt, q.fault).store
  }

  /** From an empty list and using only `create_booking`, record i always has id i + 1. */
  lemma {:induction false} RunKeepsNumbering(reqs: seq<Request>)
    ensures WellNumbered(Run(Holds([]), reqs))
    decreases |reqs|
  {
    if reqs != [] {
      RunKeepsNumbering(reqs[..|reqs| - 1]);
      var q := reqs[|reqs| - 1];
      CreateKeepsNumbering(Run(Holds([]), reqs[..|reqs| - 1]), q.carModel, q.date, q.time, q.createdAt, q.fault);
    }
  }

  /** Without faults, `n` calls from an empty list leave exactly `n` records, the k-th holding the k-th
      call's arguments under id k + 1: what is written can be read back field for field. */
  lemma {:induction false} RunWithoutFaults(reqs: seq<Request>)
    requires forall k :: 0 <= k < |reqs| ==> reqs[k].fault == NoFault
    ensures Run(Holds([]), reqs).Holds?
    ensures |Run(Holds([]), reqs).bookings| == |reqs|
    ensures forall k :: 0 <= k < |reqs| ==>
              Run(Holds([]), reqs).bookings[k]
              == Booking(k + 1, reqs[k].carModel, reqs[k].date, reqs[k].time, reqs[k].createdAt)
    decreases |reqs|
  {
    if reqs != [] {
      var init := reqs[..|reqs| - 1];
      RunWithoutFaults(init);
      var bs := Run(Holds([]), init).bookings;
      var bs' := Run(Holds([]), reqs).bookings;
      assert bs'[..|bs|] == bs;
      forall k | 0 <= k < |init| ensures bs'[k] == bs[k] && init[k] == reqs[k] {
        assert bs'[k] == bs'[..|bs|][k];
      }
    }
  }

  /** The ledger object: its one piece of state is the bookings file. */
  class BookingAgent {
    var store: Store
    /** How many times `create_booking` has been called on this object (proof bookkeeping only). */
    ghost var attempts: nat

    /** The constructor runs `_ensure_file_exists` on the file as it finds it. */
    constructor (initial: Store)
      ensures store == (if initial.Absent? then Holds([]) else initial)
      ensures attempts == 0
    {
      store := initial;
      attempts := 0;
      new;
      EnsureFileExists();
    }

    /** `_ensure_file_exists`: a missing file becomes the empty list; an existing one is left alone. */
    method EnsureFileExists()
      modifies this`store
      ensures store == (if old(store).Absent? then Holds([]) else old(store))
    {
      if store.Absent? {
        store := Holds([]);
      }
    }

    /** `create_booking`: read the list, append a record numbered by the list's length, write it back. */
    method CreateBooking(carModel: string, date: string, time: string, createdAt: string, fault: IoFault)
      returns (ok: bool)
      modifies this
      ensures CreateResult(ok, store) == Create(old(store), carModel, date, time, createdAt, fault)
      ensures attempts == old(attempts) + 1
    {
      attempts := attempts + 1;
      if !store.Holds? || fault == ReadFault {
        return false;
      }
      var bookings := store.bookings;
      var newBooking := Booking(|bookings| + 1, carModel, date, time, createdAt);
      bookings := bookings + [newBooking];
      if fault == OpenForWriteFault {
        ok := false;
      } else if fault == WriteFaultAfterTruncate {
        store := Unreadable;
        ok := false;
      } else {
        store := Holds(bookings);
        ok := true;
      }
    }
  }
}
