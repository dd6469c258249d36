/** Concrete runs of the engine on small hotels, showing how the code's
    strict safety check and double booking decide them. */
module Scenarios {
  import opened Rooms
  import opened Ledger
  import opened Booking
  import opened BookingProperties

  /** Two single rooms, one double room, one customer "A" asking for both
      single rooms: the request is feasible, but after the speculative
      booking no single room remains for A's own allocation, so it is
      refused and rolled back. */
  lemma RequestForBothSinglesRefused()
    ensures var h := AddCustomer(NewHotel(Counts(2, 1)), "A", "Ann", "555-0100");
            var o := ProcessBookingRequest(h, "A", Counts(2, 0));
            o.verdict == NotEnoughForFuture && o.hotel == h && o.hotel.available == Counts(2, 1)
  {
    var h := AddCustomer(NewHotel(Counts(2, 1)), "A", "Ann", "555-0100");
    assert NonNegative(h);
    RequestForAllRemainingDenied(h, "A", Counts(2, 0), Single);
  }

  /** Five single rooms and one registered customer "A": the state the
      next two lemmas start from. */
  lemma FiveSinglesOneCustomer()
    ensures var h := AddCustomer(NewHotel(Counts(5, 0)), "A", "Ann", "555-0100");
            h.available == Counts(5, 0) && h.customers == [Customer("A", "Ann", "555-0100", Zero)]
  {
  }

  /** Five single rooms and one customer "A" holding nothing. A asks for
      two: the rooms A would hold plus twice the request fit in the five, so
      the request is approved (and, by `ApprovedBooksTwice`, A then holds
      four rooms and one is left).
      The request is a parameter fixed by `requires`, so that the solver
      does not unfold the engine's functions on literal arguments. */
  lemma RequestForTwoOfFiveApproved(h: Hotel, request: Counts)
    requires h.available == Counts(5, 0)
    requires h.customers == [Customer("A", "Ann", "555-0100", Zero)]
    requires request == Counts(2, 0)
    ensures ProcessBookingRequest(h, "A", request).verdict == Approved
  {
    IndexOfFirst(h.customers, "A", 0);
    assert h.customers[1..] == [];
    assert AllocNonNeg(h.customers);
    assert forall t :: TotalAllocated(h.customers, t) == 0;
    assert forall t :: 2 * request.Get(t) <= h.available.Get(t) by {
      forall t ensures 2 * request.Get(t) <= h.available.Get(t) {
        match t {
          case Single =>
          case Double =>
        }
      }
    }
    ApprovalCondition(h, "A", request);
  }

  /** A state in which A holds four single rooms and one is left. A second
      customer "B" asks for nothing and is refused, because A's four rooms
      do not fit in the one that is left. */
  lemma ZeroRequestRefusedAfterDoubleBooking(h: Hotel)
    requires h.available == Counts(1, 0)
    requires h.customers == [Customer("A", "Ann", "555-0100", Counts(4, 0))]
    ensures var h2 := AddCustomer(h, "B", "Bob", "555-0101");
            var o := ProcessBookingRequest(h2, "B", Zero);
            o.verdict == NotEnoughForFuture && o.hotel == h2
  {
    var b := Customer("B", "Bob", "555-0101", Zero);
    var h2 := AddCustomer(h, "B", "Bob", "555-0101");
    assert "A" != "B" by { assert "A"[0] != "B"[0]; }
    assert h2.customers == h.customers + [b];
    assert AllocNonNeg(h2.customers);
    assert h2.customers[1..] == [b] && [b][1..] == [];
    assert TotalAllocated([b], Single) == 0 + TotalAllocated([], Single) == 0;
    assert TotalAllocated(h2.customers, Single) == 4 + TotalAllocated([b], Single);
    assert !IsSafeState(h2);
    IndexOfFirst(h2.customers, "B", 1);
    ZeroRequest(h2, "B");
  }

  /** A run from a new hotel: five single rooms, customer "A" registered,
      and A's request for two single rooms is approved.
      The request is a parameter fixed by `requires`, so that the solver
      does not unfold the engine's functions on literal arguments. */
  lemma FirstRequestForTwoOfFiveApproved(request: Counts)
    requires request == Counts(2, 0)
    ensures var h := AddCustomer(NewHotel(Counts(5, 0)), "A", "Ann", "555-0100");
            ProcessBookingRequest(h, "A", request).verdict == Approved
  {
    var h := AddCustomer(NewHotel(Counts(5, 0)), "A", "Ann", "555-0100");
    FiveSinglesOneCustomer();
    RequestForTwoOfFiveApproved(h, request);
  }
}
