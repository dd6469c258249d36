/** Properties of the booking engine that relate several operations:
    exact rollback, the effect of an approval, the safety check as a sum,
    conservation and non-negativity of room counts, and zero requests.
 */
module BookingProperties {
  import opened Rooms
  import opened Ledger
  import opened Booking

  /** Booking nothing changes nothing. */
  lemma TransferZero(h: Hotel, i: nat)
    requires i < |h.customers|
    ensures Transfer(h, i, Zero) == h
  {
  }

  /** An approved request is booked twice: the pool loses twice the
      requested rooms of each type, the requester gains them, and nobody
      else's record changes. */
  lemma ApprovedBooksTwice(h: Hotel, id: string, request: Counts)
    requires ProcessBookingRequest(h, id, request).verdict == Approved
    ensures IndexOf(h.customers, id).Some?
    ensures var o := ProcessBookingRequest(h, id, request).hotel;
            var i := IndexOf(h.customers, id).value;
            && o.total == h.total
            && |o.customers| == |h.customers|
            && (forall t :: o.available.Get(t) == h.available.Get(t) - 2 * request.Get(t))
            && (forall t :: o.customers[i].allocation.Get(t)
                            == h.customers[i].allocation.Get(t) + 2 * request.Get(t))
            && o.customers[i].(allocation := h.customers[i].allocation) == h.customers[i]
            && (forall j :: 0 <= j < |h.customers| && j != i ==> o.customers[j] == h.customers[j])
  {
  }

  /** With non-negative allocations the verdict of the safety check does
      not depend on the order in which customers were registered. */
  lemma SafeOrderIndependent(h: Hotel, reordered: seq<Customer>)
    requires AllocNonNeg(h.customers)
    requires multiset(reordered) == multiset(h.customers)
    ensures IsSafeState(h.(customers := reordered)) == IsSafeState(h)
  {
    assert |reordered| == |multiset(reordered)| == |h.customers|;
    assert AllocNonNeg(reordered) by {
      forall k | 0 <= k < |reordered| ensures reordered[k].allocation.NonNeg() {
        assert reordered[k] in multiset(h.customers);
        var j :| 0 <= j < |h.customers| && h.customers[j] == reordered[k];
      }
    }
    TotalAllocatedPermutation(reordered, h.customers);
  }

  /** A new hotel satisfies conservation, and so does registering a
      customer under a fresh id. */
  lemma AddFreshCustomerConserves(h: Hotel, id: string, name: string, phone: string)
    requires Conserved(h)
    requires IndexOf(h.customers, id).None?
    ensures Conserved(AddCustomer(h, id, name, phone))
  {
    var c := Customer(id, name, phone, Zero);
    var r := AddCustomer(h, id, name, phone);
    assert r.customers == h.customers + [c];
    forall t ensures r.available.Get(t) + TotalAllocated(r.customers, t) == r.total.Get(t) {
      TotalAllocatedConcat(h.customers, [c], t);
      assert TotalAllocated([c], t) == 0;
    }
  }

  /** Re-registering an existing id discards the rooms that customer
      held: they leave the books, so conservation fails as soon as the old
      allocation was not zero. */
  lemma AddExistingCustomerDropsAllocation(h: Hotel, id: string, name: string, phone: string)
    requires IndexOf(h.customers, id).Some?
    ensures var r := AddCustomer(h, id, name, phone);
            var old_allocation := h.customers[IndexOf(h.customers, id).value].allocation;
            forall t :: r.available.Get(t) + TotalAllocated(r.customers, t)
                        == h.available.Get(t) + TotalAllocated(h.customers, t) - old_allocation.Get(t)
    ensures var old_allocation := h.customers[IndexOf(h.customers, id).value].allocation;
            Conserved(h) && old_allocation != Zero ==> !Conserved(AddCustomer(h, id, name, phone))
  {
    var i := IndexOf(h.customers, id).value;
    var c := Customer(id, name, phone, Zero);
    var r := AddCustomer(h, id, name, phone);
    assert r.customers == h.customers[i := c];
    TotalAllocatedUpdate(h.customers, i, c);
    if Conserved(h) && h.customers[i].allocation != Zero {
      if h.customers[i].allocation.Get(Single) == 0 {
        assert h.customers[i].allocation.Get(Double) != 0;
      }
    }
  }

  /** With non-negative requested quantities, every outcome of a booking
      request keeps all counts non-negative: feasibility protects the
      speculative booking, and the safety check protects the second
      booking on approval. */
  lemma ProcessKeepsNonNegative(h: Hotel, id: string, request: Counts)
    requires NonNegative(h)
    requires request.NonNeg()
    ensures NonNegative(ProcessBookingRequest(h, id, request).hotel)
  {
    var o := ProcessBookingRequest(h, id, request);
    if o.verdict == Approved {
      var i := IndexOf(h.customers, id).value;
      var trial := SimulateAllocation(h, i, request);
      assert IsSafeState(trial);
      assert AllocNonNeg(trial.customers) by {
        forall j | 0 <= j < |trial.customers| ensures trial.customers[j].allocation.NonNeg() {
          if j == i {
            assert forall t :: trial.customers[i].allocation.Get(t) >= 0 by {
              assert h.customers[i].allocation.NonNeg();
            }
          }
        }
      }
      AllocatedAtMostTotal(trial.customers, i);
      assert forall t :: trial.customers[i].allocation.Get(t) >= request.Get(t) by {
        assert h.customers[i].allocation.NonNeg();
      }
      ApprovedBooksTwice(h, id, request);
      var after := o.hotel;
      assert after.available.NonNeg() by {
        forall t ensures after.available.Get(t) >= 0 {
          assert TotalAllocated(trial.customers, t) <= trial.available.Get(t);
        }
      }
      assert AllocNonNeg(after.customers) by {
        forall j | 0 <= j < |after.customers| ensures after.customers[j].allocation.NonNeg() {
          if j == i {
            assert h.customers[i].allocation.NonNeg();
          } else {
            assert after.customers[j] == h.customers[j];
          }
        }
      }
    }
  }

  /** For a known customer and non-negative quantities the verdict is
      decided by one inequality per type: the request is approved exactly
      when the rooms already held plus twice the request fit in the rooms
      available. */
  lemma ApprovalCondition(h: Hotel, id: string, request: Counts)
    requires NonNegative(h)
    requires IndexOf(h.customers, id).Some?
    requires request.NonNeg()
    ensures ProcessBookingRequest(h, id, request).verdict == Approved
            <==> forall t :: TotalAllocated(h.customers, t) + 2 * request.Get(t) <= h.available.Get(t)
  {
    var i := IndexOf(h.customers, id).value;
    var trial := SimulateAllocation(h, i, request);
    TotalAllocatedNonNeg(h.customers);
    assert AllocNonNeg(trial.customers) by {
      forall j | 0 <= j < |trial.customers| ensures trial.customers[j].allocation.NonNeg() {
        if j == i {
          assert h.customers[i].allocation.NonNeg();
        }
      }
    }
    assert forall t :: TotalAllocated(trial.customers, t) == TotalAllocated(h.customers, t) + request.Get(t);
    if forall t :: TotalAllocated(h.customers, t) + 2 * request.Get(t) <= h.available.Get(t) {
      assert IsRequestFeasible(h.available, request);
      assert IsSafeState(trial);
    }
  }

  /** The strict safety check refuses a first request for every remaining
      room of a type, even when those rooms are free. */
  lemma RequestForAllRemainingDenied(h: Hotel, id: string, request: Counts, t: RoomType)
    requires NonNegative(h)
    requires IndexOf(h.customers, id).Some?
    requires request.NonNeg()
    requires request.Get(t) == h.available.Get(t) > 0
    ensures ProcessBookingRequest(h, id, request).verdict != Approved
    ensures ProcessBookingRequest(h, id, request).hotel == h
    ensures IsRequestFeasible(h.available, request) ==>
              ProcessBookingRequest(h, id, request).verdict == NotEnoughForFuture
  {
    ApprovalCondition(h, id, request);
    TotalAllocatedNonNeg(h.customers);
  }

  /** A request for zero rooms never changes the state. For a known
      customer and non-negative availability it is approved exactly when
      the current state already passes the safety check, so it can be
      refused. */
  lemma ZeroRequest(h: Hotel, id: string)
    ensures ProcessBookingRequest(h, id, Zero).hotel == h
    ensures IndexOf(h.customers, id).Some? && h.available.NonNeg() ==>
              (ProcessBookingRequest(h, id, Zero).verdict == Approved <==> IsSafeState(h))
  {
    match IndexOf(h.customers, id)
    case None =>
    case Some(i) =>
      TransferZero(h, i);
      if h.available.NonNeg() {
        assert IsRequestFeasible(h.available, Zero);
      }
  }

  /** Conservation and non-negativity bound every count by the total. */
  lemma CountsWithinTotal(h: Hotel)
    requires Conserved(h) && NonNegative(h)
    ensures forall t :: 0 <= h.available.Get(t) <= h.total.Get(t)
    ensures forall j, t :: 0 <= j < |h.customers| ==>
              0 <= h.customers[j].allocation.Get(t) <= h.total.Get(t)
  {
    TotalAllocatedNonNeg(h.customers);
    forall j | 0 <= j < |h.customers|
      ensures forall t :: 0 <= h.customers[j].allocation.Get(t) <= h.total.Get(t)
    {
      AllocatedAtMostTotal(h.customers, j);
    }
  }

  /** A request changes allocations only, never the ids of the ledger. */
  lemma ProcessKeepsIds(h: Hotel, id: string, request: Counts)
    ensures var o := ProcessBookingRequest(h, id, request).hotel;
            o.total == h.total && |o.customers| == |h.customers| &&
            forall j :: 0 <= j < |h.customers| ==> o.customers[j].id == h.customers[j].id
  {
  }

  /** An operation the user interface can issue. */
  datatype Op =
    | AddOp(id: string, name: string, phone: string)
    | BookOp(id: string, request: Counts)

  function Step(h: Hotel, op: Op): Hotel {
    match op
    case AddOp(id, name, phone) => AddCustomer(h, id, name, phone)
    case BookOp(id, request) => ProcessBookingRequest(h, id, request).hotel
  }

  function Run(h: Hotel, ops: seq<Op>): Hotel
    decreases |ops|
  {
    if |ops| == 0 then h else Run(Step(h, ops[0]), ops[1..])
  }

  /** Operations the user interface issues as it is meant to: registrations use
      fresh ids and requested quantities are non-negative. */
  predicate Admissible(h: Hotel, ops: seq<Op>)
    decreases |ops|
  {
    |ops| == 0 ||
    ((match ops[0]
      case AddOp(id, _, _) => IndexOf(h.customers, id).None?
      case BookOp(_, request) => request.NonNeg())
     && Admissible(Step(h, ops[0]), ops[1..]))
  }

  /** The engine's invariant: conservation, non-negative counts, unique ids. */
  predicate Invariant(h: Hotel) {
    Conserved(h) && NonNegative(h) && UniqueIds(h.customers)
  }

  /** A hotel built from non-negative totals satisfies the invariant, and
      every admissible sequence of operations preserves it and the totals. */
  lemma {:induction false} RunKeepsInvariant(h: Hotel, ops: seq<Op>)
    requires Invariant(h)
    requires Admissible(h, ops)
    ensures Invariant(Run(h, ops))
    ensures Run(h, ops).total == h.total
    decreases |ops|
  {
    if |ops| > 0 {
      var next := Step(h, ops[0]);
      match ops[0] {
        case AddOp(id, name, phone) =>
          AddFreshCustomerConserves(h, id, name, phone);
        case BookOp(id, request) =>
          ProcessKeepsNonNegative(h, id, request);
          ProcessKeepsIds(h, id, request);
          assert UniqueIds(next.customers);
      }
      RunKeepsInvariant(next, ops[1..]);
    }
  }

  lemma NewHotelInvariant(total: Counts)
    requires total.NonNeg()
    ensures Invariant(NewHotel(total))
  {
  }
}
