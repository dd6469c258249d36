/** The booking engine of the hotel: a room pool (total and available
    rooms per type) and a customer ledger, and the admission procedure that
    decides a booking request.

    Every operation is a pure function from the old state to the new one;
    the Python class mutates its dictionaries in place instead.
 */
module Booking {
  import opened Rooms
  import opened Ledger

  /** The engine state: the fixed totals, the rooms still available, and
      the registered customers in registration order. */
  datatype Hotel = Hotel(total: Counts, available: Counts, customers: seq<Customer>)

  /** The four answers a booking request can get. */
  datatype Verdict =
    | CustomerNotFound    // "Customer not found."
    | NotEnoughRooms      // "Request denied. Not enough rooms available."
    | Approved            // "Request approved."
    | NotEnoughForFuture  // "Request denied. Not enough rooms available for future requests."

  /** The verdict together with the state after the request. */
  datatype Outcome = Outcome(verdict: Verdict, hotel: Hotel)

  /** The text the engine returns for each verdict. */
  function Message(v: Verdict): string {
    match v
    case CustomerNotFound => "Customer not found."
    case NotEnoughRooms => "Request denied. Not enough rooms available."
    case Approved => "Request approved."
    case NotEnoughForFuture => "Request denied. Not enough rooms available for future requests."
  }

  /** The four texts are distinct, so the returned text determines the
      verdict. */
  lemma MessageDeterminesVerdict(v: Verdict, w: Verdict)
    ensures Message(v) == Message(w) ==> v == w
  {
  }

  /** Conservation of rooms: for every type, the rooms available plus the
      rooms held by customers make up the total. */
  predicate Conserved(h: Hotel) {
    forall t :: h.available.Get(t) + TotalAllocated(h.customers, t) == h.total.Get(t)
  }

  /** No available count and no allocation is negative. */
  predicate NonNegative(h: Hotel) {
    h.available.NonNeg() && AllocNonNeg(h.customers)
  }

  /** A new engine: every room available, no customers. */
  function NewHotel(total: Counts): (h: Hotel)
    ensures forall t :: h.available.Get(t) == h.total.Get(t) == total.Get(t)
    ensures |h.customers| == 0 && forall id :: IndexOf(h.customers, id).None?
    ensures Conserved(h)
    ensures total.NonNeg() ==> NonNegative(h)
  {
    Hotel(total, total, [])
  }

  /** Registers a customer with a zero allocation of every type. An id
      that is already registered keeps its position in the ledger, but its
      record, allocation included, is replaced. */
  function AddCustomer(h: Hotel, id: string, name: string, phone: string): (r: Hotel)
    ensures r.total == h.total && r.available == h.available
    ensures IndexOf(r.customers, id).Some?
    ensures r.customers[IndexOf(r.customers, id).value] == Customer(id, name, phone, Zero)
    ensures |r.customers| == |h.customers| + (if IndexOf(h.customers, id).None? then 1 else 0)
    ensures forall j :: 0 <= j < |h.customers| && h.customers[j].id != id ==> r.customers[j] == h.customers[j]
    ensures UniqueIds(h.customers) ==> UniqueIds(r.customers)
    ensures NonNegative(h) ==> NonNegative(r)
  {
    var c := Customer(id, name, phone, Zero);
    match IndexOf(h.customers, id)
    case Some(i) =>
      IndexOfFirst(h.customers[i := c], id, i);
      h.(customers := h.customers[i := c])
    case None =>
      IndexOfFirst(h.customers + [c], id, |h.customers|);
      h.(customers := h.customers + [c])
  }

  /** Moves `delta` rooms of each type from the pool to customer `i`
      (a negative entry moves rooms back). */
  function Transfer(h: Hotel, i: nat, delta: Counts): (r: Hotel)
    requires i < |h.customers|
    ensures r.total == h.total && |r.customers| == |h.customers|
    ensures forall t :: r.available.Get(t) == h.available.Get(t) - delta.Get(t)
    ensures forall t :: r.customers[i].allocation.Get(t) == h.customers[i].allocation.Get(t) + delta.Get(t)
    ensures r.customers[i].(allocation := h.customers[i].allocation) == h.customers[i]
    ensures forall j :: 0 <= j < |h.customers| && j != i ==> r.customers[j] == h.customers[j]
    ensures forall t :: r.available.Get(t) + TotalAllocated(r.customers, t)
                        == h.available.Get(t) + TotalAllocated(h.customers, t)
  {
    var c := h.customers[i];
    var c' := c.(allocation := c.allocation.Plus(delta));
    TotalAllocatedUpdate(h.customers, i, c');
    Hotel(h.total, h.available.Minus(delta), h.customers[i := c'])
  }

  /** Feasibility: no type is requested beyond what is available. */
  function IsRequestFeasible(available: Counts, request: Counts): (ok: bool)
    ensures ok <==> forall t :: request.Get(t) <= available.Get(t)
  {
    AtMostIff(request, available);
    !(request.single > available.single) && !(request.double > available.double)
  }

  /** Speculatively books `request` for customer `i`. */
  function SimulateAllocation(h: Hotel, i: nat, request: Counts): (r: Hotel)
    requires i < |h.customers|
    ensures |r.customers| == |h.customers|
    ensures forall t :: r.available.Get(t) == h.available.Get(t) - request.Get(t)
    ensures forall t :: r.customers[i].allocation.Get(t) == h.customers[i].allocation.Get(t) + request.Get(t)
    ensures r.total == h.total
    ensures r.customers[i].(allocation := h.customers[i].allocation) == h.customers[i]
    ensures forall j :: 0 <= j < |h.customers| && j != i ==> r.customers[j] == h.customers[j]
  {
    Transfer(h, i, request)
  }

  /** Commits an approved request: books `request` for customer `i` once
      more, on top of the speculative booking. */
  function ApproveRequest(h: Hotel, i: nat, request: Counts): (r: Hotel)
    requires i < |h.customers|
    ensures |r.customers| == |h.customers|
    ensures forall t :: r.available.Get(t) == h.available.Get(t) - request.Get(t)
    ensures forall t :: r.customers[i].allocation.Get(t) == h.customers[i].allocation.Get(t) + request.Get(t)
    ensures r.total == h.total
    ensures r.customers[i].(allocation := h.customers[i].allocation) == h.customers[i]
    ensures forall j :: 0 <= j < |h.customers| && j != i ==> r.customers[j] == h.customers[j]
  {
    Transfer(h, i, request)
  }

  /** Rolls back a speculative booking of `request` for customer `i`. */
  function DenyRequest(h: Hotel, i: nat, request: Counts): (r: Hotel)
    requires i < |h.customers|
    ensures |r.customers| == |h.customers|
    ensures forall t :: r.available.Get(t) == h.available.Get(t) + request.Get(t)
    ensures forall t :: r.customers[i].allocation.Get(t) == h.customers[i].allocation.Get(t) - request.Get(t)
    ensures r.total == h.total
    ensures r.customers[i].(allocation := h.customers[i].allocation) == h.customers[i]
    ensures forall j :: 0 <= j < |h.customers| && j != i ==> r.customers[j] == h.customers[j]
  {
    Transfer(h, i, Zero.Minus(request))
  }

  /** Rolling back a speculative booking restores the state exactly. */
  lemma RollbackExact(h: Hotel, i: nat, request: Counts)
    requires i < |h.customers|
    ensures DenyRequest(SimulateAllocation(h, i, request), i, request) == h
  {
  }

  /** The safety check, customer by customer in ledger order: each
      customer's allocation must fit in what remains, and is then deducted
      from it. With non-negative allocations and at least one customer
      this is the same as every type's total allocation fitting in
      `remaining`; an empty ledger is always safe. */
  function SafeFrom(cs: seq<Customer>, remaining: Counts): (safe: bool)
    ensures AllocNonNeg(cs) ==>
              (safe <==> |cs| == 0 || forall t :: TotalAllocated(cs, t) <= remaining.Get(t))
    decreases |cs|
  {
    if |cs| == 0 then true
    else
      var a := cs[0].allocation;
      TotalAllocatedNonNeg(cs[1..]);
      assert AllocNonNeg(cs) ==> AllocNonNeg(cs[1..]) by {
        if AllocNonNeg(cs) {
          forall k | 0 <= k < |cs[1..]| ensures cs[1..][k].allocation.NonNeg() {
            assert cs[1..][k] == cs[k + 1];
          }
        }
      }
      if a.single > remaining.single then
        assert TotalAllocated(cs, Single) == a.single + TotalAllocated(cs[1..], Single);
        assert AllocNonNeg(cs) ==> TotalAllocated(cs, Single) > remaining.Get(Single);
        false
      else if a.double > remaining.double then
        assert TotalAllocated(cs, Double) == a.double + TotalAllocated(cs[1..], Double);
        assert AllocNonNeg(cs) ==> TotalAllocated(cs, Double) > remaining.Get(Double);
        false
      else SafeFrom(cs[1..], remaining.Minus(a))
  }

  /** Whether the current state is safe: all allocations fit, one customer
      after another, in the rooms available. */
  function IsSafeState(h: Hotel): (safe: bool)
    ensures AllocNonNeg(h.customers) ==>
              (safe <==> |h.customers| == 0 || forall t :: TotalAllocated(h.customers, t) <= h.available.Get(t))
  {
    SafeFrom(h.customers, h.available)
  }

  /** The safety check as the loop the engine runs, with its early exit. */
  method CheckSafeState(h: Hotel) returns (safe: bool)
    ensures safe == IsSafeState(h)
    ensures AllocNonNeg(h.customers) ==>
              (safe <==> |h.customers| == 0 || forall t :: TotalAllocated(h.customers, t) <= h.available.Get(t))
  {
    var remaining := h.available;
    var k := 0;
    while k < |h.customers|
      invariant 0 <= k <= |h.customers|
      invariant SafeFrom(h.customers[k..], remaining) == IsSafeState(h)
    {
      assert h.customers[k..][1..] == h.customers[k + 1..];
      var a := h.customers[k].allocation;
      if a.single > remaining.single {
        return false;
      }
      remaining := remaining.(single := remaining.single - a.single);
      if a.double > remaining.double {
        return false;
      }
      remaining := remaining.(double := remaining.double - a.double);
      k := k + 1;
    }
    return true;
  }

  /** Decides a booking request: unknown customer, infeasible request,
      then speculative booking followed by the safety check, which either
      books the request a second time (approval) or rolls it back. */
  function ProcessBookingRequest(h: Hotel, id: string, request: Counts): (o: Outcome)
    ensures o.verdict == CustomerNotFound <==> IndexOf(h.customers, id).None?
    ensures o.verdict == NotEnoughRooms <==>
              IndexOf(h.customers, id).Some? && exists t :: request.Get(t) > h.available.Get(t)
    ensures o.verdict != Approved ==> o.hotel == h
    ensures Conserved(h) ==> Conserved(o.hotel)
  {
    match IndexOf(h.customers, id)
    case None => Outcome(CustomerNotFound, h)
    case Some(i) =>
      if !IsRequestFeasible(h.available, request) then Outcome(NotEnoughRooms, h)
      else
        var trial := SimulateAllocation(h, i, request);
        if IsSafeState(trial) then Outcome(Approved, ApproveRequest(trial, i, request))
        else
          RollbackExact(h, i, request);
          Outcome(NotEnoughForFuture, DenyRequest(trial, i, request))
  }
}
