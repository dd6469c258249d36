# Hotel booking admission engine

A Dafny model of the booking engine of a small hotel-management app
(class `HotelBookingSystem` in `booking.py`). The engine keeps a room pool
(total and available rooms per room type) and a ledger of customers, each
holding an allocation per room type. A booking request names a customer
and a number of rooms per type. It is answered with one of four verdicts:

- `CustomerNotFound`: the id is not registered.
- `NotEnoughRooms`: some type is requested beyond what is available.
- `Approved`: the request was booked.
- `NotEnoughForFuture`: the request was booked speculatively and then
  rolled back, because the resulting state failed the safety check.

The safety check walks the customers in registration order. Each
customer's allocation must fit in the rooms that remain, and is then
deducted from them.

The model is functional. `Hotel` is an immutable record, and each step of
the Python class (`is_request_feasible`, `simulate_allocation`,
`is_safe_state`, `approve_request`, `deny_request`) is a pure function.
`ProcessBookingRequest` returns the verdict together with the new state.
Room types are the closed set `Single | Double`, so a request for an
unknown type cannot be written. Counts are unbounded integers, as in
Python. The ledger is a sequence in registration order, because a Python
dictionary iterates in insertion order and re-assigning a key keeps its
position.

The model follows the code as written, including behaviour that a
reader expecting a Banker's algorithm (the app's title, booking.py:70)
would not expect:

- **Approval books the request twice.** The speculative booking is kept,
  and `approve_request` books the same rooms again. An approved request
  of n rooms takes 2n from the pool (`ApprovedBooksTwice`).
- **The safety check is strict.** It counts the requester's new
  allocation against the rooms left after the speculative booking. With
  non-negative counts, a request from a registered customer is approved
  exactly when the rooms already held plus twice the request fit in the
  available rooms
  (`ApprovalCondition`). So a first request for every remaining room of a
  type is refused (`RequestForAllRemainingDenied`,
  `RequestForBothSinglesRefused`).
- **A zero request is not always approved.** It never changes the state,
  but it is approved only when the current state already passes the
  safety check (`ZeroRequest`, `ZeroRequestRefusedAfterDoubleBooking`).
- **Registering an existing id is not an error.** The customer keeps its
  position in the ledger, but its record is replaced and its allocation
  reset to zero. The rooms it held are lost from the books
  (`AddExistingCustomerDropsAllocation`).
- **The engine's constructor does not reject negative totals.** Only the
  UI's number inputs (booking.py:78-79) keep them at zero or more.
  Non-negativity is therefore a hypothesis of the lemmas that need it.

Files: `rooms.dfy` (room types, counts), `ledger.dfy` (customers, lookup,
sums of allocations), `booking.dfy` (engine state and operations),
`properties.dfy` (lemmas relating several operations, and operation
traces), `scenarios.dfy` (concrete small hotels).

## Model

| member | source | states |
|---|---|---|
| `Ledger.IndexOf` | booking.py:19-20 | finds the first customer registered under an id; `None` exactly when no customer has that id |
| `Booking.NewHotel` | booking.py:4-7 | available equals total for every type, and the ledger is empty; conservation holds; non-negative totals give a non-negative state |
| `Booking.AddCustomer` | booking.py:9-11 | afterwards the id resolves to a record with the given name and phone and a zero allocation; a fresh id is appended and an existing id is replaced in place; other customers and the pool are untouched; unique ids and non-negativity are preserved |
| `Booking.IsRequestFeasible` | booking.py:37-41 | feasible iff no room type is requested beyond what is available |
| `Booking.SimulateAllocation` | booking.py:43-46 | the pool loses the requested rooms of each type and the customer gains them; the totals, the customer's other fields and every other customer are unchanged |
| `Booking.ApproveRequest` | booking.py:57-60 | books the request again: the pool loses the requested rooms and the customer gains them; the totals, the customer's other fields and every other customer are unchanged |
| `Booking.DenyRequest` | booking.py:62-65 | the pool regains the requested rooms and the customer gives them back; the totals, the customer's other fields and every other customer are unchanged |
| `Booking.Transfer` | booking.py:43-46 | moving rooms changes only the pool and that customer's allocation, keeps the ledger's length and the other records, and keeps available plus total allocated constant per type |
| `Booking.RollbackExact` | booking.py:62-65 | rolling back a speculative booking of the same request restores the state exactly |
| `Booking.SafeFrom` | booking.py:50-55 | the customer-by-customer check with early exit; with non-negative allocations it passes iff the ledger is empty or every type's total allocation fits in the remaining rooms |
| `Booking.IsSafeState` | booking.py:48-55 | with non-negative allocations the state is safe iff the ledger is empty or, for every type, the sum of all allocations is at most the available rooms |
| `Booking.CheckSafeState` | booking.py:48-55 | the loop with early return computes the same verdict as the recursive check, hence the same sum characterisation |
| `Booking.MessageDeterminesVerdict` | booking.py:18-35 | the four texts the engine returns are pairwise distinct, so the text determines the verdict |
| `Booking.ProcessBookingRequest` | booking.py:18-35 | `CustomerNotFound` iff the id is unknown; `NotEnoughRooms` iff the id is known and some type exceeds availability; every verdict but `Approved` leaves the state unchanged; conservation is preserved |
| `BookingProperties.ApprovedBooksTwice` | booking.py:26-32 | on approval the pool loses twice the request per type, the requester gains twice the request, its other fields and every other customer are unchanged |
| `BookingProperties.ApprovalCondition` | booking.py:18-35 | for a known customer, non-negative state and request: approved iff for every type, total allocated plus twice the request fits in the available rooms |
| `BookingProperties.RequestForAllRemainingDenied` | booking.py:48-55 | asking for all remaining rooms of some type is never approved and changes nothing; when feasible it gets the unsafe-state denial |
| `BookingProperties.ZeroRequest` | booking.py:26-35 | a request for nothing never changes the state; for a known customer with non-negative availability it is approved iff the current state is safe |
| `BookingProperties.SafeOrderIndependent` | booking.py:50-55 | with non-negative allocations, reordering the customers does not change the safety verdict |
| `Ledger.TotalAllocatedPermutation` | booking.py:50-51 | the per-type sum of allocations is the same for any permutation of the customers |
| `BookingProperties.AddFreshCustomerConserves` | booking.py:9-11 | registering a fresh id preserves conservation |
| `BookingProperties.AddExistingCustomerDropsAllocation` | booking.py:10-11 | re-registering an id removes its old allocation from the books; conservation then fails whenever that allocation was not zero |
| `BookingProperties.ProcessKeepsNonNegative` | booking.py:37-65 | with non-negative quantities every outcome keeps all available counts and allocations non-negative |
| `BookingProperties.ProcessKeepsIds` | booking.py:43-65 | a request keeps the totals, the ledger length and every customer id |
| `BookingProperties.CountsWithinTotal` | booking.py:5-6 | under conservation and non-negativity every available count and every allocation lies between zero and the total |
| `BookingProperties.NewHotelInvariant` | booking.py:4-7 | a new hotel with non-negative totals satisfies conservation, non-negativity and unique ids |
| `BookingProperties.RunKeepsInvariant` | booking.py:9-35 | every sequence of registrations with fresh ids and requests with non-negative quantities preserves that invariant and the totals |
| `Scenarios.RequestForBothSinglesRefused` | booking.py:26-35 | with two single rooms and one double room, a first request for both single rooms is refused as unsafe and leaves the state as it was |
| `Scenarios.RequestForTwoOfFiveApproved` | booking.py:26-32 | with five single rooms, a first request for two of them is approved |
| `Scenarios.FirstRequestForTwoOfFiveApproved` | booking.py:4-32 | starting from a new hotel with five single rooms and registering customer "A", A's first request for two single rooms is approved |
| `Scenarios.ZeroRequestRefusedAfterDoubleBooking` | booking.py:48-55 | when one customer holds four of five single rooms, a newly registered customer's request for nothing is refused |

## Left out

- The Streamlit user interface (`main`, widgets, session state) is not modelled. It only collects input and shows results.
- `show_available_rooms` is not modelled. It only formats the available counts as display text.
- Room types other than "Single" and "Double" are not modelled. The type of room types is closed, so the `KeyError` that an unknown type raises in the feasibility and safety checks cannot occur.
- Requests are modelled with both room types always present, as the UI builds them. A dictionary missing a type is not modelled; it behaves like a zero entry unless that type's available count is negative.
- Customer name and phone number are carried as opaque strings and never inspected.
- `total_rooms` is stored by reference in the code and could change if the caller mutated its dictionary. The model keeps totals immutable, as nothing in the engine writes them.
- `Booking.SafeFrom`: the sum characterisation is stated only for non-negative allocations. With negative allocations the verdict depends on customer order, and only the function body describes it.
- `BookingProperties.SafeOrderIndependent`: stated only for non-negative allocations, for the same reason.
- `BookingProperties.RunKeepsInvariant`: stated only for traces whose registrations use fresh ids and whose requests are non-negative. Re-registration breaks conservation, as `AddExistingCustomerDropsAllocation` states. Negative quantities are excluded by the UI's minimum of zero.
- `Scenarios.RequestForTwoOfFiveApproved`: states the verdict only. The resulting counts (A holds four rooms, one is left) follow from `ApprovedBooksTwice`.
