/** The customer ledger: customers in insertion order, each with an
    allocation per room type, and the per-type sum of all allocations.
 */
module Ledger {
  import opened Rooms

  datatype Option<T> = None | Some(value: T)

  /** A registered customer. Name and phone number are carried but never
      inspected by the booking engine. */
  datatype Customer = Customer(id: string, name: string, phone: string, allocation: Counts)

  /** Position of the customer registered under `id`, if any. */
  function IndexOf(cs: seq<Customer>, id: string): (r: Option<nat>)
    ensures r.Some? ==> r.value < |cs| && cs[r.value].id == id
    ensures r.Some? ==> forall j :: 0 <= j < r.value ==> cs[j].id != id
    ensures r.None? <==> forall j :: 0 <= j < |cs| ==> cs[j].id != id
    decreases |cs|
  {
    if |cs| == 0 then None
    else if cs[0].id == id then Some(0)
    else
      match IndexOf(cs[1..], id)
      case None => None
      case Some(k) => Some(k + 1)
  }

  /** `IndexOf` finds the first customer registered under `id`. */
  lemma IndexOfFirst(cs: seq<Customer>, id: string, k: nat)
    requires k < |cs| && cs[k].id == id
    requires forall j :: 0 <= j < k ==> cs[j].id != id
    ensures IndexOf(cs, id) == Some(k)
  {
  }

  /** No two customers share an id (the ledger is a dictionary keyed by id). */
  predicate UniqueIds(cs: seq<Customer>) {
    forall i, j :: 0 <= i < |cs| && 0 <= j < |cs| && cs[i].id == cs[j].id ==> i == j
  }

  /** Every customer's allocation is non-negative. */
  predicate AllocNonNeg(cs: seq<Customer>) {
    forall i :: 0 <= i < |cs| ==> cs[i].allocation.NonNeg()
  }

  /** Sum over all customers of the rooms of type `t` they hold. */
  function TotalAllocated(cs: seq<Customer>, t: RoomType): int
    decreases |cs|
  {
    if |cs| == 0 then 0 else cs[0].allocation.Get(t) + TotalAllocated(cs[1..], t)
  }

  /** Non-negative allocations have a non-negative sum. */
  lemma {:induction false} TotalAllocatedNonNeg(cs: seq<Customer>)
    ensures AllocNonNeg(cs) ==> forall t :: TotalAllocated(cs, t) >= 0
    decreases |cs|
  {
    if |cs| > 0 && AllocNonNeg(cs) {
      assert AllocNonNeg(cs[1..]) by {
        forall i | 0 <= i < |cs[1..]| ensures cs[1..][i].allocation.NonNeg() {
          assert cs[1..][i] == cs[i + 1];
        }
      }
      TotalAllocatedNonNeg(cs[1..]);
      assert cs[0].allocation.NonNeg();
    }
  }

  /** The sum over a concatenation is the sum of the sums. */
  lemma {:induction false} TotalAllocatedConcat(a: seq<Customer>, b: seq<Customer>, t: RoomType)
    ensures TotalAllocated(a + b, t) == TotalAllocated(a, t) + TotalAllocated(b, t)
    decreases |a|
  {
    if |a| > 0 {
      assert (a + b)[1..] == a[1..] + b;
      TotalAllocatedConcat(a[1..], b, t);
    } else {
      assert a + b == b;
    }
  }

  /** Replacing one customer changes the sum by exactly the difference of
      the two allocations. */
  lemma {:induction false} TotalAllocatedUpdate(cs: seq<Customer>, i: nat, c: Customer)
    requires i < |cs|
    ensures forall t :: TotalAllocated(cs[i := c], t)
                        == TotalAllocated(cs, t) - cs[i].allocation.Get(t) + c.allocation.Get(t)
    decreases |cs|
  {
    if i > 0 {
      assert cs[i := c][1..] == cs[1..][i - 1 := c];
      TotalAllocatedUpdate(cs[1..], i - 1, c);
    } else {
      assert cs[i := c][1..] == cs[1..];
    }
  }

  /** With non-negative allocations, one customer's holding never exceeds
      the total held by everyone. */
  lemma {:induction false} AllocatedAtMostTotal(cs: seq<Customer>, i: nat)
    requires i < |cs|
    requires AllocNonNeg(cs)
    ensures forall t :: cs[i].allocation.Get(t) <= TotalAllocated(cs, t)
    decreases |cs|
  {
    assert AllocNonNeg(cs[1..]) by {
      forall k | 0 <= k < |cs[1..]| ensures cs[1..][k].allocation.NonNeg() {
        assert cs[1..][k] == cs[k + 1];
      }
    }
    if i > 0 {
      AllocatedAtMostTotal(cs[1..], i - 1);
      assert cs[0].allocation.NonNeg();
    } else {
      TotalAllocatedNonNeg(cs[1..]);
    }
  }

  /** Taking one customer out of the ledger lowers the sum by exactly
      that customer's allocation. */
  lemma TotalAllocatedRemove(b: seq<Customer>, j: nat, t: RoomType)
    requires j < |b|
    ensures TotalAllocated(b, t) == b[j].allocation.Get(t) + TotalAllocated(b[..j] + b[j + 1..], t)
  {
    assert b == b[..j] + [b[j]] + b[j + 1..];
    TotalAllocatedConcat(b[..j] + [b[j]], b[j + 1..], t);
    TotalAllocatedConcat(b[..j], [b[j]], t);
    TotalAllocatedConcat(b[..j], b[j + 1..], t);
    assert [b[j]][1..] == [];
  }

  /** Removing the same element from two equal multisets of sequences
      leaves equal multisets. */
  lemma MultisetRemove(a: seq<Customer>, b: seq<Customer>, j: nat)
    requires |a| > 0 && j < |b| && b[j] == a[0]
    requires multiset(a) == multiset(b)
    ensures multiset(a[1..]) == multiset(b[..j] + b[j + 1..])
  {
    var x := a[0];
    assert a == [x] + a[1..];
    assert b == b[..j] + [x] + b[j + 1..];
    var rest := b[..j] + b[j + 1..];
    assert multiset(b) == multiset(rest) + multiset{x} by {
      assert multiset(b) == multiset(b[..j]) + multiset{x} + multiset(b[j + 1..]);
    }
    assert multiset(a) == multiset(a[1..]) + multiset{x};
    assert multiset(a[1..]) == multiset(a) - multiset{x};
    assert multiset(rest) == multiset(b) - multiset{x};
  }

  /** The sum does not depend on the order of the customers. */
  lemma {:induction false} TotalAllocatedPermutation(a: seq<Customer>, b: seq<Customer>)
    requires multiset(a) == multiset(b)
    ensures forall t :: TotalAllocated(a, t) == TotalAllocated(b, t)
    decreases |a|
  {
    if |a| == 0 {
      assert |b| == |multiset(b)| == 0;
    } else {
      assert a[0] in multiset(b);
      var j :| 0 <= j < |b| && b[j] == a[0];
      MultisetRemove(a, b, j);
      TotalAllocatedPermutation(a[1..], b[..j] + b[j + 1..]);
      forall t ensures TotalAllocated(a, t) == TotalAllocated(b, t) {
        TotalAllocatedRemove(b, j, t);
      }
    }
  }
}
