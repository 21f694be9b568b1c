/** The lookup of the method an address lies in: a binary search over the sorted table. */
module MethodTable {

  /** Addresses are 64 bits wide; their difference is kept in a 32-bit signed integer. */
  const WORD := 0x1_0000_0000_0000_0000
  const HALF_INT := 0x8000_0000
  const INT := 0x1_0000_0000

  type Address = a: int | 0 <= a < WORD witness 0

  /** The difference as the search compares it: unsigned 64-bit, then cut to signed 32-bit. */
  function Comparison(p: Address, addr: Address): (c: int)
    ensures -HALF_INT <= c < HALF_INT
  {
    var low := ((p - addr) % WORD) % INT;
    if low < HALF_INT then low else low - INT
  }

  /** It differs from the difference by a multiple of 2^32, which leaves it no other value. */
  lemma {:induction false} ComparisonIs(p: Address, addr: Address, c: int)
    requires -0x8000_0000 <= c < 0x8000_0000
    ensures Comparison(p, addr) == c <==> (p - addr - c) % 0x1_0000_0000 == 0
  {
    var d := p - addr;
    var high, low := d / WORD, (d % WORD) / INT;
    assert d == INT * (INT * high + low) + (d % WORD) % INT;
  }

  ghost predicate Sorted(table: seq<Address>) {
    forall i, j :: 0 <= i < j < |table| ==> table[i] <= table[j]
  }

  /** `r` is a last entry at or below the address, -1 if all entries are above it. */
  ghost predicate IsClosest(table: seq<Address>, addr: Address, r: int) {
    && -1 <= r < |table|
    && (0 <= r ==> table[r] <= addr)
    && (forall i :: 0 <= i < |table| && table[i] <= addr ==> 0 <= r && table[i] <= table[r])
  }

  /** The cut difference puts the entry above the address exactly if it lies there, and equal to it only if
      no entry lies closer below. */
  ghost predicate Told(entries: iset<Address>, addr: Address, p: Address) {
    && (Comparison(p, addr) > 0 <==> addr < p)
    && (Comparison(p, addr) == 0 ==> forall q :: q in entries && q <= addr ==> q <= p)
  }

  ghost predicate AllTold(entries: iset<Address>, addr: Address) {
    forall p :: p in entries ==> Told(entries, addr, p)
  }

  ghost function Entries(table: seq<Address>): iset<Address> { iset p | p in table }

  /** What is left to search lies between `left` and `right`. */
  ghost function Search(table: seq<Address>, addr: Address, left: int, right: int): (r: int)
    requires 0 <= left <= right + 1 <= |table|
    ensures left - 1 <= r <= right
    decreases right - left + 1
  {
    if right < left then right
    else
      var pivot := (left + right) / 2;
      if Comparison(table[pivot], addr) == 0 then pivot
      else if Comparison(table[pivot], addr) > 0 then Search(table, addr, left, pivot - 1)
      else Search(table, addr, pivot + 1, right)
  }

  method BinarySearchClosest(table: seq<Address>, addr: Address) returns (r: int)
    ensures -1 <= r < |table| && r == Search(table, addr, 0, |table| - 1)
    ensures Sorted(table) && AllTold(Entries(table), addr) ==> IsClosest(table, addr, r)
  {
    if Sorted(table) && AllTold(Entries(table), addr) {
      SearchIsClosest(table, addr, 0, |table| - 1);
    }
    var left, right := 0, |table| - 1;
    while left <= right
      invariant 0 <= left <= right + 1 <= |table|
      invariant Search(table, addr, left, right) == Search(table, addr, 0, |table| - 1)
      decreases right - left
    {
      var pivot := (left + right) / 2;
      var comparison := Comparison(table[pivot], addr);
      if comparison == 0 {
        return pivot;
      } else if comparison > 0 {
        right := pivot - 1;
      } else {
        left := pivot + 1;
      }
    }
    return right;
  }

  lemma {:induction false} SearchIsClosest(table: seq<Address>, addr: Address, left: int, right: int)
    requires Sorted(table) && AllTold(Entries(table), addr) && 0 <= left <= right + 1 <= |table|
    requires forall i :: 0 <= i < left ==> table[i] <= addr
    requires forall i :: right < i < |table| ==> addr < table[i]
    ensures IsClosest(table, addr, Search(table, addr, left, right))
    decreases right - left + 1
  {
    if left <= right {
      var pivot := (left + right) / 2;
      assert Told(Entries(table), addr, table[pivot]);
      if Comparison(table[pivot], addr) > 0 {
        SearchIsClosest(table, addr, left, pivot - 1);
      } else if Comparison(table[pivot], addr) < 0 {
        SearchIsClosest(table, addr, pivot + 1, right);
      } else {
        assert forall i :: 0 <= i < |table| ==> table[i] in Entries(table);
      }
    }
  }

  /** The search is right on all sorted tables with these entries exactly when the cut difference
      tells, of each of them, whether it lies above the address. */
  lemma {:induction false} SearchRightIff(entries: iset<Address>, addr: Address)
    ensures (forall table: seq<Address> :: Sorted(table) && Entries(table) <= entries
              ==> IsClosest(table, addr, Search(table, addr, 0, |table| - 1)))
       <==> AllTold(entries, addr)
  {
    if AllTold(entries, addr) {
      forall table: seq<Address> | Sorted(table) && Entries(table) <= entries
        ensures IsClosest(table, addr, Search(table, addr, 0, |table| - 1))
      {
        assert forall p :: p in Entries(table) ==> Told(entries, addr, p);
        SearchIsClosest(table, addr, 0, |table| - 1);
      }
    } else {
      var p :| p in entries && !Told(entries, addr, p);
      var table: seq<Address>;
      if Comparison(p, addr) > 0 <==> addr < p {
        var q :| q in entries && p < q <= addr;
        table := [p, q];
        assert table[1] == q;
        assert !IsClosest(table, addr, 0);
        assert Search(table, addr, 0, 1) == 0;
      } else {
        table := [p];
        assert table[0] == p;
        assert Search(table, addr, 0, 0) == if Comparison(p, addr) > 0 then -1 else 0;
      }
      assert Sorted(table) && Entries(table) <= entries && !IsClosest(table, addr, Search(table, addr, 0, |table| - 1));
    }
  }

  /** In particular it is right when all differences fit a signed 32-bit integer. */
  lemma {:induction false} NearIsRight(table: seq<Address>, addr: Address)
    requires Sorted(table) && forall i :: 0 <= i < |table| ==> -HALF_INT <= table[i] - addr < HALF_INT
    ensures IsClosest(table, addr, Search(table, addr, 0, |table| - 1))
  {
    forall p | p in Entries(table) ensures Told(Entries(table), addr, p) {
      NearIsComparable(p, addr);
    }
    SearchIsClosest(table, addr, 0, |table| - 1);
  }

  /** Differences that fit a signed 32-bit integer compare as they should. */
  lemma {:induction false} NearIsComparable(p: Address, addr: Address)
    requires -HALF_INT <= p - addr < HALF_INT
    ensures Comparison(p, addr) == p - addr
  {
    var d := p - addr;
    if 0 <= d {
      assert d % WORD == d && d % INT == d;
    } else {
      assert d % WORD == d + WORD;
      assert (d + WORD) % INT == d + INT by {
        assert d + WORD == (INT - 1) * INT + (d + INT);
      }
    }
  }

  /** An entry 2^31 to 2^32 above the address is taken for one below it, and returned. */
  lemma {:induction false} FarIsMistaken(p: Address, addr: Address)
    requires HALF_INT <= p - addr < INT
    ensures Comparison(p, addr) < 0 && Search([p], addr, 0, 0) == 0 && !IsClosest([p], addr, 0)
  {
    assert (p - addr) % WORD == p - addr && (p - addr) % INT == p - addr;
    assert [p][0] == p;
  }
}
