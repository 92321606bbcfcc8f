/** kernel/mem/paging.c: the ascending array of an address space's tracked pages. */
module Paging {
  import opened Machine

  const GROWTH: nat := 20

  ghost predicate Ascending(s: seq<u32>) {
    forall i, j :: 0 <= i < j < |s| ==> s[i] < s[j]
  }

  /** x put where it belongs in an ascending sequence. */
  function Inserted(s: seq<u32>, x: u32): (r: seq<u32>)
    ensures |r| == |s| + 1
  {
    if s == [] || x < s[0] then [x] + s else [s[0]] + Inserted(s[1..], x)
  }

  /** Tracking a new page keeps the array ascending and adds that page and no other. */
  lemma {:induction false} InsertedAscends(s: seq<u32>, x: u32)
    requires Ascending(s) && x !in s
    ensures Ascending(Inserted(s, x))
    ensures forall y :: y in Inserted(s, x) <==> y in s || y == x
  {
    if s != [] && s[0] < x {
      InsertedAscends(s[1..], x);
      assert s == [s[0]] + s[1..];
      var rest := Inserted(s[1..], x);
      forall k | 0 <= k < |rest| ensures s[0] < rest[k] {
        assert rest[k] in rest;
      }
    }
  }

  lemma {:induction false} InsertedAt(s: seq<u32>, x: u32, i: nat)
    requires i <= |s| && (forall k :: 0 <= k < i ==> s[k] < x) && (i < |s| ==> x < s[i])
    ensures Inserted(s, x) == s[..i] + [x] + s[i..]
  {
    if i == 0 {
      assert s[..0] + [x] + s[0..] == [x] + s;
    } else {
      InsertedAt(s[1..], x, i - 1);
      assert s[1..][..i - 1] == s[1..i] && s[1..][i - 1..] == s[i..];
      assert s[..i] == [s[0]] + s[1..i];
      PutInFront([s[0]], s[1..i], [x], s[i..]);
    }
  }

  lemma PutInFront(a: seq<u32>, b: seq<u32>, c: seq<u32>, d: seq<u32>)
    ensures a + (b + c + d) == (a + b) + c + d
  {
  }

  datatype TrackResult = Status(st: int) | Panic

  class PagingStruct {
    var allocatedPages: array<u32>
    var size: nat

    ghost predicate Valid()
      reads this, allocatedPages
    {
      size <= allocatedPages.Length && Ascending(allocatedPages[..size])
    }

    ghost function Pages(): seq<u32>
      requires Valid()
      reads this, allocatedPages
    {
      allocatedPages[..size]
    }

    constructor ()
      ensures Valid() && Pages() == [] && fresh(allocatedPages)
    {
      allocatedPages := new u32[GROWTH](_ => 0);
      size := 0;
    }

    /** pagingstruct_enlarge_allocated_pages; `granted` says whether krealloc finds the memory. */
    method Enlarge(granted: bool) returns (st: int)
      requires Valid()
      modifies this
      ensures Valid() && Pages() == old(Pages()) && size == old(size)
      ensures st == if granted then 0 else -ENOMEM
      ensures if granted then allocatedPages.Length == old(allocatedPages.Length) + GROWTH && fresh(allocatedPages)
              else allocatedPages == old(allocatedPages)
    {
      if !granted {
        return -ENOMEM;
      }
      var tmp := new u32[allocatedPages.Length + GROWTH](
        i requires 0 <= i reads this, allocatedPages => if i < allocatedPages.Length then allocatedPages[i] else 0);
      assert tmp[..size] == allocatedPages[..size];
      allocatedPages := tmp;
      st := 0;
    }

    /** pagingstruct_track_page */
    method TrackPage(page: u32, granted: bool) returns (r: TrackResult)
      requires Valid()
      modifies this, allocatedPages
      ensures Valid()
      ensures allocatedPages == old(allocatedPages) || fresh(allocatedPages)
      ensures if old(size == allocatedPages.Length) && !granted then r == Status(-ENOMEM)
              else if page in old(Pages()) then r == Panic
              else r == Status(0)
      ensures Pages() == if r == Status(0) then Inserted(old(Pages()), page) else old(Pages())
    {
      if size == allocatedPages.Length {
        var st := Enlarge(granted);
        if st < 0 {
          return Status(st);
        }
      }
      var idx, twice := FindSlot(page);
      if twice {
        return Panic;
      }
      InsertAt(page, idx);
      r := Status(0);
    }

    /** Where the page belongs, unless it is there already. */
    method FindSlot(page: u32) returns (idx: nat, twice: bool)
      requires Valid()
      ensures twice <==> page in Pages()
      ensures !twice ==> idx <= size && (forall k :: 0 <= k < idx ==> Pages()[k] < page) && (idx < size ==> page < Pages()[idx])
    {
      idx := 0;
      while idx < size
        invariant idx <= size && forall k :: 0 <= k < idx ==> Pages()[k] < page
      {
        if allocatedPages[idx] == page {
          assert Pages()[idx] == page;
          return idx, true;
        }
        if allocatedPages[idx] > page {
          break;
        }
        idx := idx + 1;
      }
      NotTracked(Pages(), page, idx);
      twice := false;
    }

    /** Shifts the tail up by one and stores the page. */
    method InsertAt(page: u32, idx: nat)
      requires Valid() && size < allocatedPages.Length && page !in Pages() && idx <= size
      requires (forall k :: 0 <= k < idx ==> Pages()[k] < page) && (idx < size ==> page < Pages()[idx])
      modifies this`size, allocatedPages
      ensures Valid() && Pages() == Inserted(old(Pages()), page)
    {
      ghost var was := Pages();
      ShiftUp(allocatedPages, idx, size);
      assert allocatedPages[..idx] == was[..idx] && allocatedPages[idx + 1..size + 1] == was[idx..];
      allocatedPages[idx] := page;
      size := size + 1;
      assert allocatedPages[..idx] == was[..idx] && allocatedPages[idx + 1..size] == was[idx..];
      InsertedAt(was, page, idx);
      InsertedAscends(was, page);
      assert allocatedPages[..size] == allocatedPages[..idx] + [page] + allocatedPages[idx + 1..size];
    }
  }

  method ShiftUp(a: array<u32>, idx: nat, size: nat)
    requires idx <= size < a.Length
    modifies a
    ensures a[..idx] == old(a[..idx]) && a[idx + 1..size + 1] == old(a[idx..size])
  {
    var i := size;
    while i > idx
      invariant idx <= i <= size
      invariant forall k :: 0 <= k <= i ==> a[k] == old(a[k])
      invariant forall k :: i < k <= size ==> a[k] == old(a[k - 1])
    {
      a[i] := a[i - 1];
      i := i - 1;
    }
  }

  lemma NotTracked(s: seq<u32>, x: u32, i: nat)
    requires Ascending(s) && i <= |s| && (forall k :: 0 <= k < i ==> s[k] < x) && (i < |s| ==> x < s[i])
    ensures x !in s
  {
  }
}
