/** A pool of blocks of memory of one size. */
module ContikiMemb {
  import opened ContikiList

  class Memb<T> {
    const mem: seq<Node<T>>
    const count: array<nat>

    ghost predicate Valid()
      reads this, count
    {
      |mem| == count.Length && Distinct(mem)
    }

    /** memb_init. */
    constructor (mem: seq<Node<T>>)
      requires Distinct(mem)
      ensures Valid() && this.mem == mem && fresh(count) && forall i :: 0 <= i < |mem| ==> count[i] == 0
    {
      this.mem := mem;
      count := new nat[|mem|](_ => 0);
    }

    /** memb_alloc: the first free block. */
    method Alloc() returns (b: Node?<T>, ghost i: nat)
      requires Valid()
      modifies count
      ensures b == null ==> i == |mem| && count[..] == old(count[..])
      ensures b != null ==> i < |mem| && b == mem[i] && old(count[i]) == 0 && count[..] == old(count[..])[i := 1]
      ensures forall j :: 0 <= j < i ==> old(count[j]) != 0
    {
      var k := 0;
      while k < |mem|
        invariant 0 <= k <= |mem| && count[..] == old(count[..]) && forall j :: 0 <= j < k ==> count[j] != 0
      {
        if count[k] == 0 {
          count[k] := count[k] + 1;
          return mem[k], k;
        }
        k := k + 1;
      }
      return null, k;
    }

    /** memb_free: a block that is free stays free. */
    method Free(ptr: Node<T>) returns (left: int, ghost i: nat)
      requires Valid()
      modifies count
      ensures ptr !in mem ==> left == -1 && count[..] == old(count[..])
      ensures ptr in mem ==> i < |mem| && mem[i] == ptr && left == (if old(count[i]) > 0 then old(count[i]) - 1 else 0)
      ensures ptr in mem ==> count[..] == old(count[..])[i := left]
    {
      var k := 0;
      while k < |mem|
        invariant 0 <= k <= |mem| && count[..] == old(count[..]) && ptr !in mem[..k]
      {
        if mem[k] == ptr {
          if count[k] > 0 {
            count[k] := count[k] - 1;
          }
          return count[k], k;
        }
        k := k + 1;
      }
      return -1, k;
    }
  }
}
