/**
 Machine integers, and the allocator behind `my_malloc`, `kmalloc` and `malloc`:
 a set of live blocks addressed by pointers, with a bound on the bytes it can
 hand out. Freeing a block that is not live, and reading or writing outside a
 block, violate a precondition.
 */
module Memory {
  import opened ByteStrings

  newtype size_t = x: int | 0 <= x < 0x1_0000_0000_0000_0000
  newtype loff_t = x: int | -0x8000_0000_0000_0000 <= x < 0x8000_0000_0000_0000
  newtype uint8 = x: int | 0 <= x < 0x100

  type Ptr = nat

  const NULL: Ptr := 0

  /** The number of bytes in a set of blocks. */
  ghost function Total(blocks: map<Ptr, Bytes>): nat {
    if blocks == map[] then 0
    else
      var p :| p in blocks;
      |blocks[p]| + Total(blocks - {p})
  }

  lemma {:induction false} TotalRemove(blocks: map<Ptr, Bytes>, p: Ptr)
    requires p in blocks
    ensures Total(blocks) == |blocks[p]| + Total(blocks - {p})
    decreases |blocks|
  {
    var q :| q in blocks && Total(blocks) == |blocks[q]| + Total(blocks - {q});
    if q != p {
      TotalRemove(blocks - {q}, p);
      TotalRemove(blocks - {p}, q);
      assert blocks - {q} - {p} == blocks - {p} - {q};
    }
  }

  lemma TotalUpdate(blocks: map<Ptr, Bytes>, p: Ptr, data: Bytes)
    ensures Total(blocks[p := data]) == Total(blocks) + |data| - if p in blocks then |blocks[p]| else 0
  {
    TotalRemove(blocks[p := data], p);
    if p in blocks {
      TotalRemove(blocks, p);
      assert blocks[p := data] - {p} == blocks - {p};
    } else {
      assert blocks[p := data] - {p} == blocks;
    }
  }

  lemma UnusedPtr(used: set<Ptr>) returns (p: Ptr)
    ensures p != NULL && p !in used
    ensures forall q :: q in used ==> q < p
  {
    if used == {} {
      p := 1;
    } else {
      var q :| q in used;
      p := UnusedPtr(used - {q});
      assert used == (used - {q}) + {q};
      if p <= q {
        p := q + 1;
      }
    }
  }

  class Heap {
    /** The bytes the allocator can hand out; no address space holds 2^63 of them. */
    const capacity: nat
    var blocks: map<Ptr, Bytes>
    var used: nat

    ghost predicate Valid()
      reads this
    {
      capacity < 0x8000_0000_0000_0000 && NULL !in blocks && used == Total(blocks) <= capacity
    }

    constructor (capacity: nat)
      requires capacity < 0x8000_0000_0000_0000
      ensures Valid() && blocks == map[] && this.capacity == capacity
    {
      this.capacity := capacity;
      blocks := map[];
      used := 0;
    }

    /**
     A request is granted when there is room and the allocator chooses to
     (`grant`); then any unused address is returned, with any contents.
     */
    method Alloc(size: size_t, grant: bool) returns (p: Ptr)
      requires Valid()
      modifies this
      ensures Valid()
      ensures p != NULL <==> grant && old(used) + size as int <= capacity
      ensures p == NULL ==> blocks == old(blocks) && used == old(used)
      ensures p != NULL ==> p !in old(blocks) && p in blocks && |blocks[p]| == size as int
      ensures p != NULL ==> blocks == old(blocks)[p := blocks[p]] && used == old(used) + size as int
    {
      if !grant || used + size as int > capacity {
        return NULL;
      }
      ghost var unused := UnusedPtr(blocks.Keys);
      assert unused !in blocks;
      p :| p != NULL && p !in blocks;
      var contents: Bytes := seq(size as int, _ => 0);
      assert |contents| == size as int;
      contents :| |contents| == size as int;
      TotalUpdate(blocks, p, contents);
      blocks := blocks[p := contents];
      used := used + size as int;
    }

    /** memcpy into a block, from byte `at` on. */
    method Copy(p: Ptr, at: size_t, data: Bytes)
      requires Valid() && p in blocks && at as int + |data| <= |blocks[p]|
      modifies this`blocks
      ensures Valid()
      ensures var b := old(blocks[p]);
              blocks == old(blocks)[p := b[..at as int] + data + b[at as int + |data|..]]
    {
      var b := blocks[p];
      var contents := b[..at as int] + data + b[at as int + |data|..];
      TotalUpdate(blocks, p, contents);
      blocks := blocks[p := contents];
    }

    /** The first n bytes of a block, as memcpy reads them. */
    function Load(p: Ptr, n: size_t): Bytes
      requires p in blocks && n as int <= |blocks[p]|
      reads this
    {
      blocks[p][..n as int]
    }

    /** A malloc followed, when granted, by a memcpy of all of block `src`. */
    method Duplicate(src: Ptr, size: size_t, grant: bool) returns (p: Ptr)
      requires Valid() && src in blocks && |blocks[src]| == size as int
      modifies this
      ensures Valid()
      ensures p != NULL <==> grant && old(used) + size as int <= capacity
      ensures p == NULL ==> blocks == old(blocks) && used == old(used)
      ensures p != NULL ==> p !in old(blocks) && blocks == old(blocks)[p := old(blocks[src])]
      ensures p != NULL ==> used == old(used) + size as int
    {
      ghost var data := blocks[src];
      p := Alloc(size, grant);
      if p != NULL {
        Copy(p, 0, Load(src, size));
        assert blocks[p] == data;
      }
    }

    /** Freeing NULL does nothing; anything else must be live. */
    method Free(p: Ptr)
      requires Valid() && (p != NULL ==> p in blocks)
      modifies this
      ensures Valid()
      ensures blocks == old(blocks) - {p}
      ensures used == old(used) - if p == NULL then 0 else |old(blocks[p])|
    {
      if p != NULL {
        TotalRemove(blocks, p);
        used := used - |blocks[p]|;
        blocks := blocks - {p};
      } else {
        assert blocks - {p} == blocks;
      }
    }
  }
}
