/**
 The growable buffer that collects the bytes of an unfinished message. The
 driver and the server each have a copy of it, over their own allocator.
 */
module TemporaryBuffer {
  import opened ByteStrings
  import opened Memory

  class TemporaryBuffer {
    const heap: Heap
    var buffptr: Ptr
    var size: size_t

    ghost predicate Valid()
      reads this, heap
    {
      && heap.Valid()
      && if buffptr == NULL then size == 0
         else buffptr in heap.blocks && |heap.blocks[buffptr]| == size as int
    }

    /** None for a NULL pointer. */
    ghost function Model(): Option<Bytes>
      requires Valid()
      reads this, heap
    {
      if buffptr == NULL then None else Some(heap.blocks[buffptr])
    }

    ghost function Contents(): Bytes
      requires Valid()
      reads this, heap
    {
      if buffptr == NULL then [] else heap.blocks[buffptr]
    }

    /** The block this buffer owns, if any. */
    ghost function Owned(): set<Ptr>
      reads this
    {
      {buffptr} - {NULL}
    }

    constructor (heap: Heap)
      requires heap.Valid()
      ensures Valid() && this.heap == heap && buffptr == NULL
    {
      this.heap := heap;
      buffptr := NULL;
      size := 0;
    }

    method IsEmpty() returns (empty: bool)
      requires Valid()
      ensures empty <==> Contents() == []
    {
      empty := buffptr == NULL || size == 0;
    }

    /**
     Appends the first `count` bytes of block `src`. When the allocation fails
     nothing changes at all; when it succeeds the old block has been freed and
     every other block is untouched.
     */
    method Add(src: Ptr, count: size_t, grant: bool) returns (ok: bool)
      requires Valid()
      requires src in heap.blocks && src != buffptr && count as int <= |heap.blocks[src]|
      modifies this, heap
      ensures Valid()
      ensures ok <==> grant && old(heap.used) + old(size as int) + count as int <= heap.capacity
      ensures !ok ==> buffptr == old(buffptr) && size == old(size)
      ensures !ok ==> heap.blocks == old(heap.blocks) && heap.used == old(heap.used)
      ensures ok ==> buffptr != NULL && buffptr !in old(heap.blocks)
      ensures ok ==>
                heap.blocks == (old(heap.blocks) - old(Owned()))
                               [buffptr := old(Contents()) + old(heap.Load(src, count))]
      ensures ok ==> heap.used == old(heap.used) + count as int
    {
      ghost var before, data := heap.blocks, heap.Load(src, count);
      var last := buffptr;
      if last == NULL {
        last := CopyOf(NULL, 0, src, count, grant);
        if last == NULL {
          return false;
        }
        assert before - Owned() == before;
        buffptr := last;
        size := count;
        return true;
      }
      assert heap.used >= size as int by { TotalRemove(heap.blocks, buffptr); }
      assert heap.used >= count as int by { TotalRemove(heap.blocks, src); }
      var next := CopyOf(last, size, src, count, grant);
      if next == NULL {
        return false;
      }
      heap.Free(last);
      assert heap.blocks == (before - {last})[next := before[last] + data];
      assert old(Owned()) == {last};
      buffptr := next;
      size := size + count;
      return true;
    }

    /** A fresh block that holds the bytes of `first`, if there is one, and then those of `second`. */
    method CopyOf(first: Ptr, firstSize: size_t, second: Ptr, secondSize: size_t, grant: bool) returns (p: Ptr)
      requires heap.Valid()
      requires if first == NULL then firstSize == 0
               else first in heap.blocks && |heap.blocks[first]| == firstSize as int
      requires second in heap.blocks && secondSize as int <= |heap.blocks[second]|
      requires firstSize as int + secondSize as int < 0x1_0000_0000_0000_0000
      modifies heap
      ensures heap.Valid()
      ensures p != NULL <==> grant && old(heap.used) + firstSize as int + secondSize as int <= heap.capacity
      ensures p == NULL ==> heap.blocks == old(heap.blocks) && heap.used == old(heap.used)
      ensures p != NULL ==> p !in old(heap.blocks)
      ensures p != NULL ==>
                var head := if first == NULL then [] else old(heap.blocks[first]);
                heap.blocks == old(heap.blocks)[p := head + old(heap.Load(second, secondSize))]
      ensures p != NULL ==> heap.used == old(heap.used) + firstSize as int + secondSize as int
    {
      ghost var head := if first == NULL then [] else heap.blocks[first];
      ghost var data := heap.Load(second, secondSize);
      p := heap.Alloc(firstSize + secondSize, grant);
      if p != NULL {
        if first != NULL {
          heap.Copy(p, 0, heap.Load(first, firstSize));
        }
        heap.Copy(p, firstSize, heap.Load(second, secondSize));
        assert heap.blocks[p] == head + data;
      }
    }

    /** aesd_temperary_buffer_delete, and aesd_temperary_buffer_clean, which differs from it only in what it prints. */
    method Clean()
      requires Valid()
      modifies this, heap
      ensures Valid() && buffptr == NULL
      ensures heap.blocks == old(heap.blocks) - old(Owned())
      ensures heap.used == old(heap.used) - old(size as int)
    {
      if buffptr != NULL {
        heap.Free(buffptr);
        buffptr := NULL;
        size := 0;
      } else {
        assert heap.blocks - Owned() == heap.blocks;
      }
    }
  }
}
