/** The kfree that process_create in src/process.c calls before it has allocated a stack. */
module ProcessHeap {
  import opened Machine
  import H = Heap
  import opened Sched
  import HeapSpec
  import SchedSpec

  /** An unused slot holds no stack, so when no page directory can be had the kfree gets an address near the top of the
      address space, and does nothing while the heap ends at or below its header. */
  method FreeBeforeAlloc(sched: Scheduler, heap: H.Heap, i: nat)
    requires sched.Valid() && SchedSpec.Inv(sched.Table()) && i < SchedSpec.MAX
    requires i == SchedSpec.FreeSlot(sched.info[..], 1)
    requires heap.Valid() && heap.End() <= 0xFFFF_EFF0
    modifies heap, heap.mem
    ensures heap.Valid() && heap.blocks == old(heap.blocks) && heap.mem[..] == old(heap.mem[..])
    ensures heap.heapUsed == old(heap.heapUsed) && heap.heapEnd == old(heap.heapEnd)
    ensures heap.heapStart == old(heap.heapStart) && heap.heapSize == old(heap.heapSize)
  {
    var ptr := Sub(sched.info[i].kernelStack, SchedSpec.STACK_SIZE);
    assert sched.Table().State(i) == SchedSpec.Unused;
    if HeapSpec.IsLive(heap.blocks, ptr) {
      H.LiveHeader(heap.Img(), heap.blocks, ptr, heap.heapStart, heap.End());
    }
    heap.Kfree(ptr);
  }
}
