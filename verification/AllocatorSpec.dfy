// What any heap manager behind Kernel/include/memoryManagerADT.h owes its callers:
// the blocks it has handed out and not got back lie inside the heap and never overlap.
module AllocatorSpec {
  datatype Extent = Extent(start: nat, size: nat)

  predicate Apart(a: Extent, b: Extent) {
    a.start + a.size <= b.start || b.start + b.size <= a.start
  }

  ghost predicate Separated(live: iset<Extent>, total: nat) {
    && (forall e | e in live :: e.start + e.size <= total)
    && (forall a, b | a in live && b in live && a != b :: Apart(a, b))
  }

  /** Exactly one new extent becomes live and nothing live moves or overlaps. */
  ghost predicate Allocates(live: iset<Extent>, e: Extent, live': iset<Extent>, total: nat) {
    e !in live && live' == live + iset{e} && Separated(live', total)
  }

  ghost predicate Frees(live: iset<Extent>, e: Extent, live': iset<Extent>) {
    e in live && live' == live - iset{e}
  }
}
