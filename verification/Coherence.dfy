/** What the coherence models share: the MESI states and the directory entries of src/memory_hierarchy.h and
    src/coherence_ctrls.h. */
module Coherence {

  datatype MESIState = I | S | E | M

  predicate HasExclusive(x: MESIState) {
    x == E || x == M
  }

  /** A directory entry; the sharer and owner bitsets are the sets of children whose bit is on. */
  datatype Entry = Entry(numSharers: nat, sharers: set<nat>, owners: set<nat>, exclusive: bool)
  {
    predicate IsEmpty() {
      numSharers == 0
    }

    predicate IsExclusive() {
      numSharers == 1 && exclusive
    }
  }
}
