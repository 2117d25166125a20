/** Open files and directories. */
module FatHandle {
  class EntryHandle {
    var mode: char
    var posEntry: nat
    var cluster: nat
    var offset: nat
    var remaining: nat

    constructor ()
      ensures mode == '\0'
    {
      mode, posEntry, cluster, offset, remaining := '\0', 0, 0, 0, 0;
    }

    /** Structure assignment. */
    method CopyFrom(h: EntryHandle)
      modifies this
      ensures mode == h.mode && posEntry == h.posEntry && cluster == h.cluster
      ensures offset == h.offset && remaining == h.remaining
    {
      mode, posEntry, cluster, offset, remaining := h.mode, h.posEntry, h.cluster, h.offset, h.remaining;
    }
  }
}
