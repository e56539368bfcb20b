/** The probes that every function makes of a header before it goes on: what
    they ask of it, and that complete blobs pass. */
module Probe {
  import opened Bytes
  import opened Tokens
  import opened Blob
  import opened StringTable
  import opened Reader

  /** fdt_ro_probe_: the total size, or an error. */
  function RoProbe(h: Header): int {
    if h.magic == FDT_MAGIC && (h.version < FIRST_SUPPORTED_VERSION || h.lastCompVersion > LAST_SUPPORTED_VERSION)
    then -ERR_BADVERSION
    else if h.magic == FDT_SW_MAGIC && h.sizeStruct == 0 then -ERR_BADSTATE
    else if h.magic != FDT_MAGIC && h.magic != FDT_SW_MAGIC then -ERR_BADMAGIC
    else if h.totalsize < TWO31 - 1 then h.totalsize else -ERR_TRUNCATED
  }

  /** fdt_blocks_misordered_ */
  predicate Misordered(h: Header, rsvSize: nat, structSize: nat) {
    || h.offRsvmap < HEADER_SIZE
    || h.offStruct < U32(h.offRsvmap + rsvSize)
    || h.offStrings < U32(h.offStruct + structSize)
    || h.totalsize < U32(h.offStrings + h.sizeStrings)
  }

  /** fdt_rw_probe_ on a header of version 17 or less. */
  function RwProbe(h: Header): (r: int)
    ensures r <= 0
  {
    if RoProbe(h) < 0 then RoProbe(h)
    else if h.version < 17 then -ERR_BADVERSION
    else if Misordered(h, 16, h.sizeStruct) then -ERR_BADLAYOUT else 0
  }

  /** Readers go on with a finished blob of a version and size that they know, and
      with one that is still being written once there is anything in it. */
  lemma RoAccepts(h: Header)
    ensures RoProbe(h) >= 0 <==>
            && h.totalsize < 0x7fff_ffff
            && ((h.magic == 0xd00d_feed && h.version >= 2 && h.lastCompVersion <= 17) ||
                (h.magic == 0x2ff2_0112 && h.sizeStruct > 0))
    ensures RoProbe(h) >= 0 ==> RoProbe(h) == h.totalsize
    ensures h.magic != 0xd00d_feed && h.magic != 0x2ff2_0112 ==> RoProbe(h) == -9
    ensures h.magic == 0x2ff2_0112 && h.sizeStruct == 0 ==> RoProbe(h) == -7
  {
  }

  /** A complete blob is refused only for its last compatible version or its size. */
  lemma RoComplete(h: Header, b: seq<byte>, cs: seq<Call>)
    requires Complete(h, b, cs)
    ensures RoProbe(h) ==
            if h.lastCompVersion > 17 then -10 else if h.totalsize == 0x7fff_ffff then -8 else h.totalsize
  {
    hide Denotes;
  }

  /** It can be edited exactly when, besides, there is room for one reserve entry
      between header and structure block. */
  lemma RwComplete(h: Header, b: seq<byte>, cs: seq<Call>)
    requires Complete(h, b, cs)
    ensures RwProbe(h) == 0 <==>
            h.lastCompVersion <= 17 && h.totalsize < 0x7fff_ffff && 40 <= h.offRsvmap && h.offRsvmap + 16 <= h.offStruct
    ensures h.lastCompVersion <= 17 && h.totalsize < 0x7fff_ffff && RwProbe(h) != 0 ==> RwProbe(h) == -12
  {
    hide Denotes;
  }

  /** As long as no sum wraps around, as none does in a complete blob: of header,
      reserve map, structure and strings, none runs into the next, and the strings
      do not run over the end. */
  lemma InOrder(h: Header, rsvSize: nat, structSize: nat)
    requires h.offRsvmap + rsvSize < TWO32 && h.offStruct + structSize < TWO32 && h.offStrings + h.sizeStrings < TWO32
    ensures !Misordered(h, rsvSize, structSize) <==>
            40 <= h.offRsvmap <= h.offStruct - rsvSize <= h.offStrings - structSize - rsvSize
            <= h.totalsize - h.sizeStrings - structSize - rsvSize
  {
  }
}
