/** Sizes of pages, headers and keys, and the capacities that follow from them. */
module IndexLayout {
  import opened IndexTypes
  import opened TreeModel

  const PAGE_SIZE: nat := 4096
  const INDEX_STRING_KEY_SIZE: nat := 256
  const SIZEOF_PAGE_ID: nat := 8
  const SIZEOF_SLOT_ID: nat := 2
  const INDEX_NODE_HEADER_SIZE: nat := 4 + 2 + 1 + 1 + SIZEOF_PAGE_ID + SIZEOF_PAGE_ID + 4 + 4

  function FixedKeySize(kind: KeyKind): nat {
    if kind.Int64? then 8 else INDEX_STRING_KEY_SIZE
  }

  function MaxLeafKeyCount(kind: KeyKind): nat {
    (PAGE_SIZE - INDEX_NODE_HEADER_SIZE) / (FixedKeySize(kind) + SIZEOF_PAGE_ID + SIZEOF_SLOT_ID)
  }

  function MaxInternalKeyCount(kind: KeyKind): nat {
    (PAGE_SIZE - INDEX_NODE_HEADER_SIZE - SIZEOF_PAGE_ID) / (FixedKeySize(kind) + SIZEOF_PAGE_ID)
  }

  function CapsFor(kind: KeyKind): (c: Caps)
    ensures c == if kind.Int64? then Caps(225, 253) else Caps(15, 15)
    ensures c.Ok()
  {
    Caps(MaxLeafKeyCount(kind), MaxInternalKeyCount(kind))
  }
}
