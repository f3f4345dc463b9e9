/** One file of pages: a page of metadata, then the pages of the index. */
module DiskStorage {
  import opened IndexTypes
  import opened ByteCodec
  import opened IndexLayout

  const INT64_CODE: byte := 0
  const STRING_CODE: byte := 1
  const UNKNOWN_CODE: byte := 2

  datatype Metadata = Metadata(root: PageId, firstLeaf: PageId, height: nat, size: nat, kind: byte)

  const EMPTY_METADATA: Metadata := Metadata(INVALID_PAGE_ID, INVALID_PAGE_ID, 0, 0, UNKNOWN_CODE)

  const INDEX_METADATA_SIZE: nat := 8 + 8 + 4 + 8 + 1

  /** The numbers fit the widths of their fields. */
  predicate Storable(m: Metadata) {
    m.height < TWO_32 && m.size < TWO_64
  }

  function MetadataBytes(m: Metadata): (b: seq<byte>)
    ensures |b| == INDEX_METADATA_SIZE
  {
    Bytes(m.root, 8) + Bytes(m.firstLeaf, 8) + Bytes(m.height, 4) + Bytes(m.size, 8) + [m.kind]
  }

  function MetadataOf(data: seq<byte>): Metadata
    requires |data| >= INDEX_METADATA_SIZE
  {
    Metadata(Unsigned64(data[0..8]), Unsigned64(data[8..16]), Number(data[16..20]), Number(data[20..28]), data[28])
  }

  lemma MetadataBack(data: seq<byte>, m: Metadata)
    requires |data| >= INDEX_METADATA_SIZE && Storable(m) && At(data, 0, MetadataBytes(m))
    ensures MetadataOf(data) == m
    ensures At(data, 0, Bytes(m.root, 8)) && At(data, 8, Bytes(m.firstLeaf, 8)) && At(data, 16, Bytes(m.height, 4))
            && At(data, 20, Bytes(m.size, 8)) && data[28] == m.kind
  {
    PowersOf256();
    hide At, Bytes, Number, Power256;
    var a := Bytes(m.root, 8);
    var b := a + Bytes(m.firstLeaf, 8);
    var c := b + Bytes(m.height, 4);
    var d := c + Bytes(m.size, 8);
    AtJoin(data, 0, d, [m.kind]);
    AtJoin(data, 0, c, Bytes(m.size, 8));
    AtJoin(data, 0, b, Bytes(m.height, 4));
    AtJoin(data, 0, a, Bytes(m.firstLeaf, 8));
    FieldBack(data, 0, m.root, 8);
    FieldBack(data, 8, m.firstLeaf, 8);
    FieldBack(data, 16, m.height, 4);
    FieldBack(data, 20, m.size, 8);
    OneByte(data, 28, m.kind);
  }

  lemma OneByte(data: seq<byte>, offset: nat, b: byte)
    requires At(data, offset, [b])
    ensures offset < |data| && data[offset] == b
  {
    assert data[offset..offset + 1][0] == data[offset];
  }

  // ----- the file as pages -----

  /** Where a page starts: behind the page of metadata. */
  function PageOffset(id: nat): nat {
    PAGE_SIZE + id * PAGE_SIZE
  }

  /** The largest std::streamoff. */
  const MAX_OFFSET: nat := 0x7FFF_FFFF_FFFF_FFFF

  /** What page_offset checks before it computes an offset. */
  predicate OffsetChecked(id: PageId) {
    id <= MAX_OFFSET / PAGE_SIZE
  }

  /** The check forgets the page of metadata: it passes one page whose offset is too large, the last one. */
  lemma CheckedOffsets(id: PageId)
    requires OffsetChecked(id)
    ensures PageOffset(id) <= MAX_OFFSET <==> id < MAX_PAGES
  {
  }

  ghost predicate Aligned(file: seq<byte>, pageCount: nat) {
    |file| == PageOffset(pageCount)
  }

  /** The size of a file determines how many pages it has. */
  lemma SamePages(file: seq<byte>, a: nat, b: nat)
    requires Aligned(file, a) && Aligned(file, b)
    ensures a == b
  {
  }

  function PageOf(file: seq<byte>, id: nat): seq<byte>
    requires PageOffset(id) + PAGE_SIZE <= |file|
  {
    file[PageOffset(id)..PageOffset(id) + PAGE_SIZE]
  }

  ghost function PagesOf(file: seq<byte>, pageCount: nat): seq<seq<byte>>
    requires Aligned(file, pageCount)
  {
    seq(pageCount, i requires 0 <= i < pageCount => PageOf(file, i))
  }

  /** The file after writing data at an offset. */
  function Spliced(file: seq<byte>, offset: nat, data: seq<byte>): seq<byte>
    requires offset <= |file|
  {
    if offset + |data| <= |file| then file[..offset] + data + file[offset + |data|..] else file[..offset] + data
  }

  lemma SpliceParts(file: seq<byte>, offset: nat, data: seq<byte>, from: nat, to: nat)
    requires offset + |data| <= |file| && from <= to <= |file|
    ensures |Spliced(file, offset, data)| == |file|
    ensures Spliced(file, offset, data)[offset..offset + |data|] == data
    ensures to <= offset || offset + |data| <= from ==> Spliced(file, offset, data)[from..to] == file[from..to]
  {
  }

  /** Writing a page replaces that page and leaves the others and the metadata page alone. */
  lemma PageWritten(file: seq<byte>, pageCount: nat, id: nat, data: seq<byte>)
    requires Aligned(file, pageCount) && id < pageCount && |data| == PAGE_SIZE
    ensures var file' := Spliced(file, PageOffset(id), data);
            && Aligned(file', pageCount) && PagesOf(file', pageCount) == PagesOf(file, pageCount)[id := data]
            && file'[..PAGE_SIZE] == file[..PAGE_SIZE]
  {
    var file' := Spliced(file, PageOffset(id), data);
    SpliceParts(file, PageOffset(id), data, 0, PAGE_SIZE);
    forall i | 0 <= i < pageCount
      ensures PageOf(file', i) == if i == id then data else PageOf(file, i)
    {
      SpliceParts(file, PageOffset(id), data, PageOffset(i), PageOffset(i) + PAGE_SIZE);
    }
    hide Spliced, PageOf;
    assert PagesOf(file', pageCount) == PagesOf(file, pageCount)[id := data];
  }

  /** Appending a page. */
  lemma PageAppended(file: seq<byte>, pageCount: nat, data: seq<byte>)
    requires Aligned(file, pageCount) && |data| == PAGE_SIZE
    ensures var file' := Spliced(file, PageOffset(pageCount), data);
            && file' == file + data && Aligned(file', pageCount + 1)
            && PagesOf(file', pageCount + 1) == PagesOf(file, pageCount) + [data]
            && file'[..PAGE_SIZE] == file[..PAGE_SIZE]
  {
    var file' := Spliced(file, PageOffset(pageCount), data);
    assert file[..PageOffset(pageCount)] == file;
    forall i | 0 <= i < pageCount ensures PageOf(file', i) == PageOf(file, i) {
      AppendParts(file, data, PageOffset(i), PageOffset(i) + PAGE_SIZE);
    }
    AppendParts(file, data, 0, PAGE_SIZE);
    assert PageOf(file', pageCount) == data;
    hide Spliced, PageOf;
    assert PagesOf(file', pageCount + 1) == PagesOf(file, pageCount) + [data];
  }

  lemma AppendParts(file: seq<byte>, data: seq<byte>, from: nat, to: nat)
    requires from <= to <= |file|
    ensures (file + data)[from..to] == file[from..to]
  {
  }

  /** Writing metadata changes no page. */
  lemma MetadataWritten(file: seq<byte>, pageCount: nat, m: Metadata)
    requires Aligned(file, pageCount)
    ensures var file' := Spliced(file, 0, MetadataBytes(m));
            && Aligned(file', pageCount) && PagesOf(file', pageCount) == PagesOf(file, pageCount)
            && At(file', 0, MetadataBytes(m)) && file'[INDEX_METADATA_SIZE..] == file[INDEX_METADATA_SIZE..]
  {
    var file' := Spliced(file, 0, MetadataBytes(m));
    hide MetadataBytes;
    SpliceParts(file, 0, MetadataBytes(m), INDEX_METADATA_SIZE, |file|);
    forall i | 0 <= i < pageCount ensures PageOf(file', i) == PageOf(file, i) {
      SpliceParts(file, 0, MetadataBytes(m), PageOffset(i), PageOffset(i) + PAGE_SIZE);
    }
    assert file'[INDEX_METADATA_SIZE..] == file'[INDEX_METADATA_SIZE..|file|];
    assert file[INDEX_METADATA_SIZE..] == file[INDEX_METADATA_SIZE..|file|];
    hide Spliced, PageOf;
    assert PagesOf(file', pageCount) == PagesOf(file, pageCount);
  }

  // ----- the manager -----

  class DiskPageManager {
    var file: seq<byte>
    var pageCount: nat

    ghost predicate Valid()
      reads this
    {
      Aligned(file, pageCount) && pageCount <= MAX_PAGES
    }

    ghost function Pages(): seq<seq<byte>>
      requires Valid()
      reads this
    {
      PagesOf(file, pageCount)
    }

    ghost function Meta(): Metadata
      reads this
    {
      if |file| < INDEX_METADATA_SIZE then EMPTY_METADATA else MetadataOf(file)
    }

    constructor ()
      ensures Valid() && Pages() == [] && Meta() == EMPTY_METADATA && fresh(this)
    {
      file := MetadataBytes(EMPTY_METADATA) + Zeros(PAGE_SIZE - INDEX_METADATA_SIZE);
      pageCount := 0;
      new;
      NewFile(file);
    }

    constructor Reopen(existing: seq<byte>)
      requires PAGE_SIZE <= |existing| <= PageOffset(MAX_PAGES) && |existing| % PAGE_SIZE == 0
      ensures Valid() && file == existing
    {
      file := existing;
      pageCount := (|existing| - PAGE_SIZE) / PAGE_SIZE;
    }

    method AllocatePage() returns (id: Option<PageId>)
      requires Valid()
      modifies this
      ensures Valid() && Meta() == old(Meta())
      ensures id == if old(pageCount) < MAX_PAGES then Some(old(pageCount)) else None
      ensures Pages() == if id.Some? then old(Pages()) + [Zeros(PAGE_SIZE)] else old(Pages())
      ensures pageCount == |Pages()|
    {
      if pageCount >= MAX_PAGES {
        return None;
      }
      PageAppended(file, pageCount, Zeros(PAGE_SIZE));
      MetadataSame(file, Spliced(file, PageOffset(pageCount), Zeros(PAGE_SIZE)));
      hide MetadataOf, PageOf, Spliced;
      id := Some(pageCount);
      file := Spliced(file, PageOffset(pageCount), Zeros(PAGE_SIZE));
      pageCount := pageCount + 1;
    }

    method ReadPage(id: PageId) returns (page: Option<seq<byte>>)
      requires Valid()
      ensures page == if id < pageCount then Some(Pages()[id]) else None
    {
      if id == INVALID_PAGE_ID || id >= pageCount {
        return None;
      }
      page := Some(file[PageOffset(id)..PageOffset(id) + PAGE_SIZE]);
    }

    method WritePage(id: PageId, data: seq<byte>) returns (ok: bool)
      requires Valid()
      modifies this`file
      ensures Valid() && Meta() == old(Meta())
      ensures ok == (id < pageCount && |data| == PAGE_SIZE)
      ensures Pages() == if ok then old(Pages())[id := data] else old(Pages())
    {
      if id == INVALID_PAGE_ID || id >= pageCount || |data| != PAGE_SIZE {
        return false;
      }
      PageWritten(file, pageCount, id, data);
      MetadataSame(file, Spliced(file, PageOffset(id), data));
      hide MetadataOf, PageOf, Spliced;
      file := Spliced(file, PageOffset(id), data);
      ok := true;
    }

    method ReadMetadata() returns (m: Metadata)
      requires Valid()
      ensures m == Meta()
    {
      m := MetadataOf(file);
    }

    method WriteMetadata(m: Metadata)
      requires Valid() && Storable(m)
      modifies this`file
      ensures Valid() && Meta() == m && Pages() == old(Pages())
    {
      MetadataWritten(file, pageCount, m);
      hide Spliced;
      file := Spliced(file, 0, MetadataBytes(m));
      MetadataBack(file, m);
    }
  }

  lemma NewFile(file: seq<byte>)
    requires file == MetadataBytes(EMPTY_METADATA) + Zeros(PAGE_SIZE - INDEX_METADATA_SIZE)
    ensures Aligned(file, 0) && MetadataOf(file) == EMPTY_METADATA
  {
    assert At(file, 0, MetadataBytes(EMPTY_METADATA));
    MetadataBack(file, EMPTY_METADATA);
  }

  lemma MetadataSame(file: seq<byte>, file': seq<byte>)
    requires |file| >= PAGE_SIZE && |file'| >= PAGE_SIZE && file'[..PAGE_SIZE] == file[..PAGE_SIZE]
    ensures MetadataOf(file') == MetadataOf(file)
  {
    hide Number;
    SameSlice(file, file', 0, 8);
    SameSlice(file, file', 8, 16);
    SameSlice(file, file', 16, 20);
    SameSlice(file, file', 20, 28);
    SameSlice(file, file', 28, 29);
    assert file'[28..29][0] == file[28..29][0];
  }

  lemma SameSlice(file: seq<byte>, file': seq<byte>, from: nat, to: nat)
    requires |file| >= PAGE_SIZE && |file'| >= PAGE_SIZE && file'[..PAGE_SIZE] == file[..PAGE_SIZE]
             && from <= to <= PAGE_SIZE
    ensures file'[from..to] == file[from..to]
  {
    SliceOfPrefix(file', PAGE_SIZE, from, to);
    SliceOfPrefix(file, PAGE_SIZE, from, to);
  }

  lemma SliceOfPrefix(s: seq<byte>, n: nat, from: nat, to: nat)
    requires from <= to <= n <= |s|
    ensures s[..n][from..to] == s[from..to]
  {
  }

  /** Opens the page file, which is created if there is none; null is the exception for a file that
      does not consist of whole pages. */
  method Open(existing: Option<seq<byte>>) returns (disk: DiskPageManager?)
    requires existing.Some? ==> |existing.value| <= PageOffset(MAX_PAGES)
    ensures disk == null <==> existing.Some? && (|existing.value| < PAGE_SIZE || |existing.value| % PAGE_SIZE != 0)
    ensures disk != null ==> fresh(disk) && disk.Valid()
    ensures disk != null && existing.None? ==> disk.Pages() == [] && disk.Meta() == EMPTY_METADATA
    ensures disk != null && existing.Some? ==>
              && disk.file == existing.value && Aligned(existing.value, disk.pageCount)
              && disk.Pages() == PagesOf(existing.value, disk.pageCount) && disk.Meta() == MetadataOf(existing.value)
  {
    if existing.None? {
      disk := new DiskPageManager();
    } else {
      var size := |existing.value|;
      if size < PAGE_SIZE || (size - PAGE_SIZE) % PAGE_SIZE != 0 {
        return null;
      }
      disk := new DiskPageManager.Reopen(existing.value);
    }
  }
}
