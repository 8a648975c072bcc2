/** How firmware lays a memory map out in memory: descriptors of any size from 40
    bytes on, with fields and trailing bytes the reader must skip. */
module MapImage {
  import opened Words
  import opened Storage
  import opened MemoryMap

  /** One descriptor as firmware writes it. */
  datatype Row = Row(desc: Descriptor, pad: u32, virt: u64, attribute: u64, tail: seq<byte>)

  function RowBytes(row: Row): seq<byte> {
    Bytes32(row.desc.kind) + Bytes32(row.pad) + Bytes64(row.desc.start) + Bytes64(row.virt)
    + Bytes64(row.desc.pages) + Bytes64(row.attribute) + row.tail
  }

  /** Every descriptor is `stride` bytes long. */
  predicate Uniform(rows: seq<Row>, stride: nat) {
    DESCRIPTOR_BYTES <= stride && forall i :: 0 <= i < |rows| ==> |rows[i].tail| == stride - DESCRIPTOR_BYTES
  }

  function Image(rows: seq<Row>): seq<byte> {
    if rows == [] then [] else Image(rows[..|rows| - 1]) + RowBytes(rows[|rows| - 1])
  }

  function DescriptorsOf(rows: seq<Row>): seq<Descriptor> {
    seq(|rows|, i requires 0 <= i < |rows| => rows[i].desc)
  }

  /** A row in memory reads back as its descriptor, whatever the other fields hold. */
  lemma RowReadsBack(m: seq<byte>, at: nat, row: Row)
    requires at + |RowBytes(row)| <= |m| && m[at..at + |RowBytes(row)|] == RowBytes(row)
    ensures |RowBytes(row)| == DESCRIPTOR_BYTES + |row.tail|
    ensures ReadDescriptor(m, at) == row.desc
  {
    var b := RowBytes(row);
    var kind, start, pages := Bytes32(row.desc.kind), Bytes64(row.desc.start), Bytes64(row.desc.pages);
    var pad, virt, attribute := Bytes32(row.pad), Bytes64(row.virt), Bytes64(row.attribute);
    hide Bytes32, Bytes64;
    assert b[..4] == kind;
    assert b[8..16] == start;
    assert b[24..32] == pages;
    hide RowBytes;
    Get32At(m, at, row.desc.kind) by { SliceOfSlice(m, at, b, 0, 4); }
    Get64At(m, at + 8, row.desc.start) by { SliceOfSlice(m, at, b, 8, 16); }
    Get64At(m, at + 24, row.desc.pages) by { SliceOfSlice(m, at, b, 24, 32); }
  }

  lemma RowSize(row: Row)
    ensures |RowBytes(row)| == DESCRIPTOR_BYTES + |row.tail|
  {
    hide Bytes32, Bytes64;
  }

  lemma NextMultiple(n: nat, k: nat)
    ensures n * k + k == (n + 1) * k
  {
  }

  lemma {:induction false} ImageSize(rows: seq<Row>, stride: nat)
    requires Uniform(rows, stride)
    ensures |Image(rows)| == |rows| * stride
  {
    hide RowBytes;
    if rows != [] {
      var n := |rows| - 1;
      ImageSize(rows[..n], stride);
      RowSize(rows[n]);
      NextMultiple(n, stride);
    }
  }

  /** Where the i-th row of the image sits. */
  lemma {:induction false} ImageRow(rows: seq<Row>, stride: nat, i: nat)
    requires Uniform(rows, stride) && i < |rows|
    ensures 0 <= i * stride && i * stride + stride <= |Image(rows)| && |RowBytes(rows[i])| == stride
    ensures Image(rows)[i * stride..i * stride + stride] == RowBytes(rows[i])
  {
    hide RowBytes;
    var n := |rows| - 1;
    var front, offset := Image(rows[..n]), i * stride;
    ImageSize(rows[..n], stride);
    RowSize(rows[n]);
    if i < n {
      ImageRow(rows[..n], stride, i);
      PrefixSlice(front, RowBytes(rows[n]), offset, offset + stride);
    }
  }

  lemma PrefixSlice(a: seq<byte>, b: seq<byte>, lo: nat, hi: nat)
    requires lo <= hi <= |a|
    ensures (a + b)[lo..hi] == a[lo..hi]
  {
  }

  /** Row i of an image in memory, seen through the walk of the reader. */
  lemma RowInMemory(m: seq<byte>, rows: seq<Row>, info: MapInfo, i: nat)
    requires Uniform(rows, info.stride) && info.size == |Image(rows)| && info.ptr + info.size <= |m|
    requires m[info.ptr..info.ptr + info.size] == Image(rows)
    requires i < |rows| && EntryAddress(info, i) + DESCRIPTOR_BYTES <= |m|
    ensures ReadDescriptor(m, EntryAddress(info, i)) == rows[i].desc
  {
    hide RowBytes, Image, ReadDescriptor;
    ImageRow(rows, info.stride, i);
    PartReadsBack(m, info.ptr, Image(rows), i * info.stride, info.stride, rows[i]);
  }

  lemma PartReadsBack(m: seq<byte>, at: nat, image: seq<byte>, offset: nat, stride: nat, row: Row)
    requires at + |image| <= |m| && m[at..at + |image|] == image
    requires offset + stride <= |image| && |RowBytes(row)| == stride
    requires image[offset..offset + stride] == RowBytes(row)
    ensures at + offset + DESCRIPTOR_BYTES <= |m| && ReadDescriptor(m, at + offset) == row.desc
  {
    hide RowBytes, ReadDescriptor;
    SliceOfSlice(m, at, image, offset, offset + stride);
    RowReadsBack(m, at + offset, row);
  }

  /** Round trip: a map written with any stride from 40 on, and any padding, virtual
      addresses, attributes and trailing bytes, reads back as its descriptors. */
  lemma ImageReadsBack(m: seq<byte>, rows: seq<Row>, info: MapInfo)
    requires Uniform(rows, info.stride) && info.size == |Image(rows)| && info.ptr + info.size <= |m|
    requires m[info.ptr..info.ptr + info.size] == Image(rows)
    ensures MapInMemory(m, info) && Descriptors(m, info) == DescriptorsOf(rows)
  {
    hide Image, RowBytes, ReadDescriptor, EntryAddress;
    ImageSize(rows, info.stride);
    ExactQuotient(|rows|, info.stride);
    forall i: nat | i < |rows| ensures i < Entries(info) && DescriptorAt(m, info, i) == rows[i].desc {
      EntryInside(info, i);
      RowInMemory(m, rows, info, i);
    }
    hide DescriptorAt;
  }

  lemma ExactQuotient(n: nat, k: nat)
    requires k > 0
    ensures n * k / k == n
  {
    var q := n * k / k;
    assert n * k == q * k + (n * k) % k;
    if q < n {
      ProductBelow(q, n, k);
    } else if q > n {
      ProductBelow(n, q, k);
    }
  }
}
