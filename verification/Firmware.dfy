/** The firmware as the boot loader sees it: a nondeterministic machine that owns the
    memory map, hands out memory, serves a file with short reads, and lets go of the
    machine only for the key of its current map. */
module Firmware {
  import opened Words
  import opened Storage
  import opened MemoryMap
  import opened MapImage

  datatype Status =
    | Success
    | LoadError
    | InvalidParameter
    | BufferTooSmall
    | DeviceError
    | OutOfResources
    | NotFound

  /** A run of bytes handed to the loader. */
  datatype Block = Block(base: nat, size: nat)

  predicate Apart(a: Block, b: Block) {
    a.base + a.size <= b.base || b.base + b.size <= a.base
  }

  /** The block lies in no descriptor of any type but EfiLoaderData. */
  predicate OnlyLoaderData(rows: seq<Row>, b: Block) {
    forall i :: 0 <= i < |rows| && rows[i].desc.kind != LOADER_DATA ==>
                  EndOf(rows[i].desc) <= b.base || b.base + b.size <= rows[i].desc.start
  }

  /** A map firmware may report: descriptors of one size, page-aligned and inside the
      address space, conventional memory backed by `memory` bytes of RAM, and small
      enough that a buffer with eight spare descriptors can be asked for. */
  predicate Reportable(rows: seq<Row>, stride: nat, memory: nat) {
    && rows != [] && Uniform(rows, stride)
    && |Image(rows)| + 8 * stride < 0x1_0000_0000_0000_0000
    && (forall i :: 0 <= i < |rows| ==>
          rows[i].desc.start % PAGE_SIZE == 0 && EndOf(rows[i].desc) < 0x1_0000_0000_0000_0000)
    && (forall i :: 0 <= i < |rows| && rows[i].desc.kind == CONVENTIONAL ==> EndOf(rows[i].desc) <= memory)
  }

  /** The blocks are inside memory, pairwise apart, and typed as loader data. */
  predicate Owned(rows: seq<Row>, live: set<Block>, memory: nat) {
    && (forall b :: b in live ==> b.base + b.size <= memory && OnlyLoaderData(rows, b))
    && (forall a, b :: a in live && b in live && a != b ==> Apart(a, b))
  }

  lemma OwnedWithout(rows: seq<Row>, live: set<Block>, b: Block, memory: nat)
    requires Owned(rows, live, memory)
    ensures Owned(rows, live - {b}, memory)
  {
    hide OnlyLoaderData, Apart;
  }

  /** Every page of the block is conventional. */
  predicate AllConventional(rows: seq<Row>, b: Block) {
    b.base % PAGE_SIZE == 0
    && forall p :: b.base / PAGE_SIZE <= p < (b.base + b.size) / PAGE_SIZE ==>
                     p in ConventionalPages(DescriptorsOf(rows))
  }

  /** What the loader was told and what was decided: a map read, the key and the size it
      reported, or an exit request, the key it named and the key current when it was
      decided. */
  datatype Call = MapRead(ok: bool, key: nat, size: nat) | ExitAsked(named: nat, current: nat)

  class Platform {
    const ram: Ram
    const stride: u64
    /** True when no event handler changes the map behind the loader's back. */
    const quiet: bool
    var rows: seq<Row>
    var key: nat
    var live: set<Block>
    var exited: bool
    /** Map reads and exit requests so far, in order. */
    ghost var log: seq<Call>
    /** Allocations refused so far. */
    ghost var refusals: nat

    ghost predicate Valid()
      reads this, ram
    {
      && |ram.cells| < 0x1_0000_0000_0000_0000
      && Reportable(rows, stride, |ram.cells|) && Owned(rows, live, |ram.cells|)
    }

    constructor (memory: Ram, descriptorSize: u64, firstMap: seq<Row>, calm: bool)
      requires Reportable(firstMap, descriptorSize, |memory.cells|)
      requires |memory.cells| < 0x1_0000_0000_0000_0000
      ensures Valid() && ram == memory && stride == descriptorSize && rows == firstMap
      ensures live == {} && !exited && quiet == calm && log == [] && refusals == 0
    {
      ram, stride, quiet := memory, descriptorSize, calm;
      rows, key, live, exited := firstMap, 0, {}, false;
      log, refusals := [], 0;
    }

    /** The map moves to any reportable map that keeps the loader's blocks; the key
        moves on with it. */
    method ChangeMap(blocks: set<Block>)
      requires Reportable(rows, stride, |ram.cells|) && Owned(rows, blocks, |ram.cells|)
      modifies this`rows, this`key
      ensures Reportable(rows, stride, |ram.cells|) && Owned(rows, blocks, |ram.cells|)
      ensures key == old(key) + 1
    {
      var next: seq<Row> := *;
      if Reportable(next, stride, |ram.cells|) && Owned(next, blocks, |ram.cells|) {
        rows := next;
      }
      key := key + 1;
    }

    /** What event handlers may do while a boot service runs. */
    method Events()
      requires Valid() && !exited
      modifies this`rows, this`key
      ensures Valid() && key >= old(key)
      ensures key == old(key) ==> rows == old(rows)
      ensures quiet ==> key == old(key)
    {
      var happens: bool := *;
      if happens && !quiet {
        ChangeMap(live);
      }
    }

    method AnyAddress() returns (a: u64)
    {
      var pick: int := *;
      a := if 0 <= pick < 0x1_0000_0000_0000_0000 then pick else 0;
    }

    /** Hands out a block if some map types it as loader data. */
    method Grant(b: Block) returns (granted: bool)
      requires Valid() && !exited
      modifies this`rows, this`key, this`live
      ensures Valid() && key > old(key)
      ensures granted ==> b.base + b.size <= |ram.cells| && live == old(live) + {b} && b !in old(live)
      ensures granted ==> forall a :: a in old(live) ==> Apart(a, b)
      ensures !granted ==> live == old(live)
    {
      var next: seq<Row> := *;
      granted := b !in live && b.base + b.size <= |ram.cells|
                 && Reportable(next, stride, |ram.cells|) && Owned(next, live + {b}, |ram.cells|);
      if granted {
        rows, live := next, live + {b};
      }
      key := key + 1;
    }

    /** AllocatePages of EfiLoaderData; an address asks for exactly that place. */
    method AllocatePages(at: u64, anywhere: bool, pages: u64) returns (status: Status, base: u64)
      requires Valid() && !exited
      modifies this`rows, this`key, this`live, this`refusals
      ensures Valid() && refusals == old(refusals) + if status == Success then 0 else 1
      ensures status == Success ==>
        && base % PAGE_SIZE == 0 && (!anywhere ==> base == at)
        && base + pages * PAGE_SIZE <= |ram.cells|
        && live == old(live) + {Block(base, pages * PAGE_SIZE)} && Block(base, pages * PAGE_SIZE) !in old(live)
        && forall a :: a in old(live) ==> Apart(a, Block(base, pages * PAGE_SIZE))
      ensures status != Success ==> live == old(live)
    {
      hide Reportable, Owned, AllConventional;
      Events();
      base := at;
      if anywhere {
        base := AnyAddress();
      }
      var b := Block(base, pages * PAGE_SIZE);
      if base % PAGE_SIZE != 0 || !AllConventional(rows, b) {
        refusals := refusals + 1;
        return NotFound, base;
      }
      var granted := Grant(b);
      refusals := refusals + if granted then 0 else 1;
      return if granted then Success else OutOfResources, base;
    }

    /** AllocatePool of EfiLoaderData. */
    method AllocatePool(size: u64) returns (status: Status, base: u64)
      requires Valid() && !exited
      modifies this`rows, this`key, this`live, this`refusals
      ensures Valid() && refusals == old(refusals) + if status == Success then 0 else 1
      ensures status == Success ==>
        && base != 0 && base + size <= |ram.cells|
        && live == old(live) + {Block(base, size)} && Block(base, size) !in old(live)
        && forall a :: a in old(live) ==> Apart(a, Block(base, size))
      ensures status != Success ==> live == old(live)
    {
      hide Reportable, Owned;
      Events();
      base := AnyAddress();
      if base == 0 {
        refusals := refusals + 1;
        return OutOfResources, base;
      }
      var granted := Grant(Block(base, size));
      refusals := refusals + if granted then 0 else 1;
      return if granted then Success else OutOfResources, base;
    }

    method FreePool(b: Block)
      requires Valid() && !exited
      modifies this`rows, this`key, this`live
      ensures Valid() && live == old(live) - {b}
    {
      hide Reportable, Owned;
      Events();
      OwnedWithout(rows, live, b, |ram.cells|);
      live := live - {b};
      ChangeMap(live);
    }

    /** Writes the current map if the buffer can hold it; otherwise says how much is
        needed. A buffer of 0 stands for the null pointer. */
    method GetMemoryMap(buffer: u64, capacity: u64) returns (status: Status, size: u64, now: nat)
      requires Valid() && !exited
      requires buffer != 0 ==> buffer + capacity <= |ram.cells|
      modifies this`rows, this`key, this`log, ram
      ensures Valid() && size == |Image(rows)| && now == key && key >= old(key)
      ensures log == old(log) + [MapRead(status == Success, key, size)]
      ensures quiet ==> key == old(key) && rows == old(rows)
      ensures status == Success || status == BufferTooSmall
      ensures status == Success <==> size <= capacity && buffer != 0
      ensures status == Success ==> ram.cells == Splice(old(ram.cells), buffer, Image(rows))
      ensures status != Success ==> ram.cells == old(ram.cells)
    {
      Events();
      size, now := |Image(rows)|, key;
      log := log + [MapRead(buffer != 0 && size <= capacity, key, size)];
      if buffer == 0 || size > capacity {
        return BufferTooSmall, size, now;
      }
      ram.Write(buffer, Image(rows));
      return Success, size, now;
    }

    /** Lets go of the machine only for the key of the current map. */
    method ExitBootServices(k: nat) returns (status: Status)
      requires Valid() && !exited
      modifies this`rows, this`key, this`exited, this`log
      ensures log == old(log) + [ExitAsked(k, key)]
      ensures Valid() && key >= old(key)
      ensures key == old(key) ==> rows == old(rows)
      ensures quiet ==> key == old(key)
      ensures status == Success <==> k == key
      ensures exited <==> status == Success
    {
      hide Reportable, Owned;
      Events();
      log := log + [ExitAsked(k, key)];
      if k != key {
        return InvalidParameter;
      }
      exited := true;
      return Success;
    }
  }

  /** Stores that run past the end of RAM, and the reads they were part of: whatever they
      do, memory keeps its size. */
  method StoreOffTheEnd(ram: Ram, file: File) returns (status: Status)
    modifies ram, file
    ensures |ram.cells| == |old(ram.cells)|
    ensures status == Success ==> file.failed == old(file.failed)
  {
    var after: seq<byte> := *;
    if |after| == |ram.cells| {
      ram.cells := after;
    }
    var fails: bool := *;
    var offset := *;
    status := file.SetPosition(offset);
    if fails {
      status := DeviceError;
    }
  }

  /** An open file: its bytes, a position, and whether a call has failed so far. */
  class File {
    const content: seq<byte>
    var position: nat
    ghost var failed: bool

    constructor (bytes: seq<byte>)
      ensures content == bytes && !failed
    {
      content, position, failed := bytes, 0, false;
    }

    method SetPosition(offset: u64) returns (status: Status)
      modifies this
      ensures status == Success ==> position == offset && failed == old(failed)
      ensures status != Success ==> failed
    {
      var error: bool := *;
      if error {
        failed := true;
        return DeviceError;
      }
      position := offset;
      return Success;
    }

    /** Any number of bytes from 1 to `want`, 0 only at the end of the file. After an
        error the buffer may hold anything. */
    method Read(want: u64, out: Ram, address: u64) returns (status: Status, got: u64)
      requires 0 < want && address + want <= |out.cells|
      modifies this, out
      ensures status == Success ==>
        && failed == old(failed) && old(position) <= |content|
        && got <= want && old(position) + got <= |content| && position == old(position) + got
        && (got == 0 <==> old(position) == |content|)
        && out.cells == Splice(old(out.cells), address, content[old(position)..position])
      ensures status != Success ==> failed && AgreeOutside(old(out.cells), out.cells, address, address + want)
    {
      var error: bool := *;
      if error || position > |content| {
        failed := true;
        var junk: seq<byte> := *;
        if |junk| <= want {
          out.Write(address, junk);
        }
        return DeviceError, 0;
      }
      var left := |content| - position;
      var most := if left < want then left else want;
      got := *;
      if !(1 <= got <= most) {
        got := most;
      }
      out.Write(address, content[position..position + got]);
      position := position + got;
      return Success, got;
    }
  }
}
