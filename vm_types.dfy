/** Shared vocabulary of the virtual-memory layer: the address-space constants,
    the page, frame and container objects the layer allocates and links, the
    hardware page table of one address space, and the collaborators the layer
    calls into (the file layer, the user frame pool, the allocator's free).

    Addresses and size_t values are naturals below 2^64; where the C code lets
    an unsigned value wrap, the model says so with Wrap64. */
module VmTypes {

  /** Size of one page and one frame. */
  const PGSIZE: nat := 4096
  /** Number of distinct 64-bit values. */
  const U64: nat := 0x1_0000_0000_0000_0000
  /** Number of page-aligned 64-bit addresses (2^64 / PGSIZE). */
  const PAGES64: nat := 0x10_0000_0000_0000
  /** Lowest kernel virtual address (KERN_BASE of Pintos-KAIST). */
  const KERN_BASE: nat := 0x80_0400_0000
  /** Top of the user stack (USER_STACK of Pintos-KAIST). */
  const USER_STACK: nat := 0x4748_0000
  /** Largest distance below USER_STACK the stack may grow to (1 << 20). */
  const STACK_LIMIT: nat := 0x10_0000

  newtype byte = b: int | 0 <= b < 256

  datatype Option<T> = None | Some(value: T)

  function Min(a: int, b: int): int { if a < b then a else b }

  /** The value an unsigned 64-bit computation of x stores: x modulo 2^64. */
  function Wrap64(x: int): (r: nat)
    ensures r < U64
  {
    x % 0x1_0000_0000_0000_0000
  }

  /** a - b on size_t operands: below zero it wraps around to 2^64 + a - b. */
  function SubU64(a: nat, b: nat): (r: nat)
    requires a < U64 && b < U64
    ensures r < U64
  {
    if a >= b then a - b else U64 + a - b
  }

  /** a + b on size_t or pointer operands: past 2^64 it wraps around to a + b - 2^64. */
  function AddU64(a: nat, b: nat): (r: nat)
    requires a < U64 && b < U64
    ensures r < U64
  {
    if a + b < U64 then a + b else a + b - U64
  }

  /** The value q * 2^64 + r wraps to, for 0 <= r < 2^64, is r. */
  lemma WrapOf(q: int, r: int)
    requires 0 <= r < U64
    ensures Wrap64(q * 0x1_0000_0000_0000_0000 + r) == r
  {
  }

  /** Subtraction in 64 bits is subtraction modulo 2^64: when v is x wrapped,
      v - d is x - d wrapped. */
  lemma SubU64Wraps(v: nat, x: int, d: nat)
    requires v < U64 && d < U64 && v == Wrap64(x)
    ensures SubU64(v, d) == Wrap64(x - d)
  {
    var q := x / 0x1_0000_0000_0000_0000;
    assert x == q * 0x1_0000_0000_0000_0000 + v;
    if v >= d {
      WrapOf(q, v - d);
    } else {
      WrapOf(q - 1, U64 + v - d);
    }
  }

  /** Addition in 64 bits is addition modulo 2^64. */
  lemma AddU64Wraps(v: nat, x: int, d: nat)
    requires v < U64 && d < U64 && v == Wrap64(x)
    ensures AddU64(v, d) == Wrap64(x + d)
  {
    var q := x / 0x1_0000_0000_0000_0000;
    assert x == q * 0x1_0000_0000_0000_0000 + v;
    if v + d < U64 {
      WrapOf(q, v + d);
    } else {
      WrapOf(q + 1, v + d - U64);
    }
  }

  /** The values of a C int (32-bit two's complement). */
  type Int32 = x: int | -0x8000_0000 <= x < 0x8000_0000

  /** Conversion of an integer to int: the value congruent to x modulo 2^32
      in the int range. */
  function ToInt32(x: int): Int32
  {
    (x + 0x8000_0000) % 0x1_0000_0000 - 0x8000_0000
  }

  /** a + b on a 32-bit off_t with b non-negative: past 2^31 - 1 it wraps around
      to a + b - 2^32. */
  function AddInt32(a: Int32, b: nat): (r: Int32)
    requires b < 0x8000_0000
  {
    if a + b < 0x8000_0000 then a + b else a + b - 0x1_0000_0000
  }

  /** Addition on an off_t is addition modulo 2^32 brought into the int range:
      when v is x converted, v + d is x + d converted. */
  lemma AddInt32Wraps(v: Int32, x: int, d: nat)
    requires d < 0x8000_0000 && v == ToInt32(x)
    ensures AddInt32(v, d) == ToInt32(x + d)
  {
    var q := (x + 0x8000_0000) / 0x1_0000_0000;
    assert x + 0x8000_0000 == q * 0x1_0000_0000 + (v + 0x8000_0000);
    if v + d < 0x8000_0000 {
      assert x + d + 0x8000_0000 == q * 0x1_0000_0000 + (v + d + 0x8000_0000);
    } else {
      assert x + d + 0x8000_0000 == (q + 1) * 0x1_0000_0000 + (v + d - 0x8000_0000);
    }
  }

  /** pg_round_down: the start of the page holding va. */
  function PgRoundDown(va: nat): (r: nat)
    ensures r % PGSIZE == 0
    ensures r <= va < r + PGSIZE
  {
    va - va % PGSIZE
  }

  predicate IsKernelVaddr(va: int) { va >= KERN_BASE }

  predicate IsUserVaddr(va: int) { !IsKernelVaddr(va) }

  /** n zero bytes (memset with 0). */
  function Zeros(n: nat): (z: seq<byte>)
    ensures |z| == n
    ensures forall i :: 0 <= i < n ==> z[i] == 0
  {
    seq(n, _ => 0)
  }

  /** Handle of an open file (struct file *). */
  type FileRef = nat

  /** file_read at position pos: the bytes of the file from pos on, at most n of them. */
  function FileRead(data: seq<byte>, pos: nat, n: nat): (r: seq<byte>)
    ensures |r| == if pos >= |data| then 0 else Min(n, |data| - pos)
    ensures forall i :: 0 <= i < |r| ==> r[i] == data[pos + i]
  {
    if pos >= |data| then [] else data[pos..pos + Min(n, |data| - pos)]
  }

  /** The variant a pending page turns into (VM_ANON or VM_FILE). */
  datatype VmType = VmAnon | VmFile

  /** The init callback a pending page carries: NULL or lazy_load_segment. */
  datatype Init = NoInit | LazyLoadInit

  /** The page initializer a pending page carries: anon_initializer or file_backed_initializer. */
  datatype PageInitializer = AnonInit | FileInit

  /** The initializer vm_alloc_page_with_initializer picks for each type. */
  function InitializerFor(t: VmType): PageInitializer
  {
    match t
    case VmAnon => AnonInit
    case VmFile => FileInit
  }

  /** The struct container that load_segment and do_mmap hand to lazy_load_segment. */
  class Container {
    var file: FileRef
    var offset: int
    var readBytes: int
    var zeroBytes: int

    constructor (file: FileRef, offset: int, readBytes: int, zeroBytes: int)
      ensures this.file == file && this.offset == offset
      ensures this.readBytes == readBytes && this.zeroBytes == zeroBytes
    {
      this.file := file;
      this.offset := offset;
      this.readBytes := readBytes;
      this.zeroBytes := zeroBytes;
    }
  }

  /** The field values of a container at one moment. */
  datatype AuxSnap = AuxSnap(file: FileRef, offset: int, readBytes: int, zeroBytes: int)

  function Snap(c: Container?): AuxSnap
    reads c
  {
    if c == null then AuxSnap(0, 0, 0, 0) else AuxSnap(c.file, c.offset, c.readBytes, c.zeroBytes)
  }

  /** The variant part of a page: its operations table together with the union. */
  datatype Payload =
    | Uninit(init: Init, target: VmType, aux: Container?, initializer: PageInitializer)
    | Anon
    | FileBacked(file: FileRef, offset: int, readBytes: int)

  /** The container a payload still owns, as a frame set. */
  function AuxSet(p: Payload): set<object>
  {
    if p.Uninit? && p.aux != null then {p.aux} else {}
  }

  /** page_get_type on a payload: the type the page has or will have once initialized. */
  function PayloadType(p: Payload): VmType
  {
    match p
    case Uninit(_, t, _, _) => t
    case Anon => VmAnon
    case FileBacked(_, _, _) => VmFile
  }

  class Frame {
    var kva: array?<byte>
    var page: Page?

    constructor (kva: array?<byte>)
      ensures this.kva == kva && page == null
    {
      this.kva := kva;
      page := null;
    }
  }

  class Page {
    var va: int
    var writable: bool
    var frame: Frame?
    var payload: Payload
    var mappedPageCount: Int32

    /** A freshly malloc'd page, before uninit_new fills it. */
    constructor ()
    {
      va := 0;
      writable := false;
      frame := null;
      payload := Anon;
      mappedPageCount := 0;
    }
  }

  /** One hardware page-table entry: the frame it maps, its writable bit and its dirty bit. */
  datatype Pte = Pte(kva: array<byte>, writable: bool, dirty: bool)

  /** The hardware page table (pml4) of one address space, keyed by user page address. */
  class Pml4 {
    var entries: map<int, Pte>

    ghost predicate Valid()
      reads this
    {
      forall va :: va in entries ==> entries[va].kva.Length == PGSIZE
    }

    constructor ()
      ensures Valid() && entries == map[]
    {
      entries := map[];
    }

    /** pml4_is_dirty */
    predicate IsDirty(va: int)
      reads this
    {
      va in entries && entries[va].dirty
    }
  }

  /** A call the layer makes into a collaborator whose effect the model only records. */
  datatype Call =
    | WriteAt(file: FileRef, bytes: seq<byte>, offset: int)   // file_write_at
    | Close(file: FileRef)                                     // file_close
    | FreeAux(aux: Container)                                  // free of a container
    | FreeUserPage(kva: array<byte>)                           // palloc_free_page
    | FreePage(page: Page)                                     // free of a struct page

  /** The collaborators of the layer: the bytes and cursor of every open file
      handle, the number of free frames in the user pool, and the log of calls. */
  class Env {
    var files: map<FileRef, seq<byte>>
    var pos: map<FileRef, int>
    var nextHandle: FileRef
    var freeFrames: nat
    var calls: seq<Call>

    ghost predicate Valid()
      reads this
    {
      files.Keys == pos.Keys && forall h :: h in files ==> h < nextHandle
    }

    /** file_reopen: a new handle, with its own cursor, onto the same bytes. */
    method Reopen(f: FileRef) returns (r: FileRef)
      requires Valid() && f in files
      modifies this
      ensures Valid()
      ensures r !in old(files) && files == old(files)[r := old(files)[f]]
      ensures pos == old(pos)[r := 0]
      ensures freeFrames == old(freeFrames) && calls == old(calls)
    {
      r := nextHandle;
      nextHandle := nextHandle + 1;
      files := files[r := files[f]];
      pos := pos[r := 0];
    }

    /** palloc_get_page(PAL_USER): a page of the user pool, or null when it is exhausted. */
    method PallocGetPage() returns (kva: array?<byte>)
      modifies this
      ensures old(freeFrames) > 0 ==> kva != null && fresh(kva) && kva.Length == PGSIZE
      ensures freeFrames == if old(freeFrames) > 0 then old(freeFrames) - 1 else 0
      ensures old(freeFrames) == 0 ==> kva == null
      ensures files == old(files) && pos == old(pos) && nextHandle == old(nextHandle)
      ensures calls == old(calls)
    {
      if freeFrames > 0 {
        kva := new byte[PGSIZE];
        freeFrames := freeFrames - 1;
      } else {
        kva := null;
      }
    }

    /** palloc_free_page: the frame goes back to the user pool. */
    method PallocFreePage(kva: array<byte>)
      modifies this
      ensures freeFrames == old(freeFrames) + 1
      ensures calls == old(calls) + [FreeUserPage(kva)]
      ensures files == old(files) && pos == old(pos) && nextHandle == old(nextHandle)
    {
      freeFrames := freeFrames + 1;
      calls := calls + [FreeUserPage(kva)];
    }
  }
}
