/** The chunk: a growable RAM buffer that mirrors an append-only file (src/writer/read_write_data.c). */
module ChunkStore {
  import opened Machine

  const INITIAL_CAPACITY := 1024

  /** What can go wrong inside `chunk_load`. `ShortRead(n)` delivers only the first `n` bytes. */
  datatype LoadFault = NoFault | CannotOpen | CannotTell | NoMemory | ShortRead(n: nat)

  /** The abstract value of a chunk: the bytes in RAM, how many of them count as saved, the buffer's capacity. */
  datatype View = View(ram: bytes, persisted: nat, capacity: nat)

  /** The bytes that the next delta write would append to the file. */
  function Pending(v: View): bytes {
    if v.persisted <= |v.ram| then v.ram[v.persisted..] else []
  }

  /** What a caller sees after `chunk_load`: an error code, an emptied buffer, or the whole file. */
  datatype Sight = Unread | Blind | Full

  function See(file: bytes, s: Sight): bytes {
    if s == Full then file else []
  }

  /** `front` written over the start of `ram`; the length of `ram` stays. */
  function Overlay(ram: bytes, front: bytes): (r: bytes)
    ensures |r| == |ram|
    ensures front <= ram ==> r == ram
  {
    if |front| <= |ram| then front + ram[|front|..] else front[..|ram|]
  }

  function SightOf(v: View, file: bytes, fault: LoadFault): Sight {
    match fault
    case NoFault => Full
    case CannotOpen => Blind
    case CannotTell => Unread
    case NoMemory => if |file| > v.capacity then Unread else Full
    case ShortRead(n) => if n < |file| then Unread else Full
  }

  /** The chunk after `chunk_load`; the call returned 0 exactly when `SightOf` is not `Unread`. */
  function Loaded(v: View, file: bytes, fault: LoadFault): View {
    match SightOf(v, file, fault)
    case Full => View(file, |file|, Max(v.capacity, |file|))
    case Blind => v.(ram := [], persisted := 0)
    case Unread =>
      if fault.ShortRead?
      then View(Overlay(v.ram, file[..fault.n]), v.persisted, Max(v.capacity, |file|))
      else v
  }

  /** The first of `c`, `2c`, `4c`, ... that reaches `required`. */
  function Doubled(c: nat, required: nat): (r: nat)
    requires 0 < c
    ensures required <= r && c <= r
    ensures r == c || r < 2 * required
    decreases required - c
  {
    if required <= c then c else Doubled(2 * c, required)
  }

  function GrownCapacity(capacity: nat, required: nat): nat {
    if required <= capacity then capacity
    else Doubled(if capacity == 0 then INITIAL_CAPACITY else 2 * capacity, required)
  }

  function AppendCode(v: View, b: bytes, canGrow: bool): int {
    if b == [] || (|v.ram| + |b| > v.capacity && !canGrow) then -1 else 0
  }

  function Appended(v: View, b: bytes, canGrow: bool): View {
    if AppendCode(v, b, canGrow) != 0 then v
    else View(v.ram + b, v.persisted, GrownCapacity(v.capacity, |v.ram| + |b|))
  }

  function SaveCode(v: View, canOpen: bool): int {
    if |v.ram| > v.persisted && !canOpen then -1 else 0
  }

  function Saved(v: View, canOpen: bool): View {
    if |v.ram| > v.persisted && canOpen then v.(persisted := |v.ram|) else v
  }

  /** The file after `chunk_save_delta`: only the unsaved tail is written. */
  function FileAfterSave(v: View, file: bytes, canOpen: bool): bytes {
    if canOpen then file + Pending(v) else file
  }

  /** `chunk_read`: at most `size` bytes from `offset`, none at or past the end. */
  function ReadRam(ram: bytes, size: nat, offset: nat): (r: bytes)
    ensures |r| <= size
    ensures |r| == size > 0 ==> offset + size <= |ram|
    ensures offset + size <= |ram| ==> r == ram[offset..offset + size]
  {
    if offset >= |ram| then [] else ram[offset..offset + Min(size, |ram| - offset)]
  }

  /** One file of the file system. A missing file has no bytes. */
  class File {
    var present: bool
    var content: bytes

    constructor (present: bool, content: bytes)
      ensures this.present == present && this.content == content
    {
      this.present, this.content := present, content;
    }
  }

  class Chunk {
    const file: File
    var data: array<byte>
    var size: nat
    var capacity: nat
    var persistedSize: nat

    ghost predicate Valid()
      reads this
    {
      persistedSize <= size <= capacity == data.Length
    }

    ghost function Value(): View
      reads this, data
      requires Valid()
    {
      View(data[..size], persistedSize, capacity)
    }

    /** `chunk_init` */
    constructor (file: File)
      ensures Valid() && fresh(data) && this.file == file
      ensures Value() == View([], 0, 0)
    {
      this.file := file;
      data := new byte[0];
      size, capacity, persistedSize := 0, 0, 0;
    }

    /** `fread` to the start of the buffer, over what is there. */
    method ReadFront(front: bytes)
      requires Valid() && |front| <= capacity
      modifies data
      ensures data[..size] == Overlay(old(data[..size]), front)
      ensures data[..|front|] == front
    {
      Memcpy(data, 0, front);
      if |front| <= size {
        assert data[..size] == data[..|front|] + data[|front|..size];
        assert data[|front|..size] == old(data[|front|..size]) by {
          assert forall i :: 0 <= i < size - |front| ==> data[|front| + i] == data[|front|..][i];
        }
      } else {
        assert data[..size] == data[..|front|][..size];
      }
    }

    /** `chunk_load`: replaces the RAM by the file. */
    method Load(fault: LoadFault) returns (code: int)
      requires Valid()
      modifies this, data
      ensures Valid() && (data == old(data) || fresh(data))
      ensures Value() == Loaded(old(Value()), file.content, fault)
      ensures code == if SightOf(old(Value()), file.content, fault) == Unread then -1 else 0
    {
      if fault == CannotOpen {
        size, persistedSize := 0, 0;
        return 0;
      }
      if fault == CannotTell {
        return -1;
      }
      var fsize := |file.content|;
      if fsize > capacity {
        if fault == NoMemory {
          return -1;
        }
        data := Realloc(data, fsize);
        capacity := fsize;
        assert data[..size] == old(data[..size]);
      }
      var readCount := if fault.ShortRead? then Min(fault.n, fsize) else fsize;
      ReadFront(file.content[..readCount]);
      if readCount != fsize {
        return -1;
      }
      size, persistedSize := readCount, readCount;
      return 0;
    }

    /** `chunk_append`: beyond 2^63 the doubling would wrap to zero and never end. */
    method Append(b: bytes, canGrow: bool) returns (code: int)
      requires Valid() && size + |b| <= HALF_MOD
      modifies this, data
      ensures Valid() && (data == old(data) || fresh(data))
      ensures Value() == Appended(old(Value()), b, canGrow)
      ensures code == AppendCode(old(Value()), b, canGrow)
    {
      if |b| == 0 {
        return -1;
      }
      if size + |b| > capacity {
        var newCapacity := NextCapacity(size + |b|);
        if !canGrow {
          return -1;
        }
        data := Realloc(data, newCapacity);
        capacity := newCapacity;
        assert data[..size] == old(data[..size]);
      }
      Memcpy(data, size, b);
      size := size + |b|;
      return 0;
    }

    /** The doubling loop of `chunk_append`. */
    method NextCapacity(required: nat) returns (newCapacity: nat)
      requires capacity < required <= HALF_MOD
      ensures newCapacity == GrownCapacity(capacity, required)
    {
      newCapacity := if capacity == 0 then INITIAL_CAPACITY else Twice(capacity);
      while newCapacity < required
        invariant 0 < newCapacity < SIZE_MOD
        invariant Doubled(newCapacity, required) == GrownCapacity(capacity, required)
        decreases required - newCapacity
      {
        newCapacity := Twice(newCapacity);
      }
    }

    /** `chunk_read` */
    method Read(n: nat, offset: nat) returns (out: bytes)
      requires Valid()
      ensures out == ReadRam(Value().ram, n, offset)
    {
      if offset >= size {
        return [];
      }
      var available := size - offset;
      var toRead := if n < available then n else available;
      return data[offset..offset + toRead];
    }

    /** `chunk_save_delta`: appends the bytes past `persistedSize` to the file. */
    method SaveDelta(canOpen: bool) returns (code: int)
      requires Valid()
      modifies this`persistedSize, file
      ensures Valid()
      ensures Value() == Saved(old(Value()), canOpen)
      ensures file.content == FileAfterSave(old(Value()), old(file.content), canOpen)
      ensures file.present == (old(file.present) || (canOpen && Pending(old(Value())) != []))
      ensures code == SaveCode(old(Value()), canOpen)
    {
      if size <= persistedSize {
        return 0;
      }
      if !canOpen {
        return -1;
      }
      file.content := file.content + data[persistedSize..size];
      file.present := true;
      persistedSize := size;
      return 0;
    }
  }
}
