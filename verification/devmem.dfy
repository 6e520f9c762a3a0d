/**
 * The devmem library: access widths, the alignment check, and the page
 * arithmetic that read and write perform before mapping /dev/mem. Physical
 * memory is an explicit byte map here, read and written little-endian.
 */
module DevMem {
  import opened Wrappers
  import opened Bytes

  datatype AccessWidth = Byte | Word | Long | LongLong

  datatype DevMemError =
    | OpenError
    | MmapError
    | AlignmentError(address: nat, size: nat)
    | InvalidSize(size: nat)

  /** The width's discriminant: its size in bytes. */
  function Size(w: AccessWidth): (n: nat)
    ensures n in {1, 2, 4, 8}
  {
    match w
    case Byte => 1
    case Word => 2
    case Long => 4
    case LongLong => 8
  }

  /** The width whose size is `size`, or InvalidSize carrying it. */
  function FromSize(size: nat): (r: Result<AccessWidth, DevMemError>)
    ensures r.Ok? <==> size in {1, 2, 4, 8}
    ensures r.Ok? ==> Size(r.value) == size
    ensures r.Err? ==> r.error == InvalidSize(size)
  {
    match size
    case 1 => Ok(Byte)
    case 2 => Ok(Word)
    case 4 => Ok(Long)
    case 8 => Ok(LongLong)
    case _ => Err(InvalidSize(size))
  }

  /** Every width survives the trip through its size. */
  lemma FromSizeOfSize(w: AccessWidth)
    ensures FromSize(Size(w)) == Ok(w)
  {
  }

  /** The sizes of the four widths are distinct. */
  lemma SizeInjective(v: AccessWidth, w: AccessWidth)
    ensures Size(v) == Size(w) ==> v == w
  {
  }

  /** Ok exactly when the address is a multiple of the width's size; the error carries both. */
  function CheckAlignment(address: nat, w: AccessWidth): (r: Result<(), DevMemError>)
    ensures r.Ok? <==> address % Size(w) == 0
    ensures r.Err? ==> r.error == AlignmentError(address, Size(w))
  {
    var size := Size(w);
    if address % size != 0 then Err(AlignmentError(address, size)) else Ok(())
  }

  // ------------------------------------------------------------------
  // Page arithmetic
  // ------------------------------------------------------------------

  /** Bitwise AND of two naturals, bit by bit from the least significant. */
  function BitAnd(a: nat, b: nat): (r: nat)
    ensures r <= a
    decreases a
  {
    if a == 0 || b == 0 then 0
    else 2 * BitAnd(a / 2, b / 2) + (if a % 2 == 1 && b % 2 == 1 then 1 else 0)
  }

  predicate IsPowerOfTwo(n: nat)
    decreases n
  {
    n == 1 || (n >= 2 && n % 2 == 0 && IsPowerOfTwo(n / 2))
  }

  lemma HalfMod(a: nat, p: nat)
    requires p >= 1
    ensures a % (2 * p) == 2 * ((a / 2) % p) + a % 2
  {
    var q, r := a / 2, a % 2;
    var t, s := q / p, q % p;
    assert q == p * t + s;
    assert a == (2 * p) * t + (2 * s + r);
    DivModUnique(a, 2 * p, t, 2 * s + r);
  }

  /** Masking with `n - 1` keeps the remainder modulo a power of two `n`. */
  lemma {:induction false} LowMask(a: nat, n: nat)
    requires IsPowerOfTwo(n)
    ensures BitAnd(a, n - 1) == a % n
    decreases n
  {
    if n >= 2 && a != 0 {
      var h := n / 2;
      assert (n - 1) / 2 == h - 1 && (n - 1) % 2 == 1;
      LowMask(a / 2, h);
      if h == 1 {
        assert BitAnd(a / 2, 0) == 0;
      }
      HalfMod(a, h);
    }
  }

  /** The mapping read and write request: a page-aligned base and the offset into that page. */
  datatype Mapping = Mapping(mapBase: nat, pageOffset: nat, mapSize: nat)

  /**
   * The alignment check, then `page_offset = address & (page_size - 1)`,
   * `map_base = address - page_offset` and `map_size = page_offset + size`.
   */
  function PageMapping(address: nat, w: AccessWidth, pageSize: nat): (r: Result<Mapping, DevMemError>)
    requires IsPowerOfTwo(pageSize)
    ensures r.Err? <==> CheckAlignment(address, w).Err?
    ensures r.Err? ==> r.error == CheckAlignment(address, w).error
  {
    match CheckAlignment(address, w)
    case Err(e) => Err(e)
    case Ok(_) =>
      var pageOffset := BitAnd(address, pageSize - 1);
      Ok(Mapping(address - pageOffset, pageOffset, pageOffset + Size(w)))
  }

  /** The offset lies inside the page, the base is page-aligned and base plus offset is the address. */
  lemma PageMappingSound(address: nat, w: AccessWidth, pageSize: nat)
    requires IsPowerOfTwo(pageSize)
    requires PageMapping(address, w, pageSize).Ok?
    ensures var m := PageMapping(address, w, pageSize).value;
            && m.pageOffset < pageSize
            && m.mapBase % pageSize == 0
            && m.mapBase + m.pageOffset == address
            && m.mapSize == m.pageOffset + Size(w)
  {
    assert pageSize >= 1;
    LowMask(address, pageSize);
    AlignedBase(address, pageSize);
  }

  /** Subtracting the remainder leaves a multiple of the divisor. */
  lemma AlignedBase(a: nat, d: nat)
    requires d >= 1
    ensures a % d < d && a % d <= a && (a - a % d) % d == 0
  {
    DivMod(a, d);
    assert a - a % d == d * (a / d);
    DivModUnique(d * (a / d), d, a / d, 0);
  }

  // ------------------------------------------------------------------
  // Reads and writes against a byte map
  // ------------------------------------------------------------------

  /** Physical memory, byte-addressed; bytes never written read as zero. */
  type Memory = map<nat, byte>

  function ByteAt(mem: Memory, a: nat): byte {
    if a in mem then mem[a] else 0
  }

  /** The little-endian value of the `n` bytes at `a`. */
  function Load(mem: Memory, a: nat, n: nat): (v: nat)
    ensures v < Pow256(n)
    decreases n
  {
    if n == 0 then 0 else ByteAt(mem, a) + 256 * Load(mem, a + 1, n - 1)
  }

  /** Stores the low `n` bytes of `v` little-endian at `a`. */
  function Store(mem: Memory, a: nat, v: nat, n: nat): (m: Memory)
    ensures forall b: nat :: b < a || a + n <= b ==> ByteAt(m, b) == ByteAt(mem, b)
    decreases n
  {
    if n == 0 then mem else Store(mem[a := v % 256], a + 1, v / 256, n - 1)
  }

  /** Loading what was stored gives the value truncated to `n` bytes. */
  lemma {:induction false} LoadStore(mem: Memory, a: nat, v: nat, n: nat)
    ensures Load(Store(mem, a, v, n), a, n) == v % Pow256(n)
    decreases n
  {
    if n > 0 {
      var mem' := mem[a := v % 256];
      var m := Store(mem', a + 1, v / 256, n - 1);
      LoadStore(mem', a + 1, v / 256, n - 1);
      assert ByteAt(m, a) == v % 256;
      HalfModBytes(v, Pow256(n - 1));
    }
  }

  lemma HalfModBytes(v: nat, p: nat)
    requires p >= 1
    ensures v % (256 * p) == v % 256 + 256 * ((v / 256) % p)
  {
    var q, r := v / 256, v % 256;
    var t, s := q / p, q % p;
    assert q == p * t + s;
    assert v == (256 * p) * t + (256 * s + r);
    DivModUnique(v, 256 * p, t, 256 * s + r);
  }

  /** What a write of `value` leaves in memory: the value truncated to the access width. */
  function StoredValue(value: nat, w: AccessWidth): (v: nat)
    ensures v < Pow256(Size(w))
  {
    value % Pow256(Size(w))
  }

  /** DevMem::read: the alignment check, the mapping, then a load of the width's size. */
  function Read(mem: Memory, address: nat, w: AccessWidth, pageSize: nat): (r: Result<nat, DevMemError>)
    requires IsPowerOfTwo(pageSize)
    ensures r.Err? <==> address % Size(w) != 0
    ensures r.Err? ==> r.error == AlignmentError(address, Size(w))
    ensures r.Ok? ==> r.value < Pow256(Size(w))
  {
    match PageMapping(address, w, pageSize)
    case Err(e) => Err(e)
    case Ok(m) => Ok(Load(mem, m.mapBase + m.pageOffset, Size(w)))
  }

  /** DevMem::write: the alignment check, the mapping, then a store truncated to the width. */
  function Write(mem: Memory, address: nat, value: nat, w: AccessWidth, pageSize: nat): (r: Result<Memory, DevMemError>)
    requires IsPowerOfTwo(pageSize)
    ensures r.Err? <==> address % Size(w) != 0
    ensures r.Err? ==> r.error == AlignmentError(address, Size(w))
  {
    match PageMapping(address, w, pageSize)
    case Err(e) => Err(e)
    case Ok(m) => Ok(Store(mem, m.mapBase + m.pageOffset, value, Size(w)))
  }

  /** An aligned write stores at the address itself. */
  lemma WriteStores(mem: Memory, address: nat, value: nat, w: AccessWidth, pageSize: nat)
    requires IsPowerOfTwo(pageSize)
    requires address % Size(w) == 0
    ensures Write(mem, address, value, w, pageSize) == Ok(Store(mem, address, value, Size(w)))
  {
    MappedAt(address, w, pageSize);
  }

  /** An aligned read loads from the address itself. */
  lemma ReadLoads(mem: Memory, address: nat, w: AccessWidth, pageSize: nat)
    requires IsPowerOfTwo(pageSize)
    requires address % Size(w) == 0
    ensures Read(mem, address, w, pageSize) == Ok(Load(mem, address, Size(w)))
  {
    MappedAt(address, w, pageSize);
  }

  /** An aligned address is mapped back to itself. */
  lemma MappedAt(address: nat, w: AccessWidth, pageSize: nat)
    requires IsPowerOfTwo(pageSize)
    requires address % Size(w) == 0
    ensures PageMapping(address, w, pageSize).Ok?
    ensures PageMapping(address, w, pageSize).value.mapBase + PageMapping(address, w, pageSize).value.pageOffset == address
  {
    PageMappingSound(address, w, pageSize);
  }

  /**
   * A successful write is read back as the value truncated to the width, and
   * it leaves every byte outside the accessed ones unchanged.
   */
  lemma ReadAfterWrite(mem: Memory, address: nat, value: nat, w: AccessWidth, pageSize: nat)
    requires IsPowerOfTwo(pageSize)
    requires Write(mem, address, value, w, pageSize).Ok?
    ensures var mem' := Write(mem, address, value, w, pageSize).value;
            && Read(mem', address, w, pageSize) == Ok(StoredValue(value, w))
            && forall b: nat :: b < address || address + Size(w) <= b ==> ByteAt(mem', b) == ByteAt(mem, b)
  {
    var n := Size(w);
    WriteStores(mem, address, value, w, pageSize);
    var mem' := Store(mem, address, value, n);
    ReadLoads(mem', address, w, pageSize);
    LoadStore(mem, address, value, n);
  }

  /** DevMem::read_modify_write: the old value and the memory after the write. */
  function ReadModifyWrite(mem: Memory, address: nat, value: nat, w: AccessWidth, pageSize: nat)
    : (r: Result<(nat, Memory), DevMemError>)
    requires IsPowerOfTwo(pageSize)
    ensures r.Err? <==> address % Size(w) != 0
    ensures r.Ok? ==> r.value.0 == Read(mem, address, w, pageSize).value
    ensures r.Ok? ==> r.value.1 == Write(mem, address, value, w, pageSize).value
  {
    match Read(mem, address, w, pageSize)
    case Err(e) => Err(e)
    case Ok(before) =>
      match Write(mem, address, value, w, pageSize)
      case Err(e) => Err(e)
      case Ok(after) => Ok((before, after))
  }
}
