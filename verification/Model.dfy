/** Architectures, permissions, mappings and page alignment (src/model.rs). */
module Model {
  import opened Bytes

  const DEFAULT_PAGE_SIZE: u64 := 4096

  datatype Architecture = X86 | X86_64 | Arm | Aarch64 | Mips | Mips64 {
    function ElfClass(): byte {
      match this
      case X86 | Arm | Mips => 1
      case X86_64 | Aarch64 | Mips64 => 2
    }

    function ElfMachine(): u16 {
      match this
      case X86 => 3
      case X86_64 => 62
      case Arm => 40
      case Aarch64 => 183
      case Mips | Mips64 => 8
    }

    predicate Is64Bit() { ElfClass() == 2 }

    function LongSize(): WordSize { if Is64Bit() then 8 else 4 }
  }

  datatype Permissions = Permissions(read: bool, write: bool, execute: bool) {
    function ToElfFlags(): u32 {
      (if execute then 1 else 0) + (if write then 2 else 0) + (if read then 4 else 0)
    }
  }

  const READ_WRITE := Permissions(true, true, false)
  const NO_PERMISSIONS := Permissions(false, false, false)

  /** One virtual memory range; `start` is inclusive and `end` exclusive. */
  datatype Mapping = Mapping(
    start: u64,
    end: u64,
    offset: u64,
    permissions: Permissions,
    filename: Option<seq<byte>>,
    data: seq<byte>)
  {
    predicate Contains(a: int) { start <= a < end }
  }

  function NewMapping(start: u64, end: u64, permissions: Permissions): Result<Mapping> {
    if start >= end then Err(InvalidAddressRange)
    else Ok(Mapping(start, end, 0, permissions, None, []))
  }

  // ---------- page alignment ----------

  /** `x` is a multiple of `page`, by counting down in pages. */
  predicate Aligned(x: nat, page: nat)
    requires page > 0
  {
    x == 0 || (x >= page && Aligned(x - page, page))
  }

  /** The greatest multiple of `page` that is at most `x`. */
  function Down(x: nat, page: nat): (r: nat)
    requires page > 0
    ensures Aligned(r, page) && r <= x < r + page
  {
    if x < page then 0 else page + Down(x - page, page)
  }

  /** The least multiple of `page` that is at least `x`. */
  function Up(x: nat, page: nat): (r: nat)
    requires page > 0
    ensures Aligned(r, page) && x <= r < x + page
  {
    if Down(x, page) == x then x else Down(x, page) + page
  }

  lemma {:induction false} RemainderShift(x: nat, page: nat)
    requires page > 0
    ensures (x + page) % page == x % page
  {
    var q := x / page;
    assert x + page == page * (q + 1) + x % page;
    RemainderUnique(x + page, page, q + 1, x % page);
  }

  lemma RemainderUnique(x: nat, page: nat, q: int, r: int)
    requires 0 <= r < page && x == page * q + r
    ensures x % page == r
  {
    var d := x / page - q;
    assert page * d == r - x % page;
    assert d >= 1 ==> page * d >= page;
    assert d <= -1 ==> page * d <= 0 - page;
  }

  /** What the machine remainder measures. */
  lemma {:induction false} RemainderIsOffset(x: nat, page: nat)
    requires page > 0
    ensures x % page == x - Down(x, page)
  {
    if x < page {
      RemainderUnique(x, page, 0, x);
    } else {
      RemainderIsOffset(x - page, page);
      RemainderShift(x - page, page);
    }
  }

  lemma AlignedIsMultiple(x: nat, page: nat)
    requires page > 0
    ensures Aligned(x, page) <==> x % page == 0
  {
    RemainderIsOffset(x, page);
    if Aligned(x, page) { AlignedBetween(x, x, page); }
  }

  lemma {:induction false} AlignedSum(x: nat, y: nat, page: nat)
    requires page > 0 && Aligned(x, page)
    ensures Aligned(x + y, page) <==> Aligned(y, page)
  {
    if x == 0 {
    } else {
      AlignedSum(x - page, y, page);
    }
  }

  /** Distinct multiples of a page lie at least a page apart. */
  lemma {:induction false} AlignedGap(x: nat, y: nat, page: nat)
    requires page > 0 && Aligned(x, page) && Aligned(y, page) && x < y
    ensures x + page <= y
  {
    if x == 0 {
    } else {
      AlignedGap(x - page, y - page, page);
    }
  }

  /** Down and Up are the only multiples with their bounds. */
  lemma AlignedBetween(x: nat, r: nat, page: nat)
    requires page > 0 && Aligned(r, page)
    ensures r <= x < r + page ==> r == Down(x, page)
    ensures x <= r < x + page ==> r == Up(x, page)
  {
    var d, u := Down(x, page), Up(x, page);
    if r < d { AlignedGap(r, d, page); }
    if d < r { AlignedGap(d, r, page); }
    if r < u { AlignedGap(r, u, page); }
    if u < r { AlignedGap(u, r, page); }
  }

  function AlignDown(value: u64, alignment: u64): (r: Result<u64>)
    ensures alignment == 0 ==> r == Err(InvalidAlignment)
    ensures alignment > 0 ==> r == Ok(Down(value, alignment))
  {
    if alignment == 0 then Err(InvalidAlignment)
    else
      RemainderIsOffset(value, alignment);
      Ok(value - value % alignment)
  }

  function AlignUp(value: u64, alignment: u64): (r: Result<u64>)
    ensures alignment == 0 ==> r == Err(InvalidAlignment)
    ensures alignment > 0 ==>
      r == if Up(value, alignment) < U64_LIMIT then Ok(Up(value, alignment)) else Err(IntegerOverflow)
  {
    if alignment == 0 then Err(InvalidAlignment)
    else
      RemainderIsOffset(value, alignment);
      var remainder := value % alignment;
      if remainder == 0 then Ok(value)
      else if value + (alignment - remainder) < U64_LIMIT then Ok(value + (alignment - remainder))
      else Err(IntegerOverflow)
  }

  // ---------- padded captures ----------

  /** `data` behind `prefix` zeros, padded with zeros to a multiple of `alignment`. */
  function Padded(prefix: nat, data: seq<byte>, alignment: nat): (s: seq<byte>)
    requires alignment > 0
    ensures |s| == Up(prefix + |data|, alignment)
    ensures forall i :: 0 <= i < |s| ==>
      s[i] == if prefix <= i < prefix + |data| then data[i - prefix] else 0
  {
    Zeros(prefix) + data + Zeros(Up(prefix + |data|, alignment) - prefix - |data|)
  }

  method PaddedVec(prefix: u64, data: seq<byte>, alignment: u64) returns (r: Result<seq<byte>>)
    ensures alignment == 0 ==> r == Err(InvalidAlignment)
    ensures alignment > 0 ==>
      r == if Up(prefix + |data|, alignment) < U64_LIMIT then Ok(Padded(prefix, data, alignment))
           else Err(IntegerOverflow)
  {
    if alignment == 0 {
      return Err(InvalidAlignment);
    }
    var initialLen := prefix + |data|;
    if initialLen >= U64_LIMIT {
      return Err(IntegerOverflow);
    }
    var padding := (alignment - initialLen % alignment) % alignment;
    PaddingReachesUp(initialLen, alignment);
    var finalLen := initialLen + padding;
    if finalLen >= U64_LIMIT {
      return Err(IntegerOverflow);
    }
    var padded := Zeros(prefix);
    padded := padded + data;
    padded := padded + Zeros(finalLen - |padded|);
    return Ok(padded);
  }

  lemma PaddingReachesUp(n: nat, page: nat)
    requires page > 0
    ensures n + (page - n % page) % page == Up(n, page)
  {
    RemainderIsOffset(n, page);
    if n % page == 0 {
      RemainderUnique(page, page, 1, 0);
    } else {
      RemainderUnique(page - n % page, page, 0, page - n % page);
    }
  }

  /** A capture padded from the start of its first page ends at the end of its last page:
      the padded bytes are exactly as long as the mapping that will hold them. */
  lemma PaddedFillsPages(address: nat, data: seq<byte>, page: nat)
    requires page > 0
    ensures var start := Down(address, page);
            |Padded(address - start, data, page)| == Up(address + |data|, page) - start
  {
    hide Down, Up, Aligned, Padded;
    var start := Down(address, page);
    var end := Up(address + |data|, page);
    AlignedSum(start, end - start, page);
    AlignedBetween(address - start + |data|, end - start, page);
  }
}
