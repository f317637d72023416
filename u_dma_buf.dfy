/** The u-dma-buf allocator: a bump allocator of 2 MiB pages over one
    physically contiguous buffer, whose size and physical address the
    kernel driver publishes as text attributes. */
module UDmaBuf {
  import opened MachineInt
  import opened Wrappers

  /** `1 << 21` */
  const PAGE_SIZE_2MB: nat := 0x20_0000

  /** `mmap`'s failure value, `(void *) -1`. */
  const MAP_FAILED: u64 := 0xFFFF_FFFF_FFFF_FFFF

  // ------------------------------------------------------- attribute text

  /** `char::is_whitespace`: the Unicode `White_Space` property. */
  predicate IsWhitespace(c: char)
  {
    var x := c as int;
    (0x9 <= x <= 0xD) || x == 0x20 || x == 0x85 || x == 0xA0 || x == 0x1680
    || (0x2000 <= x <= 0x200A) || x == 0x2028 || x == 0x2029 || x == 0x202F
    || x == 0x205F || x == 0x3000
  }

  /** `str::trim_start`: the leading white space is removed, and nothing else. */
  function TrimStart(s: string): (r: string)
    ensures |r| <= |s| && r == s[|s| - |r|..]
    ensures forall i :: 0 <= i < |s| - |r| ==> IsWhitespace(s[i])
    ensures r != [] ==> !IsWhitespace(r[0])
  {
    if s != [] && IsWhitespace(s[0]) then
      var r := TrimStart(s[1..]);
      assert forall i :: 1 <= i < |s| ==> s[1..][i - 1] == s[i];
      r
    else s
  }

  /** `str::trim_end`: the trailing white space is removed, and nothing else. */
  function TrimEnd(s: string): (r: string)
    ensures |r| <= |s| && r == s[..|r|]
    ensures forall i :: |r| <= i < |s| ==> IsWhitespace(s[i])
    ensures r != [] ==> !IsWhitespace(r[|r| - 1])
  {
    if s != [] && IsWhitespace(s[|s| - 1]) then
      var r := TrimEnd(s[..|s| - 1]);
      assert s[..|s| - 1][..|r|] == s[..|r|];
      r
    else s
  }

  /** `str::trim` */
  function Trim(s: string): string
  {
    TrimEnd(TrimStart(s))
  }

  /** `k` copies of `"0x"`. */
  function Repeat0x(k: nat): string
  {
    if k == 0 then [] else "0x" + Repeat0x(k - 1)
  }

  /** `str::trim_start_matches("0x")`: every leading `"0x"` is removed. */
  function TrimStartMatches0x(s: string): (r: string)
    ensures |r| <= |s| && (|s| - |r|) % 2 == 0
    ensures s == Repeat0x((|s| - |r|) / 2) + r
    ensures !(|r| >= 2 && r[..2] == "0x")
  {
    if |s| >= 2 && s[..2] == "0x" then
      var r := TrimStartMatches0x(s[2..]);
      assert (|s| - |r|) / 2 == (|s| - 2 - |r|) / 2 + 1;
      assert s == "0x" + s[2..];
      r
    else s
  }

  /** `char::to_digit(radix)`, for the radixes the driver parses with. */
  function DigitValue(c: char, radix: nat): Option<nat>
  {
    var d :=
      if '0' <= c <= '9' then (c as int) - ('0' as int)
      else if 'a' <= c <= 'z' then (c as int) - ('a' as int) + 10
      else if 'A' <= c <= 'Z' then (c as int) - ('A' as int) + 10
      else 36;
    if d < radix then Some(d) else None
  }

  predicate AllDigits(s: string, radix: nat)
  {
    forall i :: 0 <= i < |s| ==> DigitValue(s[i], radix).Some?
  }

  /** The value of a digit string, most significant digit first. */
  function DigitsValue(s: string, radix: nat): nat
    requires AllDigits(s, radix)
  {
    if s == [] then 0
    else DigitsValue(s[..|s| - 1], radix) * radix + DigitValue(s[|s| - 1], radix).value
  }

  /** `u64::from_str_radix`: an optional `+`, then at least one digit, and
      a value that fits in 64 bits. */
  function FromStrRadix(s: string, radix: nat): (r: Option<u64>)
    ensures r.Some? ==> |s| >= 1
  {
    var digits := if |s| >= 1 && s[0] == '+' then s[1..] else s;
    if digits == [] || !AllDigits(digits, radix) then None
    else
      var v := DigitsValue(digits, radix);
      if v > U64_MAX then None else Some(v)
  }

  /** `UDmaBufAllocator::size_total`: the trimmed `size` attribute as a
      decimal `usize`; `attr` is the result of reading the attribute file. */
  function SizeTotal(attr: Result<string, IoErrorKind>): Result<u64, IoErrorKind>
  {
    match attr
    case Err(e) => Err(e)
    case Ok(content) =>
      match FromStrRadix(Trim(content), 10)
      case None => Err(InvalidData)
      case Some(v) => Ok(v)
  }

  /** `UDmaBufAllocator::phys_addr`: the trimmed `phys_addr` attribute with
      its leading `"0x"`s removed, as a hexadecimal `u64`. */
  function PhysAddr(attr: Result<string, IoErrorKind>): Result<u64, IoErrorKind>
  {
    match attr
    case Err(e) => Err(e)
    case Ok(content) =>
      match FromStrRadix(TrimStartMatches0x(Trim(content)), 16)
      case None => Err(InvalidData)
      case Some(v) => Ok(v)
  }

  /** `b^n` */
  function Power(b: nat, n: nat): (r: nat)
  {
    if n == 0 then 1 else b * Power(b, n - 1)
  }

  /** The lowercase hex digit of `d < 16`. */
  function HexChar(d: nat): (c: char)
    requires d < 16
    ensures DigitValue(c, 16) == Some(d)
  {
    if d < 10 then (('0' as int) + d) as char else (('a' as int) + d - 10) as char
  }

  /** `v` written with exactly `w` hex digits, zero-padded, as the kernel
      formats physical addresses. */
  function HexDigits(v: nat, w: nat): (r: string)
    ensures |r| == w && AllDigits(r, 16)
  {
    if w == 0 then [] else HexDigits(v / 16, w - 1) + [HexChar(v % 16)]
  }

  lemma Power16()
    ensures Power(16, 16) == 0x1_0000_0000_0000_0000
  {
    assert Power(16, 4) == 0x1_0000;
    assert Power(16, 8) == 0x1_0000_0000;
    assert Power(16, 12) == 0x1_0000_0000_0000;
  }

  /** Zero-padded hex digits read back as the value they were written from. */
  lemma {:induction false} HexDigitsValue(v: nat, w: nat)
    requires v < Power(16, w)
    ensures DigitsValue(HexDigits(v, w), 16) == v
  {
    if w > 0 {
      var s := HexDigits(v, w);
      assert s[..|s| - 1] == HexDigits(v / 16, w - 1);
      HexDigitsValue(v / 16, w - 1);
    }
  }

  /** A digit string is read as the value it spells. */
  lemma FromDigits(digits: string, radix: nat)
    requires radix <= 36 && |digits| >= 1 && AllDigits(digits, radix) && DigitsValue(digits, radix) <= U64_MAX
    ensures FromStrRadix(digits, radix) == Some(DigitsValue(digits, radix))
  {
    assert digits[0] != '+' by {
      assert DigitValue(digits[0], radix).Some?;
    }
  }

  /** Trimming a text that starts and ends with a visible character, and
      is followed by a newline, removes only the newline. */
  lemma TrimNewline(t: string)
    requires |t| >= 1 && !IsWhitespace(t[0]) && !IsWhitespace(t[|t| - 1])
    ensures Trim(t + "\n") == t
  {
    var text := t + "\n";
    assert text[0] == t[0];
    assert TrimStart(text) == text;
    assert text[..|text| - 1] == t;
    assert IsWhitespace(text[|text| - 1]);
    assert TrimEnd(text) == TrimEnd(t);
  }

  /** A digit is never whitespace. */
  lemma DigitIsVisible(c: char, radix: nat)
    requires radix <= 36 && DigitValue(c, radix).Some?
    ensures !IsWhitespace(c)
  {
  }

  /** One leading `0x` is stripped from a hex digit string, and no more. */
  lemma StripHexPrefix(digits: string)
    requires AllDigits(digits, 16)
    ensures TrimStartMatches0x("0x" + digits) == digits
  {
    assert ("0x" + digits)[2..] == digits;
    if |digits| >= 2 {
      assert digits[..2] != "0x" by {
        assert digits[..2][1] == digits[1];
        assert DigitValue(digits[1], 16).Some?;
      }
    }
  }

  /** The text `0x<hex digits>\n` parses as the number the digits spell. */
  lemma PhysAddrOfHexText(digits: string)
    requires |digits| >= 1 && AllDigits(digits, 16) && DigitsValue(digits, 16) <= U64_MAX
    ensures PhysAddr(Ok("0x" + digits + "\n")) == Ok(DigitsValue(digits, 16))
  {
    DigitIsVisible(digits[|digits| - 1], 16);
    assert ("0x" + digits)[|"0x" + digits| - 1] == digits[|digits| - 1];
    TrimNewline("0x" + digits);
    StripHexPrefix(digits);
    FromDigits(digits, 16);
  }

  /** The text `<decimal digits>\n` is read as the size the digits spell. */
  lemma SizeTotalOfDecimalText(digits: string)
    requires |digits| >= 1 && AllDigits(digits, 10) && DigitsValue(digits, 10) <= U64_MAX
    ensures SizeTotal(Ok(digits + "\n")) == Ok(DigitsValue(digits, 10))
  {
    DigitIsVisible(digits[0], 10);
    DigitIsVisible(digits[|digits| - 1], 10);
    TrimNewline(digits);
    FromDigits(digits, 10);
  }

  /** The attribute text `0x<16 hex digits>\n`, as the kernel writes a
      physical address, parses as that address. */
  lemma PhysAddrOfAttribute(v: u64)
    ensures PhysAddr(Ok("0x" + HexDigits(v, 16) + "\n")) == Ok(v)
  {
    Power16();
    HexDigitsValue(v, 16);
    PhysAddrOfHexText(HexDigits(v, 16));
  }

  /** A text that trims to the empty string is not a number. */
  lemma BlankAttributeIsInvalid(content: string)
    requires Trim(content) == []
    ensures PhysAddr(Ok(content)) == Err(InvalidData) && SizeTotal(Ok(content)) == Err(InvalidData)
  {
    assert TrimStartMatches0x([]) == [];
    assert FromStrRadix([], 16) == None && FromStrRadix([], 10) == None;
  }

  // ------------------------------------------------------- allocation

  /** An `MmapMut`: the mapped address and its length. */
  datatype Mapping = Mapping(ptr: u64, len: nat)

  function CheckedAdd(a: u64, b: u64): (r: Option<u64>)
    ensures r.Some? <==> a + b <= U64_MAX
    ensures r.Some? ==> r.value == a + b
  {
    if a + b <= U64_MAX then Some(a + b) else None
  }

  function CheckedMul(a: u64, b: u64): (r: Option<u64>)
    ensures r.Some? <==> a * b <= U64_MAX
    ensures r.Some? ==> r.value == a * b
  {
    if a * b <= U64_MAX then Some(a * b) else None
  }

  /** `UDmaBufAllocator::create(n)` from allocation offset `offset` (in
      pages): the new offset and the result. `sizeTotal` and `physAddr` are
      what `size_total()` and `phys_addr()` return, `ptr` the address
      `mmap` returned. `offset * PAGE_SIZE_2MB`, `n * PAGE_SIZE_2MB` and the
      final `+` are unchecked and wrap modulo 2^64. */
  function CreateOn(offset: u64, n: u64, sizeTotal: Result<u64, IoErrorKind>,
                    physAddr: Result<u64, IoErrorKind>, ptr: u64): (u64, Result<(Mapping, u64), IoErrorKind>)
  {
    var size := WrapU64(PAGE_SIZE_2MB * n);
    match sizeTotal
    case Err(e) => (offset, Err(e))
    case Ok(total) =>
      var offsetInBytes := WrapU64(offset * PAGE_SIZE_2MB);
      var end := match CheckedAdd(offset, n) case None => None case Some(x) => CheckedMul(x, PAGE_SIZE_2MB);
      if end.None? || end.value > total then (offset, Err(OutOfMemory))
      else if ptr == 0 then (offset, Err(Other))
      else
        match physAddr
        case Err(e) => (offset + n, Err(e))
        case Ok(base) => (offset + n, Ok((Mapping(ptr, size), WrapU64(base as nat + offsetInBytes))))
  }

  /** Every outcome of `create(n)`: a failed `size_total` is passed on; the
      request fails with `OutOfMemory` exactly when its last page would lie
      past the end of the buffer; a null mapping fails with `Other`; in
      those cases the offset is kept. Otherwise the offset moves on by `n`,
      whether or not `phys_addr` then fails. */
  lemma CreateOutcome(offset: u64, n: u64, sizeTotal: Result<u64, IoErrorKind>,
                      physAddr: Result<u64, IoErrorKind>, ptr: u64)
    ensures var (offset', r) := CreateOn(offset, n, sizeTotal, physAddr, ptr);
      && (sizeTotal.Err? ==> r == Err(sizeTotal.error) && offset' == offset)
      && (sizeTotal.Ok? && (offset + n) * PAGE_SIZE_2MB > sizeTotal.value ==>
            r == Err(OutOfMemory) && offset' == offset)
      && (sizeTotal.Ok? && (offset + n) * PAGE_SIZE_2MB <= sizeTotal.value && ptr == 0 ==>
            r == Err(Other) && offset' == offset)
      && (sizeTotal.Ok? && (offset + n) * PAGE_SIZE_2MB <= sizeTotal.value && ptr != 0 ==>
            && offset' == offset + n
            && (physAddr.Err? ==> r == Err(physAddr.error))
            && (physAddr.Ok? ==> r.Ok?))
  {
    if sizeTotal.Ok? && offset + n > U64_MAX {
      assert (offset + n) * PAGE_SIZE_2MB > sizeTotal.value;
    }
  }

  /** A successful `create(n)` moves the offset on by `n`, maps exactly `n`
      pages, and returns the physical address just after the pages handed
      out before, all within the buffer. */
  lemma CreateSucceeds(offset: u64, n: u64, sizeTotal: Result<u64, IoErrorKind>,
                       physAddr: Result<u64, IoErrorKind>, ptr: u64)
    requires CreateOn(offset, n, sizeTotal, physAddr, ptr).1.Ok?
    ensures var (offset', r) := CreateOn(offset, n, sizeTotal, physAddr, ptr);
      && offset' == offset + n
      && r.value.0 == Mapping(ptr, n * PAGE_SIZE_2MB) && ptr != 0
      && sizeTotal.Ok? && physAddr.Ok?
      && offset * PAGE_SIZE_2MB + n * PAGE_SIZE_2MB <= sizeTotal.value
      && r.value.1 == WrapU64(physAddr.value as nat + offset * PAGE_SIZE_2MB)
  {
    assert (offset + n) * PAGE_SIZE_2MB == offset * PAGE_SIZE_2MB + n * PAGE_SIZE_2MB;
  }

  /** Two successive successful `create`s hand out adjacent ranges: the
      second starts where the first ends, and (when the buffer does not
      reach past the top of the address space) both lie inside it. */
  lemma AdjacentCreates(offset: u64, n1: u64, n2: u64, sizeTotal: Result<u64, IoErrorKind>,
                        physAddr: Result<u64, IoErrorKind>, ptr1: u64, ptr2: u64)
    requires CreateOn(offset, n1, sizeTotal, physAddr, ptr1).1.Ok?
    requires CreateOn(CreateOn(offset, n1, sizeTotal, physAddr, ptr1).0, n2, sizeTotal, physAddr, ptr2).1.Ok?
    requires physAddr.Ok? && sizeTotal.Ok? && physAddr.value + sizeTotal.value <= U64_MAX
    ensures var (offset1, r1) := CreateOn(offset, n1, sizeTotal, physAddr, ptr1);
      var (_, r2) := CreateOn(offset1, n2, sizeTotal, physAddr, ptr2);
      && physAddr.value <= r1.value.1
      && r1.value.1 + r1.value.0.len == r2.value.1
      && r2.value.1 + r2.value.0.len <= physAddr.value + sizeTotal.value
  {
    CreateSucceeds(offset, n1, sizeTotal, physAddr, ptr1);
    var offset1 := CreateOn(offset, n1, sizeTotal, physAddr, ptr1).0;
    CreateSucceeds(offset1, n2, sizeTotal, physAddr, ptr2);
    assert offset1 * PAGE_SIZE_2MB == offset * PAGE_SIZE_2MB + n1 * PAGE_SIZE_2MB;
  }

  /** As written, `create` tests the `mmap` result against null, but `mmap`
      reports failure as `MAP_FAILED`: a failed mapping is handed out as a
      successful allocation, and the offset moves on. */
  lemma MapFailedIsNotDetected(offset: u64, n: u64, total: u64, base: u64)
    requires (offset + n) * PAGE_SIZE_2MB <= total
    ensures var (offset', r) := CreateOn(offset, n, Ok(total), Ok(base), MAP_FAILED);
      r.Ok? && r.value.0.ptr == MAP_FAILED && offset' == offset + n
  {
  }

  /** `create` with the `mmap` result tested against `MAP_FAILED`, the
      value `mmap` reports failure with. */
  function CreateCheckedOn(offset: u64, n: u64, sizeTotal: Result<u64, IoErrorKind>,
                           physAddr: Result<u64, IoErrorKind>, ptr: u64): (u64, Result<(Mapping, u64), IoErrorKind>)
  {
    if ptr == MAP_FAILED then (offset, CreateOn(offset, n, sizeTotal, physAddr, 0).1)
    else CreateOn(offset, n, sizeTotal, physAddr, ptr)
  }

  /** With the corrected test, a failed mapping is an error that keeps the
      offset, and a successful allocation never hands out `MAP_FAILED`;
      every other mapping result is treated as before. */
  lemma CheckedCreateRejectsMapFailed(offset: u64, n: u64, sizeTotal: Result<u64, IoErrorKind>,
                                      physAddr: Result<u64, IoErrorKind>, ptr: u64)
    ensures var (offset', r) := CreateCheckedOn(offset, n, sizeTotal, physAddr, MAP_FAILED);
      r.Err? && offset' == offset
    ensures var r := CreateCheckedOn(offset, n, sizeTotal, physAddr, ptr).1;
      r.Ok? ==> r.value.0.ptr != MAP_FAILED && r.value.0.ptr != 0
    ensures ptr != MAP_FAILED ==>
      CreateCheckedOn(offset, n, sizeTotal, physAddr, ptr) == CreateOn(offset, n, sizeTotal, physAddr, ptr)
  {
  }

  /** `UDmaBufAllocator`: the number of 2 MiB pages handed out so far. */
  class UDmaBufAllocator {
    var offset: u64
    /** Whether `create` also tests the mapping against `MAP_FAILED`
        (`CreateCheckedOn`) rather than against null only, as written
        (`CreateOn`). */
    const checkMapFailed: bool

    /** `UDmaBufAllocator::open`, once `/dev/udmabuf0` is open. */
    constructor (checkMapFailed: bool)
      ensures offset == 0 && this.checkMapFailed == checkMapFailed
    {
      offset := 0;
      this.checkMapFailed := checkMapFailed;
    }

    /** The `create` this allocator runs. */
    function CreateSpec(offset: u64, n: u64, sizeTotal: Result<u64, IoErrorKind>,
                        physAddr: Result<u64, IoErrorKind>, ptr: u64): (u64, Result<(Mapping, u64), IoErrorKind>)
      reads this
    {
      if checkMapFailed then CreateCheckedOn(offset, n, sizeTotal, physAddr, ptr)
      else CreateOn(offset, n, sizeTotal, physAddr, ptr)
    }

    /** `UDmaBufAllocator::create`, with the mapping tested against null
        and, when `checkMapFailed`, against `MAP_FAILED`; `sizeAttr` and
        `physAttr` are the results of reading the two attributes. */
    method Create(n: u64, sizeAttr: Result<string, IoErrorKind>, physAttr: Result<string, IoErrorKind>, ptr: u64)
      returns (r: Result<(Mapping, u64), IoErrorKind>)
      modifies this
      ensures (offset, r) == CreateSpec(old(offset), n, SizeTotal(sizeAttr), PhysAddr(physAttr), ptr)
    {
      r := CreateWith(n, SizeTotal(sizeAttr), PhysAddr(physAttr), ptr);
    }

    /** The steps of `create` once `size_total()` and, after the mapping,
        `phys_addr()` have returned `sizeTotal` and `physAddr`. */
    method CreateWith(n: u64, sizeTotal: Result<u64, IoErrorKind>, physAddr: Result<u64, IoErrorKind>, ptr: u64)
      returns (r: Result<(Mapping, u64), IoErrorKind>)
      modifies this
      ensures (offset, r) == CreateSpec(old(offset), n, sizeTotal, physAddr, ptr)
    {
      var size := WrapU64(PAGE_SIZE_2MB * n);
      if sizeTotal.Err? {
        return Err(sizeTotal.error);
      }
      var offsetInBytes := WrapU64(offset * PAGE_SIZE_2MB);
      var sum := CheckedAdd(offset, n);
      var end := if sum.None? then None else CheckedMul(sum.value, PAGE_SIZE_2MB);
      if end.None? || end.value > sizeTotal.value {
        return Err(OutOfMemory);
      }
      if ptr == 0 || (checkMapFailed && ptr == MAP_FAILED) {
        return Err(Other);
      }
      offset := sum.value;
      if physAddr.Err? {
        return Err(physAddr.error);
      }
      r := Ok((Mapping(ptr, size), WrapU64(physAddr.value as nat + offsetInBytes)));
    }

    /** `DmaBufAllocator::alloc`: one 2 MiB page. */
    method Alloc(sizeAttr: Result<string, IoErrorKind>, physAttr: Result<string, IoErrorKind>, ptr: u64)
      returns (r: Result<(Mapping, u64), IoErrorKind>)
      modifies this
      ensures (offset, r) == CreateSpec(old(offset), 1, SizeTotal(sizeAttr), PhysAddr(physAttr), ptr)
    {
      r := Create(1, sizeAttr, physAttr, ptr);
    }
  }
}
