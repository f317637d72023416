/** Send path of the reliable transport: validation of a verbs work request
    and its fragmentation into wire chunks at most WR_CHUNK_SIZE bytes long
    whose boundaries fall on path-MTU boundaries. */
module Send {
  import opened MachineInt
  import opened Wrappers
  import Constants

  /** (Max) size of a single work-request chunk. */
  const WR_CHUNK_SIZE: u32 := 0x1000

  /** `IBV_WR_RDMA_WRITE` and `IBV_WR_RDMA_WRITE_WITH_IMM` of `enum ibv_wr_opcode` (rdma-core verbs.h). */
  const IBV_WR_RDMA_WRITE: u32 := 0
  const IBV_WR_RDMA_WRITE_WITH_IMM: u32 := 1

  /** Position of a chunk within the chunks of its work request. */
  datatype ChunkPos = First | Middle | Last | Only

  /** The scatter/gather element that `sg_list` points to. */
  datatype Sge = Sge(addr: u64, length: u32, lkey: u32)

  /** The fields of an `ibv_send_wr` that the driver reads. */
  datatype SendWr = SendWr(
    wrId: u64,
    opcode: u32,
    numSge: i32,
    sge: Sge,
    remoteAddr: u64,
    rkey: u32,
    immData: u32,
    sendFlags: u32)

  datatype ValidationError = InvalidInput | Unimplemented

  predicate IsWriteOpcode(opcode: u32) {
    opcode == IBV_WR_RDMA_WRITE || opcode == IBV_WR_RDMA_WRITE_WITH_IMM
  }

  /** A validated work request, with its accessors. */
  datatype SendWrResolver = SendWrResolver(wr: SendWr) {
    function Laddr(): u64 { wr.sge.addr }
    function Length(): u32 { wr.sge.length }
    function Lkey(): u32 { wr.sge.lkey }
    function Raddr(): u64 { wr.remoteAddr }
    function Rkey(): u32 { wr.rkey }
    function Imm(): u32 { wr.immData }
    function SendFlags(): u32 { wr.sendFlags }
    function WrId(): u64 { wr.wrId }
  }

  /** `SendWrResolver::new`: the opcode is checked first, then the SGE count
      (a negative count does not convert to `usize`). */
  function NewResolver(wr: SendWr): (r: Result<SendWrResolver, ValidationError>)
    ensures !IsWriteOpcode(wr.opcode) ==> r == Err(Unimplemented)
    ensures IsWriteOpcode(wr.opcode) && wr.numSge < 0 ==> r == Err(ValidationError.InvalidInput)
    ensures IsWriteOpcode(wr.opcode) && wr.numSge >= 0 && wr.numSge != 1 ==> r == Err(Unimplemented)
    ensures r.Ok? <==> IsWriteOpcode(wr.opcode) && wr.numSge == 1
    ensures r.Ok? ==> r.value.wr == wr
  {
    if !IsWriteOpcode(wr.opcode) then Err(Unimplemented)
    else if wr.numSge < 0 then Err(ValidationError.InvalidInput)
    else if wr.numSge != 1 then Err(Unimplemented)
    else Ok(SendWrResolver(wr))
  }

  /** A resolved request exposes the fields of the work request it wraps, unchanged. */
  lemma ResolverAccessors(wr: SendWr)
    requires NewResolver(wr).Ok?
    ensures var res := NewResolver(wr).value;
      && res.Laddr() == wr.sge.addr && res.Length() == wr.sge.length && res.Lkey() == wr.sge.lkey
      && res.Raddr() == wr.remoteAddr && res.Rkey() == wr.rkey && res.Imm() == wr.immData
      && res.SendFlags() == wr.sendFlags && res.WrId() == wr.wrId
  {
  }

  /** Work-request level parameters the chunk builder copies into every chunk. */
  datatype IbvParams = IbvParams(sendFlags: u8, rkey: u32, totalLen: u32, lkey: u32, imm: u32)

  /** One wire-sized unit of a work request. */
  datatype WrChunk = WrChunk(
    psn: u32,
    laddr: u64,
    raddr: u64,
    len: u32,
    pos: ChunkPos,
    pmtu: u32,
    ibv: IbvParams,
    isRetry: bool)

  /** The chunk builder once the connection parameters are set. */
  datatype QpChunkBuilder = QpChunkBuilder(pmtu: u32) {
    function SetIbvParams(sendFlags: u8, rkey: u32, totalLen: u32, lkey: u32, imm: u32): ChunkBuilder {
      ChunkBuilder(pmtu, IbvParams(sendFlags, rkey, totalLen, lkey, imm))
    }
  }

  /** The chunk builder once the work-request parameters are set too. */
  datatype ChunkBuilder = ChunkBuilder(pmtu: u32, ibv: IbvParams) {
    function Build(psn: u32, laddr: u64, raddr: u64, len: u32, pos: ChunkPos): WrChunk {
      WrChunk(psn, laddr, raddr, len, pos, pmtu, ibv, false)
    }
  }

  /** `WrChunk::set_is_retry` */
  function SetIsRetry(c: WrChunk): WrChunk {
    c.(isRetry := true)
  }

  /** The path MTUs the alignment argument needs: a power of two no larger than a chunk. */
  ghost predicate ValidPmtu(pmtu: int) {
    exists k: nat :: k <= 12 && pmtu == Pow2(k)
  }

  /** The tentative chunk size at `laddr`: up to the last PMTU boundary
      at or before `laddr + WR_CHUNK_SIZE` (saturating at the top of the
      address space). It never exceeds WR_CHUNK_SIZE, so the conversion
      to `u32` in the source cannot fail. */
  function ChunkSizeAt(pmtu: u32, laddr: u64): (r: u32)
    requires pmtu >= 1
    ensures r <= WR_CHUNK_SIZE
    ensures laddr + r <= U64_MAX
  {
    var chunkEnd := And(SatAdd64(laddr, WR_CHUNK_SIZE), Not64(pmtu - 1));
    AndBoundedByLeft(SatAdd64(laddr, WR_CHUNK_SIZE), Not64(pmtu - 1));
    SatSub64(chunkEnd, laddr)
  }

  lemma RoundDownIsMultiple(y: nat, p: nat)
    requires p > 0
    ensures (y - y % p) % p == 0 && y - y % p >= 0
  {
    DivModUnique(y - y % p, p, y / p, 0);
  }

  /** A valid PMTU is between 1 and WR_CHUNK_SIZE, and masking with `!(pmtu - 1)` rounds down to a multiple of it. */
  lemma PmtuMask(pmtu: u32, y: u64)
    requires ValidPmtu(pmtu)
    ensures 1 <= pmtu <= WR_CHUNK_SIZE
    ensures And(y, Not64(pmtu - 1)) == y - y % pmtu
    ensures U64_MAX % pmtu == pmtu - 1
  {
    var k: nat :| k <= 12 && pmtu == Pow2(k);
    Pow2Values();
    Pow2Monotone(k, 12);
    Pow2Monotone(k, 64);
    assert Not64(pmtu - 1) == Pow2(64) - Pow2(k);
    AndClearLow(y, 64, k);
    var p := Pow2(64 - k);
    Pow2Add(64 - k, k);
    assert p * pmtu == U64_MAX + 1;
    MulPred(p, pmtu);
    DivModUnique(U64_MAX, pmtu, p - 1, pmtu - 1);
  }

  /** At a PMTU-aligned address with room above it, the tentative chunk is a full WR_CHUNK_SIZE. */
  lemma ChunkSizeAtAligned(pmtu: u32, laddr: u64)
    requires ValidPmtu(pmtu) && laddr % pmtu == 0 && laddr + WR_CHUNK_SIZE <= U64_MAX
    ensures ChunkSizeAt(pmtu, laddr) == WR_CHUNK_SIZE
  {
    var k: nat :| k <= 12 && pmtu == Pow2(k);
    Pow2Values();
    Pow2Add(12 - k, k);
    DivModUnique(WR_CHUNK_SIZE, pmtu, Pow2(12 - k), 0);
    AddMultiples(laddr, WR_CHUNK_SIZE, pmtu);
    PmtuMask(pmtu, laddr + WR_CHUNK_SIZE);
  }

  /** For a valid PMTU the tentative chunk ends on a PMTU boundary and is
      empty exactly when `laddr` lies in the last PMTU of the address space. */
  lemma ChunkSizeAligned(pmtu: u32, laddr: u64)
    requires ValidPmtu(pmtu)
    ensures pmtu <= WR_CHUNK_SIZE
    ensures var r := ChunkSizeAt(pmtu, laddr);
      && (r == 0 <==> laddr > U64_MAX - pmtu)
      && (r > 0 ==> (laddr + r) % pmtu == 0)
  {
    var y := SatAdd64(laddr, WR_CHUNK_SIZE);
    PmtuMask(pmtu, y);
    var chunkEnd := y - y % pmtu;
    RoundDownIsMultiple(y, pmtu);
    if laddr + WR_CHUNK_SIZE <= U64_MAX {
      assert chunkEnd > laddr;
    } else {
      assert chunkEnd == U64_MAX + 1 - pmtu;
    }
    var r := ChunkSizeAt(pmtu, laddr);
    assert r == if chunkEnd >= laddr then chunkEnd - laddr else 0;
    assert r > 0 ==> laddr + r == chunkEnd;
  }

  /** The mutable fields of a fragmenter. */
  datatype FragState = FragState(psn: u32, laddr: u64, raddr: u64, remLen: u32, chunkPos: ChunkPos)

  /** What one call of `next` yields, and the fields it leaves behind. */
  datatype StepResult = StepResult(chunk: Option<WrChunk>, next: FragState)

  /** The length the step at `s` gives its chunk: the tentative size, clamped to what remains. */
  function EmittedLen(pmtu: u32, s: FragState): u32
    requires pmtu >= 1
  {
    var size := ChunkSizeAt(pmtu, s.laddr);
    if s.remLen <= size then s.remLen else size
  }

  /** The PSN after a chunk of `len` bytes: one per PMTU-sized packet,
      rounded up, added with 32-bit wrap-around. */
  function AdvancePsn(psn: u32, len: u32, pmtu: u32): u32
    requires pmtu >= 1
  {
    (psn + DivCeil(len, pmtu)) % 0x1_0000_0000
  }

  /** The position the step at `s` gives its chunk: `Last` when the rest fits
      in the tentative chunk, unless the fragmenter is at `Only`. */
  function StepPos(pmtu: u32, s: FragState): ChunkPos
    requires pmtu >= 1
  {
    if s.remLen <= ChunkSizeAt(pmtu, s.laddr) && s.chunkPos != Only then Last else s.chunkPos
  }

  /** One call of `WrFragmenter::next` on the fields `s`. The PSN is advanced
      (with 32-bit wrap-around) and the position set, and the local address
      advanced, before the remote addition is checked, so a failed check leaves
      those updates behind. The checked addition to the local address cannot
      fail, since the chunk ends at or below the saturated chunk end. */
  function Step(b: ChunkBuilder, posNext: ChunkPos -> ChunkPos, s: FragState): StepResult
    requires b.pmtu >= 1
  {
    if s.remLen == 0 then StepResult(None, s)
    else
      var size := EmittedLen(b.pmtu, s);
      var pos := StepPos(b.pmtu, s);
      var chunk := b.Build(s.psn, s.laddr, s.raddr, size, pos);
      var psn := AdvancePsn(s.psn, size, b.pmtu);
      if s.raddr + size > U64_MAX then
        StepResult(None, s.(psn := psn, laddr := s.laddr + size, chunkPos := pos))
      else
        StepResult(Some(chunk), FragState(psn, s.laddr + size, s.raddr + size, s.remLen - size, posNext(pos)))
  }

  /** The two outcomes of a step with something remaining, spelled out field by field. */
  lemma StepCases(b: ChunkBuilder, posNext: ChunkPos -> ChunkPos, s: FragState)
    requires b.pmtu >= 1 && s.remLen > 0
    ensures s.raddr + EmittedLen(b.pmtu, s) > U64_MAX ==>
      Step(b, posNext, s) == StepResult(None, FragState(AdvancePsn(s.psn, EmittedLen(b.pmtu, s), b.pmtu),
        s.laddr + EmittedLen(b.pmtu, s), s.raddr, s.remLen, StepPos(b.pmtu, s)))
    ensures s.raddr + EmittedLen(b.pmtu, s) <= U64_MAX ==>
      Step(b, posNext, s) == StepResult(Some(b.Build(s.psn, s.laddr, s.raddr, EmittedLen(b.pmtu, s), StepPos(b.pmtu, s))),
        FragState(AdvancePsn(s.psn, EmittedLen(b.pmtu, s), b.pmtu), s.laddr + EmittedLen(b.pmtu, s),
          s.raddr + EmittedLen(b.pmtu, s), s.remLen - EmittedLen(b.pmtu, s), posNext(StepPos(b.pmtu, s))))
  {
  }

  /** The fields `s` cover a range that ends at least one PMTU below the top
      of the address space, so every step makes progress. */
  ghost predicate Fits(pmtu: u32, s: FragState) {
    ValidPmtu(pmtu) && s.laddr + s.remLen <= U64_MAX + 1 - pmtu
  }

  /** Near the top of the address space the source's saturating addition
      makes the tentative chunk empty: `next` then yields a zero-length chunk
      and leaves every field but the position as it was, so iteration never ends. */
  lemma StallAtTopOfAddressSpace(b: ChunkBuilder, posNext: ChunkPos -> ChunkPos, s: FragState)
    requires ValidPmtu(b.pmtu) && s.remLen > 0 && s.laddr > U64_MAX - b.pmtu
    ensures var r := Step(b, posNext, s);
      && r.chunk.Some? && r.chunk.value.len == 0
      && r.next == s.(chunkPos := r.next.chunkPos)
  {
    assert ChunkSizeAt(b.pmtu, s.laddr) == 0 by {
      ChunkSizeAligned(b.pmtu, s.laddr);
    }
    ZeroLengthStep(b, posNext, s);
  }

  /** A step whose chunk is empty changes nothing but the position. */
  lemma ZeroLengthStep(b: ChunkBuilder, posNext: ChunkPos -> ChunkPos, s: FragState)
    requires b.pmtu >= 1 && s.remLen > 0 && ChunkSizeAt(b.pmtu, s.laddr) == 0
    ensures Step(b, posNext, s).chunk == Some(b.Build(s.psn, s.laddr, s.raddr, 0, StepPos(b.pmtu, s)))
    ensures Step(b, posNext, s).next == s.(chunkPos := posNext(StepPos(b.pmtu, s)))
  {
    assert EmittedLen(b.pmtu, s) == 0;
    AdvanceByNothing(s.psn, EmittedLen(b.pmtu, s), b.pmtu);
  }

  /** A zero-length chunk leaves the PSN where it was. */
  lemma AdvanceByNothing(psn: u32, len: u32, pmtu: u32)
    requires pmtu >= 1 && len == 0
    ensures AdvancePsn(psn, len, pmtu) == psn
  {
    assert DivCeil(len, pmtu) == 0;
  }

  /** From fields that fit, a step emits between 1 and WR_CHUNK_SIZE bytes, no
      more than remain; a chunk that leaves something behind ends on a PMTU
      boundary and keeps the position; the final one is `Last` (or `Only`). */
  lemma StepLen(pmtu: u32, s: FragState)
    requires Fits(pmtu, s) && s.remLen > 0
    ensures 1 <= pmtu <= WR_CHUNK_SIZE
    ensures var len := EmittedLen(pmtu, s);
      && 1 <= len <= WR_CHUNK_SIZE && len <= s.remLen
      && (len < s.remLen ==> (s.laddr + len) % pmtu == 0 && StepPos(pmtu, s) == s.chunkPos)
      && (len == s.remLen ==> StepPos(pmtu, s) == (if s.chunkPos == Only then Only else Last))
  {
    ChunkSizeAligned(pmtu, s.laddr);
    if s.remLen > ChunkSizeAt(pmtu, s.laddr) {
      assert EmittedLen(pmtu, s) == ChunkSizeAt(pmtu, s.laddr);
    }
  }

  /** From fields that fit, a step yields a chunk exactly when the remote
      address does not overflow, and then it is the chunk built from the
      fields, and the fields advance past it. */
  lemma StepShape(b: ChunkBuilder, posNext: ChunkPos -> ChunkPos, s: FragState)
    requires Fits(b.pmtu, s) && s.remLen > 0
    ensures b.pmtu >= 1
    ensures var r := Step(b, posNext, s); var len := EmittedLen(b.pmtu, s); var pos := StepPos(b.pmtu, s);
      && (r.chunk.Some? <==> s.raddr + len <= U64_MAX)
      && (r.chunk.Some? ==>
            && r.chunk.value == b.Build(s.psn, s.laddr, s.raddr, len, pos)
            && r.next == FragState(AdvancePsn(s.psn, len, b.pmtu), s.laddr + len, s.raddr + len, s.remLen - len, posNext(pos)))
  {
    StepLen(b.pmtu, s);
  }

  /** A step that yields a chunk leaves fields that fit, with less remaining. */
  lemma StepProgress(b: ChunkBuilder, posNext: ChunkPos -> ChunkPos, s: FragState)
    requires Fits(b.pmtu, s) && s.remLen > 0
    ensures b.pmtu >= 1
    ensures var r := Step(b, posNext, s);
      r.chunk.Some? ==> Fits(b.pmtu, r.next) && r.next.remLen < s.remLen
  {
    StepLen(b.pmtu, s);
    StepShape(b, posNext, s);
  }

  /** The chunks a fragmenter with fields `s` yields until its first `None`. */
  function Fragments(b: ChunkBuilder, posNext: ChunkPos -> ChunkPos, s: FragState): seq<WrChunk>
    requires Fits(b.pmtu, s)
    decreases s.remLen
  {
    if s.remLen == 0 then []
    else
      StepProgress(b, posNext, s);
      var r := Step(b, posNext, s);
      if r.chunk.None? then [] else [r.chunk.value] + Fragments(b, posNext, r.next)
  }

  /** The range `[s.raddr, s.raddr + s.remLen)` of the remote side is addressable. */
  predicate RemoteFits(s: FragState) {
    s.raddr + s.remLen <= U64_MAX
  }

  function TotalLen(cs: seq<WrChunk>): nat {
    if cs == [] then 0 else cs[0].len + TotalLen(cs[1..])
  }

  /** `next` yields `None` exactly when nothing remains, for fields that fit. */
  lemma NextNoneIffComplete(b: ChunkBuilder, posNext: ChunkPos -> ChunkPos, s: FragState)
    requires Fits(b.pmtu, s) && RemoteFits(s)
    ensures b.pmtu >= 1
    ensures Step(b, posNext, s).chunk.None? <==> s.remLen == 0
  {
    if s.remLen > 0 {
      StepLen(b.pmtu, s);
      StepShape(b, posNext, s);
    }
  }

  /** One unfolding of `Fragments`: nothing when nothing remains or the step
      yields `None`, otherwise the step's chunk followed by the rest. */
  lemma FragmentsUnfold(b: ChunkBuilder, posNext: ChunkPos -> ChunkPos, s: FragState)
    requires Fits(b.pmtu, s) && s.remLen > 0
    ensures b.pmtu >= 1
    ensures var r := Step(b, posNext, s);
      && (r.chunk.Some? ==>
            && Fits(b.pmtu, r.next)
            && Fragments(b, posNext, s) == [r.chunk.value] + Fragments(b, posNext, r.next))
      && (r.chunk.None? ==> Fragments(b, posNext, s) == [])
  {
    StepProgress(b, posNext, s);
  }

  /** A non-empty chunk sequence is the chunk built from the fields,
      followed by the chunks of the fields `next` advanced past it. */
  lemma FragmentsCons(b: ChunkBuilder, posNext: ChunkPos -> ChunkPos, s: FragState) returns (next: FragState)
    requires Fits(b.pmtu, s) && Fragments(b, posNext, s) != []
    ensures 1 <= b.pmtu <= WR_CHUNK_SIZE && s.remLen > 0
    ensures 1 <= EmittedLen(b.pmtu, s) <= WR_CHUNK_SIZE && EmittedLen(b.pmtu, s) <= s.remLen
    ensures && next.psn == AdvancePsn(s.psn, EmittedLen(b.pmtu, s), b.pmtu)
            && next.laddr == s.laddr + EmittedLen(b.pmtu, s)
            && next.raddr == s.raddr + EmittedLen(b.pmtu, s)
            && next.remLen == s.remLen - EmittedLen(b.pmtu, s)
            && next.chunkPos == posNext(StepPos(b.pmtu, s))
    ensures Fits(b.pmtu, next)
    ensures Fragments(b, posNext, s)
      == [b.Build(s.psn, s.laddr, s.raddr, EmittedLen(b.pmtu, s), StepPos(b.pmtu, s))] + Fragments(b, posNext, next)
  {
    StepLen(b.pmtu, s);
    StepShape(b, posNext, s);
    FragmentsUnfold(b, posNext, s);
    next := Step(b, posNext, s).next;
  }

  /** Every chunk of `s` past the first is a chunk of the fields after the first step. */
  lemma FragmentsShift(b: ChunkBuilder, posNext: ChunkPos -> ChunkPos, s: FragState) returns (next: FragState)
    requires Fits(b.pmtu, s) && Fragments(b, posNext, s) != []
    ensures Fits(b.pmtu, next)
    ensures |Fragments(b, posNext, next)| == |Fragments(b, posNext, s)| - 1
    ensures forall j :: 0 < j < |Fragments(b, posNext, s)| ==> Fragments(b, posNext, s)[j] == Fragments(b, posNext, next)[j - 1]
  {
    next := FragmentsCons(b, posNext, s);
  }

  /** The first chunk starts at the fragmenter's PSN and addresses. */
  lemma FragmentsHead(b: ChunkBuilder, posNext: ChunkPos -> ChunkPos, s: FragState)
    requires Fits(b.pmtu, s)
    ensures var cs := Fragments(b, posNext, s);
      |cs| > 0 ==> s.remLen > 0 && cs[0].psn == s.psn && cs[0].laddr == s.laddr && cs[0].raddr == s.raddr
  {
    if Fragments(b, posNext, s) != [] {
      var _ := FragmentsCons(b, posNext, s);
    }
  }

  /** No chunks exactly when nothing remains (given the remote range is addressable). */
  lemma FragmentsEmptyIffComplete(b: ChunkBuilder, posNext: ChunkPos -> ChunkPos, s: FragState)
    requires Fits(b.pmtu, s) && RemoteFits(s)
    ensures Fragments(b, posNext, s) == [] <==> s.remLen == 0
  {
    if s.remLen > 0 {
      StepLen(b.pmtu, s);
      StepShape(b, posNext, s);
      FragmentsUnfold(b, posNext, s);
    }
  }

  /** Chunk `c` is 1 to WR_CHUNK_SIZE bytes long, carries the parameters of
      builder `b` and is not marked as a retransmission. */
  predicate BuiltBy(b: ChunkBuilder, c: WrChunk) {
    && 1 <= c.len <= WR_CHUNK_SIZE
    && c.pmtu == b.pmtu && c.ibv == b.ibv && !c.isRetry
  }

  lemma FirstChunkBounds(b: ChunkBuilder, posNext: ChunkPos -> ChunkPos, s: FragState)
    requires Fits(b.pmtu, s) && Fragments(b, posNext, s) != []
    ensures BuiltBy(b, Fragments(b, posNext, s)[0])
  {
    var _ := FragmentsCons(b, posNext, s);
  }

  /** Every chunk is 1 to WR_CHUNK_SIZE bytes long and carries the builder's parameters. */
  lemma {:induction false} FragmentsChunkBounds(b: ChunkBuilder, posNext: ChunkPos -> ChunkPos, s: FragState, i: nat)
    requires Fits(b.pmtu, s) && i < |Fragments(b, posNext, s)|
    ensures BuiltBy(b, Fragments(b, posNext, s)[i])
    decreases i
  {
    if i == 0 {
      FirstChunkBounds(b, posNext, s);
    } else {
      var next := FragmentsShift(b, posNext, s);
      FragmentsChunkBounds(b, posNext, next, i - 1);
    }
  }

  /** Chunk `d` follows chunk `c`: it starts, locally and remotely, where `c`
      ends, and its PSN is that of `c` advanced by the packet count of `c`,
      wrapping at 2^32. */
  ghost predicate Contiguous(pmtu: u32, c: WrChunk, d: WrChunk)
    requires pmtu >= 1
  {
    && d.laddr == c.laddr + c.len
    && d.raddr == c.raddr + c.len
    && d.psn == AdvancePsn(c.psn, c.len, pmtu)
  }

  /** Each chunk follows the one before it. */
  lemma {:induction false} FragmentsContiguous(b: ChunkBuilder, posNext: ChunkPos -> ChunkPos, s: FragState, i: nat)
    requires Fits(b.pmtu, s) && i + 1 < |Fragments(b, posNext, s)|
    ensures b.pmtu >= 1
    ensures var cs := Fragments(b, posNext, s); Contiguous(b.pmtu, cs[i], cs[i + 1])
    decreases i
  {
    if i == 0 {
      var next := FragmentsCons(b, posNext, s);
      FragmentsHead(b, posNext, next);
    } else {
      var next := FragmentsShift(b, posNext, s);
      FragmentsContiguous(b, posNext, next, i - 1);
    }
  }

  /** Chunk `c` ends on a multiple of `pmtu`. */
  ghost predicate EndsAligned(c: WrChunk, pmtu: u32)
    requires pmtu >= 1
  {
    (c.laddr + c.len) % pmtu == 0
  }

  /** When another chunk follows, the first chunk ends on a PMTU boundary. */
  lemma FirstChunkAligned(b: ChunkBuilder, posNext: ChunkPos -> ChunkPos, s: FragState)
    requires Fits(b.pmtu, s) && 1 < |Fragments(b, posNext, s)|
    ensures b.pmtu >= 1
    ensures EndsAligned(Fragments(b, posNext, s)[0], b.pmtu)
  {
    var next := FragmentsCons(b, posNext, s);
    FragmentsHead(b, posNext, next);
    assert Fragments(b, posNext, s)[0].laddr + Fragments(b, posNext, s)[0].len == s.laddr + EmittedLen(b.pmtu, s);
    StepLen(b.pmtu, s);
  }

  /** Every chunk but the last ends on a PMTU boundary. */
  lemma {:induction false} FragmentsAligned(b: ChunkBuilder, posNext: ChunkPos -> ChunkPos, s: FragState, i: nat)
    requires Fits(b.pmtu, s) && i + 1 < |Fragments(b, posNext, s)|
    ensures b.pmtu >= 1
    ensures EndsAligned(Fragments(b, posNext, s)[i], b.pmtu)
    decreases i
  {
    if i == 0 {
      FirstChunkAligned(b, posNext, s);
    } else {
      var next := FragmentsShift(b, posNext, s);
      FragmentsAligned(b, posNext, next, i - 1);
    }
  }

  /** The 24-bit PSN field a descriptor carries for chunk `d` is that of
      chunk `c` plus the number of packets of `c`, modulo 2^24. */
  ghost predicate Psn24Follows(pmtu: u32, c: WrChunk, d: WrChunk)
    requires pmtu >= 1
  {
    And(d.psn, Constants.PSN_MASK) == (c.psn + DivCeil(c.len, pmtu)) % 0x100_0000
  }

  /** For contiguous chunks the 24-bit PSN of the second follows the first. */
  lemma ContiguousPsn24(pmtu: u32, c: WrChunk, d: WrChunk)
    requires pmtu >= 1 && Contiguous(pmtu, c, d)
    ensures Psn24Follows(pmtu, c, d)
  {
    DivCeilAtMost(c.len, pmtu);
    Constants.WrappingAddThenMask(c.psn, DivCeil(c.len, pmtu), d.psn);
  }

  /** The 24-bit PSN of each chunk follows the one before it. */
  lemma FragmentsPsn24(b: ChunkBuilder, posNext: ChunkPos -> ChunkPos, s: FragState, i: nat)
    requires Fits(b.pmtu, s) && i + 1 < |Fragments(b, posNext, s)|
    ensures b.pmtu >= 1
    ensures Psn24Follows(b.pmtu, Fragments(b, posNext, s)[i], Fragments(b, posNext, s)[i + 1])
  {
    FragmentsContiguous(b, posNext, s, i);
    ContiguousPsn24(b.pmtu, Fragments(b, posNext, s)[i], Fragments(b, posNext, s)[i + 1]);
  }

  /** The chunk lengths add up to the request length: every byte is covered once. */
  lemma {:induction false} FragmentsCoverage(b: ChunkBuilder, posNext: ChunkPos -> ChunkPos, s: FragState)
    requires Fits(b.pmtu, s) && RemoteFits(s)
    ensures TotalLen(Fragments(b, posNext, s)) == s.remLen
    decreases s.remLen
  {
    FragmentsEmptyIffComplete(b, posNext, s);
    if Fragments(b, posNext, s) != [] {
      var next := FragmentsCons(b, posNext, s);
      FragmentsCoverage(b, posNext, next);
      assert Fragments(b, posNext, s)[1..] == Fragments(b, posNext, next);
    }
  }

  /** `ChunkPos::next` yields `Only` from no position other than `Only`. */
  ghost predicate NeverOnly(posNext: ChunkPos -> ChunkPos) {
    forall p :: p != Only ==> posNext(p) != Only
  }

  /** The last chunk is `Last`, for a fragmenter not at `Only`. */
  lemma {:induction false} FragmentsLastIsLast(b: ChunkBuilder, posNext: ChunkPos -> ChunkPos, s: FragState)
    requires Fits(b.pmtu, s) && RemoteFits(s) && s.chunkPos != Only && NeverOnly(posNext)
    ensures var cs := Fragments(b, posNext, s); |cs| > 0 ==> cs[|cs| - 1].pos == Last
    decreases s.remLen
  {
    if Fragments(b, posNext, s) != [] {
      var next := FragmentsCons(b, posNext, s);
      StepLen(b.pmtu, s);
      FragmentsEmptyIffComplete(b, posNext, next);
      if Fragments(b, posNext, next) != [] {
        FragmentsLastIsLast(b, posNext, next);
      }
    }
  }

  /** When more than one chunk follows, the first keeps the fragmenter's position. */
  lemma FragmentsFirstPos(b: ChunkBuilder, posNext: ChunkPos -> ChunkPos, s: FragState)
    requires Fits(b.pmtu, s) && |Fragments(b, posNext, s)| > 1
    ensures Fragments(b, posNext, s)[0].pos == s.chunkPos
  {
    var next := FragmentsCons(b, posNext, s);
    StepLen(b.pmtu, s);
    FragmentsHead(b, posNext, next);
  }

  /** Every chunk but the first and the last has the successor of the position before it. */
  lemma {:induction false} FragmentsMiddlePos(b: ChunkBuilder, posNext: ChunkPos -> ChunkPos, s: FragState, i: nat)
    requires Fits(b.pmtu, s) && 0 < i < |Fragments(b, posNext, s)| - 1
    ensures var cs := Fragments(b, posNext, s); cs[i].pos == posNext(cs[i - 1].pos)
    decreases i
  {
    if i == 1 {
      var next := FragmentsCons(b, posNext, s);
      FragmentsFirstPos(b, posNext, next);
    } else {
      var next := FragmentsShift(b, posNext, s);
      FragmentsMiddlePos(b, posNext, next, i - 1);
    }
  }

  /** A request that fits in one chunk yields a single chunk tagged `Last`,
      not `Only`: a new fragmenter starts at `First`. */
  lemma SingleChunkIsLast(b: ChunkBuilder, posNext: ChunkPos -> ChunkPos, s: FragState)
    requires Fits(b.pmtu, s) && RemoteFits(s) && s.chunkPos == First
    requires 0 < s.remLen <= ChunkSizeAt(b.pmtu, s.laddr)
    ensures Fragments(b, posNext, s) == [b.Build(s.psn, s.laddr, s.raddr, s.remLen, Last)]
  {
    StepLen(b.pmtu, s);
    StepShape(b, posNext, s);
    FragmentsUnfold(b, posNext, s);
  }

  /** 1024 is a valid PMTU. */
  lemma Pmtu1024()
    ensures ValidPmtu(1024)
  {
    Pow2Values();
    assert 1024 == Pow2(10) by {
      assert Pow2(8) == 256;
      assert Pow2(9) == 512;
    }
  }

  /** A worked example: PMTU 1024, 5000 bytes from 0x1000 to 0x2000, PSN 0. */
  lemma WorkedExample(ibv: IbvParams, posNext: ChunkPos -> ChunkPos)
    requires posNext(First) == Middle
    ensures ValidPmtu(1024)
    ensures var b := ChunkBuilder(1024, ibv);
      Fragments(b, posNext, FragState(0, 0x1000, 0x2000, 5000, First))
      == [b.Build(0, 0x1000, 0x2000, 4096, First), b.Build(4, 0x2000, 0x3000, 904, Last)]
  {
    var b := ChunkBuilder(1024, ibv);
    Pmtu1024();
    var s0 := FragState(0, 0x1000, 0x2000, 5000, First);
    var s1 := FragState(4, 0x2000, 0x3000, 904, Middle);
    var s2 := FragState(5, 0x2388, 0x3388, 0, posNext(Last));
    ChunkSizeAtAligned(1024, 0x1000);
    ChunkSizeAtAligned(1024, 0x2000);
    assert DivCeil(4096, 1024) == 4;
    assert DivCeil(904, 1024) == 1;
    FragmentsUnfold(b, posNext, s0);
    FragmentsUnfold(b, posNext, s1);
  }

  /** `WrFragmenter`: splits one resolved work request into chunks, one per call of `Next`. */
  class WrFragmenter {
    var psn: u32
    var laddr: u64
    var raddr: u64
    var remLen: u32
    var chunkPos: ChunkPos
    const builder: ChunkBuilder
    /** `ChunkPos::next`, whose definition is not part of this model. */
    const posNext: ChunkPos -> ChunkPos

    function State(): FragState
      reads this
    {
      FragState(psn, laddr, raddr, remLen, chunkPos)
    }

    /** `WrFragmenter::new`: the send flags are truncated to their low byte. */
    constructor (wr: SendWrResolver, qpBuilder: QpChunkBuilder, basePsn: u32, posNext: ChunkPos -> ChunkPos)
      ensures State() == FragState(basePsn, wr.Laddr(), wr.Raddr(), wr.Length(), First)
      ensures builder == qpBuilder.SetIbvParams(wr.SendFlags() % 0x100, wr.Rkey(), wr.Length(), wr.Lkey(), wr.Imm())
      ensures this.posNext == posNext
    {
      builder := qpBuilder.SetIbvParams(wr.SendFlags() % 0x100, wr.Rkey(), wr.Length(), wr.Lkey(), wr.Imm());
      this.posNext := posNext;
      psn := basePsn;
      laddr := wr.Laddr();
      raddr := wr.Raddr();
      remLen := wr.Length();
      chunkPos := First;
    }

    /** `is_complete`: when it holds, `next` yields `None` and changes nothing. */
    predicate IsComplete()
      reads this
      ensures IsComplete() && builder.pmtu >= 1 ==> Step(builder, posNext, State()) == StepResult(None, State())
    {
      remLen == 0
    }

    /** `Iterator::next`; a PMTU of 0 is unreachable in the source. */
    method Next() returns (r: Option<WrChunk>)
      requires builder.pmtu >= 1
      modifies this
      ensures StepResult(r, State()) == Step(builder, posNext, old(State()))
    {
      if IsComplete() {
        return None;
      }
      ghost var s := State();
      var pmtu := builder.pmtu;
      var pmtuMask := pmtu - 1;
      var chunkEnd := And(SatAdd64(laddr, WR_CHUNK_SIZE), Not64(pmtuMask));
      AndBoundedByLeft(SatAdd64(laddr, WR_CHUNK_SIZE), Not64(pmtuMask));
      var chunkSize: u32 := SatSub64(chunkEnd, laddr);
      assert chunkSize == ChunkSizeAt(pmtu, s.laddr);
      if remLen <= chunkSize {
        chunkSize := remLen;
        if chunkPos != Only {
          chunkPos := Last;
        }
      }
      assert chunkSize == EmittedLen(pmtu, s);
      assert chunkPos == StepPos(pmtu, s);
      StepCases(builder, posNext, s);
      var chunk := builder.Build(psn, laddr, raddr, chunkSize, chunkPos);
      psn := AdvancePsn(psn, chunkSize, pmtu);
      laddr := laddr + chunkSize;
      if raddr + chunkSize > U64_MAX {
        return None;
      }
      raddr := raddr + chunkSize;
      remLen := remLen - chunkSize;
      chunkPos := posNext(chunkPos);
      return Some(chunk);
    }
  }
}
