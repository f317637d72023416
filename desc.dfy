/** Ring-buffer descriptors: the 16-bit common head, the untyped 32-byte
    descriptor and the four 64-bit chunks of the BTH/RETH meta-report
    descriptor. A bitfield struct is a sequence of bits, least significant
    first, and its fields are packed in declaration order from bit 0. */
module Desc {
  import opened MachineInt

  /** Size of a descriptor in bytes. */
  const DESC_SIZE: nat := 32

  // ---------------------------------------------------------------- bits

  /** The number whose binary digits, least significant first, are `bs`. */
  function FromBits(bs: seq<bool>): nat
    decreases |bs|
  {
    if bs == [] then 0 else (if bs[0] then 1 else 0) + 2 * FromBits(bs[1..])
  }

  /** The low `w` binary digits of `v`, least significant first. */
  function ToBits(v: nat, w: nat): (r: seq<bool>)
    ensures |r| == w
  {
    if w == 0 then [] else [v % 2 == 1] + ToBits(v / 2, w - 1)
  }

  lemma {:induction false} FromBitsBound(bs: seq<bool>)
    ensures FromBits(bs) < Pow2(|bs|)
    decreases |bs|
  {
    if bs != [] {
      FromBitsBound(bs[1..]);
    }
  }

  /** Reading back `w` bits of `v` yields `v` reduced modulo 2^w, which is
      what `masked_new` keeps. */
  lemma {:induction false} FromToBits(v: nat, w: nat)
    ensures FromBits(ToBits(v, w)) == v % Pow2(w)
    decreases w
  {
    if w > 0 {
      FromToBits(v / 2, w - 1);
      assert ToBits(v, w)[1..] == ToBits(v / 2, w - 1);
      ModTwice(v, Pow2(w - 1));
    }
  }

  /** Writing back the value of `bs` in `|bs|` bits yields `bs`. */
  lemma {:induction false} ToFromBits(bs: seq<bool>)
    ensures ToBits(FromBits(bs), |bs|) == bs
    decreases |bs|
  {
    if bs != [] {
      var v := FromBits(bs);
      var r := if bs[0] then 1 else 0;
      DivModUnique(v, 2, FromBits(bs[1..]), r);
      ToFromBits(bs[1..]);
    }
  }

  lemma {:induction false} FromZeros(w: nat)
    ensures FromBits(ToBits(0, w)) == 0
    decreases w
  {
    if w > 0 {
      assert ToBits(0, w)[1..] == ToBits(0, w - 1);
      FromZeros(w - 1);
    }
  }

  // -------------------------------------------------------------- fields

  /** A bitfield: `width` bits starting at bit `offset`. */
  datatype Field = Field(offset: nat, width: nat)

  predicate FitsIn(f: Field, n: nat) {
    f.offset + f.width <= n
  }

  /** The getter of field `f` of the bitfield struct `word`. */
  function GetField(word: seq<bool>, f: Field): (r: nat)
    requires FitsIn(f, |word|)
    ensures r < Pow2(f.width)
  {
    FromBitsBound(word[f.offset..f.offset + f.width]);
    FromBits(word[f.offset..f.offset + f.width])
  }

  /** The setter of field `f`: `v` is truncated to the field's width. */
  function SetField(word: seq<bool>, f: Field, v: nat): (r: seq<bool>)
    requires FitsIn(f, |word|)
    ensures |r| == |word|
  {
    word[..f.offset] + ToBits(v, f.width) + word[f.offset + f.width..]
  }

  /** A one-bit field holds a `bool`. */
  function GetFlag(word: seq<bool>, f: Field): bool
    requires FitsIn(f, |word|)
  {
    GetField(word, f) == 1
  }

  /** A one-bit field's value is its flag as 0 or 1. */
  lemma FlagValue(word: seq<bool>, f: Field)
    requires FitsIn(f, |word|) && f.width == 1
    ensures GetField(word, f) == if GetFlag(word, f) then 1 else 0
  {
    assert Pow2(f.width) == Pow2Of(1);
  }

  function SetFlag(word: seq<bool>, f: Field, b: bool): seq<bool>
    requires FitsIn(f, |word|)
  {
    SetField(word, f, if b then 1 else 0)
  }

  /** A one-bit field reads as its single bit. */
  lemma FlagIsBit(word: seq<bool>, f: Field)
    requires FitsIn(f, |word|) && f.width == 1
    ensures GetFlag(word, f) == word[f.offset]
  {
    assert word[f.offset..f.offset + 1][1..] == [];
  }

  /** Reading a field after setting it yields the value masked to its width. */
  lemma GetAfterSet(word: seq<bool>, f: Field, v: nat)
    requires FitsIn(f, |word|)
    ensures GetField(SetField(word, f, v), f) == v % Pow2(f.width) == And(v, Pow2(f.width) - 1)
  {
    assert SetField(word, f, v)[f.offset..f.offset + f.width] == ToBits(v, f.width);
    FromToBits(v, f.width);
    AndLowMask(v, f.width);
  }

  /** Setting a field to the value it holds changes nothing. */
  lemma SetToGet(word: seq<bool>, f: Field)
    requires FitsIn(f, |word|)
    ensures SetField(word, f, GetField(word, f)) == word
  {
    ToFromBits(word[f.offset..f.offset + f.width]);
    assert word == word[..f.offset] + word[f.offset..f.offset + f.width] + word[f.offset + f.width..];
  }

  /** A second set of the same field overrides the first. */
  lemma SetTwice(word: seq<bool>, f: Field, v: nat, u: nat)
    requires FitsIn(f, |word|)
    ensures SetField(SetField(word, f, v), f, u) == SetField(word, f, u)
  {
    var w1 := SetField(word, f, v);
    assert w1[..f.offset] == word[..f.offset];
    assert w1[f.offset + f.width..] == word[f.offset + f.width..];
  }

  /** A set changes no bit outside its field. */
  lemma SetKeepsOutside(word: seq<bool>, f: Field, v: nat, i: nat)
    requires FitsIn(f, |word|) && i < |word| && (i < f.offset || f.offset + f.width <= i)
    ensures SetField(word, f, v)[i] == word[i]
  {
  }

  // ------------------------------------------------------------- layouts

  /** The fields of `layout` lie side by side from bit `start` up to bit `end`,
      in order. */
  predicate Packed(layout: seq<Field>, start: nat, end: nat)
    decreases |layout|
  {
    if layout == [] then start == end
    else layout[0].offset == start && Packed(layout[1..], start + layout[0].width, end)
  }

  lemma PackedCons(f: Field, rest: seq<Field>, start: nat, end: nat)
    requires f.offset == start && Packed(rest, start + f.width, end)
    ensures Packed([f] + rest, start, end)
  {
    assert ([f] + rest)[1..] == rest;
  }

  /** Every field of a packed layout lies within `[start, end)`. */
  lemma {:induction false} PackedInside(layout: seq<Field>, start: nat, end: nat, k: nat)
    requires Packed(layout, start, end) && k < |layout|
    ensures start <= layout[k].offset && layout[k].offset + layout[k].width <= end
    decreases |layout|
  {
    if k > 0 {
      PackedInside(layout[1..], start + layout[0].width, end, k - 1);
    } else if |layout| > 1 {
      PackedInside(layout[1..], start + layout[0].width, end, 0);
    } else {
      assert layout[1..] == [];
    }
  }

  /** The values of all the fields of `layout` in `word`, in layout order. */
  function View(word: seq<bool>, layout: seq<Field>, start: nat): seq<nat>
    requires Packed(layout, start, |word|)
    decreases |layout|
  {
    if layout == [] then []
    else
      PackedInside(layout, start, |word|, 0);
      [GetField(word, layout[0])] + View(word, layout[1..], start + layout[0].width)
  }

  lemma {:induction false} ViewLength(word: seq<bool>, layout: seq<Field>, start: nat)
    requires Packed(layout, start, |word|)
    ensures |View(word, layout, start)| == |layout|
    decreases |layout|
  {
    if layout != [] {
      ViewLength(word, layout[1..], start + layout[0].width);
    }
  }

  /** Entry k of the view is the value of field k. */
  lemma {:induction false} ViewAt(word: seq<bool>, layout: seq<Field>, start: nat, k: nat)
    requires Packed(layout, start, |word|) && k < |layout|
    ensures FitsIn(layout[k], |word|)
    ensures |View(word, layout, start)| == |layout|
    ensures View(word, layout, start)[k] == GetField(word, layout[k])
    decreases |layout|
  {
    PackedInside(layout, start, |word|, k);
    ViewLength(word, layout, start);
    if k > 0 {
      ViewAt(word, layout[1..], start + layout[0].width, k - 1);
    }
  }

  lemma {:induction false} ZerosAreFalse(n: nat, i: nat)
    requires i < n
    ensures !ToBits(0, n)[i]
    decreases n
  {
    if i > 0 {
      ZerosAreFalse(n - 1, i - 1);
    }
  }

  /** Every field of the all-zero struct reads 0. */
  lemma GetZero(n: nat, f: Field)
    requires FitsIn(f, n)
    ensures GetField(ToBits(0, n), f) == 0
  {
    forall i | 0 <= i < f.width ensures ToBits(0, n)[f.offset..f.offset + f.width][i] == ToBits(0, f.width)[i] {
      ZerosAreFalse(n, f.offset + i);
      ZerosAreFalse(f.width, i);
    }
    assert ToBits(0, n)[f.offset..f.offset + f.width] == ToBits(0, f.width);
    FromZeros(f.width);
  }

  /** Two structs that agree from bit `start` on have the same view of a
      layout packed from `start`. */
  lemma {:induction false} ViewFrame(word: seq<bool>, word': seq<bool>, layout: seq<Field>, start: nat)
    requires |word| == |word'| && Packed(layout, start, |word|)
    requires forall i :: start <= i < |word| ==> word[i] == word'[i]
    ensures View(word, layout, start) == View(word', layout, start)
    decreases |layout|
  {
    if layout != [] {
      PackedInside(layout, start, |word|, 0);
      var f := layout[0];
      assert word[f.offset..f.offset + f.width] == word'[f.offset..f.offset + f.width];
      ViewFrame(word, word', layout[1..], start + f.width);
    }
  }

  /** Writing field `k` of a packed layout changes that field's view, to the
      written value truncated to the field's width, and leaves every other
      field's view as it was. */
  lemma {:induction false} SetInView(word: seq<bool>, layout: seq<Field>, start: nat, k: nat, v: nat, m: nat)
    requires Packed(layout, start, |word|) && k < |layout| && Masked(v, layout[k].width, m)
    ensures FitsIn(layout[k], |word|)
    ensures |View(word, layout, start)| == |layout|
    ensures View(SetField(word, layout[k], v), layout, start) == View(word, layout, start)[k := m]
    decreases |layout|
  {
    PackedInside(layout, start, |word|, k);
    PackedInside(layout, start, |word|, 0);
    ViewLength(word, layout, start);
    var f := layout[0];
    var w' := SetField(word, layout[k], v);
    if k == 0 {
      GetAfterSetMasked(word, f, v, m);
      forall i | start + f.width <= i < |word| ensures word[i] == w'[i] {
        SetKeepsOutside(word, f, v, i);
      }
      ViewFrame(word, w', layout[1..], start + f.width);
    } else {
      PackedInside(layout[1..], start + f.width, |word|, k - 1);
      assert layout[1..][k - 1] == layout[k];
      SetKeepsEarlier(word, f, layout[k], v);
      SetInView(word, layout[1..], start + f.width, k - 1, v, m);
    }
  }

  /** `GetAfterSet` with the truncated value named. */
  lemma GetAfterSetMasked(word: seq<bool>, f: Field, v: nat, m: nat)
    requires FitsIn(f, |word|) && Masked(v, f.width, m)
    ensures GetField(SetField(word, f, v), f) == m
  {
    GetAfterSet(word, f, v);
  }

  /** Writing a field leaves a field that ends before it unchanged. */
  lemma SetKeepsEarlier(word: seq<bool>, f: Field, g: Field, v: nat)
    requires FitsIn(f, |word|) && FitsIn(g, |word|) && f.offset + f.width <= g.offset
    ensures GetField(SetField(word, g, v), f) == GetField(word, f)
  {
    var w' := SetField(word, g, v);
    assert w'[f.offset..f.offset + f.width] == word[f.offset..f.offset + f.width] by {
      forall i | f.offset <= i < f.offset + f.width ensures w'[i] == word[i] {
        SetKeepsOutside(word, g, v, i);
      }
    }
  }


  /** `m` is what a `w`-bit field keeps of `v`: its low `w` bits. */
  ghost predicate Masked(v: nat, w: nat, m: nat)
  {
    m == v % Pow2(w)
  }

  /** A value that already fits its field is stored unchanged. */
  lemma MaskedFits(v: nat, w: nat)
    requires w in {1, 8, 32, 64} && v < Pow2Of(w)
    ensures Masked(v, w, v)
  {
    Pow2Values();
  }

  /** A wider value loses all but its low `w` bits. */
  lemma MaskedWraps(v: nat, w: nat)
    requires w in {2, 3, 5, 24}
    ensures Masked(v, w, v % Pow2Of(w))
  {
    Pow2Values();
  }

  /** `Pow2` on the field widths that occur in the descriptors. */
  function Pow2Of(w: nat): (r: nat)
    requires w in {1, 2, 3, 5, 8, 24, 32, 64}
    ensures r == Pow2(w)
  {
    Pow2Values();
    if w == 1 then 2 else if w == 2 then 4 else if w == 3 then 8 else if w == 5 then 32
    else if w == 8 then 0x100 else if w == 24 then 0x100_0000
    else if w == 32 then 0x1_0000_0000 else 0x1_0000_0000_0000_0000
  }

  // ------------------------------------------------------- common head

  /** `RingBufDescCommonHead`, 16 bits. */
  const OP_CODE := Field(0, 8)
  const IS_EXTENDED_OP_CODE := Field(8, 1)
  const RESERVED0 := Field(9, 5)
  const HAS_NEXT := Field(14, 1)
  const VALID := Field(15, 1)
  const HEAD_LAYOUT := [OP_CODE, IS_EXTENDED_OP_CODE, RESERVED0, HAS_NEXT, VALID]
  const HEAD_BITS: nat := 16

  lemma HeadPacked()
    ensures Packed(HEAD_LAYOUT, 0, HEAD_BITS)
  {
    PackedCons(VALID, [], 15, 16);
    PackedCons(HAS_NEXT, [VALID], 14, 16);
    PackedCons(RESERVED0, [HAS_NEXT, VALID], 9, 16);
    PackedCons(IS_EXTENDED_OP_CODE, [RESERVED0, HAS_NEXT, VALID], 8, 16);
    PackedCons(OP_CODE, [IS_EXTENDED_OP_CODE, RESERVED0, HAS_NEXT, VALID], 0, 16);
  }

  /** `RingBufDescCommonHead::new_with_op_code`: starting from the all-zero
      head, set the op code, then the valid bit. */
  method NewWithOpCode(opCode: u8) returns (head: seq<bool>)
    ensures |head| == HEAD_BITS
    ensures Packed(HEAD_LAYOUT, 0, |head|)
    ensures View(head, HEAD_LAYOUT, 0) == [opCode, 0, 0, 0, 1]
  {
    HeadPacked();
    head := ToBits(0, HEAD_BITS);
    ghost var zero := head;
    assert View(zero, HEAD_LAYOUT, 0) == [0, 0, 0, 0, 0] by {
      ViewLength(zero, HEAD_LAYOUT, 0);
      forall k | 0 <= k < 5 ensures View(zero, HEAD_LAYOUT, 0)[k] == 0 {
        ViewAt(zero, HEAD_LAYOUT, 0, k);
        GetZero(HEAD_BITS, HEAD_LAYOUT[k]);
      }
    }
    MaskedFits(opCode, 8);
    SetInView(zero, HEAD_LAYOUT, 0, 0, opCode, opCode);
    head := SetField(head, OP_CODE, opCode);
    ghost var withOp := head;
    assert View(withOp, HEAD_LAYOUT, 0) == [opCode, 0, 0, 0, 0];
    MaskedFits(1, 1);
    SetInView(withOp, HEAD_LAYOUT, 0, 4, 1, 1);
    head := SetFlag(head, VALID, true);
  }

  /** `RingBufDescUntyped`: 30 bytes of descriptor-specific data, then the head. */
  datatype RingBufDescUntyped = RingBufDescUntyped(rest: seq<u8>, head: seq<bool>) {
    ghost predicate WellFormed() {
      |rest| == 30 && |head| == HEAD_BITS
    }

    /** `is_valid`: the head's valid bit, its most significant one. */
    function IsValid(): (r: bool)
      requires |head| == HEAD_BITS
      ensures r == head[15]
    {
      FlagIsBit(head, VALID);
      GetFlag(head, VALID)
    }
  }

  /** An untyped descriptor and a meta-report descriptor are both DESC_SIZE bytes. */
  lemma DescSizes(d: RingBufDescUntyped)
    requires d.WellFormed()
    ensures |d.rest| + HEAD_BITS / 8 == DESC_SIZE
    ensures 4 * 64 / 8 == DESC_SIZE
  {
  }

  // ------------------------------------------- BTH/RETH meta report

  /** Chunk 0: expected PSN, request status, and the BTH `trans`, `opcode`, `dqpn`. */
  const EXPECTED_PSN := Field(0, 24)
  const REQ_STATUS := Field(24, 8)
  const TRANS := Field(32, 3)
  const OPCODE := Field(35, 5)
  const DQPN := Field(40, 24)
  const CHUNK0 := [EXPECTED_PSN, REQ_STATUS, TRANS, OPCODE, DQPN]

  /** Chunk 1: the BTH `psn`, `solicited`, `ack_req`, `pad_cnt`, and the RETH `rkey`. */
  const PSN := Field(0, 24)
  const SOLICITED := Field(24, 1)
  const ACK_REQ := Field(25, 1)
  const PAD_CNT := Field(26, 2)
  const RESERVED1 := Field(28, 4)
  const RKEY := Field(32, 32)
  const CHUNK1 := [PSN, SOLICITED, ACK_REQ, PAD_CNT, RESERVED1, RKEY]

  /** Chunk 2: the RETH virtual address. */
  const VA := Field(0, 64)
  const CHUNK2 := [VA]

  /** Chunk 3: the RETH DMA length, the MSN and the auto-ack flag. */
  const DLEN := Field(0, 32)
  const MSN := Field(32, 24)
  const RESERVED := Field(56, 7)
  const CAN_AUTO_ACK := Field(63, 1)
  const CHUNK3 := [DLEN, MSN, RESERVED, CAN_AUTO_ACK]

  const CHUNK_BITS: nat := 64

  /** Each chunk's fields fill its 64 bits exactly, in declaration order. */
  lemma ChunksPacked()
    ensures Packed(CHUNK0, 0, CHUNK_BITS) && Packed(CHUNK1, 0, CHUNK_BITS)
    ensures Packed(CHUNK2, 0, CHUNK_BITS) && Packed(CHUNK3, 0, CHUNK_BITS)
  {
    PackedCons(DQPN, [], 40, 64);
    PackedCons(OPCODE, [DQPN], 35, 64);
    PackedCons(TRANS, [OPCODE, DQPN], 32, 64);
    PackedCons(REQ_STATUS, [TRANS, OPCODE, DQPN], 24, 64);
    PackedCons(EXPECTED_PSN, [REQ_STATUS, TRANS, OPCODE, DQPN], 0, 64);

    PackedCons(RKEY, [], 32, 64);
    PackedCons(RESERVED1, [RKEY], 28, 64);
    PackedCons(PAD_CNT, [RESERVED1, RKEY], 26, 64);
    PackedCons(ACK_REQ, [PAD_CNT, RESERVED1, RKEY], 25, 64);
    PackedCons(SOLICITED, [ACK_REQ, PAD_CNT, RESERVED1, RKEY], 24, 64);
    PackedCons(PSN, [SOLICITED, ACK_REQ, PAD_CNT, RESERVED1, RKEY], 0, 64);

    PackedCons(VA, [], 0, 64);

    PackedCons(CAN_AUTO_ACK, [], 63, 64);
    PackedCons(RESERVED, [CAN_AUTO_ACK], 56, 64);
    PackedCons(MSN, [RESERVED, CAN_AUTO_ACK], 32, 64);
    PackedCons(DLEN, [MSN, RESERVED, CAN_AUTO_ACK], 0, 64);
  }

  /** The field values of a chunk-0 word. */
  function ChunkView0(c: seq<bool>): (r: seq<nat>)
    requires |c| == CHUNK_BITS
    ensures |r| == 5
  {
    ChunksPacked();
    ViewLength(c, CHUNK0, 0);
    View(c, CHUNK0, 0)
  }

  /** Writing field `k` of chunk 0 changes that field, to `v` truncated to its width, and no other. */
  lemma SetChunk0(c: seq<bool>, k: nat, v: nat, m: nat)
    requires |c| == CHUNK_BITS && k < |CHUNK0| && Masked(v, CHUNK0[k].width, m)
    ensures FitsIn(CHUNK0[k], |c|)
    ensures ChunkView0(SetField(c, CHUNK0[k], v)) == ChunkView0(c)[k := m]
  {
    ChunksPacked();
    SetInView(c, CHUNK0, 0, k, v, m);
  }

  /** The field values of a chunk-1 word. */
  function ChunkView1(c: seq<bool>): (r: seq<nat>)
    requires |c| == CHUNK_BITS
    ensures |r| == 6
  {
    ChunksPacked();
    ViewLength(c, CHUNK1, 0);
    View(c, CHUNK1, 0)
  }

  /** Writing field `k` of chunk 1 changes that field, to `v` truncated to its width, and no other. */
  lemma SetChunk1(c: seq<bool>, k: nat, v: nat, m: nat)
    requires |c| == CHUNK_BITS && k < |CHUNK1| && Masked(v, CHUNK1[k].width, m)
    ensures FitsIn(CHUNK1[k], |c|)
    ensures ChunkView1(SetField(c, CHUNK1[k], v)) == ChunkView1(c)[k := m]
  {
    ChunksPacked();
    SetInView(c, CHUNK1, 0, k, v, m);
  }

  /** The field values of a chunk-2 word. */
  function ChunkView2(c: seq<bool>): (r: seq<nat>)
    requires |c| == CHUNK_BITS
    ensures |r| == 1
  {
    ChunksPacked();
    ViewLength(c, CHUNK2, 0);
    View(c, CHUNK2, 0)
  }

  /** Writing field `k` of chunk 2 changes that field, to `v` truncated to its width, and no other. */
  lemma SetChunk2(c: seq<bool>, k: nat, v: nat, m: nat)
    requires |c| == CHUNK_BITS && k < |CHUNK2| && Masked(v, CHUNK2[k].width, m)
    ensures FitsIn(CHUNK2[k], |c|)
    ensures ChunkView2(SetField(c, CHUNK2[k], v)) == ChunkView2(c)[k := m]
  {
    ChunksPacked();
    SetInView(c, CHUNK2, 0, k, v, m);
  }

  /** The field values of a chunk-3 word. */
  function ChunkView3(c: seq<bool>): (r: seq<nat>)
    requires |c| == CHUNK_BITS
    ensures |r| == 4
  {
    ChunksPacked();
    ViewLength(c, CHUNK3, 0);
    View(c, CHUNK3, 0)
  }

  /** Writing field `k` of chunk 3 changes that field, to `v` truncated to its width, and no other. */
  lemma SetChunk3(c: seq<bool>, k: nat, v: nat, m: nat)
    requires |c| == CHUNK_BITS && k < |CHUNK3| && Masked(v, CHUNK3[k].width, m)
    ensures FitsIn(CHUNK3[k], |c|)
    ensures ChunkView3(SetField(c, CHUNK3[k], v)) == ChunkView3(c)[k := m]
  {
    ChunksPacked();
    SetInView(c, CHUNK3, 0, k, v, m);
  }

  /** `MetaReportQueueDescBthReth`: four 64-bit bitfield chunks. */
  class MetaReportQueueDescBthReth {
    var c0: seq<bool>
    var c1: seq<bool>
    var c2: seq<bool>
    var c3: seq<bool>

    ghost predicate Valid()
      reads this
    {
      |c0| == CHUNK_BITS && |c1| == CHUNK_BITS && |c2| == CHUNK_BITS && |c3| == CHUNK_BITS
    }

    /** A descriptor built from four raw 64-bit chunks. */
    constructor (c0: seq<bool>, c1: seq<bool>, c2: seq<bool>, c3: seq<bool>)
      requires |c0| == CHUNK_BITS && |c1| == CHUNK_BITS && |c2| == CHUNK_BITS && |c3| == CHUNK_BITS
      ensures Valid() && this.c0 == c0 && this.c1 == c1 && this.c2 == c2 && this.c3 == c3
    {
      this.c0, this.c1, this.c2, this.c3 := c0, c1, c2, c3;
    }

    function ExpectedPsn(): (r: u32) reads this requires Valid() ensures r < 0x100_0000
    { assert Pow2(EXPECTED_PSN.width) == Pow2Of(24); GetField(c0, EXPECTED_PSN) }
    function ReqStatus(): (r: u8) reads this requires Valid()
    { assert Pow2(REQ_STATUS.width) == Pow2Of(8); GetField(c0, REQ_STATUS) }
    function Trans(): (r: u8) reads this requires Valid() ensures r < 8
    { assert Pow2(TRANS.width) == Pow2Of(3); GetField(c0, TRANS) }
    function Opcode(): (r: u8) reads this requires Valid() ensures r < 32
    { assert Pow2(OPCODE.width) == Pow2Of(5); GetField(c0, OPCODE) }
    function Dqpn(): (r: u32) reads this requires Valid() ensures r < 0x100_0000
    { assert Pow2(DQPN.width) == Pow2Of(24); GetField(c0, DQPN) }
    function Psn(): (r: u32) reads this requires Valid() ensures r < 0x100_0000
    { assert Pow2(PSN.width) == Pow2Of(24); GetField(c1, PSN) }
    function Solicited(): bool reads this requires Valid()
    { GetFlag(c1, SOLICITED) }
    function AckReq(): bool reads this requires Valid()
    { GetFlag(c1, ACK_REQ) }
    function PadCnt(): (r: u8) reads this requires Valid() ensures r < 4
    { assert Pow2(PAD_CNT.width) == Pow2Of(2); GetField(c1, PAD_CNT) }
    function Rkey(): (r: u32) reads this requires Valid()
    { assert Pow2(RKEY.width) == Pow2Of(32); GetField(c1, RKEY) }
    function Va(): (r: u64) reads this requires Valid()
    { assert Pow2(VA.width) == Pow2Of(64); GetField(c2, VA) }
    function Dlen(): (r: u32) reads this requires Valid()
    { assert Pow2(DLEN.width) == Pow2Of(32); GetField(c3, DLEN) }
    function Msn(): (r: u32) reads this requires Valid() ensures r < 0x100_0000
    { assert Pow2(MSN.width) == Pow2Of(24); GetField(c3, MSN) }
    function CanAutoAck(): bool reads this requires Valid()
    { GetFlag(c3, CAN_AUTO_ACK) }

    /** The values of all fields of chunk 0..3, in declaration order. */
    function View0(): seq<nat> reads this requires Valid() { ChunkView0(c0) }
    function View1(): seq<nat> reads this requires Valid() { ChunkView1(c1) }
    function View2(): seq<nat> reads this requires Valid() { ChunkView2(c2) }
    function View3(): seq<nat> reads this requires Valid() { ChunkView3(c3) }

    method SetExpectedPsn(val: u32)
      requires Valid()
      modifies this
      ensures Valid()
      ensures ChunkView0(c0) == ChunkView0(old(c0))[0 := val % 0x100_0000]
      ensures c1 == old(c1) && c2 == old(c2) && c3 == old(c3)
    {
      MaskedWraps(val, 24);
      SetChunk0(c0, 0, val, val % 0x100_0000);
      c0 := SetField(c0, EXPECTED_PSN, val);
    }

    method SetReqStatus(val: u8)
      requires Valid()
      modifies this
      ensures Valid()
      ensures ChunkView0(c0) == ChunkView0(old(c0))[1 := val]
      ensures c1 == old(c1) && c2 == old(c2) && c3 == old(c3)
    {
      MaskedFits(val, 8);
      SetChunk0(c0, 1, val, val);
      c0 := SetField(c0, REQ_STATUS, val);
    }

    method SetTrans(val: u8)
      requires Valid()
      modifies this
      ensures Valid()
      ensures ChunkView0(c0) == ChunkView0(old(c0))[2 := val % 8]
      ensures c1 == old(c1) && c2 == old(c2) && c3 == old(c3)
    {
      MaskedWraps(val, 3);
      SetChunk0(c0, 2, val, val % 8);
      c0 := SetField(c0, TRANS, val);
    }

    method SetOpcode(val: u8)
      requires Valid()
      modifies this
      ensures Valid()
      ensures ChunkView0(c0) == ChunkView0(old(c0))[3 := val % 32]
      ensures c1 == old(c1) && c2 == old(c2) && c3 == old(c3)
    {
      MaskedWraps(val, 5);
      SetChunk0(c0, 3, val, val % 32);
      c0 := SetField(c0, OPCODE, val);
    }

    method SetDqpn(val: u32)
      requires Valid()
      modifies this
      ensures Valid()
      ensures ChunkView0(c0) == ChunkView0(old(c0))[4 := val % 0x100_0000]
      ensures c1 == old(c1) && c2 == old(c2) && c3 == old(c3)
    {
      MaskedWraps(val, 24);
      SetChunk0(c0, 4, val, val % 0x100_0000);
      c0 := SetField(c0, DQPN, val);
    }

    method SetPsn(val: u32)
      requires Valid()
      modifies this
      ensures Valid()
      ensures ChunkView1(c1) == ChunkView1(old(c1))[0 := val % 0x100_0000]
      ensures c0 == old(c0) && c2 == old(c2) && c3 == old(c3)
    {
      MaskedWraps(val, 24);
      SetChunk1(c1, 0, val, val % 0x100_0000);
      c1 := SetField(c1, PSN, val);
    }

    method SetSolicited(val: bool)
      requires Valid()
      modifies this
      ensures Valid()
      ensures ChunkView1(c1) == ChunkView1(old(c1))[1 := if val then 1 else 0]
      ensures c0 == old(c0) && c2 == old(c2) && c3 == old(c3)
    {
      MaskedFits(if val then 1 else 0, 1);
      SetChunk1(c1, 1, if val then 1 else 0, if val then 1 else 0);
      c1 := SetFlag(c1, SOLICITED, val);
    }

    method SetAckReq(val: bool)
      requires Valid()
      modifies this
      ensures Valid()
      ensures ChunkView1(c1) == ChunkView1(old(c1))[2 := if val then 1 else 0]
      ensures c0 == old(c0) && c2 == old(c2) && c3 == old(c3)
    {
      MaskedFits(if val then 1 else 0, 1);
      SetChunk1(c1, 2, if val then 1 else 0, if val then 1 else 0);
      c1 := SetFlag(c1, ACK_REQ, val);
    }

    method SetPadCnt(val: u8)
      requires Valid()
      modifies this
      ensures Valid()
      ensures ChunkView1(c1) == ChunkView1(old(c1))[3 := val % 4]
      ensures c0 == old(c0) && c2 == old(c2) && c3 == old(c3)
    {
      MaskedWraps(val, 2);
      SetChunk1(c1, 3, val, val % 4);
      c1 := SetField(c1, PAD_CNT, val);
    }

    method SetRkey(val: u32)
      requires Valid()
      modifies this
      ensures Valid()
      ensures ChunkView1(c1) == ChunkView1(old(c1))[5 := val]
      ensures c0 == old(c0) && c2 == old(c2) && c3 == old(c3)
    {
      MaskedFits(val, 32);
      SetChunk1(c1, 5, val, val);
      c1 := SetField(c1, RKEY, val);
    }

    method SetVa(val: u64)
      requires Valid()
      modifies this
      ensures Valid()
      ensures ChunkView2(c2) == ChunkView2(old(c2))[0 := val]
      ensures c0 == old(c0) && c1 == old(c1) && c3 == old(c3)
    {
      MaskedFits(val, 64);
      SetChunk2(c2, 0, val, val);
      c2 := SetField(c2, VA, val);
    }

    method SetDlen(val: u32)
      requires Valid()
      modifies this
      ensures Valid()
      ensures ChunkView3(c3) == ChunkView3(old(c3))[0 := val]
      ensures c0 == old(c0) && c1 == old(c1) && c2 == old(c2)
    {
      MaskedFits(val, 32);
      SetChunk3(c3, 0, val, val);
      c3 := SetField(c3, DLEN, val);
    }

    method SetMsn(val: u32)
      requires Valid()
      modifies this
      ensures Valid()
      ensures ChunkView3(c3) == ChunkView3(old(c3))[1 := val % 0x100_0000]
      ensures c0 == old(c0) && c1 == old(c1) && c2 == old(c2)
    {
      MaskedWraps(val, 24);
      SetChunk3(c3, 1, val, val % 0x100_0000);
      c3 := SetField(c3, MSN, val);
    }

    method SetCanAutoAck(val: bool)
      requires Valid()
      modifies this
      ensures Valid()
      ensures ChunkView3(c3) == ChunkView3(old(c3))[3 := if val then 1 else 0]
      ensures c0 == old(c0) && c1 == old(c1) && c2 == old(c2)
    {
      MaskedFits(if val then 1 else 0, 1);
      SetChunk3(c3, 3, if val then 1 else 0, if val then 1 else 0);
      c3 := SetFlag(c3, CAN_AUTO_ACK, val);
    }
  }

  /** A chunk-0 word lists the BTH/RETH header fields in declaration order. */
  lemma ChunkView0Fields(c: seq<bool>)
    requires |c| == CHUNK_BITS
    ensures ChunkView0(c) == [GetField(c, EXPECTED_PSN), GetField(c, REQ_STATUS),
                              GetField(c, TRANS), GetField(c, OPCODE), GetField(c, DQPN)]
  {
    ChunksPacked();
    ViewAt(c, CHUNK0, 0, 0);
    ViewAt(c, CHUNK0, 0, 1);
    ViewAt(c, CHUNK0, 0, 2);
    ViewAt(c, CHUNK0, 0, 3);
    ViewAt(c, CHUNK0, 0, 4);
  }

  /** A chunk-1 word lists `psn`, the two flags, `pad_cnt`, the reserved bits and `rkey`. */
  lemma ChunkView1Fields(c: seq<bool>)
    requires |c| == CHUNK_BITS
    ensures ChunkView1(c) == [GetField(c, PSN), GetField(c, SOLICITED), GetField(c, ACK_REQ),
                              GetField(c, PAD_CNT), GetField(c, RESERVED1), GetField(c, RKEY)]
  {
    ChunksPacked();
    ViewAt(c, CHUNK1, 0, 0);
    ViewAt(c, CHUNK1, 0, 1);
    ViewAt(c, CHUNK1, 0, 2);
    ViewAt(c, CHUNK1, 0, 3);
    ViewAt(c, CHUNK1, 0, 4);
    ViewAt(c, CHUNK1, 0, 5);
  }

  /** A chunk-2 word is the virtual address alone. */
  lemma ChunkView2Fields(c: seq<bool>)
    requires |c| == CHUNK_BITS
    ensures ChunkView2(c) == [GetField(c, VA)]
  {
    ChunksPacked();
    ViewAt(c, CHUNK2, 0, 0);
  }

  /** A chunk-3 word lists `dlen`, `msn`, the reserved bits and `can_auto_ack`. */
  lemma ChunkView3Fields(c: seq<bool>)
    requires |c| == CHUNK_BITS
    ensures ChunkView3(c) == [GetField(c, DLEN), GetField(c, MSN), GetField(c, RESERVED),
                              GetField(c, CAN_AUTO_ACK)]
  {
    ChunksPacked();
    ViewAt(c, CHUNK3, 0, 0);
    ViewAt(c, CHUNK3, 0, 1);
    ViewAt(c, CHUNK3, 0, 2);
    ViewAt(c, CHUNK3, 0, 3);
  }

  /** Each getter reads the field of its name in the chunk views. */
  lemma GettersReadViews(d: MetaReportQueueDescBthReth)
    requires d.Valid()
    ensures d.View0() == [d.ExpectedPsn(), d.ReqStatus(), d.Trans(), d.Opcode(), d.Dqpn()]
    ensures d.View1()[0] == d.Psn() && d.View1()[3] == d.PadCnt() && d.View1()[5] == d.Rkey()
    ensures d.View1()[1] == (if d.Solicited() then 1 else 0) && d.View1()[2] == (if d.AckReq() then 1 else 0)
    ensures d.View2() == [d.Va()]
    ensures d.View3()[0] == d.Dlen() && d.View3()[1] == d.Msn()
    ensures d.View3()[3] == (if d.CanAutoAck() then 1 else 0)
  {
    ChunkView0Fields(d.c0);
    ChunkView1Fields(d.c1);
    ChunkView2Fields(d.c2);
    ChunkView3Fields(d.c3);
    FlagValue(d.c1, SOLICITED);
    FlagValue(d.c1, ACK_REQ);
    FlagValue(d.c3, CAN_AUTO_ACK);
  }
}
