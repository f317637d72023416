/** The ring-buffer register adaptors of the device: head and tail pointer
    access, and the 64-bit base address kept in two 32-bit registers. */
module Device {
  import opened MachineInt
  import opened Wrappers

  /** Which way a ring buffer carries data (`ToCard` or `ToHost`). */
  datatype Direction = ToCard | ToHost

  /** One attempted CSR access, in the order the device sees them. */
  datatype CsrAccess = Read(addr: nat) | Write(addr: nat, data: u32)

  /** `(lo, hi)` joined as `u64::from(lo) + (u64::from(hi) << 32)`. */
  function JoinBaseAddr(lo: u32, hi: u32): (r: u64)
    ensures r % 0x1_0000_0000 == lo && r / 0x1_0000_0000 == hi
  {
    DivModUnique(lo + hi * 0x1_0000_0000, 0x1_0000_0000, hi, lo);
    lo + hi * 0x1_0000_0000
  }

  /** The low word written by `write_base_addr`: `(p & 0xFFFF_FFFF) as u32`. */
  function LowWord(p: u64): (r: u32)
    ensures r == p % 0x1_0000_0000
  {
    assert Pow2(32) == 0x1_0000_0000 by { Pow2Values(); }
    AndLowMask(p, 32);
    And(p, 0xFFFF_FFFF)
  }

  /** The high word written by `write_base_addr`: `(p >> 32) as u32`. */
  function HighWord(p: u64): (r: u32)
  {
    p / 0x1_0000_0000
  }

  /** Joining the two words `write_base_addr` writes gives back the address. */
  lemma SplitJoin(p: u64)
    ensures JoinBaseAddr(LowWord(p), HighWord(p)) == p
  {
  }

  /** Splitting a joined address gives back its two words. */
  lemma JoinSplit(lo: u32, hi: u32)
    ensures LowWord(JoinBaseAddr(lo, hi)) == lo && HighWord(JoinBaseAddr(lo, hi)) == hi
  {
  }

  /** A register map with the CSR addresses of one ring buffer
      (`DeviceAdaptor + RingBufferCsrAddr`). The device's own `read_csr` and
      `write_csr` are not part of this model; here an access to an address
      in `failing` fails with the error it names, a register never written
      reads as 0, and every attempted access is appended to `log`. */
  class RingCsr {
    var regs: map<nat, u32>
    var log: seq<CsrAccess>
    const failing: map<nat, IoErrorKind>
    const direction: Direction
    const HEAD: nat
    const TAIL: nat
    const BASE_ADDR_LOW: nat
    const BASE_ADDR_HIGH: nat

    constructor (regs: map<nat, u32>, failing: map<nat, IoErrorKind>, direction: Direction,
                 head: nat, tail: nat, baseAddrLow: nat, baseAddrHigh: nat)
      ensures this.regs == regs && this.log == [] && this.failing == failing && this.direction == direction
      ensures HEAD == head && TAIL == tail && BASE_ADDR_LOW == baseAddrLow && BASE_ADDR_HIGH == baseAddrHigh
    {
      this.regs := regs;
      this.log := [];
      this.failing := failing;
      this.direction := direction;
      HEAD, TAIL, BASE_ADDR_LOW, BASE_ADDR_HIGH := head, tail, baseAddrLow, baseAddrHigh;
    }

    /** The value register `addr` holds. */
    function Reg(addr: nat): u32
      reads this
    {
      if addr in regs then regs[addr] else 0
    }

    /** `DeviceAdaptor::read_csr` */
    method ReadCsr(addr: nat) returns (r: Result<u32, IoErrorKind>)
      modifies this
      ensures regs == old(regs) && log == old(log) + [Read(addr)]
      ensures r == if addr in failing then Err(failing[addr]) else Ok(Reg(addr))
    {
      log := log + [Read(addr)];
      if addr in failing {
        return Err(failing[addr]);
      }
      r := Ok(Reg(addr));
    }

    /** `DeviceAdaptor::write_csr` */
    method WriteCsr(addr: nat, data: u32) returns (r: Result<(), IoErrorKind>)
      modifies this
      ensures log == old(log) + [Write(addr, data)]
      ensures r == if addr in failing then Err(failing[addr]) else Ok(())
      ensures regs == if addr in failing then old(regs) else old(regs)[addr := data]
    {
      log := log + [Write(addr, data)];
      if addr in failing {
        return Err(failing[addr]);
      }
      regs := regs[addr := data];
      r := Ok(());
    }

    /** `CsrWriterAdaptor::write_head`, for rings towards the card. */
    method WriteHead(data: u32) returns (r: Result<(), IoErrorKind>)
      requires direction == ToCard
      modifies this
      ensures log == old(log) + [Write(HEAD, data)]
      ensures r == if HEAD in failing then Err(failing[HEAD]) else Ok(())
      ensures regs == if HEAD in failing then old(regs) else old(regs)[HEAD := data]
    {
      r := WriteCsr(HEAD, data);
    }

    /** `CsrWriterAdaptor::read_tail`, for rings towards the card. */
    method ReadTail() returns (r: Result<u32, IoErrorKind>)
      requires direction == ToCard
      modifies this
      ensures regs == old(regs) && log == old(log) + [Read(TAIL)]
      ensures r == if TAIL in failing then Err(failing[TAIL]) else Ok(Reg(TAIL))
    {
      r := ReadCsr(TAIL);
    }

    /** `CsrReaderAdaptor::write_tail`, for rings towards the host. */
    method WriteTail(data: u32) returns (r: Result<(), IoErrorKind>)
      requires direction == ToHost
      modifies this
      ensures log == old(log) + [Write(TAIL, data)]
      ensures r == if TAIL in failing then Err(failing[TAIL]) else Ok(())
      ensures regs == if TAIL in failing then old(regs) else old(regs)[TAIL := data]
    {
      r := WriteCsr(TAIL, data);
    }

    /** `CsrReaderAdaptor::read_head`, for rings towards the host. */
    method ReadHead() returns (r: Result<u32, IoErrorKind>)
      requires direction == ToHost
      modifies this
      ensures regs == old(regs) && log == old(log) + [Read(HEAD)]
      ensures r == if HEAD in failing then Err(failing[HEAD]) else Ok(Reg(HEAD))
    {
      r := ReadCsr(HEAD);
    }

    /** `CsrBaseAddrAdaptor::read_base_addr`: the low register, then (only if
        that read succeeded) the high one, joined. */
    method ReadBaseAddr() returns (r: Result<u64, IoErrorKind>)
      modifies this
      ensures regs == old(regs)
      ensures BASE_ADDR_LOW in failing ==>
        r == Err(failing[BASE_ADDR_LOW]) && log == old(log) + [Read(BASE_ADDR_LOW)]
      ensures BASE_ADDR_LOW !in failing ==> log == old(log) + [Read(BASE_ADDR_LOW), Read(BASE_ADDR_HIGH)]
      ensures BASE_ADDR_LOW !in failing && BASE_ADDR_HIGH in failing ==> r == Err(failing[BASE_ADDR_HIGH])
      ensures BASE_ADDR_LOW !in failing && BASE_ADDR_HIGH !in failing ==>
        r == Ok(JoinBaseAddr(Reg(BASE_ADDR_LOW), Reg(BASE_ADDR_HIGH)))
    {
      var lo := ReadCsr(BASE_ADDR_LOW);
      if lo.Err? {
        return Err(lo.error);
      }
      var hi := ReadCsr(BASE_ADDR_HIGH);
      if hi.Err? {
        return Err(hi.error);
      }
      r := Ok(JoinBaseAddr(lo.value, hi.value));
    }

    /** `CsrBaseAddrAdaptor::write_base_addr`: the low word to the low
        register, then (only if that write succeeded) the high word to the
        high one. */
    method WriteBaseAddr(physAddr: u64) returns (r: Result<(), IoErrorKind>)
      modifies this
      ensures BASE_ADDR_LOW in failing ==>
        && r == Err(failing[BASE_ADDR_LOW]) && regs == old(regs)
        && log == old(log) + [Write(BASE_ADDR_LOW, LowWord(physAddr))]
      ensures BASE_ADDR_LOW !in failing ==>
        log == old(log) + [Write(BASE_ADDR_LOW, LowWord(physAddr)), Write(BASE_ADDR_HIGH, HighWord(physAddr))]
      ensures BASE_ADDR_LOW !in failing && BASE_ADDR_HIGH in failing ==>
        r == Err(failing[BASE_ADDR_HIGH]) && regs == old(regs)[BASE_ADDR_LOW := LowWord(physAddr)]
      ensures BASE_ADDR_LOW !in failing && BASE_ADDR_HIGH !in failing ==>
        r == Ok(()) && regs == old(regs)[BASE_ADDR_LOW := LowWord(physAddr)][BASE_ADDR_HIGH := HighWord(physAddr)]
    {
      r := WriteCsr(BASE_ADDR_LOW, LowWord(physAddr));
      if r.Err? {
        return;
      }
      r := WriteCsr(BASE_ADDR_HIGH, HighWord(physAddr));
    }
  }

  /** On distinct low and high registers, the registers `write_base_addr`
      leaves behind read back, joined, as the address written. */
  lemma BaseAddrRoundTrip(regs: map<nat, u32>, low: nat, high: nat, p: u64)
    requires low != high
    ensures var regs' := regs[low := LowWord(p)][high := HighWord(p)];
      JoinBaseAddr(regs'[low], regs'[high]) == p
  {
    SplitJoin(p);
  }

  /** When the two addresses coincide, the high word overwrites the low
      one, and the address read back is the high word twice over. */
  lemma BaseAddrSameRegister(regs: map<nat, u32>, addr: nat, p: u64)
    ensures var regs' := regs[addr := LowWord(p)][addr := HighWord(p)];
      JoinBaseAddr(regs'[addr], regs'[addr]) == HighWord(p) * 0x1_0000_0001
  {
  }
}
