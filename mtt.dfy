/** The memory translation table's bookkeeping: region validation, the page
    walk of a region, and the `mr_key` map kept beside the table allocator. */
module Mtt {
  import opened MachineInt
  import opened Wrappers

  /** Where a region's page-table entries live in the table. */
  datatype PgtEntry = PgtEntry(index: u32, count: u32)

  // ------------------------------------------------------- region checks

  /** `Mtt::ensure_valid`: a region must not wrap the 64-bit address space,
      must fit a `u32` length, and must not be empty. */
  function EnsureValid(addr: u64, length: u64): (r: Result<(), IoErrorKind>)
    ensures r.Err? <==> addr + length > U64_MAX || length > U32_MAX || length == 0
    ensures r.Err? ==> r.error == InvalidInput
  {
    if U64_MAX - addr < length || length > U32_MAX || length == 0 then Err(InvalidInput) else Ok(())
  }

  /** `(start..end).step_by(step)`, collected. */
  function StepBy(start: nat, end: nat, step: nat): (r: seq<u64>)
    requires step >= 1 && end <= U64_MAX + 1
    ensures |r| == DivCeil(if start < end then end - start else 0, step)
    ensures forall i :: 0 <= i < |r| ==> r[i] == start + i * step && r[i] < end
    decreases end - start
  {
    if start >= end then []
    else
      var rest := StepBy(start + step, end, step);
      assert forall i :: 0 < i < |rest| + 1 ==> ([start] + rest)[i] == rest[i - 1];
      [start] + rest
  }

  /** `Mtt::get_page_start_virt_addrs`: the start of every `pageSize` step
      of the region, or `None` when its end does not fit in a `u64`. */
  function GetPageStartVirtAddrs(addr: u64, length: u64, pageSize: nat): (r: Option<seq<u64>>)
    requires pageSize >= 1
    ensures r.None? <==> addr + length > U64_MAX
    ensures r.Some? ==> |r.value| == DivCeil(length, pageSize)
    ensures r.Some? ==> forall i :: 0 <= i < |r.value| ==>
      r.value[i] == addr + i * pageSize && r.value[i] < addr + length
  {
    if addr + length > U64_MAX then None else Some(StepBy(addr, addr + length, pageSize))
  }

  /** A region that passes `ensure_valid` has a page walk, of at least one
      and at most `length` pages, starting at the region's address. */
  lemma ValidRegionHasPages(addr: u64, length: u64, pageSize: nat)
    requires pageSize >= 1 && EnsureValid(addr, length).Ok?
    ensures var pages := GetPageStartVirtAddrs(addr, length, pageSize);
      pages.Some? && 1 <= |pages.value| <= length && pages.value[0] == addr
  {
    DivCeilAtMost(length, pageSize);
  }

  /** Consecutive page starts are exactly one page apart. */
  lemma PageStartsAreAPageApart(addr: u64, length: u64, pageSize: nat, i: nat)
    requires pageSize >= 1
    requires var pages := GetPageStartVirtAddrs(addr, length, pageSize); pages.Some? && i + 1 < |pages.value|
    ensures var pages := GetPageStartVirtAddrs(addr, length, pageSize).value; pages[i + 1] == pages[i] + pageSize
  {
  }

  // ------------------------------------------------------- the mr_key map

  /** `Alloc::alloc` and `Alloc::dealloc`, whose definitions are not part of
      this model: each takes the allocator's state and returns its new one. */
  type AllocFn<!A> = (A, nat) -> (A, Option<(u32, PgtEntry)>)
  type DeallocFn<!A> = (A, u32, nat, nat) -> (A, bool)

  /** The allocator and the `mr_key` map of an `Mtt`. */
  datatype MttState<A> = MttState(alloc: A, mrkeyMap: map<u32, PgtEntry>)

  /** What `register` leaves behind, returns, and whether its
      `debug_assert!` fired. */
  datatype RegisterStep<A> = RegisterStep(state: MttState<A>, result: Result<(u32, PgtEntry), IoErrorKind>, panicked: bool)

  /** `Mtt::register`. The map insert sits inside a `debug_assert!`, so it
      happens only when `debugAssertions` holds, and the assertion fails
      (after inserting) when the key was already present. */
  function RegisterOn<A>(s: MttState<A>, numPages: nat, allocate: AllocFn<A>, debugAssertions: bool): RegisterStep<A>
  {
    var (alloc', got) := allocate(s.alloc, numPages);
    match got
    case None => RegisterStep(MttState(alloc', s.mrkeyMap), Err(OutOfMemory), false)
    case Some((mrKey, entry)) =>
      if debugAssertions then
        RegisterStep(MttState(alloc', s.mrkeyMap[mrKey := entry]), Ok((mrKey, entry)), mrKey in s.mrkeyMap)
      else
        RegisterStep(MttState(alloc', s.mrkeyMap), Ok((mrKey, entry)), false)
  }

  /** `Mtt::deregister`: the key is removed before `dealloc` is asked, so it
      stays removed when `dealloc` refuses. */
  function DeregisterOn<A>(s: MttState<A>, mrKey: u32, deallocate: DeallocFn<A>): (MttState<A>, Result<(), IoErrorKind>)
  {
    if mrKey !in s.mrkeyMap then (s, Err(InvalidInput))
    else
      var entry := s.mrkeyMap[mrKey];
      var (alloc', ok) := deallocate(s.alloc, mrKey, entry.index, entry.count);
      (MttState(alloc', s.mrkeyMap - {mrKey}), if ok then Ok(()) else Err(InvalidInput))
  }

  /** A failed allocation is `OutOfMemory` and leaves the map alone; a
      successful one is returned as the allocator gave it. */
  lemma RegisterResult<A>(s: MttState<A>, numPages: nat, allocate: AllocFn<A>, debugAssertions: bool)
    ensures var step := RegisterOn(s, numPages, allocate, debugAssertions);
      var got := allocate(s.alloc, numPages).1;
      && step.state.alloc == allocate(s.alloc, numPages).0
      && (got.None? <==> step.result.Err?)
      && (got.None? ==> step.result.error == OutOfMemory && step.state.mrkeyMap == s.mrkeyMap && !step.panicked)
      && (got.Some? ==> step.result.value == got.value)
  {
  }

  /** With debug assertions, a successful registration of a fresh key
      records it, and deregistering that key hands its entry to `dealloc`
      and gives back the map as it was before. */
  lemma DebugRegisterThenDeregister<A>(s: MttState<A>, numPages: nat, allocate: AllocFn<A>, deallocate: DeallocFn<A>)
    requires RegisterOn(s, numPages, allocate, true).result.Ok?
    requires RegisterOn(s, numPages, allocate, true).result.value.0 !in s.mrkeyMap
    ensures var step := RegisterOn(s, numPages, allocate, true);
      var (mrKey, entry) := step.result.value;
      var (s', r) := DeregisterOn(step.state, mrKey, deallocate);
      && !step.panicked
      && step.state.mrkeyMap == s.mrkeyMap[mrKey := entry]
      && s'.mrkeyMap == s.mrkeyMap
      && s'.alloc == deallocate(step.state.alloc, mrKey, entry.index, entry.count).0
      && (r.Ok? <==> deallocate(step.state.alloc, mrKey, entry.index, entry.count).1)
  {
    var step := RegisterOn(s, numPages, allocate, true);
    var (mrKey, entry) := step.result.value;
    assert step.state.mrkeyMap - {mrKey} == s.mrkeyMap;
  }

  /** Without debug assertions a successful registration records nothing,
      so deregistering the key it returned fails with `InvalidInput` and
      `dealloc` is never asked. */
  lemma ReleaseRegisterThenDeregister<A>(s: MttState<A>, numPages: nat, allocate: AllocFn<A>, deallocate: DeallocFn<A>)
    requires RegisterOn(s, numPages, allocate, false).result.Ok?
    requires RegisterOn(s, numPages, allocate, false).result.value.0 !in s.mrkeyMap
    ensures var step := RegisterOn(s, numPages, allocate, false);
      DeregisterOn(step.state, step.result.value.0, deallocate) == (step.state, Err(InvalidInput))
  {
  }

  /** `register` as its authors evidently meant it: the insert is done in
      every build, and only the check that the key was new is a debug
      assertion. */
  function RegisterRecorded<A>(s: MttState<A>, numPages: nat, allocate: AllocFn<A>, debugAssertions: bool): RegisterStep<A>
  {
    var (alloc', got) := allocate(s.alloc, numPages);
    match got
    case None => RegisterStep(MttState(alloc', s.mrkeyMap), Err(OutOfMemory), false)
    case Some((mrKey, entry)) =>
      RegisterStep(MttState(alloc', s.mrkeyMap[mrKey := entry]), Ok((mrKey, entry)),
                   debugAssertions && mrKey in s.mrkeyMap)
  }

  /** In every build, after the corrected `register` of a fresh key,
      deregistering that key finds it, hands its entry to `dealloc`, and
      gives back the map as it was. */
  lemma RecordedRegisterThenDeregister<A>(s: MttState<A>, numPages: nat, allocate: AllocFn<A>,
                                          deallocate: DeallocFn<A>, debugAssertions: bool)
    requires RegisterRecorded(s, numPages, allocate, debugAssertions).result.Ok?
    requires RegisterRecorded(s, numPages, allocate, debugAssertions).result.value.0 !in s.mrkeyMap
    ensures var step := RegisterRecorded(s, numPages, allocate, debugAssertions);
      var (mrKey, entry) := step.result.value;
      var (s', r) := DeregisterOn(step.state, mrKey, deallocate);
      && !step.panicked
      && step.state.mrkeyMap == s.mrkeyMap[mrKey := entry]
      && s'.mrkeyMap == s.mrkeyMap
      && s'.alloc == deallocate(step.state.alloc, mrKey, entry.index, entry.count).0
      && (r.Ok? <==> deallocate(step.state.alloc, mrKey, entry.index, entry.count).1)
  {
    var step := RegisterRecorded(s, numPages, allocate, debugAssertions);
    var (mrKey, entry) := step.result.value;
    assert step.state.mrkeyMap - {mrKey} == s.mrkeyMap;
  }

  /** The corrected `register` is the as-written one with debug assertions
      compiled in. */
  lemma RecordedIsDebugBuild<A>(s: MttState<A>, numPages: nat, allocate: AllocFn<A>, debugAssertions: bool)
    ensures RegisterRecorded(s, numPages, allocate, debugAssertions).state == RegisterOn(s, numPages, allocate, true).state
    ensures RegisterRecorded(s, numPages, allocate, debugAssertions).result == RegisterOn(s, numPages, allocate, debugAssertions).result
  {
  }

  /** Deregistering an unknown key fails with `InvalidInput` and changes
      nothing; a known key is removed whatever `dealloc` answers, and the
      call succeeds exactly when `dealloc` does. */
  lemma DeregisterOutcome<A>(s: MttState<A>, mrKey: u32, deallocate: DeallocFn<A>)
    ensures var (s', r) := DeregisterOn(s, mrKey, deallocate);
      && (mrKey !in s.mrkeyMap ==> s' == s && r == Err(InvalidInput))
      && (mrKey in s.mrkeyMap ==>
            var e := s.mrkeyMap[mrKey];
            && s'.mrkeyMap == s.mrkeyMap - {mrKey}
            && mrKey !in s'.mrkeyMap
            && s'.alloc == deallocate(s.alloc, mrKey, e.index, e.count).0
            && (r.Ok? <==> deallocate(s.alloc, mrKey, e.index, e.count).1)
            && (r.Err? ==> r.error == InvalidInput))
  {
  }

  /** `Mtt`: the table allocator and the map from `mr_key` to its entry. */
  class Mtt<A> {
    var alloc: A
    var mrkeyMap: map<u32, PgtEntry>
    const allocate: AllocFn<A>
    const deallocate: DeallocFn<A>
    /** Whether `debug_assert!` is compiled in. */
    const debugAssertions: bool
    /** Whether `register` does the insert in every build (`RegisterRecorded`)
        rather than as written (`RegisterOn`). */
    const recordInEveryBuild: bool

    /** The `register` this table runs. */
    function RegisterSpec(s: MttState<A>, numPages: nat): RegisterStep<A>
      reads this
    {
      if recordInEveryBuild then RegisterRecorded(s, numPages, allocate, debugAssertions)
      else RegisterOn(s, numPages, allocate, debugAssertions)
    }

    function State(): MttState<A>
      reads this
    {
      MttState(alloc, mrkeyMap)
    }

    /** `Mtt::new`: an empty map beside a fresh allocator `alloc0`
        (`Alloc::new`, whose definition is not part of this model). */
    constructor (alloc0: A, allocate: AllocFn<A>, deallocate: DeallocFn<A>, debugAssertions: bool,
                 recordInEveryBuild: bool)
      ensures State() == MttState(alloc0, map[])
      ensures this.allocate == allocate && this.deallocate == deallocate
      ensures this.debugAssertions == debugAssertions && this.recordInEveryBuild == recordInEveryBuild
    {
      alloc := alloc0;
      mrkeyMap := map[];
      this.allocate := allocate;
      this.deallocate := deallocate;
      this.debugAssertions := debugAssertions;
      this.recordInEveryBuild := recordInEveryBuild;
    }

    /** `Mtt::register`: as written (the insert only inside the
        `debug_assert!`) unless `recordInEveryBuild`; `panicked` is the
        failed `debug_assert!` that the key was new. */
    method Register(numPages: nat) returns (r: Result<(u32, PgtEntry), IoErrorKind>, panicked: bool)
      modifies this
      ensures RegisterStep(State(), r, panicked) == RegisterSpec(old(State()), numPages)
    {
      var (alloc', got) := allocate(alloc, numPages);
      alloc := alloc';
      if got.None? {
        return Err(OutOfMemory), false;
      }
      var (mrKey, entry) := got.value;
      panicked := debugAssertions && mrKey in mrkeyMap;
      if debugAssertions || recordInEveryBuild {
        mrkeyMap := mrkeyMap[mrKey := entry];
      }
      r := Ok((mrKey, entry));
    }

    /** `Mtt::deregister`. */
    method Deregister(mrKey: u32) returns (r: Result<(), IoErrorKind>)
      modifies this
      ensures (State(), r) == DeregisterOn(old(State()), mrKey, deallocate)
    {
      if mrKey !in mrkeyMap {
        return Err(InvalidInput);
      }
      var entry := mrkeyMap[mrKey];
      mrkeyMap := mrkeyMap - {mrKey};
      var (alloc', ok) := deallocate(alloc, mrKey, entry.index, entry.count);
      alloc := alloc';
      if !ok {
        return Err(InvalidInput);
      }
      r := Ok(());
    }
  }
}
