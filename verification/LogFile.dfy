/** `TraceFile` as an object: ten `RingBuf`s over one memory that share one array of counters. */
module LogFile {
  import opened Bytes
  import opened Codes
  import opened Records
  import opened RingState
  import opened RingWriter
  import opened Geometry
  import opened TraceFile

  /** The sizes of a spec whose ring offsets fit an `int`. */
  ghost predicate SpecOk(sizes: seq<nat>) {
    && (forall i :: 0 <= i < |sizes| ==> 1 <= sizes[i])
    && SumTo(sizes, |sizes|) * KB < INT_BOUND
  }

  /** `adjustSizeSpec` with its limit leaves such a spec, also when it has scaled the sizes down to at
      least 1 each; without it, as in `resize`, the caller's sizes may be too large. */
  lemma {:induction false} LimitedSpecOk(sizes: seq<nat>)
    requires |sizes| <= LEVELS && forall i :: 0 <= i < |sizes| ==> 1 <= sizes[i] <= MAX_SIZE
    ensures SpecOk(sizes)
  {
    SumBound(sizes, |sizes|);
  }

  lemma {:induction false} SpecSizes(sizes: seq<nat>, i: nat)
    requires SpecOk(sizes) && i < |sizes|
    ensures SumTo(sizes, i) * KB + sizes[i] * KB <= SumTo(sizes, |sizes|) * KB < INT_BOUND
  {
    SumMono(sizes, i, |sizes|);
  }

  lemma {:induction false} SpecFits(sizes: seq<nat>)
    requires SpecOk(sizes)
    ensures forall i :: 0 <= i < |sizes| ==> 1 <= sizes[i] && sizes[i] * KB < INT_BOUND
  {
    forall i | 0 <= i < |sizes|
      ensures sizes[i] * KB < INT_BOUND
    {
      SpecSizes(sizes, i);
    }
  }

  /** The rings of a file: one memory and one array of counters for all, each ring at its place. */
  ghost predicate Rings(mem: array<byte>, counters: array<Counter>, hdr: nat, sizes: seq<nat>, log: seq<RingBuf>)
    requires |log| <= |sizes|
    reads log
  {
    && (forall i :: 0 <= i < |log| ==> log[i].mem == mem && log[i].counters == counters)
    && (forall i, j :: 0 <= i < j < |log| ==> log[i] != log[j])
    && (forall i :: 0 <= i < |log| ==>
          log[i].buf == LevelStart(hdr, sizes, i) && log[i].bufEnd + TRAILER == log[i].buf + sizes[i] * KB)
  }

  /** One ring of the file. */
  method OpenRing(mem: array<byte>, counters: array<Counter>, hdr: nat, spec: array<nat>, i: nat)
    returns (ring: RingBuf)
    requires SpecOk(spec[..]) && i < spec.Length && LevelStart(hdr, spec[..], spec.Length) <= mem.Length
    requires mem as object != spec
    modifies mem
    ensures fresh(ring) && ring.mem == mem && ring.counters == counters
    ensures ring.buf == LevelStart(hdr, spec[..], i) && ring.bufEnd + TRAILER == ring.buf + spec[i] * KB
    ensures ring.ptr == ring.buf + HEADER
    ensures (SpecSizes(spec[..], i);
      mem[..] == RingState.BufIs(old(mem[..]), LevelStart(hdr, spec[..], i), spec[i] * KB).m)
  {
    hide RingState.BufIs;
    SpecSizes(spec[..], i);
    var levels := AddLevelSizes(spec, i);
    var levelOffset := levels * KB % U32_BOUND;
    assert levelOffset == SumTo(spec[..], i) * KB;
    ring := new RingBuf(mem, counters);
    ring.BufIs(hdr + levelOffset, spec[i] * KB);
  }

  lemma {:induction false} InitNone(m: seq<byte>, hdr: nat, sizes: seq<nat>)
    requires SpecOk(sizes) && LevelStart(hdr, sizes, |sizes|) <= |m|
    ensures (SpecFits(sizes); InitMem(m, hdr, sizes, 0) == m)
  {
    SpecFits(sizes);
  }

  lemma {:induction false} InitStep(m: seq<byte>, hdr: nat, sizes: seq<nat>, i: nat)
    requires SpecOk(sizes) && i < |sizes| && LevelStart(hdr, sizes, |sizes|) <= |m|
    ensures (SpecFits(sizes); SpecSizes(sizes, i);
      var base, size := LevelStart(hdr, sizes, i), sizes[i] * KB;
      InitMem(m, hdr, sizes, i + 1) == RingState.BufIs(InitMem(m, hdr, sizes, i), base, size).m)
  {
    hide RingState.BufIs;
    SpecFits(sizes);
  }

  /** The loop of the constructor: every ring gets its region and the shared counters. */
  method OpenLog(mem: array<byte>, counters: array<Counter>, hdr: nat, spec: array<nat>) returns (log: seq<RingBuf>)
    requires SpecOk(spec[..]) && LevelStart(hdr, spec[..], spec.Length) <= mem.Length
    requires mem as object != spec
    modifies mem
    ensures |log| == spec.Length && fresh(log) && Rings(mem, counters, hdr, spec[..], log)
    ensures forall i :: 0 <= i < |log| ==> log[i].ptr == LevelStart(hdr, spec[..], i) + HEADER
    ensures (SpecFits(spec[..]); mem[..] == InitMem(old(mem[..]), hdr, spec[..], spec.Length))
  {
    hide RingState.BufIs, LevelStart, InitMem, SumTo;
    ghost var sizes, was := spec[..], mem[..];
    SpecFits(sizes);
    InitNone(was, hdr, sizes);
    log := [];
    for i := 0 to spec.Length
      invariant |log| == i && fresh(log) && spec[..] == sizes && Rings(mem, counters, hdr, sizes, log)
      invariant forall k :: 0 <= k < i ==> log[k].ptr == LevelStart(hdr, sizes, k) + HEADER
      invariant mem[..] == InitMem(was, hdr, sizes, i)
    {
      var ring := OpenRing(mem, counters, hdr, spec, i);
      InitStep(was, hdr, sizes, i);
      log := log + [ring];
    }
  }

  class LogFile {
    const mem: array<byte>
    const counters: array<Counter>
    const hdr: nat
    const sizes: seq<nat>
    const log: seq<RingBuf>

    ghost predicate Valid()
      reads log, mem, counters
    {
      && |log| == |sizes| && SpecOk(sizes) && Rings(mem, counters, hdr, sizes, log)
      && forall i {:trigger log[i]} :: 0 <= i < |log| ==> log[i].Valid()
    }

    /** The file as a value. */
    ghost function View(): File
      reads log, mem
    {
      File(mem[..], hdr, sizes, seq(|log|, i reads log requires 0 <= i < |log| => log[i].ptr))
    }

    constructor (mem: array<byte>, counters: array<Counter>, hdr: nat, sizes: seq<nat>, log: seq<RingBuf>)
      ensures this.mem == mem && this.counters == counters && this.hdr == hdr && this.sizes == sizes && this.log == log
    {
      this.mem, this.counters, this.hdr, this.sizes, this.log := mem, counters, hdr, sizes, log;
    }

    lemma {:induction false} RingView(i: nat)
      requires Valid() && i < |log|
      ensures RingAt(View(), i) == log[i].View() && log[i].View().Ready()
    {
      assert log[i].Valid();
    }

    /** A trace statement at a level: one step of the file, and one hit of the counter that all levels
        share. */
    method Trace(level: nat, tsc: nat, id: nat, args: seq<Arg>, maxLen: nat)
      requires Valid() && level < |log| && mem as object != counters && tsc < U64_BOUND
      requires ArgsOk(args) && maxLen < 256 && 13 + |EncodeAll(args, maxLen)| <= MAX_RECORD
      modifies log[level], mem, counters
      ensures Valid()
      ensures var k := id % counters.Length;
        counters[..] == old(counters[..])[k := Hit(old(counters[k]), tsc)]
      ensures RingAt(old(View()), level).Ready()
      ensures View() == FileStep(old(View()), LevelEvent(level,
        if old(counters[id % counters.Length]).Off() then Disabled
        else Event.Trace(Rec(tsc, id, EncodeAll(args, maxLen)))))
    {
      hide EncodeAll, Hit, Step, LevelStart, ArgsOk, SpecOk;
      RingView(level);
      ghost var before := View();
      log[level].Trace(tsc, id, args, maxLen);
      assert forall k :: 0 <= k < |log| && k != level ==> log[k].ptr == before.ptrs[k];
      forall k | 0 <= k < |log|
        ensures log[k].Valid()
      {
        if k != level {
          assert old(log[k].Valid());
        }
      }
    }
  }
}
