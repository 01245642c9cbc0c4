/**
 Kernel capabilities (core/hle/loader/npdm.c): 32-bit descriptors whose type is their number of trailing
 one bits. An enable-system-calls descriptor carries 24 bits of an SVC bitmap and a 3-bit index; the
 parsed bitmap has 64-bit words.
 */
module Npdms {
  import opened Results
  import opened Bytes
  import opened Bits

  const SVC_COUNT: nat := 192
  const SVC_MASK_BITS: nat := 24
  const WORD_BITS: nat := 64
  const MAX_CAPABILITIES: nat := 0x100
  const PADDING: nat := 0xFFFF_FFFF
  const PRIORITY_MAX: nat := 63
  const CORE_MAX: nat := 3

  const THREAD_INFO: nat := 3
  const ENABLE_SYSTEM_CALLS: nat := 4
  const KNOWN_TYPES: set<nat> := {3, 4, 6, 7, 10, 11, 13, 14, 15, 16}

  datatype ThreadInfo = ThreadInfo(lowest: nat, highest: nat, minCore: nat, maxCore: nat)

  // ----- Descriptors -----

  /** The number of trailing one bits, at most 32. */
  ghost predicate IsTrailingOnes(d: nat, n: nat) {
    n <= 32 && (forall k :: 0 <= k < n ==> TestBit(d, k)) && (n < 32 ==> !TestBit(d, n))
  }

  lemma TrailingOnesUnique(d: nat, n: nat, m: nat)
    requires IsTrailingOnes(d, n) && IsTrailingOnes(d, m)
    ensures n == m
  {
  }

  ghost function OnesFrom(d: nat, n: nat): (r: nat)
    requires n <= 32 && forall k :: 0 <= k < n ==> TestBit(d, k)
    ensures IsTrailingOnes(d, r)
    decreases 32 - n
  {
    if n < 32 && TestBit(d, n) then OnesFrom(d, n + 1) else n
  }

  ghost function Kind(d: nat): (n: nat)
    ensures IsTrailingOnes(d, n)
  {
    OnesFrom(d, 0)
  }

  /** trailing_ones. */
  method TrailingOnes(d: nat) returns (count: nat)
    ensures count == Kind(d)
  {
    count := 0;
    while count < 32 && TestBit(d, count)
      invariant count <= 32 && forall k :: 0 <= k < count ==> TestBit(d, k)
    {
      count := count + 1;
    }
    TrailingOnesUnique(d, count, Kind(d));
  }

  function SvcMask(d: nat): nat {
    d / 0x20 % 0x100_0000
  }

  function SvcIndex(d: nat): nat {
    d / 0x2000_0000 % 8
  }

  function ThreadInfoOf(d: nat): ThreadInfo {
    ThreadInfo(d / 0x10 % 0x40, d / 0x400 % 0x40, d / 0x1_0000 % 0x100, d / 0x100_0000 % 0x100)
  }

  predicate ThreadInfoOk(t: ThreadInfo) {
    t.lowest <= PRIORITY_MAX && t.highest <= t.lowest && t.maxCore <= CORE_MAX && t.minCore <= t.maxCore
  }

  /** Descriptor d enables system call n: its index is n / 24 and its mask has bit n % 24. */
  ghost predicate Enables(d: nat, n: nat) {
    d != PADDING && Kind(d) == ENABLE_SYSTEM_CALLS && SvcIndex(d) == n / SVC_MASK_BITS
        && TestBit(d, 5 + n % SVC_MASK_BITS)
  }

  /** Bits below n do not depend on what is added above them. */
  lemma {:induction false} LowBits(w: nat, high: nat, low: nat, n: nat, k: nat)
    requires w == Pow2(n) * high + low && k < n
    ensures TestBit(w, k) <==> TestBit(low, k)
    decreases k
  {
    var p := Pow2(n - 1) * high;
    assert Pow2(n) * high == 2 * p;
    assert w % 2 == low % 2 && w / 2 == p + low / 2;
    if k > 0 {
      LowBits(w / 2, high, low / 2, n - 1, k - 1);
    }
  }

  /** Bit b of the mask field is bit 5 + b of the descriptor. */
  lemma MaskBit(d: nat, b: nat)
    requires b < SVC_MASK_BITS
    ensures TestBit(SvcMask(d), b) <==> TestBit(d, 5 + b)
  {
    Pow2Is24();
    LowBits(d / 0x20, d / 0x20 / 0x100_0000, SvcMask(d), 24, b);
    assert d / 2 / 2 / 2 / 2 / 2 == d / 0x20;
    assert TestBit(d, 5 + b) == TestBit(d / 2, 4 + b) == TestBit(d / 2 / 2, 3 + b);
    assert TestBit(d / 2 / 2, 3 + b) == TestBit(d / 2 / 2 / 2, 2 + b) == TestBit(d / 2 / 2 / 2 / 2, 1 + b);
  }

  lemma Pow2Is24()
    ensures Pow2(24) == 0x100_0000
  {
    assert Pow2(6) == 64;
    assert Pow2(12) == 4096;
    assert Pow2(18) == 64 * Pow2(12);
    assert Pow2(24) == 64 * Pow2(18);
  }

  // ----- Descriptors, built from their fields -----

  lemma LowTestBits(d: nat)
    ensures TestBit(d, 0) <==> d % 2 == 1
    ensures TestBit(d, 1) <==> d / 2 % 2 == 1
    ensures TestBit(d, 2) <==> d / 4 % 2 == 1
    ensures TestBit(d, 3) <==> d / 8 % 2 == 1
    ensures TestBit(d, 4) <==> d / 16 % 2 == 1
  {
    assert Pow2(1) == 2 && Pow2(2) == 4 && Pow2(3) == 8 && Pow2(4) == 2 * Pow2(3);
    TestBitMeans(d, 0, d, 0);
    TestBitMeans(d, 1, d / 2, d % 2);
    TestBitMeans(d, 2, d / 4, d % 4);
    TestBitMeans(d, 3, d / 8, d % 8);
    TestBitMeans(d, 4, d / 16, d % 16);
  }

  /** Four ones and a zero: enable system calls. Three ones and a zero: thread info. */
  lemma KindMeans(d: nat)
    ensures Kind(d) == 4 <==> d % 0x20 == 0x0F
    ensures Kind(d) == 3 <==> d % 0x10 == 0x07
  {
    LowTestBits(d);
    LowFive(d);
    hide Kind, TestBit;
    if d % 0x20 == 0x0F {
      TrailingOnesUnique(d, 4, Kind(d));
    }
    if d % 0x10 == 0x07 {
      TrailingOnesUnique(d, 3, Kind(d));
    }
    assert IsTrailingOnes(d, Kind(d));
  }

  lemma LowFive(d: nat)
    ensures d % 0x20 == 0x0F <==>
              d % 2 == 1 && d / 2 % 2 == 1 && d / 4 % 2 == 1 && d / 8 % 2 == 1 && d / 16 % 2 == 0
    ensures d % 0x10 == 0x07 <==> d % 2 == 1 && d / 2 % 2 == 1 && d / 4 % 2 == 1 && d / 8 % 2 == 0
  {
    Halve(d, 1);
    Halve(d, 2);
    Halve(d, 4);
    Halve(d, 8);
    Halve(d, 16);
    var b0, b1, b2, b3, b4 := d % 2, d / 2 % 2, d / 4 % 2, d / 8 % 2, d / 16 % 2;
    assert d == 32 * (d / 32) + 16 * b4 + 8 * b3 + 4 * b2 + 2 * b1 + b0;
    assert d == 16 * (d / 16) + 8 * b3 + 4 * b2 + 2 * b1 + b0;
    Remainder32(d, d / 32, 16 * b4 + 8 * b3 + 4 * b2 + 2 * b1 + b0);
    Remainder16(d, d / 16, 8 * b3 + 4 * b2 + 2 * b1 + b0);
  }

  lemma Halve(d: nat, p: nat)
    requires p in {1, 2, 4, 8, 16}
    ensures d / p == 2 * (d / (2 * p)) + d / p % 2
  {
  }

  lemma Remainder32(d: nat, q: nat, r: nat)
    requires d == 32 * q + r && r < 32
    ensures d % 32 == r
  {
  }

  lemma Remainder16(d: nat, q: nat, r: nat)
    requires d == 16 * q + r && r < 16
    ensures d % 16 == r
  {
  }

  /**
   Bits 5 to 28 are the mask, bits 29 to 31 the index: such a descriptor enables call n exactly when n is
   in its group of 24 and the mask has that bit.
   */
  lemma EnableDescriptor(mask: nat, index: nat, n: nat)
    requires mask < 0x100_0000 && index < 8
    ensures var d := 0x0F + 0x20 * mask + 0x2000_0000 * index;
            && d < 0x1_0000_0000 && (Enables(d, n) <==> n / 24 == index && TestBit(mask, n % 24))
  {
    hide Kind, TestBit, SvcMask, SvcIndex;
    var d := 0x0F + 0x20 * mask + 0x2000_0000 * index;
    EnableFields(mask, index);
    KindMeans(d);
    MaskBit(d, n % SVC_MASK_BITS);
  }

  lemma EnableFields(mask: nat, index: nat)
    requires mask < 0x100_0000 && index < 8
    ensures var d := 0x0F + 0x20 * mask + 0x2000_0000 * index;
            d % 0x20 == 0x0F && SvcMask(d) == mask && SvcIndex(d) == index && d < 0x1_0000_0000 && d != PADDING
  {
    var d := 0x0F + 0x20 * mask + 0x2000_0000 * index;
    assert d / 0x20 == mask + 0x100_0000 * index;
  }

  /** Bits 4 to 9 are the lowest priority, 10 to 15 the highest, then a byte each for the first and last core. */
  lemma ThreadInfoDescriptor(t: ThreadInfo)
    requires t.lowest < 64 && t.highest < 64 && t.minCore < 256 && t.maxCore < 256
    ensures var d := 0x07 + 0x10 * t.lowest + 0x400 * t.highest + 0x1_0000 * t.minCore + 0x100_0000 * t.maxCore;
            IsThreadInfo(d) && ThreadInfoOf(d) == t && d < 0x1_0000_0000
    ensures ThreadInfoOk(t) <==> t.highest <= t.lowest <= 63 && t.minCore <= t.maxCore <= 3
  {
    hide Kind, ThreadInfoOf;
    var d := 0x07 + 0x10 * t.lowest + 0x400 * t.highest + 0x1_0000 * t.minCore + 0x100_0000 * t.maxCore;
    InfoFields(t);
    KindMeans(d);
  }

  lemma InfoFields(t: ThreadInfo)
    requires t.lowest < 64 && t.highest < 64 && t.minCore < 256 && t.maxCore < 256
    ensures var d := 0x07 + 0x10 * t.lowest + 0x400 * t.highest + 0x1_0000 * t.minCore + 0x100_0000 * t.maxCore;
            d % 0x10 == 0x07 && d < 0x1_0000_0000 && d != PADDING && ThreadInfoOf(d) == t
  {
    var d := 0x07 + 0x10 * t.lowest + 0x400 * t.highest + 0x1_0000 * t.minCore + 0x100_0000 * t.maxCore;
    var cores := t.minCore + 0x100 * t.maxCore;
    var high := t.highest + 0x40 * cores;
    FieldsOf(d, t.lowest, high);
    CoresOf(d / 0x400, t.highest, t.minCore, t.maxCore);
    Shifted(d);
  }

  lemma FieldsOf(d: nat, lowest: nat, high: nat)
    requires d == 0x07 + 0x10 * lowest + 0x400 * high && lowest < 64
    ensures d % 0x10 == 0x07 && d / 0x10 % 0x40 == lowest && d / 0x400 == high
  {
    assert d / 0x10 == lowest + 0x40 * high;
  }

  lemma CoresOf(high: nat, highest: nat, minCore: nat, maxCore: nat)
    requires high == highest + 0x40 * (minCore + 0x100 * maxCore) && highest < 64 && minCore < 256
    ensures high % 0x40 == highest && high / 0x40 % 0x100 == minCore && high / 0x4000 == maxCore
  {
    assert high / 0x40 == minCore + 0x100 * maxCore;
    assert high / 0x4000 == high / 0x40 / 0x100;
  }

  lemma Shifted(d: nat)
    ensures d / 0x1_0000 == d / 0x400 / 0x40 && d / 0x100_0000 == d / 0x400 / 0x4000
  {
  }

  // ----- Lists of descriptors -----

  function Descriptors(bytes: seq<Byte>): (ds: seq<nat>)
    ensures |ds| == |bytes| / 4
    ensures forall i :: 0 <= i < |ds| ==> ds[i] == Word(bytes, 4 * i)
  {
    seq(|bytes| / 4, (i: nat) requires 4 * i + 4 <= |bytes| => Word(bytes, 4 * i))
  }

  ghost predicate IsThreadInfo(d: nat) {
    d != PADDING && Kind(d) == THREAD_INFO
  }

  /** Every descriptor is padding or of a known type; at most one thread info, and that one in bounds. */
  ghost predicate ListOk(ds: seq<nat>) {
    && (forall i :: 0 <= i < |ds| ==> ds[i] == PADDING || Kind(ds[i]) in KNOWN_TYPES)
    && (forall i :: 0 <= i < |ds| && IsThreadInfo(ds[i]) ==> ThreadInfoOk(ThreadInfoOf(ds[i])))
    && (forall i, j :: 0 <= i < j < |ds| ==> !(IsThreadInfo(ds[i]) && IsThreadInfo(ds[j])))
  }

  /** The list in numbers: the known types, one thread info at most, priorities up to 63 and cores up to 3. */
  lemma ListMeans(ds: seq<nat>)
    ensures ListOk(ds) <==>
              && (forall d :: d in ds ==> d == 0xFFFF_FFFF || Kind(d) in {3, 4, 6, 7, 10, 11, 13, 14, 15, 16})
              && (forall d :: d in ds && d != 0xFFFF_FFFF && Kind(d) == 3 ==>
                    var t := ThreadInfoOf(d); t.highest <= t.lowest <= 63 && t.minCore <= t.maxCore <= 3)
              && (forall i, j :: 0 <= i < j < |ds| && Kind(ds[i]) == 3 && Kind(ds[j]) == 3 ==>
                    ds[i] == 0xFFFF_FFFF || ds[j] == 0xFFFF_FFFF)
  {
    hide Kind, ThreadInfoOf;
    forall i | 0 <= i < |ds|
      ensures ds[i] in ds
    {
    }
  }

  /** Some descriptor of the list enables system call n. */
  ghost predicate Listed(ds: seq<nat>, n: nat) {
    exists i :: 0 <= i < |ds| && Enables(ds[i], n)
  }

  /** The bitmap bit of system call n. */
  predicate InMask(words: seq<nat>, n: nat)
    requires |words| == SVC_COUNT / WORD_BITS && n < SVC_COUNT
  {
    TestBit(words[n / WORD_BITS], n % WORD_BITS)
  }

  ghost predicate WordsOk(words: seq<nat>) {
    |words| == SVC_COUNT / WORD_BITS && forall w :: 0 <= w < |words| ==> words[w] < Pow2(WORD_BITS)
  }

  /** Setting the bit of call n is setting that call alone: word and bit number determine it. */
  lemma SetOne(words: seq<nat>, n: nat, m: nat)
    requires WordsOk(words) && n < SVC_COUNT && m < SVC_COUNT
    ensures var words' := words[n / WORD_BITS := SetBit(words[n / WORD_BITS], n % WORD_BITS)];
            WordsOk(words') && (InMask(words', m) <==> m == n || InMask(words, m))
  {
    hide Pow2, TestBit, SetBit;
    SetBound(words[n / WORD_BITS], n % WORD_BITS, WORD_BITS);
    TestSet(words[n / WORD_BITS], n % WORD_BITS, m % WORD_BITS);
  }

  /** The numbers of a descriptor's 24 bits: every call number has one index and one bit, and they all fit. */
  lemma NumberOf(index: nat, bit: nat)
    requires index < 8 && bit < SVC_MASK_BITS
    ensures var n := index * SVC_MASK_BITS + bit;
            n < SVC_COUNT && n / SVC_MASK_BITS == index && n % SVC_MASK_BITS == bit
  {
  }

  // ----- The parsed capabilities -----

  class KernelCapabilities {
    const svcMask: array<nat>
    var threadInfo: Option<ThreadInfo>

    ghost predicate Valid()
      reads svcMask
    {
      svcMask.Length == SVC_COUNT / WORD_BITS && WordsOk(svcMask[..])
    }

    ghost predicate Allows(n: nat)
      requires Valid() && n < SVC_COUNT
      reads svcMask
    {
      InMask(svcMask[..], n)
    }

    constructor ()
      ensures Valid() && threadInfo == None && fresh(svcMask)
      ensures forall n: nat :: n < SVC_COUNT ==> !Allows(n)
    {
      svcMask := new nat[SVC_COUNT / WORD_BITS](_ => 0);
      threadInfo := None;
      new;
      forall n: nat | n < SVC_COUNT
        ensures !Allows(n)
      {
        TestZero(n % WORD_BITS);
      }
    }

    /** apply_thread_info. */
    method ApplyThreadInfo(d: nat) returns (e: Error)
      modifies `threadInfo
      ensures e == if old(threadInfo).None? && ThreadInfoOk(ThreadInfoOf(d)) then Ok else InvalidArgument
      ensures threadInfo == if e == Ok then Some(ThreadInfoOf(d)) else old(threadInfo)
    {
      if threadInfo.Some? {
        return InvalidArgument;
      }
      var t := ThreadInfoOf(d);
      if t.lowest > PRIORITY_MAX || t.highest > PRIORITY_MAX || t.highest > t.lowest {
        return InvalidArgument;
      }
      if t.minCore > CORE_MAX || t.maxCore > CORE_MAX || t.minCore > t.maxCore {
        return InvalidArgument;
      }
      threadInfo := Some(t);
      e := Ok;
    }

    /** apply_system_calls: the range error cannot happen, for 8 indices of 24 bits are 192 calls. */
    method ApplySystemCalls(d: nat) returns (e: Error)
      requires Valid() && d != PADDING && Kind(d) == ENABLE_SYSTEM_CALLS
      modifies svcMask
      ensures Valid() && e == Ok
      ensures forall n: nat :: n < SVC_COUNT ==> (Allows(n) <==> old(Allows(n)) || Enables(d, n))
    {
      hide TestBit, SetBit, WordsOk, Kind, InMask;
      var mask, index := SvcMask(d), SvcIndex(d);
      for bit := 0 to SVC_MASK_BITS
        invariant Valid()
        invariant forall n: nat :: n < SVC_COUNT ==>
                    (InMask(svcMask[..], n) <==>
                       old(InMask(svcMask[..], n)) || (Enables(d, n) && n % SVC_MASK_BITS < bit))
      {
        MaskBit(d, bit);
        NumberOf(index, bit);
        var svc := index * SVC_MASK_BITS + bit;
        ghost var words := svcMask[..];
        if TestBit(mask, bit) {
          if svc >= SVC_COUNT {
            return InvalidArgument;
          }
          SetOne(words, svc, svc);
          forall m: nat | m < SVC_COUNT
            ensures var words' := words[svc / WORD_BITS := SetBit(words[svc / WORD_BITS], svc % WORD_BITS)];
                    WordsOk(words') && (InMask(words', m) <==> m == svc || InMask(words, m))
          {
            SetOne(words, svc, m);
          }
          svcMask[svc / WORD_BITS] := SetBit(svcMask[svc / WORD_BITS], svc % WORD_BITS);
          assert svcMask[..] == words[svc / WORD_BITS := SetBit(words[svc / WORD_BITS], svc % WORD_BITS)];
        }
      }
      e := Ok;
    }

    /**
     parse_capabilities: accepts exactly the well-formed lists, and then allows exactly the calls some
     enable-system-calls descriptor lists.
     */
    method Parse(bytes: seq<Byte>) returns (e: Error)
      requires Valid() && threadInfo == None && forall n: nat :: n < SVC_COUNT ==> !Allows(n)
      modifies this, svcMask
      ensures Valid() && e in {Ok, InvalidArgument}
      ensures e == Ok <==> |bytes| % 4 == 0 && |bytes| / 4 <= MAX_CAPABILITIES && ListOk(Descriptors(bytes))
      ensures e == Ok ==> forall n: nat :: n < SVC_COUNT ==> (Allows(n) <==> Listed(Descriptors(bytes), n))
      ensures e == Ok ==> (threadInfo.Some? <==>
              exists i :: 0 <= i < |bytes| / 4 && IsThreadInfo(Descriptors(bytes)[i]))
      ensures e == Ok ==> forall d :: d in Descriptors(bytes) && IsThreadInfo(d) ==> threadInfo == Some(ThreadInfoOf(d))
    {
      hide TestBit, Kind, InMask, WordsOk, FromLe, ThreadInfoOf, ThreadInfoOk;
      if |bytes| % 4 != 0 {
        return InvalidArgument;
      }
      var count := |bytes| / 4;
      if count > MAX_CAPABILITIES {
        return InvalidArgument;
      }
      ghost var ds := Descriptors(bytes);
      for i := 0 to count
        invariant Valid() && ListOk(ds[..i])
        invariant forall n: nat :: n < SVC_COUNT ==> (Allows(n) <==> Listed(ds[..i], n))
        invariant threadInfo.Some? <==> exists k :: 0 <= k < i && IsThreadInfo(ds[k])
        invariant forall k :: 0 <= k < i && IsThreadInfo(ds[k]) ==> threadInfo == Some(ThreadInfoOf(ds[k]))
      {
        var d := Word(bytes, 4 * i);
        assert d == ds[i];
        ListStep(ds, i);
        ListedStep(ds, i);
        ListPrefix(ds, i + 1);
        if d == PADDING {
          continue;
        }
        var kind := TrailingOnes(d);
        e := Ok;
        if kind == THREAD_INFO {
          e := ApplyThreadInfo(d);
        } else if kind == ENABLE_SYSTEM_CALLS {
          e := ApplySystemCalls(d);
        } else if kind !in KNOWN_TYPES {
          e := InvalidArgument;
        }
        if e != Ok {
          return;
        }
      }
      assert ds[..count] == ds;
      e := Ok;
    }

    /** npdm_svc_allowed. */
    method SvcAllowed(n: nat) returns (allowed: bool)
      requires Valid()
      ensures allowed <==> n < SVC_COUNT && Allows(n)
    {
      if n >= SVC_COUNT {
        return false;
      }
      allowed := TestBit(svcMask[n / WORD_BITS], n % WORD_BITS);
    }
  }

  lemma ListStep(ds: seq<nat>, i: nat)
    requires i < |ds| && ListOk(ds[..i])
    ensures ListOk(ds[..i + 1]) <==>
              || ds[i] == PADDING
              || (Kind(ds[i]) in KNOWN_TYPES
                  && (IsThreadInfo(ds[i]) ==>
                        ThreadInfoOk(ThreadInfoOf(ds[i])) && !exists k :: 0 <= k < i && IsThreadInfo(ds[k])))
  {
    hide Kind, ThreadInfoOk, ThreadInfoOf;
    var before, after := ds[..i], ds[..i + 1];
    assert forall k :: 0 <= k < i ==> after[k] == before[k] == ds[k];
    assert after[i] == ds[i];
  }

  lemma ListedStep(ds: seq<nat>, i: nat)
    requires i < |ds|
    ensures forall n: nat :: Listed(ds[..i + 1], n) <==> Listed(ds[..i], n) || Enables(ds[i], n)
  {
    hide Enables;
    var before, after := ds[..i], ds[..i + 1];
    forall n: nat
      ensures Listed(after, n) <==> Listed(before, n) || Enables(ds[i], n)
    {
      if Listed(before, n) {
        var k :| 0 <= k < i && Enables(before[k], n);
        assert Enables(after[k], n);
      }
      if Enables(ds[i], n) {
        assert Enables(after[i], n);
      }
      if Listed(after, n) {
        var k :| 0 <= k < i + 1 && Enables(after[k], n);
        assert k < i ==> Enables(before[k], n);
      }
    }
  }

  /** A prefix of a well-formed list is well formed. */
  lemma ListPrefix(ds: seq<nat>, i: nat)
    requires i <= |ds|
    ensures ListOk(ds) ==> ListOk(ds[..i])
  {
    hide Kind, ThreadInfoOk, ThreadInfoOf;
  }
}
