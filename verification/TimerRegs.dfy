/**
 Register addressing of the timer module: what its payload check lets through, where the
 access lands, and how the 64-bit counter travels through two 32-bit registers.
*/
module TimerRegs {
  import opened Common
  import Log2
  import M = Memory

  /** Eight 32-bit registers per timer. */
  const REGS_SIZE: nat := 32
  const CURR_LO_REG: nat := 0x14
  const CURR_HI_REG: nat := 0x18
  const MAX_BURST: Depth := 8

  /** The default target size, one word more than the registers take, cut to 32 bits. */
  function TargetSize(timers: nat): Depth { (timers * REGS_SIZE + 4) % TWO32 }

  function VecSize(timers: nat): nat { timers * REGS_SIZE }

  function Refusal(timers: nat, t: M.Request, style: M.Style): Option<M.Status> {
    var len := |t.data|;
    if (t.adr + len) % TWO64 >= TargetSize(timers) || t.adr % 4 != 0 then Some(M.AddressError)
    else if t.byteEnables then Some(M.ByteEnableError)
    else if len % 4 != 0 || (style == M.AT && len > MAX_BURST) then Some(M.BurstError)
    else if t.width < len then Some(M.GenericError)
    else None
  }

  /** Accepted are whole, aligned words that end within the registers (modulo 64 bits), in a burst at most two. */
  lemma AcceptedExactly(timers: nat, t: M.Request, style: M.Style)
    requires timers * 32 + 4 < 0x1_0000_0000
    ensures Refusal(timers, t, style).None? <==>
            t.adr % 4 == 0 && |t.data| % 4 == 0 && (t.adr + |t.data|) % 0x1_0000_0000_0000_0000 <= timers * 32 &&
            !t.byteEnables && |t.data| <= t.width && (style == M.AT ==> |t.data| <= 8)
  {
    var sum := (t.adr + |t.data|) % TWO64;
    DefaultTarget(timers);
    if t.adr % 4 == 0 && |t.data| % 4 == 0 {
      WholeSum(t.adr, |t.data|, sum);
      WordsBelow(sum, timers);
    }
  }

  lemma DefaultTarget(timers: nat)
    requires timers * 32 + 4 < 0x1_0000_0000
    ensures TargetSize(timers) == timers * 32 + 4
  {
  }

  lemma WordsBelow(sum: nat, timers: nat)
    requires sum % 4 == 0
    ensures sum < timers * 32 + 4 <==> sum <= timers * 32
  {
    assert sum == 4 * (sum / 4);
  }

  lemma WholeSum(adr: nat, len: nat, sum: nat)
    requires adr % 4 == 0 && len % 4 == 0 && sum == (adr + len) % TWO64
    ensures sum % 4 == 0
  {
    var q := (adr + len) / TWO64;
    assert sum == adr + len - TWO64 * q;
    assert TWO64 * q == 4 * (TWO64 / 4 * q);
  }

  /** A refused one gets the error of the first reason that applies. */
  lemma RefusedExactly(timers: nat, t: M.Request, style: M.Style)
    requires timers * 32 + 4 < 0x1_0000_0000 && Refusal(timers, t, style).Some?
    ensures var why, len := Refusal(timers, t, style).value, |t.data|;
            var placed := (t.adr + len) % 0x1_0000_0000_0000_0000 < timers * 32 + 4 && t.adr % 4 == 0;
            var whole := len % 4 == 0 && (style == M.AT ==> len <= 8);
            (why == M.AddressError <==> !placed) && (why == M.ByteEnableError <==> placed && t.byteEnables) &&
            (why == M.BurstError <==> placed && !t.byteEnables && !whole) &&
            (why == M.GenericError <==> placed && !t.byteEnables && whole && t.width < len)
  {
  }

  /** The timer an address selects: shifted right by the bits of the register block size, as a 32-bit value. */
  function IndexOf(adr: Addr): nat
    requires Log2.Bits64(32) >= 0
  {
    adr / Log2.Pow2(Log2.Bits64(32)) % TWO32
  }

  /** The register within that timer: the address less the index shifted back, in 32 and 64 bits. */
  function OffsetOf(adr: Addr): Addr
    requires Log2.Bits64(32) >= 0
  {
    (adr - IndexOf(adr) * Log2.Pow2(Log2.Bits64(32)) % TWO32) % TWO64
  }

  lemma BlockShift()
    ensures Log2.Bits64(32) == 5 && Log2.Pow2(5) == 32
  {
    assert Log2.Bits64(2) == 1 && Log2.Bits64(8) == 3;
    assert Log2.Pow2(3) == 8;
  }

  /** No check on addresses is lost to the 32-bit target size. */
  predicate Sized(timers: nat) { timers * REGS_SIZE + 4 < TWO32 }

  /** An access that passes the check stays inside the registers exactly when its end does not wrap around 64 bits. */
  lemma AcceptedInsideExactly(timers: nat, t: M.Request, style: M.Style)
    requires Sized(timers) && Refusal(timers, t, style).None?
    ensures t.adr + |t.data| <= VecSize(timers) <==> t.adr + |t.data| < TWO64
  {
    assert TargetSize(timers) == 32 * timers + 4 && VecSize(timers) == 32 * timers;
    if t.adr + |t.data| < TWO64 {
      assert (t.adr + |t.data|) % TWO64 == t.adr + |t.data|;
      WholeWords(t.adr, |t.data|, timers);
    }
  }

  lemma WholeWords(adr: nat, len: nat, timers: nat)
    requires adr % 4 == 0 && len % 4 == 0 && adr + len < 32 * timers + 4
    ensures adr + len <= 32 * timers
  {
    assert adr == 4 * (adr / 4) && len == 4 * (len / 4);
  }

  /**
   Without wrap-around it splits into index and offset, and selects an existing timer exactly when
   it is not empty at the very end.
  */
  lemma AcceptedSplitsExactly(timers: nat, t: M.Request, style: M.Style)
    requires Sized(timers) && Refusal(timers, t, style).None? && t.adr + |t.data| < TWO64
    ensures Log2.Bits64(32) >= 0 && IndexOf(t.adr) == t.adr / REGS_SIZE && OffsetOf(t.adr) == t.adr % REGS_SIZE
    ensures IndexOf(t.adr) < timers <==> |t.data| > 0 || t.adr != VecSize(timers)
  {
    BlockShift();
    AcceptedInsideExactly(timers, t, style);
    var q := t.adr / REGS_SIZE;
    assert q % TWO32 == q && q * REGS_SIZE % TWO32 == q * REGS_SIZE;
  }

  // ---------------------------------------------------------------- the counter

  function Low(count: nat): nat { count % TWO32 }
  function High(count: nat): nat { count / TWO32 % TWO32 }

  /** A word as four bytes, lowest first. */
  function WordBytes(w: nat): (b: seq<Byte>)
    requires w < TWO32
    ensures |b| == 4
  {
    [w % 256, w / 256 % 256, w / 65536 % 256, w / 16777216 % 256]
  }

  function WordOf(b: seq<Byte>): nat
    requires |b| == 4
  {
    b[0] as int + 256 * (b[1] as int) + 65536 * (b[2] as int) + 16777216 * (b[3] as int)
  }

  lemma WordRoundTrip(w: nat)
    requires w < TWO32
    ensures WordOf(WordBytes(w)) == w
  {
  }

  lemma TwoWords(r: seq<Byte>, at: nat, lo: seq<Byte>, hi: seq<Byte>)
    requires |lo| == 4 && |hi| == 4 && at + 8 <= |r|
    ensures var w := M.Overlay(M.Overlay(r, at + 4, hi), at, lo);
            |w| == |r| && w[at..at + 8] == lo + hi && w[..at] == r[..at] && w[at + 8..] == r[at + 8..]
  {
  }

  /** Two words read at different times name the first count exactly when the upper word has not moved in between. */
  lemma TornReadExactly(first: nat, second: nat)
    requires first <= second < TWO64
    ensures High(second) * TWO32 + Low(first) == first <==> High(first) == High(second)
  {
  }

  class Registers {
    const timers: nat
    var regs: seq<Byte>

    constructor (timers: nat)
      ensures this.timers == timers && |regs| == VecSize(timers)
    {
      this.timers := timers;
      regs := seq(timers * REGS_SIZE, _ => 0);
    }

    method SetWord(at: nat, w: nat)
      requires at + 4 <= |regs| && w < TWO32
      modifies this`regs
      ensures regs == M.Overlay(old(regs), at, WordBytes(w))
    {
      regs := regs[..at] + WordBytes(w) + regs[at + 4..];
    }

    /** A double-word read of the current count: both registers are refreshed, then eight bytes copied out. */
    method ReadCounter(t: M.Request, count: nat) returns (data: seq<Byte>)
      requires Sized(timers) && |regs| == VecSize(timers) && count < TWO64
      requires Refusal(timers, t, M.LT).None? && |t.data| == 8 && t.adr + 8 < TWO64 && t.adr % 32 == 0x14
      modifies this`regs
      ensures |regs| == |old(regs)| && |data| == 8
      ensures WordOf(data[4..]) * TWO32 + WordOf(data[..4]) == count
      ensures data[0] == count % 256 && data[7] == count / 0x100_0000_0000_0000
      ensures regs[..t.adr] == old(regs[..t.adr]) && regs[t.adr + 8..] == old(regs[t.adr + 8..])
    {
      CounterPlace(timers, t);
      CounterWords(regs, t.adr, count);
      RefreshCounter(IndexOf(t.adr) * REGS_SIZE, count);
      data := regs[t.adr..t.adr + 8];
    }

    /** The read actions of the timer whose registers begin at `base`. */
    method RefreshCounter(base: nat, count: nat)
      requires base + REGS_SIZE <= |regs| && count < TWO64
      modifies this`regs
      ensures var at := base + CURR_LO_REG;
              regs == M.Overlay(M.Overlay(old(regs), at + 4, WordBytes(High(count))), at, WordBytes(Low(count)))
    {
      SetWord(base + CURR_HI_REG, High(count));
      SetWord(base + CURR_LO_REG, Low(count));
    }
  }

  lemma CounterPlace(timers: nat, t: M.Request)
    requires Sized(timers) && Refusal(timers, t, M.LT).None? && |t.data| == 8 && t.adr + 8 < TWO64
    requires t.adr % 32 == 0x14
    ensures Log2.Bits64(32) >= 0 && t.adr + 8 <= VecSize(timers)
    ensures IndexOf(t.adr) * REGS_SIZE + CURR_LO_REG == t.adr && (IndexOf(t.adr) + 1) * REGS_SIZE <= VecSize(timers)
  {
    AcceptedInsideExactly(timers, t, M.LT);
    AcceptedSplitsExactly(timers, t, M.LT);
  }

  /** The lowest byte comes first, the highest last. */
  lemma EndBytes(count: nat)
    requires count < TWO64
    ensures WordBytes(Low(count))[0] == count % 256
    ensures WordBytes(High(count))[3] == count / 0x100_0000_0000_0000
  {
    var h, l := count / TWO32, count % TWO32;
    assert count == 0x1_0000_0000 * h + l && h < TWO32;
    LowestByte(h, l);
    HighestByte(h, l);
  }

  lemma LowestByte(h: nat, l: nat)
    ensures (0x1_0000_0000 * h + l) % 256 == l % 256
  {
  }

  lemma HighestByte(h: nat, l: nat)
    requires h < 0x1_0000_0000 && l < 0x1_0000_0000
    ensures (0x1_0000_0000 * h + l) / 0x100_0000_0000_0000 == h / 0x100_0000 == h / 0x100_0000 % 256
  {
    var q, r := h / 0x100_0000, h % 0x100_0000;
    assert h == 0x100_0000 * q + r;
    assert 0x1_0000_0000 * h + l == 0x100_0000_0000_0000 * q + (0x1_0000_0000 * r + l);
  }

  lemma CounterWords(r: seq<Byte>, at: nat, count: nat)
    requires at + 8 <= |r| && count < TWO64
    ensures var w := M.Overlay(M.Overlay(r, at + 4, WordBytes(High(count))), at, WordBytes(Low(count)));
            |w| == |r| && w[..at] == r[..at] && w[at + 8..] == r[at + 8..] &&
            WordOf(w[at..at + 8][4..]) * TWO32 + WordOf(w[at..at + 8][..4]) == count &&
            w[at..at + 8][0] == count % 256 && w[at..at + 8][7] == count / 0x100_0000_0000_0000
  {
    var lo, hi := WordBytes(Low(count)), WordBytes(High(count));
    TwoWords(r, at, lo, hi);
    assert (lo + hi)[4..] == hi && (lo + hi)[..4] == lo;
    WordRoundTrip(Low(count));
    WordRoundTrip(High(count));
    EndBytes(count);
    assert (lo + hi)[0] == lo[0] && (lo + hi)[7] == hi[3];
  }
}
