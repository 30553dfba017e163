/**
 The memory target: a byte vector that starts with one element and grows on demand.

 The value-level functions say what one access does, with failed assertions and copies
 that leave the vector made explicit as `Fault`.  The class below updates its vectors in
 place and is proved against them.
*/
module Memory {
  import opened Common

  const KB: int := 1024
  const FILL: Byte := 0xEA

  datatype Command = Read | Write | Ignore
  datatype Style = LT | AT
  datatype Access = Unspecified | RW | RO | WO | RC | RS | W1C | W0C | W1S | W0S | W1T | W0T | RAZ
  datatype Status = Incomplete | Ok | AddressError | ByteEnableError | BurstError | GenericError | CommandError

  /** What a transaction asks for; `data` is the caller's buffer, so its length is the data length. */
  datatype RawRequest = Request(cmd: Command, adr: Addr, data: seq<Byte>, byteEnables: bool, width: Depth)
  type Request = t: RawRequest | |t.data| < 0x1_0000_0000 witness Request(Ignore, 0, [], false, 0)

  datatype Config = Config(target: Depth, access: Access, maxBurst: nat, errorAtTarget: bool)
  datatype State = State(mem: seq<Byte>, used: seq<bool>)

  /** The keys a configuration object holds. */
  datatype Settings = Settings(
    name: Option<string>, kind: Option<string>,
    target: Option<Depth>, access: Option<Access>, maxBurst: Option<nat>)

  const EMPTY: Settings := Settings(None, None, None, None, None)

  /** What a memory works with, and the configuration object it hands out. */
  datatype Device = Device(config: Config, record: Settings)

  /** `Fault`: an assertion of the original failed or a copy left its buffer. */
  datatype Outcome = Fault | Reply(status: Status, data: seq<Byte>)

  // ---------------------------------------------------------------- one access

  /** The first reason to refuse, in the order the code tests them. */
  function Refusal(c: Config, t: Request, len: Depth, style: Style): Option<Status> {
    if (t.adr + len) % TWO64 >= c.target then Some(AddressError)
    else if t.byteEnables then Some(ByteEnableError)
    else if style == AT && c.maxBurst > 0 && len > c.maxBurst then Some(BurstError)
    else if t.width < len then Some(GenericError)
    else if c.access == RO && t.cmd == Write then Some(CommandError)
    else None
  }

  /** A refusal is reported as success when errors are raised at the target instead. */
  function Reported(c: Config, why: Status): Status {
    if c.errorAtTarget then Ok else why
  }

  function Min(a: int, b: int): int { if a < b then a else b }

  /** The new length chosen by the expansion rule: 32-bit arithmetic, then the target size. */
  function GrowTo(c: Config, need: nat): Depth {
    Min((need + KB) % TWO32, c.target)
  }

  /** Expands both vectors if the access needs it; `None` if the resize assertion fails. */
  function Grown(c: Config, m: State, need: nat): Option<State> {
    if |m.mem| >= need then Some(m)
    else if GrowTo(c, need) == 0 then None
    else Some(State(Resized(m.mem, GrowTo(c, need), FILL), Resized(m.used, GrowTo(c, need), false)))
  }

  function Overlay<T>(v: seq<T>, adr: nat, data: seq<T>): seq<T>
    requires adr + |data| <= |v|
  {
    v[..adr] + data + v[adr + |data|..]
  }

  /** Serves an access of `len` bytes that was not refused: expansion, then the copy. */
  function Transport(c: Config, m: State, t: Request, len: Depth): (State, Outcome) {
    var g := Grown(c, m, (t.adr + len) % TWO64);
    if g.None? then (m, Fault) else Copy(g.value, t, len)
  }

  function Copy(g: State, t: Request, len: Depth): (State, Outcome) {
    if t.cmd == Ignore then (g, Reply(Ok, t.data))
    else if t.adr + len > |g.mem| || t.adr + len > |g.used| || len > |t.data| then (g, Fault)
    else if t.cmd == Read then (g, Reply(Ok, g.mem[t.adr..t.adr + len] + t.data[len..]))
    else (State(Overlay(g.mem, t.adr, t.data[..len]), Overlay(g.used, t.adr, Marks(len))), Reply(Ok, t.data))
  }

  function Marks(n: nat): (r: seq<bool>)
    ensures |r| == n && forall i :: 0 <= i < n ==> r[i]
  {
    seq(n, _ => true)
  }

  /** The blocking call (`LT`) or the body of the non-blocking one (`AT`). */
  function Serve(c: Config, m: State, t: Request, style: Style): (State, Outcome) {
    ServeLen(c, m, t, |t.data|, style)
  }

  function ServeLen(c: Config, m: State, t: Request, len: Depth, style: Style): (State, Outcome) {
    var why := Refusal(c, t, len, style);
    if why.Some? then (m, Reply(Reported(c, why.value), t.data)) else Transport(c, m, t, len)
  }

  /** The length a debug access is cut to when it would end beyond the target. */
  function TruncatedLen(c: Config, adr: Addr, len: Depth): Depth {
    var last := (adr + len - 1) % TWO64;
    if last > c.target then (len - (last - c.target)) % TWO32 else len
  }

  /** The vectors brought to the target size; `None` if the resize assertion fails. */
  function Full(c: Config, m: State): Option<State> {
    if |m.mem| == c.target then Some(m)
    else if c.target == 0 then None
    else Some(State(Resized(m.mem, c.target, FILL), Resized(m.used, c.target, false)))
  }

  /** The debug call: brings the vectors to the target size first, then truncates and serves. */
  function ServeDebug(c: Config, m: State, t: Request): (State, Outcome) {
    var full := Full(c, m);
    if full.None? then (m, Fault)
    else if t.cmd == Ignore then (full.value, Reply(Ok, t.data))
    else ServeLen(c, full.value, t, TruncatedLen(c, t.adr, |t.data|), LT)
  }

  function First<T>(a: Option<T>, b: Option<T>): Option<T> {
    if a.Some? then a else b
  }

  function Merged(was: Settings, s: Settings): Settings {
    Settings(First(s.name, was.name), First(s.kind, was.kind),
             First(s.target, was.target), First(s.access, was.access), First(s.maxBurst, was.maxBurst))
  }

  /**
   The configuration step of the debug call: an empty configuration is filled in; any other one
   is merged into the record, and a key it lacks sets the memory back to that key's default.
  */
  function Configure(d: Device, e: Option<Settings>): (Device, Option<Settings>) {
    match e
    case None => (d, e)
    case Some(s) =>
      if s == EMPTY then (d, Some(d.record))
      else
        var c := d.config.(target := s.target.Or(0), access := s.access.Or(Unspecified), maxBurst := s.maxBurst.Or(0));
        (Device(c, Merged(d.record, s)), e)
  }

  // ---------------------------------------------------------------- the fixed-size reference

  const FRESH: State := State([0], [false])

  ghost predicate Valid(c: Config, m: State) {
    1 <= |m.mem| <= c.target && |m.used| == |m.mem|
  }

  /** The fixed-size array the lazily grown vector stands for. */
  function Flat(c: Config, m: State): (f: seq<Byte>)
    ensures |f| == c.target
  {
    Resized(m.mem, c.target, FILL)
  }

  function UsedFlat(c: Config, m: State): (f: seq<bool>)
    ensures |f| == c.target
  {
    Resized(m.used, c.target, false)
  }

  /** The sum of address and length, which the code computes in 64 bits, stays in 64 bits. */
  predicate NoWrap(t: Request) { t.adr + |t.data| < TWO64 }

  /** The same request on an array of exactly `c.target` bytes: nothing to grow, nothing to fault. */
  function FixedServe(c: Config, f: seq<Byte>, t: Request, style: Style): (r: (seq<Byte>, Outcome))
    requires |f| == c.target && NoWrap(t)
    ensures |r.0| == c.target && r.1.Reply?
  {
    var why := Refusal(c, t, |t.data|, style);
    if why.Some? then (f, Reply(Reported(c, why.value), t.data))
    else if t.cmd == Ignore then (f, Reply(Ok, t.data))
    else if t.cmd == Read then (f, Reply(Ok, f[t.adr..t.adr + |t.data|]))
    else (Overlay(f, t.adr, t.data), Reply(Ok, t.data))
  }

  /** The request is a write that `c` accepts. */
  predicate Writes(c: Config, t: Request, style: Style) {
    t.cmd == Write && Refusal(c, t, |t.data|, style).None?
  }

  // ---------------------------------------------------------------- what is refused

  /** An access is accepted exactly when it ends before the target size and asks for nothing unsupported. */
  lemma AcceptedExactly(c: Config, t: Request, len: Depth, style: Style)
    ensures Refusal(c, t, len, style).None? <==>
            (t.adr + len) % 0x1_0000_0000_0000_0000 < c.target && !t.byteEnables && len <= t.width &&
            !(style == AT && 0 < c.maxBurst < len) && !(c.access == RO && t.cmd == Write)
  {
  }

  /** A refused one gets the error of the first reason that applies. */
  lemma RefusedExactly(c: Config, t: Request, len: Depth, style: Style)
    requires Refusal(c, t, len, style).Some?
    ensures var why := Refusal(c, t, len, style).value;
            var fits := (t.adr + len) % 0x1_0000_0000_0000_0000 < c.target && !t.byteEnables;
            var burst := style == AT && 0 < c.maxBurst < len;
            (why == AddressError <==> (t.adr + len) % 0x1_0000_0000_0000_0000 >= c.target) &&
            (why == ByteEnableError <==> (t.adr + len) % 0x1_0000_0000_0000_0000 < c.target && t.byteEnables) &&
            (why == BurstError <==> fits && burst) &&
            (why == GenericError <==> fits && !burst && t.width < len) &&
            (why == CommandError <==> fits && !burst && len <= t.width && c.access == RO && t.cmd == Write)
    ensures Refusal(c, t, len, style).value in {AddressError, ByteEnableError, BurstError, GenericError, CommandError}
  {
  }

  /** An access that needs room expands the vector to 1 KiB beyond its end, or to the target size if that is less. */
  lemma GrownLength(c: Config, m: State, need: nat)
    requires |m.mem| < need < c.target <= 0xFFFF_FC00
    ensures Grown(c, m, need).Some?
    ensures |Grown(c, m, need).value.mem| == if need + 1024 < c.target then need + 1024 else c.target
  {
  }

  /** An over-long debug access that starts within the target is cut to end one byte beyond it. */
  lemma CutLeavesOne(c: Config, adr: Addr, len: Depth)
    requires c.target < adr + len - 1 < 0x1_0000_0000_0000_0000 && adr <= c.target
    ensures adr + TruncatedLen(c, adr, len) == c.target + 1
  {
  }

  // ---------------------------------------------------------------- when an access is safe

  /**
   An accepted read or write fails (an assertion, or a copy at a place outside the vector, if only
   of no bytes) exactly when the 64-bit sum of address and length wraps, or when the expansion it
   needs overflows 32 bits.
  */
  lemma FaultsExactly(c: Config, m: State, t: Request)
    requires Valid(c, m) && t.cmd != Ignore
    requires (t.adr + |t.data|) % TWO64 < c.target
    ensures Transport(c, m, t, |t.data|).1.Fault? <==>
            !NoWrap(t) || (|m.mem| < t.adr + |t.data| && t.adr + |t.data| + KB >= TWO32)
  {
    var sum := t.adr + |t.data|;
    var need := sum % TWO64;
    if !NoWrap(t) {
      assert sum / TWO64 == 1;
    } else if |m.mem| < need {
      assert (need + KB) / TWO32 == if need + KB >= TWO32 then 1 else 0;
    }
  }

  /** Whatever the run so far, the size rule is safe for a target size exactly up to 4 GiB less 1 KiB. */
  lemma SafeSizesExactly(c: Config)
    requires c.target >= 1
    ensures (forall m: State, t: Request
               | Valid(c, m) && NoWrap(t) && Refusal(c, t, |t.data|, LT).None? && t.cmd != Ignore
               :: Transport(c, m, t, |t.data|).1.Reply?) <==> c.target <= TWO32 - KB
  {
    if c.target <= TWO32 - KB {
      forall m: State, t: Request | Valid(c, m) && NoWrap(t) && Refusal(c, t, |t.data|, LT).None? && t.cmd != Ignore
        ensures Transport(c, m, t, |t.data|).1.Reply?
      {
        FaultsExactly(c, m, t);
      }
    } else {
      var t: Request := Request(Read, c.target - 2, [0], false, 1);
      FaultsExactly(c, FRESH, t);
      assert Valid(c, FRESH) && NoWrap(t) && Refusal(c, t, |t.data|, LT).None?;
      assert !Transport(c, FRESH, t, |t.data|).1.Reply?;
    }
  }

  // ---------------------------------------------------------------- refinement

  lemma GrownKeepsFlat(c: Config, m: State, need: nat)
    requires Valid(c, m) && need < c.target <= TWO32 - KB
    ensures Grown(c, m, need).Some?
    ensures var g := Grown(c, m, need).value;
            Valid(c, g) && |g.mem| >= need && |g.mem| >= |m.mem| &&
            Flat(c, g) == Flat(c, m) && UsedFlat(c, g) == UsedFlat(c, m)
  {
  }

  lemma OverlayResized<T>(v: seq<T>, adr: nat, data: seq<T>, n: nat, fill: T)
    requires adr + |data| <= |v| <= n
    ensures Resized(Overlay(v, adr, data), n, fill) == Overlay(Resized(v, n, fill), adr, data)
  {
  }

  /** A write into vectors that are already long enough. */
  lemma WriteRefines(c: Config, g: State, adr: nat, data: seq<Byte>)
    requires Valid(c, g) && adr + |data| <= |g.mem|
    ensures var w := State(Overlay(g.mem, adr, data), Overlay(g.used, adr, Marks(|data|)));
            Valid(c, w) && |w.mem| == |g.mem| && Flat(c, w) == Overlay(Flat(c, g), adr, data)
            && UsedFlat(c, w) == Overlay(UsedFlat(c, g), adr, Marks(|data|))
  {
    OverlayResized(g.mem, adr, data, c.target, FILL);
    OverlayResized(g.used, adr, Marks(|data|), c.target, false);
  }

  lemma ReadRefines(c: Config, g: State, adr: nat, data: seq<Byte>)
    requires Valid(c, g) && adr + |data| <= |g.mem|
    ensures g.mem[adr..adr + |data|] + data[|data|..] == Flat(c, g)[adr..adr + |data|]
  {
    assert data[|data|..] == [];
    assert g.mem[adr..adr + |data|] == Flat(c, g)[adr..adr + |data|];
  }

  /** The fixed array and the used marks after an accepted access. */
  function FlatAfter(c: Config, m: State, t: Request): seq<Byte>
    requires t.adr + |t.data| < c.target
  {
    if t.cmd == Write then Overlay(Flat(c, m), t.adr, t.data) else Flat(c, m)
  }

  function UsedAfter(c: Config, m: State, t: Request): seq<bool>
    requires t.adr + |t.data| < c.target
  {
    if t.cmd == Write then Overlay(UsedFlat(c, m), t.adr, Marks(|t.data|)) else UsedFlat(c, m)
  }

  /** Vectors that are long enough, after the copy. */
  function Copied(g: State, t: Request): State
    requires t.adr + |t.data| <= |g.mem| && t.adr + |t.data| <= |g.used|
  {
    if t.cmd == Write then State(Overlay(g.mem, t.adr, t.data), Overlay(g.used, t.adr, Marks(|t.data|))) else g
  }

  lemma CopyIs(g: State, t: Request)
    requires t.adr + |t.data| <= |g.mem| && t.adr + |t.data| <= |g.used|
    ensures Copy(g, t, |t.data|) ==
            (Copied(g, t),
             Reply(Ok, if t.cmd == Read then g.mem[t.adr..t.adr + |t.data|] + t.data[|t.data|..] else t.data))
  {
    assert t.data[..|t.data|] == t.data;
  }

  /** An accepted access that is safe expands and then copies. */
  lemma TransportCopies(c: Config, m: State, t: Request)
    requires Valid(c, m) && c.target <= TWO32 - KB && t.adr + |t.data| < c.target
    ensures Grown(c, m, t.adr + |t.data|).Some?
    ensures var g := Grown(c, m, t.adr + |t.data|).value;
            t.adr + |t.data| <= |g.mem| && t.adr + |t.data| <= |g.used| &&
            Transport(c, m, t, |t.data|) ==
            (Copied(g, t),
             Reply(Ok, if t.cmd == Read then g.mem[t.adr..t.adr + |t.data|] + t.data[|t.data|..] else t.data))
  {
    GrownKeepsFlat(c, m, t.adr + |t.data|);
    CopyIs(Grown(c, m, t.adr + |t.data|).value, t);
  }

  /** What an accepted access does to the fixed array and to the used marks. */
  lemma TransportRefines(c: Config, m: State, t: Request)
    requires Valid(c, m) && c.target <= TWO32 - KB && t.adr + |t.data| < c.target
    ensures var (m', out) := Transport(c, m, t, |t.data|);
            Valid(c, m') && |m'.mem| >= |m.mem| &&
            Flat(c, m') == FlatAfter(c, m, t) && UsedFlat(c, m') == UsedAfter(c, m, t)
            && out == Reply(Ok, if t.cmd == Read then Flat(c, m)[t.adr..t.adr + |t.data|] else t.data)
  {
    TransportCopies(c, m, t);
    GrownKeepsFlat(c, m, t.adr + |t.data|);
    CopyRefines(c, m, t, Grown(c, m, t.adr + |t.data|).value);
  }

  lemma CopyRefines(c: Config, m: State, t: Request, g: State)
    requires Valid(c, g) && t.adr + |t.data| <= |g.mem| && t.adr + |t.data| < c.target
    requires Flat(c, g) == Flat(c, m) && UsedFlat(c, g) == UsedFlat(c, m)
    ensures var w := Copied(g, t);
            Valid(c, w) && |w.mem| == |g.mem| &&
            Flat(c, w) == FlatAfter(c, m, t) && UsedFlat(c, w) == UsedAfter(c, m, t)
    ensures g.mem[t.adr..t.adr + |t.data|] + t.data[|t.data|..] == Flat(c, m)[t.adr..t.adr + |t.data|]
  {
    ReadRefines(c, g, t.adr, t.data);
    if t.cmd == Write {
      WriteRefines(c, g, t.adr, t.data);
    }
  }

  /** One access on the growing vector is one access on the fixed array. */
  lemma AccessRefines(c: Config, m: State, t: Request, style: Style)
    requires Valid(c, m) && c.target <= TWO32 - KB && NoWrap(t)
    ensures var (m', out) := Serve(c, m, t, style);
            Valid(c, m') && |m'.mem| >= |m.mem| && (Flat(c, m'), out) == FixedServe(c, Flat(c, m), t, style)
  {
    if Refusal(c, t, |t.data|, style).None? {
      TransportRefines(c, m, t);
    }
  }

  /** An access marks as used exactly the bytes it was allowed to write. */
  lemma AccessMarks(c: Config, m: State, t: Request, style: Style, a: int)
    requires Valid(c, m) && c.target <= TWO32 - KB && NoWrap(t) && 0 <= a < c.target
    ensures UsedFlat(c, Serve(c, m, t, style).0)[a]
            <==> UsedFlat(c, m)[a] || (Writes(c, t, style) && t.adr <= a < t.adr + |t.data|)
  {
    if Refusal(c, t, |t.data|, style).None? {
      TransportRefines(c, m, t);
    }
  }

  datatype Call = Call(t: Request, style: Style)

  function Run(c: Config, m: State, calls: seq<Call>): (State, seq<Outcome>)
    decreases |calls|
  {
    if calls == [] then (m, [])
    else
      var (m', out) := Serve(c, m, calls[0].t, calls[0].style);
      var (m'', outs) := Run(c, m', calls[1..]);
      (m'', [out] + outs)
  }

  function FixedRun(c: Config, f: seq<Byte>, calls: seq<Call>): (r: (seq<Byte>, seq<Outcome>))
    requires |f| == c.target && forall k :: 0 <= k < |calls| ==> NoWrap(calls[k].t)
    ensures |r.0| == c.target
    decreases |calls|
  {
    if calls == [] then (f, [])
    else
      var (f', out) := FixedServe(c, f, calls[0].t, calls[0].style);
      var (f'', outs) := FixedRun(c, f', calls[1..]);
      (f'', [out] + outs)
  }

  ghost predicate WrittenBy(c: Config, calls: seq<Call>, a: int) {
    exists k :: 0 <= k < |calls| && Writes(c, calls[k].t, calls[k].style)
                && calls[k].t.adr <= a < calls[k].t.adr + |calls[k].t.data|
  }

  /**
   Over every run: the replies and the contents are those of a fixed array of the target size,
   nothing ever faults, the length never shrinks and never passes the target size, and the used
   vector marks exactly the addresses some accepted write covered.
  */
  lemma {:induction false} RunRefines(c: Config, m: State, calls: seq<Call>)
    requires Valid(c, m) && c.target <= TWO32 - KB
    requires forall k :: 0 <= k < |calls| ==> NoWrap(calls[k].t)
    ensures var (m', outs) := Run(c, m, calls);
            Valid(c, m') && |m'.mem| >= |m.mem| && (Flat(c, m'), outs) == FixedRun(c, Flat(c, m), calls)
    ensures var (m', outs) := Run(c, m, calls);
            forall a :: 0 <= a < c.target ==> (UsedFlat(c, m')[a] <==> UsedFlat(c, m)[a] || WrittenBy(c, calls, a))
    decreases |calls|
  {
    if calls != [] {
      var (t, style) := (calls[0].t, calls[0].style);
      var (m', out) := Serve(c, m, t, style);
      AccessRefines(c, m, t, style);
      RunRefines(c, m', calls[1..]);
      forall a | 0 <= a < c.target
        ensures WrittenBy(c, calls, a) <==>
                (Writes(c, t, style) && t.adr <= a < t.adr + |t.data|) || WrittenBy(c, calls[1..], a)
        ensures UsedFlat(c, m')[a] <==> UsedFlat(c, m)[a] || (Writes(c, t, style) && t.adr <= a < t.adr + |t.data|)
      {
        AccessMarks(c, m, t, style, a);
        if WrittenBy(c, calls[1..], a) {
          var k :| 0 <= k < |calls[1..]| && Writes(c, calls[1..][k].t, calls[1..][k].style)
                   && calls[1..][k].t.adr <= a < calls[1..][k].t.adr + |calls[1..][k].t.data|;
          assert calls[k + 1] == calls[1..][k];
        }
        if WrittenBy(c, calls, a) {
          var k :| 0 <= k < |calls| && Writes(c, calls[k].t, calls[k].style)
                   && calls[k].t.adr <= a < calls[k].t.adr + |calls[k].t.data|;
          assert k > 0 ==> calls[1..][k - 1] == calls[k];
        }
      }
    }
  }

  // ---------------------------------------------------------------- the debug call

  lemma TruncationRefused(c: Config, adr: Addr, len: Depth)
    requires c.target < TWO32 - 1 && (adr + len - 1) % TWO64 > c.target
    ensures (adr + TruncatedLen(c, adr, len)) % TWO64 >= c.target
  {
    var last := (adr + len - 1) % TWO64;
    var cut := TruncatedLen(c, adr, len);
    var p := (adr + len - 1) / TWO64;
    var q := (len - (last - c.target)) / TWO32;
    var r := (adr + cut) / TWO64;
    var v := (adr + cut) % TWO64;
    assert v == c.target + 1 + TWO64 * (p - r) - TWO32 * q;
    assert v - c.target - 1 == TWO32 * (TWO32 * (p - r) - q);
  }

  /** The cut is useless for every access exactly up to one byte below the largest target size. */
  lemma TruncationExactly(c: Config)
    ensures (forall adr: Addr, len: Depth | (adr + len - 1) % TWO64 > c.target
               :: (adr + TruncatedLen(c, adr, len)) % TWO64 >= c.target) <==> c.target < TWO32 - 1
  {
    if c.target < TWO32 - 1 {
      forall adr: Addr, len: Depth | (adr + len - 1) % TWO64 > c.target
        ensures (adr + TruncatedLen(c, adr, len)) % TWO64 >= c.target
      {
        TruncationRefused(c, adr, len);
      }
    } else {
      var adr: Addr, len: Depth := TWO64 - 5, 1;
      assert TruncatedLen(c, adr, len) == 5;
      assert (adr + len - 1) % TWO64 > c.target && !((adr + TruncatedLen(c, adr, len)) % TWO64 >= c.target);
    }
  }

  /**
   The debug call, which is also how a port is probed, fills the vectors up to the target size,
   which changes no byte.  Then it does what the blocking call does, except that an over-long
   access, which the code means to truncate, is always refused: the cut length still ends beyond
   the target.
  */
  lemma DebugExactly(c: Config, m: State, t: Request)
    requires Valid(c, m) && c.target < TWO32 - 1
    ensures var full := State(Flat(c, m), UsedFlat(c, m));
            Valid(c, full) && Flat(c, full) == Flat(c, m) && UsedFlat(c, full) == UsedFlat(c, m) &&
            ServeDebug(c, m, t) == if t.cmd == Ignore then (full, Reply(Ok, t.data))
                                   else if (t.adr + |t.data| - 1) % TWO64 > c.target
                                   then (full, Reply(Reported(c, AddressError), t.data))
                                   else Serve(c, full, t, LT)
  {
    var full := State(Flat(c, m), UsedFlat(c, m));
    assert Flat(c, full) == Flat(c, m) && UsedFlat(c, full) == UsedFlat(c, m);
    assert |m.mem| == c.target ==> m.mem == Flat(c, m) && m.used == UsedFlat(c, m);
    if (t.adr + |t.data| - 1) % TWO64 > c.target {
      TruncationRefused(c, t.adr, |t.data|);
    }
  }

  /** The whole debug call: configuration first. */
  function ServeConfigured(d: Device, m: State, t: Request, e: Option<Settings>)
    : (Device, State, Outcome, Option<Settings>)
  {
    var (d', e') := Configure(d, e);
    var (m', out) := ServeDebug(d'.config, m, t);
    (d', m', out, e')
  }

  /** The record says what the memory works with. */
  predicate Described(d: Device) {
    d.record.name.Some? && d.record.kind.Some? && d.record.target == Some(d.config.target)
  }

  /**
   Reconfiguring fails exactly when the new settings have no target size, or zero: a missing key
   falls back to its default, also for the access mode and the burst limit.  Otherwise it keeps the
   bytes and marks below both sizes, a larger memory is filled up, and the record describes the
   memory again.
  */
  lemma ReconfigureExactly(d: Device, m: State, t: Request, s: Settings)
    requires Valid(d.config, m) && Described(d) && s != EMPTY && t.cmd == Ignore
    ensures var (d', m', out, _) := ServeConfigured(d, m, t, Some(s));
            (out.Fault? <==> s.target.None? || s.target.value == 0) &&
            (!out.Fault? ==>
               d'.config.target == s.target.value == |m'.mem| && Valid(d'.config, m') && Described(d') &&
               (s.access.Some? ==> d'.config.access == s.access.value) &&
               (s.access.None? ==> d'.config.access == Unspecified) &&
               d'.config.maxBurst == (if s.maxBurst.Some? then s.maxBurst.value else 0) &&
               d'.config.errorAtTarget == d.config.errorAtTarget &&
               d'.record.name == (if s.name.Some? then s.name else d.record.name) &&
               d'.record.kind == (if s.kind.Some? then s.kind else d.record.kind) &&
               d'.record.access == (if s.access.Some? then s.access else d.record.access) &&
               d'.record.maxBurst == (if s.maxBurst.Some? then s.maxBurst else d.record.maxBurst) &&
               forall a :: 0 <= a < d'.config.target ==>
                 Flat(d'.config, m')[a] == (if a < d.config.target then Flat(d.config, m)[a] else FILL) &&
                 UsedFlat(d'.config, m')[a] == (a < d.config.target && UsedFlat(d.config, m)[a]))
  {
  }

  /** Asking for the configuration changes nothing but the length, and brings back the record. */
  lemma AskExactly(d: Device, m: State, t: Request)
    requires Valid(d.config, m) && d.config.target < TWO32 - 1 && t.cmd == Ignore
    ensures ServeConfigured(d, m, t, Some(EMPTY)) ==
            (d, State(Flat(d.config, m), UsedFlat(d.config, m)), Reply(Ok, t.data), Some(d.record))
  {
    DebugExactly(d.config, m, t);
  }

  // ---------------------------------------------------------------- the module

  /** The transaction object: the bus rewrites its address, the target its data, status and extension. */
  class Payload {
    const cmd: Command
    const byteEnables: bool
    const width: Depth
    var address: Addr
    var data: seq<Byte>
    var status: Status
    var extension: Option<Settings>

    constructor (t: Request, extension: Option<Settings>)
      ensures AsRequest() == t && status == Incomplete && this.extension == extension
    {
      cmd, byteEnables, width := t.cmd, t.byteEnables, t.width;
      address, data, status := t.adr, t.data, Incomplete;
      this.extension := extension;
    }

    function AsRequest(): RawRequest
      reads this
    {
      Request(cmd, address, data, byteEnables, width)
    }
  }

  class MemoryModule {
    var config: Config
    var record: Settings
    var memVec: seq<Byte>
    var usedVec: seq<bool>

    /** The vectors agree, have an element and fit the target size, and the record is right. */
    predicate Valid()
      reads this
    {
      |usedVec| == |memVec| && 1 <= |memVec| && (|memVec| <= config.target || |memVec| == 1) && Described(AsDevice())
    }

    constructor (c: Config, name: string, kind: string)
      ensures Valid() && AsState() == FRESH && config == c
      ensures record == Settings(Some(name), Some(kind), Some(c.target), Some(c.access), Some(c.maxBurst))
    {
      config := c;
      record := Settings(Some(name), Some(kind), Some(c.target), Some(c.access), Some(c.maxBurst));
      memVec, usedVec := [0], [false];
    }

    function AsState(): State
      reads this
    {
      State(memVec, usedVec)
    }

    function AsDevice(): Device
      reads this
    {
      Device(config, record)
    }

    method PayloadIsOk(p: Payload, len: Depth, style: Style) returns (ok: bool)
      requires |p.data| < TWO32
      modifies p`status
      ensures ok <==> Refusal(config, p.AsRequest(), len, style).None?
      ensures p.status == if ok then old(p.status)
                          else Reported(config, Refusal(config, p.AsRequest(), len, style).value)
    {
      if (p.address + len) % TWO64 >= config.target {
        p.status := if config.errorAtTarget then Ok else AddressError;
        return false;
      } else if p.byteEnables {
        p.status := if config.errorAtTarget then Ok else ByteEnableError;
        return false;
      } else if style == AT && config.maxBurst > 0 && len > config.maxBurst {
        p.status := if config.errorAtTarget then Ok else BurstError;
        return false;
      } else if p.width < len {
        p.status := if config.errorAtTarget then Ok else GenericError;
        return false;
      } else if config.access == RO && p.cmd == Write {
        p.status := if config.errorAtTarget then Ok else CommandError;
        return false;
      }
      return true;
    }

    /** `ok` is the assertion that guards the resize. */
    method Resize(depth: Depth) returns (ok: bool)
      modifies this`memVec, this`usedVec
      ensures old(Valid()) ==> Valid()
      ensures ok <==> 0 < depth <= config.target
      ensures AsState() == if ok then State(Resized(old(memVec), depth, FILL), Resized(old(usedVec), depth, false))
                           else old(AsState())
    {
      ok := 0 < depth <= config.target;
      if ok {
        memVec := Resized(memVec, depth, FILL);
        usedVec := Resized(usedVec, depth, false);
      }
    }

    /** `count` is the number of bytes served; after a fault nothing is promised. */
    method DoTransport(p: Payload, len: Depth) returns (fault: bool, count: Depth)
      requires Valid() && |p.data| < TWO32 && (p.address + len) % TWO64 < config.target
      modifies this`memVec, this`usedVec, p`data, p`status
      ensures Valid()
      ensures var (m, out) := Transport(config, old(AsState()), old(p.AsRequest()), len);
              fault == out.Fault? &&
              (!fault ==> AsState() == m && p.data == out.data && p.status == out.status
                          && count == if p.cmd == Ignore then 0 else len)
    {
      var ok := Expand((p.address + len) % TWO64);
      if !ok {
        return true, 0;
      }
      fault, count := CopyBytes(p, len);
    }

    method Expand(need: Addr) returns (ok: bool)
      requires Valid() && need < config.target
      modifies this`memVec, this`usedVec
      ensures Valid() && ok == Grown(config, old(AsState()), need).Some?
      ensures ok ==> Some(AsState()) == Grown(config, old(AsState()), need)
    {
      ok := true;
      if |memVec| < need {
        var newSize: Depth := (need + KB) % TWO32;
        newSize := Min(newSize, config.target);
        ok := Resize(newSize);
      }
    }

    method CopyBytes(p: Payload, len: Depth) returns (fault: bool, count: Depth)
      requires Valid() && |p.data| < TWO32
      modifies this`memVec, this`usedVec, p`data, p`status
      ensures Valid()
      ensures var (m, out) := Copy(old(AsState()), old(p.AsRequest()), len);
              fault == out.Fault? &&
              (!fault ==> AsState() == m && p.data == out.data && p.status == out.status
                          && count == if p.cmd == Ignore then 0 else len)
    {
      fault, count := true, 0;
      var adr := p.address;
      if p.cmd == Read {
        if adr + len > |memVec| || adr + len > |usedVec| || len > |p.data| {
          return;
        }
        p.data := memVec[adr..adr + len] + p.data[len..];
        count := len;
      } else if p.cmd == Write {
        if adr + len > |memVec| || adr + len > |usedVec| || len > |p.data| {
          return;
        }
        memVec := memVec[..adr] + p.data[..len] + memVec[adr + len..];
        MarkUsed(adr, len);
        count := len;
      }
      p.status := Ok;
      fault := false;
    }

    method MarkUsed(adr: Addr, len: Depth)
      requires adr + len <= |usedVec|
      modifies this`usedVec
      ensures usedVec == Overlay(old(usedVec), adr, Marks(len))
    {
      ghost var was := usedVec;
      var a := adr;
      while a < adr + len
        invariant adr <= a <= adr + len && |usedVec| == |was|
        invariant forall i :: 0 <= i < |was| ==> usedVec[i] == (was[i] || adr <= i < a)
      {
        usedVec := usedVec[a := true];
        a := a + 1;
      }
    }

    method BTransport(p: Payload) returns (fault: bool)
      requires Valid() && |p.data| < TWO32
      modifies this`memVec, this`usedVec, p`data, p`status
      ensures Valid()
      ensures var (m, out) := Serve(config, old(AsState()), old(p.AsRequest()), LT);
              fault == out.Fault? && (!fault ==> AsState() == m && p.data == out.data && p.status == out.status)
    {
      var count;
      fault, count := Deliver(p, |p.data|, LT);
    }

    method ExecuteTransaction(p: Payload) returns (fault: bool)
      requires Valid() && |p.data| < TWO32
      modifies this`memVec, this`usedVec, p`data, p`status
      ensures Valid()
      ensures var (m, out) := Serve(config, old(AsState()), old(p.AsRequest()), AT);
              fault == out.Fault? && (!fault ==> AsState() == m && p.data == out.data && p.status == out.status)
    {
      var count;
      fault, count := Deliver(p, |p.data|, AT);
    }

    /** Check, then serve: the part the blocking, non-blocking and debug calls share. */
    method Deliver(p: Payload, len: Depth, style: Style) returns (fault: bool, count: Depth)
      requires Valid() && |p.data| < TWO32
      modifies this`memVec, this`usedVec, p`data, p`status
      ensures Valid()
      ensures var (m, out) := ServeLen(config, old(AsState()), old(p.AsRequest()), len, style);
              fault == out.Fault? && (!fault ==> AsState() == m && p.data == out.data && p.status == out.status)
      ensures !fault ==>
                count == if p.cmd != Ignore && Refusal(config, old(p.AsRequest()), len, style).None? then len else 0
    {
      var ok := PayloadIsOk(p, len, style);
      fault, count := false, 0;
      if ok {
        fault, count := DoTransport(p, len);
      }
    }

    /** True if the command asks for nothing else. */
    method ConfigureFrom(p: Payload) returns (configOnly: bool)
      modifies this`config, this`record, p`extension
      ensures configOnly <==> p.cmd == Ignore
      ensures (AsDevice(), p.extension) == Configure(old(AsDevice()), old(p.extension))
    {
      if p.extension.Some? {
        var settings := p.extension.value;
        if settings == EMPTY {
          p.extension := Some(record);
        } else {
          record := Merged(record, settings);
          config := config.(target := settings.target.Or(0));
          config := config.(access := settings.access.Or(Unspecified));
          config := config.(maxBurst := settings.maxBurst.Or(0));
        }
      }
      configOnly := p.cmd == Ignore;
    }

    method TransportDbg(p: Payload) returns (fault: bool, count: Depth)
      requires Valid() && |p.data| < TWO32
      modifies this, p`data, p`status, p`extension
      ensures !fault ==> Valid()
      ensures var (d, m, out, e) :=
                ServeConfigured(old(AsDevice()), old(AsState()), old(p.AsRequest()), old(p.extension));
              fault == out.Fault? && AsDevice() == d && p.extension == e &&
              (!fault ==> AsState() == m && p.data == out.data && p.status == out.status)
      ensures var len := TruncatedLen(config, p.address, |old(p.data)|);
              !fault ==>
                count == if p.cmd != Ignore && Refusal(config, old(p.AsRequest()), len, LT).None? then len else 0
      ensures (!fault && p.cmd != Ignore && 0 < |old(p.data)| && p.address + |old(p.data)| < config.target
               && Refusal(config, old(p.AsRequest()), |old(p.data)|, LT).None?)
              ==> count == |old(p.data)|
    {
      var configOnly := ConfigureFrom(p);
      fault, count := DebugAfter(p, configOnly);
    }

    method FillUp() returns (ok: bool)
      requires |usedVec| == |memVec| && 1 <= |memVec| && (config.target > 0 ==> Described(AsDevice()))
      modifies this`memVec, this`usedVec
      ensures ok == Full(config, old(AsState())).Some?
      ensures ok ==> Valid() && Some(AsState()) == Full(config, old(AsState()))
    {
      ok := true;
      if config.target != |memVec| {
        ok := Resize(config.target);
      }
    }

    /** The debug call once configured. */
    method DebugAfter(p: Payload, configOnly: bool) returns (fault: bool, count: Depth)
      requires |usedVec| == |memVec| && 1 <= |memVec| && |p.data| < TWO32 && configOnly == (p.cmd == Ignore)
      requires config.target > 0 ==> Described(AsDevice())
      modifies this`memVec, this`usedVec, p`data, p`status
      ensures var (m, out) := ServeDebug(config, old(AsState()), old(p.AsRequest()));
              fault == out.Fault? && (!fault ==> AsState() == m && p.data == out.data && p.status == out.status)
      ensures !fault ==> Valid()
      ensures var len := TruncatedLen(config, p.address, |old(p.data)|);
              !fault ==>
                count == if p.cmd != Ignore && Refusal(config, old(p.AsRequest()), len, LT).None? then len else 0
    {
      fault, count := false, 0;
      var ok := FillUp();
      if !ok {
        return true, 0;
      }
      if configOnly {
        p.status := Ok;
        return;
      }
      var len: Depth := |p.data|;
      var last := (p.address + len - 1) % TWO64;
      if last > config.target {
        len := (len - (last - config.target)) % TWO32;
      }
      fault, count := Deliver(p, len, LT);
    }
  }
}
