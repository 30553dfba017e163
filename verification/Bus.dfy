/**
 The bus in front of its memories, and the flat memory the two amount to.
*/
module Bus {
  import opened Common
  import opened AddressMap
  import M = Memory

  /** What does not change while transactions run: the map and the memories' configurations. */
  datatype Platform = Platform(addrMap: seq<Mapping>, configs: seq<M.Config>, errorAtTarget: bool)

  // ---------------------------------------------------------------- one bus access

  /** Decodes, rewrites the address and forwards to the memory on the decoded port. */
  function Serve(p: Platform, mems: seq<M.State>, t: M.Request): (r: (seq<M.State>, M.Outcome))
    requires |p.configs| == |mems|
    ensures |r.0| == |mems|
  {
    var (port, masked) := Decode(p.addrMap, t.adr);
    if port > |mems| then (mems, M.Reply(if p.errorAtTarget then M.Ok else M.AddressError, t.data))
    else if port == |mems| then (mems, M.Fault)
    else
      var (s, out) := M.Serve(p.configs[port], mems[port], t.(adr := masked), M.LT);
      (mems[port := s], out)
  }

  function Run(p: Platform, mems: seq<M.State>, ts: seq<M.Request>): (r: (seq<M.State>, seq<M.Outcome>))
    requires |p.configs| == |mems|
    ensures |r.0| == |mems|
    decreases |ts|
  {
    if ts == [] then (mems, [])
    else
      var (mems', out) := Serve(p, mems, ts[0]);
      var (mems'', outs) := Run(p, mems', ts[1..]);
      (mems'', [out] + outs)
  }

  /** The map has been checked and every assigned port leads to a memory of the mapped size. */
  ghost predicate Wired(p: Platform) {
    && Ordered(p.addrMap) && KeyIsBase(p.addrMap) && Checked(p.addrMap)
    && PortsSafe(p.addrMap, |p.configs|) && |p.configs| < NO_PORT
    && (forall i :: 0 <= i < |p.addrMap| ==> SizeMatches(p, i))
    && (forall k :: 0 <= k < |p.configs| ==> SafeConfig(p, p.configs[k]))
  }

  predicate SizeMatches(p: Platform, i: nat)
    requires i < |p.addrMap| && PortsSafe(p.addrMap, |p.configs|)
  {
    var info := p.addrMap[i].info;
    info.port != BAD_PORT ==> info.last == info.base + p.configs[info.port].target - 1
  }

  predicate SafeConfig(p: Platform, c: M.Config) {
    c.errorAtTarget == p.errorAtTarget && 1 <= c.target <= TWO32 - M.KB
  }

  ghost predicate MemoriesValid(p: Platform, mems: seq<M.State>) {
    |p.configs| == |mems| && forall k :: 0 <= k < |mems| ==> M.Valid(p.configs[k], mems[k])
  }

  // ---------------------------------------------------------------- the flat memory

  type Store = map<int, Byte>

  /** Address `a` belongs to the target behind mapping `i`. */
  predicate Backed(p: Platform, i: nat, a: int) {
    i < |p.addrMap| && p.addrMap[i].info.port != BAD_PORT && InRange(p.addrMap[i].info, a)
  }

  /** The access starts in the range of mapping `i` and ends strictly before its last byte. */
  predicate Holds(p: Platform, i: nat, t: M.Request) {
    Backed(p, i, t.adr) && t.adr + |t.data| <= p.addrMap[i].info.last
  }

  predicate ReadOnly(p: Platform, i: nat)
    requires i < |p.addrMap|
  {
    0 <= p.addrMap[i].info.port < |p.configs| && p.configs[p.addrMap[i].info.port].access == M.RO
  }

  /** Why a flat memory with these ranges refuses an access. */
  function FlatRefusal(p: Platform, t: M.Request): Option<M.Status> {
    if t.adr == BAD_ADDR || !exists i: nat :: i < |p.addrMap| && Holds(p, i, t) then Some(M.AddressError)
    else if t.byteEnables then Some(M.ByteEnableError)
    else if t.width < |t.data| then Some(M.GenericError)
    else if t.cmd == M.Write && exists i: nat :: i < |p.addrMap| && Holds(p, i, t) && ReadOnly(p, i)
    then Some(M.CommandError)
    else None
  }

  ghost predicate Covers(store: Store, p: Platform) {
    forall i: nat, a | Backed(p, i, a) :: a in store
  }

  function Written(store: Store, adr: int, data: seq<Byte>): (r: Store)
    ensures r.Keys == store.Keys
  {
    map a | a in store :: if adr <= a < adr + |data| then data[a - adr] else store[a]
  }

  ghost predicate InStore(store: Store, adr: int, len: nat) {
    forall a :: adr <= a < adr + len ==> a in store
  }

  ghost function Bytes(store: Store, adr: int, len: nat): (r: seq<Byte>)
    requires InStore(store, adr, len)
    ensures |r| == len && forall k :: 0 <= k < len ==> adr + k in store && r[k] == store[adr + k]
  {
    seq(len, k requires 0 <= k < len => assert adr <= adr + k < adr + len; store[adr + k])
  }

  /** One byte store keyed by global address. */
  ghost function FlatServe(p: Platform, store: Store, t: M.Request): (r: (Store, M.Outcome))
    requires Covers(store, p)
    ensures Covers(r.0, p) && r.1.Reply? && r.0.Keys == store.Keys
  {
    var why := FlatRefusal(p, t);
    if why.Some? then (store, M.Reply(if p.errorAtTarget then M.Ok else why.value, t.data))
    else if t.cmd == M.Ignore then (store, M.Reply(M.Ok, t.data))
    else if t.cmd == M.Write then (Written(store, t.adr, t.data), M.Reply(M.Ok, t.data))
    else
      AcceptedInStore(p, store, t);
      (store, M.Reply(M.Ok, Bytes(store, t.adr, |t.data|)))
  }

  lemma AcceptedInStore(p: Platform, store: Store, t: M.Request)
    requires Covers(store, p) && FlatRefusal(p, t).None?
    ensures InStore(store, t.adr, |t.data|)
  {
    var i: nat :| i < |p.addrMap| && Holds(p, i, t);
    forall a | t.adr <= a < t.adr + |t.data| ensures a in store {
      assert Backed(p, i, a);
    }
  }

  ghost function FlatRun(p: Platform, store: Store, ts: seq<M.Request>): (r: (Store, seq<M.Outcome>))
    requires Covers(store, p)
    ensures Covers(r.0, p) && r.0.Keys == store.Keys
    decreases |ts|
  {
    if ts == [] then (store, [])
    else
      var (store', out) := FlatServe(p, store, ts[0]);
      var (store'', outs) := FlatRun(p, store', ts[1..]);
      (store'', [out] + outs)
  }

  // ---------------------------------------------------------------- what the memories hold

  lemma SameRange(m: seq<Mapping>, i: nat, j: nat, a: int)
    requires Checked(m) && i < |m| && j < |m| && InRange(m[i].info, a) && InRange(m[j].info, a)
    ensures i == j
  {
    assert !(i < j) && !(j < i);
  }

  /** The byte the memory behind mapping `i` holds for address `a`. */
  function ByteOf(p: Platform, mems: seq<M.State>, i: nat, a: int): Byte
    requires Wired(p) && |p.configs| == |mems| && Backed(p, i, a)
  {
    var info := p.addrMap[i].info;
    assert SizeMatches(p, i);
    M.Flat(p.configs[info.port], mems[info.port])[a - info.base]
  }

  /** The store holds, for every address behind the bus, the byte the memory there holds. */
  ghost predicate Represents(p: Platform, mems: seq<M.State>, store: Store)
    requires Wired(p) && |p.configs| == |mems|
  {
    forall i: nat, a | Backed(p, i, a) :: a in store && store[a] == ByteOf(p, mems, i, a)
  }

  /** Every state of the memories is represented by a store. */
  lemma SomeStore(p: Platform, mems: seq<M.State>) returns (store: Store)
    requires Wired(p) && |p.configs| == |mems|
    ensures Represents(p, mems, store)
  {
    store := map a: int | 0 <= a < TWO64 && Mapped(p, a) :: ByteHeld(p, mems, a);
    forall i: nat, a | Backed(p, i, a) ensures a in store && store[a] == ByteOf(p, mems, i, a) {
      assert Mapped(p, a);
      forall j: nat | Backed(p, j, a) ensures j == i {
        SameRange(p.addrMap, i, j, a);
      }
    }
  }

  ghost predicate Mapped(p: Platform, a: int) {
    exists i: nat :: Backed(p, i, a)
  }

  ghost function ByteHeld(p: Platform, mems: seq<M.State>, a: int): Byte
    requires Wired(p) && |p.configs| == |mems| && Mapped(p, a)
  {
    var i: nat :| Backed(p, i, a);
    ByteOf(p, mems, i, a)
  }

  // ---------------------------------------------------------------- refinement

  /** Mapping `i` leads to a memory. */
  predicate Leads(p: Platform, i: nat) {
    i < |p.addrMap| && p.addrMap[i].info.port != BAD_PORT
  }

  /** The access lands on mapping `i`. */
  predicate Lands(p: Platform, i: nat, t: M.Request) {
    Backed(p, i, t.adr) && t.adr != BAD_ADDR
  }

  /** What the memory behind mapping `i` does with the access. */
  function Forwarded(p: Platform, mems: seq<M.State>, i: nat, t: M.Request): (seq<M.State>, M.Outcome)
    requires Wired(p) && |p.configs| == |mems| && Lands(p, i, t)
  {
    var info := p.addrMap[i].info;
    var (s, out) := M.Serve(p.configs[info.port], mems[info.port], t.(adr := t.adr - info.base), M.LT);
    (mems[info.port := s], out)
  }

  lemma ServeForwards(p: Platform, mems: seq<M.State>, i: nat, t: M.Request)
    requires Wired(p) && |p.configs| == |mems| && Lands(p, i, t)
    ensures Serve(p, mems, t) == Forwarded(p, mems, i, t)
  {
    LookupExactly(p.addrMap, t.adr, i);
  }

  /** Under the decoded address the memory refuses what the flat memory refuses, for the same reason. */
  lemma SameRefusal(p: Platform, t: M.Request, i: nat)
    requires Wired(p) && Lands(p, i, t)
    ensures var info := p.addrMap[i].info;
            t.adr - info.base < p.configs[info.port].target &&
            M.Refusal(p.configs[info.port], t.(adr := t.adr - info.base), |t.data|, M.LT) == FlatRefusal(p, t)
  {
    assert SizeMatches(p, i);
    forall j: nat | j < |p.addrMap| && Holds(p, j, t) ensures j == i {
      SameRange(p.addrMap, i, j, t.adr);
    }
    var info := p.addrMap[i].info;
    assert SafeConfig(p, p.configs[info.port]);
    assert Holds(p, i, t) <==> (t.adr - info.base + |t.data|) % TWO64 < p.configs[info.port].target;
  }

  /** An access that lands nowhere is refused by both. */
  lemma BothUnmapped(p: Platform, t: M.Request)
    requires Wired(p) && forall i: nat :: !Lands(p, i, t)
    ensures Decode(p.addrMap, t.adr).0 == NO_PORT
    ensures FlatRefusal(p, t) == Some(M.AddressError)
  {
    var hit := Lookup(p.addrMap, t.adr);
    if hit.Some? {
      LookupExactly(p.addrMap, t.adr, hit.value);
      assert !Lands(p, hit.value, t);
    }
    assert t.adr != BAD_ADDR ==> forall i: nat :: Holds(p, i, t) ==> Lands(p, i, t);
  }

  /** Only the addresses behind one port change when its memory does, and the ports do not share addresses. */
  lemma StoreAfter(p: Platform, mems: seq<M.State>, store: Store, i: nat, masked: nat, data: seq<Byte>, s: M.State)
    requires Wired(p) && |p.configs| == |mems| && Leads(p, i) && Represents(p, mems, store)
    requires var port := p.addrMap[i].info.port;
             masked + |data| <= p.configs[port].target &&
             M.Flat(p.configs[port], s) == M.Overlay(M.Flat(p.configs[port], mems[port]), masked, data)
    ensures Represents(p, mems[p.addrMap[i].info.port := s], Written(store, p.addrMap[i].info.base + masked, data))
  {
    var port, adr := p.addrMap[i].info.port, p.addrMap[i].info.base + masked;
    assert SizeMatches(p, i);
    forall j: nat, a | Backed(p, j, a)
      ensures a in store && Written(store, adr, data)[a] == ByteOf(p, mems[port := s], j, a)
    {
      if adr <= a < adr + |data| {
        SameRange(p.addrMap, i, j, a);
      }
    }
  }

  lemma SliceIsBytes(f: seq<Byte>, shift: int, store: Store, adr: int, len: nat)
    requires InStore(store, adr, len) && 0 <= adr - shift && adr - shift + len <= |f|
    requires forall a :: adr <= a < adr + len ==> store[a] == f[a - shift]
    ensures f[adr - shift..adr - shift + len] == Bytes(store, adr, len)
  {
  }

  lemma ByteAfter(p: Platform, mems: seq<M.State>, store: Store, i: nat, a: int)
    requires Wired(p) && |p.configs| == |mems| && Backed(p, i, a) && Represents(p, mems, store)
    ensures var info := p.addrMap[i].info;
            info.base <= a <= info.last == info.base + p.configs[info.port].target - 1 && a in store &&
            store[a] == M.Flat(p.configs[info.port], mems[info.port])[a - info.base]
  {
    assert SizeMatches(p, i);
    assert store[a] == ByteOf(p, mems, i, a);
  }

  lemma BytesAfter(p: Platform, mems: seq<M.State>, store: Store, i: nat, t: M.Request, f: seq<Byte>, base: int)
    requires Wired(p) && |p.configs| == |mems| && Holds(p, i, t) && Represents(p, mems, store)
    requires var info := p.addrMap[i].info; f == M.Flat(p.configs[info.port], mems[info.port]) && base == info.base
    ensures InStore(store, t.adr, |t.data|) && 0 <= t.adr - base && t.adr - base + |t.data| < |f|
    ensures forall a :: t.adr <= a < t.adr + |t.data| ==> store[a] == f[a - base]
  {
    ByteAfter(p, mems, store, i, t.adr);
    forall a | t.adr <= a < t.adr + |t.data| ensures a in store && store[a] == f[a - base] {
      ByteAfter(p, mems, store, i, a);
    }
  }

  /** A read through mapping `i` sees the flat store. */
  lemma ReadAfter(p: Platform, mems: seq<M.State>, store: Store, i: nat, t: M.Request)
    requires Wired(p) && |p.configs| == |mems| && Holds(p, i, t) && Represents(p, mems, store)
    ensures var info := p.addrMap[i].info;
            InStore(store, t.adr, |t.data|) && t.adr - info.base + |t.data| < p.configs[info.port].target &&
            M.Flat(p.configs[info.port], mems[info.port])[t.adr - info.base..t.adr - info.base + |t.data|]
            == Bytes(store, t.adr, |t.data|)
  {
    var info := p.addrMap[i].info;
    var f := M.Flat(p.configs[info.port], mems[info.port]);
    BytesAfter(p, mems, store, i, t, f, info.base);
    SliceIsBytes(f, info.base, store, t.adr, |t.data|);
  }

  /** A memory's step in terms of its flat contents and the flat memory's verdict. */
  ghost predicate StepOf(p: Platform, mems: seq<M.State>, t: M.Request, i: nat, s: M.State, out: M.Outcome)
    requires Wired(p) && |p.configs| == |mems| && Lands(p, i, t)
  {
    var info := p.addrMap[i].info;
    var c, masked := p.configs[info.port], t.adr - info.base;
    var f := M.Flat(c, mems[info.port]);
    M.Valid(c, s) &&
    if FlatRefusal(p, t).Some? then
      M.Flat(c, s) == f && out == M.Reply(if p.errorAtTarget then M.Ok else FlatRefusal(p, t).value, t.data)
    else
      masked + |t.data| < c.target &&
      M.Flat(c, s) == (if t.cmd == M.Write then M.Overlay(f, masked, t.data) else f) &&
      out == M.Reply(M.Ok, if t.cmd == M.Read then f[masked..masked + |t.data|] else t.data)
  }

  lemma ForwardedStep(p: Platform, mems: seq<M.State>, t: M.Request, i: nat) returns (s: M.State, out: M.Outcome)
    requires Wired(p) && MemoriesValid(p, mems) && Lands(p, i, t)
    ensures Forwarded(p, mems, i, t) == (mems[p.addrMap[i].info.port := s], out) && StepOf(p, mems, t, i, s, out)
  {
    SameRefusal(p, t, i);
    var info := p.addrMap[i].info;
    var c, u := p.configs[info.port], t.(adr := t.adr - info.base);
    assert SafeConfig(p, c);
    M.AccessRefines(c, mems[info.port], u, M.LT);
    s, out := M.Serve(c, mems[info.port], u, M.LT).0, M.Serve(c, mems[info.port], u, M.LT).1;
    FixedStep(p, mems, t, i, s, out);
  }

  lemma FixedStep(p: Platform, mems: seq<M.State>, t: M.Request, i: nat, s: M.State, out: M.Outcome)
    requires Wired(p) && MemoriesValid(p, mems) && Lands(p, i, t)
    requires var info := p.addrMap[i].info;
             var c, u := p.configs[info.port], t.(adr := t.adr - info.base);
             M.NoWrap(u) && M.Refusal(c, u, |t.data|, M.LT) == FlatRefusal(p, t) &&
             c.errorAtTarget == p.errorAtTarget &&
             M.Valid(c, s) && (M.Flat(c, s), out) == M.FixedServe(c, M.Flat(c, mems[info.port]), u, M.LT)
    ensures StepOf(p, mems, t, i, s, out)
  {
  }

  lemma AcceptedHolds(p: Platform, i: nat, t: M.Request)
    requires Wired(p) && Lands(p, i, t) && FlatRefusal(p, t).None?
    ensures Holds(p, i, t)
  {
    var j: nat :| j < |p.addrMap| && Holds(p, j, t);
    SameRange(p.addrMap, i, j, t.adr);
  }

  lemma WriteIsFlat(p: Platform, mems: seq<M.State>, store: Store, t: M.Request, i: nat, s: M.State, out: M.Outcome)
    requires Wired(p) && MemoriesValid(p, mems) && Lands(p, i, t) && Represents(p, mems, store)
    requires StepOf(p, mems, t, i, s, out) && FlatRefusal(p, t).None? && t.cmd == M.Write
    ensures Represents(p, mems[p.addrMap[i].info.port := s], FlatServe(p, store, t).0)
    ensures out == FlatServe(p, store, t).1
  {
    StoreAfter(p, mems, store, i, t.adr - p.addrMap[i].info.base, t.data, s);
  }

  /** After the memory behind mapping `i` went to `s`, with reply `out`, the step is the flat memory's. */
  lemma StepIsFlat(p: Platform, mems: seq<M.State>, store: Store, t: M.Request, i: nat, s: M.State, out: M.Outcome)
    requires Wired(p) && MemoriesValid(p, mems) && Lands(p, i, t) && Represents(p, mems, store)
    requires StepOf(p, mems, t, i, s, out)
    ensures MemoriesValid(p, mems[p.addrMap[i].info.port := s])
    ensures Represents(p, mems[p.addrMap[i].info.port := s], FlatServe(p, store, t).0)
    ensures out == FlatServe(p, store, t).1
  {
    if FlatRefusal(p, t).None? && t.cmd == M.Write {
      WriteIsFlat(p, mems, store, t, i, s, out);
    } else {
      UnchangedStore(p, mems, store, i, s);
      SameReply(p, mems, store, t, i, s, out);
    }
  }

  lemma SameReply(p: Platform, mems: seq<M.State>, store: Store, t: M.Request, i: nat, s: M.State, out: M.Outcome)
    requires Wired(p) && MemoriesValid(p, mems) && Lands(p, i, t) && Represents(p, mems, store)
    requires StepOf(p, mems, t, i, s, out) && (FlatRefusal(p, t).Some? || t.cmd != M.Write)
    ensures FlatServe(p, store, t) == (store, out)
  {
    if FlatRefusal(p, t).None? && t.cmd == M.Read {
      AcceptedHolds(p, i, t);
      ReadAfter(p, mems, store, i, t);
    }
  }

  lemma UnchangedStore(p: Platform, mems: seq<M.State>, store: Store, i: nat, s: M.State)
    requires Wired(p) && |p.configs| == |mems| && Leads(p, i) && Represents(p, mems, store)
    requires var port := p.addrMap[i].info.port; M.Flat(p.configs[port], s) == M.Flat(p.configs[port], mems[port])
    ensures Represents(p, mems[p.addrMap[i].info.port := s], store)
  {
    forall j: nat, a | Backed(p, j, a)
      ensures ByteOf(p, mems[p.addrMap[i].info.port := s], j, a) == ByteOf(p, mems, j, a)
    {
    }
  }

  lemma LandedIsFlat(p: Platform, mems: seq<M.State>, store: Store, t: M.Request, i: nat)
    requires Wired(p) && MemoriesValid(p, mems) && Lands(p, i, t) && Represents(p, mems, store)
    ensures var (mems', out) := Forwarded(p, mems, i, t);
            MemoriesValid(p, mems') && Represents(p, mems', FlatServe(p, store, t).0) && out == FlatServe(p, store, t).1
  {
    var s, out := ForwardedStep(p, mems, t, i);
    StepIsFlat(p, mems, store, t, i, s, out);
  }

  /** One access through the bus is one access to the flat store: same reply, same contents, no fault. */
  lemma ServeIsFlat(p: Platform, mems: seq<M.State>, store: Store, t: M.Request)
    requires Wired(p) && MemoriesValid(p, mems) && Represents(p, mems, store)
    ensures var ((mems', out), (store', flatOut)) := (Serve(p, mems, t), FlatServe(p, store, t));
            MemoriesValid(p, mems') && Represents(p, mems', store') && out == flatOut
  {
    if i: nat :| Lands(p, i, t) {
      ServeForwards(p, mems, i, t);
      LandedIsFlat(p, mems, store, t, i);
    } else {
      BothUnmapped(p, t);
    }
  }

  /** Over every run of reads and writes, bus and memories are one flat byte store. */
  lemma {:induction false} RunIsFlat(p: Platform, mems: seq<M.State>, store: Store, ts: seq<M.Request>)
    requires Wired(p) && MemoriesValid(p, mems) && Represents(p, mems, store)
    ensures var ((mems', outs), (store', flatOuts)) := (Run(p, mems, ts), FlatRun(p, store, ts));
            MemoriesValid(p, mems') && Represents(p, mems', store') && outs == flatOuts
    decreases |ts|
  {
    if ts != [] {
      ServeIsFlat(p, mems, store, ts[0]);
      RunIsFlat(p, Serve(p, mems, ts[0]).0, FlatServe(p, store, ts[0]).0, ts[1..]);
    }
  }

  // ---------------------------------------------------------------- last write wins

  predicate WritesTo(p: Platform, t: M.Request, a: int) {
    t.cmd == M.Write && FlatRefusal(p, t).None? && t.adr <= a < t.adr + |t.data|
  }

  /** What the last accepted write covering `a` put there, else what was there before the run. */
  function LastWritten(p: Platform, ts: seq<M.Request>, a: int, initial: Byte): Byte {
    if ts == [] then initial
    else
      var t := ts[|ts| - 1];
      if WritesTo(p, t, a) then t.data[a - t.adr] else LastWritten(p, ts[..|ts| - 1], a, initial)
  }

  lemma {:induction false} LastWrittenCons(p: Platform, ts: seq<M.Request>, a: int, initial: Byte)
    requires ts != []
    ensures LastWritten(p, ts, a, initial)
            == LastWritten(p, ts[1..], a, if WritesTo(p, ts[0], a) then ts[0].data[a - ts[0].adr] else initial)
    decreases |ts|
  {
    if |ts| > 1 {
      LastWrittenCons(p, ts[..|ts| - 1], a, initial);
      assert ts[..|ts| - 1][1..] == ts[1..][..|ts| - 2];
    }
  }

  lemma {:induction false} FlatRunLastWrites(p: Platform, store: Store, ts: seq<M.Request>, a: int)
    requires Covers(store, p) && a in store
    ensures FlatRun(p, store, ts).0[a] == LastWritten(p, ts, a, store[a])
    decreases |ts|
  {
    if ts != [] {
      FlatRunLastWrites(p, FlatServe(p, store, ts[0]).0, ts[1..], a);
      LastWrittenCons(p, ts, a, store[a]);
    }
  }

  /** After any run, an accepted read through the bus returns for each address the byte last written there. */
  lemma ReadReturnsLastWrite(p: Platform, mems: seq<M.State>, store: Store, ts: seq<M.Request>, t: M.Request, k: nat)
    requires Wired(p) && MemoriesValid(p, mems) && Represents(p, mems, store)
    requires t.cmd == M.Read && FlatRefusal(p, t).None? && k < |t.data|
    ensures t.adr + k in store
    ensures var out := Serve(p, Run(p, mems, ts).0, t).1;
            out.Reply? && out.status == M.Ok && |out.data| == |t.data| &&
            out.data[k] == LastWritten(p, ts, t.adr + k, store[t.adr + k])
  {
    var store' := FlatRun(p, store, ts).0;
    RunIsFlat(p, mems, store, ts);
    FlatReadAt(p, store, t, k);
    FlatRunLastWrites(p, store, ts, t.adr + k);
    FlatReadAt(p, store', t, k);
    ServeIsFlat(p, Run(p, mems, ts).0, store', t);
  }

  lemma FlatReadAt(p: Platform, store: Store, t: M.Request, k: nat)
    requires Covers(store, p) && t.cmd == M.Read && FlatRefusal(p, t).None? && k < |t.data|
    ensures t.adr + k in store
    ensures var out := FlatServe(p, store, t).1;
            out.status == M.Ok && |out.data| == |t.data| && out.data[k] == store[t.adr + k]
  {
    AcceptedInStore(p, store, t);
  }

  // ---------------------------------------------------------------- from the memory map to a wired platform

  /** The targets of an origin as the memory map lists them: one name each, no port yet. */
  predicate Listed(targets: seq<TargetInfo>) {
    && (forall i, j :: 0 <= i < j < |targets| ==> targets[i].name != targets[j].name)
    && (forall i :: 0 <= i < |targets| ==> targets[i].port == BAD_PORT)
  }

  /** What the bus makes of the extension a probe brings back. */
  function ReplyOf(status: M.Status, e: Option<M.Settings>): ProbeReply {
    if status != M.Ok then BadResponse
    else if e.Some? && e.value.target.Some? && e.value.name.Some? && e.value.kind.Some?
    then Configuration(e.value.name.value, e.value.kind.value, e.value.target.value)
    else NoConfiguration
  }

  /** Each socket answers with the record of its memory. */
  function RepliesOf(devices: seq<M.Device>): (r: seq<ProbeReply>)
    ensures |r| == |devices|
  {
    seq(|devices|, k requires 0 <= k < |devices| => ReplyOf(M.Ok, Some(devices[k].record)))
  }

  function Configs(devices: seq<M.Device>): (r: seq<M.Config>)
    ensures |r| == |devices|
  {
    seq(|devices|, k requires 0 <= k < |devices| => devices[k].config)
  }

  predicate AllDescribed(devices: seq<M.Device>) {
    forall k :: 0 <= k < |devices| ==> M.Described(devices[k])
  }

  /** Every reply has its memory's target size. */
  predicate Answers(replies: seq<ProbeReply>, configs: seq<M.Config>) {
    && |replies| == |configs|
    && (forall k :: 0 <= k < |replies| ==> replies[k].Configuration? && replies[k].size == configs[k].target)
  }

  /** The platform of described memories, with a map filled from a listing and probed without a mapping error. */
  predicate Built(p: Platform, targets: seq<TargetInfo>, devices: seq<M.Device>) {
    && Listed(targets) && AllDescribed(devices) && |devices| < NO_PORT
    && p.configs == Configs(devices)
    && (forall k :: 0 <= k < |p.configs| ==> SafeConfig(p, p.configs[k]))
    && p.addrMap == Probed(Filled(targets), RepliesOf(devices)) && Errors(p.addrMap, |p.addrMap|) == 0
  }

  /** Filling, probing and passing the check is enough: the result is wired, so it is a flat memory. */
  lemma BuiltIsWired(p: Platform, targets: seq<TargetInfo>, devices: seq<M.Device>)
    requires Built(p, targets, devices)
    ensures Wired(p)
  {
    var m, replies := Filled(targets), RepliesOf(devices);
    FilledIsMapOf(targets);
    MappedNamesDistinct(targets, m);
    ProbedPortsSafe(m, replies);
    CheckerExactly(p.addrMap);
    forall i | 0 <= i < |p.addrMap| ensures SizeMatches(p, i) {
      if p.addrMap[i].info.port != BAD_PORT {
        BuiltSize(m[i].info, replies, p, p.addrMap[i].info);
      }
    }
  }

  /**
   On a built platform an entry leads to the last memory of its name, and has that memory's kind and
   size; where there is none it stays as listed, without a port.
  */
  lemma BuiltPortsExactly(p: Platform, targets: seq<TargetInfo>, devices: seq<M.Device>, i: nat)
    requires Built(p, targets, devices) && i < |p.addrMap|
    ensures |p.addrMap| == |Filled(targets)|
    ensures var (info, listed) := (p.addrMap[i].info, Filled(targets)[i].info);
            info.name == listed.name && info.base == listed.base && info.irq == listed.irq &&
            if info.port == BAD_PORT then
              info == listed && forall k :: 0 <= k < |devices| ==> devices[k].record.name != Some(info.name)
            else
              0 <= info.port < |devices| &&
              devices[info.port].record.name == Some(info.name) && devices[info.port].record.kind == Some(info.kind) &&
              devices[info.port].config.target == info.size &&
              forall k :: info.port < k < |devices| ==> devices[k].record.name != Some(info.name)
  {
    var listed, replies := Filled(targets)[i].info, RepliesOf(devices);
    FilledIsMapOf(targets);
    assert listed.port == BAD_PORT;
    ProbedTargetExactly(listed, replies);
    ProbedSizeExactly(listed, replies);
    forall k | 0 <= k < |devices|
      ensures Names(replies[k], listed.name) <==> devices[k].record.name == Some(listed.name)
    {
      assert M.Described(devices[k]);
    }
    var info := p.addrMap[i].info;
    if info.port != BAD_PORT {
      assert M.Described(devices[info.port]) && SafeConfig(p, p.configs[info.port]);
      LastSizeWins(listed, replies, info.port);
    }
  }

  lemma BuiltSize(listed: TargetInfo, replies: seq<ProbeReply>, p: Platform, info: TargetInfo)
    requires listed.port == BAD_PORT && info == AfterReplies(listed, replies) && Answers(replies, p.configs)
    requires forall k :: 0 <= k < |p.configs| ==> SafeConfig(p, p.configs[k])
    requires info.port != BAD_PORT && !Malformed(info)
    ensures 0 <= info.port < |p.configs| && info.last == info.base + p.configs[info.port].target - 1
  {
    ProbedTargetExactly(listed, replies);
    ProbedSizeExactly(listed, replies);
    LastSizeWins(listed, replies, info.port);
    assert SafeConfig(p, p.configs[info.port]);
    NoWrapRange(info);
  }

  lemma {:induction false} LastSizeWins(listed: TargetInfo, replies: seq<ProbeReply>, port: nat)
    requires port < |replies| && Names(replies[port], listed.name) && replies[port].size != UNASSIGNED
    requires forall k :: port < k < |replies| ==> !Names(replies[k], listed.name)
    ensures ReportedSize(listed.name, replies, listed.size) == replies[port].size
    decreases |replies|
  {
    if port < |replies| - 1 {
      LastSizeWins(listed, replies[..|replies| - 1], port);
    }
  }

  /** What a memory byte is before anything is written: 0 at the memory's first address, the fill pattern elsewhere. */
  function InitialByte(p: Platform, i: nat, a: int): Byte
    requires i < |p.addrMap|
  {
    if a == p.addrMap[i].info.base then 0 else 0xEA
  }

  /** The debug transaction a port is probed with: no command, a reserved address, no data. */
  const PROBE: M.Request := M.Request(M.Ignore, BAD_ADDR, [], false, 0)

  /** New memories at the end of elaboration: each has served one probe. */
  function ProbedMemories(p: Platform): (mems: seq<M.State>)
    ensures |mems| == |p.configs|
  {
    AfterProbes(p.configs, seq(|p.configs|, _ => M.FRESH))
  }

  function AfterProbes(configs: seq<M.Config>, mems: seq<M.State>): (r: seq<M.State>)
    requires |configs| == |mems|
    ensures |r| == |mems|
  {
    seq(|mems|, k requires 0 <= k < |mems| => M.ServeDebug(configs[k], mems[k], PROBE).0)
  }

  /**
   From listing to reading: on a platform built from a listing without error, with memories that
   were new when probed, an accepted read after any run of accesses returns for each address the
   byte last written there, or the initial one.
  */
  lemma BuiltPlatformReadsBack(p: Platform, targets: seq<TargetInfo>, devices: seq<M.Device>,
                               ts: seq<M.Request>, t: M.Request, k: nat, i: nat)
    requires Built(p, targets, devices)
    requires t.cmd == M.Read && FlatRefusal(p, t).None? && k < |t.data| && Backed(p, i, t.adr + k)
    ensures var out := Serve(p, Run(p, ProbedMemories(p), ts).0, t).1;
            out.Reply? && out.status == M.Ok && |out.data| == |t.data| &&
            out.data[k] == LastWritten(p, ts, t.adr + k, InitialByte(p, i, t.adr + k))
  {
    BuiltIsWired(p, targets, devices);
    FreshReadsBack(p, ts, t, k, i);
  }

  lemma FreshReadsBack(p: Platform, ts: seq<M.Request>, t: M.Request, k: nat, i: nat)
    requires Wired(p)
    requires t.cmd == M.Read && FlatRefusal(p, t).None? && k < |t.data| && Backed(p, i, t.adr + k)
    ensures var out := Serve(p, Run(p, ProbedMemories(p), ts).0, t).1;
            out.Reply? && out.status == M.Ok && |out.data| == |t.data| &&
            out.data[k] == LastWritten(p, ts, t.adr + k, InitialByte(p, i, t.adr + k))
  {
    var mems := ProbedMemories(p);
    forall c | 0 <= c < |mems|
      ensures M.Valid(p.configs[c], mems[c]) && M.Flat(p.configs[c], mems[c]) == M.Flat(p.configs[c], M.FRESH)
    {
      assert SafeConfig(p, p.configs[c]);
      M.DebugExactly(p.configs[c], M.FRESH, PROBE);
    }
    var store := SomeStore(p, mems);
    assert SizeMatches(p, i) && store[t.adr + k] == ByteOf(p, mems, i, t.adr + k);
    ReadReturnsLastWrite(p, mems, store, ts, t, k);
  }

  /** The size a bus advertises to its own initiators. */
  function AdvertisedSize(m: seq<Mapping>): Depth {
    (HighestLast(m, |m|) - LowestBase(m, |m|)) % TWO64 % TWO32
  }

  /**
   The advertised range begins at the lowest base and is one byte short of the span, or of what a
   span of 4 GiB or more leaves in 32 bits; with no well-formed range it fits no address.
  */
  lemma AdvertisedRangeExactly(m: seq<Mapping>, a: Addr)
    ensures var lo, hi := LowestBase(m, |m|), HighestLast(m, |m|);
            MaskIfFits(a, lo, AdvertisedSize(m)).Some? <==> lo <= hi && lo <= a < lo + (hi - lo) % TWO32
  {
    var lo, hi := LowestBase(m, |m|), HighestLast(m, |m|);
    LimitsOrdered(m);
    if lo <= hi {
      Small64(hi - lo);
      Fits32(lo, (hi - lo) % TWO32, hi);
    }
  }

  lemma LimitsOrdered(m: seq<Mapping>)
    ensures LowestBase(m, |m|) <= HighestLast(m, |m|) || (LowestBase(m, |m|) == MAX_ADDR && HighestLast(m, |m|) == 0)
  {
    if i :| 0 <= i < |m| && !Malformed(m[i].info) {
      LimitsTight(m, |m|);
    } else {
      NoLimits(m, |m|);
    }
  }

  lemma Small64(n: nat)
    requires n < TWO64
    ensures n % TWO64 == n
  {
  }

  lemma Fits32(lo: Addr, size: nat, hi: Addr)
    requires lo <= hi && size <= hi - lo
    ensures (lo + size) % TWO64 == lo + size
  {
  }

  lemma {:induction false} NoLimits(m: seq<Mapping>, n: nat)
    requires n <= |m| && forall i :: 0 <= i < n ==> Malformed(m[i].info)
    ensures LowestBase(m, n) == MAX_ADDR && HighestLast(m, n) == 0
  {
    if n > 0 {
      NoLimits(m, n - 1);
    }
  }

  lemma FilledNamesDistinct(targets: seq<TargetInfo>)
    requires Listed(targets)
    ensures DistinctNames(Filled(targets))
  {
    FilledIsMapOf(targets);
    MappedNamesDistinct(targets, Filled(targets));
  }

  lemma FilledIsSafe(targets: seq<TargetInfo>, replies: seq<ProbeReply>)
    requires Listed(targets)
    ensures var m := Filled(targets);
            Ordered(Probed(m, replies)) && KeyIsBase(Probed(m, replies)) &&
            DistinctNames(Probed(m, replies)) && PortsSafe(Probed(m, replies), |replies|)
  {
    FilledIsMapOf(targets);
    FilledNamesDistinct(targets);
    ProbedPortsSafe(Filled(targets), replies);
  }

  /** A map after one reply. */
  function Applied(m: seq<Mapping>, port: nat, reply: ProbeReply): (r: seq<Mapping>)
    ensures |r| == |m|
  {
    seq(|m|, i requires 0 <= i < |m| => Mapping(m[i].key, AfterReply(m[i].info, port, reply)))
  }

  lemma AppliedNext(m: seq<Mapping>, replies: seq<ProbeReply>, port: nat)
    requires DistinctNames(m) && port < |replies|
    ensures DistinctNames(Probed(m, replies[..port]))
    ensures Applied(Probed(m, replies[..port]), port, replies[port]) == Probed(m, replies[..port + 1])
  {
    assert replies[..port + 1][..port] == replies[..port];
    forall i | 0 <= i < |m| ensures Probed(m, replies[..port])[i].info.name == m[i].info.name {
      ProbingKeepsIdentity(m[i].info, replies[..port]);
    }
  }

  /** The memories when the first `port` of them have been probed. */
  function ProbedSoFar(devices: seq<M.Device>, mems: seq<M.State>, port: nat): (r: seq<M.State>)
    requires |devices| == |mems| && port <= |mems|
    ensures |r| == |mems|
  {
    AfterProbes(Configs(devices), mems)[..port] + mems[port..]
  }

  lemma ProbedNext(devices: seq<M.Device>, mems: seq<M.State>, port: nat)
    requires |devices| == |mems| && port < |mems|
    ensures ProbedSoFar(devices, mems, port)[port] == mems[port]
    ensures ProbedSoFar(devices, mems, port)[port := M.ServeDebug(devices[port].config, mems[port], PROBE).0]
            == ProbedSoFar(devices, mems, port + 1)
  {
  }

  lemma ProbedAll(devices: seq<M.Device>, mems: seq<M.State>)
    requires |devices| == |mems|
    ensures ProbedSoFar(devices, mems, 0) == mems
    ensures ProbedSoFar(devices, mems, |mems|) == AfterProbes(Configs(devices), mems)
  {
  }

  /** Some memory has no target size. */
  predicate SomeEmpty(devices: seq<M.Device>) {
    exists k :: 0 <= k < |devices| && devices[k].config.target == 0
  }

  // ---------------------------------------------------------------- the module

  class BusModule {
    const sockets: seq<M.MemoryModule>
    const errorAtTarget: bool
    var addrMap: seq<Mapping>
    var targetBase: Addr
    var targetSize: Depth

    /** Sockets are bound to distinct memories, and there are fewer of them than port numbers. */
    predicate Distinct() {
      |sockets| < NO_PORT && forall i, j :: 0 <= i < j < |sockets| ==> sockets[i] != sockets[j]
    }

    predicate TargetsValid()
      reads sockets
    {
      forall i :: 0 <= i < |sockets| ==> sockets[i].Valid()
    }

    predicate Bound()
      reads sockets
    {
      Distinct() && TargetsValid()
    }

    /** The map is ordered and its ports are safe. */
    predicate Valid()
      reads this, sockets
    {
      Bound() && Ordered(addrMap) && KeyIsBase(addrMap) && DistinctNames(addrMap) && PortsSafe(addrMap, |sockets|)
    }

    constructor (sockets: seq<M.MemoryModule>, errorAtTarget: bool)
      ensures this.sockets == sockets && this.errorAtTarget == errorAtTarget && addrMap == []
      ensures Bound() ==> Valid()
    {
      this.sockets, this.errorAtTarget := sockets, errorAtTarget;
      addrMap, targetBase, targetSize := [], 0, 0;
    }

    function AsPlatform(): Platform
      reads this, sockets
    {
      Platform(addrMap, Configs(Devices()), errorAtTarget)
    }

    function Devices(): (r: seq<M.Device>)
      reads sockets
      ensures |r| == |sockets|
      ensures forall i :: 0 <= i < |r| ==> r[i] == sockets[i].AsDevice()
    {
      seq(|sockets|, i requires 0 <= i < |sockets| reads sockets => sockets[i].AsDevice())
    }

    function Memories(): (r: seq<M.State>)
      reads sockets
      ensures |r| == |sockets|
      ensures forall i :: 0 <= i < |r| ==> r[i] == sockets[i].AsState()
    {
      seq(|sockets|, i requires 0 <= i < |sockets| reads sockets => sockets[i].AsState())
    }

    /**
     Sends a probe through every socket; every mapping the answer names gets the port, the kind, and
     a size unless none was reported.  It faults exactly at a memory without a target size.
    */
    method ProbePorts() returns (fault: bool)
      requires Bound() && DistinctNames(addrMap)
      modifies this`addrMap, sockets
      ensures fault <==> SomeEmpty(old(Devices()))
      ensures !fault ==>
                Bound() && Devices() == old(Devices()) &&
                Memories() == AfterProbes(Configs(old(Devices())), old(Memories())) &&
                addrMap == Probed(old(addrMap), RepliesOf(old(Devices())))
    {
      ghost var map0, devices, mems := addrMap, Devices(), Memories();
      ghost var replies := RepliesOf(devices);
      var probe := new M.Payload(PROBE, Some(M.EMPTY));
      var port := 0;
      assert replies[..0] == [] && replies[..|replies|] == replies;
      ProbedAll(devices, mems);
      while port < |sockets|
        invariant 0 <= port <= |sockets| && fresh(probe) && probe.AsRequest() == PROBE
        invariant TargetsValid() && Devices() == devices
        invariant forall k :: 0 <= k < port ==> devices[k].config.target > 0
        invariant Memories() == ProbedSoFar(devices, mems, port)
        invariant addrMap == Probed(map0, replies[..port])
      {
        AppliedNext(map0, replies, port);
        ProbedNext(devices, mems, port);
        fault := ProbePort(port, probe);
        if fault {
          return;
        }
        port := port + 1;
      }
      fault := false;
    }

    method ProbePort(port: nat, probe: M.Payload) returns (fault: bool)
      requires Bound() && DistinctNames(addrMap) && port < |sockets| && probe.AsRequest() == PROBE
      modifies this`addrMap, probe, sockets[port]
      ensures fault <==> old(Devices())[port].config.target == 0
      ensures !fault ==>
                TargetsValid() && probe.AsRequest() == PROBE && Devices() == old(Devices()) &&
                Memories() ==
                old(Memories())[port := M.ServeDebug(old(Devices())[port].config, old(Memories())[port], PROBE).0] &&
                addrMap == Applied(old(addrMap), port, RepliesOf(old(Devices()))[port])
    {
      var reply;
      fault, reply := ProbeOne(port, probe);
      if !fault {
        ApplyReply(port, reply);
      }
    }

    /** One probe: the transaction is set up again and sent, and its extension read. */
    method ProbeOne(port: nat, probe: M.Payload) returns (fault: bool, reply: ProbeReply)
      requires Bound() && port < |sockets| && probe.AsRequest() == PROBE
      modifies probe, sockets[port]
      ensures fault <==> old(Devices())[port].config.target == 0
      ensures !fault ==>
                TargetsValid() && probe.AsRequest() == PROBE && Devices() == old(Devices()) &&
                reply == RepliesOf(old(Devices()))[port] &&
                Memories() ==
                old(Memories())[port := M.ServeDebug(old(Devices())[port].config, old(Memories())[port], PROBE).0]
    {
      probe.address := BAD_ADDR;
      probe.status := M.Incomplete;
      probe.extension := Some(M.EMPTY);
      var count;
      fault, count := sockets[port].TransportDbg(probe);
      reply := ReplyOf(probe.status, probe.extension);
    }

    /** Every mapping a proper reply names is updated in place. */
    method ApplyReply(port: nat, reply: ProbeReply)
      requires DistinctNames(addrMap)
      modifies this`addrMap
      ensures addrMap == Applied(old(addrMap), port, reply)
    {
      ghost var was := addrMap;
      if !reply.Configuration? {
        return;
      }
      var configSize := reply.size;
      var i := 0;
      while i < |addrMap|
        invariant 0 <= i <= |addrMap| == |was|
        invariant forall k :: 0 <= k < i ==> addrMap[k] == Mapping(was[k].key, AfterReply(was[k].info, port, reply))
        invariant forall k :: i <= k < |was| ==> addrMap[k] == was[k]
        invariant configSize == reply.size || exists k :: 0 <= k < i && Names(reply, was[k].info.name)
      {
        var mapped := addrMap[i].info;
        if mapped.name == reply.name {
          mapped := mapped.(port := port, kind := reply.kind);
          if configSize == UNASSIGNED {
            configSize := mapped.size;
          } else {
            mapped := mapped.(size := configSize);
          }
          mapped := mapped.(last := (mapped.base + configSize - 1) % TWO64);
          addrMap := addrMap[i := Mapping(addrMap[i].key, mapped)];
        }
        i := i + 1;
      }
    }

    /** Start of simulation: fill the map, probe the ports, check the result, publish base and size. */
    method BuildPortMap(origin: Option<seq<TargetInfo>>) returns (fault: bool, errors: nat)
      requires Bound() && (origin.Some? ==> Listed(origin.value))
      modifies this, sockets
      ensures fault <==> SomeEmpty(old(Devices()))
      ensures !fault ==>
                Valid() && Devices() == old(Devices()) &&
                Memories() == AfterProbes(Configs(old(Devices())), old(Memories())) &&
                addrMap == Probed(Filled(origin.Or([])), RepliesOf(old(Devices()))) &&
                errors == Errors(addrMap, |addrMap|) &&
                targetBase == LowestBase(addrMap, |addrMap|) && targetSize == AdvertisedSize(addrMap)
    {
      errors := 0;
      fault := FillAndProbe(origin);
      if !fault {
        errors := CheckAndPublish();
      }
    }

    method FillAndProbe(origin: Option<seq<TargetInfo>>) returns (fault: bool)
      requires Bound() && (origin.Some? ==> Listed(origin.value))
      modifies this`addrMap, sockets
      ensures fault <==> SomeEmpty(old(Devices()))
      ensures !fault ==>
                Valid() && Devices() == old(Devices()) &&
                Memories() == AfterProbes(Configs(old(Devices())), old(Memories())) &&
                addrMap == Probed(Filled(origin.Or([])), RepliesOf(old(Devices())))
    {
      LoadMap(origin);
      fault := ProbePorts();
      FilledIsSafe(origin.Or([]), RepliesOf(old(Devices())));
    }

    method LoadMap(origin: Option<seq<TargetInfo>>)
      requires origin.Some? ==> Listed(origin.value)
      modifies this`addrMap
      ensures addrMap == Filled(origin.Or([])) && DistinctNames(addrMap)
    {
      var duplicates;
      addrMap, duplicates := GetAddressMap(origin);
      assert addrMap == Filled(origin.Or([]));
      FilledNamesDistinct(origin.Or([]));
    }

    method CheckAndPublish() returns (errors: nat)
      modifies this`targetBase, this`targetSize
      ensures errors == Errors(addrMap, |addrMap|)
      ensures targetBase == LowestBase(addrMap, |addrMap|) && targetSize == AdvertisedSize(addrMap)
    {
      var lo, hi;
      errors, lo, hi := CheckPortMap(addrMap);
      targetBase := lo;
      targetSize := (hi - lo) % TWO64 % TWO32;
    }

    method DecodeAddress(address: Addr) returns (port: nat, masked: Addr)
      ensures (port, masked) == Decode(addrMap, address)
    {
      port, masked := NO_PORT, BAD_ADDR;
      if address == BAD_ADDR {
        return;
      }
      var lookup := LowerBound(addrMap, address);
      if lookup == |addrMap| {
        return;
      }
      var base := addrMap[lookup].key;
      if base == MAX_ADDR || base == BAD_ADDR {
        return;
      }
      if address > addrMap[lookup].info.last {
        return;
      }
      masked := address - base;
      port := addrMap[lookup].info.port % TWO32;
    }

    /** The range guard, although it lets one index too many through, keeps the port within the sockets. */
    method BTransport(trans: M.Payload) returns (fault: bool)
      requires Valid() && |trans.data| < TWO32
      modifies trans`address, trans`data, trans`status, sockets
      ensures Valid() && Devices() == old(Devices())
      ensures var (mems, out) := Serve(AsPlatform(), old(Memories()), old(trans.AsRequest()));
              fault == out.Fault? &&
              (!fault ==> Memories() == mems && trans.data == out.data && trans.status == out.status)
      ensures trans.address ==
              var (port, masked) := Decode(addrMap, old(trans.address));
              if port < |sockets| then masked else old(trans.address)
    {
      fault := false;
      var target, masked := DecodeAddress(trans.address);
      if target > |sockets| {
        trans.status := if errorAtTarget then M.Ok else M.AddressError;
        return;
      }
      GuardIsEnough(addrMap, |sockets|, trans.address);
      trans.address := masked;
      fault := Forward(target, trans);
    }

    method Forward(target: nat, trans: M.Payload) returns (fault: bool)
      requires Bound() && target < |sockets| && |trans.data| < TWO32
      modifies trans`data, trans`status, sockets[target]
      ensures Bound() && Devices() == old(Devices())
      ensures var (s, out) :=
                M.Serve(Devices()[target].config, old(Memories())[target], old(trans.AsRequest()), M.LT);
              fault == out.Fault? &&
              (!fault ==> Memories() == old(Memories())[target := s]
                          && trans.data == out.data && trans.status == out.status)
    {
      fault := sockets[target].BTransport(trans);
    }
  }
}
