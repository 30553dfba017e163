/**
 The bus address map: filling it from the memory map, probing the ports, the overlap
 checker and the address decoder.

 The ordered map of the original (keys descending) is a sequence in iteration order.
*/
module AddressMap {
  import opened Common

  type Port = int
  const BAD_PORT: Port := -1
  const UNASSIGNED: Depth := 0

  datatype TargetInfo = TargetInfo(
    port: Port, base: Addr, last: Addr, size: Depth, irq: int, name: string, kind: string)
  datatype Mapping = Mapping(key: Addr, info: TargetInfo)

  predicate Ordered(m: seq<Mapping>) {
    forall i, j :: 0 <= i < j < |m| ==> m[i].key > m[j].key
  }

  predicate KeyIsBase(m: seq<Mapping>) {
    forall i :: 0 <= i < |m| ==> m[i].key == m[i].info.base
  }

  predicate DistinctNames(m: seq<Mapping>) {
    forall i, j :: 0 <= i < j < |m| ==> m[i].info.name != m[j].info.name
  }

  /** `m[key] = info` on the ordered map. */
  function Put(m: seq<Mapping>, key: Addr, info: TargetInfo): (r: seq<Mapping>)
    requires Ordered(m)
    ensures Ordered(r)
    ensures forall e :: e in r ==> e == Mapping(key, info) || e in m
  {
    if m == [] || m[0].key < key then [Mapping(key, info)] + m
    else if m[0].key == key then [Mapping(key, info)] + m[1..]
    else
      var rest := Put(m[1..], key, info);
      assert forall k :: 1 <= k < |m| ==> m[k].key < m[0].key;
      assert forall e :: e in m[1..] ==> e.key < m[0].key;
      assert forall e :: e in rest ==> e.key < m[0].key;
      [m[0]] + rest
  }

  function Find(m: seq<Mapping>, key: Addr): Option<TargetInfo> {
    if m == [] then None
    else if m[0].key == key then Some(m[0].info)
    else Find(m[1..], key)
  }

  /** Looking up after an update, and the growth of the map. */
  lemma FindPut(m: seq<Mapping>, key: Addr, info: TargetInfo, k: Addr)
    requires Ordered(m)
    ensures Find(Put(m, key, info), k) == if k == key then Some(info) else Find(m, k)
    ensures |Put(m, key, info)| == if Find(m, key).Some? then |m| else |m| + 1
  {
    if m != [] && m[0].key > key {
      FindPut(m[1..], key, info, k);
    } else if m != [] && m[0].key < key {
      FindBelow(m, key);
    }
  }

  lemma FindBelow(m: seq<Mapping>, key: Addr)
    requires Ordered(m) && m != [] && m[0].key < key
    ensures Find(m, key).None?
  {
    if |m| > 1 {
      FindBelow(m[1..], key);
    }
  }

  // ---------------------------------------------------------------- from the memory map

  /** The last target listed at this base. */
  function LastWithBase(targets: seq<TargetInfo>, base: Addr): Option<TargetInfo> {
    if targets == [] then None
    else if targets[|targets| - 1].base == base then Some(targets[|targets| - 1])
    else LastWithBase(targets[..|targets| - 1], base)
  }

  /** `m` is what the listed targets amount to. */
  ghost predicate MapOf(m: seq<Mapping>, targets: seq<TargetInfo>) {
    && Ordered(m) && KeyIsBase(m)
    && (forall base: Addr :: Find(m, base) == LastWithBase(targets, base))
    && (forall i :: 0 <= i < |m| ==> m[i].info in targets)
  }

  function Filled(targets: seq<TargetInfo>): (m: seq<Mapping>)
    ensures Ordered(m)
  {
    if targets == [] then []
    else
      var t := targets[|targets| - 1];
      Put(Filled(targets[..|targets| - 1]), t.base, t)
  }

  /** Each target of an origin, in name order, is put at its base; a base seen before is a duplicate. */
  method GetAddressMap(origin: Option<seq<TargetInfo>>) returns (m: seq<Mapping>, duplicates: nat)
    ensures origin.None? ==> m == [] && duplicates == 0
    ensures origin.Some? ==> m == Filled(origin.value) && |m| + duplicates == |origin.value|
  {
    m, duplicates := [], 0;
    if origin.None? {
      return;
    }
    var targets := origin.value;
    for k := 0 to |targets|
      invariant m == Filled(targets[..k]) && |m| + duplicates == k
    {
      var base := targets[k].base;
      FilledStep(targets, k);
      if Find(m, base).Some? {
        duplicates := duplicates + 1;
      }
      m := Put(m, base, targets[k]);
    }
    assert targets[..|targets|] == targets;
  }

  lemma FilledStep(targets: seq<TargetInfo>, k: nat)
    requires k < |targets|
    ensures var m, t := Filled(targets[..k]), targets[k];
            Filled(targets[..k + 1]) == Put(m, t.base, t) &&
            |Put(m, t.base, t)| == |m| + if Find(m, t.base).Some? then 0 else 1
  {
    assert targets[..k + 1][..k] == targets[..k];
    FindPut(Filled(targets[..k]), targets[k].base, targets[k], targets[k].base);
  }

  /** The filled map is ordered, keyed by base, and keeps for every base the last target listed there. */
  lemma {:induction false} FilledIsMapOf(targets: seq<TargetInfo>)
    ensures MapOf(Filled(targets), targets)
  {
    if targets != [] {
      var n := |targets| - 1;
      FilledIsMapOf(targets[..n]);
      AddTarget(Filled(targets[..n]), targets[..n], targets[n]);
      assert targets[..n] + [targets[n]] == targets;
    }
  }

  lemma AddTarget(m: seq<Mapping>, targets: seq<TargetInfo>, t: TargetInfo)
    requires MapOf(m, targets)
    ensures MapOf(Put(m, t.base, t), targets + [t])
  {
    var r := Put(m, t.base, t);
    forall b: Addr ensures Find(r, b) == LastWithBase(targets + [t], b) {
      assert (targets + [t])[..|targets|] == targets;
      FindPut(m, t.base, t, b);
    }
    forall i | 0 <= i < |r| ensures r[i].info in targets + [t] && r[i].key == r[i].info.base {
      assert r[i] in r;
    }
  }

  /** Target names are the keys of a map in the original; that makes the mapped names distinct. */
  lemma MappedNamesDistinct(targets: seq<TargetInfo>, m: seq<Mapping>)
    requires forall i, j :: 0 <= i < j < |targets| ==> targets[i].name != targets[j].name
    requires MapOf(m, targets)
    ensures DistinctNames(m)
  {
  }

  // ---------------------------------------------------------------- probing

  /** What a debug probe of one socket brings back; the keys name, kind and target_size may be missing. */
  datatype ProbeReply = BadResponse | NoConfiguration | Configuration(name: string, kind: string, size: Depth)

  predicate Names(reply: ProbeReply, name: string) {
    reply.Configuration? && reply.name == name
  }

  /** The size a probe leaves: its own unless it is unassigned. */
  function ProbedSize(info: TargetInfo, reply: ProbeReply): Depth
    requires reply.Configuration?
  {
    if reply.size == UNASSIGNED then info.size else reply.size
  }

  function AfterReply(info: TargetInfo, port: Port, reply: ProbeReply): TargetInfo {
    if Names(reply, info.name) then
      var size := ProbedSize(info, reply);
      info.(port := port, kind := reply.kind, size := size, last := (info.base + size - 1) % TWO64)
    else info
  }

  function AfterReplies(info: TargetInfo, replies: seq<ProbeReply>): TargetInfo {
    var n := |replies|;
    if n == 0 then info else AfterReply(AfterReplies(info, replies[..n - 1]), n - 1, replies[n - 1])
  }

  function Probed(m: seq<Mapping>, replies: seq<ProbeReply>): (r: seq<Mapping>)
    ensures |r| == |m|
  {
    seq(|m|, i requires 0 <= i < |m| => Mapping(m[i].key, AfterReplies(m[i].info, replies)))
  }

  lemma {:induction false} ProbingKeepsIdentity(info: TargetInfo, replies: seq<ProbeReply>)
    ensures AfterReplies(info, replies).name == info.name && AfterReplies(info, replies).base == info.base
  {
    if replies != [] {
      ProbingKeepsIdentity(info, replies[..|replies| - 1]);
    }
  }

  /** The port a mapping ends with is the last one that answered with its name. */
  lemma {:induction false} ProbedTargetExactly(info: TargetInfo, replies: seq<ProbeReply>)
    requires info.port == BAD_PORT
    ensures var r := AfterReplies(info, replies);
            r.name == info.name && r.base == info.base && r.irq == info.irq &&
            (r.port == BAD_PORT ==> r == info && forall p :: 0 <= p < |replies| ==> !Names(replies[p], info.name)) &&
            (r.port != BAD_PORT ==>
               0 <= r.port < |replies| && Names(replies[r.port], info.name) && r.kind == replies[r.port].kind &&
               (forall p :: r.port < p < |replies| ==> !Names(replies[p], info.name)) &&
               r.last == (r.base + r.size - 1) % TWO64)
  {
    var n := |replies|;
    if n > 0 {
      ProbedTargetExactly(info, replies[..n - 1]);
    }
  }

  /** The last size reported under this name, or the one listed if none was. */
  function ReportedSize(name: string, replies: seq<ProbeReply>, listed: Depth): Depth {
    if replies == [] then listed
    else
      var reply := replies[|replies| - 1];
      if Names(reply, name) && reply.size != UNASSIGNED then reply.size
      else ReportedSize(name, replies[..|replies| - 1], listed)
  }

  /** A size that no probe reports stays as listed. */
  lemma {:induction false} ProbedSizeExactly(info: TargetInfo, replies: seq<ProbeReply>)
    ensures AfterReplies(info, replies).size == ReportedSize(info.name, replies, info.size)
  {
    if replies != [] {
      ProbedSizeExactly(info, replies[..|replies| - 1]);
      ProbingKeepsIdentity(info, replies[..|replies| - 1]);
    }
  }

  predicate PortsSafe(m: seq<Mapping>, sockets: nat) {
    && (forall i :: 0 <= i < |m| ==> m[i].info.port == BAD_PORT || 0 <= m[i].info.port < sockets)
    && (forall i, j :: 0 <= i < j < |m| && m[i].info.port == m[j].info.port ==> m[i].info.port == BAD_PORT)
  }

  /** After probing, every port is unassigned or a socket index, and no socket serves two mappings. */
  lemma ProbedPortsSafe(m: seq<Mapping>, replies: seq<ProbeReply>)
    requires Ordered(m) && KeyIsBase(m) && DistinctNames(m)
    requires forall i :: 0 <= i < |m| ==> m[i].info.port == BAD_PORT
    ensures var r := Probed(m, replies);
            Ordered(r) && KeyIsBase(r) && DistinctNames(r) && PortsSafe(r, |replies|)
  {
    forall i | 0 <= i < |m|
      ensures var q := Probed(m, replies)[i].info;
              (q.base == m[i].info.base && q.name == m[i].info.name
               && (q.port == BAD_PORT || (0 <= q.port < |replies| && Names(replies[q.port], m[i].info.name))))
    {
      ProbedTargetExactly(m[i].info, replies);
    }
  }

  // ---------------------------------------------------------------- the checker

  predicate Malformed(info: TargetInfo) {
    info.base == BAD_ADDR || info.base == MAX_ADDR || info.last < info.base
  }

  predicate InRange(info: TargetInfo, a: int) {
    info.base <= a <= info.last
  }

  /** The key of `m[j]` lies above that of `m[i]` and within its range. */
  predicate Overlaps(m: seq<Mapping>, i: nat, j: nat)
    requires i < |m| && j < |m|
  {
    m[i].key < m[j].key <= m[i].info.last
  }

  function OverlapCount(m: seq<Mapping>, i: nat, n: nat): nat
    requires i < |m| && n <= |m|
  {
    if n == 0 then 0 else OverlapCount(m, i, n - 1) + if Overlaps(m, i, n - 1) then 1 else 0
  }

  /** One error for a malformed mapping, else one for each mapping it overlaps. */
  function ErrorsOf(m: seq<Mapping>, i: nat): nat
    requires i < |m|
  {
    if Malformed(m[i].info) then 1 else OverlapCount(m, i, |m|)
  }

  function Errors(m: seq<Mapping>, n: nat): nat
    requires n <= |m|
  {
    if n == 0 then 0 else Errors(m, n - 1) + ErrorsOf(m, n - 1)
  }

  function LowestBase(m: seq<Mapping>, n: nat): Addr
    requires n <= |m|
  {
    if n == 0 then MAX_ADDR
    else if !Malformed(m[n - 1].info) && m[n - 1].info.base < LowestBase(m, n - 1) then m[n - 1].info.base
    else LowestBase(m, n - 1)
  }

  function HighestLast(m: seq<Mapping>, n: nat): Addr
    requires n <= |m|
  {
    if n == 0 then 0
    else if !Malformed(m[n - 1].info) && m[n - 1].info.last > HighestLast(m, n - 1) then m[n - 1].info.last
    else HighestLast(m, n - 1)
  }

  /** The folded limits enclose every well-formed range, tightly. */
  lemma {:induction false} LimitsTight(m: seq<Mapping>, n: nat)
    requires n <= |m|
    ensures forall i :: 0 <= i < n && !Malformed(m[i].info) ==>
              LowestBase(m, n) <= m[i].info.base && m[i].info.last <= HighestLast(m, n)
    ensures LowestBase(m, n) == MAX_ADDR ||
            exists i :: 0 <= i < n && !Malformed(m[i].info) && m[i].info.base == LowestBase(m, n)
    ensures HighestLast(m, n) == 0 ||
            exists i :: 0 <= i < n && !Malformed(m[i].info) && m[i].info.last == HighestLast(m, n)
  {
    if n > 0 {
      LimitsTight(m, n - 1);
    }
  }

  /** Counts the mapping errors and folds the lowest base and highest last of the well-formed ranges. */
  method CheckPortMap(m: seq<Mapping>) returns (errors: nat, lo: Addr, hi: Addr)
    ensures errors == Errors(m, |m|) == |MalformedSet(m, |m|)| + |OverlapPairs(m, |m|)|
    ensures lo == LowestBase(m, |m|) && hi == HighestLast(m, |m|)
  {
    lo, hi, errors := MAX_ADDR, 0, 0;
    var i := 0;
    while i < |m|
      invariant 0 <= i <= |m|
      invariant errors == Errors(m, i)
      invariant lo == LowestBase(m, i) && hi == HighestLast(m, i)
    {
      var addr, info := m[i].key, m[i].info;
      if info.base == BAD_ADDR || info.base == MAX_ADDR {
        errors := errors + 1;
        i := i + 1;
        continue;
      }
      if info.last < info.base {
        errors := errors + 1;
        i := i + 1;
        continue;
      }
      if info.base < lo {
        lo := info.base;
      }
      if info.last > hi {
        hi := info.last;
      }
      var j := 0;
      while j < |m|
        invariant 0 <= j <= |m|
        invariant errors == Errors(m, i) + OverlapCount(m, i, j)
      {
        if m[j].key <= addr {
          j := j + 1;
          continue;
        }
        if m[j].key <= info.last {
          errors := errors + 1;
        }
        j := j + 1;
      }
      i := i + 1;
    }
    ErrorsExactly(m, |m|);
  }

  /** A map the checker accepts. */
  ghost predicate Checked(m: seq<Mapping>) {
    && (forall i :: 0 <= i < |m| ==> m[i].info.base < 0xFFFF_FFFF_FFFF_FFFE && m[i].info.base <= m[i].info.last)
    && (forall i, j, a :: 0 <= i < j < |m| && InRange(m[i].info, a) ==> !InRange(m[j].info, a))
  }

  function OverlapSet(m: seq<Mapping>, i: nat, n: nat): set<nat>
    requires i < |m| && n <= |m|
  {
    set j: nat | 0 <= j < n && Overlaps(m, i, j)
  }

  /** The overlap count is the number of mappings overlapped. */
  lemma {:induction false} OverlapCountExactly(m: seq<Mapping>, i: nat, n: nat)
    requires i < |m| && n <= |m|
    ensures OverlapCount(m, i, n) == |OverlapSet(m, i, n)|
  {
    if n > 0 {
      OverlapCountExactly(m, i, n - 1);
      if Overlaps(m, i, n - 1) {
        assert OverlapSet(m, i, n) == OverlapSet(m, i, n - 1) + {n - 1};
      } else {
        assert OverlapSet(m, i, n) == OverlapSet(m, i, n - 1);
      }
    }
  }

  function MalformedSet(m: seq<Mapping>, n: nat): set<nat>
    requires n <= |m|
  {
    set i: nat | 0 <= i < n && Malformed(m[i].info)
  }

  /** The pairs of a well-formed mapping and one it overlaps. */
  function OverlapPairs(m: seq<Mapping>, n: nat): set<(nat, nat)>
    requires n <= |m|
  {
    set i: nat, j: nat | 0 <= i < n && 0 <= j < |m| && !Malformed(m[i].info) && Overlaps(m, i, j) :: (i, j)
  }

  function Paired(i: nat, s: set<nat>): set<(nat, nat)> {
    set j | j in s :: (i, j)
  }

  lemma {:induction false} PairedSize(i: nat, s: set<nat>)
    ensures |Paired(i, s)| == |s|
    decreases |s|
  {
    if s == {} {
      assert Paired(i, s) == {};
    } else {
      var j :| j in s;
      PairedSize(i, s - {j});
      assert Paired(i, s) == Paired(i, s - {j}) + {(i, j)};
    }
  }

  /** The errors counted are the malformed mappings and the overlapping pairs, each once. */
  lemma {:induction false} ErrorsExactly(m: seq<Mapping>, n: nat)
    requires n <= |m|
    ensures Errors(m, n) == |MalformedSet(m, n)| + |OverlapPairs(m, n)|
  {
    if n == 0 {
      assert MalformedSet(m, n) == {} && OverlapPairs(m, n) == {};
    } else {
      var i := n - 1;
      ErrorsExactly(m, i);
      if Malformed(m[i].info) {
        assert MalformedSet(m, n) == MalformedSet(m, i) + {i};
        assert OverlapPairs(m, n) == OverlapPairs(m, i);
      } else {
        var mine := Paired(i, OverlapSet(m, i, |m|));
        assert MalformedSet(m, n) == MalformedSet(m, i);
        assert OverlapPairs(m, n) == OverlapPairs(m, i) + mine && OverlapPairs(m, i) !! mine;
        PairedSize(i, OverlapSet(m, i, |m|));
        OverlapCountExactly(m, i, |m|);
      }
    }
  }

  lemma OverlapsZero(m: seq<Mapping>, i: nat, n: nat)
    requires i < |m| && n <= |m|
    ensures OverlapCount(m, i, n) == 0 <==> forall j :: 0 <= j < n ==> !Overlaps(m, i, j)
  {
  }

  lemma ErrorsZero(m: seq<Mapping>, n: nat)
    requires n <= |m|
    ensures Errors(m, n) == 0 <==> forall i :: 0 <= i < n ==> ErrorsOf(m, i) == 0
  {
  }

  /** Sound and complete: no error exactly when every range is proper and all are pairwise disjoint. */
  lemma CheckerExactly(m: seq<Mapping>)
    requires Ordered(m) && KeyIsBase(m)
    ensures Errors(m, |m|) == 0 <==> Checked(m)
  {
    ErrorsZero(m, |m|);
    if Errors(m, |m|) == 0 {
      forall i | 0 <= i < |m| ensures !Malformed(m[i].info) {
        assert ErrorsOf(m, i) == 0;
      }
      forall i, j, a | 0 <= i < j < |m| && InRange(m[i].info, a) ensures !InRange(m[j].info, a) {
        assert ErrorsOf(m, j) == 0;
        OverlapsZero(m, j, |m|);
        assert !Overlaps(m, j, i);
      }
    }
    if Checked(m) {
      forall i | 0 <= i < |m| ensures ErrorsOf(m, i) == 0 {
        forall j: nat | j < |m| ensures !Overlaps(m, i, j) {
          if m[i].key < m[j].key {
            assert j < i && InRange(m[j].info, m[j].key);
            assert !InRange(m[i].info, m[j].key);
          }
        }
        OverlapsZero(m, i, |m|);
      }
    }
  }

  // ---------------------------------------------------------------- decoding

  function MaskIfFits(address: Addr, start: Addr, depth: Depth): Option<Addr> {
    if address >= start && address < (start + depth) % TWO64 then Some(address - start) else None
  }

  /** `lower_bound` with descending keys: the first mapping whose key is not above the address. */
  function LowerBound(m: seq<Mapping>, address: Addr): (i: nat)
    ensures i <= |m|
    ensures forall k :: 0 <= k < i ==> m[k].key > address
    ensures i < |m| ==> m[i].key <= address
  {
    if m == [] || m[0].key <= address then 0 else 1 + LowerBound(m[1..], address)
  }

  /** The mapping the decoder settles on. */
  function Lookup(m: seq<Mapping>, address: Addr): (r: Option<nat>)
    ensures r.Some? ==> r.value < |m| && m[r.value].key <= address
  {
    var i := LowerBound(m, address);
    if address == BAD_ADDR || i == |m| || m[i].key == MAX_ADDR || m[i].key == BAD_ADDR || address > m[i].info.last
    then None else Some(i)
  }

  /** The decoded port as the unsigned 32-bit value the callers test, and the address within the target. */
  const NO_PORT: nat := 0xFFFF_FFFF

  function Decode(m: seq<Mapping>, address: Addr): (r: (nat, Addr)) {
    var hit := Lookup(m, address);
    if hit.None? then (NO_PORT, BAD_ADDR)
    else (m[hit.value].info.port % TWO32, address - m[hit.value].key)
  }

  /** The range guard of the callers, which only refuses ports beyond the socket count, is enough. */
  lemma GuardIsEnough(m: seq<Mapping>, sockets: nat, address: Addr)
    requires PortsSafe(m, sockets) && sockets < NO_PORT
    ensures Decode(m, address).0 <= sockets ==> Decode(m, address).0 < sockets
  {
  }

  /** On a checked map the decoder answers exactly when a range holds the address, and with that range. */
  lemma LookupExactly(m: seq<Mapping>, address: Addr, i: nat)
    requires Ordered(m) && KeyIsBase(m) && Checked(m)
    ensures Lookup(m, address) == Some(i)
            <==> address != 0xFFFF_FFFF_FFFF_FFFE && i < |m| && InRange(m[i].info, address)
    ensures Lookup(m, address) == Some(i) ==> m[i].info.base + Decode(m, address).1 == address
  {
    var k := LowerBound(m, address);
    if i < |m| && InRange(m[i].info, address) {
      assert k <= i;
      if k < i {
        assert m[k].info.base > m[i].info.base;
        assert InRange(m[i].info, m[k].info.base);
        assert InRange(m[k].info, m[k].info.base);
        assert false;
      }
    }
  }

  /** Without wrap-around an address fits exactly from the start on for the depth, and is masked relative to it. */
  lemma MaskExactly(address: Addr, start: Addr, depth: Depth)
    requires start + depth < 0x1_0000_0000_0000_0000
    ensures MaskIfFits(address, start, depth).Some? <==> start <= address < start + depth
    ensures MaskIfFits(address, start, depth).Some? ==> start + MaskIfFits(address, start, depth).value == address
  {
  }

  /** The reference: the first mapping, in any order, that `MaskIfFits` accepts. */
  function Scan(m: seq<Mapping>, address: Addr): (r: Option<nat>)
    ensures r.Some? ==> r.value < |m| && MaskIfFits(address, m[r.value].info.base, m[r.value].info.size).Some?
    ensures r.None? ==> forall i :: 0 <= i < |m| ==> MaskIfFits(address, m[i].info.base, m[i].info.size).None?
  {
    if m == [] then None
    else if MaskIfFits(address, m[0].info.base, m[0].info.size).Some? then Some(0)
    else
      var r := Scan(m[1..], address);
      if r.None? then
        assert forall i :: 1 <= i < |m| ==> m[i] == m[1..][i - 1];
        None
      else Some(r.value + 1)
  }

  ghost predicate SizesAssigned(m: seq<Mapping>) {
    forall i :: 0 <= i < |m| ==>
      m[i].info.size != UNASSIGNED && m[i].info.last == (m[i].info.base + m[i].info.size - 1) % TWO64
  }

  /** Ordered decode and linear scan agree on every address exactly when no range reaches the reserved values. */
  lemma DecodeAgreesWithScan(m: seq<Mapping>)
    requires Ordered(m) && KeyIsBase(m) && Checked(m) && SizesAssigned(m)
    ensures (forall a: Addr :: Lookup(m, a) == Scan(m, a))
            <==> (forall i :: 0 <= i < |m| ==> m[i].info.last < 0xFFFF_FFFF_FFFF_FFFE)
  {
    if forall i :: 0 <= i < |m| ==> m[i].info.last < BAD_ADDR {
      forall a: Addr ensures Lookup(m, a) == Scan(m, a) {
        DecodeMeetsScan(m, a);
      }
    } else {
      var i :| 0 <= i < |m| && m[i].info.last >= BAD_ADDR;
      DecodeMissesScan(m, i);
    }
  }

  lemma DecodeMeetsScan(m: seq<Mapping>, a: Addr)
    requires Ordered(m) && KeyIsBase(m) && Checked(m) && SizesAssigned(m)
    requires forall i :: 0 <= i < |m| ==> m[i].info.last < BAD_ADDR
    ensures Lookup(m, a) == Scan(m, a)
  {
    forall i | 0 <= i < |m|
      ensures MaskIfFits(a, m[i].info.base, m[i].info.size).Some? <==> InRange(m[i].info, a)
    {
      NoWrapRange(m[i].info);
    }
    var s, l := Scan(m, a), Lookup(m, a);
    if s.Some? {
      LookupExactly(m, a, s.value);
    } else if l.Some? {
      LookupExactly(m, a, l.value);
    }
  }

  /** Where both answer, the masked address is the same. */
  lemma SameMask(m: seq<Mapping>, a: Addr)
    requires KeyIsBase(m) && Lookup(m, a).Some? && Scan(m, a) == Lookup(m, a)
    ensures var info := m[Lookup(m, a).value].info; MaskIfFits(a, info.base, info.size) == Some(Decode(m, a).1)
  {
  }

  lemma DecodeMissesScan(m: seq<Mapping>, i: nat)
    requires Ordered(m) && KeyIsBase(m) && Checked(m) && SizesAssigned(m)
    requires i < |m| && m[i].info.last >= BAD_ADDR
    ensures exists a: Addr :: Lookup(m, a) != Scan(m, a)
  {
    var info := m[i].info;
    NoWrapRange(info);
    if info.last == BAD_ADDR {
      assert MaskIfFits(BAD_ADDR, info.base, info.size).Some?;
      assert Scan(m, BAD_ADDR) != None == Lookup(m, BAD_ADDR);
    } else {
      FullTopRange(m, i);
    }
  }

  lemma FullTopRange(m: seq<Mapping>, i: nat)
    requires Ordered(m) && KeyIsBase(m) && Checked(m)
    requires i < |m| && m[i].info.base + m[i].info.size == TWO64 && m[i].info.last == MAX_ADDR
    ensures Lookup(m, m[i].info.base) == Some(i) && Scan(m, m[i].info.base) != Some(i)
  {
    LookupExactly(m, m[i].info.base, i);
  }

  lemma NoWrapRange(info: TargetInfo)
    requires !Malformed(info) && info.size != UNASSIGNED && info.last == (info.base + info.size - 1) % TWO64
    ensures info.last == info.base + info.size - 1
  {
  }
}
