/**
 What loading any text into any vector amounts to: the last byte stored at each place, or a
 complaint; and from that, when a saved file comes back.
*/
module HexImage {
  import opened Common
  import opened HexFile

  datatype Store = Store(addr: Addr, byte: Byte)

  predicate WellFormed(token: string) {
    token != [] && (if token[0] == '@' then Stoull(token[1..]).Some? else AllHex(token))
  }

  /** The bytes a token of digits spells. */
  function BytesOf(token: string): seq<Byte>
    requires AllHex(token) && |token| % 2 == 0
  {
    if token == [] then [] else [16 * HexValue(token[0]) + HexValue(token[1])] + BytesOf(token[2..])
  }

  function StoresFrom(address: Addr, bytes: seq<Byte>): seq<Store>
    decreases |bytes|
  {
    if bytes == [] then [] else [Store(address, bytes[0])] + StoresFrom((address + 1) % TWO64, bytes[1..])
  }

  predicate AllWellFormed(tokens: seq<string>) { forall i :: 0 <= i < |tokens| ==> WellFormed(tokens[i]) }

  /** What a well-formed token stores with this address, and the address after it. */
  function Here(address: Addr, t: string): seq<Store> {
    if t == [] || t[0] == '@' then [] else StoresFrom(address, Spelled(t))
  }

  function There(address: Addr, t: string): Addr {
    if t != [] && t[0] == '@' then Stoull(t[1..]).Or(0) else (address + |Spelled(t)|) % TWO64
  }

  /** What well-formed tokens store where, in order. */
  function StoresOf(address: Addr, tokens: seq<string>): seq<Store>
    decreases |tokens|
  {
    if tokens == [] then [] else Here(address, tokens[0]) + StoresOf(There(address, tokens[0]), tokens[1..])
  }

  /** A token of odd length gets a leading zero. */
  function Spelled(t: string): seq<Byte> {
    if AllHex(t) then
      EvenHex(t);
      BytesOf(Even(t))
    else []
  }

  lemma EvenHex(t: string)
    requires AllHex(t)
    ensures AllHex(Even(t))
  {
  }

  /** Bytes as one number, highest first. */
  function Number(bytes: seq<Byte>): nat {
    if bytes == [] then 0 else 256 * Number(bytes[..|bytes| - 1]) + bytes[|bytes| - 1]
  }

  lemma {:induction false} BytesOfAppend(t: string, a: char, b: char)
    requires AllHex(t) && |t| % 2 == 0 && IsHex(a) && IsHex(b)
    ensures BytesOf(t + [a, b]) == BytesOf(t) + [16 * HexValue(a) + HexValue(b)]
    decreases |t|
  {
    var all := t + [a, b];
    if t == [] {
      assert all == [a, b] && all[2..] == [];
    } else {
      assert all[0] == t[0] && all[1] == t[1] && all[2..] == t[2..] + [a, b];
      BytesOfAppend(t[2..], a, b);
    }
  }

  lemma {:induction false} BytesNumber(t: string)
    requires AllHex(t) && |t| % 2 == 0
    ensures |BytesOf(t)| == |t| / 2 && Number(BytesOf(t)) == ValueOf(t)
    decreases |t|
  {
    if t != [] {
      var n := |t| - 2;
      var init, a, b := t[..n], t[n], t[n + 1];
      BytesNumber(init);
      BytesOfAppend(init, a, b);
      assert t == init + [a, b] && t[..n + 1][..n] == init;
      assert ValueOf(t) == 16 * ValueOf(t[..n + 1]) + HexValue(b);
      assert (BytesOf(init) + [16 * HexValue(a) + HexValue(b)])[..|BytesOf(init)|] == BytesOf(init);
    }
  }

  /** A token of digits spells its number, in as few bytes as its digits need: an odd first digit stands alone. */
  lemma SpelledExactly(t: string)
    requires AllHex(t)
    ensures |Spelled(t)| == (|t| + 1) / 2 && Number(Spelled(t)) == ValueOf(t)
  {
    EvenHex(t);
    BytesNumber(Even(t));
    if |t| % 2 == 1 {
      LeadingZero(t);
    }
  }

  /** The place of store k in the vector, whose first element is the first address stored to. */
  function Index(stores: seq<Store>, k: nat): nat
    requires k < |stores|
  {
    (stores[k].addr - stores[0].addr) % TWO64
  }

  function Extent(stores: seq<Store>): nat {
    if stores == [] then 0
    else
      var n := |stores| - 1;
      var init := Extent(stores[..n]);
      if Index(stores, n) + 1 > init then Index(stores, n) + 1 else init
  }

  /** The last byte stored at place i, or what was there before. */
  function LastByte(stores: seq<Store>, i: nat, was: Byte): Byte {
    if stores == [] then was
    else
      var n := |stores| - 1;
      if Index(stores, n) == i then stores[n].byte else LastByte(stores[..n], i, was)
  }

  /** Stores at the all-ones address do not set the offset, so the first other one starts afresh. */
  function Counted(stores: seq<Store>): (r: seq<Store>)
    ensures |r| <= |stores| && (r != [] ==> r[0].addr != MAX_ADDR)
  {
    if stores != [] && stores[0].addr == MAX_ADDR then Counted(stores[1..]) else stores
  }

  /** Every place lies within the largest vector; an address below the first one usually does not. */
  predicate Fits(stores: seq<Store>) {
    forall k :: 0 <= k < |stores| ==> Index(stores, k) < 0x7FFF_FFFF_FFFF_FFFF
  }

  /** What the vector held at place i; new elements are zero. */
  function Was(before: seq<Byte>, i: nat): Byte { if i < |before| then before[i] else 0 }

  function Longer(a: nat, b: nat): nat { if a < b then b else a }

  /** The vector when nothing was stored but at the all-ones address: there the place is the first one. */
  function Topped(before: seq<Byte>, stores: seq<Store>): seq<Byte> {
    if stores == [] then before
    else if before == [] then [stores[|stores| - 1].byte]
    else before[0 := stores[|stores| - 1].byte]
  }

  /** The loader holds the image of the stores made so far over what the vector held before. */
  predicate Shows(l: Loader, stores: seq<Store>, before: seq<Byte>) {
    var r := Counted(stores);
    !l.thrown && l.errors == 0 &&
    if r == [] then l.offset == MAX_ADDR && l.mem == Topped(before, stores)
    else Image(l, r, before)
  }

  predicate Image(l: Loader, r: seq<Store>, before: seq<Byte>)
    requires r != []
  {
    && l.offset == r[0].addr && |l.mem| == Longer(|before|, Extent(r))
    && (forall i :: 0 <= i < |l.mem| ==> l.mem[i] == LastByte(r, i, Was(before, i)))
  }

  /** What is left after the stores: their image if they fit, else an exception. */
  predicate Leaves(l: Loader, stores: seq<Store>, before: seq<Byte>) {
    if Fits(Counted(stores)) then Shows(l, stores, before) else l.thrown
  }

  lemma {:induction false} CountedAppend(a: seq<Store>, b: seq<Store>)
    ensures Counted(a + b) == if Counted(a) == [] then Counted(b) else Counted(a) + b
  {
    if a == [] {
      assert a + b == b;
    } else if a[0].addr == MAX_ADDR {
      assert (a + b)[1..] == a[1..] + b;
      CountedAppend(a[1..], b);
    }
  }

  lemma FitsPrefix(a: seq<Store>, b: seq<Store>)
    requires Fits(a + b)
    ensures Fits(a)
  {
    forall k | 0 <= k < |a| ensures Index(a, k) < VECTOR_MAX {
      assert Index(a + b, k) == Index(a, k);
    }
  }

  lemma CountedPrefix(a: seq<Store>, b: seq<Store>)
    requires Fits(Counted(a + b))
    ensures Fits(Counted(a))
  {
    CountedAppend(a, b);
    if Counted(a) != [] {
      FitsPrefix(Counted(a), b);
    }
  }

  lemma {:induction false} NothingBeyond(stores: seq<Store>, i: nat, was: Byte)
    ensures i >= Extent(stores) ==> LastByte(stores, i, was) == was
  {
    if stores != [] {
      NothingBeyond(stores[..|stores| - 1], i, was);
    }
  }

  lemma {:induction false} ExtentBelow(stores: seq<Store>, n: nat)
    ensures Extent(stores) <= n <==> forall k :: 0 <= k < |stores| ==> Index(stores, k) < n
    ensures stores != [] ==> Extent(stores) > 0
  {
    if stores != [] {
      var init := stores[..|stores| - 1];
      ExtentBelow(init, n);
      assert forall k :: 0 <= k < |init| ==> Index(init, k) == Index(stores, k);
    }
  }

  // ---------------------------------------------------------------- one byte

  lemma OneMore(r: seq<Store>, s: Store, i: nat, was: Byte)
    requires r != []
    ensures var n := Index(r + [s], |r|);
            Extent(r + [s]) == Longer(Extent(r), n + 1) &&
            LastByte(r + [s], i, was) == if i == n then s.byte else LastByte(r, i, was)
  {
    assert (r + [s])[..|r|] == r;
  }

  /** Contents with a further store: the vector is made longer if the place needs it. */
  lemma OneMoreShown(mem: seq<Byte>, r: seq<Store>, before: seq<Byte>, s: Store, n: nat)
    requires r != [] && n == Index(r + [s], |r|) && |mem| == Longer(|before|, Extent(r))
    requires forall i :: 0 <= i < |mem| ==> mem[i] == LastByte(r, i, Was(before, i))
    ensures var mem' := (if n + 1 >= |mem| then Resized<Byte>(mem, n + 1, 0) else mem)[n := s.byte];
            |mem'| == Longer(|before|, Extent(r + [s])) &&
            forall i :: 0 <= i < |mem'| ==> mem'[i] == LastByte(r + [s], i, Was(before, i))
  {
    OneMore(r, s, 0, 0);
    var mem' := (if n + 1 >= |mem| then Resized<Byte>(mem, n + 1, 0) else mem)[n := s.byte];
    forall i | 0 <= i < |mem'| ensures mem'[i] == LastByte(r + [s], i, Was(before, i)) {
      OneMore(r, s, i, Was(before, i));
      NothingBeyond(r, i, Was(before, i));
    }
  }

  lemma StoreIs(l: Loader, n: nat, b: Byte)
    requires !l.thrown && l.offset != MAX_ADDR && n == (l.address - l.offset) % TWO64 && n < VECTOR_MAX
    ensures StoreByte(l, Some(b)) ==
            l.(mem := (if n + 1 >= |l.mem| then Resized<Byte>(l.mem, n + 1, 0) else l.mem)[n := b],
               address := (l.address + 1) % TWO64)
  {
  }

  /** A further store when the offset is set. */
  lemma ByteShows(l: Loader, r: seq<Store>, before: seq<Byte>, b: Byte)
    requires !l.thrown && l.errors == 0 && r != [] && r[0].addr != MAX_ADDR && Image(l, r, before)
    requires Index(r + [Store(l.address, b)], |r|) < VECTOR_MAX
    ensures var l' := StoreByte(l, Some(b));
            !l'.thrown && l'.errors == 0 && Image(l', r + [Store(l.address, b)], before) &&
            l'.address == (l.address + 1) % TWO64
  {
    var s := Store(l.address, b);
    assert (r + [s])[0] == r[0];
    StoreIs(l, Index(r + [s], |r|), b);
    OneMoreShown(l.mem, r, before, s, Index(r + [s], |r|));
  }

  lemma ByteThrows(l: Loader, r: seq<Store>, before: seq<Byte>, b: Byte)
    requires !l.thrown && r != [] && r[0].addr != MAX_ADDR && Image(l, r, before)
    requires Fits(r) && |before| <= VECTOR_MAX && Index(r + [Store(l.address, b)], |r|) >= VECTOR_MAX
    ensures StoreByte(l, Some(b)).thrown
  {
    ExtentBelow(r, VECTOR_MAX);
  }

  /** A store when the offset is not set. */
  lemma FirstByteShows(l: Loader, stores: seq<Store>, before: seq<Byte>, b: Byte)
    requires !l.thrown && l.errors == 0 && Counted(stores) == []
    requires l.offset == MAX_ADDR && l.mem == Topped(before, stores)
    ensures var l' := StoreByte(l, Some(b));
            !l'.thrown && l'.errors == 0 && l'.address == (l.address + 1) % TWO64 &&
            if l.address == MAX_ADDR
            then l'.offset == MAX_ADDR && l'.mem == Topped(before, stores + [Store(l.address, b)])
            else Image(l', [Store(l.address, b)], before)
  {
    assert (stores + [Store(l.address, b)])[|stores|].byte == b;
    assert [Store(l.address, b)][..0] == [];
  }

  /** Either way, when the offset is set. */
  lemma LaterByteLeaves(l: Loader, r: seq<Store>, before: seq<Byte>, b: Byte)
    requires !l.thrown && l.errors == 0 && r != [] && r[0].addr != MAX_ADDR && Image(l, r, before)
    requires Fits(r) && |before| <= VECTOR_MAX
    ensures var l' := StoreByte(l, Some(b));
            if Fits(r + [Store(l.address, b)])
            then !l'.thrown && l'.errors == 0 && Image(l', r + [Store(l.address, b)], before) &&
                 l'.address == (l.address + 1) % TWO64
            else l'.thrown
  {
    var all := r + [Store(l.address, b)];
    if Index(all, |r|) < VECTOR_MAX {
      ByteShows(l, r, before, b);
      assert forall k :: 0 <= k < |r| ==> Index(all, k) == Index(r, k);
    } else {
      ByteThrows(l, r, before, b);
      assert !Fits(all);
    }
  }

  lemma ByteLeaves(l: Loader, stores: seq<Store>, before: seq<Byte>, b: Byte)
    requires Shows(l, stores, before) && Fits(Counted(stores)) && |before| <= VECTOR_MAX
    ensures var l' := StoreByte(l, Some(b));
            Leaves(l', stores + [Store(l.address, b)], before) &&
            (!l'.thrown ==> l'.address == (l.address + 1) % TWO64)
  {
    CountedAppend(stores, [Store(l.address, b)]);
    if Counted(stores) == [] {
      FirstByteShows(l, stores, before, b);
    } else {
      LaterByteLeaves(l, Counted(stores), before, b);
    }
  }

  // ---------------------------------------------------------------- tokens and texts

  /** Bytes already converted, one after the other. */
  function StoreAll(l: Loader, bytes: seq<Byte>): Loader
    decreases |bytes|
  {
    if l.thrown || bytes == [] then l else StoreAll(StoreByte(l, Some(bytes[0])), bytes[1..])
  }

  lemma {:induction false} TokenIsBytes(l: Loader, token: string)
    requires AllHex(token) && |token| % 2 == 0
    ensures StoreToken(l, token) == StoreAll(l, BytesOf(token))
    decreases |token|
  {
    if !l.thrown && token != [] {
      assert Stoi(token[0], token[1]) == Some(BytesOf(token)[0]) && BytesOf(token)[1..] == BytesOf(token[2..]);
      TokenIsBytes(StoreByte(l, Some(BytesOf(token)[0])), token[2..]);
    }
  }

  lemma {:induction false} BytesLeave(
    l: Loader, stores: seq<Store>, before: seq<Byte>, bytes: seq<Byte>, all: seq<Store>)
    requires Shows(l, stores, before) && Fits(Counted(stores)) && |before| <= VECTOR_MAX
    requires all == stores + StoresFrom(l.address, bytes)
    ensures Leaves(StoreAll(l, bytes), all, before)
    decreases |bytes|
  {
    if bytes == [] {
      assert all == stores;
    } else {
      var l1, more := StoreByte(l, Some(bytes[0])), stores + [Store(l.address, bytes[0])];
      FirstStore(stores, l.address, bytes);
      ByteLeaves(l, stores, before, bytes[0]);
      if Fits(Counted(more)) {
        BytesLeave(l1, more, before, bytes[1..], all);
      } else {
        MoreLeave(l1, more, before, StoresFrom((l.address + 1) % TWO64, bytes[1..]));
      }
    }
  }

  lemma {:induction false} AddressMoves(l: Loader, bytes: seq<Byte>)
    ensures !StoreAll(l, bytes).thrown ==> StoreAll(l, bytes).address == (l.address + |bytes|) % TWO64
    decreases |bytes|
  {
    if !l.thrown && bytes != [] {
      var l1 := StoreByte(l, Some(bytes[0]));
      AddressMoves(l1, bytes[1..]);
      AddressAfter(l.address, |bytes| - 1);
    }
  }

  lemma FirstStore(stores: seq<Store>, address: Addr, bytes: seq<Byte>)
    requires bytes != []
    ensures stores + StoresFrom(address, bytes)
            == stores + [Store(address, bytes[0])] + StoresFrom((address + 1) % TWO64, bytes[1..])
  {
  }

  /** Once a store does not fit, the exception has been thrown whatever follows. */
  lemma MoreLeave(l: Loader, stores: seq<Store>, before: seq<Byte>, more: seq<Store>)
    requires Leaves(l, stores, before) && !Fits(Counted(stores))
    ensures l.thrown && Leaves(l, stores + more, before)
  {
    if Fits(Counted(stores + more)) {
      CountedPrefix(stores, more);
    }
  }

  lemma AddressAfter(a: Addr, n: nat)
    ensures ((a + 1) % TWO64 + n) % TWO64 == (a + (1 + n)) % TWO64
  {
  }

  /** A token of digits. */
  lemma DigitsLeave(l: Loader, stores: seq<Store>, before: seq<Byte>, t: string)
    requires t != [] && AllHex(t) && Shows(l, stores, before) && Fits(Counted(stores)) && |before| <= VECTOR_MAX
    ensures var l' := ApplyToken(l, t);
            Leaves(l', stores + StoresFrom(l.address, Spelled(t)), before) &&
            (!l'.thrown ==> l'.address == (l.address + |Spelled(t)|) % TWO64)
  {
    assert IsHex(t[0]) && t[0] != '@';
    EvenHex(t);
    TokenIsBytes(l, Even(t));
    BytesLeave(l, stores, before, Spelled(t), stores + StoresFrom(l.address, Spelled(t)));
    AddressMoves(l, Spelled(t));
  }

  lemma TokenLeaves(l: Loader, stores: seq<Store>, before: seq<Byte>, t: string)
    requires WellFormed(t) && Shows(l, stores, before) && Fits(Counted(stores)) && |before| <= VECTOR_MAX
    ensures var l' := ApplyToken(l, t);
            Leaves(l', stores + Here(l.address, t), before) && (!l'.thrown ==> l'.address == There(l.address, t))
  {
    if t[0] == '@' {
      assert stores + [] == stores;
    } else {
      DigitsLeave(l, stores, before, t);
    }
  }

  lemma {:induction false} TokensLeave(l: Loader, stores: seq<Store>, before: seq<Byte>, tokens: seq<string>)
    requires AllWellFormed(tokens) && NoneEmpty(tokens)
    requires Shows(l, stores, before) && Fits(Counted(stores)) && |before| <= VECTOR_MAX
    ensures Leaves(ApplyTokens(l, tokens), stores + StoresOf(l.address, tokens), before)
    decreases |tokens|
  {
    if tokens == [] {
      assert stores + [] == stores;
    } else {
      var t, later := tokens[0], tokens[1..];
      var l1, mine, rest := ApplyToken(l, t), Here(l.address, t), StoresOf(There(l.address, t), later);
      assert stores + (mine + rest) == stores + mine + rest;
      TokenLeaves(l, stores, before, t);
      if Fits(Counted(stores + mine)) {
        TokensLeave(l1, stores + mine, before, later);
      } else {
        MoreLeave(l1, stores + mine, before, rest);
      }
    }
  }

  /** Loading in silence takes well-formed tokens. */
  lemma {:induction false} SilentTokens(l: Loader, tokens: seq<string>)
    requires NoneEmpty(tokens) && !ApplyTokens(l, tokens).thrown && ApplyTokens(l, tokens).errors == 0
    ensures !l.thrown && l.errors == 0 && AllWellFormed(tokens)
    decreases |tokens|
  {
    if tokens != [] {
      var t := tokens[0];
      SilentTokens(ApplyToken(l, t), tokens[1..]);
      if t[0] != '@' && IsHex(t[0]) {
        StoringReportsNothing(if AllHex(t) then l else l.(errors := l.errors + 1), Even(t));
      }
      assert forall i :: 0 < i < |tokens| ==> tokens[i] == tokens[1..][i - 1];
    }
  }

  ghost predicate Silent(l: Loader) { !l.thrown && l.errors == 0 }

  /**
   Any text, into any vector: it loads without exception or report exactly when its tokens are well
   formed and all places lie within the largest vector; a well-formed one ends in an exception
   exactly when they do not.  If it loads, the offset is the first address stored to, and the vector
   keeps its length or reaches up to the highest place stored to, and holds at each place the last
   byte stored there, or what was there before, or zero.
  */
  lemma LoadsImage(text: string, before: seq<Byte>)
    requires |before| <= VECTOR_MAX
    ensures var l, tokens := Loaded(text, before), TokensOf(text);
            (Silent(l) <==> AllWellFormed(tokens) && Fits(Counted(StoresOf(0, tokens)))) &&
            (AllWellFormed(tokens) ==> (l.thrown <==> !Fits(Counted(StoresOf(0, tokens))))) &&
            (Silent(l) ==> Shows(l, StoresOf(0, tokens), before))
  {
    var tokens := TokensOf(text);
    AllTokensNoneEmpty(Lines(text));
    if AllWellFormed(tokens) {
      assert [] + StoresOf(0, tokens) == StoresOf(0, tokens);
      TokensLeave(Begin(before), [], before, tokens);
    }
    if Silent(Loaded(text, before)) {
      SilentTokens(Begin(before), tokens);
    }
  }

  // ---------------------------------------------------------------- what a saved file stores

  /** What is stored before the address of a saved file: only what its name spells on further lines. */
  function NameTokens(name: string): seq<string> { TokensOf("// " + name) }

  lemma {:induction false} BytesSpelled(address: Addr, data: seq<Byte>)
    ensures AllWellFormed(ByteTokens(data)) && StoresOf(address, ByteTokens(data)) == StoresFrom(address, data)
    decreases |data|
  {
    if data == [] {
      assert ByteTokens(data) == [];
    } else {
      HexSpells(data[0]);
      assert ByteTokens(data)[1..] == ByteTokens(data[1..]);
      BytesSpelled((address + 1) % TWO64, data[1..]);
      OneByte(address, data[0]);
    }
  }

  lemma OneByte(address: Addr, b: Byte)
    ensures StoresFrom(address, [b]) == [Store(address, b)]
  {
    assert [b][1..] == [];
  }

  lemma HexSpells(b: Byte)
    ensures var t := Hex2(b); WellFormed(t) && t[0] != '@' && AllHex(t) && Spelled(t) == [b]
  {
    var t := Hex2(b);
    assert IsHex(t[0]) && Even(t) == t && t[2..] == [];
    assert BytesOf(t[2..]) == [];
  }

  /** Tokens that begin with an address store the same whatever comes before them. */
  lemma {:induction false} StoresAfterAddress(address: Addr, a: seq<string>, more: seq<string>)
    requires more != [] && more[0] != [] && more[0][0] == '@'
    ensures StoresOf(address, a + more) == StoresOf(address, a) + StoresOf(0, more)
    decreases |a|
  {
    if a == [] {
      assert a + more == more;
    } else {
      var next, mine := There(address, a[0]), Here(address, a[0]);
      StoresStep(address, a + more, a[0], a[1..] + more);
      StoresAfterAddress(next, a[1..], more);
      assert mine + StoresOf(next, a[1..]) + StoresOf(0, more) == mine + (StoresOf(next, a[1..]) + StoresOf(0, more));
    }
  }

  lemma StoresStep(address: Addr, tokens: seq<string>, t: string, rest: seq<string>)
    requires tokens == [t] + rest
    ensures StoresOf(address, tokens) == Here(address, t) + StoresOf(There(address, t), rest)
  {
    assert tokens[1..] == rest;
  }

  lemma WellFormedAppend(a: seq<string>, b: seq<string>)
    ensures AllWellFormed(a + b) <==> AllWellFormed(a) && AllWellFormed(b)
  {
    var all := a + b;
    assert forall i :: 0 <= i < |a| ==> all[i] == a[i];
    assert forall i :: 0 <= i < |b| ==> all[|a| + i] == b[i];
    assert forall i :: |a| <= i < |all| ==> all[i] == b[i - |a|];
  }

  /** The address token. */
  lemma AddressToken(address: Addr, rest: seq<string>, tokens: seq<string>)
    requires tokens == ["@" + Padded(HexOf(address), 8)] + rest
    ensures tokens[0] != [] && tokens[0][0] == '@' && WellFormed(tokens[0]) && There(0, tokens[0]) == address
    ensures StoresOf(0, tokens) == StoresOf(address, rest) && tokens[1..] == rest
  {
    var digits := Padded(HexOf(address), 8);
    StoullOfPrinted(address, 8);
    assert ("@" + digits)[1..] == digits;
  }

  /** The stores of a saved file: those of its name, then its bytes from the address on. */
  lemma SavedStores(name: string, address: Addr, data: seq<Byte>)
    ensures var tokens := TokensOf(Saved(name, address, data));
            (AllWellFormed(tokens) <==> AllWellFormed(NameTokens(name))) &&
            StoresOf(0, tokens) == StoresOf(0, NameTokens(name)) + StoresFrom(address, data)
  {
    var rest := ["@" + Padded(HexOf(address), 8)] + ByteTokens(data);
    SavedTokens(name, address, data);
    BytesSpelled(address, data);
    AddressToken(address, ByteTokens(data), rest);
    StoresAfterAddress(0, NameTokens(name), rest);
    WellFormedAppend(NameTokens(name), rest);
    assert forall i :: 0 < i < |rest| ==> rest[i] == rest[1..][i - 1];
  }

  /** One store for each byte, at consecutive addresses. */
  predicate RunOf(d: seq<Store>, address: Addr, data: seq<Byte>) {
    |d| == |data| && forall k :: 0 <= k < |data| ==> d[k] == Store((address + k) % TWO64, data[k])
  }

  lemma {:induction false} StoresFromAt(address: Addr, data: seq<Byte>)
    ensures RunOf(StoresFrom(address, data), address, data)
    decreases |data|
  {
    if data != [] {
      var d, rest := StoresFrom(address, data), StoresFrom((address + 1) % TWO64, data[1..]);
      StoresFromAt((address + 1) % TWO64, data[1..]);
      forall k | 0 < k < |data| ensures d[k] == Store((address + k) % TWO64, data[k]) {
        assert d[k] == rest[k - 1];
        AddressAfter(address, k - 1);
      }
    }
  }

  lemma RunIndex(c: seq<Store>, d: seq<Store>, address: Addr, data: seq<Byte>, k: nat)
    requires RunOf(d, address, data) && k < |data| < TWO32 && (c != [] ==> c[0].addr == address)
    ensures Index(c + d, |c| + k) == k
  {
    assert (c + d)[|c| + k] == d[k] && (c + d)[0].addr == address;
  }

  /** Bytes from the first address on cover what was stored there. */
  lemma {:induction false} RunCovers(
    c: seq<Store>, d: seq<Store>, address: Addr, data: seq<Byte>, i: nat, was: Byte)
    requires RunOf(d, address, data) && |data| < TWO32 && (c != [] ==> c[0].addr == address)
    ensures Extent(c + d) == Longer(Extent(c), |data|)
    ensures LastByte(c + d, i, was) == if i < |data| then data[i] else LastByte(c, i, was)
    decreases |data|
  {
    var all, n := c + d, |data|;
    if n == 0 {
      assert all == c;
    } else {
      assert all[..|all| - 1] == c + d[..n - 1] && all[|all| - 1].byte == data[n - 1];
      RunCovers(c, d[..n - 1], address, data[..n - 1], i, was);
      RunIndex(c, d, address, data, n - 1);
    }
  }

  // ---------------------------------------------------------------- round trip

  predicate Restores(l: Loader, address: Addr, data: seq<Byte>) {
    !l.thrown && l.errors == 0 && l.offset == address && l.mem == data
  }

  function Tail(bytes: seq<Byte>, n: nat): seq<Byte> { if n < |bytes| then bytes[n..] else [] }

  /**
   What the name leaves, spelled out: its tokens are well formed, and it stores nothing that counts
   but from the address on and below the last byte.  A name that stores nothing that counts needs
   at least one byte to follow, or at the all-ones address exactly one, or nothing at all.
  */
  predicate ComesBack(name: string, address: Addr, data: seq<Byte>) {
    AllWellFormed(NameTokens(name)) &&
    var stores := StoresOf(0, NameTokens(name));
    var c := Counted(stores);
    if c != [] then c[0].addr == address && forall k :: 0 <= k < |c| ==> Index(c, k) < |data|
    else if address != 0xFFFF_FFFF_FFFF_FFFF then data != []
    else |data| == 1 || (data == [] && stores == [])
  }

  /** The image of a saved file when the address is not all ones, or the name sets it. */
  lemma SavedImage(l: Loader, c: seq<Store>, d: seq<Store>, address: Addr, data: seq<Byte>, before: seq<Byte>)
    requires RunOf(d, address, data) && |data| < TWO32 && (c != [] ==> c[0].addr == address)
    requires c + d != [] && Image(l, c + d, before)
    ensures l.offset == address && |l.mem| == Longer(|before|, Longer(Extent(c), |data|))
    ensures Extent(c) <= |data| ==> l.mem == data + Tail(before, |data|)
  {
    assert (c + d)[0].addr == address;
    RunCovers(c, d, address, data, 0, 0);
    if Extent(c) <= |data| {
      SavedBytes(l.mem, c, d, address, data, before);
    }
  }

  lemma SavedBytes(
    mem: seq<Byte>, c: seq<Store>, d: seq<Store>, address: Addr, data: seq<Byte>, before: seq<Byte>)
    requires RunOf(d, address, data) && |data| < TWO32 && (c != [] ==> c[0].addr == address) && Extent(c) <= |data|
    requires |mem| == Longer(|before|, |data|)
    requires forall i :: 0 <= i < |mem| ==> mem[i] == LastByte(c + d, i, Was(before, i))
    ensures mem == data + Tail(before, |data|)
  {
    forall i | 0 <= i < |mem| ensures mem[i] == if i < |data| then data[i] else Was(before, i) {
      SavedByte(c, d, address, data, before, i);
    }
    Spliced(mem, data, before);
  }

  lemma Spliced(mem: seq<Byte>, data: seq<Byte>, before: seq<Byte>)
    requires |mem| == Longer(|before|, |data|)
    requires forall i :: 0 <= i < |mem| ==> mem[i] == if i < |data| then data[i] else Was(before, i)
    ensures mem == data + Tail(before, |data|)
  {
  }

  lemma SavedByte(c: seq<Store>, d: seq<Store>, address: Addr, data: seq<Byte>, before: seq<Byte>, i: nat)
    requires RunOf(d, address, data) && |data| < TWO32 && (c != [] ==> c[0].addr == address) && Extent(c) <= |data|
    ensures LastByte(c + d, i, Was(before, i)) == if i < |data| then data[i] else Was(before, i)
  {
    RunCovers(c, d, address, data, i, Was(before, i));
    NothingBeyond(c, i, Was(before, i));
  }

  lemma RunFits(c: seq<Store>, d: seq<Store>, address: Addr, data: seq<Byte>)
    requires RunOf(d, address, data) && |data| < TWO32 && (c != [] ==> c[0].addr == address) && Extent(c) <= |data|
    ensures Fits(c + d)
  {
    RunCovers(c, d, address, data, 0, 0);
    ExtentBelow(c + d, VECTOR_MAX);
  }

  /** What counts of a saved file's stores. */
  lemma SavedCounted(stores: seq<Store>, address: Addr, data: seq<Byte>)
    ensures var all := Counted(stores + StoresFrom(address, data));
            if Counted(stores) != [] then all == Counted(stores) + StoresFrom(address, data)
            else if address != MAX_ADDR then all == StoresFrom(address, data)
            else if |data| <= 1 then all == []
            else all != [] && all[0].addr == 0
  {
    var d := StoresFrom(address, data);
    StoresFromAt(address, data);
    CountedAppend(stores, d);
    if address == MAX_ADDR && |data| > 0 {
      assert d[0].addr == MAX_ADDR && |d[1..]| == |data| - 1;
      if |data| > 1 {
        assert d[1].addr == 0 && d[1..][0] == d[1];
      }
    }
  }

  /** Under the condition, loading over a vector replaces its first bytes and keeps the rest. */
  lemma LoadOver(name: string, address: Addr, data: seq<Byte>, before: seq<Byte>)
    requires |data| < TWO32 && |before| <= VECTOR_MAX && ComesBack(name, address, data)
    ensures Restores(Loaded(Saved(name, address, data), before), address, data + Tail(before, |data|))
  {
    var stores, d := StoresOf(0, NameTokens(name)), StoresFrom(address, data);
    var c := Counted(stores);
    SavedStores(name, address, data);
    LoadsImage(Saved(name, address, data), before);
    SavedCounted(stores, address, data);
    StoresFromAt(address, data);
    var l := Loaded(Saved(name, address, data), before);
    if c != [] || address != MAX_ADDR {
      ExtentBelow(c, |data|);
      assert c == [] ==> c + d == d;
      RunFits(c, d, address, data);
      SavedImage(l, c, d, address, data, before);
    } else {
      TopRestores(l, stores, data, before);
    }
  }

  /** At the all-ones address. */
  lemma TopRestores(l: Loader, stores: seq<Store>, data: seq<Byte>, before: seq<Byte>)
    requires |data| <= 1 && l.mem == Topped(before, stores + StoresFrom(MAX_ADDR, data))
    ensures |data| == 1 || stores == [] ==> l.mem == data + Tail(before, |data|)
    ensures before == [] && l.mem == data ==> |data| == 1 || stores == []
  {
    StoresFromAt(MAX_ADDR, data);
    var all := stores + StoresFrom(MAX_ADDR, data);
    if |data| == 1 {
      assert all[|all| - 1].byte == data[0];
    } else {
      assert all == stores;
    }
  }

  /**
   Loading what was saved into an empty vector gives back address and bytes, without complaint,
   exactly under the condition on the file name, the address and the bytes: for every file name.
  */
  lemma RoundTripExactly(name: string, address: Addr, data: seq<Byte>)
    requires |data| < TWO32
    ensures Restores(Loaded(Saved(name, address, data), []), address, data) <==> ComesBack(name, address, data)
  {
    var l := Loaded(Saved(name, address, data), []);
    LoadsImage(Saved(name, address, data), []);
    SavedStores(name, address, data);
    if ComesBack(name, address, data) {
      LoadOver(name, address, data, []);
      assert data + Tail([], |data|) == data;
    } else if Restores(l, address, data) {
      RestoredComesBack(l, name, address, data);
    }
  }

  lemma RestoredComesBack(l: Loader, name: string, address: Addr, data: seq<Byte>)
    requires |data| < TWO32 && AllWellFormed(NameTokens(name)) && Restores(l, address, data)
    requires var all := StoresOf(0, NameTokens(name)) + StoresFrom(address, data); Shows(l, all, [])
    ensures ComesBack(name, address, data)
  {
    var stores, d := StoresOf(0, NameTokens(name)), StoresFrom(address, data);
    var c := Counted(stores);
    SavedCounted(stores, address, data);
    StoresFromAt(address, data);
    if c != [] {
      assert (c + d)[0] == c[0];
      SavedImage(l, c, d, address, data, []);
      ExtentBelow(c, |data|);
    } else if address == MAX_ADDR && |data| <= 1 {
      TopRestores(l, stores, data, []);
    }
  }

  /** For a file name on one line: at least one byte, and only one at the all-ones address, or none there. */
  lemma OneLineNames(name: string, address: Addr, data: seq<Byte>)
    requires OneLine(name)
    ensures ComesBack(name, address, data)
            <==> (data != [] && address != MAX_ADDR) || (|data| <= 1 && address == MAX_ADDR)
  {
    CommentLine("// " + name);
  }

  lemma SecondLine(first: string, b: Byte)
    requires OneLine(first)
    ensures NameTokens(first + "\n" + Hex2(b)) == [Hex2(b)]
  {
    assert "// " + (first + "\n" + Hex2(b)) == ("// " + first) + "\n" + Hex2(b);
    TokensOfAppend("// " + first, Hex2(b));
    CommentLine("// " + first);
    HexLine(b);
  }

  lemma OneStore(b: Byte, tokens: seq<string>)
    requires tokens == [Hex2(b)]
    ensures AllWellFormed(tokens) && StoresOf(0, tokens) == [Store(0, b)]
  {
    HexSpells(b);
    OneByte(0, b);
    assert tokens[1..] == [];
  }

  /** A second line of the name that spells a byte is stored at address 0: only a file for that address comes back. */
  lemma SecondLines(first: string, b: Byte, name: string, address: Addr, data: seq<Byte>)
    requires OneLine(first) && name == first + "\n" + Hex2(b)
    ensures ComesBack(name, address, data) <==> address == 0 && data != []
  {
    SecondLine(first, b);
    OneStore(b, NameTokens(name));
    var c := Counted([Store(0, b)]);
    assert c == [Store(0, b)] && Index(c, 0) == 0;
  }
}
