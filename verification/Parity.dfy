/** Table-driven parity of octets and of byte arrays. */
module Parity {
  type Octet = bv8

  const ODD4: seq<bool> :=
    [false, true, true, false, true, false, false, true] +
    [true, false, false, true, false, true, true, false]

  // ---------------------------------------------------------------- counting bits

  function Bit(v: Octet, i: nat): nat
    requires i < 8
  {
    if (v >> i) & 1 == 1 then 1 else 0
  }

  /** How many of the n lowest bits are one. */
  function OnesBelow(v: Octet, n: nat): nat
    requires n <= 8
  {
    if n == 0 then 0 else OnesBelow(v, n - 1) + Bit(v, n - 1)
  }

  function OnesIn(v: Octet): nat {
    OnesBelow(v, 8)
  }

  lemma OnesSpelledOut(v: Octet)
    ensures OnesIn(v) == Bit(v, 0) + Bit(v, 1) + Bit(v, 2) + Bit(v, 3) + Bit(v, 4) + Bit(v, 5) + Bit(v, 6) + Bit(v, 7)
  {
    assert OnesBelow(v, 0) == 0;
    assert OnesBelow(v, 2) == OnesBelow(v, 1) + Bit(v, 1) == Bit(v, 0) + Bit(v, 1);
    assert OnesBelow(v, 4) == OnesBelow(v, 3) + Bit(v, 3) == OnesBelow(v, 2) + Bit(v, 2) + Bit(v, 3);
    assert OnesBelow(v, 6) == OnesBelow(v, 5) + Bit(v, 5) == OnesBelow(v, 4) + Bit(v, 4) + Bit(v, 5);
    assert OnesBelow(v, 8) == OnesBelow(v, 7) + Bit(v, 7) == OnesBelow(v, 6) + Bit(v, 6) + Bit(v, 7);
  }

  function Ones(data: seq<Octet>): nat {
    if data == [] then 0 else OnesIn(data[0]) + Ones(data[1..])
  }

  predicate OddOnes(data: seq<Octet>) { Ones(data) % 2 == 1 }

  // ---------------------------------------------------------------- the octet table

  function Nibble(n: bv4): bool { ODD4[n as int] }

  /** The constructor's rule: exclusive-or of the two nibbles' entries. */
  function OddByNibbles(v: Octet): bool {
    Nibble((v >> 4) as bv4) != Nibble((v & 0xF) as bv4)
  }

  lemma NibbleIsParity(n: bv4, w: Octet)
    requires w == n as bv8
    ensures Nibble(n) <==> (Bit(w, 0) + Bit(w, 1) + Bit(w, 2) + Bit(w, 3)) % 2 == 1
  {
    assert n == 0 || n == 1 || n == 2 || n == 3 || n == 4 || n == 5 || n == 6 || n == 7 ||
           n == 8 || n == 9 || n == 10 || n == 11 || n == 12 || n == 13 || n == 14 || n == 15;
  }

  lemma NibbleBits(v: Octet, hi: Octet, lo: Octet)
    requires hi == ((v >> 4) as bv4) as bv8 && lo == ((v & 0xF) as bv4) as bv8
    ensures OnesIn(v) == Bit(lo, 0) + Bit(lo, 1) + Bit(lo, 2) + Bit(lo, 3)
                         + Bit(hi, 0) + Bit(hi, 1) + Bit(hi, 2) + Bit(hi, 3)
  {
    OnesSpelledOut(v);
  }

  lemma OddIsParity(v: Octet, hi: bv4, lo: bv4)
    requires hi == (v >> 4) as bv4 && lo == (v & 0xF) as bv4
    ensures OddByNibbles(v) <==> OnesIn(v) % 2 == 1
  {
    NibbleIsParity(hi, hi as bv8);
    NibbleIsParity(lo, lo as bv8);
    NibbleBits(v, hi as bv8, lo as bv8);
  }

  /** The table the program builds once, and the array form that only consults it. */
  class Table {
    const oddTable: array<bool>

    ghost predicate Valid()
      reads oddTable
    {
      oddTable.Length == 256 && forall v: Octet :: oddTable[v as int] <==> OnesIn(v) % 2 == 1
    }

    constructor ()
      ensures Valid() && fresh(oddTable)
    {
      oddTable := new bool[256];
      new;
      var v := 0;
      while v != 256
        invariant 0 <= v <= 256
        invariant forall k :: 0 <= k < v ==> oddTable[k] == OddByNibbles(k as Octet)
        decreases 256 - v
      {
        oddTable[v] := OddByNibbles(v as Octet);
        v := v + 1;
      }
      forall o: Octet ensures oddTable[o as int] <==> OnesIn(o) % 2 == 1 {
        OddIsParity(o, (o >> 4) as bv4, (o & 0xF) as bv4);
      }
    }

    method Odd(octet: Octet) returns (r: bool)
      requires Valid()
      ensures r <==> OnesIn(octet) % 2 == 1
    {
      r := oddTable[octet as int];
    }

    /** Over a whole array, last octet first. */
    method OddOf(data: array<Octet>) returns (parity: bool)
      requires Valid()
      ensures parity <==> OddOnes(data[..])
    {
      parity := false;
      var i := data.Length;
      while i > 0
        invariant 0 <= i <= data.Length
        invariant parity <==> OddOnes(data[i..])
      {
        i := i - 1;
        var one := Odd(data[i]);
        parity := parity != one;
        assert data[i..] == [data[i]] + data[i + 1..];
      }
      assert data[0..] == data[..];
    }
  }

  // ---------------------------------------------------------------- what parity is for

  lemma {:induction false} OnesAppend(a: seq<Octet>, b: seq<Octet>)
    ensures Ones(a + b) == Ones(a) + Ones(b)
  {
    if a == [] {
      assert a + b == b;
    } else {
      OnesAppend(a[1..], b);
      assert (a + b)[1..] == a[1..] + b;
    }
  }

  /** The parity of a concatenation is the exclusive-or of the parts. */
  lemma ParityAppend(a: seq<Octet>, b: seq<Octet>)
    ensures OddOnes(a + b) <==> OddOnes(a) != OddOnes(b)
  {
    OnesAppend(a, b);
  }

  lemma FlipBit(v: Octet, m: Octet, w: Octet)
    requires m in {1, 2, 4, 8, 16, 32, 64, 128} && w == v ^ m
    ensures OnesIn(v) % 2 != OnesIn(w) % 2
  {
    FlipBelow(v, m, w, 8);
    OnesSpelledOut(m);
    OneBitSet(m);
  }

  /** Bit by bit, flipping the bits of m adds as many ones as m has, up to parity. */
  lemma {:induction false} FlipBelow(v: Octet, m: Octet, w: Octet, n: nat)
    requires n <= 8 && w == v ^ m
    ensures OnesBelow(w, n) % 2 == (OnesBelow(v, n) + OnesBelow(m, n)) % 2
  {
    if n > 0 {
      FlipBelow(v, m, w, n - 1);
      FlipAt(v, m, n - 1);
    }
  }

  lemma FlipAt(v: Octet, m: Octet, i: nat)
    requires i < 8
    ensures Bit(v ^ m, i) == if Bit(m, i) == 1 then 1 - Bit(v, i) else Bit(v, i)
  {
    ShiftXor(v, m, i);
    LowXor(v >> i, m >> i);
  }

  lemma ShiftXor(v: Octet, m: Octet, i: nat)
    requires i < 8
    ensures (v ^ m) >> i == (v >> i) ^ (m >> i)
  {
    if i == 0 {
    } else if i == 1 {
    } else if i == 2 {
    } else if i == 3 {
    } else if i == 4 {
    } else if i == 5 {
    } else if i == 6 {
    } else {
      assert i == 7;
    }
  }

  lemma LowXor(a: Octet, b: Octet)
    ensures (a ^ b) & 1 == 1 <==> (a & 1 == 1) != (b & 1 == 1)
  {
  }

  lemma OneBitSet(m: Octet)
    requires m in {1, 2, 4, 8, 16, 32, 64, 128}
    ensures Bit(m, 0) + Bit(m, 1) + Bit(m, 2) + Bit(m, 3) + Bit(m, 4) + Bit(m, 5) + Bit(m, 6) + Bit(m, 7) == 1
  {
  }

  lemma {:induction false} OnesUpdate(data: seq<Octet>, i: nat, w: Octet)
    requires i < |data|
    ensures Ones(data[i := w]) + OnesIn(data[i]) == Ones(data) + OnesIn(w)
  {
    if i == 0 {
      assert data[0 := w][1..] == data[1..];
    } else {
      assert data[i := w][1..] == data[1..][i - 1 := w];
      OnesUpdate(data[1..], i - 1, w);
    }
  }

  /** Any single flipped bit anywhere changes the parity. */
  lemma FlipDetected(data: seq<Octet>, i: nat, m: Octet, w: Octet)
    requires i < |data| && m in {1, 2, 4, 8, 16, 32, 64, 128} && w == data[i] ^ m
    ensures OddOnes(data[i := w]) != OddOnes(data)
  {
    FlipBit(data[i], m, w);
    OnesUpdate(data, i, w);
  }
}
