/**
 The hex file printer and parser, over characters.

 Reading goes line by line: comments, surrounding white space and underscores are stripped,
 the rest is split into tokens, and each token moves the address or stores bytes.
*/
module HexFile {
  import opened Common

  // ---------------------------------------------------------------- characters

  predicate IsWhite(c: char) { c == ' ' || c == '\t' || c == '\n' || c == '\r' }

  /** What `>>` skips: white space in the sense of `isspace`. */
  predicate IsSpace(c: char) { IsWhite(c) || c == '\U{000B}' || c == '\U{000C}' }

  predicate IsHex(c: char) { '0' <= c <= '9' || 'A' <= c <= 'F' || 'a' <= c <= 'f' }

  function HexValue(c: char): nat
    requires IsHex(c)
    ensures HexValue(c) < 16
  {
    if c <= '9' then c as int - '0' as int
    else if c <= 'F' then c as int - 'A' as int + 10
    else c as int - 'a' as int + 10
  }

  /** A digit has its place's value in either case, and nothing else is a digit. */
  lemma DigitsExactly(c: char)
    ensures IsHex(c) <==> c in "0123456789abcdef" || c in "0123456789ABCDEF"
    ensures forall n :: 0 <= n < 16 ==>
              IsHex("0123456789abcdef"[n]) && HexValue("0123456789abcdef"[n]) == n &&
              IsHex("0123456789ABCDEF"[n]) && HexValue("0123456789ABCDEF"[n]) == n
  {
  }

  function HexDigit(n: nat): (c: char)
    requires n < 16
    ensures IsHex(c) && HexValue(c) == n
  {
    (if n < 10 then '0' as int + n else 'a' as int + n - 10) as char
  }

  predicate AllHex(s: string) { forall i :: 0 <= i < |s| ==> IsHex(s[i]) }

  // ---------------------------------------------------------------- numbers

  function ValueOf(digits: string): nat
    requires AllHex(digits)
  {
    if digits == [] then 0 else 16 * ValueOf(digits[..|digits| - 1]) + HexValue(digits[|digits| - 1])
  }

  function HexOf(n: nat): (s: string)
    ensures s != [] && AllHex(s) && ValueOf(s) == n
  {
    if n < 16 then
      assert [HexDigit(n)][..0] == [];
      [HexDigit(n)]
    else
      assert (HexOf(n / 16) + [HexDigit(n % 16)])[..|HexOf(n / 16)|] == HexOf(n / 16);
      HexOf(n / 16) + [HexDigit(n % 16)]
  }

  /** Zero fill to a least width. */
  function Padded(s: string, width: nat): (r: string)
    requires AllHex(s)
    ensures AllHex(r) && |r| >= |s| && ValueOf(r) == ValueOf(s)
    decreases width - |s|
  {
    if |s| >= width then s
    else
      LeadingZero(s);
      Padded(['0'] + s, width)
  }

  lemma LeadingZero(s: string)
    requires AllHex(s)
    ensures ValueOf(['0'] + s) == ValueOf(s)
  {
    if s == [] {
      assert (['0'] + s)[..0] == [];
    } else {
      LeadingZero(s[..|s| - 1]);
      assert (['0'] + s)[..|s|] == ['0'] + s[..|s| - 1];
    }
  }

  function Hex2(b: Byte): (s: string)
    ensures |s| == 2 && AllHex(s)
  {
    [HexDigit(b / 16), HexDigit(b % 16)]
  }

  /** The leading digits a number conversion consumes. */
  function HexPrefix(s: string): (r: string)
    ensures AllHex(r) && |r| <= |s|
  {
    if s == [] || !IsHex(s[0]) then [] else [s[0]] + HexPrefix(s[1..])
  }

  /** `stoull(s, nullptr, 16)`: optional sign, optional 0x, digits; `None` is an exception. */
  function Stoull(s: string): Option<Addr> {
    var negative := s != [] && s[0] == '-';
    var t := if s != [] && (s[0] == '-' || s[0] == '+') then s[1..] else s;
    var u := if |t| > 2 && t[0] == '0' && (t[1] == 'x' || t[1] == 'X') && IsHex(t[2]) then t[2..] else t;
    var digits := HexPrefix(u);
    if digits == [] || ValueOf(digits) >= TWO64 then None
    else if negative then Some((TWO64 - ValueOf(digits)) % TWO64)
    else Some(ValueOf(digits))
  }

  /** `stoi` of two characters in base 16, cut to a byte; `None` is an exception. */
  function Stoi(a: char, b: char): Option<Byte> {
    if IsHex(a) then Some(if IsHex(b) then 16 * HexValue(a) + HexValue(b) else HexValue(a))
    else if (a == '+' || a == '-') && IsHex(b) then Some(if a == '-' then (256 - HexValue(b)) % 256 else HexValue(b))
    else None
  }

  lemma HexPrefixAll(s: string)
    requires AllHex(s)
    ensures HexPrefix(s) == s
  {
  }

  lemma StoullOfPrinted(n: Addr, width: nat)
    ensures Stoull(Padded(HexOf(n), width)) == Some(n)
  {
    HexPrefixAll(Padded(HexOf(n), width));
  }

  /** Printed digits are lower case. */
  predicate Lower(c: char) { '0' <= c <= '9' || 'a' <= c <= 'f' }

  /** A number is printed in lower case without a leading zero. */
  lemma {:induction false} HexOfExactly(n: nat)
    ensures n > 0 ==> HexOf(n)[0] != '0'
    ensures forall i :: 0 <= i < |HexOf(n)| ==> Lower(HexOf(n)[i])
  {
    if n >= 16 {
      HexOfExactly(n / 16);
      assert HexOf(n) == HexOf(n / 16) + [HexDigit(n % 16)];
    }
  }

  /** Filling puts zeros in front up to the width, and no more. */
  lemma {:induction false} PaddedExactly(s: string, width: nat)
    requires AllHex(s)
    ensures var r := Padded(s, width);
            |r| == (if |s| < width then width else |s|) && r[|r| - |s|..] == s &&
            forall i :: 0 <= i < |r| - |s| ==> r[i] == '0'
    decreases width - |s|
  {
    if |s| < width {
      var r := Padded(['0'] + s, width);
      PaddedExactly(['0'] + s, width);
      assert r[|r| - |s| - 1..][1..] == r[|r| - |s|..];
      assert r[|r| - |s| - 1..][0] == r[|r| - |s| - 1];
    }
  }

  predicate Sign(s: string) { s == "" || s == "+" || s == "-" }

  /** The value a sign and digits stand for, if it fits. */
  function Signed(negative: bool, digits: string): Option<Addr>
    requires AllHex(digits)
  {
    if ValueOf(digits) >= 0x1_0000_0000_0000_0000 then None
    else if negative then Some((0x1_0000_0000_0000_0000 - ValueOf(digits)) % 0x1_0000_0000_0000_0000)
    else Some(ValueOf(digits))
  }

  /** After an optional sign come digits of either case; what follows them is ignored. */
  lemma StoullExactly(sign: string, digits: string, tail: string)
    requires Sign(sign) && digits != [] && AllHex(digits) && (tail == [] || !IsHex(tail[0]))
    requires !(digits == ['0'] && |tail| > 1 && (tail[0] == 'x' || tail[0] == 'X') && IsHex(tail[1]))
    ensures Stoull(sign + (digits + tail)) == Signed(sign == "-", digits)
  {
    var t := digits + tail;
    SignSplit(sign, t);
    HexPrefixStops(digits, tail);
    if |digits| > 1 {
      assert t[1] == digits[1];
    } else {
      assert digits == [digits[0]] && t[1..] == tail;
    }
  }

  /** Or after the sign a prefix of a zero and an x of either case. */
  lemma StoullPrefixed(sign: string, x: char, digits: string, tail: string)
    requires Sign(sign) && (x == 'x' || x == 'X') && digits != [] && AllHex(digits) && (tail == [] || !IsHex(tail[0]))
    ensures Stoull(sign + (['0', x] + (digits + tail))) == Signed(sign == "-", digits)
  {
    var t := ['0', x] + (digits + tail);
    SignSplit(sign, t);
    HexPrefixStops(digits, tail);
    assert t[2] == digits[0] && t[2..] == digits + tail;
  }

  lemma SignSplit(sign: string, t: string)
    requires Sign(sign) && t != [] && IsHex(t[0])
    ensures sign + t != [] && ((sign + t)[0] == '-' <==> sign == "-") && ((sign + t)[0] == '+' <==> sign == "+")
    ensures sign == "" ==> sign + t == t
    ensures sign != "" ==> (sign + t)[1..] == t
  {
    if sign != "" {
      assert |sign| == 1;
    }
  }

  lemma {:induction false} HexPrefixStops(digits: string, tail: string)
    requires AllHex(digits) && (tail == [] || !IsHex(tail[0]))
    ensures HexPrefix(digits + tail) == digits
  {
    if digits == [] {
      assert digits + tail == tail;
    } else {
      HexPrefixStops(digits[1..], tail);
      assert (digits + tail)[1..] == digits[1..] + tail;
    }
  }

  /** Without a digit there is no number. */
  lemma StoullNeedsDigits(sign: char, tail: string)
    requires tail == [] || !IsHex(tail[0])
    ensures sign == '+' || sign == '-' ==> Stoull([sign] + tail).None?
    ensures tail == [] || (tail[0] != '+' && tail[0] != '-') ==> Stoull(tail).None?
  {
    assert ([sign] + tail)[1..] == tail;
  }

  /** Two characters: two digits, or one digit alone or after a sign; a negative digit is cut to a byte. */
  lemma StoiExactly(a: char, b: char)
    ensures IsHex(a) && IsHex(b) ==> Stoi(a, b) == Some(16 * HexValue(a) + HexValue(b))
    ensures IsHex(a) && !IsHex(b) ==> Stoi(a, b) == Some(HexValue(a))
    ensures a == '+' && IsHex(b) ==> Stoi(a, b) == Some(HexValue(b))
    ensures a == '-' && IsHex(b) ==> Stoi(a, b).Some? && (Stoi(a, b).value + HexValue(b)) % 256 == 0
    ensures !IsHex(a) && (a !in {'+', '-'} || !IsHex(b)) ==> Stoi(a, b).None?
  {
  }

  lemma StoiOfPrinted(b: Byte)
    ensures Stoi(Hex2(b)[0], Hex2(b)[1]) == Some(b)
  {
  }

  // ---------------------------------------------------------------- lines and tokens

  function Lines(text: string): (r: seq<string>)
    ensures r != []
  {
    if text == [] then [[]]
    else if text[0] == '\n' then [[]] + Lines(text[1..])
    else
      var rest := Lines(text[1..]);
      [[text[0]] + rest[0]] + rest[1..]
  }

  function CutComment(s: string): string {
    if s == [] || (|s| > 1 && s[0] == '/' && s[1] == '/') then [] else [s[0]] + CutComment(s[1..])
  }

  function StrippedLeading(s: string): string {
    if s != [] && IsWhite(s[0]) then StrippedLeading(s[1..]) else s
  }

  function StrippedTrailing(s: string): string {
    if s != [] && IsWhite(s[|s| - 1]) then StrippedTrailing(s[..|s| - 1]) else s
  }

  function WithoutUnderscores(s: string): string {
    if s == [] then [] else (if s[0] == '_' then [] else [s[0]]) + WithoutUnderscores(s[1..])
  }

  function Clean(line: string): string {
    StrippedTrailing(WithoutUnderscores(StrippedLeading(CutComment(line))))
  }

  /** The tokens of `s`, the first of which begins with `part`. */
  function TokensFrom(part: string, s: string): seq<string>
    decreases |s|
  {
    if s == [] then (if part == [] then [] else [part])
    else if IsSpace(s[0]) then (if part == [] then [] else [part]) + TokensFrom([], s[1..])
    else TokensFrom(part + [s[0]], s[1..])
  }

  function Tokens(s: string): seq<string> { TokensFrom([], s) }

  function AllTokens(lines: seq<string>): seq<string> {
    if lines == [] then [] else Tokens(Clean(lines[0])) + AllTokens(lines[1..])
  }

  // ---------------------------------------------------------------- loading

  const VECTOR_MAX: int := 0x7FFF_FFFF_FFFF_FFFF

  /** The loader's variables; `offset == MAX_ADDR` means not set yet, `thrown` that an exception ended it. */
  datatype Loader = Loader(address: Addr, offset: Addr, mem: seq<Byte>, errors: nat, thrown: bool)

  function Begin(mem: seq<Byte>): Loader { Loader(0, MAX_ADDR, mem, 0, false) }

  /** Stores one converted byte at the current address and moves on; `None` is a failed conversion. */
  function StoreByte(l: Loader, byte: Option<Byte>): Loader {
    var offset := if l.offset == MAX_ADDR then l.address else l.offset;
    var index := (l.address - offset) % TWO64;
    var need := (index + 1) % TWO64;
    if need >= |l.mem| && need > VECTOR_MAX then l.(offset := offset, thrown := true)
    else
      var mem := if need >= |l.mem| then Resized<Byte>(l.mem, need, 0) else l.mem;
      if byte.None? || index >= |mem| then l.(offset := offset, mem := mem, thrown := true)
      else l.(offset := offset, mem := mem[index := byte.value], address := (l.address + 1) % TWO64)
  }

  /** Two characters at a time. */
  function StoreToken(l: Loader, token: string): Loader
    requires |token| % 2 == 0
    decreases |token|
  {
    if l.thrown || token == [] then l else StoreToken(StoreByte(l, Stoi(token[0], token[1])), token[2..])
  }

  function Even(token: string): (r: string)
    ensures |r| % 2 == 0
  {
    if |token| % 2 == 1 then ['0'] + token else token
  }

  function ApplyToken(l: Loader, token: string): Loader
    requires token != []
  {
    if token[0] == '@' then
      var a := Stoull(token[1..]);
      if a.None? then l.(thrown := true) else l.(address := a.value)
    else if IsHex(token[0]) then
      StoreToken(if AllHex(token) then l else l.(errors := l.errors + 1), Even(token))
    else l.(errors := l.errors + 1)
  }

  predicate NoneEmpty(tokens: seq<string>) { forall i :: 0 <= i < |tokens| ==> tokens[i] != [] }

  function ApplyTokens(l: Loader, tokens: seq<string>): Loader
    requires NoneEmpty(tokens)
    decreases |tokens|
  {
    if l.thrown || tokens == [] then l else ApplyTokens(ApplyToken(l, tokens[0]), tokens[1..])
  }

  lemma {:induction false} TokensNoneEmpty(part: string, s: string)
    ensures NoneEmpty(TokensFrom(part, s))
    decreases |s|
  {
    if s != [] {
      if IsSpace(s[0]) {
        TokensNoneEmpty([], s[1..]);
      } else {
        TokensNoneEmpty(part + [s[0]], s[1..]);
      }
    }
  }

  lemma {:induction false} AllTokensNoneEmpty(lines: seq<string>)
    ensures NoneEmpty(AllTokens(lines))
  {
    if lines != [] {
      TokensNoneEmpty([], Clean(lines[0]));
      AllTokensNoneEmpty(lines[1..]);
    }
  }

  /** Loading a text into a vector. */
  function Loaded(text: string, mem: seq<Byte>): Loader {
    AllTokensNoneEmpty(Lines(text));
    ApplyTokens(Begin(mem), AllTokens(Lines(text)))
  }

  // ---------------------------------------------------------------- saving

  const BYTES_PER_LINE: nat := 16

  function Separator(i: nat): char {
    if i % BYTES_PER_LINE == BYTES_PER_LINE - 1 then '\n' else ' '
  }

  /** The bytes from index i on, each followed by its separator. */
  function Body(data: seq<Byte>, i: nat): string
    requires i <= |data|
    decreases |data| - i
  {
    if i == |data| then [] else Hex2(data[i]) + [Separator(i)] + Body(data, i + 1)
  }

  function Header(name: string, address: Addr): string {
    "// " + name + "\n" + "" + "\n" + ("@" + Padded(HexOf(address), 8)) + "\n"
  }

  const TRAILER: string := "\n" + "//  bytes" + "\n" + "" + "\n" + "// End of file" + "\n"

  function Saved(name: string, address: Addr, data: seq<Byte>): string {
    Header(name, address) + Body(data, 0) + TRAILER
  }

  // ---------------------------------------------------------------- text lemmas

  function TokensOf(text: string): seq<string> { AllTokens(Lines(text)) }

  predicate OneLine(s: string) { '\n' !in s }

  lemma {:induction false} LinesAppend(a: string, b: string)
    ensures Lines(a + "\n" + b) == Lines(a) + Lines(b)
  {
    var t := a + "\n" + b;
    if a == [] {
      assert t[0] == '\n' && t[1..] == b;
    } else {
      assert t[1..] == a[1..] + "\n" + b && t[0] == a[0];
      LinesAppend(a[1..], b);
      PrefixFirst(a[0], Lines(a[1..]), Lines(b));
    }
  }

  lemma PrefixFirst(c: char, x: seq<string>, y: seq<string>)
    requires x != []
    ensures (x + y)[0] == x[0] && [[c] + x[0]] + (x + y)[1..] == [[c] + x[0]] + x[1..] + y
    ensures [[]] + (x + y) == [[]] + x + y
  {
    assert (x + y)[1..] == x[1..] + y;
  }

  lemma {:induction false} AllTokensAppend(a: seq<string>, b: seq<string>)
    ensures AllTokens(a + b) == AllTokens(a) + AllTokens(b)
  {
    if a == [] {
      assert a + b == b;
    } else {
      AllTokensAppend(a[1..], b);
      assert (a + b)[1..] == a[1..] + b && (a + b)[0] == a[0];
      Associate(Tokens(Clean(a[0])), AllTokens(a[1..]), AllTokens(b));
    }
  }

  lemma Associate(x: seq<string>, y: seq<string>, z: seq<string>)
    ensures x + (y + z) == x + y + z
  {
  }

  /** A line break separates tokens for good. */
  lemma TokensOfAppend(a: string, b: string)
    ensures TokensOf(a + "\n" + b) == TokensOf(a) + TokensOf(b)
  {
    LinesAppend(a, b);
    AllTokensAppend(Lines(a), Lines(b));
  }

  lemma {:induction false} OneLineIsItself(a: string)
    requires OneLine(a)
    ensures Lines(a) == [a] && TokensOf(a) == Tokens(Clean(a))
  {
    if a != [] {
      OneLineIsItself(a[1..]);
      assert [a[0]] + a[1..] == a;
    }
    assert [a][1..] == [];
  }

  lemma {:induction false} TokensAppend(part: string, x: string, w: char, y: string)
    requires IsSpace(w)
    ensures TokensFrom(part, x + [w] + y) == TokensFrom(part, x) + Tokens(y)
    decreases |x|
  {
    var t := x + [w] + y;
    if x == [] {
      assert t[0] == w && t[1..] == y;
    } else {
      assert t[0] == x[0] && t[1..] == x[1..] + [w] + y;
      if IsSpace(x[0]) {
        TokensAppend([], x[1..], w, y);
      } else {
        TokensAppend(part + [x[0]], x[1..], w, y);
      }
    }
  }

  /** Characters without comment signs, underscores or odd white space. */
  predicate Plain(s: string) { forall i :: 0 <= i < |s| ==> s[i] != '/' && s[i] != '_' }

  lemma PlainUncut(s: string)
    requires Plain(s)
    ensures CutComment(s) == s && WithoutUnderscores(s) == s
  {
  }

  lemma {:induction false} LeadingKeepsTokens(s: string)
    ensures Tokens(StrippedLeading(s)) == Tokens(s)
    ensures Plain(s) ==> Plain(StrippedLeading(s))
  {
    if s != [] && IsWhite(s[0]) {
      LeadingKeepsTokens(s[1..]);
    }
  }

  lemma {:induction false} TrailingKeepsTokens(s: string)
    ensures Tokens(StrippedTrailing(s)) == Tokens(s)
  {
    if s != [] && IsWhite(s[|s| - 1]) {
      TrailingKeepsTokens(s[..|s| - 1]);
      assert s == s[..|s| - 1] + [s[|s| - 1]] + [];
      TokensAppend([], s[..|s| - 1], s[|s| - 1], []);
    }
  }

  lemma PlainLine(s: string)
    requires Plain(s)
    ensures Tokens(Clean(s)) == Tokens(s)
  {
    PlainUncut(s);
    LeadingKeepsTokens(s);
    PlainUncut(StrippedLeading(s));
    TrailingKeepsTokens(StrippedLeading(s));
  }

  lemma PlainParts(a: string, s: string)
    requires Plain(a + s) && s != [] && s[0] == '\n'
    ensures Plain(a) && Plain(s[1..]) && Plain([] + s[1..]) && [] + s[1..] == s[1..] && a + s == a + "\n" + s[1..]
  {
    assert forall i :: 0 <= i < |a| ==> a[i] == (a + s)[i];
    assert forall i :: 0 <= i < |s[1..]| ==> s[1..][i] == (a + s)[|a| + 1 + i];
  }

  /** In plain text, lines do not matter: the tokens are those of the whole. */
  lemma {:induction false} PlainTokens(a: string, s: string)
    requires Plain(a + s) && OneLine(a)
    ensures TokensOf(a + s) == Tokens(a + s)
    decreases |s|
  {
    if s == [] {
      assert a + s == a;
      OneLineIsItself(a);
      PlainLine(a);
    } else if s[0] == '\n' {
      PlainParts(a, s);
      TokensOfAppend(a, s[1..]);
      TokensAppend([], a, '\n', s[1..]);
      OneLineIsItself(a);
      PlainLine(a);
      PlainTokens([], s[1..]);
    } else {
      assert a + s == (a + [s[0]]) + s[1..];
      PlainTokens(a + [s[0]], s[1..]);
    }
  }

  // ---------------------------------------------------------------- the tokens of a saved file

  function ByteTokens(data: seq<Byte>): seq<string> {
    seq(|data|, i requires 0 <= i < |data| => Hex2(data[i]))
  }

  /** Only the six white space characters end a token. */
  lemma {:induction false} OneToken(part: string, s: string)
    requires part + s != []
    requires forall i :: 0 <= i < |s| ==> s[i] !in {' ', '\t', '\n', '\r', '\U{000B}', '\U{000C}'}
    ensures TokensFrom(part, s) == [part + s]
    decreases |s|
  {
    if s == [] {
      assert part + s == part;
    } else {
      OneToken(part + [s[0]], s[1..]);
      assert part + [s[0]] + s[1..] == part + s;
    }
  }

  lemma {:induction false} HexIsOneToken(part: string, s: string)
    requires AllHex(s)
    ensures TokensFrom(part, s) == if part + s == [] then [] else [part + s]
    decreases |s|
  {
    if s == [] {
      assert part + s == part;
    } else {
      assert IsHex(s[0]);
      HexIsOneToken(part + [s[0]], s[1..]);
      assert part + [s[0]] + s[1..] == part + s;
    }
  }

  lemma {:induction false} BodyTokens(data: seq<Byte>, i: nat)
    requires i <= |data|
    ensures Tokens(Body(data, i)) == ByteTokens(data[i..])
    decreases |data| - i
  {
    if i == |data| {
      assert |ByteTokens(data[i..])| == 0;
    } else {
      BodyTokens(data, i + 1);
      HexIsOneToken([], Hex2(data[i]));
      TokensAppend([], Hex2(data[i]), Separator(i), Body(data, i + 1));
      FirstByteToken(data[i], data[i + 1..]);
      assert data[i..] == [data[i]] + data[i + 1..];
      assert [] + Hex2(data[i]) == Hex2(data[i]);
    }
  }

  lemma FirstByteToken(b: Byte, rest: seq<Byte>)
    ensures ByteTokens([b] + rest) == [Hex2(b)] + ByteTokens(rest)
  {
  }

  lemma {:induction false} BodyPlain(data: seq<Byte>, i: nat)
    requires i <= |data|
    ensures Plain(Body(data, i))
    decreases |data| - i
  {
    if i < |data| {
      BodyPlain(data, i + 1);
      assert IsHex(Hex2(data[i])[0]) && IsHex(Hex2(data[i])[1]);
    }
  }

  lemma CommentLine(s: string)
    requires OneLine(s) && |s| > 1 && s[0] == '/' && s[1] == '/'
    ensures TokensOf(s) == []
  {
    OneLineIsItself(s);
    assert CutComment(s) == [];
  }

  lemma BlankLine()
    ensures TokensOf("") == []
  {
    OneLineIsItself("");
  }

  /** The header's tokens: those the file name leaves, then the address. */
  lemma HeaderTokens(name: string, address: Addr, rest: string)
    ensures TokensOf(Header(name, address) + rest)
            == TokensOf("// " + name) + (["@" + Padded(HexOf(address), 8)] + TokensOf(rest))
  {
    var first, at := "// " + name, "@" + Padded(HexOf(address), 8);
    HeaderParts(first, at, rest);
    assert Header(name, address) == first + "\n" + "" + "\n" + at + "\n";
    ThreeTokenLines(first, at, rest);
    AtLine(Padded(HexOf(address), 8));
  }

  lemma ThreeTokenLines(first: string, at: string, rest: string)
    ensures TokensOf(first + "\n" + ("" + "\n" + (at + "\n" + rest)))
            == TokensOf(first) + (TokensOf(at) + TokensOf(rest))
  {
    TokensOfAppend(first, "" + "\n" + (at + "\n" + rest));
    TokensOfAppend("", at + "\n" + rest);
    BlankLine();
    TokensOfAppend(at, rest);
  }

  lemma HeaderParts(first: string, at: string, rest: string)
    ensures (first + "\n" + "" + "\n" + at + "\n") + rest == first + "\n" + ("" + "\n" + (at + "\n" + rest))
  {
  }

  lemma AtLine(digits: string)
    requires AllHex(digits)
    ensures TokensOf("@" + digits) == ["@" + digits]
  {
    var at := "@" + digits;
    assert at[0] == '@' && at[1..] == digits;
    OneLineIsItself(at);
    PlainLine(at);
    HexIsOneToken("@", digits);
    assert Tokens(at) == TokensFrom([] + [at[0]], at[1..]);
    assert [] + [at[0]] == "@";
  }

  function TwoComments(x: string, y: string): string { x + "\n" + ("" + "\n" + (y + "\n" + "")) }

  lemma TwoCommentsTokens(x: string, y: string)
    requires OneLine(x) && |x| > 1 && x[0] == '/' && x[1] == '/'
    requires OneLine(y) && |y| > 1 && y[0] == '/' && y[1] == '/'
    ensures TokensOf(TwoComments(x, y)) == []
  {
    TokensOfAppend(x, "" + "\n" + (y + "\n" + ""));
    TokensOfAppend("", y + "\n" + "");
    TokensOfAppend(y, "");
    CommentLine(x);
    CommentLine(y);
    BlankLine();
  }

  lemma TrailerTokens(body: string)
    ensures TokensOf(body + TRAILER) == TokensOf(body)
  {
    var x, y := "//  bytes", "// End of file";
    assert TRAILER == "\n" + TwoComments(x, y);
    assert body + TRAILER == body + "\n" + TwoComments(x, y);
    TokensOfAppend(body, TwoComments(x, y));
    TwoCommentsTokens(x, y);
  }

  /** Printing and tokenising: what the file name leaves, one address token, then one token for each byte. */
  lemma SavedTokens(name: string, address: Addr, data: seq<Byte>)
    ensures TokensOf(Saved(name, address, data))
            == TokensOf("// " + name) + (["@" + Padded(HexOf(address), 8)] + ByteTokens(data))
  {
    var body := Body(data, 0);
    assert Saved(name, address, data) == Header(name, address) + (body + TRAILER);
    HeaderTokens(name, address, body + TRAILER);
    TrailerTokens(body);
    BodyTokens(data, 0);
    BodyPlain(data, 0);
    assert [] + body == body && data[0..] == data;
    PlainTokens([], body);
  }

  // ---------------------------------------------------------------- what any text stores

  /** Once set, the offset stays. */
  lemma {:induction false} OffsetStays(l: Loader, tokens: seq<string>)
    requires NoneEmpty(tokens) && l.offset != MAX_ADDR
    ensures ApplyTokens(l, tokens).offset == l.offset
    decreases |tokens|
  {
    if !l.thrown && tokens != [] {
      var t := tokens[0];
      if t[0] != '@' && IsHex(t[0]) {
        TokenOffsetStays(if AllHex(t) then l else l.(errors := l.errors + 1), Even(t));
      }
      OffsetStays(ApplyToken(l, t), tokens[1..]);
    }
  }

  lemma {:induction false} TokenOffsetStays(l: Loader, token: string)
    requires |token| % 2 == 0 && l.offset != MAX_ADDR
    ensures StoreToken(l, token).offset == l.offset
    decreases |token|
  {
    if !l.thrown && token != [] {
      TokenOffsetStays(StoreByte(l, Stoi(token[0], token[1])), token[2..]);
    }
  }

  lemma HexLine(b: Byte)
    ensures TokensOf(Hex2(b)) == [Hex2(b)]
  {
    var t := Hex2(b);
    assert IsHex(t[0]) && IsHex(t[1]);
    OneLineIsItself(t);
    PlainLine(t);
    HexIsOneToken([], t);
    assert [] + t == t;
  }

  /** The vector never shrinks. */
  lemma {:induction false} NeverShrinks(l: Loader, tokens: seq<string>)
    requires NoneEmpty(tokens)
    ensures |ApplyTokens(l, tokens).mem| >= |l.mem|
    decreases |tokens|
  {
    if !l.thrown && tokens != [] {
      var t := tokens[0];
      if t[0] != '@' && IsHex(t[0]) {
        TokenNeverShrinks(if AllHex(t) then l else l.(errors := l.errors + 1), Even(t));
      }
      NeverShrinks(ApplyToken(l, t), tokens[1..]);
    }
  }

  lemma {:induction false} TokenNeverShrinks(l: Loader, token: string)
    requires |token| % 2 == 0
    ensures |StoreToken(l, token).mem| >= |l.mem|
    decreases |token|
  {
    if !l.thrown && token != [] {
      TokenNeverShrinks(StoreByte(l, Stoi(token[0], token[1])), token[2..]);
    }
  }

  /** A token that is neither an address nor digits only. */
  predicate Bad(token: string)
    requires token != []
  {
    token[0] != '@' && !AllHex(token)
  }

  function BadTokens(tokens: seq<string>): nat
    requires NoneEmpty(tokens)
  {
    if tokens == [] then 0 else (if Bad(tokens[0]) then 1 else 0) + BadTokens(tokens[1..])
  }

  lemma {:induction false} StoringReportsNothing(l: Loader, token: string)
    requires |token| % 2 == 0
    ensures StoreToken(l, token).errors == l.errors
    decreases |token|
  {
    if !l.thrown && token != [] {
      StoringReportsNothing(StoreByte(l, Stoi(token[0], token[1])), token[2..]);
    }
  }

  /** Unless an exception ends the loading, every bad token is reported once and nothing else is. */
  lemma {:induction false} ReportsExactly(l: Loader, tokens: seq<string>)
    requires NoneEmpty(tokens) && !ApplyTokens(l, tokens).thrown
    ensures ApplyTokens(l, tokens).errors == l.errors + BadTokens(tokens)
    decreases |tokens|
  {
    if tokens != [] {
      var t := tokens[0];
      if t[0] != '@' && IsHex(t[0]) {
        StoringReportsNothing(if AllHex(t) then l else l.(errors := l.errors + 1), Even(t));
      }
      ReportsExactly(ApplyToken(l, t), tokens[1..]);
    }
  }

  lemma {:induction false} StoreTokenAppend(l: Loader, a: string, b: string)
    requires |a| % 2 == 0 && |b| % 2 == 0
    ensures StoreToken(l, a + b) == StoreToken(StoreToken(l, a), b)
    decreases |a|
  {
    if a == [] {
      assert a + b == b;
    } else if !l.thrown {
      StoreTokenAppend(StoreByte(l, Stoi(a[0], a[1])), a[2..], b);
      assert (a + b)[2..] == a[2..] + b;
    }
  }

  lemma {:induction false} ErrorsAside(l: Loader, n: nat, token: string)
    requires |token| % 2 == 0
    ensures StoreToken(l.(errors := n), token) == StoreToken(l, token).(errors := n)
    decreases |token|
  {
    if !l.thrown && token != [] {
      ErrorsAside(StoreByte(l, Stoi(token[0], token[1])), n, token[2..]);
    }
  }

  /**
   A token of digits that goes wrong is reported once, its digits are stored all the same, and an
   exception ends the loading at the first two characters that are no number.
  */
  lemma BadDigits(l: Loader, digits: string, junk: string)
    requires !l.thrown && digits != [] && AllHex(digits) && |digits| % 2 == 0
    requires junk != [] && |junk| % 2 == 0 && !IsHex(junk[0]) && junk[0] != '+' && junk[0] != '-'
    ensures var d, r := StoreToken(l, digits), ApplyToken(l, digits + junk);
            r.thrown && r.errors == l.errors + 1 && r.address == d.address &&
            |d.mem| <= |r.mem| && r.mem[..|d.mem|] == d.mem
  {
    var t, m := digits + junk, l.(errors := l.errors + 1);
    BadToken(digits, junk);
    StoreTokenAppend(m, digits, junk);
    ErrorsAside(l, l.errors + 1, digits);
    JunkThrows(StoreToken(m, digits), junk);
  }

  lemma BadToken(digits: string, junk: string)
    requires digits != [] && AllHex(digits) && |digits| % 2 == 0 && junk != [] && |junk| % 2 == 0 && !IsHex(junk[0])
    ensures var t := digits + junk; t != [] && t[0] != '@' && IsHex(t[0]) && !AllHex(t) && Even(t) == t
  {
    var t := digits + junk;
    assert t[0] == digits[0] && IsHex(digits[0]);
    assert !AllHex(t) by {
      assert t[|digits|] == junk[0];
    }
  }

  lemma JunkThrows(d: Loader, junk: string)
    requires junk != [] && |junk| % 2 == 0 && !IsHex(junk[0]) && junk[0] != '+' && junk[0] != '-'
    ensures var r := StoreToken(d, junk);
            r.thrown && r.errors == d.errors && r.address == d.address &&
            |d.mem| <= |r.mem| && r.mem[..|d.mem|] == d.mem
  {
    if !d.thrown {
      var r := StoreByte(d, Stoi(junk[0], junk[1]));
      assert StoreToken(d, junk) == StoreToken(r, junk[2..]) == r;
    }
  }

  lemma DigitsApplied(l: Loader, token: string, tokens: seq<string>)
    requires token != [] && AllHex(token) && |token| % 2 == 0 && tokens == [token]
    ensures NoneEmpty(tokens) && ApplyTokens(l, tokens) == StoreToken(l, token)
  {
    assert IsHex(token[0]) && token[0] != '@' && tokens[1..] == [];
  }

  lemma PairApplied(l: Loader, a: string, b: string, one: seq<string>, other: seq<string>)
    requires a != [] && AllHex(a) && |a| % 2 == 0 && one == [a]
    requires b != [] && AllHex(b) && |b| % 2 == 0 && other == [b]
    ensures NoneEmpty(one + other) && ApplyTokens(l, one + other) == StoreToken(l, a + b)
  {
    StoreTokenAppend(l, a, b);
    DigitsApplied(l, a, one);
    DigitsApplied(StoreToken(l, a), b, other);
    ApplyAppend(l, one, other);
  }

  lemma HexAppend(a: string, b: string)
    requires AllHex(a) && AllHex(b)
    ensures AllHex(a + b)
  {
  }

  /** Splitting any token of digits at an even position changes nothing, wherever it stands. */
  lemma SplitToken(l: Loader, before: seq<string>, a: string, b: string, rest: seq<string>,
                   whole: seq<string>, one: seq<string>, other: seq<string>)
    requires a != [] && AllHex(a) && |a| % 2 == 0 && b != [] && AllHex(b) && |b| % 2 == 0
    requires NoneEmpty(before) && NoneEmpty(rest) && whole == [a + b] && one == [a] && other == [b]
    ensures NoneEmpty(before + (whole + rest)) && NoneEmpty(before + (one + other + rest))
    ensures ApplyTokens(l, before + (whole + rest)) == ApplyTokens(l, before + (one + other + rest))
  {
    HexAppend(a, b);
    DigitsApplied(ApplyTokens(l, before), a + b, whole);
    PairApplied(ApplyTokens(l, before), a, b, one, other);
    ApplyAround(l, before, whole, rest);
    ApplyAround(l, before, one + other, rest);
  }

  lemma ApplyAround(l: Loader, before: seq<string>, middle: seq<string>, rest: seq<string>)
    requires NoneEmpty(before) && NoneEmpty(middle) && NoneEmpty(rest)
    ensures NoneEmpty(before + (middle + rest))
    ensures ApplyTokens(l, before + (middle + rest)) == ApplyTokens(ApplyTokens(ApplyTokens(l, before), middle), rest)
  {
    ApplyAppend(ApplyTokens(l, before), middle, rest);
    ApplyAppend(l, before, middle + rest);
  }

  /** A text may begin or end with a token, or be set off from it by white space. */
  predicate Apart(x: string, y: string) {
    (x == [] || IsSpace(x[|x| - 1])) && (y == [] || IsSpace(y[0]))
  }

  lemma SpaceFirst(y: string)
    requires y != [] && IsSpace(y[0])
    ensures Tokens(y) == Tokens(y[1..])
  {
  }

  lemma TokenFirst(t: string, y: string)
    requires AllHex(t) && t != [] && Apart([], y)
    ensures Tokens(t + y) == [t] + Tokens(y)
  {
    HexIsOneToken([], t);
    assert [] + t == t;
    if y == [] {
      assert t + y == t;
    } else {
      assert t + y == t + [y[0]] + y[1..];
      TokensAppend([], t, y[0], y[1..]);
      SpaceFirst(y);
    }
  }

  lemma TokenBetween(x: string, t: string, y: string)
    requires AllHex(t) && t != [] && Apart(x, y)
    ensures Tokens(x + (t + y)) == Tokens(x) + ([t] + Tokens(y))
  {
    TokenFirst(t, y);
    if x == [] {
      assert x + (t + y) == t + y;
    } else {
      var n := |x| - 1;
      assert x + (t + y) == x[..n] + [x[n]] + (t + y) && x == x[..n] + [x[n]] + [];
      TokensAppend([], x[..n], x[n], t + y);
      TokensAppend([], x[..n], x[n], []);
    }
  }

  lemma PlainMiddle(pre: string, middle: string, post: string)
    requires Plain(middle)
    ensures TokensOf(pre + "\n" + (middle + "\n" + post)) == TokensOf(pre) + (Tokens(middle) + TokensOf(post))
  {
    TokensOfAppend(pre, middle + "\n" + post);
    TokensOfAppend(middle, post);
    assert [] + middle == middle;
    PlainTokens([], middle);
  }

  lemma PlainAppend(x: string, y: string)
    requires Plain(x) && Plain(y)
    ensures Plain(x + y)
  {
  }

  lemma HexPlain(a: string)
    requires AllHex(a)
    ensures Plain(a)
  {
    forall i | 0 <= i < |a| ensures a[i] != '/' && a[i] != '_' {
      assert IsHex(a[i]);
    }
  }

  /** The tokens of the two texts below. */
  lemma SplitTokens(x: string, a: string, w: char, b: string, y: string)
    requires AllHex(a) && a != [] && AllHex(b) && b != [] && IsSpace(w) && Apart(x, y)
    ensures Tokens(x + ((a + b) + y)) == Tokens(x) + ([a + b] + Tokens(y))
    ensures Tokens(x + (a + ([w] + (b + y)))) == Tokens(x) + ([a] + ([b] + Tokens(y)))
  {
    HexAppend(a, b);
    TokenBetween(x, a + b, y);
    TokenBetween(x, a, [w] + (b + y));
    SpaceFirst([w] + (b + y));
    TokenFirst(b, y);
    assert ([w] + (b + y))[1..] == b + y;
  }

  /**
   White space inside a token of digits, at an even position, changes nothing: whatever text stands
   before and after on other lines, and whatever plain text around it.
  */
  lemma SplitText(pre: string, x: string, a: string, w: char, b: string, y: string, post: string, mem: seq<Byte>)
    requires a != [] && AllHex(a) && |a| % 2 == 0 && b != [] && AllHex(b) && |b| % 2 == 0
    requires Plain(x) && Plain(y) && w in {' ', '\t', '\n', '\r', '\U{000B}', '\U{000C}'} && Apart(x, y)
    ensures Loaded(pre + "\n" + (x + ((a + b) + y) + "\n" + post), mem)
            == Loaded(pre + "\n" + (x + (a + ([w] + (b + y))) + "\n" + post), mem)
  {
    SplitPlain(x, a, w, b, y);
    PlainMiddle(pre, x + ((a + b) + y), post);
    PlainMiddle(pre, x + (a + ([w] + (b + y))), post);
    SplitTokens(x, a, w, b, y);
    var before, rest := TokensOf(pre) + Tokens(x), Tokens(y) + TokensOf(post);
    AllTokensNoneEmpty(Lines(pre));
    AllTokensNoneEmpty(Lines(post));
    TokensNoneEmpty([], x);
    TokensNoneEmpty([], y);
    SplitToken(Begin(mem), before, a, b, rest, [a + b], [a], [b]);
    Regroup(TokensOf(pre), Tokens(x), [a + b], Tokens(y), TokensOf(post));
    Regroup(TokensOf(pre), Tokens(x), [a] + [b], Tokens(y), TokensOf(post));
    Associate([a], [b], Tokens(y));
    AllTokensNoneEmpty(Lines(pre + "\n" + (x + ((a + b) + y) + "\n" + post)));
    AllTokensNoneEmpty(Lines(pre + "\n" + (x + (a + ([w] + (b + y))) + "\n" + post)));
  }

  lemma SplitPlain(x: string, a: string, w: char, b: string, y: string)
    requires AllHex(a) && AllHex(b) && Plain(x) && Plain(y) && IsSpace(w)
    ensures Plain(x + ((a + b) + y)) && Plain(x + (a + ([w] + (b + y))))
  {
    HexPlain(a);
    HexPlain(b);
    PlainAppend(a, b);
    PlainAppend(a + b, y);
    PlainAppend(b, y);
    PlainAppend([w], b + y);
    PlainAppend(a, [w] + (b + y));
  }

  lemma Regroup(p: seq<string>, x: seq<string>, m: seq<string>, y: seq<string>, q: seq<string>)
    ensures p + ((x + (m + y)) + q) == (p + x) + (m + (y + q))
  {
  }

  // ---------------------------------------------------------------- comments and underscores

  /** No comment begins in `s`. */
  predicate NoComment(s: string) {
    forall i :: 0 <= i < |s| - 1 ==> !(s[i] == '/' && s[i + 1] == '/')
  }

  lemma {:induction false} CutAtComment(x: string, y: string)
    requires NoComment(x + "/")
    ensures CutComment(x + ("//" + y)) == x
  {
    var s := x + ("//" + y);
    if x == [] {
      assert s[0] == '/' && s[1] == '/';
    } else {
      assert s[1..] == x[1..] + ("//" + y);
      assert (x + "/")[0] == s[0] && (x + "/")[1] == s[1];
      assert x[1..] + "/" == (x + "/")[1..];
      CutAtComment(x[1..], y);
    }
  }

  lemma {:induction false} CutNothing(x: string)
    requires NoComment(x)
    ensures CutComment(x) == x
  {
    if x != [] {
      CutNothing(x[1..]);
    }
  }

  lemma LineInText(pre: string, line: string, post: string)
    requires OneLine(line)
    ensures TokensOf(pre + "\n" + (line + "\n" + post)) == TokensOf(pre) + (Tokens(Clean(line)) + TokensOf(post))
  {
    TokensOfAppend(pre, line + "\n" + post);
    TokensOfAppend(line, post);
    OneLineIsItself(line);
  }

  lemma SameTokensSameLoad(a: string, b: string, mem: seq<Byte>)
    requires TokensOf(a) == TokensOf(b)
    ensures Loaded(a, mem) == Loaded(b, mem)
  {
    AllTokensNoneEmpty(Lines(a));
    AllTokensNoneEmpty(Lines(b));
  }

  /** A comment, wherever on its line it begins, changes nothing. */
  lemma CommentText(pre: string, x: string, y: string, post: string, mem: seq<Byte>)
    requires OneLine(x) && OneLine(y) && NoComment(x + "/")
    ensures Loaded(pre + "\n" + (x + ("//" + y) + "\n" + post), mem) == Loaded(pre + "\n" + (x + "\n" + post), mem)
  {
    CutAtComment(x, y);
    assert forall i :: 0 <= i < |x| ==> x[i] == (x + "/")[i];
    CutNothing(x);
    LineInText(pre, x + ("//" + y), post);
    LineInText(pre, x, post);
    SameTokensSameLoad(pre + "\n" + (x + ("//" + y) + "\n" + post), pre + "\n" + (x + "\n" + post), mem);
  }

  lemma {:induction false} WithoutAppend(a: string, b: string)
    ensures WithoutUnderscores(a + b) == WithoutUnderscores(a) + WithoutUnderscores(b)
  {
    if a == [] {
      assert a + b == b;
    } else {
      var first := if a[0] == '_' then [] else [a[0]];
      WithoutAppend(a[1..], b);
      assert (a + b)[0] == a[0] && (a + b)[1..] == a[1..] + b;
      assert first + (WithoutUnderscores(a[1..]) + WithoutUnderscores(b))
          == first + WithoutUnderscores(a[1..]) + WithoutUnderscores(b);
    }
  }

  /** Stripping white space changes no token: only the comment and the underscores matter. */
  lemma CleanTokens(line: string)
    ensures Tokens(Clean(line)) == Tokens(WithoutUnderscores(CutComment(line)))
  {
    LeadingWithout(CutComment(line));
    TrailingKeepsTokens(WithoutUnderscores(StrippedLeading(CutComment(line))));
  }

  lemma {:induction false} LeadingWithout(s: string)
    ensures Tokens(WithoutUnderscores(StrippedLeading(s))) == Tokens(WithoutUnderscores(s))
  {
    if s != [] && IsWhite(s[0]) {
      LeadingWithout(s[1..]);
      SpaceFirst(WithoutUnderscores(s));
    }
  }

  /** An underscore does not keep a comment from being one, unless it parts the two slashes. */
  lemma {:induction false} CutUnderscore(x: string, y: string)
    requires !(x != [] && y != [] && x[|x| - 1] == '/' && y[0] == '/')
    ensures WithoutUnderscores(CutComment(x + ("_" + y))) == WithoutUnderscores(CutComment(x + y))
  {
    var s, t := x + ("_" + y), x + y;
    if x == [] {
      assert s[0] == '_' && s[1..] == y && t == y;
    } else {
      assert s[1..] == x[1..] + ("_" + y) && t[1..] == x[1..] + y;
      CutUnderscore(x[1..], y);
    }
  }

  /** An underscore changes nothing, but for one between two slashes. */
  lemma UnderscoreText(pre: string, x: string, y: string, post: string, mem: seq<Byte>)
    requires OneLine(x) && OneLine(y) && !(x != [] && y != [] && x[|x| - 1] == '/' && y[0] == '/')
    ensures Loaded(pre + "\n" + (x + ("_" + y) + "\n" + post), mem) == Loaded(pre + "\n" + (x + y + "\n" + post), mem)
  {
    CutUnderscore(x, y);
    CleanTokens(x + ("_" + y));
    CleanTokens(x + y);
    LineInText(pre, x + ("_" + y), post);
    LineInText(pre, x + y, post);
    SameTokensSameLoad(pre + "\n" + (x + ("_" + y) + "\n" + post), pre + "\n" + (x + y + "\n" + post), mem);
  }

  // ---------------------------------------------------------------- the lines of a saved file

  /** Bytes printed one after the other, each with a space after it. */
  function Spaced(bytes: seq<Byte>): string {
    if bytes == [] then [] else Hex2(bytes[0]) + (" " + Spaced(bytes[1..]))
  }

  /** Sixteen bytes a line, the last one without its space; then the rest. */
  function Rows(bytes: seq<Byte>): (r: seq<string>)
    ensures r != []
  {
    if |bytes| < 16 then [Spaced(bytes)] else [Row(bytes[..16])] + Rows(bytes[16..])
  }

  lemma {:induction false} BodySpaced(data: seq<Byte>, i: nat, j: nat)
    requires i <= j <= |data| && i % 16 + (j - i) <= 15
    ensures Body(data, i) == Spaced(data[i..j]) + Body(data, j)
    decreases j - i
  {
    if i == j {
      assert data[i..j] == [];
    } else {
      BodySpaced(data, i + 1, j);
      assert data[i..j] == [data[i]] + data[i + 1..j];
      NotRowEnd(i);
      Spread(Hex2(data[i]), " ", Spaced(data[i + 1..j]), Body(data, j));
    }
  }

  lemma NotRowEnd(i: nat)
    requires i % 16 < 15
    ensures Separator(i) == ' '
  {
  }

  lemma Spread(a: string, b: string, c: string, d: string)
    ensures a + b + (c + d) == a + (b + c) + d
  {
  }

  lemma {:induction false} SpacedOneLine(bytes: seq<Byte>)
    ensures OneLine(Spaced(bytes))
  {
    if bytes != [] {
      SpacedOneLine(bytes[1..]);
      Hex2OneLine(bytes[0]);
    }
  }

  lemma Hex2OneLine(b: Byte)
    ensures OneLine(Hex2(b))
  {
    assert IsHex(Hex2(b)[0]) && IsHex(Hex2(b)[1]);
  }

  /** A full line. */
  function Row(bytes: seq<Byte>): string
    requires |bytes| == 16
  {
    Spaced(bytes[..15]) + Hex2(bytes[15])
  }

  lemma RowOneLine(bytes: seq<Byte>)
    requires |bytes| == 16
    ensures OneLine(Row(bytes))
  {
    SpacedOneLine(bytes[..15]);
    Hex2OneLine(bytes[15]);
  }

  lemma RowEnd(data: seq<Byte>, i: nat, j: nat)
    requires i % 16 == 0 && j == i + 15 < |data|
    ensures Body(data, j) == Hex2(data[j]) + "\n" + Body(data, j + 1)
  {
    assert j % 16 == 15;
  }

  lemma BodyRow(data: seq<Byte>, i: nat, bytes: seq<Byte>)
    requires i + 16 <= |data| && i % 16 == 0 && bytes == data[i..i + 16]
    ensures Body(data, i) == Row(bytes) + "\n" + Body(data, i + 16)
  {
    BodySpaced(data, i, i + 15);
    RowEnd(data, i, i + 15);
    assert bytes[..15] == data[i..i + 15];
    Regrouped(Spaced(bytes[..15]), Hex2(bytes[15]), "\n", Body(data, i + 16));
  }

  lemma Regrouped(a: string, b: string, c: string, d: string)
    ensures a + (b + c + d) == (a + b) + c + d
  {
  }

  lemma {:induction false} BodyLines(data: seq<Byte>, i: nat)
    requires i <= |data| && i % 16 == 0
    ensures Lines(Body(data, i)) == Rows(data[i..])
    decreases |data| - i
  {
    if |data| - i < 16 {
      LastLine(data, i);
    } else {
      var row := Row(data[i..i + 16]);
      BodyRow(data, i, data[i..i + 16]);
      RowOneLine(data[i..i + 16]);
      OneLineIsItself(row);
      LinesAppend(row, Body(data, i + 16));
      BodyLines(data, i + 16);
      assert data[i..][..16] == data[i..i + 16] && data[i..][16..] == data[i + 16..];
    }
  }

  lemma LastLine(data: seq<Byte>, i: nat)
    requires i <= |data| < i + 16 && i % 16 == 0
    ensures Lines(Body(data, i)) == [Spaced(data[i..])]
  {
    BodySpaced(data, i, |data|);
    SpacedOneLine(data[i..]);
    OneLineIsItself(Spaced(data[i..]));
    assert data[i..|data|] == data[i..];
    assert Spaced(data[i..]) + [] == Spaced(data[i..]);
  }

  /** There are as many full data lines as sixteens of bytes, and one more for the rest. */
  lemma {:induction false} RowsCount(bytes: seq<Byte>)
    ensures |Rows(bytes)| == |bytes| / 16 + 1
    decreases |bytes|
  {
    if |bytes| >= 16 {
      RowsCount(bytes[16..]);
    }
  }

  /** Line r, which begins with byte `from`, holds the next sixteen bytes; the last one holds the rest. */
  lemma {:induction false} RowsExactly(bytes: seq<Byte>, r: nat, from: nat)
    requires from == 16 * r <= |bytes|
    ensures r < |Rows(bytes)|
    ensures Rows(bytes)[r] == if from + 16 <= |bytes| then Row(bytes[from..from + 16]) else Spaced(bytes[from..])
    decreases r
  {
    if r == 0 {
      assert bytes[0..] == bytes && (|bytes| >= 16 ==> bytes[0..0 + 16] == bytes[..16]);
    } else {
      RowsExactly(bytes[16..], r - 1, from - 16);
      LaterSlices(bytes, from);
      assert Rows(bytes) == [Row(bytes[..16])] + Rows(bytes[16..]);
    }
  }

  lemma LaterSlices(bytes: seq<Byte>, lo: nat)
    requires 16 <= lo <= |bytes|
    ensures bytes[16..][lo - 16..] == bytes[lo..]
    ensures lo + 16 <= |bytes| ==> bytes[16..][lo - 16..lo - 16 + 16] == bytes[lo..lo + 16]
  {
  }

  lemma ThreeLines(a: string, b: string, c: string, rest: string)
    requires OneLine(a) && OneLine(b) && OneLine(c)
    ensures Lines(a + "\n" + (b + "\n" + (c + "\n" + rest))) == [a, b, c] + Lines(rest)
  {
    LinesAppend(a, b + "\n" + (c + "\n" + rest));
    LinesAppend(b, c + "\n" + rest);
    LinesAppend(c, rest);
    OneLineIsItself(a);
    OneLineIsItself(b);
    OneLineIsItself(c);
  }

  /** A saved file, line by line. */
  lemma SavedLines(name: string, address: Addr, data: seq<Byte>)
    requires OneLine(name)
    ensures Lines(Saved(name, address, data)) ==
            ["// " + name, "", "@" + Padded(HexOf(address), 8)] + (Rows(data) + ["//  bytes", "", "// End of file", ""])
  {
    var first, at, body := "// " + name, "@" + Padded(HexOf(address), 8), Body(data, 0);
    var x, y := "//  bytes", "// End of file";
    var end := x + "\n" + ("" + "\n" + (y + "\n" + ""));
    SavedParts(name, address, data, end);
    ThreeLines(first, "", at, body + "\n" + end);
    LinesAppend(body, end);
    BodyLines(data, 0);
    assert data[0..] == data;
    ThreeLines(x, "", y, "");
    assert [x, "", y] + Lines("") == [x, "", y, ""];
  }

  lemma SavedParts(name: string, address: Addr, data: seq<Byte>, end: string)
    requires end == "//  bytes" + "\n" + ("" + "\n" + ("// End of file" + "\n" + ""))
    ensures Saved(name, address, data) ==
            ("// " + name) + "\n" + ("" + "\n" +
            (("@" + Padded(HexOf(address), 8)) + "\n" + (Body(data, 0) + "\n" + end)))
  {
    var first, at := "// " + name, "@" + Padded(HexOf(address), 8);
    assert TRAILER == "\n" + end;
    assert Header(name, address) == first + "\n" + "" + "\n" + at + "\n";
    SevenParts(first, "\n", "", at, Body(data, 0), end);
  }

  lemma SevenParts(a: string, n: string, b: string, c: string, d: string, e: string)
    ensures (a + n + b + n + c + n) + d + (n + e) == a + n + (b + n + (c + n + (d + n + e)))
  {
  }

  // ---------------------------------------------------------------- the procedures

  method Save(name: string, address: Addr, data: seq<Byte>) returns (text: string)
    ensures text == Saved(name, address, data)
  {
    text := Header(name, address);
    var i := 0;
    while i < |data|
      invariant 0 <= i <= |data|
      invariant text + Body(data, i) == Header(name, address) + Body(data, 0)
    {
      ghost var before := text;
      text := text + Hex2(data[i]);
      text := text + [if i % BYTES_PER_LINE == BYTES_PER_LINE - 1 then '\n' else ' '];
      assert text + Body(data, i + 1) == before + (Hex2(data[i]) + [Separator(i)] + Body(data, i + 1));
      i := i + 1;
    }
    assert text + [] == text;
    text := text + TRAILER;
  }

  function FirstNotWhite(s: string): (pos: Option<nat>)
    ensures pos.Some? ==> pos.value < |s|
  {
    if s == [] then None
    else if !IsWhite(s[0]) then Some(0)
    else
      var r := FirstNotWhite(s[1..]);
      if r.None? then None else Some(r.value + 1)
  }

  function LastNotWhite(s: string): (pos: Option<nat>)
    ensures pos.Some? ==> pos.value < |s|
  {
    if s == [] then None
    else if !IsWhite(s[|s| - 1]) then Some(|s| - 1)
    else LastNotWhite(s[..|s| - 1])
  }

  method StripLeading(s: string) returns (r: string)
    ensures r == StrippedLeading(s)
  {
    r := s;
    var pos := FirstNotWhite(r);
    if pos.None? {
      r := "";
    } else if pos.value > 0 {
      r := r[pos.value..];
    }
    LeadingIsDrop(s);
  }

  lemma LeadingIsDrop(s: string)
    ensures StrippedLeading(s) == if FirstNotWhite(s).None? then [] else s[FirstNotWhite(s).value..]
  {
  }

  method StripTrailing(s: string) returns (r: string)
    ensures r == StrippedTrailing(s)
  {
    r := s;
    var pos := LastNotWhite(r);
    if pos.None? {
      r := "";
    } else if pos.value + 1 < |r| {
      r := r[..pos.value + 1];
    }
    TrailingIsTake(s);
  }

  lemma TrailingIsTake(s: string)
    ensures StrippedTrailing(s) == if LastNotWhite(s).None? then [] else s[..LastNotWhite(s).value + 1]
  {
  }

  /** Erases one character at a time. */
  method StripUnderscores(s: string) returns (r: string)
    ensures r == WithoutUnderscores(s)
  {
    r := s;
    var pos := 0;
    while pos < |r|
      invariant 0 <= pos <= |r|
      invariant r[..pos] + WithoutUnderscores(r[pos..]) == WithoutUnderscores(s)
      decreases |r| - pos
    {
      UnderscoreStep(r, pos);
      if r[pos] == '_' {
        r := r[..pos] + r[pos + 1..];
      } else {
        pos := pos + 1;
      }
    }
    assert r[..pos] == r && r[pos..] == [];
  }

  lemma UnderscoreStep(r: string, pos: nat)
    requires pos < |r|
    ensures var u := r[..pos] + r[pos + 1..];
            r[pos] == '_' ==> u[..pos] + WithoutUnderscores(u[pos..]) == r[..pos] + WithoutUnderscores(r[pos..])
    ensures r[pos] != '_' ==>
              r[..pos + 1] + WithoutUnderscores(r[pos + 1..]) == r[..pos] + WithoutUnderscores(r[pos..])
  {
    var u := r[..pos] + r[pos + 1..];
    assert r[pos..][1..] == r[pos + 1..] && u[..pos] == r[..pos] && u[pos..] == r[pos + 1..];
    assert r[..pos + 1] == r[..pos] + [r[pos]];
  }

  /** The loader on a whole text; on an exception the vector is left as it was then. */
  method Load(text: string, vector: seq<Byte>) returns (l: Loader)
    ensures l == Loaded(text, vector)
  {
    l := Begin(vector);
    var lines := Lines(text);
    AllTokensNoneEmpty(lines);
    assert lines[0..] == lines;
    var i := 0;
    while i < |lines|
      invariant 0 <= i <= |lines| && NoneEmpty(AllTokens(lines[i..])) && !l.thrown
      invariant ApplyTokens(l, AllTokens(lines[i..])) == Loaded(text, vector)
    {
      var line := CutComment(lines[i]);
      line := StripLeading(line);
      line := StripUnderscores(line);
      line := StripTrailing(line);
      ghost var later := AllTokens(lines[i + 1..]);
      TokensNoneEmpty([], line);
      AllTokensNoneEmpty(lines[i + 1..]);
      assert lines[i..][1..] == lines[i + 1..];
      ApplyAppend(l, Tokens(line), later);
      i := i + 1;
      if line == "" {
        continue;
      }
      l := LoadTokens(l, Tokens(line));
      if l.thrown {
        return;
      }
    }
  }

  lemma {:induction false} ApplyAppend(l: Loader, a: seq<string>, b: seq<string>)
    requires NoneEmpty(a) && NoneEmpty(b)
    ensures NoneEmpty(a + b) && ApplyTokens(l, a + b) == ApplyTokens(ApplyTokens(l, a), b)
    decreases |a|
  {
    if a == [] {
      assert a + b == b;
    } else if !l.thrown {
      ApplyAppend(ApplyToken(l, a[0]), a[1..], b);
      assert (a + b)[1..] == a[1..] + b;
    }
  }

  /** One token at a time. */
  method LoadTokens(l: Loader, tokens: seq<string>) returns (r: Loader)
    requires NoneEmpty(tokens) && !l.thrown
    ensures r == ApplyTokens(l, tokens)
  {
    r := l;
    var j := 0;
    assert tokens[0..] == tokens;
    while j < |tokens|
      invariant 0 <= j <= |tokens| && !r.thrown
      invariant ApplyTokens(r, tokens[j..]) == ApplyTokens(l, tokens)
    {
      var token := tokens[j];
      assert tokens[j..][1..] == tokens[j + 1..] && tokens[j..][0] == token;
      if token[0] == '@' {
        var a := Stoull(token[1..]);
        if a.None? {
          r := r.(thrown := true);
          return;
        }
        r := r.(address := a.value);
      } else if IsHex(token[0]) {
        if !AllHex(token) {
          r := r.(errors := r.errors + 1);
        }
        if |token| % 2 == 1 {
          token := "0" + token;
        }
        r := StoreDigits(r, token);
        if r.thrown {
          return;
        }
      } else {
        r := r.(errors := r.errors + 1);
      }
      j := j + 1;
    }
  }

  lemma StepDigits(l: Loader, token: string, i: nat)
    requires |token| % 2 == 0 && i % 2 == 0 && i < |token| && !l.thrown
    ensures var next := StoreByte(l, Stoi(token[i], token[i + 1]));
            StoreToken(l, token[i..]) == StoreToken(next, token[i + 2..]) &&
            (next.thrown ==> StoreToken(l, token[i..]) == next)
  {
    assert token[i..][2..] == token[i + 2..] && token[i..][0] == token[i] && token[i..][1] == token[i + 1];
  }

  /** For every two characters. */
  method StoreDigits(l: Loader, token: string) returns (r: Loader)
    requires |token| % 2 == 0 && !l.thrown
    ensures r == StoreToken(l, token)
  {
    r := l;
    var i := 0;
    assert token[0..] == token;
    while i < |token|
      invariant 0 <= i <= |token| && i % 2 == 0 && !r.thrown
      invariant StoreToken(r, token[i..]) == StoreToken(l, token)
    {
      StepDigits(r, token, i);
      r := StoreTwo(r, token[i], token[i + 1]);
      if r.thrown {
        return;
      }
      i := i + 2;
    }
    assert token[i..] == [];
  }

  /** Set the offset if unset, make room, convert and store. */
  method StoreTwo(l: Loader, high: char, low: char) returns (r: Loader)
    requires !l.thrown
    ensures r == StoreByte(l, Stoi(high, low))
  {
    var address: Addr, offset: Addr, mem: seq<Byte> := l.address, l.offset, l.mem;
    if offset == MAX_ADDR {
      offset := address;
    }
    var index := (address - offset) % TWO64;
    var need := (index + 1) % TWO64;
    if need >= |mem| {
      if need > VECTOR_MAX {
        return Loader(address, offset, mem, l.errors, true);
      }
      mem := Resized<Byte>(mem, need, 0);
    }
    var byte := Stoi(high, low);
    if byte.None? || index >= |mem| {
      return Loader(address, offset, mem, l.errors, true);
    }
    mem := mem[index := byte.value];
    address := (address + 1) % TWO64;
    r := Loader(address, offset, mem, l.errors, false);
  }
}
