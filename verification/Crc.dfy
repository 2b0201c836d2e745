/** The branch-free CRC-32 of the patcher: that it is the table-driven one of section 8 of RFC 1952,
    and which changes of a message it always notices. */
module Crc {

  type octet = bv8

  const POLY: bv32 := 0xEDB88320

  // ---------------------------------------------------------------- one bit, one byte

  function Xor(x: bv32, y: bv32): bv32 {
    x ^ y
  }

  /** One bit, without a branch. */
  function Step(c: bv32): bv32 {
    (0xEDB88320 & (0 - (c & 1))) ^ (c >> 1)
  }

  function Four(c: bv32): bv32 {
    Step(Step(Step(Step(c))))
  }

  function Eight(c: bv32): bv32 {
    Four(Four(c))
  }

  function Wide(b: octet): bv32 {
    b as bv32
  }

  /** The register after the bytes of `data`. */
  function Register(c: bv32, data: seq<octet>): bv32 {
    if data == [] then c
    else Eight(Xor(Register(c, data[..|data| - 1]), Wide(data[|data| - 1])))
  }

  function Crc32(data: seq<octet>): bv32 {
    Xor(Register(0xFFFF_FFFF, data), 0xFFFF_FFFF)
  }

  method ComputeCrc32(data: array<octet>) returns (rv: bv32)
    ensures rv == Crc32(data[..])
  {
    hide Step, Xor, Wide;
    rv := 0xFFFF_FFFF;
    for i := 0 to data.Length
      invariant rv == Register(0xFFFF_FFFF, data[..i])
    {
      assert data[..i + 1][..i] == data[..i];
      rv := XorByte(rv, data[i]);
      rv := BitStep(rv);
      rv := BitStep(rv);
      rv := BitStep(rv);
      rv := BitStep(rv);
      rv := BitStep(rv);
      rv := BitStep(rv);
      rv := BitStep(rv);
      rv := BitStep(rv);
    }
    assert data[..data.Length] == data[..];
    rv := Complement(rv);
  }

  method BitStep(rv: bv32) returns (r: bv32)
    ensures r == Step(rv)
  {
    r := (0xEDB88320 & (0 - (rv & 1))) ^ (rv >> 1);
  }

  method Complement(rv: bv32) returns (r: bv32)
    ensures r == Xor(rv, 0xFFFF_FFFF)
  {
    r := !rv;
  }

  method XorByte(rv: bv32, b: octet) returns (r: bv32)
    ensures r == Xor(rv, Wide(b))
  {
    r := rv ^ (b as bv32);
  }

  // ---------------------------------------------------------------- the definition of RFC 1952

  predicate Odd(c: bv32) {
    c & 1 != 0
  }

  function Half(c: bv32): bv32 {
    c >> 1
  }

  /** One bit of the table's construction. */
  function TableBit(c: bv32): bv32 {
    if Odd(c) then Xor(POLY, Half(c)) else Half(c)
  }

  function TableFour(c: bv32): bv32 {
    TableBit(TableBit(TableBit(TableBit(c))))
  }

  /** The table entry for a byte. */
  function TableEntry(n: bv32): bv32 {
    TableFour(TableFour(n))
  }

  function Low(c: bv32): bv32 {
    c & 0xFF
  }

  function High(c: bv32): bv32 {
    c >> 8
  }

  function Update(c: bv32, data: seq<octet>): bv32 {
    if data == [] then c
    else
      var was := Update(c, data[..|data| - 1]);
      Xor(TableEntry(Low(Xor(was, Wide(data[|data| - 1])))), High(was))
  }

  function RfcCrc(data: seq<octet>): bv32 {
    Xor(Update(0xFFFF_FFFF, data), 0xFFFF_FFFF)
  }

  // ---------------------------------------------------------------- bit-level laws

  lemma StepIsTableBit(c: bv32)
    ensures Step(c) == TableBit(c)
  {
    if c & 1 == 0 {
      assert 0 - (c & 1) == 0;
    } else {
      OneBit(c);
      assert 0 - (c & 1) == 0xFFFF_FFFF;
    }
  }

  lemma OneBit(c: bv32)
    requires c & 1 != 0
    ensures c & 1 == 1
  {
  }

  lemma XorSwaps(a: bv32, b: bv32)
    ensures Xor(a, b) == Xor(b, a)
  {
  }

  lemma XorRegroups(a: bv32, b: bv32, c: bv32)
    ensures Xor(Xor(a, b), c) == Xor(a, Xor(b, c))
  {
  }

  lemma XorUndoes(a: bv32, b: bv32)
    ensures Xor(a, Xor(a, b)) == b
  {
  }

  lemma XorLaws(a: bv32, b: bv32, c: bv32, d: bv32)
    ensures Xor(Xor(a, b), Xor(c, d)) == Xor(Xor(a, c), Xor(b, d))
  {
    hide Xor;
    XorRegroups(a, b, Xor(c, d));
    XorRegroups(b, c, d);
    XorSwaps(b, c);
    XorRegroups(c, b, d);
    XorRegroups(a, c, Xor(b, d));
  }

  lemma OddXor(x: bv32, y: bv32)
    ensures Odd(Xor(x, y)) <==> Odd(x) != Odd(y)
  {
  }

  lemma HalfXor(x: bv32, y: bv32)
    ensures Half(Xor(x, y)) == Xor(Half(x), Half(y))
  {
  }

  lemma TableBitLinear(x: bv32, y: bv32)
    ensures TableBit(Xor(x, y)) == Xor(TableBit(x), TableBit(y))
  {
    hide Xor, Odd, Half;
    OddXor(x, y);
    HalfXor(x, y);
    var a, b := Half(x), Half(y);
    if Odd(x) && Odd(y) {
      XorRegroups(POLY, a, Xor(POLY, b));
      XorRegroups(a, POLY, b);
      XorSwaps(a, POLY);
      XorRegroups(POLY, a, b);
      XorUndoes(POLY, Xor(a, b));
    } else if Odd(x) {
      XorRegroups(POLY, a, b);
    } else if Odd(y) {
      XorSwaps(a, Xor(POLY, b));
      XorRegroups(POLY, b, a);
      XorSwaps(a, b);
    }
  }

  lemma StepLinear(x: bv32, y: bv32)
    ensures Step(Xor(x, y)) == Xor(Step(x), Step(y))
  {
    hide Step, TableBit, Xor;
    TableBitLinear(x, y);
    StepIsTableBit(x);
    StepIsTableBit(y);
    StepIsTableBit(Xor(x, y));
  }

  lemma StepInjective(x: bv32, y: bv32)
    requires Step(x) == Step(y)
    ensures x == y
  {
  }

  lemma FourLinear(x: bv32, y: bv32)
    ensures Four(Xor(x, y)) == Xor(Four(x), Four(y))
  {
    hide Step, Xor;
    StepLinear(x, y);
    StepLinear(Step(x), Step(y));
    StepLinear(Step(Step(x)), Step(Step(y)));
    StepLinear(Step(Step(Step(x))), Step(Step(Step(y))));
  }

  lemma EightLinear(x: bv32, y: bv32)
    ensures Eight(Xor(x, y)) == Xor(Eight(x), Eight(y))
  {
    hide Four, Xor;
    FourLinear(x, y);
    FourLinear(Four(x), Four(y));
  }

  lemma EightInjective(x: bv32, y: bv32)
    requires Eight(x) == Eight(y)
    ensures x == y
  {
    hide Four;
    FourInjective(Four(x), Four(y));
    FourInjective(x, y);
  }

  lemma FourInjective(x: bv32, y: bv32)
    requires Four(x) == Four(y)
    ensures x == y
  {
    hide Step;
    StepInjective(Step(Step(Step(x))), Step(Step(Step(y))));
    StepInjective(Step(Step(x)), Step(Step(y)));
    StepInjective(Step(x), Step(y));
    StepInjective(x, y);
  }

  lemma FourShift(x: bv32)
    requires x & 0xF == 0
    ensures Four(x) == x >> 4
  {
  }

  /** Bits above the low eight only move down. */
  lemma EightShift(x: bv32)
    requires x & 0xFF == 0
    ensures Eight(x) == x >> 8
  {
    hide Four;
    assert x & 0xF == 0 && (x >> 4) & 0xF == 0;
    FourShift(x);
    FourShift(x >> 4);
    assert (x >> 4) >> 4 == x >> 8;
  }

  lemma XorCancels(a: bv32, b: bv32, x: bv32)
    requires Xor(a, x) == Xor(b, x)
    ensures a == b
  {
    hide Xor;
    XorSwaps(a, x);
    XorSwaps(b, x);
    XorUndoes(x, a);
    XorUndoes(x, b);
  }

  // ---------------------------------------------------------------- the fast form is the defined one

  lemma TableEntryIs(n: bv32)
    ensures TableEntry(n) == Eight(n)
  {
    hide Step, TableBit;
    FourIs(n);
    FourIs(Four(n));
  }

  lemma FourIs(n: bv32)
    ensures TableFour(n) == Four(n)
  {
    hide Step, TableBit;
    StepIsTableBit(n);
    StepIsTableBit(Step(n));
    StepIsTableBit(Step(Step(n)));
    StepIsTableBit(Step(Step(Step(n))));
  }

  function Upper(c: bv32): bv32 {
    c & 0xFFFF_FF00
  }

  lemma LowAndUpper(c: bv32)
    ensures c == Xor(Low(c), Upper(c)) && Upper(c) & 0xFF == 0 && Upper(c) >> 8 == High(c)
  {
  }

  lemma HighOfByte(c: bv32, b: octet)
    ensures High(Xor(c, Wide(b))) == High(c)
  {
  }

  /** A byte at a time: eight bits of the register are one table lookup and a shift. */
  lemma EightIsLookup(c: bv32)
    ensures Eight(c) == Xor(TableEntry(Low(c)), High(c))
  {
    hide Eight, TableEntry, Low, High, Upper, Xor;
    LowAndUpper(c);
    EightLinear(Low(c), Upper(c));
    EightShift(Upper(c));
    TableEntryIs(Low(c));
  }

  lemma {:induction false} RegisterIsUpdate(c: bv32, data: seq<octet>)
    ensures Register(c, data) == Update(c, data)
    decreases |data|
  {
    hide Eight, TableEntry, Low, High, Xor, Wide;
    if data != [] {
      var n := |data| - 1;
      RegisterIsUpdate(c, data[..n]);
      EightIsLookup(Xor(Register(c, data[..n]), Wide(data[n])));
      HighOfByte(Register(c, data[..n]), data[n]);
    }
  }

  /** The patcher's checksum is the one of RFC 1952. */
  lemma CrcIsRfc(data: seq<octet>)
    ensures Crc32(data) == RfcCrc(data)
  {
    hide Register, Update, Xor;
    RegisterIsUpdate(0xFFFF_FFFF, data);
  }

  // ---------------------------------------------------------------- linearity

  function XorOctet(a: octet, b: octet): octet {
    a ^ b
  }

  function XorSeq(a: seq<octet>, b: seq<octet>): (r: seq<octet>)
    requires |a| == |b|
    ensures |r| == |a|
  {
    seq(|a|, i requires 0 <= i < |a| => XorOctet(a[i], b[i]))
  }

  lemma WideLinear(a: octet, b: octet)
    ensures Wide(XorOctet(a, b)) == Xor(Wide(a), Wide(b))
  {
  }

  lemma {:induction false} RegisterLinear(s: bv32, t: bv32, a: seq<octet>, b: seq<octet>)
    requires |a| == |b|
    ensures Register(Xor(s, t), XorSeq(a, b)) == Xor(Register(s, a), Register(t, b))
    decreases |a|
  {
    hide Eight, Xor, Wide, XorOctet;
    if a != [] {
      var n := |a| - 1;
      RegisterLinear(s, t, a[..n], b[..n]);
      assert XorSeq(a, b)[..n] == XorSeq(a[..n], b[..n]);
      var x, y := Register(s, a[..n]), Register(t, b[..n]);
      WideLinear(a[n], b[n]);
      XorLaws(x, y, Wide(a[n]), Wide(b[n]));
      EightLinear(Xor(x, Wide(a[n])), Xor(y, Wide(b[n])));
    }
  }

  lemma OnesCancel()
    ensures Xor(Xor(0xFFFF_FFFF, 0xFFFF_FFFF), 0xFFFF_FFFF) == 0xFFFF_FFFF
  {
  }

  /** The checksum is affine: that of the sum of three messages of one length is the sum of theirs. */
  lemma CrcAffine(a: seq<octet>, b: seq<octet>, c: seq<octet>)
    requires |a| == |b| == |c|
    ensures Crc32(XorSeq(XorSeq(a, b), c)) == Xor(Xor(Crc32(a), Crc32(b)), Crc32(c))
  {
    hide Register, Xor, XorSeq;
    var one: bv32 := 0xFFFF_FFFF;
    RegisterLinear(one, one, a, b);
    RegisterLinear(Xor(one, one), one, XorSeq(a, b), c);
    OnesCancel();
    var x, y, z := Register(one, a), Register(one, b), Register(one, c);
    XorLaws(x, one, y, one);
    XorLaws(Xor(x, y), Xor(one, one), z, one);
  }

  // ---------------------------------------------------------------- changes that are always noticed

  /** The same bytes never bring two registers together. */
  lemma {:induction false} RegisterInjective(s: bv32, t: bv32, data: seq<octet>)
    requires Register(s, data) == Register(t, data)
    ensures s == t
    decreases |data|
  {
    hide Eight, Xor, Wide;
    if data != [] {
      var n := |data| - 1;
      var x, y := Register(s, data[..n]), Register(t, data[..n]);
      EightInjective(Xor(x, Wide(data[n])), Xor(y, Wide(data[n])));
      XorCancels(x, y, Wide(data[n]));
      RegisterInjective(s, t, data[..n]);
    }
  }

  lemma {:induction false} RegisterAppend(s: bv32, a: seq<octet>, b: seq<octet>)
    ensures Register(s, a + b) == Register(Register(s, a), b)
    decreases |b|
  {
    hide Eight, Xor, Wide;
    if b == [] {
      assert a + b == a;
    } else {
      var n := |b| - 1;
      assert (a + b)[..|a| + n] == a + b[..n];
      RegisterAppend(s, a, b[..n]);
    }
  }

  /** One byte up. */
  function Up(c: bv32): bv32 {
    c << 8
  }

  predicate Fits24(c: bv32) {
    c & 0xFF00_0000 == 0
  }

  lemma UpAndDown(c: bv32)
    ensures Up(c) & 0xFF == 0
    ensures Fits24(c) ==> Up(c) >> 8 == c
  {
  }

  lemma ComesDown(c: bv32)
    requires Fits24(c)
    ensures Eight(Up(c)) == c
  {
    hide Eight, Up, Fits24;
    UpAndDown(c);
    EightShift(Up(c));
  }

  /** What is added after eight steps might as well have been added before, one byte higher. */
  lemma AddedEarlier(s: bv32, v: bv32)
    requires Fits24(v)
    ensures Xor(Eight(s), v) == Eight(Xor(s, Up(v)))
  {
    hide Eight, Xor, Up, Fits24;
    ComesDown(v);
    EightLinear(s, Up(v));
  }

  /** A word of one to four bytes, the first byte lowest. */
  function Word(data: seq<octet>): bv32 {
    if data == [] then 0 else Xor(Wide(data[0]), Up(Word(data[1..])))
  }

  function Times8(s: bv32, n: nat): bv32
    decreases n
  {
    if n == 0 then s else Times8(Eight(s), n - 1)
  }

  predicate Fits16(c: bv32) {
    c & 0xFFFF_0000 == 0
  }

  predicate Fits8(c: bv32) {
    c & 0xFFFF_FF00 == 0
  }

  lemma Fits8In16(c: bv32)
    requires Fits8(c)
    ensures Fits16(c)
  {
  }

  lemma Fits16In24(c: bv32)
    requires Fits16(c)
    ensures Fits24(c)
  {
  }

  lemma WidthOrder(c: bv32)
    ensures (Fits8(c) ==> Fits16(c)) && (Fits16(c) ==> Fits24(c)) && Fits8(0)
  {
    hide Fits16, Fits24;
    assert Fits8(0);
    hide Fits8;
    if Fits8(c) {
      Fits8In16(c);
    }
    if Fits16(c) {
      Fits16In24(c);
    }
  }

  lemma Width24(b: octet, c: bv32)
    requires Fits16(c)
    ensures Fits24(Xor(Wide(b), Up(c)))
  {
  }

  lemma Width16(b: octet, c: bv32)
    requires Fits8(c)
    ensures Fits16(Xor(Wide(b), Up(c)))
  {
  }

  lemma Width8(b: octet)
    ensures Fits8(Xor(Wide(b), Up(0)))
  {
  }

  lemma WordWidths(data: seq<octet>)
    ensures |data| <= 3 ==> Fits24(Word(data))
    ensures |data| <= 2 ==> Fits16(Word(data))
    ensures |data| <= 1 ==> Fits8(Word(data))
    ensures data == [] ==> Word(data) == 0
  {
    hide Xor, Wide, Up, Fits8, Fits16, Fits24;
    WidthOrder(Word(data));
    if data != [] && |data| <= 3 {
      var rest := data[1..];
      WordWidths(rest);
      WidthOrder(Word(rest));
      if |data| == 1 {
        Width8(data[0]);
      }
      if |data| <= 2 {
        Width16(data[0], Word(rest));
      }
      Width24(data[0], Word(rest));
    }
  }

  lemma ZeroXor(s: bv32)
    ensures Xor(s, 0) == s
  {
  }

  /** Up to four bytes are as many steps on the register with the word added to it. */
  lemma {:induction false} RegisterOfWord(s: bv32, data: seq<octet>)
    requires |data| <= 4
    ensures Register(s, data) == Times8(Xor(s, Word(data)), |data|)
    decreases |data|
  {
    hide Eight, Xor, Wide, Up, Fits24;
    if data == [] {
      ZeroXor(s);
    } else {
      var first, rest := data[0], data[1..];
      RegisterFirst(s, data);
      var t := Eight(Xor(s, Wide(first)));
      RegisterOfWord(t, rest);
      WordWidths(rest);
      AddedEarlier(Xor(s, Wide(first)), Word(rest));
      XorRegroups(s, Wide(first), Up(Word(rest)));
    }
  }

  lemma RegisterFirst(s: bv32, data: seq<octet>)
    requires data != []
    ensures Register(s, data) == Register(Eight(Xor(s, Wide(data[0]))), data[1..])
  {
    hide Eight, Xor, Wide;
    assert data == [data[0]] + data[1..];
    RegisterAppend(s, [data[0]], data[1..]);
    assert [data[0]][..0] == [];
    assert Register(s, [data[0]][..0]) == s;
  }

  lemma {:induction false} Times8Injective(s: bv32, t: bv32, n: nat)
    requires Times8(s, n) == Times8(t, n)
    ensures s == t
    decreases n
  {
    hide Eight;
    if n > 0 {
      Times8Injective(Eight(s), Eight(t), n - 1);
      EightInjective(s, t);
    }
  }

  lemma JoinInjective(a: octet, x: bv32, b: octet, y: bv32)
    requires Xor(Wide(a), Up(x)) == Xor(Wide(b), Up(y)) && Fits24(x) && Fits24(y)
    ensures a == b && x == y
  {
  }

  lemma {:induction false} WordInjective(a: seq<octet>, b: seq<octet>)
    requires |a| == |b| <= 4 && Word(a) == Word(b)
    ensures a == b
    decreases |a|
  {
    hide Xor, Wide, Up, Fits24;
    if a != [] {
      WordWidths(a[1..]);
      WordWidths(b[1..]);
      JoinInjective(a[0], Word(a[1..]), b[0], Word(b[1..]));
      WordInjective(a[1..], b[1..]);
      assert a == [a[0]] + a[1..] && b == [b[0]] + b[1..];
    }
  }

  /** Two different bursts of up to four bytes never have the same effect. */
  lemma BurstsDiffer(s: bv32, a: seq<octet>, b: seq<octet>)
    requires |a| == |b| <= 4 && Register(s, a) == Register(s, b)
    ensures a == b
  {
    hide Register, Times8, Xor, Word;
    RegisterOfWord(s, a);
    RegisterOfWord(s, b);
    Times8Injective(Xor(s, Word(a)), Xor(s, Word(b)), |a|);
    XorSwaps(s, Word(a));
    XorSwaps(s, Word(b));
    XorCancels(Word(a), Word(b), s);
    WordInjective(a, b);
  }

  /** A change of any message within four bytes in a row always changes the checksum. */
  lemma CrcNotices(before: seq<octet>, a: seq<octet>, b: seq<octet>, after: seq<octet>)
    requires |a| == |b| <= 4 && a != b
    ensures Crc32(before + a + after) != Crc32(before + b + after)
  {
    hide Register, Xor;
    if Crc32(before + a + after) == Crc32(before + b + after) {
      var one: bv32 := 0xFFFF_FFFF;
      XorCancels(Register(one, before + a + after), Register(one, before + b + after), one);
      RegisterAppend(one, before + a, after);
      RegisterAppend(one, before + b, after);
      RegisterInjective(Register(one, before + a), Register(one, before + b), after);
      RegisterAppend(one, before, a);
      RegisterAppend(one, before, b);
      BurstsDiffer(Register(one, before), a, b);
    }
  }
}
