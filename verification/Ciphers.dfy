/**
 The three ciphers of the game clients, one word at a time, for any key state.

 The PC and GameCube ciphers add a key stream to the data; the stream comes from a table that is
 mixed again when it runs out.  The Blue Burst cipher is a four-round Feistel network over tables that
 stay as they are.  All three are instances of the wire that the readers assume.
 */
module Ciphers {
  import opened Bytes
  import opened PacketStream
  import opened ReadersAgree

  // ---------------------------------------------------------------- words

  /** The little-endian word at the start of `b`. */
  function Word(b: seq<octet>): bv32
    requires |b| >= 4
  {
    Join(b[0], b[1], b[2], b[3])
  }

  function Octets(x: bv32): (b: seq<octet>)
    ensures |b| == 4
  {
    [(x & 0xFF) as octet, ((x >> 8) & 0xFF) as octet, ((x >> 16) & 0xFF) as octet, ((x >> 24) & 0xFF) as octet]
  }

  function Join(b0: octet, b1: octet, b2: octet, b3: octet): bv32 {
    (b0 as bv32) | ((b1 as bv32) << 8) | ((b2 as bv32) << 16) | ((b3 as bv32) << 24)
  }

  lemma JoinParts(b0: octet, b1: octet, b2: octet, b3: octet)
    ensures (Join(b0, b1, b2, b3) & 0xFF) as octet == b0
    ensures ((Join(b0, b1, b2, b3) >> 8) & 0xFF) as octet == b1
    ensures ((Join(b0, b1, b2, b3) >> 16) & 0xFF) as octet == b2
    ensures ((Join(b0, b1, b2, b3) >> 24) & 0xFF) as octet == b3
  {
  }

  lemma OctetsOfWord(b: seq<octet>)
    requires |b| == 4
    ensures Octets(Word(b)) == b
  {
    JoinParts(b[0], b[1], b[2], b[3]);
  }

  lemma WordOfOctets(x: bv32)
    ensures Word(Octets(x)) == x
  {
  }

  // ---------------------------------------------------------------- the PC cipher

  type PcTable = t: seq<bv32> | |t| == 57 witness seq(57, _ => 0)

  /** The table and the position of the next key in it; 56 when the table is used up. */
  datatype PcKeys = PcKeys(keys: PcTable, posn: nat)

  type PcState = s: PcKeys | 1 <= s.posn <= 56 witness PcKeys(seq(57, _ => 0), 56)

  function Minus(x: bv32, y: bv32): bv32 {
    x - y
  }

  /** Mixes the table in place, from entry `i` on: each entry loses the entry 31 above it, or, in the
      second part, the already mixed entry 24 below it. */
  function PcMixFrom(keys: PcTable, i: nat): PcTable
    requires 1 <= i <= 56
    decreases |keys| - i
  {
    if i == 56 then keys
    else PcMixFrom(keys[i := Minus(keys[i], keys[if i <= 24 then i + 31 else i - 24])], i + 1)
  }

  /** A mixed entry: an old one less the old one 31 above, or less the new one 24 below; the first and
      the last entry stay. */
  predicate PcMixed(keys: PcTable, r: PcTable, i: nat, j: nat)
    requires j < 57
  {
    if j < i || j == 56 then r[j] == keys[j]
    else if j <= 24 then r[j] == Minus(keys[j], keys[j + 31])
    else r[j] == Minus(keys[j], r[j - 24])
  }

  lemma {:induction false} PcMixes(keys: PcTable, i: nat)
    requires 1 <= i <= 56
    ensures forall j :: 0 <= j < 57 ==> PcMixed(keys, PcMixFrom(keys, i), i, j)
    decreases |keys| - i
  {
    hide Minus;
    if i < 56 {
      var next := keys[i := Minus(keys[i], keys[if i <= 24 then i + 31 else i - 24])];
      var r := PcMixFrom(keys, i);
      assert r == PcMixFrom(next, i + 1);
      PcMixes(next, i + 1);
      assert PcMixed(next, r, i + 1, i);
      forall j | 0 <= j < 57
        ensures PcMixed(keys, r, i, j)
      {
        assert PcMixed(next, r, i + 1, j);
        if j > 24 {
          assert PcMixed(next, r, i + 1, j - 24);
        }
      }
    }
  }

  function PcNextKey(s: PcState): (PcState, bv32) {
    var t := if s.posn == 56 then PcKeys(PcMixFrom(s.keys, 1), 1) else s;
    (PcKeys(t.keys, t.posn + 1), t.keys[t.posn])
  }

  function PcAfter(s: PcState, n: nat): PcState {
    if n == 0 then s else PcNextKey(PcAfter(s, n - 1)).0
  }

  /** The keys come from the table in order, and then from the mixed table, from its entry 1 on. */
  lemma {:induction false} PcKeysInOrder(s: PcState, n: nat)
    requires s.posn + n <= 56
    ensures PcAfter(s, n) == PcKeys(s.keys, s.posn + n)
    ensures PcNextKey(PcAfter(s, n)).1 == if s.posn + n < 56 then s.keys[s.posn + n] else PcMixFrom(s.keys, 1)[1]
    ensures s.posn + n == 56 ==> PcAfter(s, n + 1) == PcKeys(PcMixFrom(s.keys, 1), 2)
    decreases n
  {
    hide PcMixFrom;
    if n > 0 {
      PcKeysInOrder(s, n - 1);
    }
  }

  // ---------------------------------------------------------------- the GameCube cipher

  type GcTable = t: seq<bv32> | |t| == 521 witness seq(521, _ => 0)

  datatype GcKeys = GcKeys(keys: GcTable, ptr: nat)

  type GcState = s: GcKeys | s.ptr < 521 witness GcKeys(seq(521, _ => 0), 520)

  /** Mixes the table in place: the first 32 entries with the last 32, the others with the already
      mixed entries 32 below them. */
  function GcMixFrom(keys: GcTable, i: nat): GcTable
    requires i <= 521
    decreases |keys| - i
  {
    if i == 521 then keys
    else GcMixFrom(keys[i := Xor(keys[i], keys[if i < 32 then i + 489 else i - 32])], i + 1)
  }

  predicate GcMixed(keys: GcTable, r: GcTable, i: nat, j: nat)
    requires j < 521
  {
    if j < i then r[j] == keys[j]
    else if j < 32 then r[j] == Xor(keys[j], keys[j + 489])
    else r[j] == Xor(keys[j], r[j - 32])
  }

  lemma {:induction false} GcMixes(keys: GcTable, i: nat)
    requires i <= 521
    ensures forall j :: 0 <= j < 521 ==> GcMixed(keys, GcMixFrom(keys, i), i, j)
    decreases |keys| - i
  {
    hide Xor;
    if i < 521 {
      var next := keys[i := Xor(keys[i], keys[if i < 32 then i + 489 else i - 32])];
      var r := GcMixFrom(keys, i);
      assert r == GcMixFrom(next, i + 1);
      GcMixes(next, i + 1);
      assert GcMixed(next, r, i + 1, i);
      forall j | 0 <= j < 521
        ensures GcMixed(keys, r, i, j)
      {
        assert GcMixed(next, r, i + 1, j);
        if j >= 32 {
          assert GcMixed(next, r, i + 1, j - 32);
        }
      }
    }
  }

  function GcNextKey(s: GcState): (GcState, bv32) {
    var t := if s.ptr + 1 == 521 then GcKeys(GcMixFrom(s.keys, 0), 0) else GcKeys(s.keys, s.ptr + 1);
    (t, t.keys[t.ptr])
  }

  function GcAfter(s: GcState, n: nat): GcState {
    if n == 0 then s else GcNextKey(GcAfter(s, n - 1)).0
  }

  /** The keys come from the table in order, and then from the mixed table, from its start on. */
  lemma {:induction false} GcKeysInOrder(s: GcState, n: nat)
    requires s.ptr + n <= 520
    ensures GcAfter(s, n) == GcKeys(s.keys, s.ptr + n)
    ensures GcNextKey(GcAfter(s, n)).1 == if s.ptr + n < 520 then s.keys[s.ptr + n + 1] else GcMixFrom(s.keys, 0)[0]
    ensures s.ptr + n == 520 ==> GcAfter(s, n + 1) == GcKeys(GcMixFrom(s.keys, 0), 0)
    decreases n
  {
    hide GcMixFrom;
    if n > 0 {
      GcKeysInOrder(s, n - 1);
    }
  }

  // ---------------------------------------------------------------- both, with any source of keys

  /** One word of data under one word of the key stream. */
  function MaskWord(word: seq<octet>, key: bv32): seq<octet> {
    if |word| != 4 then word else Octets(Xor(Word(word), key))
  }

  lemma UnmaskWord(word: seq<octet>, key: bv32)
    requires |word| == 4
    ensures Octets(Xor(Word(Octets(Xor(Word(word), key))), key)) == word
  {
    hide Octets, Word, Xor;
    WordOfOctets(Xor(Word(word), key));
    XorMask(Word(word), key);
    OctetsOfWord(word);
  }

  lemma MaskTwice(word: seq<octet>, key: bv32)
    requires |word| == 4
    ensures |MaskWord(word, key)| == 4 && MaskWord(MaskWord(word, key), key) == word
  {
    hide Octets, Word, Xor;
    UnmaskWord(word, key);
  }

  function XorOctet(a: octet, b: octet): octet {
    a ^ b
  }

  /** Byte `i` of a word, the lowest first. */
  function KeyByte(key: bv32, i: nat): octet
    requires i < 4
  {
    if i == 0 then Byte0(key) else if i == 1 then Byte1(key) else if i == 2 then Byte2(key) else Byte3(key)
  }

  function Byte0(x: bv32): octet {
    (x & 0xFF) as octet
  }

  function Byte1(x: bv32): octet {
    ((x >> 8) & 0xFF) as octet
  }

  function Byte2(x: bv32): octet {
    ((x >> 16) & 0xFF) as octet
  }

  function Byte3(x: bv32): octet {
    ((x >> 24) & 0xFF) as octet
  }

  /** Each byte of the data meets its byte of the key. */
  lemma MaskBytes(word: seq<octet>, key: bv32, i: nat)
    requires |word| == 4 && i < 4
    ensures MaskWord(word, key)[i] == XorOctet(word[i], KeyByte(key, i))
  {
    hide Octets, Join, XorOctet, KeyByte, Xor;
    var x := Join(word[0], word[1], word[2], word[3]);
    JoinedByte(word[0], word[1], word[2], word[3]);
    OctetsAre(Xor(x, key));
    KeyXor(x, key, i);
  }

  lemma JoinedByte(b0: octet, b1: octet, b2: octet, b3: octet)
    ensures var x := Join(b0, b1, b2, b3);
      KeyByte(x, 0) == b0 && KeyByte(x, 1) == b1 && KeyByte(x, 2) == b2 && KeyByte(x, 3) == b3
  {
    hide Join;
    JoinParts(b0, b1, b2, b3);
  }

  lemma OctetsAre(x: bv32)
    ensures Octets(x) == [KeyByte(x, 0), KeyByte(x, 1), KeyByte(x, 2), KeyByte(x, 3)]
  {
  }

  lemma KeyXor(x: bv32, key: bv32, i: nat)
    requires i < 4
    ensures KeyByte(Xor(x, key), i) == XorOctet(KeyByte(x, i), KeyByte(key, i))
  {
    hide Byte0, Byte1, Byte2, Byte3, Xor, XorOctet;
    ByteXor0(x, key);
    ByteXor1(x, key);
    ByteXor2(x, key);
    ByteXor3(x, key);
  }

  lemma ByteXor0(x: bv32, key: bv32)
    ensures Byte0(Xor(x, key)) == XorOctet(Byte0(x), Byte0(key))
  {
  }

  lemma ByteXor1(x: bv32, key: bv32)
    ensures Byte1(Xor(x, key)) == XorOctet(Byte1(x), Byte1(key))
  {
  }

  lemma ByteXor2(x: bv32, key: bv32)
    ensures Byte2(Xor(x, key)) == XorOctet(Byte2(x), Byte2(key))
  {
  }

  lemma ByteXor3(x: bv32, key: bv32)
    ensures Byte3(Xor(x, key)) == XorOctet(Byte3(x), Byte3(key))
  {
  }

  ghost predicate Masks<M(!new)>(mask: (seq<octet>, M) -> seq<octet>, word: seq<octet>, key: M) {
    |mask(word, key)| == 4 && mask(mask(word, key), key) == word
  }

  /** Both the encryption and the decryption of a stream cipher. */
  function StreamCipher<K, M>(next: K -> (K, M), mask: (seq<octet>, M) -> seq<octet>): (K, seq<octet>) -> (K, seq<octet>) {
    (s, word) => (next(s).0, mask(word, next(s).1))
  }

  // ---------------------------------------------------------------- the Blue Burst cipher

  type BbTable = t: seq<bv32> | |t| == 1042 witness seq(1042, _ => 0)

  function Byte4(x: bv32, shift: nat): (n: nat)
    requires shift <= 24
    ensures n < 256
  {
    ((x >> shift) & 0xFF) as nat
  }

  /** The round function: four table lookups. */
  function F(k: BbTable, x: bv32): bv32 {
    ((k[Byte4(x, 24) + 0x12] + k[Byte4(x, 16) + 0x112]) ^ k[Byte4(x, 8) + 0x212]) + k[Byte4(x, 0) + 0x312]
  }

  /** The four rounds and the final keys, for any exclusive-or and any round function. */
  function EncryptPair<T>(xor: (T, T) -> T, f: T -> T, k: seq<T>, left: T, right: T): (T, T)
    requires |k| >= 6
  {
    var b0 := xor(left, k[0]);
    var p0 := xor(xor(f(b0), k[1]), right);
    var b1 := xor(b0, xor(f(p0), k[2]));
    var p1 := xor(xor(p0, f(b1)), k[3]);
    (xor(p1, k[5]), xor(b1, xor(f(p1), k[4])))
  }

  function DecryptPair<T>(xor: (T, T) -> T, f: T -> T, k: seq<T>, left: T, right: T): (T, T)
    requires |k| >= 6
  {
    var b0 := xor(left, k[5]);
    var p0 := xor(xor(f(b0), k[4]), right);
    var b1 := xor(b0, xor(f(p0), k[3]));
    var p1 := xor(xor(p0, f(b1)), k[2]);
    (xor(p1, k[0]), xor(b1, xor(f(p1), k[1])))
  }

  /** A mask is its own inverse, on either side and however it is made of two. */
  ghost predicate Unmask<T(!new)>(xor: (T, T) -> T, x: T, a: T, b: T) {
    && xor(xor(x, a), a) == x
    && xor(xor(a, b), xor(x, xor(a, b))) == x
    && xor(xor(xor(x, a), b), xor(a, b)) == x
    && xor(xor(xor(x, xor(a, b)), a), b) == x
    && xor(xor(xor(a, b), x), xor(a, b)) == x
  }

  ghost predicate Unmasks<T(!new)>(xor: (T, T) -> T) {
    forall x: T, a: T, b: T :: Unmask(xor, x, a, b)
  }

  /** Decryption runs the rounds backwards, whatever the round function is. */
  lemma PairInverse<T(!new)>(xor: (T, T) -> T, f: T -> T, k: seq<T>, left: T, right: T)
    requires |k| >= 6 && Unmasks(xor)
    ensures var (l, r) := EncryptPair(xor, f, k, left, right); DecryptPair(xor, f, k, l, r) == (left, right)
  {
    var b0 := xor(left, k[0]);
    var p0 := xor(xor(f(b0), k[1]), right);
    var b1 := xor(b0, xor(f(p0), k[2]));
    var p1 := xor(xor(p0, f(b1)), k[3]);
    assert Unmask(xor, p1, k[5], k[5]);
    assert Unmask(xor, b1, f(p1), k[4]);
    assert Unmask(xor, p0, f(b1), k[3]);
    assert Unmask(xor, b0, f(p0), k[2]);
    assert Unmask(xor, left, k[0], k[0]);
    assert Unmask(xor, right, f(b0), k[1]);
  }

  function Xor(x: bv32, y: bv32): bv32 {
    x ^ y
  }

  lemma XorMask(x: bv32, a: bv32)
    ensures Xor(Xor(x, a), a) == x
  {
  }

  lemma XorMaskLeft(x: bv32, a: bv32)
    ensures Xor(a, Xor(x, a)) == x && Xor(Xor(a, x), a) == x
  {
  }

  lemma XorTwoMasks(x: bv32, a: bv32, b: bv32)
    ensures Xor(Xor(x, a), b) == Xor(x, Xor(a, b))
  {
  }

  lemma XorUnmask(x: bv32, a: bv32, b: bv32)
    ensures Unmask(Xor, x, a, b)
  {
    XorMask(x, a);
    XorMask(x, Xor(a, b));
    XorMaskLeft(x, Xor(a, b));
    XorTwoMasks(x, a, b);
    XorTwoMasks(Xor(x, Xor(a, b)), a, b);
  }

  lemma XorUnmasks()
    ensures Unmasks(Xor)
  {
    forall x: bv32, a: bv32, b: bv32
      ensures Unmask(Xor, x, a, b)
    {
      XorUnmask(x, a, b);
    }
  }

  function BbEncrypt(k: BbTable, word: seq<octet>): (BbTable, seq<octet>) {
    if |word| != 8 then (k, word)
    else
      var (l, r) := EncryptPair(Xor, x => F(k, x), k, Word(word[..4]), Word(word[4..]));
      (k, Octets(l) + Octets(r))
  }

  function BbDecrypt(k: BbTable, word: seq<octet>): (BbTable, seq<octet>) {
    if |word| != 8 then (k, word)
    else
      var (l, r) := DecryptPair(Xor, x => F(k, x), k, Word(word[..4]), Word(word[4..]));
      (k, Octets(l) + Octets(r))
  }

  lemma BbInverse(k: BbTable, word: seq<octet>)
    requires |word| == 8
    ensures BbDecrypt(k, BbEncrypt(k, word).1) == (k, word)
  {
    hide Word, Octets, EncryptPair, DecryptPair, Unmasks, F;
    var left, right := Word(word[..4]), Word(word[4..]);
    var f := x => F(k, x);
    var (l, r) := EncryptPair(Xor, f, k, left, right);
    var e := Octets(l) + Octets(r);
    assert e[..4] == Octets(l) && e[4..] == Octets(r);
    WordOfOctets(l);
    WordOfOctets(r);
    XorUnmasks();
    PairInverse(Xor, f, k, left, right);
    OctetsOfWord(word[..4]);
    OctetsOfWord(word[4..]);
    assert word[..4] + word[4..] == word;
  }

  // ---------------------------------------------------------------- the wires of the client versions

  datatype Version = DcV1 | DcV2 | Pc | Gc | Ep3 | Bb

  /** The packet length in the header: behind type and flags for the consoles, in front for PC and BB. */
  function Declared(v: Version, h: seq<octet>): nat {
    var at := if v.Pc? || v.Bb? then 0 else 2;
    if |h| < 4 then 0 else (h[at] as nat) + 0x100 * (h[at + 1] as nat)
  }

  function StreamWire<K, M>(v: Version, low: nat, next: K -> (K, M), mask: (seq<octet>, M) -> seq<octet>, handle: seq<octet> -> int): Wire<K> {
    Wire(4, StreamCipher(next, mask), h => Declared(v, h), handle, low)
  }

  function BbWire(low: nat, handle: seq<octet> -> int): Wire<BbTable> {
    Wire(8, BbDecrypt, h => Declared(Bb, h), handle, low)
  }

  /** A stream cipher meets the wire's law with the same operation on both sides. */
  lemma StreamFits<K(!new), M(!new)>(v: Version, low: nat, next: K -> (K, M), mask: (seq<octet>, M) -> seq<octet>, handle: seq<octet> -> int)
    requires 0 < low <= 4 && forall word: seq<octet>, key: M :: |word| == 4 ==> Masks(mask, word, key)
    ensures ValidWire(StreamWire(v, low, next, mask, handle))
    ensures Inverse(StreamWire(v, low, next, mask, handle), StreamCipher(next, mask))
  {
    var w, enc := StreamWire(v, low, next, mask, handle), StreamCipher(next, mask);
    forall s: K, word: seq<octet> | |word| == 4
      ensures |w.dec(s, word).1| == 4 && Inverts(w, enc, s, word)
    {
      assert Masks(mask, word, next(s).1);
    }
  }

  /** The clients of the PC and GameCube versions: what the server sends is what they read, and the
      other way round. */
  lemma StreamSession<K(!new)>(v: Version, low: nat, next: K -> (K, bv32), handle: seq<octet> -> int, key: K, ps: seq<seq<octet>>)
    requires 0 < low <= 4 && forall i :: 0 <= i < |ps| ==> WellFormed(StreamWire(v, low, next, MaskWord, handle), ps[i])
    ensures
      var w := StreamWire(v, low, next, MaskWord, handle);
      var stream := Encrypt(w, StreamCipher(next, MaskWord), key, Flatten(ps)).1;
      Sane(w, Rx(key, None, stream)) && Run(w, Rx(key, None, stream)).packets == ps
  {
    forall word: seq<octet>, k: bv32 | |word| == 4
      ensures Masks(MaskWord, word, k)
    {
      MaskTwice(word, k);
    }
    StreamFits(v, low, next, MaskWord, handle);
    SentIsDelivered(StreamWire(v, low, next, MaskWord, handle), StreamCipher(next, MaskWord), key, ps);
  }

  // ---------------------------------------------------------------- packets as their headers say

  lemma NextOctet(b: octet)
    requires b as nat < 255
    ensures (b + 1) as nat == b as nat + 1
  {
  }

  /** The byte with the value `n`. */
  function OctetOf(n: nat): (b: octet)
    requires n < 256
    ensures b as nat == n
  {
    if n == 0 then 0 else NextOctet(OctetOf(n - 1)); OctetOf(n - 1) + 1
  }

  function Le16(n: nat): (b: seq<octet>)
    requires n < 0x10000
    ensures |b| == 2 && b[0] as nat == n % 256 && b[1] as nat == n / 256
  {
    [OctetOf(n % 256), OctetOf(n / 256)]
  }

  /** Type and flags, as they lie in a header: a byte each, or two bytes and four for Blue Burst. */
  predicate Fields(v: Version, kind: seq<octet>, flags: seq<octet>) {
    if v.Bb? then |kind| == 2 && |flags| == 4 else |kind| == 1 && |flags| == 1
  }

  /** The three headers. */
  function HeaderFor(v: Version, kind: seq<octet>, flags: seq<octet>, len: nat): (h: seq<octet>)
    requires Fields(v, kind, flags) && len < 0x10000
    ensures |h| == if v.Bb? then 8 else 4
  {
    match v
    case Bb => Le16(len) + kind + flags
    case Pc => Le16(len) + kind + flags
    case _ => kind + flags + Le16(len)
  }

  /** The length is read where the header has it. */
  lemma DeclaredIs(v: Version, kind: seq<octet>, flags: seq<octet>, len: nat)
    requires Fields(v, kind, flags) && len < 0x10000
    ensures Declared(v, HeaderFor(v, kind, flags, len)) == len
  {
    var h, b := HeaderFor(v, kind, flags, len), Le16(len);
    hide Le16;
    if v.Pc? || v.Bb? {
      assert h[0] == b[0] && h[1] == b[1];
    } else {
      assert h[2] == b[0] && h[3] == b[1];
    }
  }

  /** A packet that starts with a header declaring `len` bytes, and is padded to whole words of `hs`. */
  ghost predicate Declares(v: Version, hs: nat, p: seq<octet>, kind: seq<octet>, flags: seq<octet>, len: nat)
    requires hs > 0
  {
    && Fields(v, kind, flags) && len < 0x10000 && HeaderFor(v, kind, flags, len) <= p
    && len <= |p| < len + hs && Whole(hs, |p|)
  }

  /** A packet as the senders form it, with at least `low` bytes declared; the handler takes it. */
  ghost predicate Formed(v: Version, hs: nat, low: nat, handle: seq<octet> -> int, p: seq<octet>)
    requires hs > 0
  {
    && handle(p) == 0
    && exists kind: seq<octet>, flags: seq<octet>, len: nat :: Declares(v, hs, p, kind, flags, len) && low <= len <= 0x10000 - hs
  }

  lemma Closer(hs: nat, qa: nat, qb: nat)
    requires (hs == 4 || hs == 8) && hs * qa < hs * qb + hs && hs * qb < hs * qa + hs
    ensures qa == qb
  {
  }

  /** Padding to whole words is unique. */
  lemma OnePadding(hs: nat, len: nat, a: nat, b: nat)
    requires (hs == 4 || hs == 8) && Whole(hs, a) && Whole(hs, b)
    requires len <= a < len + hs && len <= b < len + hs
    ensures a == b
  {
    var qa, qb := a / hs, b / hs;
    if hs == 4 {
      assert a == 4 * qa && b == 4 * qb;
      Closer(4, qa, qb);
    } else {
      assert a == 8 * qa && b == 8 * qb;
      Closer(8, qa, qb);
    }
  }

  lemma FormedIsWellFormed<K>(v: Version, w: Wire<K>, p: seq<octet>)
    requires (w.hs == if v.Bb? then 8 else 4) && w.low > 0
    requires forall h: seq<octet> :: w.declared(h) == Declared(v, h)
    requires Formed(v, w.hs, w.low, w.handle, p)
    ensures WellFormed(w, p)
  {
    hide Declared, HeaderFor, Rounded, Whole;
    var kind: seq<octet>, flags: seq<octet>, len: nat :| Declares(v, w.hs, p, kind, flags, len) && w.low <= len <= 0x10000 - w.hs;
    DeclaredIs(v, kind, flags, len);
    assert p[..w.hs] == HeaderFor(v, kind, flags, len);
    RoundedFits(w.hs, len);
    OnePadding(w.hs, len, |p|, Rounded(w.hs, len));
  }

  /** With the mixed table of the PC cipher, which the Dreamcast versions use too, from any of its
      states: the packets that were formed for a connection are the packets that are read. */
  lemma PcSession(v: Version, low: nat, handle: seq<octet> -> int, key: PcState, ps: seq<seq<octet>>)
    requires (v.DcV1? || v.DcV2? || v.Pc?) && 0 < low <= 4
    requires forall i :: 0 <= i < |ps| ==> Formed(v, 4, low, handle, ps[i])
    ensures
      var w := StreamWire(v, low, PcNextKey, MaskWord, handle);
      var stream := Encrypt(w, StreamCipher(PcNextKey, MaskWord), key, Flatten(ps)).1;
      Sane(w, Rx(key, None, stream)) && Run(w, Rx(key, None, stream)).packets == ps
  {
    hide Formed, WellFormed, Declared;
    forall i | 0 <= i < |ps|
      ensures WellFormed(StreamWire(v, low, PcNextKey, MaskWord, handle), ps[i])
    {
      FormedIsWellFormed(v, StreamWire(v, low, PcNextKey, MaskWord, handle), ps[i]);
    }
    StreamSession(v, low, PcNextKey, handle, key, ps);
  }

  /** With that of the GameCube cipher, for both of its client versions. */
  lemma GcSession(v: Version, low: nat, handle: seq<octet> -> int, key: GcState, ps: seq<seq<octet>>)
    requires (v.Gc? || v.Ep3?) && 0 < low <= 4
    requires forall i :: 0 <= i < |ps| ==> Formed(v, 4, low, handle, ps[i])
    ensures
      var w := StreamWire(v, low, GcNextKey, MaskWord, handle);
      var stream := Encrypt(w, StreamCipher(GcNextKey, MaskWord), key, Flatten(ps)).1;
      Sane(w, Rx(key, None, stream)) && Run(w, Rx(key, None, stream)).packets == ps
  {
    hide Formed, WellFormed, Declared;
    forall i | 0 <= i < |ps|
      ensures WellFormed(StreamWire(v, low, GcNextKey, MaskWord, handle), ps[i])
    {
      FormedIsWellFormed(v, StreamWire(v, low, GcNextKey, MaskWord, handle), ps[i]);
    }
    StreamSession(v, low, GcNextKey, handle, key, ps);
  }

  lemma BbFits(low: nat, handle: seq<octet> -> int)
    requires 0 < low <= 8
    ensures ValidWire(BbWire(low, handle)) && Inverse(BbWire(low, handle), BbEncrypt)
  {
    forall k: BbTable, word: seq<octet> | |word| == 8
      ensures Inverts(BbWire(low, handle), BbEncrypt, k, word)
    {
      BbInverse(k, word);
    }
  }

  /** And with the tables of Blue Burst. */
  lemma BbSession(low: nat, handle: seq<octet> -> int, k: BbTable, ps: seq<seq<octet>>)
    requires 0 < low <= 8 && forall i :: 0 <= i < |ps| ==> Formed(Bb, 8, low, handle, ps[i])
    ensures
      var stream := Encrypt(BbWire(low, handle), BbEncrypt, k, Flatten(ps)).1;
      Sane(BbWire(low, handle), Rx(k, None, stream)) && Run(BbWire(low, handle), Rx(k, None, stream)).packets == ps
  {
    hide Formed, WellFormed, Declared, BbEncrypt, BbDecrypt;
    forall i | 0 <= i < |ps|
      ensures WellFormed(BbWire(low, handle), ps[i])
    {
      FormedIsWellFormed(Bb, BbWire(low, handle), ps[i]);
    }
    BbFits(low, handle);
    SentIsDelivered(BbWire(low, handle), BbEncrypt, k, ps);
  }
}
