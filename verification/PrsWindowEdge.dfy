/**
 An input that does not survive compression.

 The first 8192 bytes hold every pair of a byte below 64 and a byte from 64 to 127 once, so no two
 bytes in a row repeat and each byte becomes a literal.  Then the first ten bytes come again.  Their
 only match lies exactly 8192 bytes back, and the copy from there is encoded with two zero offset
 bytes: the end marker.
 */
module PrsWindowEdge {
  import opened Bytes
  import opened PrsFormat
  import opened PrsSearch
  import opened PrsEncoder

  function EdgeByte(j: nat): byte {
    var k := j % 8192;
    if k % 2 == 0 then k / 128 else 64 + k / 2 % 64
  }

  function EdgeInput(): (s: seq<byte>)
    ensures |s| == 8202 && forall j :: 0 <= j < |s| ==> s[j] == EdgeByte(j)
  {
    seq(8202, j requires 0 <= j => EdgeByte(j))
  }

  ghost predicate IsEdgeText(text: seq<byte>) {
    |text| == 8203 && text[..8202] == EdgeInput()
  }

  lemma EdgeTextAt(text: seq<byte>, j: nat)
    requires IsEdgeText(text) && j < 8202
    ensures text[j] == EdgeByte(j)
  {
    assert text[j] == text[..8202][j];
  }

  /** The place of a pair of neighbouring bytes. */
  function PairPlace(x: byte, y: byte): int {
    if x < 64 then 128 * x + 2 * (y - 64)
    else if x < 127 then 128 * y + 2 * (x - 64) + 1
    else 128 * ((y + 63) % 64) + 127
  }

  lemma EvenPair(i: nat)
    requires i < 4096
    ensures PairPlace(EdgeByte(2 * i), EdgeByte(2 * i + 1)) == 2 * i
  {
    assert (2 * i) % 8192 == 2 * i && (2 * i + 1) % 8192 == 2 * i + 1;
    assert 2 * i / 128 == i / 64 && (2 * i + 1) / 2 == i;
  }

  lemma OddByte(i: nat)
    requires i < 4096
    ensures EdgeByte(2 * i + 1) == 64 + i % 64
  {
    assert (2 * i + 1) % 8192 == 2 * i + 1 && (2 * i + 1) / 2 == i;
  }

  lemma EvenByte(i: nat)
    requires i < 4096
    ensures EdgeByte(2 * i) == i / 64
  {
    assert (2 * i) % 8192 == 2 * i && (2 * i) / 128 == i / 64;
  }

  lemma WrapsToStart()
    ensures EdgeByte(8192) == EdgeByte(0)
  {
  }

  lemma OddPair(i: nat)
    requires i < 4096
    ensures PairPlace(EdgeByte(2 * i + 1), EdgeByte(2 * i + 2)) == 2 * i + 1
  {
    hide EdgeByte;
    OddByte(i);
    if i == 4095 {
      EvenByte(0);
      WrapsToStart();
    } else {
      EvenByte(i + 1);
      assert (i + 1) / 64 == if i % 64 == 63 then i / 64 + 1 else i / 64;
    }
  }

  lemma PairsDiffer(k: nat)
    requires k < 8192
    ensures PairPlace(EdgeByte(k), EdgeByte(k + 1)) == k
  {
    if k % 2 == 0 {
      EvenPair(k / 2);
    } else {
      OddPair(k / 2);
    }
  }

  /** A match of two bytes or more starts at the same pair. */
  lemma MatchIsSamePlace(text: seq<byte>, q: nat, p: nat)
    requires IsEdgeText(text)
    requires q < p <= 8192 && q < 8192 && MatchLen(text, q, p) >= 2
    ensures p == 8192 && q == 0
  {
    MatchOfTwo(text, q, p);
    EdgeTextAt(text, q);
    EdgeTextAt(text, q + 1);
    EdgeTextAt(text, p);
    EdgeTextAt(text, p + 1);
    PairsDiffer(q);
    if p < 8192 {
      PairsDiffer(p);
    } else {
      PairsDiffer(0);
      assert EdgeByte(8192) == EdgeByte(0) && EdgeByte(8193) == EdgeByte(1);
    }
  }

  lemma LiteralsFirst(text: seq<byte>, p: nat)
    requires IsEdgeText(text) && 2 <= p < 8192
    ensures Choose(text, p) == Literal(text[p])
  {
    var m := Pick(text, p);
    PickIsReal(text, p);
    if m.len >= 2 {
      MatchIsSamePlace(text, m.from, p);
    }
  }

  lemma EdgeCopy(text: seq<byte>)
    requires IsEdgeText(text)
    ensures Choose(text, 8192) == ExtCopy(10, 8192)
  {
    forall i | 0 <= i < 10 ensures text[0..10][i] == text[8192..8202][i] {
      EdgeTextAt(text, i);
      EdgeTextAt(text, 8192 + i);
      assert (8192 + i) % 8192 == i % 8192;
    }
    assert text[0..0 + 10] == text[8192..8192 + 10];
    MatchLenAtLeast(text, 0, 8192, 10);
    BestIsLongest(text, 8192, 0);
    BestIsLongest(text, 8193, 0 + 1);
    var m, lazy := BestMatch(text, 8192), BestMatch(text, 8193);
    assert m.len == 10;
    assert lazy.len <= 9;
    MatchIsSamePlace(text, m.from, 8192);
  }

  lemma EndBehindLiteral(text: seq<byte>, p: nat)
    requires p + 2 < |text| && Choose(text, p).Literal? && HasEnd(Parse(text, p + 1))
    ensures HasEnd(Parse(text, p))
  {
  }

  lemma EndHere(text: seq<byte>, p: nat)
    requires p + 2 < |text| && Choose(text, p).LooksLikeEnd()
    ensures HasEnd(Parse(text, p))
  {
  }

  lemma {:induction false} EdgeTokens(text: seq<byte>, p: nat, edge: nat)
    requires IsEdgeText(text) && 2 <= p <= edge <= 8192 && HasEnd(Parse(text, edge))
    ensures HasEnd(Parse(text, p))
    decreases edge - p
  {
    if p < edge {
      LiteralsFirst(text, p);
      EdgeTokens(text, p + 1, edge);
      EndBehindLiteral(text, p);
    }
  }

  /** Compressing and decompressing it loses its end. */
  lemma WindowEdgeLoses()
    ensures MeetsWindowEdge(EdgeInput())
    ensures Decompress(Compressed(EdgeInput()), None) != Ok(EdgeInput())
  {
    var text := EdgeInput() + [0];
    assert text[..8202] == EdgeInput();
    EdgeCopy(text);
    EndHere(text, 8192);
    EdgeTokens(text, 2, 8192);
    RoundTrip(EdgeInput());
  }

  /** Ten bytes of the input come again exactly 8192 bytes later. */
  ghost predicate RepeatsAtEdge(src: seq<byte>) {
    exists p: nat :: IsEdgeRepeat(src, p)
  }

  ghost predicate IsEdgeRepeat(src: seq<byte>, p: nat) {
    MAX_WINDOW <= p && p + 10 <= |src| && src[p - MAX_WINDOW..p - MAX_WINDOW + 10] == src[p..p + 10]
  }

  lemma EdgeTokenRepeats(text: seq<byte>, p: nat)
    requires p + 2 < |text| && Choose(text, p).LooksLikeEnd()
    ensures IsEdgeRepeat(text[..|text| - 1], p)
  {
    var m := Pick(text, p);
    var src := text[..|text| - 1];
    PickIsReal(text, p);
    MatchLenAgrees(text, m.from, p);
    SlicesAgree(text, m.from, p, m.len, 10);
    assert src[p - MAX_WINDOW..p - MAX_WINDOW + 10] == text[m.from..m.from + 10];
    assert src[p..p + 10] == text[p..p + 10];
  }

  lemma {:induction false} ParseRepeat(text: seq<byte>, p: nat) returns (q: nat)
    requires p < |text| && HasEnd(Parse(text, p))
    ensures IsEdgeRepeat(text[..|text| - 1], q)
    decreases |text| - p
  {
    if Choose(text, p).LooksLikeEnd() {
      EdgeTokenRepeats(text, p);
      q := p;
    } else {
      q := ParseRepeat(text, p + Choose(text, p).Span());
    }
  }

  lemma NoRepeatNoEdge(src: seq<byte>)
    requires src != [] && (|src| < 8202 || !RepeatsAtEdge(src))
    ensures !MeetsWindowEdge(src)
  {
    if |src| <= 3 {
      LiteralsExpand(src, []);
    } else {
      var rest := Parse(src + [0], 2);
      assert (src + [0])[..|src + [0]| - 1] == src;
      if HasEnd(rest) {
        var q := ParseRepeat(src + [0], 2);
        assert false;
      }
      assert !HasEnd(More(Literal(src[1]), rest));
    }
  }

  /** An input in which no ten bytes repeat at a distance of exactly 8192 survives compression; so
      does every input shorter than 8202 bytes, which is the length of `EdgeInput`. */
  lemma NoRepeatSurvives(src: seq<byte>)
    requires src != [] && (|src| < 8202 || !RepeatsAtEdge(src))
    ensures Decompress(Compressed(src), None) == Ok(src)
  {
    NoRepeatNoEdge(src);
    RoundTrip(src);
  }
}
