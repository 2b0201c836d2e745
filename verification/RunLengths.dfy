/** The boot image: a run-length encoder on the build machine and its decoder on the console. */
module RunLengths {

  type Pixel = x: int | 0 <= x < 0x10000

  function Repeat(n: nat, p: Pixel): (r: seq<Pixel>)
    ensures |r| == n
  {
    seq(n, _ => p)
  }

  /** Pairs of a run length and a pixel, as 16-bit words. */
  function Decode(words: seq<Pixel>): seq<Pixel> {
    if |words| < 2 then []
    else Decode(words[..|words| - 2]) + Repeat(words[|words| - 2], words[|words| - 1])
  }

  lemma DecodeMore(words: seq<Pixel>, run: Pixel, p: Pixel)
    requires |words| % 2 == 0
    ensures Decode(words + [run, p]) == Decode(words) + Repeat(run, p)
  {
    assert (words + [run, p])[..|words|] == words;
  }

  lemma {:induction false} DecodeFirst(run: Pixel, p: Pixel, words: seq<Pixel>)
    requires |words| % 2 == 0
    ensures Decode([run, p] + words) == Repeat(run, p) + Decode(words)
    decreases |words|
  {
    if words == [] {
      assert [run, p] + words == [] + [run, p];
      DecodeMore([], run, p);
      assert [] + Repeat(run, p) == Repeat(run, p) + [];
    } else {
      var n := |words| - 2;
      DecodeFirst(run, p, words[..n]);
      assert ([run, p] + words)[..n + 2] == [run, p] + words[..n];
      assert Repeat(run, p) + (Decode(words[..n]) + Repeat(words[n], words[n + 1]))
        == (Repeat(run, p) + Decode(words[..n])) + Repeat(words[n], words[n + 1]);
    }
  }

  /** Every run but the first has a pixel, and is a new one only because the pixel is another or the run
      before is full: so there are as few runs as can be. */
  predicate Tight(words: seq<Pixel>) {
    |words| < 4 ||
    (var n := |words| - 2;
     Tight(words[..n]) && words[n] > 0 && (words[n - 2] == 65535 || words[n - 1] != words[n + 1]))
  }

  lemma TightMore(words: seq<Pixel>, run: Pixel, p: Pixel)
    requires |words| % 2 == 0 && Tight(words)
    requires words != [] ==> run > 0 && (words[|words| - 2] == 65535 || words[|words| - 1] != p)
    ensures Tight(words + [run, p])
  {
    assert (words + [run, p])[..|words|] == words;
  }

  /** What is written and the run at hand stand for the pixels so far. */
  predicate Stands(words: seq<Pixel>, run: Pixel, p: Pixel, done: seq<Pixel>) {
    |words| % 2 == 0 && Decode(words) + Repeat(run, p) == done
  }

  lemma RunGrows(words: seq<Pixel>, run: Pixel, p: Pixel, done: seq<Pixel>)
    requires Stands(words, run, p, done) && run < 65535
    ensures Stands(words, run + 1, p, done + [p])
  {
    assert Repeat(run, p) + [p] == Repeat(run + 1, p);
    assert (Decode(words) + Repeat(run, p)) + [p] == Decode(words) + Repeat(run + 1, p);
  }

  lemma RunEnds(words: seq<Pixel>, run: Pixel, p: Pixel, done: seq<Pixel>)
    requires Stands(words, run, p, done)
    ensures Decode(words + [run, p]) == done && |words + [run, p]| % 2 == 0
  {
    DecodeMore(words, run, p);
  }

  lemma RunStarts(words: seq<Pixel>, p: Pixel, done: seq<Pixel>)
    requires |words| % 2 == 0 && Decode(words) == done
    ensures Stands(words, 1, p, done + [p])
  {
    assert Repeat(1, p) == [p];
  }

  lemma FirstRun(first: Pixel, p: Pixel)
    requires first <= 1
    ensures Stands([], first, p, if first == 1 then [p] else []) && Tight([])
  {
    assert Repeat(first, p) == if first == 1 then [p] else [];
  }

  /** The encoder.  As written it starts with `first == 0`, so the first pixel is not counted; with
      `first == 1` it would be.  No run is longer than a word can say. */
  method Encode(px: seq<Pixel>, first: Pixel) returns (words: seq<Pixel>)
    requires px != [] && first <= 1
    ensures |words| % 2 == 0 && Tight(words)
    ensures Decode(words) == if first == 1 then px else px[1..]
  {
    hide Tight, Stands, Decode, Repeat;
    words := [];
    var i := 1;
    var runlen: Pixel := first;
    var tmp := px[0];
    ghost var from := if first == 1 then 0 else 1;
    FirstRun(first, tmp);
    assert px[from..1] == if first == 1 then [tmp] else [];
    while i < |px|
      invariant 1 <= i <= |px| && |words| % 2 == 0 && Stands(words, runlen, tmp, px[from..i])
      invariant Tight(words) && (words != [] ==> runlen > 0 && (words[|words| - 2] == 65535 || words[|words| - 1] != tmp))
      decreases |px| - i
    {
      assert px[from..i] + [px[i]] == px[from..i + 1];
      if runlen < 65535 && tmp == px[i] {
        RunGrows(words, runlen, tmp, px[from..i]);
        runlen := runlen + 1;
        i := i + 1;
        continue;
      }
      RunEnds(words, runlen, tmp, px[from..i]);
      TightMore(words, runlen, tmp);
      words := words + [runlen, tmp];
      RunStarts(words, px[i], px[from..i]);
      tmp := px[i];
      i := i + 1;
      runlen := 1;
    }
    RunEnds(words, runlen, tmp, px[from..i]);
    TightMore(words, runlen, tmp);
    words := words + [runlen, tmp];
    assert px[from..|px|] == px[from..];
  }

  /** One run of pixels from `at` on. */
  method Fill(vram: array<Pixel>, at: nat, run: Pixel, p: Pixel) returns (o: nat)
    requires at + run <= vram.Length
    modifies vram
    ensures o == at + run && vram[..o] == old(vram[..at]) + Repeat(run, p)
    ensures forall j :: o <= j < vram.Length ==> vram[j] == old(vram[j])
  {
    o := at;
    for i := 0 to run
      invariant o == at + i
      invariant forall j :: 0 <= j < at ==> vram[j] == old(vram[j])
      invariant forall j :: at <= j < o ==> vram[j] == p
      invariant forall j :: o <= j < vram.Length ==> vram[j] == old(vram[j])
    {
      vram[o] := p;
      o := o + 1;
    }
  }

  /** The decoder: fills the frame buffer from its start. */
  method DrawBg(words: seq<Pixel>, vram: array<Pixel>) returns (o: nat)
    requires |words| % 2 == 0 && |Decode(words)| <= vram.Length
    modifies vram
    ensures o == |Decode(words)| && vram[..o] == Decode(words)
    ensures forall j :: o <= j < vram.Length ==> vram[j] == old(vram[j])
  {
    hide Decode, Repeat;
    o := 0;
    var input := 0;
    assert words[0..] == words;
    assert vram[..0] + Decode(words) == Decode(words);
    while input < |words|
      invariant 0 <= input <= |words| && input % 2 == 0 && o <= vram.Length
      invariant vram[..o] + Decode(words[input..]) == Decode(words)
      invariant forall j :: o <= j < vram.Length ==> vram[j] == old(vram[j])
      decreases |words| - input
    {
      var run, p := words[input], words[input + 1];
      ghost var rest, done := Decode(words[input + 2..]), vram[..o];
      assert words[input..] == [run, p] + words[input + 2..];
      DecodeFirst(run, p, words[input + 2..]);
      assert (done + Repeat(run, p)) + rest == done + (Repeat(run, p) + rest);
      o := Fill(vram, o, run, p);
      input := input + 2;
    }
    assert words[input..] == [];
    NothingLeft();
    assert vram[..o] + [] == vram[..o];
  }

  lemma NothingLeft()
    ensures Decode([]) == []
  {
  }

  /** Encoded and drawn: as written the picture is one pixel to the left; with the first pixel counted
      it is the picture. */
  method EncodeAndDraw(px: seq<Pixel>, first: Pixel, vram: array<Pixel>) returns (o: nat)
    requires px != [] && first <= 1 && |px| <= vram.Length
    modifies vram
    ensures o <= vram.Length && vram[..o] == if first == 1 then px else px[1..]
  {
    var words := Encode(px, first);
    o := DrawBg(words, vram);
  }
}
