/** What both archive writers do with each file: a table record, the data, and zeros up to the next
    block. */
module Records {
  import opened Bytes
  import opened Image

  function PutRecord(img: Img, fpos: nat, record: Img, wpos: nat, data: Img): Img {
    Overwrite(Overwrite(Overwrite(img, fpos, record), wpos, data), PadUp(wpos + |data|) - 1, [0])
  }

  lemma RangeKept(img: Img, pos: nat, bs: Img, at: nat, n: nat)
    requires Range(img, at, n).Some? && (at + n <= pos || pos + |bs| <= at)
    ensures Range(Overwrite(img, pos, bs), at, n) == Range(img, at, n)
  {
    if at + n <= |img| {
      KeptElsewhere(img, pos, bs, at, at + n);
    } else {
      assert forall s: Img :: at <= |s| ==> s[at..at + n] == [];
    }
  }

  lemma RangeWritten(img: Img, pos: nat, bs: Img)
    ensures Range(Overwrite(img, pos, bs), pos, |bs|) == Some(bs)
  {
    if bs != [] {
      WrittenThere(img, pos, bs);
    }
  }

  /** What lies outside the record and below the data stays. */
  lemma PutKeeps(img: Img, fpos: nat, record: Img, wpos: nat, data: Img, at: nat, n: nat)
    requires Range(img, at, n).Some? && (at + n <= fpos || fpos + |record| <= at) && at + n <= wpos
    ensures Range(PutRecord(img, fpos, record, wpos, data), at, n) == Range(img, at, n)
  {
    hide Overwrite, Range;
    var img1 := Overwrite(img, fpos, record);
    RangeKept(img, fpos, record, at, n);
    RangeKept(img1, wpos, data, at, n);
    RangeKept(Overwrite(img1, wpos, data), PadUp(wpos + |data|) - 1, [0], at, n);
  }

  lemma PutMakesData(img: Img, fpos: nat, record: Img, wpos: nat, data: Img)
    ensures Range(PutRecord(img, fpos, record, wpos, data), wpos, |data|) == Some(data)
  {
    hide Overwrite, Range;
    var img1 := Overwrite(img, fpos, record);
    RangeWritten(img1, wpos, data);
    RangeKept(Overwrite(img1, wpos, data), PadUp(wpos + |data|) - 1, [0], wpos, |data|);
  }

  lemma PutMakesRecord(img: Img, fpos: nat, record: Img, wpos: nat, data: Img)
    requires fpos + |record| <= wpos
    ensures Range(PutRecord(img, fpos, record, wpos, data), fpos, |record|) == Some(record)
  {
    hide Overwrite, Range;
    var img1 := Overwrite(img, fpos, record);
    RangeWritten(img, fpos, record);
    RangeKept(img1, wpos, data, fpos, |record|);
    RangeKept(Overwrite(img1, wpos, data), PadUp(wpos + |data|) - 1, [0], fpos, |record|);
  }

  lemma PutMakes(img: Img, fpos: nat, record: Img, wpos: nat, data: Img)
    requires fpos + |record| <= wpos
    ensures Range(PutRecord(img, fpos, record, wpos, data), fpos, |record|) == Some(record)
    ensures Range(PutRecord(img, fpos, record, wpos, data), wpos, |data|) == Some(data)
  {
    hide PutRecord;
    PutMakesRecord(img, fpos, record, wpos, data);
    PutMakesData(img, fpos, record, wpos, data);
  }

  lemma PutLength(img: Img, fpos: nat, record: Img, wpos: nat, data: Img)
    requires fpos + |record| <= PadUp(wpos + |data|) && |img| <= PadUp(wpos + |data|)
    ensures |PutRecord(img, fpos, record, wpos, data)| == PadUp(wpos + |data|)
  {
  }
}
