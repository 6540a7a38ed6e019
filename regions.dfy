/** Frames, regions of interest and the label-to-region maps both extractors are configured with. */
module Regions {
  import opened Wrappers

  /** The C# `int`. */
  newtype int32 = x: int | -0x8000_0000 <= x < 0x8000_0000

  /** C# `a + b` on `int` in an unchecked context: the sum wraps around modulo 2^32. */
  function WrappingAdd(a: int32, b: int32): (r: int32)
    ensures (r as int - (a as int + b as int)) % 0x1_0000_0000 == 0
    ensures -0x8000_0000 <= a as int + b as int < 0x8000_0000 ==> r as int == a as int + b as int
  {
    var sum := a as int + b as int;
    if sum >= 0x8000_0000 then (sum - 0x1_0000_0000) as int32
    else if sum < -0x8000_0000 then (sum + 0x1_0000_0000) as int32
    else sum as int32
  }

  /** An OpenCV `Rect`. */
  datatype Rect = Rect(x: int32, y: int32, width: int32, height: int32)

  /** The dimensions of a video frame (an OpenCV `Mat`). */
  datatype Frame = Frame(width: int32, height: int32)

  /** The bounds check both extractors apply before cutting a region out of a frame:
      `roi.X + roi.Width <= frame.Width && roi.Y + roi.Height <= frame.Height`, in 32-bit arithmetic. */
  predicate FitsIn(roi: Rect, frame: Frame)
    ensures -0x8000_0000 <= roi.x as int + roi.width as int < 0x8000_0000 &&
            -0x8000_0000 <= roi.y as int + roi.height as int < 0x8000_0000 ==>
              (FitsIn(roi, frame) <==>
                 roi.x as int + roi.width as int <= frame.width as int &&
                 roi.y as int + roi.height as int <= frame.height as int)
  {
    WrappingAdd(roi.x, roi.width) <= frame.width && WrappingAdd(roi.y, roi.height) <= frame.height
  }

  /** A region is read only when it passes the bounds check and its cut-out is not empty. */
  predicate Admitted(roi: Rect, frame: Frame, isEmpty: Rect -> bool)
    ensures Admitted(roi, frame, isEmpty) ==> !isEmpty(roi)
    ensures -0x8000_0000 <= roi.x as int + roi.width as int < 0x8000_0000 &&
            -0x8000_0000 <= roi.y as int + roi.height as int < 0x8000_0000 ==>
              (Admitted(roi, frame, isEmpty) <==>
                 && !isEmpty(roi)
                 && roi.x as int + roi.width as int <= frame.width as int
                 && roi.y as int + roi.height as int <= frame.height as int)
  {
    FitsIn(roi, frame) && !isEmpty(roi)
  }

  /** With overflow a region far outside the frame passes the check: x = 2^31 - 1 and width 1
      wrap around to a far edge of -2^31. */
  lemma FitsInWraps()
    ensures FitsIn(Rect(0x7FFF_FFFF, 0, 1, 0), Frame(0, 0))
  {
    assert WrappingAdd(0x7FFF_FFFF, 1) == -0x8000_0000;
    assert WrappingAdd(0, 0) == 0;
  }

  /** One labelled region of a configuration. */
  datatype Entry<V> = Entry(key: string, roi: V)

  predicate UniqueLabels<V>(m: seq<Entry<V>>) {
    forall i, j :: 0 <= i < j < |m| ==> m[i].key != m[j].key
  }

  /** Any prefix of a region list with unique labels has unique labels. */
  lemma PrefixUnique<V>(m: seq<Entry<V>>, i: nat)
    requires UniqueLabels(m) && i <= |m|
    ensures UniqueLabels(m[..i])
  {
  }

  /** A `Dictionary<string, V>` of regions, as the sequence it enumerates in: keys are unique. */
  type RoiMap<V> = m: seq<Entry<V>> | UniqueLabels(m) witness []

  /** The dictionary indexer `roiMap[key]`; None where it throws. */
  function Find<V>(m: seq<Entry<V>>, key: string): (r: Option<V>)
    ensures r.None? <==> forall j :: 0 <= j < |m| ==> m[j].key != key
    ensures r.Some? ==> exists j :: 0 <= j < |m| && m[j] == Entry(key, r.value)
  {
    if m == [] then None
    else if m[0].key == key then Some(m[0].roi)
    else
      var r := Find(m[1..], key);
      assert r.Some? ==> exists j :: 0 <= j < |m| && m[j] == Entry(key, r.value) by {
        if r.Some? {
          var j :| 0 <= j < |m[1..]| && m[1..][j] == Entry(key, r.value);
          assert m[j + 1] == m[1..][j];
        }
      }
      r
  }
}
