/** The search for a whole JPEG image (markers of Annex B of ITU-T T.81) inside the bytes of a
    frame that ended before its announced length. */
module JpegTrim {
  import opened Bytes

  predicate SoiAt(s: Bytes, i: nat) {
    i + 1 < |s| && s[i] == 0xff && s[i + 1] == 0xd8
  }

  predicate EoiAt(s: Bytes, i: nat) {
    i + 1 < |s| && s[i] == 0xff && s[i + 1] == 0xd9
  }

  /** The markers themselves. */
  lemma MarkersExactly(s: Bytes, i: nat)
    ensures SoiAt(s, i) <==> i + 2 <= |s| && s[i..i + 2] == [0xff, 0xd8]
    ensures EoiAt(s, i) <==> i + 2 <= |s| && s[i..i + 2] == [0xff, 0xd9]
  {
    if i + 2 <= |s| {
      assert s[i..i + 2] == [s[i], s[i + 1]];
    }
  }

  function FirstSoi(s: Bytes, i: nat): (r: Option<nat>)
    ensures r.Some? ==> i <= r.value && SoiAt(s, r.value)
    ensures r.Some? ==> forall k :: i <= k < r.value ==> !SoiAt(s, k)
    ensures r.None? ==> forall k :: i <= k ==> !SoiAt(s, k)
    decreases |s| - i
  {
    if i >= |s| then None
    else if SoiAt(s, i) then Some(i)
    else FirstSoi(s, i + 1)
  }

  /** The last end marker that begins in positions `from` to n-1. */
  function LastEoi(s: Bytes, from: nat, n: nat): (r: Option<nat>)
    ensures r.Some? ==> from <= r.value < n && EoiAt(s, r.value)
    ensures r.Some? ==> forall k :: r.value < k < n ==> !EoiAt(s, k)
    ensures r.None? ==> forall k :: from <= k < n ==> !EoiAt(s, k)
  {
    if n <= from then None
    else if EoiAt(s, n - 1) then Some(n - 1)
    else LastEoi(s, from, n - 1)
  }

  /** The bytes from the first start marker to the last end marker after it; empty when there
      is no such pair. */
  function Trim(s: Bytes): Bytes {
    match FirstSoi(s, 0)
    case None => []
    case Some(a) =>
      match LastEoi(s, a + 2, |s|)
      case None => []
      case Some(b) => s[a..b + 2]
  }

  /** An image is found exactly when an end marker follows a start marker, and then the result is
      the widest slice bracketed by the first start marker. */
  lemma TrimIsWidestImage(s: Bytes, a: nat, b: nat)
    requires SoiAt(s, a) && forall k :: 0 <= k < a ==> !SoiAt(s, k)
    requires a + 2 <= b && EoiAt(s, b) && forall k :: b < k < |s| ==> !EoiAt(s, k)
    ensures Trim(s) == s[a..b + 2] && SoiAt(Trim(s), 0) && EoiAt(Trim(s), b - a)
  {
    assert FirstSoi(s, 0) == Some(a);
    assert LastEoi(s, a + 2, |s|) == Some(b);
  }

  lemma TrimFindsImage(s: Bytes)
    ensures Trim(s) != [] <==> exists a, b :: 0 <= a && a + 2 <= b && SoiAt(s, a) && EoiAt(s, b)
  {
    if a: nat, b: nat :| a + 2 <= b && SoiAt(s, a) && EoiAt(s, b) {
      var first := FirstSoi(s, 0).value;
      assert first <= a;
      assert LastEoi(s, first + 2, |s|).Some?;
    }
  }

  /** An image between other bytes, the second end marker being part of it; the shortest image; and an
      end marker that begins inside the start marker does not count. */
  lemma TrimExamples()
    ensures Trim([1, 0xff, 0xd8, 2, 0xff, 0xd9, 3, 0xff, 0xd9, 4]) == [0xff, 0xd8, 2, 0xff, 0xd9, 3, 0xff, 0xd9]
    ensures Trim([0xff, 0xd8, 0xff, 0xd9]) == [0xff, 0xd8, 0xff, 0xd9]
    ensures Trim([0xff, 0xd9, 0xff, 0xd8, 0xd9]) == []
  {
    var whole: Bytes := [1, 0xff, 0xd8, 2, 0xff, 0xd9, 3, 0xff, 0xd9, 4];
    assert SoiAt(whole, 1) && !SoiAt(whole, 0) && EoiAt(whole, 7) && !EoiAt(whole, 8) && !EoiAt(whole, 9);
    TrimIsWidestImage(whole, 1, 7);
    assert whole[1..9] == [0xff, 0xd8, 2, 0xff, 0xd9, 3, 0xff, 0xd9];
    var least: Bytes := [0xff, 0xd8, 0xff, 0xd9];
    assert SoiAt(least, 0) && EoiAt(least, 2) && !EoiAt(least, 3);
    TrimIsWidestImage(least, 0, 2);
    assert least[0..4] == least;
    NoImage();
  }

  lemma NoImage()
    ensures Trim([0xff, 0xd9, 0xff, 0xd8, 0xd9]) == []
  {
    var s: Bytes := [0xff, 0xd9, 0xff, 0xd8, 0xd9];
    assert SoiAt(s, 2) && !SoiAt(s, 0) && !SoiAt(s, 1) && !EoiAt(s, 4);
    assert FirstSoi(s, 0) == Some(2);
    assert LastEoi(s, 4, 5).None?;
  }

  lemma TrimIdempotent(s: Bytes)
    ensures Trim(Trim(s)) == Trim(s)
  {
    var t := Trim(s);
    if t != [] {
      var a := FirstSoi(s, 0).value;
      var b := LastEoi(s, a + 2, |s|).value;
      assert forall k :: 0 <= k < |t| ==> t[k] == s[a + k];
      forall k | b - a < k < |t| ensures !EoiAt(t, k) {
        assert k == b - a + 1;
      }
      TrimIsWidestImage(t, 0, b - a);
    }
  }

  method TrimCompleteJpeg(input: Bytes) returns (out: Bytes)
    ensures out == Trim(input)
  {
    var soi := 0;
    while soi < |input| && !SoiAt(input, soi)
      invariant 0 <= soi <= |input|
      invariant FirstSoi(input, 0) == FirstSoi(input, soi)
    {
      soi := soi + 1;
    }
    if soi == |input| {
      return [];
    }
    var eoi := -1;
    var i := soi + 2;
    while i + 1 < |input|
      invariant soi + 2 <= i
      invariant i <= |input|
      invariant eoi == match LastEoi(input, soi + 2, i) case None => -1 case Some(b) => b + 2
    {
      if input[i] == 0xff && input[i + 1] == 0xd9 {
        eoi := i + 2;
      }
      i := i + 1;
    }
    assert LastEoi(input, soi + 2, |input|) == LastEoi(input, soi + 2, i);
    if eoi <= soi {
      return [];
    }
    return input[soi..eoi];
  }
}
