/** ADPCM decoding (the IMA family of section 4.5.1 of RFC 3551) in Go, and in C into a bounded
    output buffer. */
module Adpcm {
  import opened Bytes

  const INDEX_TABLE: seq<int> := [-1, -1, -1, -1, 2, 4, 6, 8, -1, -1, -1, -1, 2, 4, 6, 8]

  /** The 89 step sizes, ten to a row. */
  const STEP_ROWS: seq<seq<nat>> := [
    [7, 8, 9, 10, 11, 12, 13, 14, 16, 17],
    [19, 21, 23, 25, 28, 31, 34, 37, 41, 45],
    [50, 55, 60, 66, 73, 80, 88, 97, 107, 118],
    [130, 143, 157, 173, 190, 209, 230, 253, 279, 307],
    [337, 371, 408, 449, 494, 544, 598, 658, 724, 796],
    [876, 963, 1060, 1166, 1282, 1411, 1552, 1707, 1878, 2066],
    [2272, 2499, 2749, 3024, 3327, 3660, 4026, 4428, 4871, 5358],
    [5894, 6484, 7132, 7845, 8630, 9493, 10442, 11487, 12635, 13899],
    [15289, 16818, 18500, 20350, 22385, 24623, 27086, 29794, 32767]
  ]

  type StepIndex = x: int | 0 <= x <= 88

  type Sample = x: int | -32768 <= x <= 32767

  type Nibble = x: int | 0 <= x < 16

  datatype Decoder = Decoder(index: StepIndex, valPred: Sample)

  const RESET := Decoder(0, 0)

  function StepSize(i: StepIndex): nat {
    var row := i / 10;
    assert row == 0 || row == 1 || row == 2 || row == 3 || row == 4 || row == 5 || row == 6 || row == 7 || row == 8;
    STEP_ROWS[row][i % 10]
  }

  function NextIndex(i: StepIndex, delta: Nibble): StepIndex {
    var n := i + INDEX_TABLE[delta];
    if n < 0 then 0 else if n > 88 then 88 else n
  }

  /** Change of the predicted value for the three magnitude bits of a nibble. */
  function Difference(step: nat, magnitude: nat): nat
    requires magnitude < 8
  {
    step / 8
    + (if magnitude >= 4 then step else 0)
    + (if magnitude % 4 >= 2 then step / 2 else 0)
    + (if magnitude % 2 == 1 then step / 4 else 0)
  }

  function Clamped(v: int): Sample {
    if v > 32767 then 32767 else if v < -32768 then -32768 else v
  }

  function Moved(valPred: Sample, delta: Nibble, step: nat): Sample {
    var d := Difference(step, delta % 8);
    Clamped(if delta >= 8 then valPred - d else valPred + d)
  }

  /** One nibble in the Go and C decoders: the step is looked up after the index has moved. */
  function Decoded(d: Decoder, delta: Nibble): Decoder {
    var index := NextIndex(d.index, delta);
    Decoder(index, Moved(d.valPred, delta, StepSize(index)))
  }

  /** The difference is the ideal (2m+1)*step/8, short of it by at most 17/8. */
  lemma DifferenceError(step: nat, magnitude: nat)
    requires magnitude < 8
    ensures 0 <= (2 * magnitude + 1) * step - 8 * Difference(step, magnitude) <= 17
  {
    var m := magnitude;
    assert m == 0 || m == 1 || m == 2 || m == 3 || m == 4 || m == 5 || m == 6 || m == 7;
  }

  /** The eighth bit of a nibble is the sign: away from the limits the predicted value moves by the
      ideal (2m+1)*step/8, up or down, short of it by at most 17/8. */
  lemma MovesBySign(valPred: Sample, delta: Nibble, step: nat)
    ensures var m, d := delta % 8, Difference(step, delta % 8);
            var next: int := Moved(valPred, delta, step);
            && (delta < 8 ==> next == if valPred + d > 32767 then 32767 else valPred + d)
            && (delta >= 8 ==> next == if valPred - d < -32768 then -32768 else valPred - d)
            && (delta < 8 && next < 32767 ==> 0 <= (2 * m + 1) * step - 8 * (next - valPred) <= 17)
            && (delta >= 8 && next > -32768 ==> 0 <= (2 * m + 1) * step + 8 * (next - valPred) <= 17)
  {
    DifferenceError(step, delta % 8);
  }

  /** Small magnitudes lower the index by one, the others raise it by 2, 4, 6 or 8, within 0 to 88. */
  lemma IndexMoves(i: StepIndex, delta: Nibble)
    ensures var n := i + if delta % 8 < 4 then -1 else 2 * (delta % 8) - 6;
            NextIndex(i, delta) == if n < 0 then 0 else if n > 88 then 88 else n
  {
    var d := delta % 8;
    assert d == 0 || d == 1 || d == 2 || d == 3 || d == 4 || d == 5 || d == 6 || d == 7;
    assert delta == d || delta == d + 8;
  }

  /** The 89 step sizes one by one. */
  lemma StepSizesLow()
    ensures StepSize(0) == 7 && StepSize(1) == 8 && StepSize(2) == 9 && StepSize(3) == 10
    ensures StepSize(4) == 11 && StepSize(5) == 12 && StepSize(6) == 13 && StepSize(7) == 14
    ensures StepSize(8) == 16 && StepSize(9) == 17 && StepSize(10) == 19 && StepSize(11) == 21
    ensures StepSize(12) == 23 && StepSize(13) == 25 && StepSize(14) == 28 && StepSize(15) == 31
    ensures StepSize(16) == 34 && StepSize(17) == 37 && StepSize(18) == 41 && StepSize(19) == 45
    ensures StepSize(20) == 50 && StepSize(21) == 55 && StepSize(22) == 60 && StepSize(23) == 66
    ensures StepSize(24) == 73 && StepSize(25) == 80 && StepSize(26) == 88 && StepSize(27) == 97
    ensures StepSize(28) == 107 && StepSize(29) == 118
  {
  }

  lemma StepSizesMiddle()
    ensures StepSize(30) == 130 && StepSize(31) == 143 && StepSize(32) == 157 && StepSize(33) == 173
    ensures StepSize(34) == 190 && StepSize(35) == 209 && StepSize(36) == 230 && StepSize(37) == 253
    ensures StepSize(38) == 279 && StepSize(39) == 307 && StepSize(40) == 337 && StepSize(41) == 371
    ensures StepSize(42) == 408 && StepSize(43) == 449 && StepSize(44) == 494 && StepSize(45) == 544
    ensures StepSize(46) == 598 && StepSize(47) == 658 && StepSize(48) == 724 && StepSize(49) == 796
    ensures StepSize(50) == 876 && StepSize(51) == 963 && StepSize(52) == 1060 && StepSize(53) == 1166
    ensures StepSize(54) == 1282 && StepSize(55) == 1411 && StepSize(56) == 1552 && StepSize(57) == 1707
    ensures StepSize(58) == 1878 && StepSize(59) == 2066
  {
  }

  lemma StepSizesHigh()
    ensures StepSize(60) == 2272 && StepSize(61) == 2499 && StepSize(62) == 2749 && StepSize(63) == 3024
    ensures StepSize(64) == 3327 && StepSize(65) == 3660 && StepSize(66) == 4026 && StepSize(67) == 4428
    ensures StepSize(68) == 4871 && StepSize(69) == 5358 && StepSize(70) == 5894 && StepSize(71) == 6484
    ensures StepSize(72) == 7132 && StepSize(73) == 7845 && StepSize(74) == 8630 && StepSize(75) == 9493
    ensures StepSize(76) == 10442 && StepSize(77) == 11487 && StepSize(78) == 12635 && StepSize(79) == 13899
    ensures StepSize(80) == 15289 && StepSize(81) == 16818 && StepSize(82) == 18500 && StepSize(83) == 20350
    ensures StepSize(84) == 22385 && StepSize(85) == 24623 && StepSize(86) == 27086 && StepSize(87) == 29794
    ensures StepSize(88) == 32767
  {
  }

  /** A decoder starts at index 0 and value 0; the step is looked up after the index has moved. */
  lemma StepAfterMove(d: Decoder, delta: Nibble)
    ensures RESET.index == 0 && RESET.valPred == 0
    ensures var next := Decoded(d, delta);
            next.index == NextIndex(d.index, delta) && next.valPred == Moved(d.valPred, delta, StepSize(next.index))
  {
  }

  // ----- runs over a byte string, nibble by nibble

  function NibbleAt(input: Bytes, k: nat): Nibble
    requires k < 2 * |input|
  {
    if k % 2 == 0 then input[k / 2] / 16 else input[k / 2] % 16
  }

  lemma NibblesOf(input: Bytes, i: nat)
    requires i < |input|
    ensures NibbleAt(input, 2 * i) == input[i] / 16 && NibbleAt(input, 2 * i + 1) == input[i] % 16
  {
  }

  /** State of a decoder after the first k nibbles. */
  function StateAfter<D>(step: (D, Nibble) -> D, d: D, input: Bytes, k: nat): D
    requires k <= 2 * |input|
  {
    if k == 0 then d else step(StateAfter(step, d, input, k - 1), NibbleAt(input, k - 1))
  }

  /** A sample as two little-endian bytes of its 16-bit two's complement. */
  function SampleBytes(s: Sample): (b: Bytes)
    ensures |b| == 2
  {
    var u := if s < 0 then s + 0x1_0000 else s;
    [u % 0x100, u / 0x100]
  }

  /** What a decoder whose output level is `level` writes for the first k nibbles. */
  function PcmAfter<D>(step: (D, Nibble) -> D, level: D -> Sample, d: D, input: Bytes, k: nat): (pcm: Bytes)
    requires k <= 2 * |input|
    ensures |pcm| == 2 * k
  {
    if k == 0 then []
    else PcmAfter(step, level, d, input, k - 1) + SampleBytes(level(StateAfter(step, d, input, k)))
  }

  /** One more nibble, one more sample. */
  lemma NextSample<D>(step: (D, Nibble) -> D, level: D -> Sample, d: D, input: Bytes, k: nat, t: D)
    requires k < 2 * |input|
    requires t == step(StateAfter(step, d, input, k), NibbleAt(input, k))
    ensures StateAfter(step, d, input, k + 1) == t
    ensures PcmAfter(step, level, d, input, k + 1) == PcmAfter(step, level, d, input, k) + SampleBytes(level(t))
  {
  }

  lemma NoSample<D>(step: (D, Nibble) -> D, level: D -> Sample, d: D, input: Bytes)
    ensures StateAfter(step, d, input, 0) == d && PcmAfter(step, level, d, input, 0) == []
  {
  }

  lemma {:induction false} SamePrefix<D>(step: (D, Nibble) -> D, level: D -> Sample, d: D, a: Bytes, b: Bytes, k: nat)
    requires k <= 2 * |a|
    ensures StateAfter(step, d, a + b, k) == StateAfter(step, d, a, k)
    ensures PcmAfter(step, level, d, a + b, k) == PcmAfter(step, level, d, a, k)
  {
    if k > 0 {
      SamePrefix(step, level, d, a, b, k - 1);
    }
  }

  /** Nibbles behind the boundary of a concatenation are decoded as if the second part came alone,
      from the state the first part left. */
  lemma {:induction false} SplitAt<D>(step: (D, Nibble) -> D, level: D -> Sample, d: D, a: Bytes, b: Bytes, k: nat)
    requires k <= 2 * |b|
    ensures var mid := StateAfter(step, d, a, 2 * |a|);
            && StateAfter(step, d, a + b, 2 * |a| + k) == StateAfter(step, mid, b, k)
            && PcmAfter(step, level, d, a + b, 2 * |a| + k)
               == PcmAfter(step, level, d, a, 2 * |a|) + PcmAfter(step, level, mid, b, k)
    decreases k
  {
    hide StateAfter, PcmAfter, SampleBytes;
    var mid := StateAfter(step, d, a, 2 * |a|);
    if k == 0 {
      NoSample(step, level, mid, b);
      SamePrefix(step, level, d, a, b, 2 * |a|);
    } else {
      SplitAt(step, level, d, a, b, k - 1);
      var n := 2 * |a| + k;
      assert NibbleAt(a + b, n - 1) == NibbleAt(b, k - 1);
      var t := step(StateAfter(step, mid, b, k - 1), NibbleAt(b, k - 1));
      NextSample(step, level, d, a + b, n - 1, t);
      NextSample(step, level, mid, b, k - 1, t);
    }
  }

  lemma {:induction false} PcmPrefix<D>(step: (D, Nibble) -> D, level: D -> Sample, d: D, input: Bytes, k: nat, n: nat)
    requires k <= n <= 2 * |input|
    ensures PcmAfter(step, level, d, input, k) == PcmAfter(step, level, d, input, n)[..2 * k]
    decreases n
  {
    if k < n {
      PcmPrefix(step, level, d, input, k, n - 1);
    }
  }

  // ----- what the Go and C decoders compute

  function Level(d: Decoder): Sample {
    d.valPred
  }

  function Pcm(d: Decoder, input: Bytes): (pcm: Bytes)
    ensures |pcm| == 4 * |input|
  {
    PcmAfter(Decoded, Level, d, input, 2 * |input|)
  }

  function Final(d: Decoder, input: Bytes): Decoder {
    StateAfter(Decoded, d, input, 2 * |input|)
  }

  /** Decoding a concatenation is decoding the parts one after the other with the state carried over. */
  lemma DecodeConcatenation(d: Decoder, a: Bytes, b: Bytes)
    ensures Pcm(d, a + b) == Pcm(d, a) + Pcm(Final(d, a), b)
    ensures Final(d, a + b) == Final(Final(d, a), b)
  {
    hide StateAfter, PcmAfter, Decoded;
    SplitAt(Decoded, Level, d, a, b, 2 * |b|);
    assert 2 * |a + b| == 2 * |a| + 2 * |b|;
  }

  /** Byte 0x7f from reset: the upper nibble comes first and moves up by 30, the lower one down by 63;
      samples are written low byte first. */
  lemma TwoNibbles()
    ensures Pcm(RESET, [0x7f]) == [30, 0, 0xdf, 0xff]
  {
    hide StepSize;
    SomeSteps();
    var input: Bytes := [0x7f];
    NibblesOf(input, 0);
    var first, second := Decoded(RESET, 7), Decoded(Decoded(RESET, 7), 15);
    assert first == Decoder(8, 30) && second == Decoder(16, -33);
    NoSample(Decoded, Level, RESET, input);
    NextSample(Decoded, Level, RESET, input, 0, first);
    NextSample(Decoded, Level, RESET, input, 1, second);
    assert SampleBytes(30) == [30, 0] && SampleBytes(-33) == [0xdf, 0xff];
  }

  lemma SomeSteps()
    ensures StepSize(8) == 16 && StepSize(16) == 34
  {
    StepSizesLow();
  }

  // ----- Go

  class AdpcmDecoder {
    var index: StepIndex
    var valPred: Sample

    function View(): Decoder
      reads this
    {
      Decoder(index, valPred)
    }

    constructor ()
      ensures View() == RESET
    {
      index, valPred := 0, 0;
    }

    method Reset()
      modifies this
      ensures View() == RESET
    {
      index, valPred := 0, 0;
    }

    method DecodeNibble(nibble: Nibble)
      modifies this
      ensures View() == Decoded(old(View()), nibble)
    {
      hide StepSize;
      var moved := index + INDEX_TABLE[nibble];
      if moved < 0 {
        moved := 0;
      }
      if moved > 88 {
        moved := 88;
      }
      index := moved;
      assert index == NextIndex(old(index), nibble);
      var sign, delta := nibble >= 8, nibble % 8;
      var step := StepSize(index);
      var vpdiff := step / 8;
      if delta >= 4 {
        vpdiff := vpdiff + step;
      }
      if delta % 4 >= 2 {
        vpdiff := vpdiff + step / 2;
      }
      if delta % 2 == 1 {
        vpdiff := vpdiff + step / 4;
      }
      assert vpdiff == Difference(step, nibble % 8);
      hide Difference, NextIndex;
      var predicted: int := if sign then valPred as int - vpdiff else valPred as int + vpdiff;
      if predicted > 32767 {
        predicted := 32767;
      }
      if predicted < -32768 {
        predicted := -32768;
      }
      valPred := predicted;
    }

    method Decode(input: Bytes) returns (out: Bytes)
      modifies this
      ensures View() == Final(old(View()), input) && out == Pcm(old(View()), input)
    {
      hide Decoded, SampleBytes, StateAfter, PcmAfter;
      ghost var start := View();
      out := [];
      NoSample(Decoded, Level, start, input);
      for i := 0 to |input|
        invariant View() == StateAfter(Decoded, start, input, 2 * i)
        invariant out == PcmAfter(Decoded, Level, start, input, 2 * i)
      {
        for nib := 0 to 2
          invariant View() == StateAfter(Decoded, start, input, 2 * i + nib)
          invariant out == PcmAfter(Decoded, Level, start, input, 2 * i + nib)
        {
          var delta: Nibble := if nib == 0 then input[i] / 16 else input[i] % 16;
          assert delta == NibbleAt(input, 2 * i + nib);
          DecodeNibble(delta);
          out := out + SampleBytes(valPred);
          NextSample(Decoded, Level, start, input, 2 * i + nib, View());
        }
      }
    }
  }

  // ----- C

  /** Nibbles the C decoder consumes before input or output runs out. */
  function Fitting(inlen: nat, outcap: nat): nat {
    if 2 * (2 * inlen) <= outcap then 2 * inlen else outcap / 2
  }

  /** It stops exactly when the input is used up or the next sample does not fit. */
  lemma FittingIsMost(inlen: nat, outcap: nat)
    ensures var k := Fitting(inlen, outcap);
            k <= 2 * inlen && 2 * k <= outcap && (k < 2 * inlen ==> 2 * (k + 1) > outcap)
  {
  }

  class AdpcmGlobals {
    var adpcmIndex: StepIndex
    var adpcmValpred: Sample

    function View(): Decoder
      reads this
    {
      Decoder(adpcmIndex, adpcmValpred)
    }

    method DecodeNibble(delta: Nibble)
      modifies this
      ensures View() == Decoded(old(View()), delta)
    {
      adpcmIndex := NextIndex(adpcmIndex, delta);
      adpcmValpred := Moved(adpcmValpred, delta, StepSize(adpcmIndex));
    }

    /** Output is the Go output cut to what fits; nothing behind it is touched. */
    method Decode(input: Bytes, out: array<Byte>) returns (outp: nat)
      modifies this, out
      ensures outp == 2 * Fitting(|input|, out.Length) <= out.Length
      ensures out[..outp] == Pcm(old(View()), input)[..outp]
      ensures out[outp..] == old(out[..])[outp..]
      ensures View() == StateAfter(Decoded, old(View()), input, Fitting(|input|, out.Length))
    {
      hide Decoded, SampleBytes, StateAfter, PcmAfter, NibbleAt;
      var inp: nat, inputBuffer: Byte, bufferStep := 0, 0, false;
      var len := |input| * 2;
      outp := 0;
      ghost var start, k: nat := View(), 0;
      NoSample(Decoded, Level, start, input);
      while len > 0 && outp + 2 <= out.Length
        invariant 0 <= len && k + len == 2 * |input| && outp == 2 * k <= out.Length
        invariant k == if bufferStep then 2 * inp - 1 else 2 * inp
        invariant bufferStep ==> inputBuffer == input[inp - 1]
        invariant View() == StateAfter(Decoded, start, input, k)
        invariant out[..outp] == PcmAfter(Decoded, Level, start, input, k)
        invariant out[outp..] == old(out[..])[outp..]
      {
        var delta: Nibble;
        if bufferStep {
          delta := inputBuffer % 16;
        } else {
          inputBuffer := input[inp];
          inp := inp + 1;
          delta := inputBuffer / 16;
        }
        bufferStep := !bufferStep;
        NibblesOf(input, inp - 1);
        DecodeSample(delta, out, outp);
        NextSample(Decoded, Level, start, input, k, View());
        outp := outp + 2;
        len := len - 1;
        k := k + 1;
      }
      PcmPrefix(Decoded, Level, start, input, k, 2 * |input|);
    }

    method DecodeSample(delta: Nibble, out: array<Byte>, at: nat)
      requires at + 2 <= out.Length
      modifies this, out
      ensures View() == Decoded(old(View()), delta)
      ensures out[..at + 2] == old(out[..at]) + SampleBytes(Level(View()))
      ensures out[at + 2..] == old(out[at + 2..])
    {
      hide Decoded;
      DecodeNibble(delta);
      var b := SampleBytes(adpcmValpred);
      out[at], out[at + 1] := b[0], b[1];
    }
  }
}
