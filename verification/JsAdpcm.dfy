/** The JavaScript ADPCM decoder, whose step size lags behind that of the Go and C decoders. */
module JsAdpcm {
  import opened Bytes
  import opened Adpcm

  /** The decoder's local state; `step` is the size the next nibble will use. */
  datatype JsDecoder = JsDecoder(index: StepIndex, valpred: Sample, step: nat)

  /** The predicted value starts at the first step size instead of 0. */
  const JS_START := JsDecoder(0, 7, 7)

  function JsDecoded(s: JsDecoder, delta: Nibble): JsDecoder {
    var index := NextIndex(s.index, delta);
    JsDecoder(index, Moved(s.valpred, delta, s.step), StepSize(index))
  }

  function JsLevel(s: JsDecoder): Sample {
    s.valpred
  }

  function JsPcm(input: Bytes): (pcm: Bytes)
    ensures |pcm| == 4 * |input|
  {
    PcmAfter(JsDecoded, JsLevel, JS_START, input, 2 * |input|)
  }

  lemma StepZero()
    ensures StepSize(0) == 7
  {
    assert STEP_ROWS[0][0] == 7;
  }

  method JsDecode(inbuf: Bytes) returns (outbuf: Bytes)
    ensures outbuf == JsPcm(inbuf)
  {
    hide NextIndex, Moved, StepSize, SampleBytes, StateAfter, PcmAfter, NibbleAt;
    var inp: nat, inputBuffer: Byte, bufferStep := 0, 0, false;
    StepZero();
    NoSample(JsDecoded, JsLevel, JS_START, inbuf);
    var index: StepIndex, valpred: Sample := 0, StepSize(0);
    var step := StepSize(index);
    outbuf := [];
    for k := 0 to 2 * |inbuf|
      invariant k == if bufferStep then 2 * inp - 1 else 2 * inp
      invariant bufferStep ==> inputBuffer == inbuf[inp - 1]
      invariant JsDecoder(index, valpred, step) == StateAfter(JsDecoded, JS_START, inbuf, k)
      invariant outbuf == PcmAfter(JsDecoded, JsLevel, JS_START, inbuf, k)
    {
      var delta: Nibble;
      if bufferStep {
        delta := inputBuffer % 16;
      } else {
        inputBuffer := inbuf[inp];
        inp := inp + 1;
        delta := inputBuffer / 16;
      }
      bufferStep := !bufferStep;
      NibblesOf(inbuf, inp - 1);
      index := NextIndex(index, delta);
      valpred := Moved(valpred, delta, step);
      step := StepSize(index);
      NextSample(JsDecoded, JsLevel, JS_START, inbuf, k, JsDecoder(index, valpred, step));
      outbuf := outbuf + SampleBytes(valpred);
    }
  }

  /** Both decoders move through the same step indices; the JavaScript one applies each of them one
      nibble later. */
  lemma {:induction false} JsLagsOneStep(input: Bytes, k: nat)
    requires k <= 2 * |input|
    ensures StateAfter(JsDecoded, JS_START, input, k).index == StateAfter(Decoded, RESET, input, k).index
    ensures StateAfter(JsDecoded, JS_START, input, k).step == StepSize(StateAfter(Decoded, RESET, input, k).index)
    ensures k > 0 ==>
              StateAfter(JsDecoded, JS_START, input, k).valpred
              == Moved(StateAfter(JsDecoded, JS_START, input, k - 1).valpred, NibbleAt(input, k - 1),
                       StepSize(StateAfter(Decoded, RESET, input, k - 1).index))
  {
    hide Decoded, JsDecoded, Moved, StepSize;
    StepZero();
    if k > 0 {
      JsLagsOneStep(input, k - 1);
      var s, d := StateAfter(JsDecoded, JS_START, input, k - 1), StateAfter(Decoded, RESET, input, k - 1);
      StepLags(s, d, NibbleAt(input, k - 1));
    }
  }

  lemma StepLags(s: JsDecoder, d: Decoder, delta: Nibble)
    requires s.index == d.index && s.step == StepSize(d.index)
    ensures JsDecoded(s, delta).index == Decoded(d, delta).index
    ensures JsDecoded(s, delta).step == StepSize(Decoded(d, delta).index)
    ensures JsDecoded(s, delta).valpred == Moved(s.valpred, delta, StepSize(d.index))
  {
    hide StepSize;
  }

  lemma FirstSampleDiffers(delta: Nibble)
    ensures Decoded(RESET, delta).valPred != JsDecoded(JS_START, delta).valpred
  {
    hide StepSize;
    LowSteps();
    var m := delta % 8;
    assert m == 0 || m == 1 || m == 2 || m == 3 || m == 4 || m == 5 || m == 6 || m == 7;
  }

  lemma LowSteps()
    ensures StepSize(0) == 7 && StepSize(2) == 9 && StepSize(4) == 11 && StepSize(6) == 13 && StepSize(8) == 16
  {
    assert STEP_ROWS[0] == [7, 8, 9, 10, 11, 12, 13, 14, 16, 17];
  }

  lemma SampleBytesInjective(s: Sample, t: Sample)
    requires SampleBytes(s) == SampleBytes(t)
    ensures s == t
  {
    var u: int, v: int := if s < 0 then s + 0x1_0000 else s, if t < 0 then t + 0x1_0000 else t;
    assert SampleBytes(s)[0] == u % 0x100 && SampleBytes(s)[1] == u / 0x100;
    assert SampleBytes(t)[0] == v % 0x100 && SampleBytes(t)[1] == v / 0x100;
    assert u == 0x100 * (u / 0x100) + u % 0x100 && v == 0x100 * (v / 0x100) + v % 0x100;
  }

  lemma FirstSampleBytes(input: Bytes)
    requires input != []
    ensures Pcm(RESET, input)[..2] == SampleBytes(Decoded(RESET, NibbleAt(input, 0)).valPred)
    ensures JsPcm(input)[..2] == SampleBytes(JsDecoded(JS_START, NibbleAt(input, 0)).valpred)
  {
    PcmPrefix(Decoded, Level, RESET, input, 1, 2 * |input|);
    PcmPrefix(JsDecoded, JsLevel, JS_START, input, 1, 2 * |input|);
    assert PcmAfter(Decoded, Level, RESET, input, 1) == [] + SampleBytes(StateAfter(Decoded, RESET, input, 1).valPred);
    assert PcmAfter(JsDecoded, JsLevel, JS_START, input, 1)
           == [] + SampleBytes(StateAfter(JsDecoded, JS_START, input, 1).valpred);
  }

  /** The JavaScript decoder agrees with the Go decoder, started afresh, on the empty input only. */
  lemma JsAgreesOnlyOnEmpty(input: Bytes)
    ensures JsPcm(input) == Pcm(RESET, input) <==> input == []
  {
    if input != [] {
      var delta := NibbleAt(input, 0);
      var go, js := Decoded(RESET, delta).valPred, JsDecoded(JS_START, delta).valpred;
      FirstSampleBytes(input);
      assert SampleBytes(go) != SampleBytes(js) by {
        FirstSampleDiffers(delta);
        if SampleBytes(go) == SampleBytes(js) {
          SampleBytesInjective(go, js);
        }
      }
    }
  }

  /** Byte 0x7f: the first step size is 7 and the second 16, and the value starts at 7. */
  lemma TwoNibbles()
    ensures JsPcm([0x7f]) == [18, 0, 0xf4, 0xff]
  {
    hide StepSize;
    SomeSteps();
    var input: Bytes := [0x7f];
    NibblesOf(input, 0);
    var first, second := JsDecoded(JS_START, 7), JsDecoded(JsDecoded(JS_START, 7), 15);
    assert first == JsDecoder(8, 18, 16) && second == JsDecoder(16, -12, 34);
    NoSample(JsDecoded, JsLevel, JS_START, input);
    NextSample(JsDecoded, JsLevel, JS_START, input, 0, first);
    NextSample(JsDecoded, JsLevel, JS_START, input, 1, second);
    assert SampleBytes(18) == [18, 0] && SampleBytes(-12) == [0xf4, 0xff];
  }
}
