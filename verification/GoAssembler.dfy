/** Video reassembly of the Go client: the step function of its slot map with boundary flush, the
    imperative assembler that computes it, and what every run of it satisfies. */
module GoAssembler {
  import opened Bytes
  import opened VideoFrames
  import JpegTrim

  /** What is handed on when a frame is closed at a boundary: the full image, or else the JPEG
      inside the bytes received, provided no slot before the last one is missing. */
  function Boundary(f: Frame): Option<Emission> {
    if IsComplete(f) then Some(Full(Image(f)))
    else if Reach(f) == f.maxSlot + 1 && JpegTrim.Trim(Body(f)) != [] then
      Some(Trimmed(JpegTrim.Trim(Body(f))))
    else None
  }

  function Flush(st: Option<Frame>): Option<Emission> {
    match st
    case None => None
    case Some(f) => Boundary(f)
  }

  /** A frame that has all its bytes is handed on at once and closed. */
  function Settle(f: Frame): (Option<Frame>, Option<Emission>) {
    if IsComplete(f) then (None, Some(Full(Image(f)))) else (Some(f), None)
  }

  function Step(st: Option<Frame>, p: Packet): (Option<Frame>, Option<Emission>) {
    if IsStart(p) then
      if !IsGoodStart(p) then (None, Flush(st))
      else
        var f := Insert(Opened(p), 0, p.data[HEADER_SIZE..]);
        if Flush(st).Some? then (Some(f), Flush(st)) else Settle(f)
    else
      match st
      case None => (None, None)
      case Some(f) =>
        var slot := Distance(f.startIndex, p.index);
        if slot > MAX_SLOT then (None, Boundary(f)) else Settle(Insert(f, slot, p.data))
  }

  /** What closes an open frame: any start, well-formed or not, and a packet beyond slot 128. It comes
      out as far as it got. */
  lemma BoundariesClose(f: Frame, p: Packet)
    ensures !IsStart(p) && Distance(f.startIndex, p.index) > 128 ==> Step(Some(f), p) == (None, Boundary(f))
    ensures IsStart(p) && Boundary(f).Some? ==> Step(Some(f), p).1 == Boundary(f)
    ensures IsStart(p) && !IsGoodStart(p) ==> Step(Some(f), p).0 == None
    ensures IsGoodStart(p) && Boundary(f).Some? ==> Step(Some(f), p).0 == Some(Insert(Opened(p), 0, p.data[32..]))
  {
  }

  /** Every packet up to slot 128 is stored, and closes the frame only by completing it. */
  lemma ReachIsStored(f: Frame, p: Packet)
    requires !IsStart(p) && Distance(f.startIndex, p.index) <= 128
    ensures var g := Insert(f, Distance(f.startIndex, p.index), p.data);
            Step(Some(f), p) == if IsComplete(g) then (None, Some(Full(Image(g)))) else (Some(g), None)
  {
  }

  // ----- the imperative assembler

  function BytesOf(e: Option<Emission>): Bytes {
    match e
    case None => []
    case Some(x) => x.data
  }

  class VideoFrame {
    const startIndex: Index
    const expectedLength: nat
    var receivedLength: nat
    var maxSlot: nat
    var chunks: map<nat, Bytes>

    function View(): Frame
      reads this
    {
      Frame(startIndex, expectedLength, receivedLength, maxSlot, chunks)
    }

    constructor (index: Index, expected: nat)
      ensures View() == Frame(index, expected, 0, 0, map[])
    {
      startIndex, expectedLength := index, expected;
      receivedLength, maxSlot, chunks := 0, 0, map[];
    }

    method Store(slot: nat, data: Bytes)
      modifies this
      ensures View() == Insert(old(View()), slot, data)
    {
      if slot !in chunks {
        chunks := chunks[slot := data];
        receivedLength := receivedLength + |data|;
        if slot > maxSlot {
          maxSlot := slot;
        }
      }
    }

    /** Joins the slots in order and stops as soon as the announced length is reached. */
    method Build(allowBoundaryComplete: bool) returns (image: Bytes)
      requires expectedLength > 0
      ensures IsComplete(View()) ==> image == Image(View())
      ensures !IsComplete(View()) && !allowBoundaryComplete ==> image == []
      ensures allowBoundaryComplete ==> image == BytesOf(Boundary(View()))
    {
      var out: Bytes := [];
      var total := 0;
      var i := 0;
      while i <= maxSlot
        invariant i <= maxSlot + 1 && Filled(chunks, i)
        invariant out == Joined(chunks, i) && total == |out| < expectedLength
        invariant RunEnd(chunks.Keys, 0, maxSlot + 1) == RunEnd(chunks.Keys, i, maxSlot + 1)
      {
        if i !in chunks {
          return [];
        }
        out := out + chunks[i];
        total := total + |chunks[i]|;
        i := i + 1;
        if total >= expectedLength {
          break;
        }
      }
      assert Filled(chunks, i) && i <= Reach(View());
      JoinedPrefix(chunks, i, Reach(View()));
      if |out| >= expectedLength {
        out := out[..expectedLength];
        if |out| > 0 {
          return out;
        }
      }
      if !allowBoundaryComplete {
        return [];
      }
      image := JpegTrim.TrimCompleteJpeg(out);
    }
  }

  class VideoAssembler {
    var videoFrame: VideoFrame?

    function View(): Option<Frame>
      reads this, videoFrame
    {
      if videoFrame == null then None else Some(videoFrame.View())
    }

    ghost predicate Valid()
      reads this, videoFrame
    {
      videoFrame != null ==> FrameOk(videoFrame.View())
    }

    constructor ()
      ensures Valid() && View() == None
    {
      videoFrame := null;
    }

    method HandleVideo(p: Packet) returns (image: Bytes)
      requires Valid()
      modifies this, videoFrame
      ensures Valid()
      ensures View() == Step(old(View()), p).0
      ensures image == BytesOf(Step(old(View()), p).1)
    {
      var data := p.data;
      var isStart := MARKER <= data;
      var previous: Bytes := [];
      if isStart {
        if videoFrame != null {
          previous := videoFrame.Build(true);
        }
        if |data| < HEADER_SIZE {
          videoFrame := null;
          return previous;
        }
        var expected := Le32(data[16..20]);
        if expected <= 0 || expected > MAX_FRAME {
          videoFrame := null;
          return previous;
        }
        data := data[HEADER_SIZE..];
        videoFrame := new VideoFrame(p.index, expected);
        OpenedOk(p);
      }
      if videoFrame == null {
        return previous;
      }
      var vf := videoFrame;
      var slot := Distance(vf.startIndex, p.index);
      if slot > MAX_SLOT {
        previous := vf.Build(true);
        videoFrame := null;
        return previous;
      }
      if !isStart {
        InsertOk(vf.View(), slot, data);
      }
      vf.Store(slot, data);
      if |previous| > 0 {
        return previous;
      }
      image := vf.Build(false);
      if |image| == 0 {
        return [];
      }
      videoFrame := null;
    }
  }
}
