/** Video reassembly of the JavaScript client, which has no boundary flush. */
module JsAssembler {
  import opened Bytes
  import opened VideoFrames

  function Settle(f: Frame): (Option<Frame>, Option<Bytes>) {
    if f.receivedLength >= f.expectedLength && IsComplete(f) then (None, Some(Image(f))) else (Some(f), None)
  }

  function Step(st: Option<Frame>, p: Packet): (Option<Frame>, Option<Bytes>) {
    if IsStart(p) then
      if IsGoodStart(p) then Settle(Insert(Opened(p), 0, p.data[HEADER_SIZE..])) else (st, None)
    else
      match st
      case None => (None, None)
      case Some(f) =>
        var slot := Distance(f.startIndex, p.index);
        if slot > MAX_SLOT then (None, None) else Settle(Insert(f, slot, p.data))
  }

  class VideoAssembler {
    var videoFrame: Option<Frame>

    ghost predicate Valid()
      reads this
    {
      videoFrame.Some? ==> FrameOk(videoFrame.value)
    }

    constructor ()
      ensures Valid() && videoFrame == None
    {
      videoFrame := None;
    }

    method HandleVideoPacket(p: Packet) returns (image: Option<Bytes>)
      requires Valid()
      modifies this
      ensures Valid()
      ensures (videoFrame, image) == Step(old(videoFrame), p)
    {
      var isStart := MARKER <= p.data;
      var raw := p.data;
      if isStart {
        if |p.data| < HEADER_SIZE {
          return None;
        }
        var expected := Le32(p.data[16..20]);
        if expected <= 0 || expected > MAX_FRAME {
          return None;
        }
        raw := p.data[HEADER_SIZE..];
        videoFrame := Some(Frame(p.index, expected, 0, 0, map[]));
      }
      if videoFrame == None {
        return None;
      }
      var frame := videoFrame.value;
      var slot := Distance(frame.startIndex, p.index);
      if slot > MAX_SLOT {
        videoFrame := None;
        return None;
      }
      if isStart {
        OpenedOk(p);
      } else {
        InsertOk(frame, slot, raw);
      }
      if slot !in frame.chunks {
        frame := frame.(chunks := frame.chunks[slot := raw], receivedLength := frame.receivedLength + |raw|);
        if slot > frame.maxSlot {
          frame := frame.(maxSlot := slot);
        }
      }
      videoFrame := Some(frame);
      if frame.receivedLength < frame.expectedLength {
        return None;
      }
      var joined := Join(frame);
      if joined == None {
        return None;
      }
      videoFrame := None;
      return Some(joined.value[..frame.expectedLength]);
    }

    /** Joins the slots in order up to the announced length; gives up at a hole. The bytes that
        were counted on receipt guarantee that a join without a hole is long enough. */
    static method Join(frame: Frame) returns (joined: Option<Bytes>)
      requires FrameOk(frame) && frame.receivedLength >= frame.expectedLength
      ensures joined.Some? <==> IsComplete(frame)
      ensures joined.Some? ==> |joined.value| >= frame.expectedLength
                               && joined.value[..frame.expectedLength] == Image(frame)
    {
      var ordered: Bytes := [];
      var total := 0;
      var slotIndex := 0;
      while slotIndex <= frame.maxSlot
        invariant slotIndex <= frame.maxSlot + 1 && Filled(frame.chunks, slotIndex)
        invariant ordered == Joined(frame.chunks, slotIndex) && total == |ordered| < frame.expectedLength
        invariant RunEnd(frame.chunks.Keys, 0, frame.maxSlot + 1)
               == RunEnd(frame.chunks.Keys, slotIndex, frame.maxSlot + 1)
      {
        if slotIndex !in frame.chunks {
          return None;
        }
        ordered := ordered + frame.chunks[slotIndex];
        total := total + |frame.chunks[slotIndex]|;
        slotIndex := slotIndex + 1;
        if total >= frame.expectedLength {
          break;
        }
      }
      assert Filled(frame.chunks, slotIndex) && slotIndex <= Reach(frame);
      if total < frame.expectedLength {
        AllStored(frame);
      }
      JoinedPrefix(frame.chunks, slotIndex, Reach(frame));
      return Some(ordered);
    }
  }

  /** Without a hole up to the last slot, the joined bytes are all the bytes received. */
  lemma AllStored(f: Frame)
    requires FrameOk(f) && Filled(f.chunks, f.maxSlot + 1)
    ensures |Joined(f.chunks, f.maxSlot + 1)| == f.receivedLength
  {
    JoinedWithinStored(f.chunks, f.maxSlot + 1, f.maxSlot + 1);
  }

  /** The byte count test that only the JavaScript client makes never changes the outcome. */
  lemma CompleteIsReceived(f: Frame)
    requires FrameOk(f) && IsComplete(f)
    ensures f.receivedLength >= f.expectedLength
  {
    JoinedWithinStored(f.chunks, Reach(f), f.maxSlot + 1);
  }
}
