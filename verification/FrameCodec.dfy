/**
  The switch over the frame type: decoding the octets of a complete frame.
 */
module FrameCodec {
  import opened Wire
  import opened Frames
  import opened Framing
  import opened Properties
  import opened FramingCodec

  /** Decodes a complete frame; None is a frame of a type that is ignored. */
  method DecodeFrame(raw: Bytes) returns (status: Status, frame: Option<Frame>)
    requires |raw| >= HEADER_SIZE
    ensures status == Ok <==> DecodeRaw(raw).Success?
    ensures if status == Ok then DecodeRaw(raw) == Success(frame) else DecodeRaw(raw) == Failure(status) && frame == None
  {
    hide DecMethod, DecProps, D16, D32, D64;
    frame := None;
    var size := |raw|;
    if raw[size - 1] != FRAME_END {
      return BadData, None;
    }
    var channel := D16(raw, 1);
    if raw[0] == FRAME_METHOD {
      if size < HEADER_SIZE + 4 + FOOTER_SIZE { return Undefined, None; }
      var id, fields := D32(raw, HEADER_SIZE), [];
      status, fields := DecodeMethod(id, raw[HEADER_SIZE + 4..size - FOOTER_SIZE]);
      if status != Ok { return; }
      frame := Some(MethodFrame(channel, id, fields));
    } else if raw[0] == FRAME_HEADER {
      if size < HEADER_SIZE + 12 + FOOTER_SIZE { return Undefined, None; }
      var classId, bodySize := D16(raw, HEADER_SIZE), D64(raw, HEADER_SIZE + 4);
      var props := Properties(0, []);
      status, props := DecodeProperties(classId, raw[HEADER_SIZE + 12..size - FOOTER_SIZE]);
      if status != Ok { return; }
      frame := Some(HeaderFrame(channel, classId, bodySize, props));
    } else if raw[0] == FRAME_BODY {
      if size < HEADER_SIZE + FOOTER_SIZE { return Undefined, None; }
      frame := Some(BodyFrame(channel, raw[HEADER_SIZE..size - FOOTER_SIZE]));
    } else if raw[0] == FRAME_HEARTBEAT {
      frame := Some(HeartbeatFrame(channel));
    }
    status := Ok;
  }
}
