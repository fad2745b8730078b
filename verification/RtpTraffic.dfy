/** RTP accounting of `DtlsTransport`: per-packet loss counting over 16-bit sequence numbers, and
    the windows that collection cuts out of the counts. */
module RtpTraffic {
  import opened Bytes

  const TRAFFIC_COLLECT_MIN_START_TIME := 3       // seconds
  const TRAFFIC_COLLECT_MIN_DURATION := 3000      // milliseconds

  datatype RtpPacketInfo = RtpPacketInfo(sequenceNumber: uint16, timestamp: uint32)

  datatype CollectData = CollectData(duration: uint32, frameCount: int32, packetLossCount: int32, latency: int32, packetCount: int32)
  {
    function Clear(): CollectData { CollectData(duration, 0, 0, 0, 0) }
  }

  datatype Window = Window(video: CollectData, audio: CollectData)

  datatype Track = Track(
    started: bool,
    startTimestamp: uint32,
    startTime: int,
    collectStartTimestamp: int,
    collectStartTime: int,
    lastSequenceNumber: int,
    lastTimestamp: uint32,
    lastTime: int,
    data: CollectData)

  datatype Traffic = Traffic(
    startTime: int,                     // _start_time
    video: Track,
    audio: Track,
    videoChangeTimestamp: uint32,       // _video_timestamp_change_timestamp
    videoChangedTime: int)              // _video_timestamp_changed_time

  const NO_DATA := CollectData(0, 0, 0, 0, 0)
  const NO_TRACK := Track(false, 0, 0, 0, 0, -1, 0, 0, NO_DATA)
  const INITIAL := Traffic(0, NO_TRACK, NO_TRACK, 0, 0)

  // ---------------------------------------------------------------- the header

  datatype PacketType = VideoPacket | AudioPacket | UnknownPacket

  datatype TrackInfo = TrackInfo(trackId: uint32, timescale: uint32)

  datatype ParsedHeader = ParsedHeader(packetType: PacketType, info: RtpPacketInfo, isEndPacket: bool)

  const MIN_RTP_PACKET_LEN: nat := 12

  /** Timestamps are kept in milliseconds if the timescale allows it. */
  function InMilliseconds(timestamp: uint32, timescale: uint32): uint32 {
    if timescale >= 1000 then timestamp / (timescale / 1000) else timestamp
  }

  function Word(high: int, low: int): int { high * 0x100 + low }

  /** The callers have checked the length. */
  function RtpPacketParsing(data: Bytes, video: TrackInfo, audio: TrackInfo): ParsedHeader
    requires |data| >= MIN_RTP_PACKET_LEN
  {
    var payloadType := data[1] % 0x80;
    var packetType := if payloadType == video.trackId then VideoPacket
                      else if payloadType == audio.trackId then AudioPacket
                      else UnknownPacket;
    var timestamp := Word(data[4], data[5]) * 0x1_0000 + Word(data[6], data[7]);
    var kept := match packetType
      case VideoPacket => InMilliseconds(timestamp, video.timescale)
      case AudioPacket => InMilliseconds(timestamp, audio.timescale)
      case UnknownPacket => timestamp;
    ParsedHeader(packetType, RtpPacketInfo(Word(data[2], data[3]), kept),
                 packetType == AudioPacket || (packetType == VideoPacket && data[1] >= 0x80))
  }

  /** The fixed part of an RTP header, section 5.1 of RFC 3550, without the source identifiers. */
  function Header(first: byte, marker: bool, payloadType: int, number: uint16, timestamp: uint32): Bytes
    requires 0 <= payloadType < 0x80
  {
    [first, (if marker then 0x80 else 0) + payloadType, number / 0x100, number % 0x100,
     timestamp / 0x100_0000, timestamp / 0x1_0000 % 0x100, timestamp / 0x100 % 0x100, timestamp % 0x100]
  }

  /** Parsing gives back what the header was built from: the track, with video first if both have
      the payload type, the number, the timestamp in milliseconds of its track, and the frame end,
      which every audio packet is. */
  lemma HeaderParses(first: byte, marker: bool, payloadType: int, number: uint16, timestamp: uint32, rest: Bytes,
                     video: TrackInfo, audio: TrackInfo)
    requires 0 <= payloadType < 0x80 && |rest| >= 4
    ensures RtpPacketParsing(Header(first, marker, payloadType, number, timestamp) + rest, video, audio) ==
              if payloadType == video.trackId then
                ParsedHeader(VideoPacket, RtpPacketInfo(number, InMilliseconds(timestamp, video.timescale)), marker)
              else if payloadType == audio.trackId then
                ParsedHeader(AudioPacket, RtpPacketInfo(number, InMilliseconds(timestamp, audio.timescale)), true)
              else ParsedHeader(UnknownPacket, RtpPacketInfo(number, timestamp), false)
  {
    hide InMilliseconds;
    var data := Header(first, marker, payloadType, number, timestamp) + rest;
    TimestampBytes(timestamp);
    assert Word(data[4], data[5]) * 0x1_0000 + Word(data[6], data[7]) == timestamp;
    assert Word(data[2], data[3]) == number;
  }

  /** Milliseconds, without the name above: with `k` ticks a millisecond, as far as the timescale says, a
      timestamp becomes the number of whole milliseconds; a timescale below 1000 leaves it as it is. */
  lemma MillisecondsAre(timestamp: uint32, timescale: uint32, k: nat)
    requires 1000 * k <= timescale < 1000 * k + 1000
    ensures var r: int := InMilliseconds(timestamp, timescale);
            if k == 0 then r == timestamp else r * k <= timestamp < r * k + k
  {
    assert timescale / 1000 == k;
    if k > 0 { DivisionIs(timestamp, k); }
  }

  lemma DivisionIs(x: int, k: int)
    requires k > 0
    ensures x / k * k <= x < x / k * k + k
  {
    assert x == x / k * k + x % k;
  }

  lemma TimestampBytes(t: uint32)
    ensures Word(t / 0x100_0000, t / 0x1_0000 % 0x100) == t / 0x1_0000
    ensures Word(t / 0x100 % 0x100, t % 0x100) == t % 0x1_0000
  {
    HighWord(t);
    LowWord(t);
  }

  lemma HighWord(t: uint32)
    ensures t / 0x100_0000 * 0x100 + t / 0x1_0000 % 0x100 == t / 0x1_0000
  {
    assert t / 0x1_0000 / 0x100 == t / 0x100_0000;
  }

  lemma LowWord(t: uint32)
    ensures t / 0x100 % 0x100 * 0x100 + t % 0x100 == t % 0x1_0000
  {
    assert t / 0x100 == t / 0x1_0000 * 0x100 + t / 0x100 % 0x100 by {
      assert t / 0x100 / 0x100 == t / 0x1_0000;
    }
  }

  // ---------------------------------------------------------------- one packet

  /** The losses counted between two 16-bit sequence numbers. */
  function Loss(last: int, current: int): int {
    var unwrapped := if last > 0xff00 && current < 0xf000 then current + 0xffff else current;
    if unwrapped > last + 1 then unwrapped - (last + 1) else 0
  }

  predicate Begins(t: Track, p: RtpPacketInfo, startTime: int, now: int) {
    !t.started && t.lastTimestamp != 0 && t.lastTimestamp < p.timestamp && now - startTime > TRAFFIC_COLLECT_MIN_START_TIME
  }

  function Begin(t: Track, p: RtpPacketInfo, time: int): Track {
    Track(true, p.timestamp, time, p.timestamp, time, p.sequenceNumber, p.timestamp, time, t.data)
  }

  /** Counting of a packet on a started track; a video packet of the same frame counts losses, an
      audio packet with the same timestamp does not. */
  function Count(t: Track, p: RtpPacketInfo, time: int, sameFrameCounts: bool): Track {
    var d := t.data.(packetCount := ToInt32(t.data.packetCount + 1));
    var lossy := d.(packetLossCount := ToInt32(d.packetLossCount + Loss(t.lastSequenceNumber, p.sequenceNumber)));
    if t.lastTimestamp < p.timestamp then
      t.(lastSequenceNumber := p.sequenceNumber, lastTimestamp := p.timestamp, lastTime := time,
         data := lossy.(frameCount := ToInt32(lossy.frameCount + 1)))
    else if sameFrameCounts && t.lastTimestamp == p.timestamp then
      t.(lastSequenceNumber := p.sequenceNumber, lastTime := time, data := lossy)
    else
      t.(data := d)
  }

  /** A packet before measuring starts. */
  function Wait(t: Track, p: RtpPacketInfo, time: int): Track { t.(lastTimestamp := p.timestamp, lastTime := time) }

  function StartClock(startTime: int, now: int): int { if startTime == 0 then now else startTime }

  function VideoStep(s: Traffic, p: RtpPacketInfo, time: int, now: int): Traffic {
    if Begins(s.video, p, s.startTime, now) then s.(video := Begin(s.video, p, time))
    else if !s.video.started then s.(video := Wait(s.video, p, time), startTime := StartClock(s.startTime, now))
    else
      var counted := s.(video := Count(s.video, p, time, true));
      if s.video.lastTimestamp < p.timestamp then counted.(videoChangeTimestamp := p.timestamp, videoChangedTime := time)
      else counted
  }

  /** Unlike video, the packet that starts the measuring is itself counted. */
  function AudioStep(s: Traffic, p: RtpPacketInfo, time: int, now: int): Traffic {
    if Begins(s.audio, p, s.startTime, now) then s.(audio := Count(Begin(s.audio, p, time), p, time, false))
    else if !s.audio.started then s.(audio := Wait(s.audio, p, time), startTime := StartClock(s.startTime, now))
    else s.(audio := Count(s.audio, p, time, false))
  }

  // ---------------------------------------------------------------- collection

  function VideoDuration(s: Traffic): uint32 { ToUInt32(s.videoChangedTime - s.video.collectStartTime) }

  function AudioDuration(s: Traffic): uint32 { ToUInt32(s.audio.lastTime - s.audio.collectStartTime) }

  predicate Collectable(s: Traffic) {
    && s.video.started && s.audio.started
    && VideoDuration(s) >= TRAFFIC_COLLECT_MIN_DURATION
    && AudioDuration(s) >= TRAFFIC_COLLECT_MIN_DURATION
  }

  function Collected(s: Traffic): Window {
    Window(
      s.video.data.(duration := VideoDuration(s),
                    latency := ToInt32(s.videoChangedTime - s.video.startTime
                                       - ToUInt32(s.videoChangeTimestamp - s.video.startTimestamp))),
      s.audio.data.(duration := AudioDuration(s),
                    latency := ToInt32(s.audio.lastTime - s.audio.startTime
                                       - ToUInt32(s.audio.lastTimestamp - s.audio.startTimestamp))))
  }

  function CollectStep(s: Traffic): Traffic {
    if !s.video.started || !s.audio.started then s
    else
      var timed := s.(video := s.video.(data := s.video.data.(duration := VideoDuration(s))),
                      audio := s.audio.(data := s.audio.data.(duration := AudioDuration(s))));
      if !Collectable(s) then timed
      else
        s.(video := s.video.(collectStartTimestamp := s.videoChangeTimestamp, collectStartTime := s.videoChangedTime,
                             data := Collected(s).video.Clear()),
           audio := s.audio.(collectStartTimestamp := s.audio.lastTimestamp, collectStartTime := s.audio.lastTime,
                             data := Collected(s).audio.Clear()))
  }

  /** The accounting part of `DtlsTransport`. The `_video_` and `_audio_` fields are grouped in two
      records; the clock `time(nullptr)` is the parameter `now`. */
  class DtlsTransport {
    var startTime: int
    var video: Track
    var audio: Track
    var videoChangeTimestamp: uint32
    var videoChangedTime: int

    ghost function View(): Traffic
      reads this
    {
      Traffic(startTime, video, audio, videoChangeTimestamp, videoChangedTime)
    }

    constructor ()
      ensures View() == INITIAL
    {
      startTime, video, audio, videoChangeTimestamp, videoChangedTime := 0, NO_TRACK, NO_TRACK, 0, 0;
    }

    method SetVideoTraffic(packet: RtpPacketInfo, currentTime: int, now: int)
      modifies this
      ensures View() == VideoStep(old(View()), packet, currentTime, now)
    {
      hide ToInt32;
      if !video.started && video.lastTimestamp != 0 && video.lastTimestamp < packet.timestamp
         && now - startTime > TRAFFIC_COLLECT_MIN_START_TIME {
        video := video.(started := true,
                        startTimestamp := packet.timestamp, startTime := currentTime,
                        collectStartTimestamp := packet.timestamp, collectStartTime := currentTime,
                        lastSequenceNumber := packet.sequenceNumber,
                        lastTimestamp := packet.timestamp, lastTime := currentTime);
        return;
      }
      if !video.started {
        video := video.(lastTimestamp := packet.timestamp, lastTime := currentTime);
        if startTime == 0 { startTime := now; }
        return;
      }
      var last := video.lastSequenceNumber;
      var current: int := packet.sequenceNumber;
      if last > 0xff00 && current < 0xf000 { current := current + 0xffff; }
      var data := video.data;
      data := data.(packetCount := ToInt32(data.packetCount + 1));
      if video.lastTimestamp < packet.timestamp {
        data := data.(frameCount := ToInt32(data.frameCount + 1));
        if current > last + 1 {
          data := data.(packetLossCount := ToInt32(data.packetLossCount + (current - (last + 1))));
        }
        video := video.(lastSequenceNumber := packet.sequenceNumber, lastTimestamp := packet.timestamp,
                        lastTime := currentTime, data := data);
        videoChangeTimestamp, videoChangedTime := packet.timestamp, currentTime;
      } else if video.lastTimestamp == packet.timestamp {
        if current > last + 1 {
          data := data.(packetLossCount := ToInt32(data.packetLossCount + (current - (last + 1))));
        }
        video := video.(lastSequenceNumber := packet.sequenceNumber, lastTimestamp := packet.timestamp,
                        lastTime := currentTime, data := data);
      } else {
        video := video.(data := data);
      }
    }

    method SetAudioTraffic(packet: RtpPacketInfo, currentTime: int, now: int)
      modifies this
      ensures View() == AudioStep(old(View()), packet, currentTime, now)
    {
      hide ToInt32;
      if !audio.started && audio.lastTimestamp != 0 && audio.lastTimestamp < packet.timestamp
         && now - startTime > TRAFFIC_COLLECT_MIN_START_TIME {
        audio := audio.(started := true,
                        startTimestamp := packet.timestamp, startTime := currentTime,
                        collectStartTimestamp := packet.timestamp, collectStartTime := currentTime,
                        lastSequenceNumber := packet.sequenceNumber,
                        lastTimestamp := packet.timestamp, lastTime := currentTime);
      }
      if !audio.started {
        audio := audio.(lastTimestamp := packet.timestamp, lastTime := currentTime);
        if startTime == 0 { startTime := now; }
        return;
      }
      var last := audio.lastSequenceNumber;
      var current: int := packet.sequenceNumber;
      if last > 0xff00 && current < 0xf000 { current := current + 0xffff; }
      var data := audio.data;
      data := data.(packetCount := ToInt32(data.packetCount + 1));
      if audio.lastTimestamp < packet.timestamp {
        data := data.(frameCount := ToInt32(data.frameCount + 1));
        if current > last + 1 {
          data := data.(packetLossCount := ToInt32(data.packetLossCount + (current - (last + 1))));
        }
        audio := audio.(lastSequenceNumber := packet.sequenceNumber, lastTimestamp := packet.timestamp,
                        lastTime := currentTime, data := data);
      } else {
        audio := audio.(data := data);
      }
    }

    method GetTrafficCollectData() returns (data: Option<Window>)
      modifies this
      ensures View() == CollectStep(old(View()))
      ensures data == if Collectable(old(View())) then Some(Collected(old(View()))) else None
    {
      hide ToInt32, ToUInt32;
      if !video.started || !audio.started { return None; }
      var videoData := video.data.(duration := ToUInt32(videoChangedTime - video.collectStartTime));
      var audioData := audio.data.(duration := ToUInt32(audio.lastTime - audio.collectStartTime));
      if videoData.duration < TRAFFIC_COLLECT_MIN_DURATION || audioData.duration < TRAFFIC_COLLECT_MIN_DURATION {
        video := video.(data := videoData);
        audio := audio.(data := audioData);
        return None;
      }
      videoData := videoData.(latency :=
        ToInt32((videoChangedTime - video.startTime) - ToUInt32(videoChangeTimestamp - video.startTimestamp)));
      audioData := audioData.(latency :=
        ToInt32((audio.lastTime - audio.startTime) - ToUInt32(audio.lastTimestamp - audio.startTimestamp)));
      data := Some(Window(videoData, audioData));
      video := video.(collectStartTimestamp := videoChangeTimestamp, collectStartTime := videoChangedTime,
                      data := videoData.Clear());
      audio := audio.(collectStartTimestamp := audio.lastTimestamp, collectStartTime := audio.lastTime,
                      data := audioData.Clear());
    }
  }
}
