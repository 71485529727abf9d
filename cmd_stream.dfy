/**
 * The receive loop of the `stream` command: a single block is assembled at
 * a time from Leader, Payload and Trailer packets, a matching trailer
 * emits a frame with the decoded chunk map, and at most `save` frames are
 * saved. Also the `--mode` option.
 */
module StreamCmd {
  import opened Bytes
  import opened Wrappers
  import opened Text
  import Chunks

  /** `GvspPacket` as the loop uses it; the trailer carries its raw chunk bytes. */
  datatype GvspPacket =
    | Leader(blockId: u16, packetId: u16, payloadType: u8, timestamp: u64, width: u32, height: u32, pixelFormat: u32)
    | Payload(blockId: u16, packetId: u16, data: seq<u8>)
    | Trailer(blockId: u16, packetId: u16, status: u16, chunkData: seq<u8>)

  /** `BlockState`: the block in progress. The pixel format keeps its raw code. */
  datatype BlockState = BlockState(blockId: u16, width: u32, height: u32, pixelFormat: u32, timestamp: u64,
                                   payload: seq<u8>)

  /** `Frame` as the loop builds it; the host timestamp is left out. */
  datatype Frame = Frame(payload: seq<u8>, width: u32, height: u32, pixelFormat: u32,
                         chunks: Option<Chunks.ChunkMap>, tsDev: u64)

  /** The chunk framing of the transport layer, which is not part of this model. */
  type ChunkParser = seq<u8> -> Result<seq<Chunks.ChunkRaw>, string>

  /** The chunk map of a trailer: none for empty chunk data or data that fails to decode. */
  function ChunkMapOf(parse: ChunkParser, data: seq<u8>): (r: Option<Chunks.ChunkMap>)
    ensures r.Some? ==> data != [] && Chunks.ParseChunkBytes(parse, data) == Ok(r.value)
    ensures r.None? ==> data == [] || Chunks.ParseChunkBytes(parse, data).Err?
  {
    if data == [] then None
    else
      match Chunks.ParseChunkBytes(parse, data)
      case Ok(m) => Some(m)
      case Err(_) => None
  }

  /** The block a leader opens: its metadata and an empty payload. */
  function Opened(p: GvspPacket): BlockState
    requires p.Leader?
  {
    BlockState(p.blockId, p.width, p.height, p.pixelFormat, p.timestamp, [])
  }

  /**
   * One packet's effect: the block in progress afterwards, and the block a
   * trailer completes.
   */
  function Step(state: Option<BlockState>, p: GvspPacket): (r: (Option<BlockState>, Option<BlockState>))
    ensures r.1.Some? ==> p.Trailer? && state.Some? && state.value.blockId == p.blockId && r.1 == state
  {
    match p
    case Leader(_, _, _, _, _, _, _) => (Some(Opened(p)), None)
    case Payload(b, _, data) =>
      (if state.Some? && state.value.blockId == b then Some(state.value.(payload := state.value.payload + data))
       else state, None)
    case Trailer(b, _, _, _) => (None, if state.Some? && state.value.blockId == b then state else None)
  }

  function FrameOf(b: BlockState, chunks: Option<Chunks.ChunkMap>): Frame
  {
    Frame(b.payload, b.width, b.height, b.pixelFormat, chunks, b.timestamp)
  }

  /** The frame a packet emits, if any. */
  function Emit(state: Option<BlockState>, p: GvspPacket, parse: ChunkParser): Option<Frame>
  {
    match Step(state, p).1
    case None => None
    case Some(b) => Some(FrameOf(b, ChunkMapOf(parse, p.chunkData)))
  }

  /** The block in progress after a sequence of packets. */
  function Run(state: Option<BlockState>, ps: seq<GvspPacket>): Option<BlockState>
  {
    if |ps| == 0 then state else Step(Run(state, ps[..|ps| - 1]), ps[|ps| - 1]).0
  }

  /** The frames a sequence of packets emits, in order. */
  function Frames(state: Option<BlockState>, ps: seq<GvspPacket>, parse: ChunkParser): seq<Frame>
  {
    if |ps| == 0 then []
    else
      var prefix := ps[..|ps| - 1];
      Frames(state, prefix, parse)
      + match Emit(Run(state, prefix), ps[|ps| - 1], parse) case None => [] case Some(f) => [f]
  }

  /** The data of the payload packets of block `id`, in arrival order. */
  function MatchingData(ps: seq<GvspPacket>, id: u16): seq<u8>
  {
    if |ps| == 0 then []
    else
      var last := ps[|ps| - 1];
      MatchingData(ps[..|ps| - 1], id) + (if last.Payload? && last.blockId == id then last.data else [])
  }

  /** Only payload packets. */
  predicate PayloadsOnly(ps: seq<GvspPacket>)
  {
    forall i :: 0 <= i < |ps| ==> ps[i].Payload?
  }

  /** A leader replaces whatever block was in progress by a fresh one and emits nothing. */
  lemma LeaderReplaces(state: Option<BlockState>, p: GvspPacket)
    requires p.Leader?
    ensures Step(state, p) == (Some(BlockState(p.blockId, p.width, p.height, p.pixelFormat, p.timestamp, [])), None)
  {
  }

  /** A trailer always ends the block in progress, and completes it only on a matching block id. */
  lemma TrailerEnds(state: Option<BlockState>, p: GvspPacket)
    requires p.Trailer?
    ensures Step(state, p).0.None?
    ensures Step(state, p).1.Some? <==> state.Some? && state.value.blockId == p.blockId
  {
  }

  /**
   * While payload packets arrive, the block keeps its metadata and its
   * payload grows by the data of exactly those for its block id, in order.
   */
  lemma {:induction false} RunAccumulates(s: BlockState, ps: seq<GvspPacket>)
    requires PayloadsOnly(ps)
    ensures Run(Some(s), ps) == Some(s.(payload := s.payload + MatchingData(ps, s.blockId)))
  {
    if |ps| == 0 {
      assert s.payload + [] == s.payload;
    } else {
      var prefix := ps[..|ps| - 1];
      assert PayloadsOnly(prefix) by {
        assert forall i :: 0 <= i < |prefix| ==> prefix[i] == ps[i];
      }
      RunAccumulates(s, prefix);
      var last := ps[|ps| - 1];
      assert last.Payload?;
      var extra := if last.blockId == s.blockId then last.data else [];
      assert MatchingData(ps, s.blockId) == MatchingData(prefix, s.blockId) + extra;
      assert s.payload + MatchingData(prefix, s.blockId) + extra == s.payload + MatchingData(ps, s.blockId);
      var mid := s.(payload := s.payload + MatchingData(prefix, s.blockId));
      assert Run(Some(s), ps) == Step(Run(Some(s), prefix), last).0;
      assert Run(Some(s), prefix) == Some(mid);
      assert mid.payload + [] == mid.payload;
      assert Step(Some(mid), last).0 == Some(mid.(payload := mid.payload + extra));
    }
  }

  /** Payload packets with no block in progress are dropped. */
  lemma {:induction false} RunIdle(ps: seq<GvspPacket>)
    requires PayloadsOnly(ps)
    ensures Run(None, ps) == None
  {
    if |ps| > 0 {
      var prefix := ps[..|ps| - 1];
      assert PayloadsOnly(prefix) by {
        assert forall i :: 0 <= i < |prefix| ==> prefix[i] == ps[i];
      }
      RunIdle(prefix);
      assert ps[|ps| - 1].Payload?;
    }
  }

  /** Without a trailer no frame is emitted. */
  lemma {:induction false} NoTrailerNoFrames(state: Option<BlockState>, ps: seq<GvspPacket>, parse: ChunkParser)
    requires forall i :: 0 <= i < |ps| ==> !ps[i].Trailer?
    ensures Frames(state, ps, parse) == []
  {
    if |ps| > 0 {
      var prefix := ps[..|ps| - 1];
      assert forall i :: 0 <= i < |prefix| ==> prefix[i] == ps[i];
      NoTrailerNoFrames(state, prefix, parse);
      assert !ps[|ps| - 1].Trailer?;
    }
  }

  /** The block after a leader and payload packets holds the matching data. */
  lemma RunAfterLeader(state: Option<BlockState>, leader: GvspPacket, ps: seq<GvspPacket>)
    requires leader.Leader? && PayloadsOnly(ps)
    ensures Run(state, [leader] + ps) == Some(Opened(leader).(payload := MatchingData(ps, leader.blockId)))
  {
    RunSplit(state, [leader], ps);
    assert Run(state, [leader]) == Some(Opened(leader)) by {
      assert [leader][..0] == [];
    }
    RunAccumulates(Opened(leader), ps);
    assert [] + MatchingData(ps, leader.blockId) == MatchingData(ps, leader.blockId);
  }

  /** Running over two sequences is running over the second from where the first ended. */
  lemma {:induction false} RunSplit(state: Option<BlockState>, a: seq<GvspPacket>, b: seq<GvspPacket>)
    ensures Run(state, a + b) == Run(Run(state, a), b)
  {
    if |b| == 0 {
      assert a + b == a;
    } else {
      assert (a + b)[..|a + b| - 1] == a + b[..|b| - 1];
      RunSplit(state, a, b[..|b| - 1]);
    }
  }

  /**
   * A leader, payload packets and a trailer of the same block give exactly
   * one frame: the leader's metadata, the payload data in arrival order and
   * the trailer's chunk map.
   */
  lemma OneBlockOneFrame(state: Option<BlockState>, leader: GvspPacket, ps: seq<GvspPacket>, trailer: GvspPacket,
                         parse: ChunkParser)
    requires leader.Leader? && PayloadsOnly(ps) && trailer.Trailer? && trailer.blockId == leader.blockId
    ensures Frames(state, [leader] + ps + [trailer], parse)
      == [Frame(MatchingData(ps, leader.blockId), leader.width, leader.height, leader.pixelFormat,
                ChunkMapOf(parse, trailer.chunkData), leader.timestamp)]
  {
    var all := [leader] + ps + [trailer];
    assert all[..|all| - 1] == [leader] + ps;
    RunAfterLeader(state, leader, ps);
    NoTrailerNoFrames(state, [leader] + ps, parse);
  }

  /** `run`'s loop state: the block in progress and the frame and save counters. */
  class Receiver {
    const save: nat
    var state: Option<BlockState>
    var savedFrames: nat
    var frameIndex: nat

    /** At most `save` frames are saved, and only emitted frames are. */
    ghost predicate Valid()
      reads this
    {
      savedFrames <= save && savedFrames <= frameIndex
    }

    constructor (save: nat)
      ensures Valid() && this.save == save && state.None? && savedFrames == 0 && frameIndex == 0
    {
      this.save := save;
      state := None;
      savedFrames := 0;
      frameIndex := 0;
    }

    /**
     * The handling of one parsed packet. `saveSucceeds` is whether writing
     * the image file would succeed; the file I/O is not part of this model.
     */
    method HandlePacket(p: GvspPacket, parse: ChunkParser, saveSucceeds: bool) returns (frame: Option<Frame>)
      requires Valid()
      modifies this
      ensures Valid()
      ensures state == Step(old(state), p).0
      ensures frame == Emit(old(state), p, parse)
      ensures frameIndex == old(frameIndex) + (if frame.Some? then 1 else 0)
      ensures savedFrames == old(savedFrames) + (if frame.Some? && old(savedFrames) < save && saveSucceeds then 1 else 0)
    {
      match p
      case Leader(b, _, _, ts, w, h, pf) =>
        state := Some(BlockState(b, w, h, pf, ts, []));
        frame := None;
      case Payload(b, _, data) =>
        if state.Some? && state.value.blockId == b {
          state := Some(state.value.(payload := state.value.payload + data));
        }
        frame := None;
      case Trailer(b, _, _, chunkData) =>
        var active := state;
        state := None;
        if active.None? || active.value.blockId != b {
          return None;
        }
        var chunks: Option<Chunks.ChunkMap> := None;
        if chunkData != [] {
          var parsed := Chunks.ParseChunkBytes(parse, chunkData);
          if parsed.Ok? {
            chunks := Some(parsed.value);
          }
        }
        var block := active.value;
        frame := Some(Frame(block.payload, block.width, block.height, block.pixelFormat, chunks, block.timestamp));
        frameIndex := frameIndex + 1;
        if savedFrames < save {
          if saveSucceeds {
            savedFrames := savedFrames + 1;
          }
        }
    }

    /** A run of packets, with the outcome of each save attempt given in order. */
    method Receive(packets: seq<GvspPacket>, parse: ChunkParser, saves: seq<bool>) returns (frames: seq<Frame>)
      requires Valid() && |saves| == |packets|
      modifies this
      ensures Valid()
      ensures state == Run(old(state), packets)
      ensures frames == Frames(old(state), packets, parse)
      ensures frameIndex == old(frameIndex) + |frames|
      ensures savedFrames - old(savedFrames) <= |frames|
    {
      frames := [];
      for i := 0 to |packets|
        invariant Valid()
        invariant state == Run(old(state), packets[..i])
        invariant frames == Frames(old(state), packets[..i], parse)
        invariant frameIndex == old(frameIndex) + |frames|
        invariant old(savedFrames) <= savedFrames && savedFrames - old(savedFrames) <= |frames|
      {
        assert packets[..i + 1][..i] == packets[..i];
        var f := HandlePacket(packets[i], parse, saves[i]);
        if f.Some? {
          frames := frames + [f.value];
        }
      }
      assert packets[..|packets|] == packets;
    }
  }

  /** The delivery mode of `--mode`. */
  datatype StreamMode = Unicast | Multicast

  /** `parse_mode`: "unicast" or "multicast", in any ASCII case. */
  function ParseMode(value: string): (r: Result<StreamMode, string>)
    ensures r == Ok(Unicast) <==> ToAsciiLower(value) == "unicast"
    ensures r == Ok(Multicast) <==> ToAsciiLower(value) == "multicast"
    ensures r.Err? <==> ToAsciiLower(value) != "unicast" && ToAsciiLower(value) != "multicast"
  {
    var lower := ToAsciiLower(value);
    if lower == "unicast" then Ok(Unicast)
    else if lower == "multicast" then Ok(Multicast)
    else Err("unknown stream mode '" + lower + "' (expected unicast or multicast)")
  }

  /** Case does not matter: an upper-cased or lower-cased option parses the same. */
  lemma ParseModeIgnoresCase(value: string)
    ensures ParseMode(ToAsciiUpper(value)) == ParseMode(value)
    ensures ParseMode(ToAsciiLower(value)) == ParseMode(value)
  {
    CaseOfCase(value);
    assert ToAsciiLower(ToAsciiLower(value)) == ToAsciiLower(value);
  }
}
