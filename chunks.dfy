/**
 * Decoding of GVSP chunk payloads (`decode_raw_chunks`) over the raw chunk
 * list the stream parser yields: four known SFNC chunk ids, unknown ids
 * skipped, the first malformed known chunk failing the whole decode.
 */
module Chunks {
  import opened Bytes
  import opened Wrappers

  const TIMESTAMP: u16 := 0x0001
  const EXPOSURE_TIME: u16 := 0x0002
  const GAIN: u16 := 0x0003
  const LINE_STATUS_ALL: u16 := 0x0004

  /** A chunk as the stream parser hands it over. */
  datatype ChunkRaw = ChunkRaw(id: u16, data: seq<u8>)

  datatype ChunkKind = Timestamp | ExposureTime | Gain | LineStatusAll

  /** Decoded values; exposure and gain are `f64`, kept as their IEEE-754 bit pattern. */
  datatype ChunkValue = TimestampValue(ticks: u64) | ExposureTimeBits(bits: u64) | GainBits(bits: u64)
                      | LineStatusValue(lines: u64)

  /** `Gvsp` is a framing error of the chunk parser, which is not part of this model. */
  datatype ChunkError = Gvsp(reason: string) | InvalidPayload(id: u16)

  type ChunkMap = map<ChunkKind, ChunkValue>

  function KindOf(id: u16): (k: Option<ChunkKind>)
    ensures k.Some? <==> 1 <= id <= 4
  {
    if id == TIMESTAMP then Some(Timestamp)
    else if id == EXPOSURE_TIME then Some(ExposureTime)
    else if id == GAIN then Some(Gain)
    else if id == LINE_STATUS_ALL then Some(LineStatusAll)
    else None
  }

  function Zeros(n: nat): (r: seq<u8>)
    ensures |r| == n && forall i :: 0 <= i < n ==> r[i] == 0
  {
    if n == 0 then [] else Zeros(n - 1) + [0]
  }

  lemma DropLast<T>(p: seq<T>, x: T)
    ensures (p + [x])[..|p + [x]| - 1] == p
  {
  }

  lemma {:induction false} BeValueZeros(n: nat)
    ensures BeValue(Zeros(n)) == 0
  {
    if n > 0 {
      BeValueZeros(n - 1);
      DropLast(Zeros(n - 1), 0);
    }
  }


  /** The 8-byte buffer of a LineStatusAll chunk: at most 8 data bytes, then zeros. */
  function LineBuffer(data: seq<u8>): (r: seq<u8>)
    ensures |r| == 8
  {
    data[..MinNat(|data|, 8)] + Zeros(8 - MinNat(|data|, 8))
  }

  /**
   * The copy into the zeroed 8-byte array `bytes` of the source:
   * `bytes[..len].copy_from_slice(&data[..len])`.
   */
  method FillLineBuffer(data: seq<u8>) returns (bytes: array<u8>)
    ensures fresh(bytes) && bytes[..] == LineBuffer(data)
  {
    bytes := new u8[8](_ => 0);
    var len := MinNat(|data|, 8);
    for j := 0 to len
      invariant forall k :: 0 <= k < j ==> bytes[k] == data[k]
      invariant forall k :: j <= k < 8 ==> bytes[k] == 0
    {
      bytes[j] := data[j];
    }
    assert bytes[..] == LineBuffer(data);
  }

  /**
   * The line status read from the buffer: a chunk shorter than 8 bytes is
   * left-aligned, its bytes forming the most significant part.
   */
  lemma LineStatusAligned(data: seq<u8>)
    ensures BeValue(LineBuffer(data)) == BeValue(data[..MinNat(|data|, 8)]) * Pow2(8 * (8 - MinNat(|data|, 8)))
    ensures |data| >= 8 ==> BeValue(LineBuffer(data)) == ReadU64(data, 0)
  {
    var l := MinNat(|data|, 8);
    BeValueAppend(data[..l], Zeros(8 - l));
    BeValueZeros(8 - l);
    if |data| >= 8 {
      assert Zeros(0) == [];
      assert LineBuffer(data) == data[0..8];
    }
  }

  /** A one-byte LineStatusAll chunk 0x01 reads as 0x0100_0000_0000_0000. */
  lemma LineStatusOneByteExample()
    ensures BeValue(LineBuffer([0x01])) == 0x0100_0000_0000_0000
  {
    LineStatusAligned([0x01]);
    assert [0x01][..1] == [0x01];
    assert BeValue([0x01]) == BeValue([]) * 0x100 + 1;
    Pow2Of32();
    Pow2Add(32, 24);
    Pow2Add(16, 8);
    Pow2Add(8, 8);
  }

  /**
   * The decoding of one known chunk: Timestamp, ExposureTime and Gain need
   * exactly 8 bytes; LineStatusAll takes any length.
   */
  function DecodeChunk(c: ChunkRaw, kind: ChunkKind): (r: Result<ChunkValue, ChunkError>)
    requires KindOf(c.id) == Some(kind)
    ensures r.Err? <==> kind != LineStatusAll && |c.data| != 8
    ensures r.Err? ==> r.error == InvalidPayload(c.id)
  {
    match kind
    case Timestamp => if |c.data| != 8 then Err(InvalidPayload(c.id)) else Ok(TimestampValue(ReadU64(c.data, 0)))
    case ExposureTime => if |c.data| != 8 then Err(InvalidPayload(c.id)) else Ok(ExposureTimeBits(ReadU64(c.data, 0)))
    case Gain => if |c.data| != 8 then Err(InvalidPayload(c.id)) else Ok(GainBits(ReadU64(c.data, 0)))
    case LineStatusAll =>
      BeValueBound(LineBuffer(c.data));
      Pow2Of64();
      Ok(LineStatusValue(BeValue(LineBuffer(c.data))))
  }

  /** A known chunk whose payload is rejected. */
  predicate Invalid(c: ChunkRaw)
  {
    KindOf(c.id).Some? && DecodeChunk(c, KindOf(c.id).value).Err?
  }

  /** The map after the chunks, in order, each known one overwriting its kind; or the first error. */
  function DecodeAll(chunks: seq<ChunkRaw>): Result<ChunkMap, ChunkError>
  {
    if |chunks| == 0 then Ok(map[])
    else
      var last := chunks[|chunks| - 1];
      match DecodeAll(chunks[..|chunks| - 1])
      case Err(e) => Err(e)
      case Ok(m) =>
        match KindOf(last.id)
        case None => Ok(m)
        case Some(kind) =>
          match DecodeChunk(last, kind)
          case Err(e) => Err(e)
          case Ok(v) => Ok(m[kind := v])
  }

  /** `decode_raw_chunks`: one pass inserting into the map, returning early on the first bad chunk. */
  method DecodeRawChunks(chunks: seq<ChunkRaw>) returns (r: Result<ChunkMap, ChunkError>)
    ensures r == DecodeAll(chunks)
  {
    var m: ChunkMap := map[];
    for i := 0 to |chunks|
      invariant DecodeAll(chunks[..i]) == Ok(m)
    {
      var chunk := chunks[i];
      assert chunks[..i + 1][..i] == chunks[..i];
      match KindOf(chunk.id)
      case None =>
      case Some(kind) =>
        if kind == LineStatusAll {
          var bytes := FillLineBuffer(chunk.data);
          BeValueBound(bytes[..]);
          Pow2Of64();
          m := m[LineStatusAll := LineStatusValue(BeValue(bytes[..]))];
        } else {
          if |chunk.data| != 8 {
            ErrorSticks(chunks, i + 1);
            return Err(InvalidPayload(chunk.id));
          }
          var value := ReadU64(chunk.data, 0);
          m := m[kind := match kind
            case Timestamp => TimestampValue(value)
            case ExposureTime => ExposureTimeBits(value)
            case _ => GainBits(value)];
        }
    }
    assert chunks[..|chunks|] == chunks;
    r := Ok(m);
  }

  /** Once a prefix fails, the whole decode fails with the same error. */
  lemma {:induction false} ErrorSticks(chunks: seq<ChunkRaw>, i: nat)
    requires i <= |chunks| && DecodeAll(chunks[..i]).Err?
    ensures DecodeAll(chunks) == DecodeAll(chunks[..i])
  {
    if i < |chunks| {
      var p := chunks[..|chunks| - 1];
      assert p[..i] == chunks[..i];
      ErrorSticks(p, i);
    } else {
      assert chunks[..i] == chunks;
    }
  }

  /** The decode fails exactly when some known chunk is malformed, and then with the first such chunk's id. */
  lemma {:induction false} DecodeAllError(chunks: seq<ChunkRaw>)
    ensures DecodeAll(chunks).Err? <==> exists i :: 0 <= i < |chunks| && Invalid(chunks[i])
    ensures DecodeAll(chunks).Err? ==>
      exists i :: 0 <= i < |chunks| && Invalid(chunks[i]) && DecodeAll(chunks).error == InvalidPayload(chunks[i].id)
        && forall j :: 0 <= j < i ==> !Invalid(chunks[j])
  {
    if |chunks| > 0 {
      var p := chunks[..|chunks| - 1];
      DecodeAllError(p);
      assert forall i :: 0 <= i < |p| ==> p[i] == chunks[i];
      if DecodeAll(p).Err? {
        var i :| 0 <= i < |p| && Invalid(p[i]) && DecodeAll(p).error == InvalidPayload(p[i].id)
          && forall j :: 0 <= j < i ==> !Invalid(p[j]);
        assert Invalid(chunks[i]);
      } else {
        assert !Invalid(chunks[|chunks| - 1]) ==> forall i :: 0 <= i < |chunks| ==> !Invalid(chunks[i]);
      }
    }
  }

  /** The chunk at index i is the last one of its kind. */
  predicate LastOfKind(chunks: seq<ChunkRaw>, i: nat, kind: ChunkKind)
    requires i < |chunks|
  {
    KindOf(chunks[i].id) == Some(kind) && forall j :: i < j < |chunks| ==> KindOf(chunks[j].id) != Some(kind)
  }

  /** A successful decode is the decode of all chunks but the last, updated by the last one if its kind is known. */
  lemma DecodeAllLast(chunks: seq<ChunkRaw>)
    requires |chunks| > 0 && DecodeAll(chunks).Ok?
    ensures var n := |chunks| - 1;
      && DecodeAll(chunks[..n]).Ok?
      && (KindOf(chunks[n].id).None? ==> DecodeAll(chunks).value == DecodeAll(chunks[..n]).value)
      && (KindOf(chunks[n].id).Some? ==>
            && DecodeChunk(chunks[n], KindOf(chunks[n].id).value).Ok?
            && DecodeAll(chunks).value
               == DecodeAll(chunks[..n]).value[KindOf(chunks[n].id).value := DecodeChunk(chunks[n], KindOf(chunks[n].id).value).value])
  {
  }

  /** A successful decode has an entry exactly for the kinds that occur. */
  lemma {:induction false} DecodeAllKinds(chunks: seq<ChunkRaw>, kind: ChunkKind)
    requires DecodeAll(chunks).Ok?
    ensures kind in DecodeAll(chunks).value <==> exists i :: 0 <= i < |chunks| && KindOf(chunks[i].id) == Some(kind)
  {
    if |chunks| > 0 {
      var n := |chunks| - 1;
      var p := chunks[..n];
      DecodeAllLast(chunks);
      DecodeAllKinds(p, kind);
      if exists i :: 0 <= i < |chunks| && KindOf(chunks[i].id) == Some(kind) {
        var i :| 0 <= i < |chunks| && KindOf(chunks[i].id) == Some(kind);
        if i < n {
          assert KindOf(p[i].id) == Some(kind);
        }
      }
      if exists i :: 0 <= i < n && KindOf(p[i].id) == Some(kind) {
        var i :| 0 <= i < n && KindOf(p[i].id) == Some(kind);
        assert KindOf(chunks[i].id) == Some(kind);
      }
    }
  }

  /** Each entry of a successful decode is the decoding of the last chunk of that kind. */
  lemma {:induction false} DecodeAllLastWins(chunks: seq<ChunkRaw>, kind: ChunkKind)
    requires DecodeAll(chunks).Ok?
    ensures kind in DecodeAll(chunks).value ==>
      exists i :: 0 <= i < |chunks| && LastOfKind(chunks, i, kind)
        && DecodeChunk(chunks[i], kind) == Ok(DecodeAll(chunks).value[kind])
  {
    if |chunks| > 0 {
      var n := |chunks| - 1;
      var p := chunks[..n];
      DecodeAllLast(chunks);
      if KindOf(chunks[n].id) == Some(kind) {
        assert LastOfKind(chunks, n, kind);
      } else if kind in DecodeAll(chunks).value {
        assert kind in DecodeAll(p).value;
        DecodeAllLastWins(p, kind);
        var i :| 0 <= i < n && LastOfKind(p, i, kind) && DecodeChunk(p[i], kind) == Ok(DecodeAll(p).value[kind]);
        LastOfKindExtend(chunks, i, kind);
      }
    }
  }

  /** The last of its kind among all but the last chunk stays so when the last chunk is of another kind. */
  lemma LastOfKindExtend(chunks: seq<ChunkRaw>, i: nat, kind: ChunkKind)
    requires 0 <= i < |chunks| - 1 && LastOfKind(chunks[..|chunks| - 1], i, kind)
    requires KindOf(chunks[|chunks| - 1].id) != Some(kind)
    ensures LastOfKind(chunks, i, kind)
  {
    var p := chunks[..|chunks| - 1];
    assert forall j :: i < j < |p| ==> p[j] == chunks[j];
  }

  /**
   * `parse_chunk_bytes`: the abstract chunk framing `parseChunks` splits the
   * bytes into raw chunks, which are then decoded.
   */
  function ParseChunkBytes(parseChunks: seq<u8> -> Result<seq<ChunkRaw>, string>, data: seq<u8>)
    : (r: Result<ChunkMap, ChunkError>)
    ensures parseChunks(data).Err? ==> r == Err(Gvsp(parseChunks(data).error))
    ensures parseChunks(data).Ok? ==> r == DecodeAll(parseChunks(data).value)
  {
    match parseChunks(data)
    case Err(e) => Err(Gvsp(e))
    case Ok(raw) => DecodeAll(raw)
  }

  /** Chunks with unknown ids leave the result as it is. */
  lemma SkipUnknown(chunks: seq<ChunkRaw>, c: ChunkRaw)
    requires KindOf(c.id).None?
    ensures DecodeAll(chunks + [c]) == DecodeAll(chunks)
  {
    assert (chunks + [c])[..|chunks|] == chunks;
  }
}
