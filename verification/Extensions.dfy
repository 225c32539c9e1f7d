/**
 ut_metadata messages (src/librats/bittorrent/extensions.cpp; "extension message" in BEP 9): a bencoded
 header and, in a data message, a raw block after it, with nothing but the header's own syntax to mark
 where it ends.
 */
module Extensions {
  import opened Bytes
  import opened Bencode
  import opened Dictionary
  import opened Scanners

  const PIECE: Bytes := [112, 105, 101, 99, 101]                              // "piece"
  const MSG_TYPE: Bytes := [109, 115, 103, 95, 116, 121, 112, 101]            // "msg_type"
  const TOTAL_SIZE: Bytes := [116, 111, 116, 97, 108, 95, 115, 105, 122, 101]  // "total_size"

  const TWO_8: int := 0x100

  // ---- ut_metadata ----

  const REQUEST: int := 0
  const DATA: int := 1
  const REJECT: int := 2

  datatype MetadataMessage = MetadataMessage(kind: int, piece: nat, totalSize: nat, block: Bytes)

  function Header(kind: int, piece: nat): Value
  {
    Dict(Build([Entry(MSG_TYPE, Int(kind)), Entry(PIECE, Int(piece))]))
  }

  function DataHeader(piece: nat, totalSize: nat): Value
  {
    Dict(Build([Entry(MSG_TYPE, Int(DATA)), Entry(PIECE, Int(piece)), Entry(TOTAL_SIZE, Int(totalSize))]))
  }

  function EncodeMetadataRequest(piece: nat): Bytes { Encode(Header(REQUEST, piece)) }

  function EncodeMetadataReject(piece: nat): Bytes { Encode(Header(REJECT, piece)) }

  function EncodeMetadataData(piece: nat, totalSize: nat, block: Bytes): Bytes
  {
    Encode(DataHeader(piece, totalSize)) + block
  }

  /** Casts of int64 to an unsigned type keep the low bits. */
  function DecodeMetadata(payload: Bytes): Option<MetadataMessage>
  {
    var n := ValueLength(payload, 0);
    if n == 0 then None
    else
      match Decode(payload[..n])
      case Fail => None
      case Ok(d, _) =>
        match (FindInt(d, MSG_TYPE), FindInt(d, PIECE))
        case (Some(kind), Some(piece)) =>
          var k := kind % TWO_8;
          if k == DATA then
            var ts := FindInt(d, TOTAL_SIZE);
            Some(MetadataMessage(k, piece % TWO_32, if ts.Some? then ts.value % TWO_32 else 0, payload[n..]))
          else Some(MetadataMessage(k, piece % TWO_32, 0, []))
        case _ => None
  }

  /** The field names and the message types of BEP 9. */
  lemma FieldNames()
    ensures REQUEST == 0 && DATA == 1 && REJECT == 2
    ensures PIECE == Text("piece") && MSG_TYPE == Text("msg_type") && TOTAL_SIZE == Text("total_size")
  {
  }

  /** A header in front of any bytes is found, cut out and decoded. */
  lemma HeaderSplits(v: Value, block: Bytes)
    requires Good(v, 0) && |Encode(v) + block| < TWO_64
    ensures Encode(v) != [] && ValueLength(Encode(v) + block, 0) == |Encode(v)|
    ensures Decode((Encode(v) + block)[..|Encode(v)|]) == Ok(v, |Encode(v)|)
    ensures (Encode(v) + block)[|Encode(v)|..] == block
  {
    FirstByte(v);
    LengthOfEncoding(v, block);
    DecodeEncode(v);
    assert (Encode(v) + block)[..|Encode(v)|] == Encode(v);
  }

  /** Whatever value heads a message, and whatever follows it: the message is refused if and only if the header lacks
      an integer type or piece number; the type counts modulo 256 and the numbers modulo 2^32, a missing size is 0,
      and exactly a data message carries what follows. */
  lemma AnyHeader(v: Value, block: Bytes)
    requires Good(v, 0) && |Encode(v) + block| < TWO_64
    ensures var r := DecodeMetadata(Encode(v) + block);
            && (r.None? <==> FindInt(v, MSG_TYPE).None? || FindInt(v, PIECE).None?)
            && (r.Some? ==>
                  && r.value.kind == FindInt(v, MSG_TYPE).value % 256
                  && r.value.piece == FindInt(v, PIECE).value % 0x1_0000_0000
                  && (r.value.kind != 1 ==> r.value.totalSize == 0 && r.value.block == [])
                  && (r.value.kind == 1 ==>
                        && r.value.block == block
                        && r.value.totalSize == match FindInt(v, TOTAL_SIZE)
                                                case Some(n) => n % 0x1_0000_0000
                                                case None => 0))
  {
    HeaderSplits(v, block);
  }

  /** What a message with header `v` decodes to depends only on the header's fields. */
  lemma HeaderDecodes(v: Value, block: Bytes, kind: int, piece: nat)
    requires Good(v, 0) && |Encode(v) + block| < TWO_64
    requires FindInt(v, MSG_TYPE) == Some(kind) && FindInt(v, PIECE) == Some(piece)
    requires 0 <= kind < TWO_8 && kind != DATA && piece < TWO_32
    ensures DecodeMetadata(Encode(v) + block) == Some(MetadataMessage(kind, piece, 0, []))
  {
    HeaderSplits(v, block);
  }

  lemma DataHeaderDecodes(v: Value, block: Bytes, piece: nat, totalSize: nat)
    requires Good(v, 0) && |Encode(v) + block| < TWO_64
    requires FindInt(v, MSG_TYPE) == Some(DATA) && FindInt(v, PIECE) == Some(piece)
    requires FindInt(v, TOTAL_SIZE) == Some(totalSize) && piece < TWO_32 && totalSize < TWO_32
    ensures DecodeMetadata(Encode(v) + block) == Some(MetadataMessage(DATA, piece, totalSize, block))
  {
    HeaderSplits(v, block);
  }

  /** Reading a header's fields back. */
  lemma HeaderMeans(kind: int, piece: nat)
    requires 0 <= kind < TWO_8 && piece < TWO_32
    ensures var v := Header(kind, piece);
            Good(v, 0) && FindInt(v, MSG_TYPE) == Some(kind) && FindInt(v, PIECE) == Some(piece)
  {
    var fields := [Entry(MSG_TYPE, Int(kind)), Entry(PIECE, Int(piece))];
    BuildGood(fields, 0);
    FindAssigned(fields, 0);
    FindAssigned(fields, 1);
  }

  lemma DataHeaderMeans(piece: nat, totalSize: nat)
    requires piece < TWO_32 && totalSize < TWO_32
    ensures var v := DataHeader(piece, totalSize);
            && Good(v, 0)
            && FindInt(v, MSG_TYPE) == Some(DATA)
            && FindInt(v, PIECE) == Some(piece)
            && FindInt(v, TOTAL_SIZE) == Some(totalSize)
  {
    var fields := [Entry(MSG_TYPE, Int(DATA)), Entry(PIECE, Int(piece)), Entry(TOTAL_SIZE, Int(totalSize))];
    BuildGood(fields, 0);
    FindAssigned(fields, 0);
    FindAssigned(fields, 1);
    FindAssigned(fields, 2);
  }

  /** A data message carries any block unchanged, whatever its bytes look like. */
  lemma MetadataDataRoundTrip(piece: nat, totalSize: nat, block: Bytes)
    requires piece < TWO_32 && totalSize < TWO_32
    requires |EncodeMetadataData(piece, totalSize, block)| < TWO_64
    ensures DecodeMetadata(EncodeMetadataData(piece, totalSize, block)) ==
            Some(MetadataMessage(DATA, piece, totalSize, block))
  {
    DataHeaderMeans(piece, totalSize);
    DataHeaderDecodes(DataHeader(piece, totalSize), block, piece, totalSize);
  }

  lemma MetadataControlRoundTrip(piece: nat)
    requires piece < TWO_32
    requires |EncodeMetadataRequest(piece)| < TWO_64 && |EncodeMetadataReject(piece)| < TWO_64
    ensures DecodeMetadata(EncodeMetadataRequest(piece)) == Some(MetadataMessage(REQUEST, piece, 0, []))
    ensures DecodeMetadata(EncodeMetadataReject(piece)) == Some(MetadataMessage(REJECT, piece, 0, []))
  {
    assert EncodeMetadataRequest(piece) + [] == EncodeMetadataRequest(piece);
    assert EncodeMetadataReject(piece) + [] == EncodeMetadataReject(piece);
    HeaderMeans(REQUEST, piece);
    HeaderDecodes(Header(REQUEST, piece), [], REQUEST, piece);
    HeaderMeans(REJECT, piece);
    HeaderDecodes(Header(REJECT, piece), [], REJECT, piece);
  }
}
