/**
 Fast-resume records (src/librats/bittorrent/resume_data.cpp): a torrent's state as one bencoded
 dictionary. A record is read back exactly, through the sorted dictionary, the bencode grammar, the
 packed bitfield and the signed storage of unsigned totals.
 */
module ResumeData {
  import opened Bytes
  import opened Bencode
  import opened Dictionary
  import opened Bitfield

  const FORMAT: Bytes := [102, 111, 114, 109, 97, 116]                              // "format"
  const VERSION: Bytes := [118, 101, 114, 115, 105, 111, 110]                       // "version"
  const INFO_HASH: Bytes := [105, 110, 102, 111, 45, 104, 97, 115, 104]             // "info-hash"
  const NAME: Bytes := [110, 97, 109, 101]                                          // "name"
  const SAVE_PATH: Bytes := [115, 97, 118, 101, 45, 112, 97, 116, 104]              // "save-path"
  const NUM_PIECES: Bytes := [110, 117, 109, 45, 112, 105, 101, 99, 101, 115]       // "num-pieces"
  const PIECES: Bytes := [112, 105, 101, 99, 101, 115]                              // "pieces"
  const UPLOADED: Bytes := [117, 112, 108, 111, 97, 100, 101, 100]                  // "uploaded"
  const DOWNLOADED: Bytes := [100, 111, 119, 110, 108, 111, 97, 100, 101, 100]      // "downloaded"

  /** "librats resume" */
  const FORMAT_TAG: Bytes := [108, 105, 98, 114, 97, 116, 115, 32, 114, 101, 115, 117, 109, 101]

  datatype ResumeData = ResumeData(
    infoHash: Bytes,
    name: Bytes,
    savePath: Bytes,
    have: seq<bool>,
    uploaded: nat,
    downloaded: nat,
    infoDict: Bytes)

  /** What the C++ types of the record allow. */
  predicate Typed(r: ResumeData)
  {
    |r.infoHash| == 20 && r.uploaded < TWO_64 && r.downloaded < TWO_64 && |r.have| <= INT64_MAX - 7
  }

  /** `std::int64_t` of a 64-bit unsigned value. */
  function Signed64(n: nat): (i: int)
    requires n < TWO_64
    ensures -MAX_MAGNITUDE <= i <= INT64_MAX && i % TWO_64 == n
  {
    if n < MAX_MAGNITUDE then n else n - TWO_64
  }

  function Fields(r: ResumeData): seq<Entry>
    requires Typed(r)
  {
    [ Entry(FORMAT, Str(FORMAT_TAG)),
      Entry(VERSION, Int(1)),
      Entry(INFO_HASH, Str(r.infoHash)),
      Entry(NAME, Str(r.name)),
      Entry(SAVE_PATH, Str(r.savePath)),
      Entry(NUM_PIECES, Int(|r.have|)),
      Entry(PIECES, Str(ToWire(r.have))),
      Entry(UPLOADED, Int(Signed64(r.uploaded))),
      Entry(DOWNLOADED, Int(Signed64(r.downloaded)))
    ] + if r.infoDict == [] then [] else [Entry(INFO, Str(r.infoDict))]
  }

  function EncodeResume(r: ResumeData): Bytes
    requires Typed(r)
  {
    Encode(Dict(Build(Fields(r))))
  }

  function StrOr(v: Value, key: Bytes, otherwise: Bytes): Bytes
  {
    var s := FindStr(v, key);
    if s.Some? then s.value else otherwise
  }

  function UnsignedOr0(v: Value, key: Bytes): nat
  {
    var i := FindInt(v, key);
    if i.Some? then i.value % TWO_64 else 0
  }

  function PieceCount(v: Value): nat
  {
    var n := FindInt(v, NUM_PIECES);
    if n.Some? && n.value >= 0 then n.value else 0
  }

  /** The record in a decoded dictionary: unknown, missing and mistyped fields keep their defaults. */
  function FromValue(v: Value): Option<ResumeData>
  {
    if FindStr(v, FORMAT) != Some(FORMAT_TAG) then None
    else
      var hash := FindStr(v, INFO_HASH);
      var pieces := FindStr(v, PIECES);
      var n := PieceCount(v);
      if pieces.Some? && (n + 7) / 8 != |pieces.value| then None
      else
        Some(ResumeData(
          if hash.Some? && |hash.value| == 20 then hash.value else seq(20, _ => 0),
          StrOr(v, NAME, []),
          StrOr(v, SAVE_PATH, []),
          if pieces.Some? then FromWire(pieces.value, n) else [],
          UnsignedOr0(v, UPLOADED),
          UnsignedOr0(v, DOWNLOADED),
          StrOr(v, INFO, [])))
  }

  function DecodeResume(data: Bytes): Option<ResumeData>
  {
    match Decode(data)
    case Ok(v, _) => FromValue(v)
    case Fail => None
  }

  // ---- reading other records ----

  /** The names of the fields. */
  lemma NamesOfText()
    ensures FORMAT == Text("format") && FORMAT_TAG == Text("librats resume") && NAME == Text("name")
    ensures SAVE_PATH == Text("save-path")
  {
  }

  lemma NamesOfNumbers()
    ensures VERSION == Text("version") && UPLOADED == Text("uploaded") && DOWNLOADED == Text("downloaded")
  {
  }

  lemma NamesOfPieces()
    ensures INFO_HASH == Text("info-hash") && NUM_PIECES == Text("num-pieces") && PIECES == Text("pieces")
  {
  }

  /** The bitfield has the length its piece count asks for. */
  ghost predicate BitfieldFits(v: Value)
  {
    match FindStr(v, PIECES)
    case None => true
    case Some(s) =>
      match FindInt(v, NUM_PIECES)
      case Some(n) => (if n < 0 then s == [] else n <= 8 * |s| < n + 8)
      case None => s == []
  }

  /** A dictionary is a record if and only if it carries the format tag and its bitfield, if any, fits the piece count;
      nothing else is required of it. */
  lemma RecordIff(v: Value)
    requires Good(v, 0)
    ensures DecodeResume(Encode(v)) == FromValue(v)
    ensures FromValue(v).Some? <==> FindStr(v, FORMAT) == Some(FORMAT_TAG) && BitfieldFits(v)
  {
    DecodeEncode(v);
  }

  /** Every field is read by itself: it counts if it has the right type, and otherwise keeps its default. */
  lemma FieldByField(v: Value)
    requires FromValue(v).Some?
    ensures var r := FromValue(v).value;
            && |r.infoHash| == 20 && (forall h :: FindStr(v, INFO_HASH) == Some(h) && |h| == 20 ==> r.infoHash == h)
            && r.name == GetOr(FindStr(v, NAME), []) && r.savePath == GetOr(FindStr(v, SAVE_PATH), [])
            && r.infoDict == GetOr(FindStr(v, INFO), [])
            && r.uploaded == GetOr(FindInt(v, UPLOADED), 0) % TWO_64
            && r.downloaded == GetOr(FindInt(v, DOWNLOADED), 0) % TWO_64
            && (FindStr(v, PIECES).None? ==> r.have == [])
            && (forall s :: FindStr(v, PIECES) == Some(s) ==> r.have == FromWire(s, |r.have|))
            && (FindStr(v, PIECES).Some? ==> |r.have| == Max(0, GetOr(FindInt(v, NUM_PIECES), 0)))
  {
  }

  // ---- round trip ----

  /** The stored fields, as lookups see them. */
  ghost predicate Stores(v: Value, r: ResumeData)
    requires Typed(r)
  {
    && FindStr(v, FORMAT) == Some(FORMAT_TAG)
    && FindStr(v, INFO_HASH) == Some(r.infoHash)
    && FindStr(v, NAME) == Some(r.name)
    && FindStr(v, SAVE_PATH) == Some(r.savePath)
    && FindInt(v, NUM_PIECES) == Some(|r.have|)
    && FindStr(v, PIECES) == Some(ToWire(r.have))
    && FindInt(v, UPLOADED) == Some(Signed64(r.uploaded))
    && FindInt(v, DOWNLOADED) == Some(Signed64(r.downloaded))
    && FindStr(v, INFO) == if r.infoDict == [] then None else Some(r.infoDict)
  }

  lemma StoredIsRead(v: Value, r: ResumeData)
    requires Typed(r) && Stores(v, r)
    ensures FromValue(v) == Some(r)
  {
    FromToWire(r.have);
  }

  /** No two fields share a key. */
  lemma DistinctKeys(r: ResumeData, i: nat)
    requires Typed(r) && i < |Fields(r)|
    ensures forall j :: i < j < |Fields(r)| ==> Fields(r)[j].key != Fields(r)[i].key
  {
  }

  lemma NoInfoKey(r: ResumeData)
    requires Typed(r) && r.infoDict == []
    ensures forall j :: 0 <= j < |Fields(r)| ==> Fields(r)[j].key != INFO
  {
  }

  /** So each field is read back as assigned. */
  lemma FieldRead(r: ResumeData, i: nat)
    requires Typed(r) && i < |Fields(r)|
    ensures Find(Build(Fields(r)), Fields(r)[i].key) == Found(Fields(r)[i].value)
  {
    DistinctKeys(r, i);
    FindAssigned(Fields(r), i);
  }

  lemma NoInfo(r: ResumeData)
    requires Typed(r) && r.infoDict == []
    ensures Find(Build(Fields(r)), INFO) == NotFound
  {
    NoInfoKey(r);
    FindUnassigned(Fields(r), INFO);
  }

  lemma FieldsStored(r: ResumeData)
    requires Typed(r)
    ensures Stores(Dict(Build(Fields(r))), r)
  {
    FieldRead(r, 0);
    FieldRead(r, 2);
    FieldRead(r, 3);
    FieldRead(r, 4);
    FieldRead(r, 5);
    FieldRead(r, 6);
    FieldRead(r, 7);
    FieldRead(r, 8);
    if r.infoDict == [] {
      NoInfo(r);
    } else {
      FieldRead(r, 9);
    }
  }

  lemma FieldsGood(r: ResumeData)
    requires Typed(r)
    ensures forall x :: x in Fields(r) ==> Good(x.value, 1)
  {
  }

  /** A record read back is the record written. */
  lemma ResumeRoundTrip(r: ResumeData)
    requires Typed(r)
    ensures DecodeResume(EncodeResume(r)) == Some(r)
  {
    FieldsGood(r);
    BuildDecodes(Fields(r));
    FieldsStored(r);
    StoredIsRead(Dict(Build(Fields(r))), r);
  }
}
