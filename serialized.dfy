/** The Go implementation's storage form of a report (common/serialized.go): a
    header blob holding only the aggregate measures, and one compressed blob per
    unit keyed by the first 32 bytes of the BLAKE3-512 digest of its encoding. */
module GoSerialized {
  import opened Wrappers
  import opened Ints
  import opened ReportData
  import opened Zstd

  type Bytes = seq<byte>

  /** The library calls of the Go layer. Marshalling may fail; the encoder's
      `EncodeAll` cannot. `headerDecodes` is `zstd.Header.Decode` succeeding. */
  datatype GoCodec = GoCodec(
    marshalReport: Report -> Result<Bytes, string>,
    marshalUnit: ReportUnit -> Result<Bytes, string>,
    unmarshalReport: Bytes -> Result<Report, string>,
    unmarshalUnit: Bytes -> Result<ReportUnit, string>,
    sum512: Bytes -> Bytes,
    compress: Bytes -> Bytes,
    headerDecodes: Bytes -> bool,
    decodeAll: Bytes -> Result<Bytes, string>)

  datatype SerializedUnit = SerializedUnit(key: Bytes, data: Bytes)
  datatype SerializedReport = SerializedReport(data: Bytes, units: seq<SerializedUnit>)

  /** The laws of the libraries: the header decoder follows RFC 8878 section
      3.1.1, the encoder writes a frame the decoder inverts, BLAKE3-512 gives 64
      bytes, and unmarshalling inverts a successful marshal. */
  ghost predicate HeaderLawful(g: GoCodec) {
    forall x :: g.headerDecodes(x) <==> ParseHeader(x).Ok?
  }

  ghost predicate FramesLawful(g: GoCodec) {
    forall x :: Decompress(g, g.compress(x)) == Ok(x)
  }

  ghost predicate HashLawful(g: GoCodec) {
    forall x :: |g.sum512(x)| == 64
  }

  ghost predicate MessagesLawful(g: GoCodec) {
    && (forall r :: g.marshalReport(r).Ok? ==> g.unmarshalReport(g.marshalReport(r).value) == Ok(r))
    && (forall u :: g.marshalUnit(u).Ok? ==> g.unmarshalUnit(g.marshalUnit(u).value) == Ok(u))
  }

  ghost predicate Lawful(g: GoCodec) {
    FramesLawful(g) && HashLawful(g) && MessagesLawful(g)
  }

  /** The encoder's laws: `EncodeAll` of an empty input writes nothing (the
      encoder is built without `WithZeroFrames`); any other input becomes a frame
      whose header the decoder accepts and which decodes back to the input. */
  ghost predicate ZstdLawful(g: GoCodec) {
    && HeaderLawful(g)
    && g.compress([]) == []
    && (forall x :: x != [] ==> g.headerDecodes(g.compress(x)))
    && (forall x :: x != [] ==> g.decodeAll(g.compress(x)) == Ok(x))
  }

  /** The empty input round-trips too: nothing is written, and nothing is too
      short to be a frame header, so it is passed through as plain data. */
  lemma ZstdRoundTrip(g: GoCodec)
    requires ZstdLawful(g)
    ensures FramesLawful(g)
  {
    forall x
      ensures Decompress(g, g.compress(x)) == Ok(x)
    {
      if x == [] {
        assert ParseHeader([]).Err?;
        assert !g.headerDecodes(g.compress(x));
      } else {
        assert g.headerDecodes(g.compress(x));
      }
    }
  }

  /** `decompress`: a blob whose header does not decode is taken as plain data;
      any decodable header is decoded, with or without a content size. */
  function Decompress(g: GoCodec, data: Bytes): (r: Result<Bytes, string>)
    ensures !g.headerDecodes(data) ==> r == Ok(data)
    ensures g.headerDecodes(data) ==> r == g.decodeAll(data)
  {
    if !g.headerDecodes(data) then Ok(data) else g.decodeAll(data)
  }

  /** A blob that is not a frame header reads back unchanged. */
  lemma DecompressPassesPlainData(g: GoCodec, data: Bytes)
    requires HeaderLawful(g)
    requires ParseHeader(data).Err?
    ensures Decompress(g, data) == Ok(data)
  {
    assert !g.headerDecodes(data);
  }

  /** Unlike the Rust store, a frame whose header carries no content size is
      handed to the decoder rather than refused. */
  lemma DecompressAcceptsUnknownSize(g: GoCodec, data: Bytes)
    requires HeaderLawful(g)
    requires FrameContentSize(data) == UnknownSize
    ensures Decompress(g, data) == g.decodeAll(data)
  {
    assert g.headerDecodes(data);
  }

  /** The header report: the measures alone. */
  function Sparse(r: Report): (s: Report)
    ensures s.measures == r.measures && s.units == [] && s.categories == []
  {
    Report(r.measures, [], 0, [])
  }

  /** A unit's key: the first 32 bytes of the digest (shorter digests are
      zero-padded, as `copy` into a 32-byte array leaves them). */
  function UnitKey(g: GoCodec, bytes: Bytes): (k: Bytes)
    ensures |k| == 32
    ensures |g.sum512(bytes)| >= 32 ==> k == g.sum512(bytes)[..32]
  {
    var h := g.sum512(bytes);
    if |h| >= 32 then h[..32] else h + seq(32 - |h|, _ => 0)
  }

  /** The units' storage form, or the first marshalling error. */
  function SerializeUnits(g: GoCodec, us: seq<ReportUnit>): Result<seq<SerializedUnit>, string>
    decreases |us|
  {
    if us == [] then Ok([])
    else
      match SerializeUnits(g, us[..|us| - 1])
      case Err(e) => Err(e)
      case Ok(prefix) =>
        match g.marshalUnit(us[|us| - 1])
        case Err(e) => Err(e)
        case Ok(bytes) => Ok(prefix + [SerializedUnit(UnitKey(g, bytes), g.compress(bytes))])
  }

  function SerializeSpec(g: GoCodec, r: Report): Result<SerializedReport, string> {
    match g.marshalReport(Sparse(r))
    case Err(e) => Err(e)
    case Ok(data) =>
      match SerializeUnits(g, r.units)
      case Err(e) => Err(e)
      case Ok(units) => Ok(SerializedReport(data, units))
  }

  /** One serialized unit per unit, in order: the key of its encoding and the
      compressed encoding. */
  lemma {:induction false} SerializeUnitsShape(g: GoCodec, us: seq<ReportUnit>)
    requires SerializeUnits(g, us).Ok?
    ensures var su := SerializeUnits(g, us).value;
      && |su| == |us|
      && forall i :: 0 <= i < |us| ==>
           g.marshalUnit(us[i]).Ok?
           && su[i] == SerializedUnit(UnitKey(g, g.marshalUnit(us[i]).value), g.compress(g.marshalUnit(us[i]).value))
    decreases |us|
  {
    if us != [] {
      SerializeUnitsShape(g, us[..|us| - 1]);
    }
  }

  /** Serialization fails exactly when the header or some unit does not marshal. */
  lemma {:induction false} SerializeUnitsFails(g: GoCodec, us: seq<ReportUnit>)
    ensures SerializeUnits(g, us).Err? <==> exists i :: 0 <= i < |us| && g.marshalUnit(us[i]).Err?
    decreases |us|
  {
    if us != [] {
      var init := us[..|us| - 1];
      SerializeUnitsFails(g, init);
      assert forall i :: 0 <= i < |init| ==> init[i] == us[i];
    }
  }

  lemma SerializeFails(g: GoCodec, r: Report)
    ensures SerializeSpec(g, r).Err? <==>
      g.marshalReport(Sparse(r)).Err? || exists i :: 0 <= i < |r.units| && g.marshalUnit(r.units[i]).Err?
  {
    SerializeUnitsFails(g, r.units);
  }

  /** `Report.Serialize` */
  method Serialize(g: GoCodec, r: Report) returns (res: Result<SerializedReport, string>)
    ensures res == SerializeSpec(g, r)
  {
    var data := g.marshalReport(Sparse(r));
    if data.Err? {
      return Err(data.error);
    }
    var units: seq<SerializedUnit> := [];
    var i := 0;
    while i < |r.units|
      invariant 0 <= i <= |r.units|
      invariant SerializeUnits(g, r.units[..i]) == Ok(units)
    {
      assert r.units[..i + 1][..i] == r.units[..i];
      var bytes := g.marshalUnit(r.units[i]);
      if bytes.Err? {
        PrefixFailure(g, r.units, i + 1);
        return Err(bytes.error);
      }
      units := units + [SerializedUnit(UnitKey(g, bytes.value), g.compress(bytes.value))];
      i := i + 1;
    }
    assert r.units[..i] == r.units;
    return Ok(SerializedReport(data.value, units));
  }

  /** A failure within a prefix is the failure of the whole. */
  lemma {:induction false} PrefixFailure(g: GoCodec, us: seq<ReportUnit>, n: nat)
    requires n <= |us| && SerializeUnits(g, us[..n]).Err?
    ensures SerializeUnits(g, us) == SerializeUnits(g, us[..n])
    decreases |us| - n
  {
    if n < |us| {
      assert us[..n + 1][..n] == us[..n];
      PrefixFailure(g, us, n + 1);
    } else {
      assert us[..n] == us;
    }
  }

  /** The units read back from their storage form, appended to acc, or the first
      error: a blob that does not decompress, a digest that does not match the
      key, or an encoding that does not unmarshal. */
  function DeserializeUnits(g: GoCodec, su: seq<SerializedUnit>, acc: seq<ReportUnit>)
    : Result<seq<ReportUnit>, string>
    decreases |su|
  {
    if su == [] then Ok(acc)
    else
      match Decompress(g, su[0].data)
      case Err(e) => Err(e)
      case Ok(bytes) =>
        if UnitKey(g, bytes) != su[0].key then Err("unit key mismatch")
        else match g.unmarshalUnit(bytes)
          case Err(e) => Err(e)
          case Ok(u) => DeserializeUnits(g, su[1..], acc + [u])
  }

  function DeserializeSpec(g: GoCodec, s: SerializedReport): Result<Report, string> {
    match g.unmarshalReport(s.data)
    case Err(e) => Err(e)
    case Ok(sparse) =>
      match DeserializeUnits(g, s.units, [])
      case Err(e) => Err(e)
      case Ok(us) => Ok(Report(sparse.measures, us, 0, []))
  }

  /** `SerializedReport.Deserialize` */
  method Deserialize(g: GoCodec, s: SerializedReport) returns (res: Result<Report, string>)
    ensures res == DeserializeSpec(g, s)
  {
    var sparse := g.unmarshalReport(s.data);
    if sparse.Err? {
      return Err(sparse.error);
    }
    var units: seq<ReportUnit> := [];
    var i := 0;
    while i < |s.units|
      invariant 0 <= i <= |s.units|
      invariant DeserializeUnits(g, s.units, []) == DeserializeUnits(g, s.units[i..], units)
    {
      var unit := s.units[i];
      assert s.units[i..][0] == unit && s.units[i..][1..] == s.units[i + 1..];
      var bytes := Decompress(g, unit.data);
      if bytes.Err? {
        return Err(bytes.error);
      }
      if UnitKey(g, bytes.value) != unit.key {
        return Err("unit key mismatch");
      }
      var decoded := g.unmarshalUnit(bytes.value);
      if decoded.Err? {
        return Err(decoded.error);
      }
      units := units + [decoded.value];
      i := i + 1;
    }
    return Ok(Report(sparse.value.measures, units, 0, []));
  }

  /** A successful read has one unit per serialized unit, in order, each the
      decoding of a blob whose digest matches its key. */
  lemma {:induction false} DeserializeUnitsSound(g: GoCodec, su: seq<SerializedUnit>, acc: seq<ReportUnit>)
    requires DeserializeUnits(g, su, acc).Ok?
    ensures var us := DeserializeUnits(g, su, acc).value;
      && |us| == |acc| + |su| && us[..|acc|] == acc
      && forall j :: 0 <= j < |su| ==>
           && Decompress(g, su[j].data).Ok?
           && UnitKey(g, Decompress(g, su[j].data).value) == su[j].key
           && g.unmarshalUnit(Decompress(g, su[j].data).value) == Ok(us[|acc| + j])
    decreases |su|
  {
    if su != [] {
      var u := g.unmarshalUnit(Decompress(g, su[0].data).value).value;
      DeserializeUnitsSound(g, su[1..], acc + [u]);
      var us := DeserializeUnits(g, su, acc).value;
      assert us[..|acc| + 1][..|acc|] == us[..|acc|];
      forall j | 0 <= j < |su|
        ensures && Decompress(g, su[j].data).Ok?
                && UnitKey(g, Decompress(g, su[j].data).value) == su[j].key
                && g.unmarshalUnit(Decompress(g, su[j].data).value) == Ok(us[|acc| + j])
      {
        if j > 0 {
          assert su[1..][j - 1] == su[j];
        }
      }
    }
  }

  /** A unit whose bytes no longer match its key makes the whole read fail. */
  lemma KeyMismatchFails(g: GoCodec, s: SerializedReport, j: nat)
    requires j < |s.units| && Decompress(g, s.units[j].data).Ok?
    requires UnitKey(g, Decompress(g, s.units[j].data).value) != s.units[j].key
    ensures DeserializeSpec(g, s).Err?
  {
    if DeserializeUnits(g, s.units, []).Ok? {
      DeserializeUnitsSound(g, s.units, []);
    }
  }

  /** When every earlier unit reads back, the mismatch is reported as such. */
  lemma {:induction false} FirstMismatchReported(g: GoCodec, su: seq<SerializedUnit>, acc: seq<ReportUnit>)
    requires su != [] && Decompress(g, su[0].data).Ok?
    requires UnitKey(g, Decompress(g, su[0].data).value) != su[0].key
    ensures DeserializeUnits(g, su, acc) == Err("unit key mismatch")
  {
  }

  /** Reading back what was written gives the measures and the units. */
  lemma {:induction false} DeserializeUnitsOfSerialized(g: GoCodec, us: seq<ReportUnit>, acc: seq<ReportUnit>)
    requires Lawful(g) && SerializeUnits(g, us).Ok?
    ensures DeserializeUnits(g, SerializeUnits(g, us).value, acc) == Ok(acc + us)
    decreases |us|
  {
    if us != [] {
      var su := SerializeUnits(g, us).value;
      SerializeUnitsShape(g, us);
      var bytes := g.marshalUnit(us[0]).value;
      assert su[0] == SerializedUnit(UnitKey(g, bytes), g.compress(bytes));
      assert Decompress(g, g.compress(bytes)) == Ok(bytes);
      assert g.unmarshalUnit(bytes) == Ok(us[0]);
      TailSerialized(g, us);
      assert DeserializeUnits(g, su, acc) == DeserializeUnits(g, su[1..], acc + [us[0]]);
      DeserializeUnitsOfSerialized(g, us[1..], acc + [us[0]]);
      ConcatCons(acc, us);
    } else {
      assert acc + us == acc;
    }
  }

  /** Serializing the tail gives the tail of the serialization. */
  lemma TailSerialized(g: GoCodec, us: seq<ReportUnit>)
    requires us != [] && SerializeUnits(g, us).Ok?
    ensures SerializeUnits(g, us[1..]).Ok?
    ensures SerializeUnits(g, us[1..]).value == SerializeUnits(g, us).value[1..]
  {
    SerializeUnitsShape(g, us);
    SerializeUnitsFails(g, us);
    SerializeUnitsFails(g, us[1..]);
    assert forall i :: 0 <= i < |us[1..]| ==> us[1..][i] == us[i + 1];
    SerializeUnitsShape(g, us[1..]);
  }

  lemma ConcatCons<T>(acc: seq<T>, us: seq<T>)
    requires us != []
    ensures (acc + [us[0]]) + us[1..] == acc + us
  {
    assert us == [us[0]] + us[1..];
  }

  lemma SerializeRoundTrip(g: GoCodec, r: Report)
    requires Lawful(g) && SerializeSpec(g, r).Ok?
    ensures DeserializeSpec(g, SerializeSpec(g, r).value) == Ok(Report(r.measures, r.units, 0, []))
  {
    var none: seq<ReportUnit> := [];
    DeserializeUnitsOfSerialized(g, r.units, none);
    assert none + r.units == r.units;
  }
}
