/**
 * The raw content of a GCNO/GCDA file (cov/src/raw.rs): file types, record
 * tags, versions, block and arc attributes and the records themselves.
 *
 * Symbols (interned strings) are plain indices into the interner's arena.
 */
module Raw {
  import opened Options
  import opened CovErrors
  import opened Words
  import Utf8

  /** An interned string: its index in the interner's arena. */
  type Symbol = nat

  // Record tags.
  const EOF_TAG: bv32 := 0
  const FUNCTION_TAG: bv32 := 0x0100_0000
  const BLOCKS_TAG: bv32 := 0x0141_0000
  const ARCS_TAG: bv32 := 0x0143_0000
  const LINES_TAG: bv32 := 0x0145_0000
  const COUNTER_BASE_TAG: bv32 := 0x01a1_0000
  const OBJECT_SUMMARY_TAG: bv32 := 0xa100_0000
  const PROGRAM_SUMMARY_TAG: bv32 := 0xa300_0000
  const AFDO_FILE_NAMES_TAG: bv32 := 0xaa00_0000
  const AFDO_FUNCTION_TAG: bv32 := 0xac00_0000
  const AFDO_WORKING_SET_TAG: bv32 := 0xaf00_0000

  /**
   * A file version: four ASCII characters packed big-endian, such as `"407*"`.
   * Versions compare as unsigned 32-bit numbers.
   */
  type Version = bv32

  const INVALID_VERSION: Version := 0
  /** From this version on the format changed incompatibly. */
  const VERSION_4_7: Version := 0x3430_372a

  /** `Version::try_from`: the versions this crate supports. */
  function VersionTryFrom(raw: bv32): (r: Result<Version>)
    ensures r.Ok? ==> r.value == raw
    ensures r.Err? ==> r.error == UnsupportedVersion(raw)
    ensures r.Ok? <==> ByteOf(raw, 3) == 0x2a && ByteOf(raw, 0) < 0x80 && ByteOf(raw, 1) < 0x80 && ByteOf(raw, 2) < 0x80
  {
    if raw & 0x8080_80ff == 0x2a then Ok(raw) else Err(UnsupportedVersion(raw))
  }

  /** `INVALID_VERSION` is not a version `try_from` accepts, and `VERSION_4_7` is. */
  lemma InvalidVersionRejected()
    ensures VersionTryFrom(INVALID_VERSION) == Err(UnsupportedVersion(0))
    ensures VersionTryFrom(VERSION_4_7) == Ok(VERSION_4_7)
  {
  }

  /** `Display for Version`: the four bytes, most significant first, each as the character of that code. */
  function VersionDisplay(v: Version): (s: string)
    ensures |s| == 4
    ensures forall k :: 0 <= k < 4 ==> s[k] as int == ByteOf(v, k) as int
  {
    [ByteOf(v, 0) as int as char, ByteOf(v, 1) as int as char, ByteOf(v, 2) as int as char, ByteOf(v, 3) as int as char]
  }

  /** `FromStr for Version`: exactly four UTF-8 bytes, read big-endian, then validated. */
  function VersionFromStr(s: string): (r: Result<Version>)
    ensures |Utf8.Encode(s)| != 4 ==> r == Err(UnsupportedVersion(0))
  {
    var bytes := Utf8.Encode(s);
    if |bytes| != 4 then Err(UnsupportedVersion(0))
    else VersionTryFrom(BE32(OctetsToBytes(bytes)))
  }

  function OctetsToBytes(o: seq<Utf8.Octet>): (b: seq<byte>)
    ensures |b| == |o|
    ensures forall i :: 0 <= i < |o| ==> b[i] as int == o[i]
  {
    seq(|o|, i requires 0 <= i < |o| => OctetToByte(o[i]))
  }

  /** The byte whose value is `n`, counted up from zero one successor at a time. */
  function OctetToByte(n: int): (b: byte)
    requires 0 <= n < 256
    ensures b as int == n
  {
    if n == 0 then 0 else ByteSucc(OctetToByte(n - 1))
  }

  /** Counting up to a byte's value reaches that byte. */
  lemma {:induction false} OctetToByteOfValue(b: byte)
    ensures OctetToByte(b as int) == b
    decreases b as int
  {
    if b != 0 {
      var p := b - 1;
      assert p as int == b as int - 1;
      OctetToByteOfValue(p);
      assert ByteSucc(p) == b;
    }
  }

  function ByteSucc(p: byte): (b: byte)
    requires p < 0xff
    ensures b as int == p as int + 1
  {
    p + 1
  }

  /** A string that parses as a version is exactly that version's display: the text form is canonical. */
  lemma VersionParseDisplay(s: string)
    requires VersionFromStr(s).Ok?
    ensures VersionDisplay(VersionFromStr(s).value) == s
  {
    var e := Utf8.Encode(s);
    var b := OctetsToBytes(e);
    var v := BE32(b);
    assert VersionFromStr(s).value == v;
    BytesOfBE32(b);
    forall k | 0 <= k < 4
      ensures e[k] < 128
    {
      assert b[k] as int == e[k];
      LowByte(b[k]);
    }
    Utf8.AsciiEncoding(s);
    var d := VersionDisplay(v);
    forall k | 0 <= k < 4
      ensures d[k] == s[k]
    {
      assert d[k] as int == b[k] as int == e[k] == s[k] as int;
    }
  }

  lemma BytesOfBE32(b: seq<byte>)
    requires |b| == 4
    ensures ByteOf(BE32(b), 0) == b[0] && ByteOf(BE32(b), 1) == b[1]
    ensures ByteOf(BE32(b), 2) == b[2] && ByteOf(BE32(b), 3) == b[3]
  {
  }

  lemma LowByte(x: byte)
    requires x < 0x80
    ensures x as int < 128
  {
  }

  /** Displaying a supported version and parsing the text back gives the same version. */
  lemma VersionRoundTrip(v: Version)
    requires VersionTryFrom(v).Ok?
    ensures VersionFromStr(VersionDisplay(v)) == Ok(v)
  {
    var s := VersionDisplay(v);
    Utf8.EncodeAscii(s);
    var b := OctetsToBytes(Utf8.Encode(s));
    OctetToByteOfValue(ByteOf(v, 0));
    OctetToByteOfValue(ByteOf(v, 1));
    OctetToByteOfValue(ByteOf(v, 2));
    OctetToByteOfValue(ByteOf(v, 3));
    assert b == [ByteOf(v, 0), ByteOf(v, 1), ByteOf(v, 2), ByteOf(v, 3)];
    BE32OfBytes(v);
  }

  // Block attributes (`BlockAttr`, a 16-bit flag set).
  type BlockAttr = bv16
  const BLOCK_ATTR_UNEXPECTED: BlockAttr := 2
  const BLOCK_ATTR_CALL_SITE: BlockAttr := 0x1000
  const BLOCK_ATTR_CALL_RETURN: BlockAttr := 0x2000
  const BLOCK_ATTR_NONLOCAL_RETURN: BlockAttr := 0x4000
  const BLOCK_ATTR_EXCEPTIONAL: BlockAttr := 0x8000
  const BLOCK_ATTR_ALL: BlockAttr := 0xf002

  // Arc attributes (`ArcAttr`, a 16-bit flag set).
  type ArcAttr = bv16
  const ARC_ATTR_ON_TREE: ArcAttr := 1
  const ARC_ATTR_FAKE: ArcAttr := 2
  const ARC_ATTR_FALLTHROUGH: ArcAttr := 4
  const ARC_ATTR_THROW: ArcAttr := 0x10
  const ARC_ATTR_CALL_NON_RETURN: ArcAttr := 0x20
  const ARC_ATTR_NONLOCAL_RETURN: ArcAttr := 0x40
  const ARC_ATTR_UNCONDITIONAL: ArcAttr := 0x80
  const ARC_ATTR_ALL: ArcAttr := 0xf7

  /** `from_bits_truncate(flags as u16)`: the low 16 bits, keeping only defined flags. */
  function TruncateBits(flags: bv32, all: bv16): bv16
  {
    ((flags & 0xffff) as bv16) & all
  }

  /**
   * `BlockAttr::from_gcno`: a GCNO block flag word may only carry
   * `BLOCK_ATTR_UNEXPECTED`; anything else is `UnsupportedAttr("block", flags)`.
   */
  function BlockAttrFromGcno(flags: bv32): (r: Result<BlockAttr>)
    ensures r.Ok? <==> flags == 0 || flags == 2
    ensures r.Ok? ==> r.value as bv32 == flags
    ensures r.Err? ==> r.error == UnsupportedAttr("block", flags)
  {
    if flags & !(BLOCK_ATTR_UNEXPECTED as bv32) == 0 then Ok(TruncateBits(flags, BLOCK_ATTR_ALL))
    else Err(UnsupportedAttr("block", flags))
  }

  /**
   * `ArcAttr::from_gcno`: a GCNO arc flag word may only carry `ON_TREE`, `FAKE`
   * and `FALLTHROUGH` (1|2|4); anything else is `UnsupportedAttr("arc", flags)`.
   */
  function ArcAttrFromGcno(flags: bv32): (r: Result<ArcAttr>)
    ensures r.Ok? <==> flags < 8
    ensures r.Ok? ==> r.value as bv32 == flags
    ensures r.Err? ==> r.error == UnsupportedAttr("arc", flags)
  {
    var allowed := ARC_ATTR_ON_TREE | ARC_ATTR_FAKE | ARC_ATTR_FALLTHROUGH;
    if flags & !(allowed as bv32) == 0 then Ok(TruncateBits(flags, ARC_ATTR_ALL))
    else Err(UnsupportedAttr("arc", flags))
  }

  /** Whether flag set `attr` includes every bit of `flag`. */
  predicate Has(attr: bv16, flag: bv16)
  {
    attr & flag == flag
  }

  // Records.

  /** Source location of a function. */
  datatype Source = Source(name: Symbol, filename: Symbol, line: bv32)

  /** An `ANNOUNCE_FUNCTION` record's payload (the identifier is kept beside it). */
  datatype Function = Function(linenoChecksum: bv32, cfgChecksum: bv32, source: Option<Source>)

  datatype Blocks = Blocks(flags: seq<BlockAttr>)

  /** A block's number within its function (`BlockIndex`, a 32-bit word in the file). */
  type BlockIndex = nat

  datatype Arc = Arc(destBlock: BlockIndex, flags: ArcAttr)

  datatype Arcs = Arcs(srcBlock: BlockIndex, arcs: seq<Arc>)

  datatype Line = LineNumber(number: bv32) | FileName(name: Symbol)

  datatype Lines = Lines(blockNumber: BlockIndex, lines: seq<Line>)

  datatype ArcCounts = ArcCounts(counts: seq<bv64>)

  datatype HistogramBucket = HistogramBucket(num: bv32, min: bv64, sum: bv64)

  /** Histogram buckets keyed by scale index. */
  datatype Histogram = Histogram(buckets: map<nat, HistogramBucket>)

  datatype Summary = Summary(checksum: bv32, num: bv32, runs: bv32, sum: bv64, max: bv64, sumMax: bv64,
                             histogram: Option<Histogram>)

  datatype Record =
    | FunctionRecord(ident: bv32, fn: Function)
    | BlocksRecord(blocks: Blocks)
    | ArcsRecord(arcs: Arcs)
    | LinesRecord(lines: Lines)
    | ArcCountsRecord(arcCounts: ArcCounts)
    | SummaryRecord(summary: Summary)

  /** The content of a GCNO/GCDA file. */
  datatype Gcov = Gcov(ty: FileType, version: Version, stamp: bv32, records: seq<Record>)
}
