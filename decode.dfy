/**
 * What the gcov reader (cov/src/reader.rs) computes, as functions of the file's
 * bytes. A decoding step starts at a stream position `pos`, may not read past
 * `limit` (the end of the file, or of the record being parsed), and returns the
 * outcome, the position after it, and the interner arena after it (reading a
 * string interns it).
 *
 * End of data is an `UnexpectedEof` error, and a short read consumes what is
 * left up to the limit, as `read_exact` does.
 */
module Decode {
  import opened Options
  import opened CovErrors
  import opened Words
  import opened Raw
  import Intern
  import Utf8

  /** What every step of one file's decoding shares: its bytes, byte order, version and type. */
  datatype Ctx = Ctx(data: seq<byte>, bigEndian: bool, version: Version, ty: FileType)

  datatype Step<T> = Step(res: Result<T>, pos: nat, arena: seq<string>)

  /** A failed step's error, position and arena, re-typed. */
  function Fail<T, U>(s: Step<T>): (r: Step<U>)
    requires s.res.Err?
    ensures r.res.Err? && r.res.error == s.res.error && r.pos == s.pos && r.arena == s.arena
  {
    Step(Err(s.res.error), s.pos, s.arena)
  }

  /** Reads exactly `n` bytes, or fails with `UnexpectedEof` having consumed everything up to `limit`. */
  function ReadExact(c: Ctx, pos: nat, limit: nat, n: nat, arena: seq<string>): (r: Step<seq<byte>>)
    requires pos <= limit <= |c.data|
    ensures pos <= r.pos <= limit && r.arena == arena
    ensures r.res.Ok? <==> pos + n <= limit
    ensures r.res.Ok? ==> r.pos == pos + n && r.res.value == c.data[pos..pos + n]
    ensures r.res.Err? ==> r.res.error == UnexpectedEof && r.pos == limit
  {
    if pos + n <= limit then Step(Ok(c.data[pos..pos + n]), pos + n, arena)
    else Step(Err(UnexpectedEof), limit, arena)
  }

  /** `read_32`: a little-endian word, byte-swapped when the file is big-endian. */
  function Read32(c: Ctx, pos: nat, limit: nat, arena: seq<string>): (r: Step<bv32>)
    requires pos <= limit <= |c.data|
    ensures pos <= r.pos <= limit && r.arena == arena
    ensures r.res.Ok? <==> pos + 4 <= limit
    ensures r.res.Ok? ==> r.pos == pos + 4
    ensures r.res.Ok? ==> r.res.value == if c.bigEndian then BE32(c.data[pos..pos + 4]) else LE32(c.data[pos..pos + 4])
    ensures r.res.Err? ==> r.res.error == UnexpectedEof
  {
    var s := ReadExact(c, pos, limit, 4, arena);
    if s.res.Err? then Fail(s)
    else
      var le := LE32(s.res.value);
      SwapLE32IsBE32(s.res.value);
      Step(Ok(if c.bigEndian then SwapBytes32(le) else le), s.pos, arena)
  }

  /** `read_64`: a little-endian double word, rotated by 32 and byte-swapped when the file is big-endian. */
  function Read64(c: Ctx, pos: nat, limit: nat, arena: seq<string>): (r: Step<bv64>)
    requires pos <= limit <= |c.data|
    ensures pos <= r.pos <= limit && r.arena == arena
    ensures r.res.Ok? <==> pos + 8 <= limit
    ensures r.res.Ok? ==> r.pos == pos + 8
    ensures r.res.Ok? ==> r.res.value == if c.bigEndian
                                         then Combine64(BE32(c.data[pos..pos + 4]), BE32(c.data[pos + 4..pos + 8]))
                                         else Combine64(LE32(c.data[pos..pos + 4]), LE32(c.data[pos + 4..pos + 8]))
    ensures r.res.Err? ==> r.res.error == UnexpectedEof
  {
    var s := ReadExact(c, pos, limit, 8, arena);
    if s.res.Err? then Fail(s)
    else
      var b := s.res.value;
      var le := LE64(b);
      assert b[..4] == c.data[pos..pos + 4] && b[4..] == c.data[pos + 4..pos + 8];
      RotateSwap64(LE32(b[..4]), LE32(b[4..]));
      SwapLE32IsBE32(b[..4]);
      SwapLE32IsBE32(b[4..]);
      Step(Ok(if c.bigEndian then SwapBytes64(le.RotateLeft(32)) else le), s.pos, arena)
  }

  /** The bytes without their trailing NUL bytes (all of them, so an all-NUL buffer becomes empty). */
  function TrimNul(b: seq<byte>): (r: seq<byte>)
    ensures r <= b
    ensures r == [] || r[|r| - 1] != 0
    ensures forall i :: |r| <= i < |b| ==> b[i] == 0
  {
    if b == [] || b[|b| - 1] != 0 then b else TrimNul(b[..|b| - 1])
  }

  function ToOctets(b: seq<byte>): (o: seq<Utf8.Octet>)
    ensures |o| == |b|
  {
    seq(|b|, i requires 0 <= i < |b| => b[i] as int)
  }

  /** The text a string's bytes hold: trailing NULs dropped, the rest decoded as UTF-8. */
  function StringText(bytes: seq<byte>): Option<string>
  {
    Utf8.Decode(ToOctets(TrimNul(bytes)))
  }

  /**
   * `read_string`: a length in words, then up to 4×length bytes (fewer when the
   * data ends first: reading to the end of a bounded reader does not fail),
   * with trailing NULs removed, decoded as UTF-8 and interned.
   */
  function ReadString(c: Ctx, pos: nat, limit: nat, arena: seq<string>): (r: Step<Symbol>)
    requires pos <= limit <= |c.data|
    ensures pos <= r.pos <= limit
    ensures r.res.Err? ==> r.res.error == UnexpectedEof || r.res.error == FromUtf8
  {
    var n := Read32(c, pos, limit, arena);
    if n.res.Err? then Fail(n)
    else StringBody(c, n.pos, SubLimit(n.pos, 4 * (n.res.value as int), limit), arena)
  }

  /** The bytes `[start, end)` of a string, decoded and interned. */
  function StringBody(c: Ctx, start: nat, end: nat, arena: seq<string>): (r: Step<Symbol>)
    requires start <= end <= |c.data|
    ensures r.pos == end
    ensures r.res.Err? ==> r.res.error == FromUtf8
  {
    match StringText(c.data[start..end])
    case None => Step(Err(FromUtf8), end, arena)
    case Some(text) =>
      var (arena', sym) := Intern.InternSpec(arena, text);
      Step(Ok(sym), end, arena')
  }

  /** The header's outcome: file type, byte order, version and stamp. */
  datatype Header = Header(ty: FileType, bigEndian: bool, version: Version, stamp: bv32)

  const GCNO_MAGIC: bv32 := 0x6763_6e6f
  const GCDA_MAGIC: bv32 := 0x6763_6461

  /** The type and byte order a magic word (read little-endian) announces. */
  function MagicType(magic: bv32): (r: Result<(FileType, bool)>)
    ensures r == Ok((Gcno, false)) <==> magic == 0x6763_6e6f
    ensures r == Ok((Gcno, true)) <==> magic == 0x6f6e_6367
    ensures r == Ok((Gcda, false)) <==> magic == 0x6763_6461
    ensures r == Ok((Gcda, true)) <==> magic == 0x6164_6367
    ensures r.Err? ==> r.error == UnknownFileType(magic)
  {
    if magic == GCNO_MAGIC then Ok((Gcno, false))
    else if magic == SwapBytes32(GCNO_MAGIC) then Ok((Gcno, true))
    else if magic == GCDA_MAGIC then Ok((Gcda, false))
    else if magic == SwapBytes32(GCDA_MAGIC) then Ok((Gcda, true))
    else Err(UnknownFileType(magic))
  }

  /** `Reader::new`: magic, version (validated), stamp. */
  function ReadHeader(data: seq<byte>): (r: Result<Header>)
    ensures |data| < 4 ==> r == Err(UnexpectedEof)
    ensures |data| >= 4 && MagicType(LE32(data[..4])).Err? ==> r == Err(UnknownFileType(LE32(data[..4])))
    ensures r.Ok? ==> |data| >= 12 && MagicType(LE32(data[..4])) == Ok((r.value.ty, r.value.bigEndian))
    ensures r.Ok? ==> r.value.version == (if r.value.bigEndian then BE32(data[4..8]) else LE32(data[4..8]))
    ensures r.Ok? ==> VersionTryFrom(r.value.version).Ok?
    ensures r.Ok? ==> r.value.stamp == (if r.value.bigEndian then BE32(data[8..12]) else LE32(data[8..12]))
  {
    if |data| < 4 then Err(UnexpectedEof)
    else
      match MagicType(LE32(data[..4]))
      case Err(e) => Err(e)
      case Ok((ty, big)) =>
        var c := Ctx(data, big, INVALID_VERSION, ty);
        var v := Read32(c, 4, |data|, []);
        if v.res.Err? then Err(v.res.error)
        else
          match VersionTryFrom(v.res.value)
          case Err(e) => Err(e)
          case Ok(version) =>
            var st := Read32(c, v.pos, |data|, []);
            if st.res.Err? then Err(st.res.error)
            else Ok(Header(ty, big, version, st.res.value))
  }

  /** `read_record_header`: the tag and the record's length in bytes (4 × the length word). */
  function ReadRecordHeader(c: Ctx, pos: nat, limit: nat, arena: seq<string>): (r: Step<(bv32, nat)>)
    requires pos <= limit <= |c.data|
    ensures pos <= r.pos <= limit && r.arena == arena
    ensures r.res.Ok? ==> r.pos == pos + 8
    ensures r.res.Err? ==> r.res.error == UnexpectedEof
  {
    var t := Read32(c, pos, limit, arena);
    if t.res.Err? then Fail(t)
    else
      var l := Read32(c, t.pos, limit, arena);
      if l.res.Err? then Fail(l)
      else Step(Ok((t.res.value, 4 * (l.res.value as int))), l.pos, arena)
  }

  /** The limit of a record's sub-reader: `len` bytes further, and never past the parent's limit. */
  function SubLimit(pos: nat, len: nat, limit: nat): (r: nat)
    ensures pos <= limit ==> pos <= r <= limit
  {
    if pos + len <= limit then pos + len else limit
  }

  /** `parse_function` (with `read_source`): the identifier and the function announcement. */
  function ParseFunction(c: Ctx, pos: nat, limit: nat, arena: seq<string>): (r: Step<(bv32, Function)>)
    requires pos <= limit <= |c.data|
    ensures pos <= r.pos <= limit
    ensures r.res.Ok? ==> r.pos == limit
    ensures r.res.Ok? && c.version < VERSION_4_7 ==> r.res.value.1.cfgChecksum == 0
    ensures r.res.Ok? ==> (r.res.value.1.source.None? <==> c.ty == Gcda && c.version >= VERSION_4_7)
    ensures r.res.Ok? && c.ty == Gcda && c.version < VERSION_4_7 ==>
              r.res.value.1.source.value.filename == Intern.UNKNOWN_SYMBOL && r.res.value.1.source.value.line == 0
  {
    var id := Read32(c, pos, limit, arena);
    if id.res.Err? then Fail(id) else
    var ln := Read32(c, id.pos, limit, arena);
    if ln.res.Err? then Fail(ln) else
    var cfg := CfgChecksum(c, ln.pos, limit, arena);
    if cfg.res.Err? then Fail(cfg) else
    var src := ParseFunctionSource(c, cfg.pos, limit, arena);
    if src.res.Err? then Fail(src)
    else Step(Ok((id.res.value, Function(ln.res.value, cfg.res.value, src.res.value))), limit, src.arena)
  }

  /** The CFG checksum of `parse_function`: a word from GCC 4.7 on, zero (and nothing read) before. */
  function CfgChecksum(c: Ctx, pos: nat, limit: nat, arena: seq<string>): (r: Step<bv32>)
    requires pos <= limit <= |c.data|
    ensures pos <= r.pos <= limit
    ensures c.version < VERSION_4_7 ==> r == Step(Ok(0), pos, arena)
  {
    if c.version >= VERSION_4_7 then Read32(c, pos, limit, arena) else Step(Ok(0), pos, arena)
  }

  /** The source part of `parse_function`: full source in a GCNO, only the name in an old GCDA, else nothing. */
  function ParseFunctionSource(c: Ctx, pos: nat, limit: nat, arena: seq<string>): (r: Step<Option<Source>>)
    requires pos <= limit <= |c.data|
    ensures pos <= r.pos <= limit
    ensures r.res.Ok? ==> (r.res.value.None? <==> c.ty == Gcda && c.version >= VERSION_4_7)
    ensures r.res.Ok? && c.ty == Gcda && c.version < VERSION_4_7 ==>
              r.res.value.value.filename == Intern.UNKNOWN_SYMBOL && r.res.value.value.line == 0
  {
    if c.ty == Gcno then
      var s := ReadSource(c, pos, limit, arena);
      if s.res.Err? then Fail(s) else Step(Ok(Some(s.res.value)), s.pos, s.arena)
    else if c.version < VERSION_4_7 then
      var name := ReadString(c, pos, limit, arena);
      if name.res.Err? then Fail(name)
      else Step(Ok(Some(Source(name.res.value, Intern.UNKNOWN_SYMBOL, 0))), name.pos, name.arena)
    else
      assert c.ty == Gcda && c.version >= VERSION_4_7;
      Step(Ok(None), pos, arena)
  }

  /** `read_source`: function name, file name and line. */
  function ReadSource(c: Ctx, pos: nat, limit: nat, arena: seq<string>): (r: Step<Source>)
    requires pos <= limit <= |c.data|
    ensures pos <= r.pos <= limit
  {
    var name := ReadString(c, pos, limit, arena);
    if name.res.Err? then Fail(name) else
    var file := ReadString(c, name.pos, limit, name.arena);
    if file.res.Err? then Fail(file) else
    var line := Read32(c, file.pos, limit, file.arena);
    if line.res.Err? then Fail(line)
    else Step(Ok(Source(name.res.value, file.res.value, line.res.value)), line.pos, file.arena)
  }

  /** One element of `parse_blocks`: a flag word, validated. */
  function BlockFlag(c: Ctx, pos: nat, limit: nat, arena: seq<string>): (r: Step<BlockAttr>)
    requires pos <= limit <= |c.data|
    ensures pos <= r.pos <= limit && r.arena == arena
    ensures r.res.Ok? ==> r.pos > pos
  {
    var f := Read32(c, pos, limit, arena);
    if f.res.Err? then Fail(f)
    else Step(BlockAttrFromGcno(f.res.value), f.pos, arena)
  }

  /** `parse_blocks`: flag words until the record ends. */
  function BlocksFrom(c: Ctx, pos: nat, limit: nat, arena: seq<string>, acc: seq<BlockAttr>): (r: Step<seq<BlockAttr>>)
    requires pos <= limit <= |c.data|
    ensures pos <= r.pos <= limit && r.arena == arena
    ensures r.res.Ok? ==> r.pos == limit && acc <= r.res.value && |r.res.value| == |acc| + (limit - pos) / 4
    ensures r.res.Ok? ==> forall k :: |acc| <= k < |r.res.value| ==> r.res.value[k] == 0 || r.res.value[k] == BLOCK_ATTR_UNEXPECTED
    ensures r.res.Err? ==> r.res.error.UnsupportedAttr?
    decreases limit - pos
  {
    var e := BlockFlag(c, pos, limit, arena);
    if e.res.Err? then
      if IsEof(e.res.error) then Step(Ok(acc), e.pos, e.arena) else Fail(e)
    else BlocksFrom(c, e.pos, limit, e.arena, acc + [e.res.value])
  }

  /** One element of `parse_arcs`: a destination block and a validated flag word. */
  function ArcEntry(c: Ctx, pos: nat, limit: nat, arena: seq<string>): (r: Step<Arc>)
    requires pos <= limit <= |c.data|
    ensures pos <= r.pos <= limit && r.arena == arena
    ensures r.res.Ok? ==> r.pos > pos
  {
    var d := Read32(c, pos, limit, arena);
    if d.res.Err? then Fail(d) else
    var f := Read32(c, d.pos, limit, arena);
    if f.res.Err? then Fail(f)
    else
      match ArcAttrFromGcno(f.res.value)
      case Err(e) => Step(Err(e), f.pos, arena)
      case Ok(attr) => Step(Ok(Arc(d.res.value as nat, attr)), f.pos, arena)
  }

  /** `parse_arcs`' loop: arcs until the record ends. */
  function ArcsFrom(c: Ctx, pos: nat, limit: nat, arena: seq<string>, acc: seq<Arc>): (r: Step<seq<Arc>>)
    requires pos <= limit <= |c.data|
    ensures pos <= r.pos <= limit && r.arena == arena
    ensures r.res.Ok? ==> r.pos == limit && acc <= r.res.value && |r.res.value| == |acc| + (limit - pos) / 8
    ensures r.res.Ok? ==> forall k :: |acc| <= k < |r.res.value| ==> r.res.value[k].flags < 8
    ensures r.res.Err? ==> r.res.error.UnsupportedAttr?
    decreases limit - pos
  {
    var e := ArcEntry(c, pos, limit, arena);
    if e.res.Err? then
      if IsEof(e.res.error) then Step(Ok(acc), e.pos, e.arena) else Fail(e)
    else ArcsFrom(c, e.pos, limit, e.arena, acc + [e.res.value])
  }

  /** `parse_arcs`: the source block, then the arcs. */
  function ParseArcs(c: Ctx, pos: nat, limit: nat, arena: seq<string>): (r: Step<Arcs>)
    requires pos <= limit <= |c.data|
    ensures pos <= r.pos <= limit && r.arena == arena
  {
    var s := Read32(c, pos, limit, arena);
    if s.res.Err? then Fail(s)
    else
      var a := ArcsFrom(c, s.pos, limit, arena, []);
      if a.res.Err? then Fail(a) else Step(Ok(Arcs(s.res.value as nat, a.res.value)), a.pos, arena)
  }

  /** One element of `parse_lines`: a nonzero word is a line number, a zero word is followed by a file name. */
  function LineEntry(c: Ctx, pos: nat, limit: nat, arena: seq<string>): (r: Step<Line>)
    requires pos <= limit <= |c.data|
    ensures pos <= r.pos <= limit
    ensures r.res.Ok? ==> r.pos > pos
  {
    var n := Read32(c, pos, limit, arena);
    if n.res.Err? then Fail(n)
    else if n.res.value != 0 then Step(Ok(LineNumber(n.res.value)), n.pos, arena)
    else
      var f := ReadString(c, n.pos, limit, arena);
      if f.res.Err? then Fail(f) else Step(Ok(FileName(f.res.value)), f.pos, f.arena)
  }

  /** `parse_lines`' loop: entries until the record ends. */
  function LinesFrom(c: Ctx, pos: nat, limit: nat, arena: seq<string>, acc: seq<Line>): (r: Step<seq<Line>>)
    requires pos <= limit <= |c.data|
    ensures pos <= r.pos <= limit
    decreases limit - pos
  {
    var e := LineEntry(c, pos, limit, arena);
    if e.res.Err? then
      if IsEof(e.res.error) then Step(Ok(acc), e.pos, e.arena) else Fail(e)
    else LinesFrom(c, e.pos, limit, e.arena, acc + [e.res.value])
  }

  /** `parse_lines`: the block number, then the entries without the last (the terminating empty name). */
  function ParseLines(c: Ctx, pos: nat, limit: nat, arena: seq<string>): (r: Step<Lines>)
    requires pos <= limit <= |c.data|
    ensures pos <= r.pos <= limit
  {
    var b := Read32(c, pos, limit, arena);
    if b.res.Err? then Fail(b)
    else
      var l := LinesFrom(c, b.pos, limit, arena, []);
      if l.res.Err? then Fail(l)
      else
        var entries := l.res.value;
        Step(Ok(Lines(b.res.value as nat, if entries == [] then [] else entries[..|entries| - 1])), l.pos, l.arena)
  }

  /**
   * `parse_arc_counts`: 64-bit counts until the record ends (reading a count can
   * only fail at the end of the data, which ends the list).
   */
  function CountsFrom(c: Ctx, pos: nat, limit: nat, arena: seq<string>, acc: seq<bv64>): (r: Step<seq<bv64>>)
    requires pos <= limit <= |c.data|
    ensures pos <= r.pos <= limit && r.arena == arena
    ensures r.res.Ok? && r.pos == limit && acc <= r.res.value && |r.res.value| == |acc| + (limit - pos) / 8
    decreases limit - pos
  {
    var e := Read64(c, pos, limit, arena);
    if e.res.Err? then Step(Ok(acc), e.pos, e.arena)
    else CountsFrom(c, e.pos, limit, e.arena, acc + [e.res.value])
  }

  /** Word `i` of the histogram bit vector, in the file's byte order. */
  function HistogramWord(c: Ctx, b: seq<byte>, i: nat): bv32
    requires |b| == 32 && i < 8
  {
    if c.bigEndian then BE32(b[4 * i..4 * i + 4]) else LE32(b[4 * i..4 * i + 4])
  }

  /** `read_histogram_bitvector`'s result: the 8 words of a 32-byte block. */
  function HistogramWords(c: Ctx, b: seq<byte>): (w: seq<bv32>)
    requires |b| == 32
    ensures |w| == 8
  {
    seq(8, i requires 0 <= i < 8 => HistogramWord(c, b, i))
  }

  /** Positions, from `i` on, of the set bits of the 256-bit vector, in increasing order. */
  function SetBits(words: seq<bv32>, i: nat): (r: seq<nat>)
    requires |words| == 8 && i <= 256
    ensures |r| <= 256 - i
    ensures forall k :: 0 <= k < |r| ==> i <= r[k] < 256
    ensures forall k, l :: 0 <= k < l < |r| ==> r[k] < r[l]
    ensures forall p :: i <= p < 256 ==> (p in r <==> BitSet(words[p / 32], p % 32))
    decreases 256 - i
  {
    if i == 256 then []
    else
      var rest := SetBits(words, i + 1);
      if BitSet(words[i / 32], i % 32) then [i] + rest else rest
  }

  /** One histogram bucket: count, minimum and sum. */
  function Bucket(c: Ctx, pos: nat, limit: nat, arena: seq<string>): (r: Step<HistogramBucket>)
    requires pos <= limit <= |c.data|
    ensures pos <= r.pos <= limit && r.arena == arena
    ensures r.res.Ok? ==> r.pos > pos
  {
    var n := Read32(c, pos, limit, arena);
    if n.res.Err? then Fail(n) else
    var mn := Read64(c, n.pos, limit, arena);
    if mn.res.Err? then Fail(mn) else
    var sm := Read64(c, mn.pos, limit, arena);
    if sm.res.Err? then Fail(sm)
    else Step(Ok(HistogramBucket(n.res.value, mn.res.value, sm.res.value)), sm.pos, arena)
  }

  /** The histogram buckets: bucket `k` is keyed by the `k`-th set bit position, or 256 when they run out. */
  function BucketsFrom(c: Ctx, pos: nat, limit: nat, arena: seq<string>, bits: seq<nat>, k: nat,
                       acc: map<nat, HistogramBucket>): (r: Step<map<nat, HistogramBucket>>)
    requires pos <= limit <= |c.data|
    ensures pos <= r.pos <= limit && r.arena == arena
    decreases limit - pos
  {
    var index := if k < |bits| then bits[k] else 256;
    var e := Bucket(c, pos, limit, arena);
    if e.res.Err? then
      if IsEof(e.res.error) then Step(Ok(acc), e.pos, e.arena) else Fail(e)
    else BucketsFrom(c, e.pos, limit, e.arena, bits, k + 1, acc[index := e.res.value])
  }

  /** `parse_summary`: three words, three double words, then an optional histogram. */
  function ParseSummary(c: Ctx, pos: nat, limit: nat, arena: seq<string>): (r: Step<Summary>)
    requires pos <= limit <= |c.data|
    ensures pos <= r.pos <= limit && r.arena == arena
  {
    var cs := Read32(c, pos, limit, arena);
    if cs.res.Err? then Fail(cs) else
    var num := Read32(c, cs.pos, limit, arena);
    if num.res.Err? then Fail(num) else
    var runs := Read32(c, num.pos, limit, arena);
    if runs.res.Err? then Fail(runs) else
    var sum := Read64(c, runs.pos, limit, arena);
    if sum.res.Err? then Fail(sum) else
    var max := Read64(c, sum.pos, limit, arena);
    if max.res.Err? then Fail(max) else
    var sumMax := Read64(c, max.pos, limit, arena);
    if sumMax.res.Err? then Fail(sumMax) else
    var h := ParseHistogram(c, sumMax.pos, limit, arena);
    if h.res.Err? then Fail(h)
    else Step(Ok(Summary(cs.res.value, num.res.value, runs.res.value, sum.res.value, max.res.value,
                         sumMax.res.value, h.res.value)), h.pos, arena)
  }

  /** The histogram part of `parse_summary`: absent when the bit vector is cut short. */
  function ParseHistogram(c: Ctx, pos: nat, limit: nat, arena: seq<string>): (r: Step<Option<Histogram>>)
    requires pos <= limit <= |c.data|
    ensures pos <= r.pos <= limit && r.arena == arena
  {
    var bv := ReadExact(c, pos, limit, 32, arena);
    if bv.res.Err? then Step(Ok(None), bv.pos, arena)
    else
      var bits := SetBits(HistogramWords(c, bv.res.value), 0);
      var b := BucketsFrom(c, bv.pos, limit, arena, bits, 0, map[]);
      if b.res.Err? then Fail(b) else Step(Ok(Some(Histogram(b.res.value))), b.pos, arena)
  }

  /** The tags `parse` has a record parser for. */
  predicate IsKnownTag(tag: bv32)
  {
    tag == FUNCTION_TAG || tag == BLOCKS_TAG || tag == ARCS_TAG || tag == LINES_TAG ||
    tag == COUNTER_BASE_TAG || tag == OBJECT_SUMMARY_TAG || tag == PROGRAM_SUMMARY_TAG
  }

  /** The body of one record, parsed by the sub-reader `[pos, limit)` according to its tag. */
  function ParseRecordBody(c: Ctx, tag: bv32, pos: nat, limit: nat, arena: seq<string>): (r: Step<Record>)
    requires pos <= limit <= |c.data|
    ensures pos <= r.pos <= limit
    ensures tag == EOF_TAG ==> r.res == Err(Eof)
    ensures !IsKnownTag(tag) && tag != EOF_TAG ==> r.res == Err(UnknownTag(tag))
    ensures r.res.Ok? ==> IsKnownTag(tag)
    ensures r.res.Ok? ==> (r.res.value.FunctionRecord? <==> tag == FUNCTION_TAG)
    ensures r.res.Ok? ==> (r.res.value.BlocksRecord? <==> tag == BLOCKS_TAG)
    ensures r.res.Ok? ==> (r.res.value.ArcsRecord? <==> tag == ARCS_TAG)
    ensures r.res.Ok? ==> (r.res.value.LinesRecord? <==> tag == LINES_TAG)
    ensures r.res.Ok? ==> (r.res.value.ArcCountsRecord? <==> tag == COUNTER_BASE_TAG)
    ensures r.res.Ok? ==> (r.res.value.SummaryRecord? <==> tag == OBJECT_SUMMARY_TAG || tag == PROGRAM_SUMMARY_TAG)
  {
    if tag == FUNCTION_TAG then
      var f := ParseFunction(c, pos, limit, arena);
      if f.res.Err? then Fail(f) else Step(Ok(FunctionRecord(f.res.value.0, f.res.value.1)), f.pos, f.arena)
    else if tag == BLOCKS_TAG then
      var b := BlocksFrom(c, pos, limit, arena, []);
      if b.res.Err? then Fail(b) else Step(Ok(BlocksRecord(Blocks(b.res.value))), b.pos, b.arena)
    else if tag == ARCS_TAG then
      var a := ParseArcs(c, pos, limit, arena);
      if a.res.Err? then Fail(a) else Step(Ok(ArcsRecord(a.res.value)), a.pos, a.arena)
    else if tag == LINES_TAG then
      var l := ParseLines(c, pos, limit, arena);
      if l.res.Err? then Fail(l) else Step(Ok(LinesRecord(l.res.value)), l.pos, l.arena)
    else if tag == COUNTER_BASE_TAG then
      var n := CountsFrom(c, pos, limit, arena, []);
      Step(Ok(ArcCountsRecord(ArcCounts(n.res.value))), n.pos, n.arena)
    else if tag == OBJECT_SUMMARY_TAG || tag == PROGRAM_SUMMARY_TAG then
      var s := ParseSummary(c, pos, limit, arena);
      if s.res.Err? then Fail(s) else Step(Ok(SummaryRecord(s.res.value)), s.pos, s.arena)
    else if tag == EOF_TAG then Step(Err(Eof), pos, arena)
    else Step(Err(UnknownTag(tag)), pos, arena)
  }

  /**
   * One element of `parse`: a record header, then the body parsed by a
   * sub-reader bounded to `4 × length` bytes.
   */
  function RecordEntry(c: Ctx, pos: nat, limit: nat, arena: seq<string>): (r: Step<Record>)
    requires pos <= limit <= |c.data|
    ensures pos <= r.pos <= limit
    ensures r.res.Ok? ==> r.pos > pos
  {
    var h := ReadRecordHeader(c, pos, limit, arena);
    if h.res.Err? then Fail(h)
    else
      var (tag, len) := h.res.value;
      ParseRecordBody(c, tag, h.pos, SubLimit(h.pos, len, limit), arena)
  }

  /**
   * `parse`'s loop: records until end of file. The next record starts wherever
   * the previous body's parser stopped. An end-of-file error (running out of
   * data, or the EOF tag) anywhere in a record ends the list; any other error is
   * the result.
   */
  function RecordsFrom(c: Ctx, pos: nat, limit: nat, arena: seq<string>, acc: seq<Record>): (r: Step<seq<Record>>)
    requires pos <= limit <= |c.data|
    ensures pos <= r.pos <= limit
    decreases limit - pos
  {
    var e := RecordEntry(c, pos, limit, arena);
    if e.res.Err? then
      if IsEof(e.res.error) then Step(Ok(acc), e.pos, e.arena) else Fail(e)
    else RecordsFrom(c, e.pos, limit, e.arena, acc + [e.res.value])
  }

  /** `Reader::new` followed by `parse`: a whole file. */
  function ParseFile(data: seq<byte>, arena: seq<string>): (r: Result<(Gcov, seq<string>)>)
  {
    match ReadHeader(data)
    case Err(e) => Err(e)
    case Ok(h) =>
      var c := Ctx(data, h.bigEndian, h.version, h.ty);
      var rs := RecordsFrom(c, 12, |data|, arena, []);
      if rs.res.Err? then Err(rs.res.error)
      else Ok((Gcov(h.ty, h.version, h.stamp, rs.res.value), rs.arena))
  }
}
