/**
 * The gcov `Reader` of cov/src/reader.rs. The byte source is a `Stream` whose
 * position all readers of one file share, as the record sub-readers share the
 * underlying `Read` (they are `Take` adaptors over it). A reader may not read
 * past its `limit`; `cursor` is the reader's own byte counter, which the
 * original only uses for error locations. Every method is proved to compute
 * exactly what the corresponding function of module `Decode` says.
 */
module GcovReader {
  import opened Options
  import opened CovErrors
  import opened Words
  import opened Raw
  import D = Decode
  import Intern
  import Utf8

  /** The in-memory byte source. */
  class Stream {
    const data: seq<byte>
    var pos: nat

    constructor (data: seq<byte>)
      ensures this.data == data && pos == 0
    {
      this.data := data;
      pos := 0;
    }
  }

  class Reader {
    const stream: Stream
    const interner: Intern.Interner
    const limit: nat
    var cursor: nat
    const ty: FileType
    var version: Version
    var stamp: bv32
    const isBigEndian: bool

    ghost predicate Valid()
      reads this, stream, interner
    {
      stream.pos <= limit <= |stream.data| && interner.Valid()
    }

    /** The decoding context this reader works in. */
    function Context(): D.Ctx
      reads this`version
    {
      D.Ctx(stream.data, isBigEndian, version, ty)
    }

    /** A top-level reader just after the magic word. */
    constructor (stream: Stream, interner: Intern.Interner, ty: FileType, isBigEndian: bool)
      ensures this.stream == stream && this.interner == interner && limit == |stream.data|
      ensures this.ty == ty && this.isBigEndian == isBigEndian
      ensures cursor == 4 && version == INVALID_VERSION && stamp == 0
    {
      this.stream := stream;
      this.interner := interner;
      limit := |stream.data|;
      this.ty := ty;
      this.isBigEndian := isBigEndian;
      cursor := 4;
      version := INVALID_VERSION;
      stamp := 0;
    }

    /** A record's sub-reader: same stream, interner and file parameters, bounded to `length` more bytes. */
    constructor Sub(parent: Reader, length: nat)
      requires parent.Valid()
      ensures stream == parent.stream && interner == parent.interner
      ensures limit == D.SubLimit(parent.stream.pos, length, parent.limit)
      ensures cursor == parent.cursor && ty == parent.ty && version == parent.version
      ensures stamp == parent.stamp && isBigEndian == parent.isBigEndian
      ensures Valid()
    {
      stream := parent.stream;
      interner := parent.interner;
      limit := D.SubLimit(parent.stream.pos, length, parent.limit);
      cursor := parent.cursor;
      ty := parent.ty;
      version := parent.version;
      stamp := parent.stamp;
      isBigEndian := parent.isBigEndian;
    }

    /** `read_exact` on the bounded stream: a short read consumes what is left. */
    method ReadExact(n: nat) returns (r: Result<seq<byte>>)
      requires Valid()
      modifies stream
      ensures Valid()
      ensures var s := D.ReadExact(Context(), old(stream.pos), limit, n, interner.arena);
              r == s.res && stream.pos == s.pos
    {
      if stream.pos + n <= limit {
        r := Ok(stream.data[stream.pos..stream.pos + n]);
        stream.pos := stream.pos + n;
      } else {
        stream.pos := limit;
        r := Err(UnexpectedEof);
      }
    }

    /** `read_32`. */
    method Read32() returns (r: Result<bv32>)
      requires Valid()
      modifies this`cursor, stream
      ensures Valid()
      ensures cursor == old(cursor) + 4
      ensures var s := D.Read32(Context(), old(stream.pos), limit, interner.arena);
              r == s.res && stream.pos == s.pos
    {
      var b := ReadExact(4);
      cursor := cursor + 4;
      if b.Err? {
        return Err(b.error);
      }
      var value := LE32(b.value);
      if isBigEndian {
        value := SwapBytes32(value);
      }
      r := Ok(value);
    }

    /** `read_64`. */
    method Read64() returns (r: Result<bv64>)
      requires Valid()
      modifies this`cursor, stream
      ensures Valid()
      ensures cursor == old(cursor) + 8
      ensures var s := D.Read64(Context(), old(stream.pos), limit, interner.arena);
              r == s.res && stream.pos == s.pos
    {
      var b := ReadExact(8);
      cursor := cursor + 8;
      if b.Err? {
        return Err(b.error);
      }
      var value := LE64(b.value);
      if isBigEndian {
        value := SwapBytes64(value.RotateLeft(32));
      }
      r := Ok(value);
    }

    /** `read_histogram_bitvector`: 32 bytes decoded as eight words in the file's byte order. */
    method ReadHistogramBitvector() returns (r: Result<seq<bv32>>)
      requires Valid()
      modifies this`cursor, stream
      ensures Valid()
      ensures var s := D.ReadExact(Context(), old(stream.pos), limit, 32, interner.arena);
              stream.pos == s.pos && r.Ok? == s.res.Ok? &&
              (r.Err? ==> r.error == s.res.error) &&
              (r.Ok? ==> r.value == D.HistogramWords(Context(), s.res.value))
    {
      var buf := ReadExact(32);
      cursor := cursor + 32;
      if buf.Err? {
        return Err(buf.error);
      }
      var words := DecodeWords(buf.value);
      r := Ok(words);
    }

    /** The decoding loop of `read_histogram_bitvector`: eight words in the file's byte order. */
    method DecodeWords(bytes: seq<byte>) returns (w: seq<bv32>)
      requires |bytes| == 32
      ensures w == D.HistogramWords(Context(), bytes)
    {
      var decoded := new bv32[8];
      ghost var c := Context();
      for i := 0 to 8
        invariant forall j :: 0 <= j < i ==> decoded[j] == D.HistogramWord(c, bytes, j)
      {
        decoded[i] := if isBigEndian then BE32(bytes[4 * i..4 * i + 4]) else LE32(bytes[4 * i..4 * i + 4]);
      }
      w := decoded[..];
    }

    /** `read_string`: read the word count, read to the end of those bytes, trim NULs, decode, intern. */
    method ReadString() returns (r: Result<Symbol>)
      requires Valid()
      modifies this`cursor, stream, interner
      ensures Valid()
      ensures var s := D.ReadString(Context(), old(stream.pos), limit, old(interner.arena));
              r == s.res && stream.pos == s.pos && interner.arena == s.arena
    {
      var n := Read32();
      if n.Err? {
        return Err(n.error);
      }
      var length := 4 * (n.value as int);
      var start := stream.pos;
      var end := D.SubLimit(start, length, limit);
      ghost var body := D.StringBody(Context(), start, end, interner.arena);
      var buf := stream.data[start..end];
      stream.pos := end;
      cursor := cursor + length;
      var text := D.StringText(buf);
      if text.None? {
        return Err(FromUtf8);
      }
      var sym := interner.Intern(text.value);
      r := Ok(sym);
      assert r == body.res && interner.arena == body.arena;
    }

    /** `consume_to_end`: skip to the reader's limit, 64 bytes at a time. */
    method ConsumeToEnd()
      requires Valid()
      modifies stream
      ensures Valid()
      ensures stream.pos == limit
    {
      while true
        invariant Valid()
        decreases limit - stream.pos
      {
        var n := if limit - stream.pos < 64 then limit - stream.pos else 64;
        if n == 0 {
          break;
        }
        stream.pos := stream.pos + n;
      }
    }

    /** `read_source`: function name, file name and line. */
    method ReadSource() returns (r: Result<Source>)
      requires Valid()
      modifies this`cursor, stream, interner
      ensures Valid()
      ensures var s := D.ReadSource(Context(), old(stream.pos), limit, old(interner.arena));
              r == s.res && stream.pos == s.pos && interner.arena == s.arena
    {
      var name := ReadString();
      if name.Err? {
        return Err(name.error);
      }
      var filename := ReadString();
      if filename.Err? {
        return Err(filename.error);
      }
      var line := Read32();
      if line.Err? {
        return Err(line.error);
      }
      r := Ok(Source(name.value, filename.value, line.value));
    }

    /** `parse_function`: identifier, checksums and source, then the rest of the record is skipped. */
    method ParseFunction() returns (r: Result<(bv32, Function)>)
      requires Valid()
      modifies this`cursor, stream, interner
      ensures Valid()
      ensures var s := D.ParseFunction(Context(), old(stream.pos), limit, old(interner.arena));
              r == s.res && stream.pos == s.pos && interner.arena == s.arena
    {
      var ident := Read32();
      if ident.Err? {
        return Err(ident.error);
      }
      var linenoChecksum := Read32();
      if linenoChecksum.Err? {
        return Err(linenoChecksum.error);
      }
      var cfgChecksum := ReadCfgChecksum();
      if cfgChecksum.Err? {
        return Err(cfgChecksum.error);
      }
      var source := ParseFunctionSource();
      if source.Err? {
        return Err(source.error);
      }
      ConsumeToEnd();
      r := Ok((ident.value, Function(linenoChecksum.value, cfgChecksum.value, source.value)));
    }

    /** The CFG checksum of `parse_function`: read from GCC 4.7 on, zero before. */
    method ReadCfgChecksum() returns (r: Result<bv32>)
      requires Valid()
      modifies this`cursor, stream
      ensures Valid()
      ensures var s := D.CfgChecksum(Context(), old(stream.pos), limit, interner.arena);
              r == s.res && stream.pos == s.pos
    {
      r := Ok(0);
      if version >= VERSION_4_7 {
        r := Read32();
      }
    }

    /** The source part of `parse_function`: full for a GCNO, only the name for a GCDA before 4.7, else none. */
    method ParseFunctionSource() returns (r: Result<Option<Source>>)
      requires Valid()
      modifies this`cursor, stream, interner
      ensures Valid()
      ensures var s := D.ParseFunctionSource(Context(), old(stream.pos), limit, old(interner.arena));
              r == s.res && stream.pos == s.pos && interner.arena == s.arena
    {
      if ty == Gcno {
        var src := ReadSource();
        if src.Err? {
          return Err(src.error);
        }
        r := Ok(Some(src.value));
      } else if version < VERSION_4_7 {
        var name := ReadString();
        if name.Err? {
          return Err(name.error);
        }
        r := Ok(Some(Source(name.value, Intern.UNKNOWN_SYMBOL, 0)));
      } else {
        r := Ok(None);
      }
    }

    /** One flag word of `parse_blocks`. */
    method ReadBlockFlag() returns (r: Result<BlockAttr>)
      requires Valid()
      modifies this`cursor, stream
      ensures Valid()
      ensures var s := D.BlockFlag(Context(), old(stream.pos), limit, interner.arena);
              r == s.res && stream.pos == s.pos
    {
      var rawFlag := Read32();
      if rawFlag.Err? {
        return Err(rawFlag.error);
      }
      r := BlockAttrFromGcno(rawFlag.value);
    }

    /** `parse_blocks`: block flags until the record ends. */
    method ParseBlocks() returns (r: Result<Blocks>)
      requires Valid()
      modifies this`cursor, stream
      ensures Valid()
      ensures var s := D.BlocksFrom(Context(), old(stream.pos), limit, interner.arena, []);
              stream.pos == s.pos && r.Ok? == s.res.Ok? &&
              (r.Ok? ==> r.value == Blocks(s.res.value)) && (r.Err? ==> r.error == s.res.error)
    {
      var flags: seq<BlockAttr> := [];
      while true
        invariant Valid()
        invariant D.BlocksFrom(Context(), old(stream.pos), limit, interner.arena, [])
               == D.BlocksFrom(Context(), stream.pos, limit, interner.arena, flags)
        decreases limit - stream.pos
      {
        var e := ReadBlockFlag();
        if e.Err? {
          if IsEof(e.error) {
            return Ok(Blocks(flags));
          }
          return Err(e.error);
        }
        flags := flags + [e.value];
      }
    }

    /** One arc of `parse_arcs`: destination block and validated flags. */
    method ReadArc() returns (r: Result<Arc>)
      requires Valid()
      modifies this`cursor, stream
      ensures Valid()
      ensures var s := D.ArcEntry(Context(), old(stream.pos), limit, interner.arena);
              r == s.res && stream.pos == s.pos
    {
      var destBlock := Read32();
      if destBlock.Err? {
        return Err(destBlock.error);
      }
      var rawFlags := Read32();
      if rawFlags.Err? {
        return Err(rawFlags.error);
      }
      var flags := ArcAttrFromGcno(rawFlags.value);
      if flags.Err? {
        return Err(flags.error);
      }
      r := Ok(Arc(destBlock.value as nat, flags.value));
    }

    /** `parse_arcs`: the source block, then arcs until the record ends. */
    method ParseArcs() returns (r: Result<Arcs>)
      requires Valid()
      modifies this`cursor, stream
      ensures Valid()
      ensures var s := D.ParseArcs(Context(), old(stream.pos), limit, interner.arena);
              r == s.res && stream.pos == s.pos
    {
      var srcBlock := Read32();
      if srcBlock.Err? {
        return Err(srcBlock.error);
      }
      var arcs: seq<Arc> := [];
      ghost var start := stream.pos;
      while true
        invariant Valid()
        invariant D.ArcsFrom(Context(), start, limit, interner.arena, [])
               == D.ArcsFrom(Context(), stream.pos, limit, interner.arena, arcs)
        decreases limit - stream.pos
      {
        var e := ReadArc();
        if e.Err? {
          if IsEof(e.error) {
            return Ok(Arcs(srcBlock.value as nat, arcs));
          }
          return Err(e.error);
        }
        arcs := arcs + [e.value];
      }
    }

    /** One entry of `parse_lines`: a line number, or (after a zero word) a file name. */
    method ReadLine() returns (r: Result<Line>)
      requires Valid()
      modifies this`cursor, stream, interner
      ensures Valid()
      ensures var s := D.LineEntry(Context(), old(stream.pos), limit, old(interner.arena));
              r == s.res && stream.pos == s.pos && interner.arena == s.arena
    {
      var lineNumber := Read32();
      if lineNumber.Err? {
        return Err(lineNumber.error);
      }
      if lineNumber.value != 0 {
        return Ok(LineNumber(lineNumber.value));
      }
      var filename := ReadString();
      if filename.Err? {
        return Err(filename.error);
      }
      r := Ok(FileName(filename.value));
    }

    /** `parse_lines`: the block number, then entries until the record ends, without the last one. */
    method ParseLines() returns (r: Result<Lines>)
      requires Valid()
      modifies this`cursor, stream, interner
      ensures Valid()
      ensures var s := D.ParseLines(Context(), old(stream.pos), limit, old(interner.arena));
              r == s.res && stream.pos == s.pos && interner.arena == s.arena
    {
      var blockNumber := Read32();
      if blockNumber.Err? {
        return Err(blockNumber.error);
      }
      var entries := ReadLineEntries();
      if entries.Err? {
        return Err(entries.error);
      }
      var lines := entries.value;
      if lines != [] {
        lines := lines[..|lines| - 1];
      }
      r := Ok(Lines(blockNumber.value as nat, lines));
    }

    /** The loop of `parse_lines`: entries until the record ends, the terminating empty name included. */
    method ReadLineEntries() returns (r: Result<seq<Line>>)
      requires Valid()
      modifies this`cursor, stream, interner
      ensures Valid()
      ensures var s := D.LinesFrom(Context(), old(stream.pos), limit, old(interner.arena), []);
              r == s.res && stream.pos == s.pos && interner.arena == s.arena
    {
      var lines: seq<Line> := [];
      ghost var c := Context();
      while true
        invariant Valid() && Context() == c
        invariant D.LinesFrom(c, old(stream.pos), limit, old(interner.arena), [])
               == D.LinesFrom(c, stream.pos, limit, interner.arena, lines)
        decreases limit - stream.pos
      {
        ghost var pos, arena := stream.pos, interner.arena;
        var e := ReadLine();
        ghost var step := D.LineEntry(c, pos, limit, arena);
        assert e == step.res && stream.pos == step.pos && interner.arena == step.arena;
        if e.Err? {
          if !IsEof(e.error) {
            return Err(e.error);
          }
          assert D.LinesFrom(c, pos, limit, arena, lines) == D.Step(Ok(lines), stream.pos, interner.arena);
          return Ok(lines);
        }
        lines := lines + [e.value];
      }
    }

    /** `parse_arc_counts`: 64-bit counts until the record ends (the end of the data is the only way a read fails). */
    method ParseArcCounts() returns (r: ArcCounts)
      requires Valid()
      modifies this`cursor, stream
      ensures Valid()
      ensures var s := D.CountsFrom(Context(), old(stream.pos), limit, interner.arena, []);
              stream.pos == s.pos && r == ArcCounts(s.res.value)
    {
      var counts: seq<bv64> := [];
      while true
        invariant Valid()
        invariant D.CountsFrom(Context(), old(stream.pos), limit, interner.arena, [])
               == D.CountsFrom(Context(), stream.pos, limit, interner.arena, counts)
        decreases limit - stream.pos
      {
        var e := Read64();
        if e.Err? {
          return ArcCounts(counts);
        }
        counts := counts + [e.value];
      }
    }

    /** One histogram bucket: count, minimum and sum. */
    method ReadBucket() returns (r: Result<HistogramBucket>)
      requires Valid()
      modifies this`cursor, stream
      ensures Valid()
      ensures var s := D.Bucket(Context(), old(stream.pos), limit, interner.arena);
              r == s.res && stream.pos == s.pos
    {
      var num := Read32();
      if num.Err? {
        return Err(num.error);
      }
      var min := Read64();
      if min.Err? {
        return Err(min.error);
      }
      var sum := Read64();
      if sum.Err? {
        return Err(sum.error);
      }
      r := Ok(HistogramBucket(num.value, min.value, sum.value));
    }

    /**
     * The histogram of `parse_summary`: absent when the bit vector is cut short
     * (the only way reading it can fail); otherwise buckets until the record
     * ends, keyed by the positions of the set bits in turn, then by 256.
     */
    method ParseHistogram() returns (r: Result<Option<Histogram>>)
      requires Valid()
      modifies this`cursor, stream
      ensures Valid()
      ensures var s := D.ParseHistogram(Context(), old(stream.pos), limit, interner.arena);
              r == s.res && stream.pos == s.pos
    {
      var bitvector := ReadHistogramBitvector();
      if bitvector.Err? {
        return Ok(None);
      }
      var bitpos := D.SetBits(bitvector.value, 0);
      var buckets := ReadBuckets(bitpos);
      if buckets.Err? {
        return Err(buckets.error);
      }
      r := Ok(Some(Histogram(buckets.value)));
    }

    /** The buckets of a histogram until the record ends: the `k`-th is keyed by `bitpos[k]`, or by 256 past its end. */
    method ReadBuckets(bitpos: seq<nat>) returns (r: Result<map<nat, HistogramBucket>>)
      requires Valid()
      modifies this`cursor, stream
      ensures Valid()
      ensures var s := D.BucketsFrom(Context(), old(stream.pos), limit, interner.arena, bitpos, 0, map[]);
              r == s.res && stream.pos == s.pos
    {
      var k := 0;
      var buckets: map<nat, HistogramBucket> := map[];
      ghost var c, arena := Context(), interner.arena;
      while true
        invariant Valid() && Context() == c && interner.arena == arena
        invariant D.BucketsFrom(c, old(stream.pos), limit, arena, bitpos, 0, map[])
               == D.BucketsFrom(c, stream.pos, limit, arena, bitpos, k, buckets)
        decreases limit - stream.pos
      {
        var index := if k < |bitpos| then bitpos[k] else 256;
        ghost var pos := stream.pos;
        var e := ReadBucket();
        ghost var step := D.Bucket(c, pos, limit, arena);
        assert e == step.res && stream.pos == step.pos;
        if e.Err? {
          if IsEof(e.error) {
            assert D.BucketsFrom(c, pos, limit, arena, bitpos, k, buckets) == D.Step(Ok(buckets), stream.pos, arena);
            return Ok(buckets);
          }
          return Err(e.error);
        }
        buckets := buckets[index := e.value];
        k := k + 1;
      }
    }

    /** `parse_summary`: checksum, counts, sums and maximum, then the optional histogram. */
    method ParseSummary() returns (r: Result<Summary>)
      requires Valid()
      modifies this`cursor, stream
      ensures Valid()
      ensures var s := D.ParseSummary(Context(), old(stream.pos), limit, interner.arena);
              r == s.res && stream.pos == s.pos
    {
      var checksum := Read32();
      if checksum.Err? {
        return Err(checksum.error);
      }
      var num := Read32();
      if num.Err? {
        return Err(num.error);
      }
      var runs := Read32();
      if runs.Err? {
        return Err(runs.error);
      }
      var sum := Read64();
      if sum.Err? {
        return Err(sum.error);
      }
      var max := Read64();
      if max.Err? {
        return Err(max.error);
      }
      var sumMax := Read64();
      if sumMax.Err? {
        return Err(sumMax.error);
      }
      var histogram := ParseHistogram();
      if histogram.Err? {
        return Err(histogram.error);
      }
      r := Ok(Summary(checksum.value, num.value, runs.value, sum.value, max.value, sumMax.value, histogram.value));
    }

    /**
     * `read_record_header`: the tag, and a sub-reader bounded to the record's
     * `4 × length` bytes. The parent's cursor moves past the whole record, while
     * the stream moves only as far as the sub-reader reads.
     */
    method ReadRecordHeader() returns (r: Result<(bv32, Reader)>)
      requires Valid()
      modifies this`cursor, stream
      ensures Valid()
      ensures var s := D.ReadRecordHeader(Context(), old(stream.pos), limit, interner.arena);
              stream.pos == s.pos && r.Ok? == s.res.Ok? && (r.Err? ==> r.error == s.res.error) &&
              (r.Ok? ==> var (tag, sub) := r.value;
                          tag == s.res.value.0 && fresh(sub) && sub.Valid() &&
                          sub.stream == stream && sub.interner == interner &&
                          sub.limit == D.SubLimit(stream.pos, s.res.value.1, limit) &&
                          sub.Context() == Context() && sub.stamp == stamp &&
                          sub.cursor == old(cursor) + 8 && cursor == old(cursor) + 8 + s.res.value.1)
    {
      var tag := Read32();
      if tag.Err? {
        return Err(tag.error);
      }
      var length := Read32();
      if length.Err? {
        return Err(length.error);
      }
      var byteLength := 4 * (length.value as int);
      var sub := new Reader.Sub(this, byteLength);
      cursor := cursor + byteLength;
      r := Ok((tag.value, sub));
    }

    /** One record of `parse`: the header, then the body parsed by the sub-reader according to the tag. */
    method ParseRecord() returns (r: Result<Record>)
      requires Valid()
      modifies this`cursor, stream, interner
      ensures Valid()
      ensures var s := D.RecordEntry(Context(), old(stream.pos), limit, old(interner.arena));
              r == s.res && stream.pos == s.pos && interner.arena == s.arena
    {
      var header := ReadRecordHeader();
      if header.Err? {
        return Err(header.error);
      }
      var (tag, sub) := header.value;
      r := sub.ParseBody(tag);
    }

    /** The body of one record of `parse`, read by this sub-reader according to the record's tag. */
    method ParseBody(tag: bv32) returns (r: Result<Record>)
      requires Valid()
      modifies this`cursor, stream, interner
      ensures Valid()
      ensures var s := D.ParseRecordBody(Context(), tag, old(stream.pos), limit, old(interner.arena));
              r == s.res && stream.pos == s.pos && interner.arena == s.arena
    {
      if tag == FUNCTION_TAG {
        var f := ParseFunction();
        if f.Err? {
          return Err(f.error);
        }
        r := Ok(FunctionRecord(f.value.0, f.value.1));
      } else if tag == BLOCKS_TAG {
        var b := ParseBlocks();
        if b.Err? {
          return Err(b.error);
        }
        r := Ok(BlocksRecord(b.value));
      } else if tag == ARCS_TAG {
        var a := ParseArcs();
        if a.Err? {
          return Err(a.error);
        }
        r := Ok(ArcsRecord(a.value));
      } else if tag == LINES_TAG {
        var l := ParseLines();
        if l.Err? {
          return Err(l.error);
        }
        r := Ok(LinesRecord(l.value));
      } else if tag == COUNTER_BASE_TAG {
        var n := ParseArcCounts();
        r := Ok(ArcCountsRecord(n));
      } else if tag == OBJECT_SUMMARY_TAG || tag == PROGRAM_SUMMARY_TAG {
        var m := ParseSummary();
        if m.Err? {
          return Err(m.error);
        }
        r := Ok(SummaryRecord(m.value));
      } else if tag == EOF_TAG {
        r := Err(Eof);
      } else {
        r := Err(UnknownTag(tag));
      }
    }

    /** `parse`: records until end of file (the EOF tag or the end of the data). */
    method Parse() returns (r: Result<Gcov>)
      requires Valid()
      modifies this`cursor, stream, interner
      ensures Valid()
      ensures var s := D.RecordsFrom(Context(), old(stream.pos), limit, old(interner.arena), []);
              stream.pos == s.pos && interner.arena == s.arena && r.Ok? == s.res.Ok? &&
              (r.Ok? ==> r.value == Gcov(ty, version, stamp, s.res.value)) && (r.Err? ==> r.error == s.res.error)
    {
      var records: seq<Record> := [];
      while true
        invariant Valid()
        invariant D.RecordsFrom(Context(), old(stream.pos), limit, old(interner.arena), [])
               == D.RecordsFrom(Context(), stream.pos, limit, interner.arena, records)
        decreases limit - stream.pos
      {
        var e := ParseRecord();
        if e.Err? {
          if IsEof(e.error) {
            return Ok(Gcov(ty, version, stamp, records));
          }
          return Err(e.error);
        }
        records := records + [e.value];
      }
    }
  }

  /**
   * `Reader::new`: the magic word (read little-endian) fixes the file type and
   * byte order, then the version is read and validated, then the stamp.
   */
  method Open(stream: Stream, interner: Intern.Interner) returns (r: Result<Reader>)
    requires stream.pos == 0 && interner.Valid()
    modifies stream
    ensures match D.ReadHeader(stream.data)
            case Err(e) => r == Err(e)
            case Ok(h) =>
              r.Ok? && fresh(r.value) && r.value.Valid() &&
              r.value.stream == stream && r.value.interner == interner &&
              r.value.Context() == D.Ctx(stream.data, h.bigEndian, h.version, h.ty) &&
              r.value.stamp == h.stamp && r.value.limit == |stream.data| &&
              stream.pos == 12 && r.value.cursor == 12
  {
    if |stream.data| < 4 {
      stream.pos := |stream.data|;
      return Err(UnexpectedEof);
    }
    var magic := LE32(stream.data[..4]);
    stream.pos := 4;
    var kind := D.MagicType(magic);
    if kind.Err? {
      return Err(kind.error);
    }
    var (ty, isBigEndian) := kind.value;
    var reader := new Reader(stream, interner, ty, isBigEndian);
    var raw := reader.Read32();
    if raw.Err? {
      return Err(raw.error);
    }
    var version := VersionTryFrom(raw.value);
    if version.Err? {
      return Err(version.error);
    }
    reader.version := version.value;
    var stamp := reader.Read32();
    if stamp.Err? {
      return Err(stamp.error);
    }
    reader.stamp := stamp.value;
    r := Ok(reader);
  }
}
