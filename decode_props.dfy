/**
 * Properties of the gcov decoding functions that relate several steps: how a
 * string written the way GCC writes it reads back, the order of the halves of
 * a 64-bit value, and how the record list ends.
 */
module DecodeProps {
  import opened Options
  import opened CovErrors
  import opened Words
  import opened Raw
  import opened Decode
  import Intern
  import Utf8

  /**
   * Whatever the byte order, a 64-bit value is stored low word first: its low
   * half is the 32-bit word at `pos` and its high half the word at `pos + 4`.
   */
  lemma DoubleWordOrder(c: Ctx, pos: nat, limit: nat, arena: seq<string>)
    requires pos + 8 <= limit <= |c.data|
    ensures var v := Read64(c, pos, limit, arena).res.value;
            (v & 0xffff_ffff) as bv32 == Read32(c, pos, limit, arena).res.value &&
            (v >> 32) as bv32 == Read32(c, pos + 4, limit, arena).res.value
  {
    var lo := Read32(c, pos, limit, arena).res.value;
    var hi := Read32(c, pos + 4, limit, arena).res.value;
    assert Read64(c, pos, limit, arena).res.value == Combine64(lo, hi);
    Combine64Halves(lo, hi);
  }

  /** Trailing NULs after a prefix that does not end in NUL are exactly what `TrimNul` removes. */
  lemma {:induction false} TrimPadding(b: seq<byte>, n: nat)
    requires n <= |b|
    requires n == 0 || b[n - 1] != 0
    requires forall i :: n <= i < |b| ==> b[i] == 0
    ensures TrimNul(b) == b[..n]
    decreases |b|
  {
    if |b| == n {
      assert b[..n] == b;
    } else {
      TrimPadding(b[..|b| - 1], n);
      assert b[..|b| - 1][..n] == b[..n];
    }
  }

  /**
   * The bytes of a string as GCC writes it (the UTF-8 text, then NUL padding)
   * read back as the same text, interned, with the reader just past the
   * padding; `PaddedString` says which bytes the length word hands to this
   * step. The text may not itself end in NUL.
   */
  lemma {:induction false} StringRoundTrip(c: Ctx, start: nat, arena: seq<string>, text: string, o: seq<Utf8.Octet>, pad: nat)
    requires o == Utf8.Encode(text)
    requires start + |o| + pad <= |c.data|
    requires ToOctets(c.data[start..start + |o|]) == o
    requires forall i :: start + |o| <= i < start + |o| + pad ==> c.data[i] == 0
    requires text == [] || text[|text| - 1] != 0 as char
    ensures var (arena', sym) := Intern.InternSpec(arena, text);
            StringBody(c, start, start + |o| + pad, arena) == Step(Ok(sym), start + |o| + pad, arena')
  {
    PaddedText(c.data, start, pad, text, o);
    BodyOfText(c, start, start + |o| + pad, arena, text);
  }

  /** Bytes that read as `text` make a string body holding `text`, interned. */
  lemma BodyOfText(c: Ctx, start: nat, end: nat, arena: seq<string>, text: string)
    requires start <= end <= |c.data| && StringText(c.data[start..end]) == Some(text)
    ensures var (arena', sym) := Intern.InternSpec(arena, text);
            StringBody(c, start, end, arena) == Step(Ok(sym), end, arena')
  {
  }

  /** The bytes of a string as GCC writes it (UTF-8 text `o` of `text`, then NUL padding) hold that text. */
  lemma {:induction false} PaddedText(d: seq<byte>, start: nat, pad: nat, text: string, o: seq<Utf8.Octet>)
    requires o == Utf8.Encode(text)
    requires start + |o| + pad <= |d|
    requires ToOctets(d[start..start + |o|]) == o
    requires forall i :: start + |o| <= i < start + |o| + pad ==> d[i] == 0
    requires text == [] || text[|text| - 1] != 0 as char
    ensures StringText(d[start..start + |o| + pad]) == Some(text)
  {
    Utf8.EncodeEnd(text);
    PaddedOctets(d, start, pad, o);
    Utf8.DecodeEncoded(o, text);
  }

  /** Octets not ending in NUL, then NUL padding: trimming the padding gives the octets back. */
  lemma PaddedOctets(d: seq<byte>, start: nat, pad: nat, o: seq<Utf8.Octet>)
    requires start + |o| + pad <= |d|
    requires ToOctets(d[start..start + |o|]) == o
    requires o == [] || o[|o| - 1] != 0
    requires forall i :: start + |o| <= i < start + |o| + pad ==> d[i] == 0
    ensures ToOctets(TrimNul(d[start..start + |o| + pad])) == o
  {
    var n := |o|;
    if n > 0 {
      assert ToOctets(d[start..start + n])[n - 1] == d[start + n - 1] as int;
    }
    PaddedBytes(d, start, n, pad);
  }

  /** A length word announcing `len` bytes within the record: the string is exactly those bytes. */
  lemma PaddedString(c: Ctx, pos: nat, limit: nat, arena: seq<string>, w: bv32, len: nat, body: Step<Symbol>)
    requires pos + 4 + len <= limit <= |c.data|
    requires Read32(c, pos, limit, arena).res == Ok(w) && 4 * (w as int) == len
    requires StringBody(c, pos + 4, pos + 4 + len, arena) == body
    ensures ReadString(c, pos, limit, arena) == body
  {
    ReadStringWords(c, pos, limit, arena, w);
    var words := w as int;
    assert SubLimit(pos + 4, 4 * words, limit) == pos + 4 + len;
  }

  /** NUL padding after a last byte that is not NUL is exactly what `TrimNul` removes. */
  lemma PaddedBytes(d: seq<byte>, start: nat, n: nat, pad: nat)
    requires start + n + pad <= |d|
    requires n == 0 || d[start + n - 1] != 0
    requires forall i :: start + n <= i < start + n + pad ==> d[i] == 0
    ensures TrimNul(d[start..start + n + pad]) == d[start..start + n]
  {
    var bytes := d[start..start + n + pad];
    forall i | n <= i < |bytes|
      ensures bytes[i] == 0
    {
      assert bytes[i] == d[start + i];
    }
    TrimPadding(bytes, n);
    assert bytes[..n] == d[start..start + n];
  }

  /** A string is the bytes the length word announces, as far as the record allows. */
  lemma ReadStringWords(c: Ctx, pos: nat, limit: nat, arena: seq<string>, w: bv32)
    requires pos <= limit <= |c.data|
    requires Read32(c, pos, limit, arena).res == Ok(w)
    ensures ReadString(c, pos, limit, arena) == StringBody(c, pos + 4, SubLimit(pos + 4, 4 * (w as int), limit), arena)
  {
  }

  /** The end of the data (or of the enclosing record) ends the record list without error. */
  lemma RecordsEndAtLimit(c: Ctx, limit: nat, arena: seq<string>, acc: seq<Record>)
    requires limit <= |c.data|
    ensures RecordsFrom(c, limit, limit, arena, acc) == Step(Ok(acc), limit, arena)
  {
  }

  /** An EOF tag ends the record list without error, just after the record header. */
  lemma RecordsEndAtEofTag(c: Ctx, pos: nat, limit: nat, arena: seq<string>, acc: seq<Record>)
    requires pos <= limit <= |c.data|
    requires ReadRecordHeader(c, pos, limit, arena).res.Ok?
    requires ReadRecordHeader(c, pos, limit, arena).res.value.0 == EOF_TAG
    ensures RecordsFrom(c, pos, limit, arena, acc) == Step(Ok(acc), pos + 8, arena)
  {
  }

  /** Any tag without a parser (other than the EOF tag) makes the whole parse fail with `UnknownTag`. */
  lemma RecordsUnknownTag(c: Ctx, pos: nat, limit: nat, arena: seq<string>, acc: seq<Record>)
    requires pos <= limit <= |c.data|
    requires ReadRecordHeader(c, pos, limit, arena).res.Ok?
    requires var tag := ReadRecordHeader(c, pos, limit, arena).res.value.0;
             !IsKnownTag(tag) && tag != EOF_TAG
    ensures RecordsFrom(c, pos, limit, arena, acc).res
         == Err(UnknownTag(ReadRecordHeader(c, pos, limit, arena).res.value.0))
  {
  }

  /**
   * `parse_lines` keeps every entry it read except the last, the empty file
   * name that terminates the list.
   */
  lemma LinesDropTerminator(c: Ctx, pos: nat, limit: nat, arena: seq<string>)
    requires pos <= limit <= |c.data|
    requires ParseLines(c, pos, limit, arena).res.Ok?
    ensures var entries := LinesFrom(c, pos + 4, limit, arena, []);
            entries.res.Ok? &&
            (entries.res.value == [] ==> ParseLines(c, pos, limit, arena).res.value.lines == []) &&
            (entries.res.value != [] ==> ParseLines(c, pos, limit, arena).res.value.lines + [entries.res.value[|entries.res.value| - 1]]
                                         == entries.res.value)
  {
  }
}
