/** The 64-byte image identity of the image tool: `encode_source_id`, `build_identity` and
    `decode_identity`, little-endian throughout, with the CRC over the covered content and
    the block itself. */
module ImageIdentity {
  import opened Bits
  import opened Options
  import opened Endian
  import opened ImageLayout
  import Crc32

  const MAGIC: Bytes := [0x4d, 0x53, 0x50, 0x4d]
  const FORMAT_VERSION := 1
  const CRC_OFFSET := 16
  const CRC_SIZE := 4
  const FLAG_SOURCE_DIRTY := 1
  const FLAG_DEBUG := 2
  const SOURCE_SIZE := 16
  const RESERVED_SIZE := 24

  function Repeat(value: byte, n: nat): (r: Bytes)
    ensures |r| == n && forall i :: 0 <= i < n ==> r[i] == value
  {
    seq(n, _ => value)
  }

  // ---- the source identifier ----

  predicate Printable(b: byte) { 0x21 <= b <= 0x7e }

  predicate AllPrintable(text: Bytes) { forall i :: 0 <= i < |text| ==> Printable(text[i]) }

  predicate SourceText(text: Bytes) { 1 <= |text| <= SOURCE_SIZE && AllPrintable(text) }

  function Padded(text: Bytes): (r: Bytes)
    requires |text| <= SOURCE_SIZE
    ensures |r| == SOURCE_SIZE
  {
    text + Repeat(0, SOURCE_SIZE - |text|)
  }

  /** The ASCII bytes of a string, if it has any. */
  function Ascii(s: string): Option<Bytes> {
    if exists i :: 0 <= i < |s| && s[i] as int >= 128 then None
    else Some(seq(|s|, i requires 0 <= i < |s| => if s[i] as int < 128 then s[i] as int else 0))
  }

  function EncodeSourceId(s: string): (r: Option<Bytes>) {
    match Ascii(s)
    case None => None
    case Some(text) => if SourceText(text) then Some(Padded(text)) else None
  }

  /** Accepted are exactly 1 to 16 characters from '!' to '~', and the field is their codes
      followed by zeros. */
  lemma {:induction false} AcceptedSources(s: string)
    ensures EncodeSourceId(s).Some? <==> 1 <= |s| <= 16 && forall i :: 0 <= i < |s| ==> '!' <= s[i] <= '~'
    ensures EncodeSourceId(s).Some? ==>
              && |EncodeSourceId(s).value| == 16
              && forall i :: 0 <= i < 16 ==> EncodeSourceId(s).value[i] == if i < |s| then s[i] as int else 0
  {
    if forall i :: 0 <= i < |s| ==> '!' <= s[i] <= '~' {
      assert Ascii(s).Some? && AllPrintable(Ascii(s).value);
    }
    if EncodeSourceId(s).Some? {
      forall i | 0 <= i < |s|
        ensures '!' <= s[i] <= '~'
      {
        assert Printable(Ascii(s).value[i]);
      }
    }
  }

  function FirstZero(b: Bytes): (n: nat)
    ensures n <= |b|
    ensures forall i :: 0 <= i < n ==> b[i] != 0
    ensures n < |b| ==> b[n] == 0
  {
    if b == [] || b[0] == 0 then 0 else 1 + FirstZero(b[1..])
  }

  /** The text of a source field: what is before the first NUL, if only NULs follow. */
  function DecodeSource(field: Bytes): Option<Bytes> {
    var text := field[..FirstZero(field)];
    if text != [] && AllPrintable(text) && field[|text|..] == Repeat(0, |field| - |text|) then Some(text) else None
  }

  /** The two source functions are inverse to each other on the 16-byte fields. */
  lemma {:induction false} SourceRoundTrip(field: Bytes, text: Bytes)
    requires |field| == SOURCE_SIZE
    ensures DecodeSource(field) == Some(text) <==> SourceText(text) && field == Padded(text)
  {
    var n := FirstZero(field);
    assert field == field[..n] + field[n..];
    if SourceText(text) && field == Padded(text) {
      assert n == |text| by {
        assert forall i :: 0 <= i < |text| ==> field[i] == text[i];
        assert |text| < SOURCE_SIZE ==> field[|text|] == 0;
      }
      assert field[..n] == text && field[n..] == Repeat(0, SOURCE_SIZE - n);
    }
  }

  // ---- the block ----

  /** What a block says. */
  datatype Fields = Fields(major: byte, minor: byte, flags: uint16, crc: uint32, source: Bytes,
                           span: uint32, contentLength: uint32)

  function Head(f: Fields): (b: Bytes)
    ensures |b| == CRC_OFFSET
  {
    MAGIC + LittleEndian(FORMAT_VERSION, 2) + LittleEndian(IDENTITY_SIZE, 2) + [f.major, f.minor]
      + LittleEndian(f.flags, 2) + LittleEndian(f.span, 4)
  }

  function Tail(f: Fields): (b: Bytes)
    requires |f.source| == SOURCE_SIZE
    ensures |b| == IDENTITY_SIZE - CRC_OFFSET - CRC_SIZE
  {
    f.source + LittleEndian(f.contentLength, 4) + Repeat(0xff, RESERVED_SIZE)
  }

  function Block(f: Fields): (b: Bytes)
    requires |f.source| == SOURCE_SIZE
    ensures |b| == IDENTITY_SIZE
  {
    Head(f) + LittleEndian(f.crc, 4) + Tail(f)
  }

  /** The block byte by byte. */
  lemma {:induction false} BlockBytes(f: Fields)
    requires |f.source| == SOURCE_SIZE
    ensures Block(f) == [0x4d, 0x53, 0x50, 0x4d, 1, 0, 64, 0, f.major, f.minor, f.flags % 256, f.flags / 256]
              + LowFirst(f.span) + LowFirst(f.crc) + f.source + LowFirst(f.contentLength) + Repeat(0xff, 24)
  {
    hide LittleEndian, LowFirst, Repeat;
    LittleTwoBytes(1);
    LittleTwoBytes(64);
    LittleTwoBytes(f.flags);
    LowFirstBytes(f.span);
    LowFirstBytes(f.crc);
    LowFirstBytes(f.contentLength);
  }

  /** `build_identity`; `struct.pack` fails on a span or length beyond 32 bits. */
  function BuildIdentity(major: byte, minor: byte, source: Bytes, flags: uint16, span: int, contentLength: int,
                         crc: uint32): Option<Bytes>
    requires |source| == SOURCE_SIZE
  {
    if 0 <= span < W32 && 0 <= contentLength < W32
    then Some(Block(Fields(major, minor, flags, crc, source, span, contentLength)))
    else None
  }

  /** The block with its CRC bytes set to zero. */
  function Zeroed(b: Bytes): Bytes
    requires |b| == IDENTITY_SIZE
  {
    b[..CRC_OFFSET] + Repeat(0, CRC_SIZE) + b[CRC_OFFSET + CRC_SIZE..]
  }

  /** What `struct.unpack` returns, less the constant fields. */
  function Unpack(b: Bytes): Fields
    requires |b| == IDENTITY_SIZE
  {
    Limits();
    LittleInverse(b[10..12]);
    LittleInverse(b[12..16]);
    LittleInverse(b[16..20]);
    LittleInverse(b[36..40]);
    Fields(b[8], b[9], FromLittle(b[10..12]), FromLittle(b[16..20]), b[20..36], FromLittle(b[12..16]),
           FromLittle(b[36..40]))
  }

  /** `decode_identity`: the fields with the source text in place of the source field. */
  function DecodeIdentity(b: Bytes, l: Layout): Option<Fields> {
    if |b| != IDENTITY_SIZE then None
    else
      var f := Unpack(b);
      if b[0..4] != MAGIC then None
      else if FromLittle(b[4..6]) != FORMAT_VERSION || FromLittle(b[6..8]) != IDENTITY_SIZE then None
      else if BitAnd(f.flags, 0xfffc) != 0 then None
      else if f.span != l.Span() then None
      else if f.contentLength != |l.coverage| then None
      else if b[40..64] != Repeat(0xff, RESERVED_SIZE) then None
      else if DecodeSource(f.source).None? then None
      else if f.crc != Crc32.Crc(l.coverage + Zeroed(b)) then None
      else Some(f.(source := DecodeSource(f.source).value))
  }

  lemma {:induction false} FlagsMask(flags: uint16)
    ensures BitAnd(flags, 0xfffc) == 0 <==> flags < 4
  {
    assert BitAnd(flags, 0xfffc) == 2 * BitAnd(flags / 2, 0x7ffe);
    assert BitAnd(flags / 2, 0x7ffe) == 2 * BitAnd(flags / 2 / 2, 0x3fff);
    Pow2Values();
    AndMask(flags / 2 / 2, 14);
  }

  lemma {:induction false} HeadParts(m: Bytes, v: Bytes, z: Bytes, n: Bytes, f: Bytes, s: Bytes)
    requires |m| == |s| == 4 && |v| == |z| == |n| == |f| == 2
    ensures var h := m + v + z + n + f + s;
            h[0..4] == m && h[4..6] == v && h[6..8] == z && h[8..10] == n && h[10..12] == f && h[12..16] == s
  {
  }

  lemma {:induction false} TailParts(source: Bytes, length: Bytes, reserved: Bytes)
    requires |source| == 16 && |length| == 4 && |reserved| == 24
    ensures var t := source + length + reserved;
            t[0..16] == source && t[16..20] == length && t[20..44] == reserved
  {
  }

  lemma {:induction false} BlockParts(head: Bytes, crc: Bytes, tail: Bytes)
    requires |head| == 16 && |crc| == 4 && |tail| == 44
    ensures var b := head + crc + tail;
            && (forall i, j :: 0 <= i <= j <= 16 ==> b[i..j] == head[i..j])
            && b[16..20] == crc
            && (forall i, j :: 0 <= i <= j <= 44 ==> b[20 + i..20 + j] == tail[i..j])
  {
  }

  /** The slices that `struct.unpack` takes of a packed block. */
  lemma {:induction false} BlockSlices(f: Fields)
    requires |f.source| == SOURCE_SIZE
    ensures var b := Block(f);
            && b[0..4] == MAGIC && b[4..6] == LittleEndian(FORMAT_VERSION, 2)
            && b[6..8] == LittleEndian(IDENTITY_SIZE, 2) && b[8..10] == [f.major, f.minor]
            && b[10..12] == LittleEndian(f.flags, 2) && b[12..16] == LittleEndian(f.span, 4)
            && b[16..20] == LittleEndian(f.crc, 4) && b[20..36] == f.source
            && b[36..40] == LittleEndian(f.contentLength, 4) && b[40..64] == Repeat(0xff, RESERVED_SIZE)
  {
    hide LittleEndian, Repeat;
    HeadParts(MAGIC, LittleEndian(FORMAT_VERSION, 2), LittleEndian(IDENTITY_SIZE, 2), [f.major, f.minor],
              LittleEndian(f.flags, 2), LittleEndian(f.span, 4));
    TailParts(f.source, LittleEndian(f.contentLength, 4), Repeat(0xff, RESERVED_SIZE));
    var b, head, tail := Block(f), Head(f), Tail(f);
    BlockParts(head, LittleEndian(f.crc, 4), tail);
    assert b[0..4] == head[0..4] && b[4..6] == head[4..6] && b[6..8] == head[6..8];
    assert b[8..10] == head[8..10] && b[10..12] == head[10..12] && b[12..16] == head[12..16];
    assert b[20..36] == tail[0..16] && b[36..40] == tail[16..20] && b[40..64] == tail[20..44];
  }

  lemma {:induction false} UnpackBlock(f: Fields)
    requires |f.source| == SOURCE_SIZE
    ensures Unpack(Block(f)) == f
    ensures var b := Block(f);
            && b[0..4] == MAGIC && FromLittle(b[4..6]) == FORMAT_VERSION && FromLittle(b[6..8]) == IDENTITY_SIZE
            && b[40..64] == Repeat(0xff, RESERVED_SIZE)
  {
    hide LittleEndian, FromLittle, Block;
    var b := Block(f);
    BlockSlices(f);
    assert b[8] == b[8..10][0] && b[9] == b[8..10][1];
    Limits();
    LittleRoundTrip(FORMAT_VERSION, 2);
    LittleRoundTrip(IDENTITY_SIZE, 2);
    LittleRoundTrip(f.flags, 2);
    LittleRoundTrip(f.span, 4);
    LittleRoundTrip(f.crc, 4);
    LittleRoundTrip(f.contentLength, 4);
  }

  lemma {:induction false} BlockUnpack(b: Bytes)
    requires |b| == IDENTITY_SIZE && b[0..4] == MAGIC
    requires FromLittle(b[4..6]) == FORMAT_VERSION && FromLittle(b[6..8]) == IDENTITY_SIZE
    requires b[40..64] == Repeat(0xff, RESERVED_SIZE)
    ensures Block(Unpack(b)) == b
  {
    HeadUnpack(b);
    TailUnpack(b);
    LittleInverse(b[16..20]);
    assert b == b[..16] + b[16..20] + b[20..];
  }

  lemma {:induction false} HeadUnpack(b: Bytes)
    requires |b| == IDENTITY_SIZE && b[0..4] == MAGIC
    requires FromLittle(b[4..6]) == FORMAT_VERSION && FromLittle(b[6..8]) == IDENTITY_SIZE
    ensures Head(Unpack(b)) == b[..16]
  {
    LittleInverse(b[4..6]);
    LittleInverse(b[6..8]);
    LittleInverse(b[10..12]);
    LittleInverse(b[12..16]);
    assert b[8..10] == [b[8], b[9]];
    assert b[..16] == b[0..4] + b[4..6] + b[6..8] + b[8..10] + b[10..12] + b[12..16];
  }

  lemma {:induction false} TailUnpack(b: Bytes)
    requires |b| == IDENTITY_SIZE && b[40..64] == Repeat(0xff, RESERVED_SIZE)
    ensures Tail(Unpack(b)) == b[20..]
  {
    LittleInverse(b[36..40]);
    assert b[20..] == b[20..36] + b[36..40] + b[40..64];
  }

  lemma {:induction false} ZeroedBlock(f: Fields)
    requires |f.source| == SOURCE_SIZE
    ensures Zeroed(Block(f)) == Block(f.(crc := 0))
  {
    assert LittleEndian(0, 4) == Repeat(0, CRC_SIZE);
    assert Block(f)[..CRC_OFFSET] == Head(f) && Block(f)[CRC_OFFSET + CRC_SIZE..] == Tail(f);
  }

  /** The fields, with a source text, are ones a stamp would write over this layout. */
  predicate Proper(f: Fields, l: Layout) {
    && SourceText(f.source) && f.flags < 4
    && f.span == l.Span() && f.contentLength == |l.coverage|
    && f.crc == Crc32.Crc(l.coverage + Block(f.(source := Padded(f.source), crc := 0)))
  }

  /** Decoding is exactly the inverse of building. A block is accepted with some fields if and
      only if it is what `build_identity` makes of them, for a source text `encode_source_id`
      accepts, known flags, the layout's span and length and the CRC of what it covers. */
  lemma {:induction false} DecodeInvertsBuild(b: Bytes, l: Layout, f: Fields)
    ensures DecodeIdentity(b, l) == Some(f) <==> Proper(f, l) && b == Block(f.(source := Padded(f.source)))
  {
    if Proper(f, l) && b == Block(f.(source := Padded(f.source))) {
      var g := f.(source := Padded(f.source));
      UnpackBlock(g);
      ZeroedBlock(g);
      FlagsMask(f.flags);
      SourceRoundTrip(g.source, f.source);
    }
    if DecodeIdentity(b, l) == Some(f) {
      var g := Unpack(b);
      BlockUnpack(b);
      ZeroedBlock(g);
      FlagsMask(g.flags);
      SourceRoundTrip(g.source, f.source);
      assert g == f.(source := Padded(f.source));
    }
  }

  /** Changing one to four consecutive bytes of the covered content is always noticed. */
  lemma {:induction false} CoveredChangeRejected(b: Bytes, l: Layout, changed: Bytes, start: nat)
    requires DecodeIdentity(b, l).Some?
    requires |changed| == |l.coverage| && changed != l.coverage
    requires forall i :: 0 <= i < |changed| && !(start <= i < start + 4) ==> changed[i] == l.coverage[i]
    ensures DecodeIdentity(b, l.(coverage := changed)) == None
  {
    var x, y := l.coverage + Zeroed(b), changed + Zeroed(b);
    var i :| 0 <= i < |changed| && changed[i] != l.coverage[i];
    assert x[i] != y[i];
    Crc32.WindowChangeDetected(x, y, start);
  }
}
