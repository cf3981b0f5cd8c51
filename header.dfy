/**
 * `Tar::Header` of tar.rb: a 512-byte ustar header block together with the
 * offset of the entry's first content byte. Every accessor decodes one fixed
 * byte range of the block; nothing here touches the byte source.
 */
module TarHeader {
  import opened Wrappers
  import opened TarFields

  const BlockSize: nat := 512

  /** One whole header block. */
  type Block = s: seq<Byte> | |s| == BlockSize witness seq(BlockSize, _ => NUL)

  /** `Header.new(pos, data)`: `pos` is where the entry's content begins. */
  datatype Header = Header(pos: nat, data: Block)

  /** The fields that `nt` decodes. */
  datatype TextField = Name | Linkname | Magic | Uname | Gname

  /** The fields that `String#oct` decodes (`prefix` included, as in the source). */
  datatype NumericField =
    Mode | Uid | Gid | Size | Mtime | Chksum | Typeflag | Version | Devmajor | Devminor | Prefix

  function TextOffset(f: TextField): nat {
    match f
    case Name => 0
    case Linkname => 157
    case Magic => 257
    case Uname => 265
    case Gname => 297
  }

  function TextWidth(f: TextField): nat {
    match f
    case Name => 100
    case Linkname => 100
    case Magic => 6
    case Uname => 32
    case Gname => 32
  }

  function NumberOffset(f: NumericField): nat {
    match f
    case Mode => 100
    case Uid => 108
    case Gid => 116
    case Size => 124
    case Mtime => 136
    case Chksum => 148
    case Typeflag => 156
    case Version => 263
    case Devmajor => 329
    case Devminor => 337
    case Prefix => 345
  }

  function NumberWidth(f: NumericField): nat {
    match f
    case Mode => 8
    case Uid => 8
    case Gid => 8
    case Size => 12
    case Mtime => 12
    case Chksum => 8
    case Typeflag => 1
    case Version => 2
    case Devmajor => 8
    case Devminor => 8
    case Prefix => 155
  }

  /** Every field lies inside the first 500 bytes of the block. */
  lemma FieldsInBlock(t: TextField, n: NumericField)
    ensures TextOffset(t) + TextWidth(t) <= 500
    ensures NumberOffset(n) + NumberWidth(n) <= 500
  {
  }

  /** The bytes of a text field's own range. */
  function TextBytes(h: Header, f: TextField): (r: seq<Byte>)
    ensures |r| == TextWidth(f)
  {
    FieldsInBlock(f, Mode);
    h.data[TextOffset(f)..TextOffset(f) + TextWidth(f)]
  }

  /** The bytes of a numeric field's own range. */
  function NumberBytes(h: Header, f: NumericField): (r: seq<Byte>)
    ensures |r| == NumberWidth(f)
  {
    FieldsInBlock(Name, f);
    h.data[NumberOffset(f)..NumberOffset(f) + NumberWidth(f)]
  }

  /**
   * name, linkname, magic, uname, gname: the bytes of the field's own range
   * before its first NUL; `None` when the range holds no NUL (the source
   * raises there).
   */
  function Text(h: Header, f: TextField): (r: Option<seq<Byte>>)
    ensures r.Some? <==> NUL in TextBytes(h, f)
    ensures r.Some? ==> |r.value| < TextWidth(f) && r.value == TextBytes(h, f)[..|r.value|]
                        && TextBytes(h, f)[|r.value|] == NUL && NUL !in r.value
    ensures r == Some([]) <==> h.data[TextOffset(f)] == NUL
  {
    NullTerminated(TextBytes(h, f))
  }

  /**
   * mode, uid, gid, size, mtime, chksum, typeflag, version, devmajor,
   * devminor, prefix: the field's own range read by `String#oct`; a field
   * starting with NUL reads as 0.
   */
  function Number(h: Header, f: NumericField): (r: nat)
    ensures h.data[NumberOffset(f)] == NUL ==> r == 0
  {
    var field := NumberBytes(h, f);
    if field[0] == NUL then OctOfBlank(field); Oct(field) else Oct(field)
  }

  /** A numeric field never exceeds what its width of octal digits can hold. */
  lemma NumberBound(h: Header, f: NumericField)
    ensures Number(h, f) < Pow8(NumberWidth(f))
  {
    assert |NumberBytes(h, f)| == NumberWidth(f);
  }

  /** A text field depends only on the bytes of its own range. */
  lemma TextLocality(h1: Header, h2: Header, f: TextField)
    requires forall i :: TextOffset(f) <= i < TextOffset(f) + TextWidth(f) ==> h1.data[i] == h2.data[i]
    ensures Text(h1, f) == Text(h2, f)
  {
    assert TextBytes(h1, f) == TextBytes(h2, f);
  }

  /** A numeric field depends only on the bytes of its own range. */
  lemma NumberLocality(h1: Header, h2: Header, f: NumericField)
    requires forall i :: NumberOffset(f) <= i < NumberOffset(f) + NumberWidth(f) ==> h1.data[i] == h2.data[i]
    ensures Number(h1, f) == Number(h2, f)
  {
    assert NumberBytes(h1, f) == NumberBytes(h2, f);
  }

  /**
   * A numeric field holding `n` as zero-padded octal digits, after optional
   * leading whitespace and followed by a NUL or whitespace terminator (or
   * by nothing, for the one-byte typeflag), decodes back to `n`.
   */
  lemma NumberRoundTrip(h: Header, f: NumericField, lead: seq<Byte>, n: nat, k: nat, tail: seq<Byte>)
    requires forall i :: 0 <= i < |lead| ==> IsSpace(lead[i])
    requires 1 <= k && n < Pow8(k)
    requires tail == [] || tail[0] == NUL || IsSpace(tail[0])
    requires NumberBytes(h, f) == lead + Digits(n, k) + tail
    ensures Number(h, f) == n
  {
    OctRoundTrip(lead, n, k, tail);
  }
}
