/**
 * A reference writer for the layout `Tar::Archive` reads: each member is a
 * header block, then its content padded with NUL bytes to whole blocks;
 * two zero blocks close the archive. The lemmas show that the scan
 * recovers every member of such an archive, in order, with its header
 * block and its content, and that a block written from a name and a
 * content decodes back to that name and that size.
 */
module TarEncode {
  import opened Wrappers
  import opened TarFields
  import opened TarHeader
  import opened Tar

  function Zeros(n: nat): (r: seq<Byte>)
    ensures |r| == n
  {
    seq(n, _ => NUL)
  }

  // ---------------------------------------------------------------------
  // Members: a header block and the content that follows it

  datatype Member = Member(block: Block, content: seq<Byte>)

  /**
   * A member the scan keeps: the name in its block is terminated and not
   * empty, and its size field reads as the length of its content.
   */
  ghost predicate Sound(m: Member) {
    var h := Header(0, m.block);
    Text(h, Name).Some? && Text(h, Name).value != [] && Number(h, Size) == |m.content|
  }

  ghost predicate AllSound(ms: seq<Member>) {
    forall i :: 0 <= i < |ms| ==> Sound(ms[i])
  }

  /** The NUL bytes that fill a content of `size` bytes up to whole blocks. */
  function Padding(size: nat): (r: seq<Byte>)
    ensures size + |r| == Padded(size)
  {
    Zeros(Padded(size) - size)
  }

  /** The archive: every member's block, content and padding, then two zero blocks. */
  function Layout(ms: seq<Member>): seq<Byte> {
    if ms == [] then Zeros(2 * BlockSize)
    else ms[0].block + ms[0].content + (Padding(|ms[0].content|) + Layout(ms[1..]))
  }

  /** Where the block after member `m`, written at `at`, starts. */
  function MemberEnd(m: Member, at: nat): nat {
    at + BlockSize + Padded(|m.content|)
  }

  /** A suffix of `s` that is `a + b + c` splits into three slices of `s`. */
  lemma SplitSuffix<T>(s: seq<T>, at: nat, a: seq<T>, b: seq<T>, c: seq<T>)
    requires at <= |s| && s[at..] == a + b + c
    ensures at + |a| + |b| + |c| == |s|
    ensures s[at..at + |a|] == a && s[at + |a|..at + |a| + |b|] == b && s[at + |a| + |b|..] == c
  {
    assert s[at..at + |a|] == (a + b + c)[..|a|];
    assert s[at + |a|..at + |a| + |b|] == (a + b + c)[|a|..|a| + |b|];
    assert s[at + |a| + |b|..] == (a + b + c)[|a| + |b|..];
  }

  /** A suffix of `s` that is `a + b` leaves `b` once `a` is passed. */
  lemma DropPrefix<T>(s: seq<T>, at: nat, a: seq<T>, b: seq<T>)
    requires at <= |s| && s[at..] == a + b
    ensures s[at + |a|..] == b
  {
    assert s[at + |a|..] == (a + b)[|a|..];
  }

  /** The decoded name and size depend on the block only, not on where it was read. */
  lemma SameBlock(h1: Header, h2: Header)
    requires h1.data == h2.data
    ensures Text(h1, Name) == Text(h2, Name) && Number(h1, Size) == Number(h2, Size)
  {
    assert TextBytes(h1, Name) == TextBytes(h2, Name);
    assert NumberBytes(h1, Size) == NumberBytes(h2, Size);
  }

  // ---------------------------------------------------------------------
  // Scanning a laid-out archive

  /** Reading a header block with a non-empty name at `at` keeps it and goes on after its padded content. */
  lemma ScanKeepsSized(src: seq<Byte>, at: nat, h: Header, size: nat, next: nat)
    requires h.pos == at + BlockSize && ReadAt(src, at, BlockSize) == Some(h.data)
    requires Text(h, Name).Some? && Text(h, Name).value != []
    requires Number(h, Size) == size && next == at + BlockSize + Padded(size)
    ensures Scan(src, at) == Prepend([h], Scan(src, next))
  {
    assert Next(h) == next;
    ScanKeeps(src, at, h);
  }

  /** A sound member at `at` is kept with its content, and the scan goes on at `MemberEnd(m, at)`. */
  lemma ScanMember(src: seq<Byte>, at: nat, m: Member)
    requires Sound(m) && at + BlockSize + |m.content| <= |src|
    requires src[at..at + BlockSize] == m.block && src[at + BlockSize..at + BlockSize + |m.content|] == m.content
    ensures Scan(src, at) == Prepend([Header(at + BlockSize, m.block)], Scan(src, MemberEnd(m, at)))
    ensures Content(src, Header(at + BlockSize, m.block)) == Some(m.content)
  {
    var h := Header(at + BlockSize, m.block);
    SameBlock(h, Header(0, m.block));
    assert ReadAt(src, at, BlockSize) == Some(h.data);
    ScanKeepsSized(src, at, h, |m.content|, MemberEnd(m, at));
    ContentIs(src, h, m.content);
  }

  /** The headers carry the members' blocks, in order. */
  ghost predicate BlocksMatch(hs: seq<Header>, ms: seq<Member>) {
    |hs| == |ms| && forall i :: 0 <= i < |ms| ==> hs[i].data == ms[i].block
  }

  /** `File#read` on each header gives the content of the member at the same index. */
  ghost predicate MemberContents(src: seq<Byte>, hs: seq<Header>, ms: seq<Member>) {
    |hs| == |ms| && forall i :: 0 <= i < |ms| ==> Content(src, hs[i]) == Some(ms[i].content)
  }

  lemma ConsBlocks(h: Header, hs: seq<Header>, ms: seq<Member>)
    requires |ms| > 0 && BlocksMatch(hs, ms[1..]) && h.data == ms[0].block
    ensures BlocksMatch([h] + hs, ms)
  {
    forall i | 0 < i < |ms| ensures ([h] + hs)[i].data == ms[i].block {
      assert ([h] + hs)[i] == hs[i - 1] && ms[i] == ms[1..][i - 1];
    }
  }

  lemma ConsContents(src: seq<Byte>, h: Header, hs: seq<Header>, ms: seq<Member>)
    requires |ms| > 0 && MemberContents(src, hs, ms[1..]) && Content(src, h) == Some(ms[0].content)
    ensures MemberContents(src, [h] + hs, ms)
  {
    forall i | 0 < i < |ms| ensures Content(src, ([h] + hs)[i]) == Some(ms[i].content) {
      assert ([h] + hs)[i] == hs[i - 1] && ms[i] == ms[1..][i - 1];
    }
  }

  lemma ConsSound(ms: seq<Member>)
    requires |ms| > 0 && AllSound(ms)
    ensures Sound(ms[0]) && AllSound(ms[1..])
  {
    forall i | 0 <= i < |ms| - 1 ensures Sound(ms[1..][i]) {
      assert ms[1..][i] == ms[i + 1];
    }
  }

  /** Scanning from `at`, where `Layout(ms)` makes up the rest of `src`, recovers `ms`. */
  lemma {:induction false} ScanLayout(src: seq<Byte>, at: nat, ms: seq<Member>)
    requires AllSound(ms) && at <= |src| && src[at..] == Layout(ms)
    ensures Scan(src, at).Ok?
    ensures BlocksMatch(Scan(src, at).value, ms) && MemberContents(src, Scan(src, at).value, ms)
    decreases |ms|
  {
    if ms == [] {
      assert src[at] == src[at..][0] && src[at + BlockSize] == src[at..][BlockSize];
      ScanStopsAtTerminator(src, at);
    } else {
      var m, rest := ms[0], Layout(ms[1..]);
      ConsSound(ms);
      SplitSuffix(src, at, m.block, m.content, Padding(|m.content|) + rest);
      DropPrefix(src, at + BlockSize + |m.content|, Padding(|m.content|), rest);
      ScanMember(src, at, m);
      var next := MemberEnd(m, at);
      ScanLayout(src, next, ms[1..]);
      var h := Header(at + BlockSize, m.block);
      ConsBlocks(h, Scan(src, next).value, ms);
      ConsContents(src, h, Scan(src, next).value, ms);
    }
  }

  // ---------------------------------------------------------------------
  // Writing a header block from a name and a content

  /** Octal digits written into the 12-byte size field; a NUL follows them. */
  const SizeDigits: nat := 11

  datatype Entry = Entry(name: seq<Byte>, content: seq<Byte>)

  /** A name that fits its field with a NUL after it, and a size the field can hold. */
  predicate ValidEntry(e: Entry) {
    0 < |e.name| < TextWidth(Name) && NUL !in e.name && |e.content| < Pow8(SizeDigits)
  }

  predicate ValidEntries(es: seq<Entry>) {
    forall i :: 0 <= i < |es| ==> ValidEntry(es[i])
  }

  /** The header block of `e`: its name, its size in octal, and NUL everywhere else. */
  function HeaderBlock(e: Entry): Block
    requires ValidEntry(e)
  {
    var size := Digits(|e.content|, SizeDigits);
    seq(BlockSize, i requires 0 <= i < BlockSize =>
      if i < |e.name| then e.name[i]
      else if NumberOffset(Size) <= i < NumberOffset(Size) + SizeDigits then size[i - NumberOffset(Size)]
      else NUL)
  }

  /** The header decoded from the block of `e` has `e`'s name. */
  lemma HeaderBlockName(e: Entry, pos: nat)
    requires ValidEntry(e)
    ensures Text(Header(pos, HeaderBlock(e)), Name) == Some(e.name)
  {
    var h := Header(pos, HeaderBlock(e));
    var field := TextBytes(h, Name);
    var n := |e.name|;
    var rest := field[n + 1..];
    assert TextOffset(Name) == 0 && NumberOffset(Size) == 124;
    forall i | 0 <= i < |field| ensures field[i] == (e.name + [NUL] + rest)[i] {
      if i < n {
        assert field[i] == h.data[i] == e.name[i];
      } else if i == n {
        assert field[i] == h.data[n] == NUL;
      }
    }
    assert field == e.name + [NUL] + rest;
    NullTerminatedText(e.name, rest);
  }

  /** The header decoded from the block of `e` has the size of `e`'s content. */
  lemma HeaderBlockSize(e: Entry, pos: nat)
    requires ValidEntry(e)
    ensures Number(Header(pos, HeaderBlock(e)), Size) == |e.content|
  {
    var h := Header(pos, HeaderBlock(e));
    var digits := Digits(|e.content|, SizeDigits);
    assert NumberBytes(h, Size) == [] + digits + [NUL];
    NumberRoundTrip(h, Size, [], |e.content|, SizeDigits, [NUL]);
  }

  function Written(e: Entry): Member
    requires ValidEntry(e)
  {
    Member(HeaderBlock(e), e.content)
  }

  /** A written entry is a member the scan keeps. */
  lemma WrittenSound(e: Entry)
    requires ValidEntry(e)
    ensures Sound(Written(e))
  {
    HeaderBlockName(e, 0);
    HeaderBlockSize(e, 0);
  }

  function Members(es: seq<Entry>): (ms: seq<Member>)
    requires ValidEntries(es)
    ensures |ms| == |es|
  {
    seq(|es|, i requires 0 <= i < |es| => Written(es[i]))
  }

  /** The archive holding `es`, in order. */
  function Encode(es: seq<Entry>): seq<Byte>
    requires ValidEntries(es)
  {
    Layout(Members(es))
  }

  /** Each header carries the name of the entry at the same index. */
  ghost predicate NamesMatch(hs: seq<Header>, es: seq<Entry>) {
    |hs| == |es| && forall i :: 0 <= i < |es| ==> Text(hs[i], Name) == Some(es[i].name)
  }

  /** `File#read` on each header gives the content of the entry at the same index. */
  ghost predicate ContentsMatch(src: seq<Byte>, hs: seq<Header>, es: seq<Entry>) {
    |hs| == |es| && forall i :: 0 <= i < |es| ==> Content(src, hs[i]) == Some(es[i].content)
  }

  /** Headers carrying the written blocks carry the entries' names. */
  lemma WrittenNames(hs: seq<Header>, es: seq<Entry>)
    requires ValidEntries(es) && BlocksMatch(hs, Members(es))
    ensures NamesMatch(hs, es)
  {
    forall i | 0 <= i < |es| ensures Text(hs[i], Name) == Some(es[i].name) {
      assert hs[i].data == HeaderBlock(es[i]);
      HeaderBlockName(es[i], hs[i].pos);
      assert hs[i] == Header(hs[i].pos, HeaderBlock(es[i]));
    }
  }

  lemma WrittenContents(src: seq<Byte>, hs: seq<Header>, es: seq<Entry>)
    requires ValidEntries(es) && MemberContents(src, hs, Members(es))
    ensures ContentsMatch(src, hs, es)
  {
    forall i | 0 <= i < |es| ensures Content(src, hs[i]) == Some(es[i].content) {
      assert Members(es)[i].content == es[i].content;
    }
  }

  lemma WrittenAllSound(es: seq<Entry>)
    requires ValidEntries(es)
    ensures AllSound(Members(es))
  {
    forall i | 0 <= i < |es| ensures Sound(Members(es)[i]) {
      WrittenSound(es[i]);
    }
  }

  /**
   * The round trip: reading an encoded archive from offset 0 gives one
   * header per entry, in order, each with that entry's name and content.
   */
  lemma EncodeRoundTrip(es: seq<Entry>)
    requires ValidEntries(es)
    ensures Scan(Encode(es), 0).Ok?
    ensures NamesMatch(Scan(Encode(es), 0).value, es) && ContentsMatch(Encode(es), Scan(Encode(es), 0).value, es)
  {
    WrittenAllSound(es);
    ScanLayout(Encode(es), 0, Members(es));
    WrittenNames(Scan(Encode(es), 0).value, es);
    WrittenContents(Encode(es), Scan(Encode(es), 0).value, es);
  }

  /**
   * Reads every file of `a` in the order of `files`: the name and the
   * `File#read` result of each, as its header and the source give them.
   */
  method ReadAll(a: Archive) returns (names: seq<Option<seq<Byte>>>, contents: seq<Option<seq<Byte>>>)
    requires |a.files| == |a.headers|
    requires forall j :: 0 <= j < |a.files| ==> a.files[j].archive == a && a.files[j].header == a.headers[j]
    modifies a.io`pos
    ensures |names| == |a.headers| && |contents| == |a.headers|
    ensures forall j :: 0 <= j < |a.headers| ==>
      names[j] == Text(a.headers[j], Name) && contents[j] == Content(a.io.bytes, a.headers[j])
  {
    names, contents := [], [];
    var i := 0;
    while i < |a.files|
      invariant 0 <= i <= |a.files| && |names| == i && |contents| == i
      invariant forall j :: 0 <= j < i ==>
        names[j] == Text(a.headers[j], Name) && contents[j] == Content(a.io.bytes, a.headers[j])
    {
      var f := a.files[i];
      var data := f.Read();
      names := names + [f.Name()];
      contents := contents + [data];
      i := i + 1;
    }
  }

  /**
   * Opens an encoded archive and reads every file back with `File#read`,
   * in the order of `files`: the names and contents are the entries'.
   */
  method ExtractAll(es: seq<Entry>) returns (names: seq<Option<seq<Byte>>>, contents: seq<Option<seq<Byte>>>)
    requires ValidEntries(es)
    ensures |names| == |es| && |contents| == |es|
    ensures forall i :: 0 <= i < |es| ==> names[i] == Some(es[i].name) && contents[i] == Some(es[i].content)
  {
    EncodeRoundTrip(es);
    var r := Archive.Open(Encode(es));
    var a := r.value;
    assert NamesMatch(a.headers, es) && ContentsMatch(a.io.bytes, a.headers, es);
    names, contents := ReadAll(a);
  }
}
