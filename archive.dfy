/**
 * `Tar::Archive` and `Tar::File` of tar.rb over an in-memory byte source.
 *
 * `Scan` is the specification of `read_headers`: the header list one
 * forward pass over the source produces, or the error that pass raises.
 * `Archive.ReadHeaders` is the loop itself, proved to compute `Scan`.
 */
module Tar {
  import opened Wrappers
  import opened TarFields
  import opened TarHeader

  /** The ways a scan ends with an exception in the source. */
  datatype Error =
    | ShortBlock(at: nat)          // a read returned a partial block starting at `at`
    | UnterminatedName(at: nat)    // the header block at `at` has no NUL in its name field
    | MissingTerminator(at: nat)   // an empty-name block is followed by the end of the source at `at`
    | MalformedHeader(offset: int) // "Malformed header at position: offset"; negative after a short second block

  function Min(a: int, b: int): int {
    if a <= b then a else b
  }

  // ---------------------------------------------------------------------
  // The byte source

  /**
   * `io.read(n)` at offset `pos`: `n == 0` gives the empty string even at
   * the end; otherwise nil (`None`) when nothing remains, else the next
   * `n` bytes or as many as remain.
   */
  function ReadAt(bytes: seq<Byte>, pos: nat, n: nat): (r: Option<seq<Byte>>)
    ensures n == 0 ==> r == Some([])
    ensures r.None? <==> n > 0 && pos >= |bytes|
    ensures r.Some? && n > 0 ==> |r.value| == Min(n, |bytes| - pos) && r.value == bytes[pos..pos + |r.value|]
  {
    if n == 0 then Some([])
    else if pos >= |bytes| then None
    else Some(bytes[pos..Min(pos + n, |bytes|)])
  }

  /** An in-memory seekable stream, the `StringIO` the archive reads from. */
  class Stream {
    const bytes: seq<Byte>
    var pos: nat

    constructor (bytes: seq<Byte>)
      ensures this.bytes == bytes && pos == 0
    {
      this.bytes := bytes;
      pos := 0;
    }

    /** Reads up to `n` bytes and moves past them. Setting `pos` beyond the end is allowed. */
    method Read(n: nat) returns (r: Option<seq<Byte>>)
      modifies this`pos
      ensures r == ReadAt(bytes, old(pos), n)
      ensures pos == old(pos) + (if r.Some? then |r.value| else 0)
    {
      r := ReadAt(bytes, pos, n);
      if r.Some? {
        pos := pos + |r.value|;
      }
    }
  }

  // ---------------------------------------------------------------------
  // Block arithmetic

  /** `(size / 512.0).ceil`: the number of whole blocks the content occupies. */
  function Blocks(size: nat): (r: nat)
    ensures (r - 1) * BlockSize < size <= r * BlockSize
  {
    (size + BlockSize - 1) / BlockSize
  }

  /** The content length rounded up to whole blocks. */
  function Padded(size: nat): (r: nat)
    ensures r % BlockSize == 0
    ensures size <= r < size + BlockSize
    ensures r == 0 <==> size == 0
  {
    Blocks(size) * BlockSize
  }

  /**
   * Where the scan reads the block after a kept header: past its content,
   * rounded up to whole blocks. For an empty entry this is `pos` itself,
   * which is why the source may skip the seek when `size` is 0.
   */
  function Next(h: Header): (r: nat)
    ensures r >= h.pos
    ensures Number(h, Size) == 0 ==> r == h.pos
  {
    h.pos + Padded(Number(h, Size))
  }

  // ---------------------------------------------------------------------
  // The scan, as a function

  function Prepend(hs: seq<Header>, r: Result<seq<Header>, Error>): Result<seq<Header>, Error> {
    match r
    case Ok(rest) => Ok(hs + rest)
    case Err(e) => Err(e)
  }

  lemma PrependNothing(r: Result<seq<Header>, Error>)
    ensures Prepend([], r) == r
  {
    if r.Ok? {
      assert [] + r.value == r.value;
    }
  }

  lemma PrependPrepend(a: seq<Header>, b: seq<Header>, r: Result<seq<Header>, Error>)
    ensures Prepend(a, Prepend(b, r)) == Prepend(a + b, r)
  {
    if r.Ok? {
      assert a + (b + r.value) == (a + b) + r.value;
    }
  }

  /**
   * `Header.new(..., data).name` for a block that may be short: `nt` of its
   * first 100 bytes, or of all of it when fewer remain.
   */
  function LeadingName(data: seq<Byte>): (r: Option<seq<Byte>>)
    ensures |data| >= BlockSize ==> r == NullTerminated(data[..TextWidth(Name)])
  {
    NullTerminated(data[..Min(TextWidth(Name), |data|)])
  }

  /**
   * After an empty-name block at `first`, the second `io.read(512)`, of
   * which only the name is read: another empty name ends the archive, a
   * non-empty one is reported at `io.pos - 1024` (the first block, when the
   * second one is whole), and the end of the source makes
   * `Header.new(..., nil).name` raise.
   */
  function Terminator(src: seq<Byte>, first: nat): (r: Result<seq<Header>, Error>)
    ensures r.Ok? ==> r.value == []
  {
    var at := first + BlockSize;
    match ReadAt(src, at, BlockSize)
    case None => Err(MissingTerminator(at))
    case Some(data) =>
      match LeadingName(data)
      case None => Err(UnterminatedName(at))
      case Some(name) => if name == [] then Ok([]) else Err(MalformedHeader(at + |data| - 2 * BlockSize))
  }

  /** `read_headers` started at offset `at`. */
  function Scan(src: seq<Byte>, at: nat): Result<seq<Header>, Error>
    decreases |src| - at
  {
    match ReadAt(src, at, BlockSize)
    case None => Ok([])
    case Some(data) =>
      if |data| < BlockSize then Err(ShortBlock(at))
      else
        var h := Header(at + BlockSize, data);
        match Text(h, Name)
        case None => Err(UnterminatedName(at))
        case Some(name) =>
          if name == [] then Terminator(src, at)
          else Prepend([h], Scan(src, Next(h)))
  }

  /** A kept header: built from the whole block just before `pos`, with a non-empty name. */
  ghost predicate Kept(src: seq<Byte>, h: Header) {
    BlockSize <= h.pos <= |src|
    && h.data == src[h.pos - BlockSize..h.pos]
    && Text(h, Name).Some? && Text(h, Name).value != []
  }

  /** The cases of one step of the scan at `at`. */
  lemma ScanCases(src: seq<Byte>, at: nat)
    ensures ReadAt(src, at, BlockSize).None? ==> Scan(src, at) == Ok([])
    ensures ReadAt(src, at, BlockSize).Some? && |ReadAt(src, at, BlockSize).value| < BlockSize ==>
              Scan(src, at) == Err(ShortBlock(at))
    ensures ReadAt(src, at, BlockSize).Some? && |ReadAt(src, at, BlockSize).value| == BlockSize ==>
              var h := Header(at + BlockSize, ReadAt(src, at, BlockSize).value);
              && (Text(h, Name).None? ==> Scan(src, at) == Err(UnterminatedName(at)))
              && (Text(h, Name) == Some([]) ==> Scan(src, at) == Terminator(src, at))
  {
  }

  /** One kept header and where the scan goes on: the unfolding the lemmas below share. */
  lemma ScanKeeps(src: seq<Byte>, at: nat, h: Header)
    requires ReadAt(src, at, BlockSize) == Some(h.data) && h.pos == at + BlockSize
    requires Text(h, Name).Some? && Text(h, Name).value != []
    ensures Scan(src, at) == Prepend([h], Scan(src, Next(h)))
    ensures Scan(src, Next(h)).Ok? ==> Scan(src, at).value == [h] + Scan(src, Next(h)).value
    ensures |src| - Next(h) < |src| - at
  {
  }

  /** Keeping `h` after `done` carries the scan's result over to the next block. */
  lemma KeepStep(src: seq<Byte>, at: nat, h: Header, done: seq<Header>)
    requires ReadAt(src, at, BlockSize) == Some(h.data) && h.pos == at + BlockSize
    requires Text(h, Name).Some? && Text(h, Name).value != []
    ensures Prepend(done + [h], Scan(src, Next(h))) == Prepend(done, Scan(src, at))
    ensures |src| - Next(h) < |src| - at
  {
    ScanKeeps(src, at, h);
    PrependPrepend(done, [h], Scan(src, Next(h)));
  }

  // Facts about a list `[h] + rest`, kept apart from the unfolding of `Scan`.

  lemma ConsKept(src: seq<Byte>, h: Header, rest: seq<Header>)
    requires Kept(src, h) && forall i :: 0 <= i < |rest| ==> Kept(src, rest[i])
    ensures forall i :: 0 <= i < |[h] + rest| ==> Kept(src, ([h] + rest)[i])
  {
    forall i | 0 < i < |[h] + rest| ensures Kept(src, ([h] + rest)[i]) {
      assert ([h] + rest)[i] == rest[i - 1];
    }
  }

  lemma ConsChain(h: Header, rest: seq<Header>)
    requires |rest| > 0 ==> rest[0].pos == Next(h) + BlockSize
    requires forall i :: 0 <= i < |rest| - 1 ==> rest[i + 1].pos == Next(rest[i]) + BlockSize
    ensures var hs := [h] + rest;
      forall i :: 0 <= i < |hs| - 1 ==> hs[i + 1].pos == Next(hs[i]) + BlockSize
  {
    var hs := [h] + rest;
    forall i | 0 < i < |hs| - 1 ensures hs[i + 1].pos == Next(hs[i]) + BlockSize {
      assert hs[i] == rest[i - 1] && hs[i + 1] == rest[i];
    }
  }

  lemma ConsAfter(h: Header, rest: seq<Header>, bound: nat)
    requires h.pos >= bound && forall i :: 0 <= i < |rest| ==> rest[i].pos >= bound
    ensures forall i :: 0 <= i < |[h] + rest| ==> ([h] + rest)[i].pos >= bound
  {
    forall i | 0 < i < |[h] + rest| ensures ([h] + rest)[i].pos >= bound {
      assert ([h] + rest)[i] == rest[i - 1];
    }
  }

  lemma ConsIncreasing(h: Header, rest: seq<Header>)
    requires forall i :: 0 <= i < |rest| ==> rest[i].pos > h.pos
    requires forall i, j :: 0 <= i < j < |rest| ==> rest[i].pos < rest[j].pos
    ensures forall i, j :: 0 <= i < j < |[h] + rest| ==> ([h] + rest)[i].pos < ([h] + rest)[j].pos
  {
    var hs := [h] + rest;
    forall i, j | 0 <= i < j < |hs| ensures hs[i].pos < hs[j].pos {
      assert hs[j] == rest[j - 1];
      if i > 0 {
        assert hs[i] == rest[i - 1];
      }
    }
  }

  lemma ConsAligned(h: Header, rest: seq<Header>)
    requires h.pos % BlockSize == 0 && forall i :: 0 <= i < |rest| ==> rest[i].pos % BlockSize == 0
    ensures forall i :: 0 <= i < |[h] + rest| ==> ([h] + rest)[i].pos % BlockSize == 0
  {
    forall i | 0 < i < |[h] + rest| ensures ([h] + rest)[i].pos % BlockSize == 0 {
      assert ([h] + rest)[i] == rest[i - 1];
    }
  }

  /** Every header the scan keeps is the block ending at its `pos`, and its name is not empty. */
  lemma {:induction false} ScanBlocks(src: seq<Byte>, at: nat)
    requires Scan(src, at).Ok?
    ensures forall i :: 0 <= i < |Scan(src, at).value| ==> Kept(src, Scan(src, at).value[i])
    decreases |src| - at
  {
    var r := ReadAt(src, at, BlockSize);
    if r.Some? && |r.value| == BlockSize {
      var h := Header(at + BlockSize, r.value);
      if Text(h, Name).value != [] {
        ScanKeeps(src, at, h);
        ScanBlocks(src, Next(h));
        ConsKept(src, h, Scan(src, Next(h)).value);
      }
    }
  }

  /**
   * The first header's content starts one block after `at`; each next
   * header block starts where the previous entry's padded content ends.
   */
  lemma {:induction false} ScanChain(src: seq<Byte>, at: nat)
    requires Scan(src, at).Ok?
    ensures var hs := Scan(src, at).value;
      && (|hs| > 0 ==> hs[0].pos == at + BlockSize)
      && (forall i :: 0 <= i < |hs| - 1 ==> hs[i + 1].pos == Next(hs[i]) + BlockSize)
    decreases |src| - at
  {
    var r := ReadAt(src, at, BlockSize);
    if r.Some? && |r.value| == BlockSize {
      var h := Header(at + BlockSize, r.value);
      if Text(h, Name).value != [] {
        ScanKeeps(src, at, h);
        ScanChain(src, Next(h));
        ConsChain(h, Scan(src, Next(h)).value);
      }
    }
  }

  /** Every header the scan keeps has its content after the block at `at`. */
  lemma {:induction false} ScanAfter(src: seq<Byte>, at: nat)
    requires Scan(src, at).Ok?
    ensures forall i :: 0 <= i < |Scan(src, at).value| ==> Scan(src, at).value[i].pos >= at + BlockSize
    decreases |src| - at
  {
    var r := ReadAt(src, at, BlockSize);
    if r.Some? && |r.value| == BlockSize {
      var h := Header(at + BlockSize, r.value);
      if Text(h, Name).value != [] {
        ScanKeeps(src, at, h);
        ScanAfter(src, Next(h));
        ConsAfter(h, Scan(src, Next(h)).value, at + BlockSize);
      }
    }
  }

  /** Header offsets strictly increase in physical order. */
  lemma {:induction false} ScanIncreasing(src: seq<Byte>, at: nat)
    requires Scan(src, at).Ok?
    ensures forall i, j :: 0 <= i < j < |Scan(src, at).value| ==> Scan(src, at).value[i].pos < Scan(src, at).value[j].pos
    decreases |src| - at
  {
    var r := ReadAt(src, at, BlockSize);
    if r.Some? && |r.value| == BlockSize {
      var h := Header(at + BlockSize, r.value);
      if Text(h, Name).value != [] {
        ScanKeeps(src, at, h);
        ScanIncreasing(src, Next(h));
        ScanAfter(src, Next(h));
        ConsIncreasing(h, Scan(src, Next(h)).value);
      }
    }
  }

  lemma AlignedNext(at: nat, h: Header)
    requires at % BlockSize == 0 && h.pos == at + BlockSize
    ensures h.pos % BlockSize == 0 && Next(h) % BlockSize == 0
  {
    var p := Padded(Number(h, Size));
    assert p % BlockSize == 0;
    assert Next(h) == h.pos + p;
  }

  /** For a scan started on a block boundary, every header is block-aligned. */
  lemma {:induction false} ScanAligned(src: seq<Byte>, at: nat)
    requires Scan(src, at).Ok? && at % BlockSize == 0
    ensures forall i :: 0 <= i < |Scan(src, at).value| ==> Scan(src, at).value[i].pos % BlockSize == 0
    decreases |src| - at
  {
    var r := ReadAt(src, at, BlockSize);
    if r.Some? && |r.value| == BlockSize {
      var h := Header(at + BlockSize, r.value);
      if Text(h, Name).value != [] {
        ScanKeeps(src, at, h);
        AlignedNext(at, h);
        ScanAligned(src, Next(h));
        ConsAligned(h, Scan(src, Next(h)).value);
      }
    }
  }

  /** At (or past) the end of the source the scan ends cleanly; an empty source has no headers. */
  lemma ScanAtEnd(src: seq<Byte>, at: nat)
    requires at >= |src|
    ensures Scan(src, at) == Ok([])
  {
  }

  /**
   * Two empty-name blocks (two zero blocks, say) end the archive without
   * error; the second one may be a short final block.
   */
  lemma ScanStopsAtTerminator(src: seq<Byte>, at: nat)
    requires at + BlockSize < |src|
    requires src[at] == NUL && src[at + BlockSize] == NUL
    ensures Scan(src, at) == Ok([])
  {
    var h1 := Header(at + BlockSize, src[at..at + BlockSize]);
    assert h1.data[0] == NUL;
    var second := ReadAt(src, at + BlockSize, BlockSize).value;
    assert second[0] == NUL;
    assert second[..Min(TextWidth(Name), |second|)][0] == NUL;
  }

  /**
   * An empty-name block followed by a short final block with a name is
   * reported at `io.pos - 1024`, which is then before the first block.
   */
  lemma ScanRejectsShortNamedBlock(src: seq<Byte>, at: nat)
    requires at + BlockSize < |src| < at + 2 * BlockSize
    requires src[at] == NUL && src[at + BlockSize] != NUL
    requires NUL in src[at + BlockSize..Min(at + BlockSize + TextWidth(Name), |src|)]
    ensures Scan(src, at) == Err(MalformedHeader(|src| - 2 * BlockSize))
  {
    var h1 := Header(at + BlockSize, src[at..at + BlockSize]);
    assert h1.data[0] == NUL;
    var second := ReadAt(src, at + BlockSize, BlockSize).value;
    assert second[..Min(TextWidth(Name), |second|)] == src[at + BlockSize..Min(at + BlockSize + TextWidth(Name), |src|)];
  }

  /** An empty-name block followed by a block with a name is reported at the first block. */
  lemma ScanRejectsLoneEmptyBlock(src: seq<Byte>, at: nat)
    requires at + 2 * BlockSize <= |src|
    requires src[at] == NUL && src[at + BlockSize] != NUL
    requires NUL in src[at + BlockSize..at + BlockSize + TextWidth(Name)]
    ensures Scan(src, at) == Err(MalformedHeader(at))
  {
    var h1 := Header(at + BlockSize, src[at..at + BlockSize]);
    var h2 := Header(at + 2 * BlockSize, src[at + BlockSize..at + 2 * BlockSize]);
    assert h1.data[0] == NUL && h2.data[0] != NUL;
    var k :| 0 <= k < TextWidth(Name) && src[at + BlockSize..at + BlockSize + TextWidth(Name)][k] == NUL;
    assert h2.data[k] == NUL;
  }

  /** An empty-name block that is the last block of the source makes the scan fail. */
  lemma ScanRejectsTrailingEmptyBlock(src: seq<Byte>, at: nat)
    requires at + BlockSize == |src| && src[at] == NUL
    ensures Scan(src, at) == Err(MissingTerminator(|src|))
  {
    var h1 := Header(at + BlockSize, src[at..at + BlockSize]);
    assert h1.data[0] == NUL;
  }

  // ---------------------------------------------------------------------
  // Content

  /** What `File#read` returns for header `h`: `io.read(size)` from `pos`. */
  function Content(bytes: seq<Byte>, h: Header): (r: Option<seq<Byte>>)
    ensures Number(h, Size) == 0 ==> r == Some([])
    ensures r.None? <==> Number(h, Size) > 0 && h.pos >= |bytes|
    ensures r.Some? && Number(h, Size) > 0 ==>
              |r.value| == Min(Number(h, Size), |bytes| - h.pos) && r.value == bytes[h.pos..h.pos + |r.value|]
  {
    var size := Number(h, Size);
    ReadAt(bytes, h.pos, size)
  }

  /** When the source holds `c` at `pos` and the size field reads `|c|`, the content is `c`. */
  lemma ContentIs(bytes: seq<Byte>, h: Header, c: seq<Byte>)
    requires Number(h, Size) == |c| && h.pos + |c| <= |bytes| && bytes[h.pos..h.pos + |c|] == c
    ensures Content(bytes, h) == Some(c)
  {
    if |c| == 0 {
      assert c == [];
    } else {
      assert ReadAt(bytes, h.pos, |c|) == Some(bytes[h.pos..h.pos + |c|]);
    }
  }

  // ---------------------------------------------------------------------
  // The objects

  /** How one pass of the scanning loop ends. */
  datatype Step = Continue | Stop | Fail(error: Error)

  class Archive {
    const io: Stream
    var headers: seq<Header>
    var files: seq<File>

    /** `headers` is the scan of the whole source and `files` wraps them one for one. */
    ghost predicate Valid()
      reads this
    {
      Scan(io.bytes, 0) == Ok(headers)
      && |files| == |headers|
      && forall i :: 0 <= i < |files| ==> files[i].archive == this && files[i].header == headers[i]
    }

    /**
     * The first step of `Archive.new` only: the scan has not run yet, so
     * `Valid()` holds afterwards only for a source without headers. `Open`
     * is the whole of `initialize`.
     */
    constructor (archive: seq<Byte>)
      ensures fresh(io) && io.bytes == archive && io.pos == 0
      ensures headers == [] && files == []
    {
      io := new Stream(archive);
      headers := [];
      files := [];
    }

    /**
     * `Archive.new(data)`: scans the whole source, then wraps every header
     * in a `File`. A raised error means no archive object at all.
     */
    static method Open(archive: seq<Byte>) returns (r: Result<Archive, Error>)
      ensures Scan(archive, 0).Err? ==> r == Err(Scan(archive, 0).error)
      ensures Scan(archive, 0).Ok? ==>
        && r.Ok? && fresh(r.value) && fresh(r.value.io)
        && r.value.io.bytes == archive && r.value.headers == Scan(archive, 0).value
        && r.value.Valid()
        && forall i :: 0 <= i < |r.value.files| ==> fresh(r.value.files[i])
    {
      var a := new Archive(archive);
      var err := a.ReadHeaders();
      if err.Some? {
        return Err(err.value);
      }
      a.WrapHeaders();
      return Ok(a);
    }

    /** `read_headers`: the loop over the stream from its current position. */
    method ReadHeaders() returns (err: Option<Error>)
      modifies this`headers, io`pos
      ensures err.None? ==> Scan(io.bytes, old(io.pos)) == Ok(headers)
      ensures err.Some? ==> Scan(io.bytes, old(io.pos)) == Err(err.value)
    {
      headers := [];
      PrependNothing(Scan(io.bytes, io.pos));
      while true
        invariant Prepend(headers, Scan(io.bytes, io.pos)) == Scan(io.bytes, old(io.pos))
        decreases |io.bytes| - io.pos
      {
        var step := ReadEntry();
        if step.Stop? {
          assert headers + [] == headers;
          break;
        } else if step.Fail? {
          return Some(step.error);
        }
      }
      return None;
    }

    /**
     * One pass of the `while` body of `read_headers`: read a block; stop at
     * the end of the source or at a terminator; otherwise keep the header
     * and skip its content.
     */
    method ReadEntry() returns (step: Step)
      modifies this`headers, io`pos
      ensures step.Continue? ==>
        && old(io.pos) < |io.bytes| && old(io.pos) < io.pos
        && Prepend(headers, Scan(io.bytes, io.pos)) == Prepend(old(headers), Scan(io.bytes, old(io.pos)))
      ensures step.Stop? ==> headers == old(headers) && Scan(io.bytes, old(io.pos)) == Ok([])
      ensures step.Fail? ==> Scan(io.bytes, old(io.pos)) == Err(step.error)
    {
      var at := io.pos;
      var data := io.Read(BlockSize);
      // `data.nil? or data.empty?`; a read of 512 bytes is never empty
      if data.None? {
        assert Scan(io.bytes, at) == Ok([]) by { ScanCases(io.bytes, at); }
        return Stop;
      }
      if |data.value| < BlockSize {
        assert Scan(io.bytes, at) == Err(ShortBlock(at)) by { ScanCases(io.bytes, at); }
        return Fail(ShortBlock(at));
      }
      var h := Header(io.pos, data.value);
      var name := Text(h, Name);
      if name.None? {
        assert Scan(io.bytes, at) == Err(UnterminatedName(at)) by { ScanCases(io.bytes, at); }
        return Fail(UnterminatedName(at));
      }
      if name.value == [] {
        assert Scan(io.bytes, at) == Terminator(io.bytes, at) by { ScanCases(io.bytes, at); }
        var err := ReadTerminator(at);
        if err.None? {
          return Stop;
        }
        return Fail(err.value);
      }
      KeepStep(io.bytes, at, h, headers);
      headers := headers + [h];
      var size := Number(h, Size);
      if size > 0 {
        io.pos := io.pos + Padded(size);
      }
      return Continue;
    }

    /**
     * The second `io.read(512)` after an empty-name block at `first`: an
     * empty name again ends the scan, a name raises "Malformed header" at
     * `io.pos - 1024`, and a nil read makes `.name` raise.
     */
    method ReadTerminator(ghost first: nat) returns (err: Option<Error>)
      requires io.pos == first + BlockSize
      modifies io`pos
      ensures Terminator(io.bytes, first).Ok? ==> err.None?
      ensures Terminator(io.bytes, first).Err? ==> err == Some(Terminator(io.bytes, first).error)
    {
      var at := io.pos;
      var second := io.Read(BlockSize);
      if second.None? {
        return Some(MissingTerminator(io.pos));
      }
      // `Header.new(io.pos + 512, second).name` reads only the name field
      var name2 := LeadingName(second.value);
      if name2.None? {
        return Some(UnterminatedName(at));
      }
      if name2.value == [] {
        return None;
      }
      return Some(MalformedHeader(io.pos - 2 * BlockSize));
    }

    /** `@headers.map { |header| File.new(self, header) }`. */
    method WrapHeaders()
      modifies this`files
      ensures |files| == |headers|
      ensures forall i :: 0 <= i < |files| ==> files[i].archive == this && files[i].header == headers[i] && fresh(files[i])
    {
      var fs: seq<File> := [];
      var i := 0;
      while i < |headers|
        invariant 0 <= i <= |headers| && |fs| == i
        invariant forall j :: 0 <= j < i ==> fs[j].archive == this && fs[j].header == headers[j] && fresh(fs[j])
      {
        var f := new File(this, headers[i]);
        fs := fs + [f];
        i := i + 1;
      }
      files := fs;
    }
  }

  class File {
    const archive: Archive
    const header: Header

    constructor (archive: Archive, header: Header)
      ensures this.archive == archive && this.header == header
    {
      this.archive := archive;
      this.header := header;
    }

    /** `File#name` is the header's name. */
    function Name(): (r: Option<seq<Byte>>)
      ensures r == Text(header, TarHeader.Name)
    {
      Text(header, TarHeader.Name)
    }

    /**
     * `File#read`: seeks the archive's shared stream to the content and
     * reads `size` bytes. The result depends only on the header and the
     * source, so repeated calls agree; only the shared position changes.
     */
    method Read() returns (r: Option<seq<Byte>>)
      modifies archive.io`pos
      ensures r == Content(archive.io.bytes, header)
      ensures archive.io.pos == header.pos + (if r.Some? then |r.value| else 0)
    {
      var io := archive.io;
      io.pos := header.pos;
      r := io.Read(Number(header, Size));
    }
  }

  /** Every file of a valid archive has a non-empty name, and its content follows its own header block. */
  lemma FilesOfArchive(a: Archive, i: nat)
    requires a.Valid() && i < |a.files|
    ensures a.files[i].Name().Some? && a.files[i].Name().value != []
    ensures Kept(a.io.bytes, a.files[i].header)
  {
    var h := a.headers[i];
    assert a.files[i].header == h;
    ScanBlocks(a.io.bytes, 0);
    assert Kept(a.io.bytes, h);
  }
}
