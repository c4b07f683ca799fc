// The line-level parsing of the EnSight Gold reader (vtkNewEnSightGoldReader):
// the options of a "block" line, the file format announced by the first
// line of a geometry file, the byte order detected from the first part id
// of a binary file, the comment-skipping line reader, the section headers
// of a case file and the point and cell counts of a structured part.
module EnSightReader {
  import opened Common

  const MaxLineLength: nat := 80
  /** The largest accepted part id plus one, used to guess the byte order. */
  const MaximumPartId: int := 65536

  /** strncmp(s, p, |p|) == 0: the first |p| characters of s are p. */
  predicate StartsWith(s: string, p: string)
  {
    |p| <= |s| && s[..|p|] == p
  }

  /** A prefix fixes the characters it covers. */
  lemma PrefixChar(s: string, p: string, k: nat)
    requires StartsWith(s, p) && k < |p|
    ensures s[k] == p[k]
  {
    assert s[..|p|][k] == s[k];
  }

  /** Two words with different first characters cannot both begin a string. */
  lemma FirstCharExclusive(s: string, p: string, q: string)
    requires |p| > 0 && |q| > 0 && p[0] != q[0]
    ensures !(StartsWith(s, p) && StartsWith(s, q))
  {
    if StartsWith(s, p) {
      PrefixChar(s, p, 0);
    }
  }

  /** No two block keywords begin the same option. */
  lemma KeywordsExclusive(option: string)
    ensures StartsWith(option, "curvilinear") ==>
              !StartsWith(option, "rectilinear") && !StartsWith(option, "uniform") &&
              !StartsWith(option, "iblanked") && !StartsWith(option, "with_ghost") && !StartsWith(option, "range")
    ensures StartsWith(option, "rectilinear") ==>
              !StartsWith(option, "uniform") &&
              !StartsWith(option, "iblanked") && !StartsWith(option, "with_ghost") && !StartsWith(option, "range")
    ensures StartsWith(option, "uniform") ==>
              !StartsWith(option, "iblanked") && !StartsWith(option, "with_ghost") && !StartsWith(option, "range")
    ensures StartsWith(option, "iblanked") ==> !StartsWith(option, "with_ghost") && !StartsWith(option, "range")
    ensures StartsWith(option, "with_ghost") ==> !StartsWith(option, "range")
  {
    if |option| > 0 {
      if StartsWith(option, "curvilinear") { PrefixChar(option, "curvilinear", 0); }
      if StartsWith(option, "rectilinear") { PrefixChar(option, "rectilinear", 1); }
      if StartsWith(option, "uniform") { PrefixChar(option, "uniform", 0); }
      if StartsWith(option, "iblanked") { PrefixChar(option, "iblanked", 0); }
      if StartsWith(option, "with_ghost") { PrefixChar(option, "with_ghost", 0); }
      if StartsWith(option, "range") { PrefixChar(option, "range", 0); PrefixChar(option, "range", 1); }
    }
  }

  // ---- Block options -----------------------------------------------------------

  datatype GridType = UnknownGrid | Uniform | Rectilinear | Curvilinear | Unstructured

  datatype GridOptions = GridOptions(gridType: GridType, iBlanked: bool, withGhost: bool, hasRange: bool)

  const DefaultOptions := GridOptions(UnknownGrid, false, false, false)

  /** The grid type a "block" option names, if it names one. */
  function TypeKeyword(option: string): (t: Option<GridType>)
    ensures t.Some? ==> t.value in {Uniform, Rectilinear, Curvilinear}
  {
    if StartsWith(option, "curvilinear") then Some(Curvilinear)
    else if StartsWith(option, "rectilinear") then Some(Rectilinear)
    else if StartsWith(option, "uniform") then Some(Uniform)
    else None
  }

  /**
   * evaluateOption: the option sets the one field whose keyword begins it;
   * an option that begins with no keyword changes nothing.
   */
  function EvaluateOption(option: string, opts: GridOptions): (r: GridOptions)
    ensures TypeKeyword(option).Some? ==> r == opts.(gridType := TypeKeyword(option).value)
    ensures TypeKeyword(option).None? ==> r.gridType == opts.gridType
    ensures r.iBlanked == (opts.iBlanked || StartsWith(option, "iblanked"))
    ensures r.withGhost == (opts.withGhost || StartsWith(option, "with_ghost"))
    ensures r.hasRange == (opts.hasRange || StartsWith(option, "range"))
  {
    KeywordsExclusive(option);
    if StartsWith(option, "curvilinear") then opts.(gridType := Curvilinear)
    else if StartsWith(option, "rectilinear") then opts.(gridType := Rectilinear)
    else if StartsWith(option, "uniform") then opts.(gridType := Uniform)
    else if StartsWith(option, "iblanked") then opts.(iBlanked := true)
    else if StartsWith(option, "with_ghost") then opts.(withGhost := true)
    else if StartsWith(option, "range") then opts.(hasRange := true)
    else opts
  }

  /** Options evaluated one after the other, as getGridOptions does. */
  function EvaluateOptions(options: seq<string>, opts: GridOptions): (r: GridOptions)
    ensures r.iBlanked == (opts.iBlanked || exists i :: 0 <= i < |options| && StartsWith(options[i], "iblanked"))
    ensures r.withGhost == (opts.withGhost || exists i :: 0 <= i < |options| && StartsWith(options[i], "with_ghost"))
    ensures r.hasRange == (opts.hasRange || exists i :: 0 <= i < |options| && StartsWith(options[i], "range"))
    ensures (forall i :: 0 <= i < |options| ==> TypeKeyword(options[i]).None?) ==> r.gridType == opts.gridType
    ensures r.gridType == opts.gridType || r.gridType in {Uniform, Rectilinear, Curvilinear}
    ensures forall i :: (0 <= i < |options| && TypeKeyword(options[i]).Some? &&
              forall j :: i < j < |options| ==> TypeKeyword(options[j]).None?) ==>
              r.gridType == TypeKeyword(options[i]).value
    decreases |options|
  {
    if |options| == 0 then opts
    else
      var tail := options[1..];
      var r := EvaluateOptions(tail, EvaluateOption(options[0], opts));
      assert forall i :: 1 <= i < |options| ==> tail[i - 1] == options[i];
      assert forall i :: (0 <= i < |options| && TypeKeyword(options[i]).Some? &&
                forall j :: i < j < |options| ==> TypeKeyword(options[j]).None?) ==>
                r.gridType == TypeKeyword(options[i]).value by {
        forall i | 0 <= i < |options| && TypeKeyword(options[i]).Some? &&
                   forall j :: i < j < |options| ==> TypeKeyword(options[j]).None?
          ensures r.gridType == TypeKeyword(options[i]).value
        {
          if i == 0 {
            assert forall j :: 0 <= j < |tail| ==> TypeKeyword(tail[j]).None? by {
              forall j | 0 <= j < |tail| ensures TypeKeyword(tail[j]).None? { assert tail[j] == options[j + 1]; }
            }
          } else {
            assert tail[i - 1] == options[i];
            assert forall j :: i - 1 < j < |tail| ==> TypeKeyword(tail[j]).None? by {
              forall j | i - 1 < j < |tail| ensures TypeKeyword(tail[j]).None? { assert tail[j] == options[j + 1]; }
            }
          }
        }
      }
      r
  }

  /**
   * getGridOptions on the whitespace-separated words of a "block" line: a
   * bare "block" is curvilinear; otherwise the next four words are
   * evaluated and a line naming no grid type is curvilinear too.
   */
  function GetGridOptions(words: seq<string>): (r: GridOptions)
    ensures r.gridType in {Uniform, Rectilinear, Curvilinear}
    ensures |words| <= 1 ==> r == DefaultOptions.(gridType := Curvilinear)
  {
    if |words| <= 1 then DefaultOptions.(gridType := Curvilinear)
    else
      var options := if |words| < 5 then words[1..] else words[1..5];
      var opts := EvaluateOptions(options, DefaultOptions);
      if opts.gridType == UnknownGrid then opts.(gridType := Curvilinear) else opts
  }

  /** A line naming no grid type gives a curvilinear grid, whatever its other options. */
  lemma GridOptionsDefaultCurvilinear(words: seq<string>)
    requires forall i :: 1 <= i < |words| ==> TypeKeyword(words[i]).None?
    ensures GetGridOptions(words).gridType == Curvilinear
  {
    if |words| > 1 {
      var options := if |words| < 5 then words[1..] else words[1..5];
      assert forall i :: 0 <= i < |options| ==> options[i] == words[i + 1];
    }
  }

  /** "block uniform iblanked" gives an iblanked uniform grid without range or ghosts. */
  lemma GridOptionsExample()
    ensures GetGridOptions(["block", "uniform", "iblanked"]) == GridOptions(Uniform, true, false, false)
  {
    var options := ["uniform", "iblanked"];
    assert ["block", "uniform", "iblanked"][1..] == options;
    assert StartsWith(options[0], "uniform");
    KeywordsExclusive(options[0]);
    assert StartsWith(options[1], "iblanked");
    assert TypeKeyword(options[1]).None? by {
      assert !StartsWith(options[1], "curvilinear") && !StartsWith(options[1], "rectilinear") && !StartsWith(options[1], "uniform");
    }
    KeywordsExclusive(options[1]);
  }

  // ---- File format -------------------------------------------------------------

  datatype FileType = Ascii | CBinary | FBinary

  /**
   * OpenFile as written, on the first two words of the first line: when the
   * second word begins with "Binary", a first word beginning with "C" gives C
   * binary and otherwise the second word is tested for "Fortran", which it
   * cannot begin with; None is the "could not be determined" failure.
   */
  function FileTypeAsWritten(word1: string, word2: string): Option<FileType>
  {
    if StartsWith(word2, "Binary") then
      if StartsWith(word1, "C") then Some(CBinary)
      else if StartsWith(word2, "Fortran") then Some(FBinary)
      else None
    else Some(Ascii)
  }

  /** A "Fortran Binary" file is refused by the code as written. */
  lemma FortranBinaryRefused()
    ensures FileTypeAsWritten("Fortran", "Binary") == None
    ensures forall w1, w2 :: FileTypeAsWritten(w1, w2) != Some(FBinary)
  {
    assert StartsWith("Binary", "Binary");
    assert !StartsWith("Fortran", "C") by {
      if StartsWith("Fortran", "C") { PrefixChar("Fortran", "C", 0); }
    }
    forall w1, w2 ensures FileTypeAsWritten(w1, w2) != Some(FBinary) {
      if StartsWith(w2, "Binary") && StartsWith(w2, "Fortran") {
        PrefixChar(w2, "Binary", 0);
        PrefixChar(w2, "Fortran", 0);
      }
    }
  }

  /** OpenFile with the Fortran test on the first word, as the branch evidently intends. */
  function FileTypeOf(word1: string, word2: string): (r: Option<FileType>)
    ensures r == Some(Ascii) <==> !StartsWith(word2, "Binary")
    ensures r == Some(CBinary) <==> StartsWith(word2, "Binary") && StartsWith(word1, "C")
    ensures r == Some(FBinary) <==> StartsWith(word2, "Binary") && StartsWith(word1, "Fortran")
    ensures r.None? <==> StartsWith(word2, "Binary") && !StartsWith(word1, "C") && !StartsWith(word1, "Fortran")
  {
    FirstCharExclusive(word1, "C", "Fortran");
    if StartsWith(word2, "Binary") then
      if StartsWith(word1, "C") then Some(CBinary)
      else if StartsWith(word1, "Fortran") then Some(FBinary)
      else None
    else Some(Ascii)
  }

  /** The corrected test agrees with the written one on every file it already accepted. */
  lemma FileTypeAgrees(word1: string, word2: string)
    requires FileTypeAsWritten(word1, word2).Some?
    ensures FileTypeOf(word1, word2) == FileTypeAsWritten(word1, word2)
  {
    FortranBinaryRefused();
  }

  // ---- Byte order --------------------------------------------------------------

  datatype Endianness = UnknownOrder | Little | Big

  newtype Byte = x: int | 0 <= x < 256

  /** Four bytes of a file, in the order they are stored. */
  datatype Word = Word(b0: Byte, b1: Byte, b2: Byte, b3: Byte)

  /** The same bytes in the opposite order (vtkByteSwap). */
  function Swapped(w: Word): Word
  {
    Word(w.b3, w.b2, w.b1, w.b0)
  }

  /** Swapping is its own inverse. */
  lemma SwappedTwice(w: Word)
    ensures Swapped(Swapped(w)) == w
  {
  }

  /** A 32-bit two's-complement int from its unsigned value. */
  function Signed(u: int): (r: int)
    requires 0 <= u < 0x1_0000_0000
    ensures -0x8000_0000 <= r < 0x8000_0000
    ensures (r - u) % 0x1_0000_0000 == 0
    ensures 0 <= r ==> r == u
  {
    if u < 0x8000_0000 then u else u - 0x1_0000_0000
  }

  /** The int the bytes make when the first one is the least significant. */
  function LittleEndian(w: Word): (r: int)
    ensures -0x8000_0000 <= r < 0x8000_0000
  {
    Signed(w.b0 as int + 0x100 * w.b1 as int + 0x1_0000 * w.b2 as int + 0x100_0000 * w.b3 as int)
  }

  /** The bytes a little-endian writer stores for an int in [0, 2^16). */
  function LittleEndianBytes(id: int): (w: Word)
    requires 0 <= id < 0x1_0000
    ensures LittleEndian(w) == id
  {
    Word((id % 0x100) as Byte, (id / 0x100) as Byte, 0, 0)
  }

  predicate PlausiblePartId(v: int)
  {
    0 <= v < MaximumPartId
  }

  /**
   * The order DetectByteOrder settles on for the first part id of a binary
   * file and the part id it then reads: little-endian if that gives a
   * plausible id, else big-endian if that does; None when neither does.
   */
  function DetectedOrder(w: Word): (r: Option<(Endianness, int)>)
    ensures r.Some? ==> r.value.0 != UnknownOrder && PlausiblePartId(r.value.1)
    ensures r.Some? && r.value.0 == Little ==> r.value.1 == LittleEndian(w)
    ensures r.Some? && r.value.0 == Big ==> r.value.1 == LittleEndian(Swapped(w)) && !PlausiblePartId(LittleEndian(w))
    ensures r.None? <==> !PlausiblePartId(LittleEndian(w)) && !PlausiblePartId(LittleEndian(Swapped(w)))
  {
    if PlausiblePartId(LittleEndian(w)) then Some((Little, LittleEndian(w)))
    else if PlausiblePartId(LittleEndian(Swapped(w))) then Some((Big, LittleEndian(Swapped(w))))
    else None
  }

  /**
   * Whichever byte order the writer used, a plausible part id is read back
   * unchanged: little-endian files are detected as such, and big-endian
   * files as big-endian unless the id is 0, which reads the same both ways.
   */
  lemma PartIdRoundTrip(id: int)
    requires PlausiblePartId(id)
    ensures DetectedOrder(LittleEndianBytes(id)) == Some((Little, id))
    ensures id != 0 ==> DetectedOrder(Swapped(LittleEndianBytes(id))) == Some((Big, id))
    ensures id == 0 ==> DetectedOrder(Swapped(LittleEndianBytes(id))) == Some((Little, 0))
  {
    var lo, hi := id % 0x100, id / 0x100;
    assert 0 <= hi < 0x100;
    var v := Swapped(LittleEndianBytes(id));
    assert v == Word(0, 0, hi as Byte, lo as Byte);
    var u := 0x1_0000 * hi + 0x100_0000 * lo;
    assert LittleEndian(v) == Signed(u);
    if id != 0 {
      assert hi != 0 || lo != 0;
      assert u >= 0x1_0000;
      assert !PlausiblePartId(LittleEndian(v));
    }
  }

  // ---- Reading lines -----------------------------------------------------------

  /** ASCII characters isspace accepts. */
  predicate IsSpace(c: char)
  {
    c == ' ' || c == '\t' || c == '\n' || c == '\U{000B}' || c == '\U{000C}' || c == '\r'
  }

  /** A line ReadNextLine skips: empty, starting with '#', or only whitespace. */
  predicate IsComment(line: string)
  {
    |line| == 0 || line[0] == '#' || forall i :: 0 <= i < |line| ==> IsSpace(line[i])
  }

  /**
   * The index of the first line at or after pos where ReadNextLine stops on
   * an ASCII file: a line that is not a comment, or one too long for the
   * MaxLineLength buffer; None when every remaining line is a short comment.
   */
  function NextStop(lines: seq<string>, pos: nat): (k: Option<nat>)
    ensures k.Some? ==> pos <= k.value < |lines| && (!IsComment(lines[k.value]) || |lines[k.value]| >= MaxLineLength)
    ensures forall j :: pos <= j < |lines| && (k.None? || j < k.value) ==> IsComment(lines[j]) && |lines[j]| < MaxLineLength
    decreases |lines| - pos
  {
    if pos >= |lines| then None
    else if !IsComment(lines[pos]) || |lines[pos]| >= MaxLineLength then Some(pos)
    else NextStop(lines, pos + 1)
  }

  /** A binary record is MaxLineLength bytes with the last one forced to the terminator. */
  function Record(line: string): (r: string)
    ensures |r| <= MaxLineLength - 1
    ensures StartsWith(line, r)
  {
    if |line| < MaxLineLength then line else line[..MaxLineLength - 1]
  }

  /**
   * An EnSight file being read: its format, its byte order once detected, and
   * the stream as the sequence of its lines (records for binary files) with
   * the read position.
   */
  class EnSightFile {
    var format: FileType
    var byteOrder: Endianness
    var lines: seq<string>
    var pos: nat

    constructor(format: FileType, lines: seq<string>)
      ensures this.format == format && this.lines == lines
      ensures byteOrder == UnknownOrder && pos == 0
    {
      this.format := format;
      this.byteOrder := UnknownOrder;
      this.lines := lines;
      this.pos := 0;
    }

    /**
     * ReadLine: the next line, or the next record cut to its first 79
     * characters for a binary file.  An ASCII line of MaxLineLength
     * characters or more does not fit the buffer: the read fails with the
     * first 79 characters, and the rest of the line stays in the stream.  At
     * the end of the stream the read fails, yields nothing and leaves the
     * position where it is.
     */
    method ReadLine() returns (ok: bool, result: string)
      modifies this`pos, this`lines
      ensures old(pos) >= |old(lines)| ==> !ok && result == "" && pos == old(pos) && lines == old(lines)
      ensures old(pos) < |old(lines)| && format != Ascii ==>
                ok && result == Record(old(lines)[old(pos)]) && pos == old(pos) + 1 && lines == old(lines)
      ensures old(pos) < |old(lines)| && format == Ascii && |old(lines)[old(pos)]| < MaxLineLength ==>
                ok && result == old(lines)[old(pos)] && pos == old(pos) + 1 && lines == old(lines)
      ensures old(pos) < |old(lines)| && format == Ascii && |old(lines)[old(pos)]| >= MaxLineLength ==>
                !ok && result == old(lines)[old(pos)][..MaxLineLength - 1] && pos == old(pos)
                && lines == old(lines)[old(pos) := old(lines)[old(pos)][MaxLineLength - 1..]]
    {
      if pos >= |lines| {
        ok, result := false, "";
      } else if format != Ascii {
        result := Record(lines[pos]);
        pos := pos + 1;
        ok := true;
      } else if |lines[pos]| < MaxLineLength {
        result := lines[pos];
        pos := pos + 1;
        ok := true;
      } else {
        var line := lines[pos];
        result := line[..MaxLineLength - 1];
        lines := lines[pos := line[MaxLineLength - 1..]];
        ok := false;
      }
    }

    /**
     * ReadNextLine: for ASCII files the first line from the position on that
     * is not a comment, leaving the position just after it; when only
     * comments remain the read fails at the end of the stream, and a line
     * too long for the buffer fails as ReadLine does.  Binary files read the
     * next record.
     */
    method ReadNextLine() returns (ok: bool, result: string)
      modifies this`pos, this`lines
      ensures format != Ascii ==> lines == old(lines) && (ok <==> old(pos) < |lines|)
      ensures format != Ascii && ok ==> result == Record(lines[old(pos)]) && pos == old(pos) + 1
      ensures format == Ascii && NextStop(old(lines), old(pos)).None? ==>
                !ok && result == "" && lines == old(lines) && pos == if old(pos) < |lines| then |lines| else old(pos)
      ensures format == Ascii && NextStop(old(lines), old(pos)).Some? ==>
                var k := NextStop(old(lines), old(pos)).value;
                var line := old(lines)[k];
                (ok <==> |line| < MaxLineLength)
                && (ok ==> pos == k + 1 && result == line && lines == old(lines))
                && (!ok ==> pos == k && result == line[..MaxLineLength - 1] && lines == old(lines)[k := line[MaxLineLength - 1..]])
    {
      if format != Ascii {
        ok, result := ReadLine();
        return;
      }
      var isComment := true;
      var lineRead := true;
      result := "";
      ghost var start, lines0 := pos, lines;
      while isComment && lineRead
        invariant lineRead ==> lines == lines0 && start <= pos && (pos <= |lines0| || pos == start)
        invariant lineRead && isComment ==> NextStop(lines0, start) == NextStop(lines0, pos)
        invariant lineRead && !isComment ==>
                    NextStop(lines0, start) == Some(pos - 1) && |lines0[pos - 1]| < MaxLineLength && result == lines0[pos - 1]
        invariant !lineRead && NextStop(lines0, start).None? ==>
                    result == "" && lines == lines0 && pos == if start < |lines0| then |lines0| else start
        invariant !lineRead && NextStop(lines0, start).Some? ==>
                    var k := NextStop(lines0, start).value;
                    |lines0[k]| >= MaxLineLength && pos == k && result == lines0[k][..MaxLineLength - 1]
                    && lines == lines0[k := lines0[k][MaxLineLength - 1..]]
        decreases |lines0| - pos, lineRead
      {
        lineRead, result := ReadLine();
        if |result| > 0 && result[0] != '#' {
          var len := |result|;
          var i := 0;
          while i < len && IsSpace(result[i])
            invariant 0 <= i <= len
            invariant forall k :: 0 <= k < i ==> IsSpace(result[k])
          {
            i := i + 1;
          }
          if i != len {
            isComment := false;
          }
        }
      }
      ok := lineRead;
    }

    /**
     * DetectByteOrder on the four bytes of the first part id of a binary
     * file, as read on a little-endian host: once the order is known nothing
     * changes; otherwise the order of DetectedOrder is recorded and the id
     * read in it returned, or the call fails leaving the value as it was.
     */
    method DetectByteOrder(word: Word) returns (ok: bool, result: int)
      modifies this`byteOrder
      ensures old(byteOrder) != UnknownOrder ==> ok && result == LittleEndian(word) && byteOrder == old(byteOrder)
      ensures old(byteOrder) == UnknownOrder ==> (ok <==> DetectedOrder(word).Some?)
      ensures old(byteOrder) == UnknownOrder && ok ==> (byteOrder, result) == DetectedOrder(word).value
      ensures old(byteOrder) == UnknownOrder && !ok ==> byteOrder == UnknownOrder && result == LittleEndian(word)
    {
      result := LittleEndian(word);
      if byteOrder == UnknownOrder {
        var tmpLE := LittleEndian(word);
        var tmpBE := LittleEndian(Swapped(word));
        if 0 <= tmpLE < MaximumPartId {
          byteOrder := Little;
          return true, tmpLE;
        }
        if 0 <= tmpBE < MaximumPartId {
          byteOrder := Big;
          return true, tmpBE;
        }
        return false, result;
      }
      ok := true;
    }
  }

  // ---- Case file sections ------------------------------------------------------

  /**
   * IsSectionHeader: the whole line is the name of one of the five case-file
   * sections.  Such a line fits the line buffer and starts with a letter.
   */
  predicate IsSectionHeader(line: string): (r: bool)
    ensures r ==> 4 <= |line| < MaxLineLength && 'A' <= line[0] <= 'Z'
  {
    line in {"FORMAT", "GEOMETRY", "VARIABLE", "TIME", "FILE"}
  }

  /** ReadNextLine never skips a section header, so the case-file loops always see them. */
  lemma SectionHeaderIsContent(line: string)
    requires IsSectionHeader(line)
    ensures !IsComment(line)
  {
    assert !IsSpace(line[0]);
  }

  // ---- Structured dimensions ---------------------------------------------------

  datatype Dimensions = Dimensions(dims: (int, int, int), numPts: int, numCells: int)

  /**
   * ReadDimensions: the dimensions as read, replaced by max - min + 1 per
   * direction when the part has a range (imin, imax, jmin, jmax, kmin, kmax),
   * then the point count as their product and the cell count as the product
   * of one less in each direction.
   */
  function ReadDimensions(read: (int, int, int), range: Option<seq<int>>): (r: Dimensions)
    requires range.Some? ==> |range.value| == 6
    ensures range.None? ==> r.dims == read
    ensures range.Some? ==> r.dims == (range.value[1] - range.value[0] + 1, range.value[3] - range.value[2] + 1, range.value[5] - range.value[4] + 1)
    ensures r.numPts == r.dims.0 * r.dims.1 * r.dims.2
    ensures r.numCells == (r.dims.0 - 1) * (r.dims.1 - 1) * (r.dims.2 - 1)
  {
    var d := if range.Some? then
        var g := range.value; (g[1] - g[0] + 1, g[3] - g[2] + 1, g[5] - g[4] + 1)
      else read;
    Dimensions(d, d.0 * d.1 * d.2, (d.0 - 1) * (d.1 - 1) * (d.2 - 1))
  }

  /** A well-formed block (every dimension at least 1) has fewer cells than points, none when it is flat. */
  lemma CellsFewerThanPoints(read: (int, int, int), range: Option<seq<int>>)
    requires range.Some? ==> |range.value| == 6
    requires var d := ReadDimensions(read, range).dims; d.0 >= 1 && d.1 >= 1 && d.2 >= 1
    ensures 0 <= ReadDimensions(read, range).numCells < ReadDimensions(read, range).numPts
    ensures var d := ReadDimensions(read, range).dims;
      d.0 == 1 || d.1 == 1 || d.2 == 1 ==> ReadDimensions(read, range).numCells == 0
  {
    var r := ReadDimensions(read, range);
    BoxCounts(r.dims.0 - 1, r.dims.1 - 1, r.dims.2 - 1);
  }

  /** Cells and points of an a x b x c cell block. */
  lemma BoxCounts(a: nat, b: nat, c: nat)
    ensures 0 <= a * b * c < (a + 1) * (b + 1) * (c + 1)
    ensures a == 0 || b == 0 || c == 0 ==> a * b * c == 0
  {
    var ab := a * b;
    assert ab >= 0;
    assert ab * c >= 0;
    assert (a + 1) * (b + 1) == ab + a + b + 1;
    assert (ab + a + b + 1) * (c + 1) == ab * c + ab + a * c + b * c + a + b + c + 1;
    assert a * c >= 0 && b * c >= 0;
  }

  /** A range of one index in a direction gives a flat block. */
  lemma SingleIndexRangeIsFlat(read: (int, int, int), g: seq<int>)
    requires |g| == 6 && g[0] == g[1]
    ensures ReadDimensions(read, Some(g)).dims.0 == 1 && ReadDimensions(read, Some(g)).numCells == 0
  {
  }
}
