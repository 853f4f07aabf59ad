/** The main window's glue: the colour buttons' hex text, the path shown for a design, and the
    block-design panel, whose buttons edit the design's `_buffer` and re-render its text. */
module Joint {
  import opened PyLib
  import Blocks
  import Options

  // ---------------------------------------------------------------------------
  // Hex colours

  predicate IsHexDigit(c: char)
  {
    '0' <= c <= '9' || 'a' <= c <= 'f'
  }

  function HexValue(c: char): (v: int)
    requires IsHexDigit(c)
    ensures 0 <= v < 16
  {
    if c <= '9' then (c - '0') as int else (c - 'a') as int + 10
  }

  /** The lowercase hex digit of `d`. */
  function HexDigit(d: int): (c: char)
    requires 0 <= d < 16
    ensures IsHexDigit(c) && HexValue(c) == d
  {
    if d < 10 then ('0' as int + d) as char else ('a' as int + d - 10) as char
  }

  /** The digits `hex(e)` writes after `0x`: lowercase, without leading zeros. */
  function HexDigitsOf(e: nat): (s: string)
    ensures |s| >= 1 && s[|s| - 1] == HexDigit(e % 16)
    ensures forall i :: 0 <= i < |s| ==> IsHexDigit(s[i])
  {
    if e < 16 then [HexDigit(e)] else HexDigitsOf(e / 16) + [HexDigit(e % 16)]
  }

  /** Python's `hex(e)` for `e >= 0`. */
  function PyHex(e: nat): string
  {
    "0x" + HexDigitsOf(e)
  }

  /** `s.replace(c, '')`. */
  function RemoveChar(s: string, c: char): (r: string)
    ensures c !in r
  {
    if s == [] then [] else (if s[0] == c then [] else [s[0]]) + RemoveChar(s[1..], c)
  }

  lemma {:induction false} RemoveCharAbsent(s: string, c: char)
    requires c !in s
    ensures RemoveChar(s, c) == s
  {
    if s != [] {
      RemoveCharAbsent(s[1..], c);
    }
  }

  /** One colour component as the colour button writes it: `hex(e).replace('x', '')[-2:]`. */
  function HexByte(e: nat): string
  {
    SliceFromNeg(RemoveChar(PyHex(e), 'x'), 2)
  }

  lemma {:induction false} RemoveCharCons(c0: char, rest: string, c: char)
    ensures RemoveChar([c0] + rest, c) == (if c0 == c then [] else [c0]) + RemoveChar(rest, c)
  {
    assert ([c0] + rest)[1..] == rest;
  }

  /** Removing `x` from `z`, `x` and a text without `x` leaves `z` and that text. */
  lemma {:induction false} RemoveSecond(rest: string, z: char, x: char)
    requires z != x && x !in rest
    ensures RemoveChar([z] + ([x] + rest), x) == [z] + rest
  {
    RemoveCharCons(z, [x] + rest, x);
    RemoveCharCons(x, rest, x);
    RemoveCharAbsent(rest, x);
  }

  /** Without its `x`, `hex(e)` is a zero followed by the digits. */
  lemma HexWithoutX(e: nat)
    ensures RemoveChar(PyHex(e), 'x') == "0" + HexDigitsOf(e)
  {
    var digits := HexDigitsOf(e);
    RemoveSecond(digits, '0', 'x');
    assert PyHex(e) == ['0'] + (['x'] + digits);
  }

  /** The two characters are the component's two low hex digits, a zero first below 16. */
  lemma {:induction false} HexByteDigits(e: nat)
    ensures HexByte(e) == [HexDigit(e / 16 % 16), HexDigit(e % 16)]
  {
    HexWithoutX(e);
    var t := "0" + HexDigitsOf(e);
    SliceFromNegCases(t, 2);
    assert HexByte(e) == t[|t| - 2..];
    if e < 16 {
      assert t == ['0', HexDigit(e % 16)];
      assert e / 16 % 16 == 0;
    } else {
      var high := HexDigitsOf(e / 16);
      assert HexDigitsOf(e) == high + [HexDigit(e % 16)];
      assert t[|t| - 2..] == [high[|high| - 1], HexDigit(e % 16)];
    }
  }

  /** A component in 0..255 is written as two lowercase hex digits that read back as it. */
  lemma {:induction false} HexByteRoundTrip(e: nat)
    requires e <= 255
    ensures var h := HexByte(e);
      |h| == 2 && IsHexDigit(h[0]) && IsHexDigit(h[1]) && HexValue(h[0]) * 16 + HexValue(h[1]) == e
  {
    HexByteDigits(e);
    var h := HexByte(e);
    assert e / 16 % 16 == e / 16;
    assert HexValue(h[0]) == e / 16 && HexValue(h[1]) == e % 16;
  }

  /** `hexRgb`: `'#'` and the three components. */
  function HexRgb(r: nat, g: nat, b: nat): string
  {
    "#" + HexByte(r) + HexByte(g) + HexByte(b)
  }

  /** The colour a `#rrggbb` text stands for. */
  function ParseHexRgb(s: string): Option<(int, int, int)>
  {
    if |s| == 7 && s[0] == '#' && IsHexDigit(s[1]) && IsHexDigit(s[2]) && IsHexDigit(s[3])
      && IsHexDigit(s[4]) && IsHexDigit(s[5]) && IsHexDigit(s[6])
    then
      Some((HexValue(s[1]) * 16 + HexValue(s[2]),
            HexValue(s[3]) * 16 + HexValue(s[4]),
            HexValue(s[5]) * 16 + HexValue(s[6])))
    else None
  }

  /** For the components a colour dialog returns, the text is `#` and 6 hex digits and gives the
      colour back; so different colours get different texts. */
  lemma HexRgbRoundTrip(r: nat, g: nat, b: nat)
    requires r <= 255 && g <= 255 && b <= 255
    ensures |HexRgb(r, g, b)| == 7 && HexRgb(r, g, b)[0] == '#'
    ensures ParseHexRgb(HexRgb(r, g, b)) == Some((r, g, b))
  {
    HexByteRoundTrip(r);
    HexByteRoundTrip(g);
    HexByteRoundTrip(b);
    ParseThreeBytes(HexByte(r), HexByte(g), HexByte(b), r, g, b);
  }

  /** `#` and three two-digit hex texts parse as the three values they spell. */
  lemma ParseThreeBytes(x: string, y: string, z: string, r: int, g: int, b: int)
    requires |x| == 2 && IsHexDigit(x[0]) && IsHexDigit(x[1]) && HexValue(x[0]) * 16 + HexValue(x[1]) == r
    requires |y| == 2 && IsHexDigit(y[0]) && IsHexDigit(y[1]) && HexValue(y[0]) * 16 + HexValue(y[1]) == g
    requires |z| == 2 && IsHexDigit(z[0]) && IsHexDigit(z[1]) && HexValue(z[0]) * 16 + HexValue(z[1]) == b
    ensures var s := "#" + x + y + z;
      |s| == 7 && s[0] == '#' && ParseHexRgb(s) == Some((r, g, b))
  {
    var s := "#" + x + y + z;
    assert s == ['#', x[0], x[1], y[0], y[1], z[0], z[1]];
  }

  // ---------------------------------------------------------------------------
  // The path shown for a design

  /** `s.split(c)`: the pieces between the separators, empty ones included. */
  function Split(s: string, c: char): (parts: seq<string>)
    ensures |parts| >= 1
    ensures forall k, i :: 0 <= k < |parts| && 0 <= i < |parts[k]| ==> parts[k][i] != c
  {
    if s == [] then [""]
    else
      var rest := Split(s[1..], c);
      if s[0] == c then [""] + rest else [[s[0]] + rest[0]] + rest[1..]
  }

  /** `c.join(parts)`. */
  function Join(parts: seq<string>, c: char): string
    requires |parts| >= 1
  {
    if |parts| == 1 then parts[0] else parts[0] + [c] + Join(parts[1..], c)
  }

  /** Splitting and joining again gives the text back. */
  lemma {:induction false} JoinSplit(s: string, c: char)
    ensures Join(Split(s, c), c) == s
  {
    if s != [] {
      JoinSplit(s[1..], c);
      var rest := Split(s[1..], c);
      if s[0] != c {
        if |rest| > 1 {
          assert ([[s[0]] + rest[0]] + rest[1..])[1..] == rest[1..];
        }
      }
    }
  }

  /** A file as `Path` shows it: `as_posix()` and `name`. */
  datatype PathText = PathText(posix: string, name: string)

  /** `s[:-1]`. */
  function DropLast(s: string): string
  {
    if s == [] then [] else s[..|s| - 1]
  }

  predicate NoEmptyPiece(pieces: seq<string>)
  {
    forall k :: 0 <= k < |pieces| ==> pieces[k] != []
  }

  /** `short_posix`: the first character of each `/`-piece of the path minus its last character,
      joined by `/`, then `/` and the file name. No path (`None.as_posix()`), or an empty piece
      (`e[0]` of `''`), raises, shown here as `None`. */
  function ShortPosix(p: Option<PathText>): (r: Option<string>)
    ensures p.None? ==> r.None?
    ensures p.Some? ==> (r.Some? <==> NoEmptyPiece(Split(DropLast(p.value.posix), '/')))
  {
    if p.None? then None
    else
      var pieces := Split(DropLast(p.value.posix), '/');
      if !NoEmptyPiece(pieces) then None
      else Some(Join(seq(|pieces|, k requires 0 <= k < |pieces| => [pieces[k][0]]), '/') + "/" + p.value.name)
  }

  /** Joining one-character pieces alternates those characters with the separator. */
  lemma {:induction false} JoinSingles(parts: seq<string>, c: char)
    requires |parts| >= 1 && forall k :: 0 <= k < |parts| ==> |parts[k]| == 1
    ensures |Join(parts, c)| == 2 * |parts| - 1
    ensures forall k :: 0 <= k < |parts| ==> Join(parts, c)[2 * k] == parts[k][0]
    ensures forall k :: 0 <= k < |parts| - 1 ==> Join(parts, c)[2 * k + 1] == c
  {
    if |parts| > 1 {
      JoinSingles(parts[1..], c);
      var j := Join(parts, c);
      var tail := Join(parts[1..], c);
      assert j == parts[0] + [c] + tail;
      forall k | 0 <= k < |parts| ensures j[2 * k] == parts[k][0] {
        if k > 0 {
          assert j[2 * k] == tail[2 * (k - 1)];
          assert parts[1..][k - 1] == parts[k];
        }
      }
      forall k | 0 <= k < |parts| - 1 ensures j[2 * k + 1] == c {
        if k > 0 {
          assert j[2 * k + 1] == tail[2 * (k - 1) + 1];
        }
      }
    }
  }

  /** The short path spells the initial of each piece, a `/` after each, then the file name. */
  lemma ShortPosixShape(p: PathText)
    requires ShortPosix(Some(p)).Some?
    ensures var pieces := Split(DropLast(p.posix), '/');
      var r := ShortPosix(Some(p)).value;
      && |r| == 2 * |pieces| + |p.name|
      && (forall k :: 0 <= k < |pieces| ==> r[2 * k] == pieces[k][0] && r[2 * k + 1] == '/')
      && r[2 * |pieces|..] == p.name
  {
    var pieces := Split(DropLast(p.posix), '/');
    var singles := seq(|pieces|, k requires 0 <= k < |pieces| => [pieces[k][0]]);
    JoinSingles(singles, '/');
    var r := ShortPosix(Some(p)).value;
    assert r == Join(singles, '/') + "/" + p.name;
  }

  /** An absolute path starts with an empty piece, so it always falls back. */
  lemma AbsolutePathFallsBack(p: PathText)
    requires |p.posix| >= 2 && p.posix[0] == '/'
    ensures ShortPosix(Some(p)).None?
  {
    var s := DropLast(p.posix);
    assert s[0] == '/';
    assert Split(s, '/')[0] == [];
  }

  // ---------------------------------------------------------------------------
  // The design text

  /** The design's line edits: their text and their placeholder text. */
  datatype LineEdits = LineEdits(nameText: string, namePlaceholder: string,
                                 makerText: string, makerPlaceholder: string)

  /** `_aOrB((a, b))`: `a` unless it is empty. */
  function AOrB(a: string, b: string): (r: string)
    ensures a != [] ==> r == a
    ensures a == [] ==> r == b
  {
    if a != [] then a else b
  }

  /** The line for block `i` of `n`. */
  function BlockLine(i: int, n: int, e: Blocks.DesignEntry): string
  {
    "[" + IntToString(i + 1) + " | " + IntToString(n) + "] >> " + e.name + ": "
      + IntToString(e.duration) + " seconds"
  }

  /** One line per block, numbered from 1. */
  function BlockLines(buffer: seq<Blocks.DesignEntry>): (ls: seq<string>)
    ensures |ls| == |buffer|
  {
    seq(|buffer|, i requires 0 <= i < |buffer| => BlockLine(i, |buffer|, buffer[i]))
  }

  /** The six header lines. */
  function HeaderLines(posix: string, shortPosix: string, d: Options.Design, total: int)
    : (ls: seq<string>)
    ensures |ls| == 6
  {
    ["# Using design: " + posix,
     "# Short path:   " + shortPosix,
     "# Name:         " + d.name,
     "# Maker:        " + d.maker,
     "# Total length: " + IntToString(total) + " seconds",
     "# Blocks as following:"]
  }

  /** The design `_update_experimentDesign` keeps: unchanged when it comes with a path, and on
      the fallback with its name and maker taken from the line edits. */
  function Resolved(dct: Options.Design, p: Option<PathText>, w: LineEdits): Options.Design
  {
    if ShortPosix(p).None? then
      dct.(name := AOrB(w.nameText, w.namePlaceholder), maker := AOrB(w.makerText, w.makerPlaceholder))
    else dct
  }

  /** The text `_update_experimentDesign` shows, line by line. */
  function DesignText(dct: Options.Design, p: Option<PathText>, w: LineEdits): seq<string>
  {
    var sp := ShortPosix(p);
    var posix := if sp.None? then "Cached" else p.value.posix;
    var shortPosix := if sp.None? then "Cached" else sp.value;
    HeaderLines(posix, shortPosix, Resolved(dct, p, w), Blocks.Total(dct.buffer))
      + BlockLines(dct.buffer)
  }

  /** The text has the six header lines and one line per block, in order; its fifth line
      carries the design's total length and its first line says where the design came from. */
  lemma DesignTextShape(dct: Options.Design, p: Option<PathText>, w: LineEdits)
    ensures var text := DesignText(dct, p, w);
      && |text| == 6 + |dct.buffer|
      && text[4] == "# Total length: " + IntToString(Blocks.Total(dct.buffer)) + " seconds"
      && (ShortPosix(p).None? <==> text[0] == "# Using design: Cached" && text[1] == "# Short path:   Cached")
      && forall i :: 0 <= i < |dct.buffer| ==> text[6 + i] == BlockLine(i, |dct.buffer|, dct.buffer[i])
  {
    var sp := ShortPosix(p);
    var posix := if sp.None? then "Cached" else p.value.posix;
    var shortPosix := if sp.None? then "Cached" else sp.value;
    var header := HeaderLines(posix, shortPosix, Resolved(dct, p, w), Blocks.Total(dct.buffer));
    AppendIndex(header, BlockLines(dct.buffer));
    if sp.Some? {
      ShortPathNotCached(p.value);
      HeaderNamesSource(posix, shortPosix, Resolved(dct, p, w), Blocks.Total(dct.buffer));
    }
  }

  /** The second header line is the fallback's only when the short path is `Cached`. */
  lemma HeaderNamesSource(posix: string, shortPosix: string, d: Options.Design, total: int)
    ensures HeaderLines(posix, shortPosix, d, total)[1] == "# Short path:   Cached" ==> shortPosix == "Cached"
  {
    PrefixCancel("# Short path:   ", shortPosix, "Cached");
  }

  /** A short path has a `/` second, so it is never the text `Cached`. */
  lemma ShortPathNotCached(p: PathText)
    requires ShortPosix(Some(p)).Some?
    ensures ShortPosix(Some(p)).value != "Cached"
  {
    ShortPosixShape(p);
    assert ShortPosix(Some(p)).value[1] == '/';
  }

  /** The numbers on a block line read back as its position, the count and its duration. */
  lemma BlockLineNumbers(i: int, n: int, e: Blocks.DesignEntry)
    ensures ParseInt(IntToString(i + 1)) == Some(i + 1)
    ensures ParseInt(IntToString(e.duration)) == Some(e.duration)
    ensures BlockLine(i, n, e)[0] == '[' && BlockLine(i, n, e)[|BlockLine(i, n, e)| - 8..] == " seconds"
  {
    IntToStringRoundTrip(i + 1);
    IntToStringRoundTrip(e.duration);
  }

  lemma {:induction false} TotalAppend(a: seq<Blocks.DesignEntry>, b: seq<Blocks.DesignEntry>)
    ensures Blocks.Total(a + b) == Blocks.Total(a) + Blocks.Total(b)
  {
    if b == [] {
      assert a + b == a;
    } else {
      TotalAppend(a, b[..|b| - 1]);
      assert (a + b)[..|a + b| - 1] == a + b[..|b| - 1];
      assert Blocks.Total(a + b) == Blocks.Total(a + b[..|b| - 1]) + b[|b| - 1].duration;
    }
  }

  /** The loop of `_update_experimentDesign`: it sums the durations and writes one line per
      block. */
  method RenderBlocks(buffer: seq<Blocks.DesignEntry>) returns (totalLength: int, blockLines: seq<string>)
    ensures totalLength == Blocks.Total(buffer) && blockLines == BlockLines(buffer)
  {
    totalLength := 0;
    blockLines := [];
    ghost var lines := BlockLines(buffer);
    var n := |buffer|;
    var i := 0;
    while i < n
      invariant 0 <= i <= n
      invariant totalLength == Blocks.Total(buffer[..i])
      invariant blockLines == lines[..i]
    {
      assert buffer[..i + 1][..i] == buffer[..i];
      PrefixSnoc(lines, i);
      blockLines := blockLines + [BlockLine(i, n, buffer[i])];
      totalLength := totalLength + buffer[i].duration;
      i := i + 1;
    }
    assert buffer[..n] == buffer;
    assert lines[..n] == lines;
  }

  /** The block-design panel: the running design (`rop.design`) and the text browser's lines. */
  class DesignPanel {
    var design: Options.Design
    var text: seq<string>

    /** The panel starts on the default design, shown through the fallback. */
    constructor (w: LineEdits)
      ensures design == Resolved(Options.Defaults.design, None, w)
      ensures text == DesignText(Options.Defaults.design, None, w)
    {
      design := Options.Defaults.design;
      text := [];
      new;
      UpdateExperimentDesign(Options.Defaults.design, None, w);
    }

    /** `_update_experimentDesign(dct, p)`: the header and the block lines go to the text
        browser and `dct` becomes the running design. */
    method UpdateExperimentDesign(dct: Options.Design, p: Option<PathText>, w: LineEdits)
      modifies this
      ensures design == Resolved(dct, p, w) && text == DesignText(dct, p, w)
    {
      var sp := ShortPosix(p);
      var posix := if sp.None? then "Cached" else p.value.posix;
      var shortPosix := if sp.None? then "Cached" else sp.value;
      var d := dct;
      if sp.None? {
        d := d.(name := AOrB(w.nameText, w.namePlaceholder));
        d := d.(maker := AOrB(w.makerText, w.makerPlaceholder));
      }
      var totalLength, blockLines := RenderBlocks(d.buffer);
      text := HeaderLines(posix, shortPosix, d, totalLength) + blockLines;
      design := d;
    }

    /** The add-block buttons (`Real`, `Fake` and `Hide`): one `[mode, blockLength]` at the end
        of the buffer, then the text is refreshed through the fallback. */
    method AddBlock(mode: string, blockLength: int, w: LineEdits)
      modifies this
      ensures design.buffer == old(design.buffer) + [Blocks.DesignEntry(mode, blockLength)]
      ensures design == Resolved(old(design).(buffer := design.buffer), None, w)
      ensures text == DesignText(old(design).(buffer := design.buffer), None, w)
    {
      var d := design.(buffer := design.buffer + [Blocks.DesignEntry(mode, blockLength)]);
      UpdateExperimentDesign(d, None, w);
    }

    /** The repeat button: the buffer followed by itself. */
    method Repeat(w: LineEdits)
      modifies this
      ensures design.buffer == old(design.buffer) + old(design.buffer)
      ensures design == Resolved(old(design).(buffer := design.buffer), None, w)
      ensures text == DesignText(old(design).(buffer := design.buffer), None, w)
    {
      var d := design.(buffer := design.buffer + design.buffer);
      UpdateExperimentDesign(d, None, w);
    }

    /** The clear button: an empty buffer. */
    method Clear(w: LineEdits)
      modifies this
      ensures design.buffer == []
      ensures design == Resolved(old(design).(buffer := []), None, w)
      ensures text == DesignText(old(design).(buffer := []), None, w)
    {
      UpdateExperimentDesign(design.(buffer := []), None, w);
    }
  }

  /** What the buttons do to the block list and its total length: an added block lengthens the
      session by its duration, a repeat doubles the list and its total, a clear empties both. */
  lemma EditsAndTotals(buffer: seq<Blocks.DesignEntry>, e: Blocks.DesignEntry)
    ensures Blocks.Total(buffer + [e]) == Blocks.Total(buffer) + e.duration
    ensures var twice := buffer + buffer;
      |twice| == 2 * |buffer| && twice[|buffer|..] == twice[..|buffer|] == buffer
      && Blocks.Total(twice) == 2 * Blocks.Total(buffer)
    ensures Blocks.Total([]) == 0
  {
    TotalAppend(buffer, [e]);
    TotalAppend(buffer, buffer);
    assert Blocks.Total([e]) == Blocks.Total([]) + e.duration by {
      assert [e][..0] == [];
    }
  }
}
