/**
  The range file the scanner writes after a fetch and reads before a scan:
  save_ip_ranges writes the descriptors joined by newlines, load_ip_ranges
  reads the file back line by line, stripping each line and dropping the
  blank ones. The file is an Option<string>: None when it is missing or
  cannot be read.
 */
module RangeFile {
  import opened Optional
  import opened Text

  /** The characters text-mode reading treats as line ends (universal newlines). */
  const LineBreaks: set<char> := {'\n', '\r'}

  /** An entry that survives a save and a load unchanged. */
  predicate Clean(entry: string)
  {
    entry != [] && IsStripped(entry) && NoneOf(entry, LineBreaks)
  }

  /** Each line stripped, in order. */
  function StripEach(lines: seq<string>): (r: seq<string>)
    ensures |r| == |lines|
    ensures forall i :: 0 <= i < |lines| ==> r[i] == Strip(lines[i])
  {
    seq(|lines|, i requires 0 <= i < |lines| => Strip(lines[i]))
  }

  /** The non-empty entries, in order. */
  function NonBlank(xs: seq<string>): (r: seq<string>)
    ensures |r| <= |xs|
    ensures forall i :: 0 <= i < |r| ==> r[i] != [] && r[i] in xs
    decreases |xs|
  {
    if xs == [] then []
    else if xs[0] == [] then NonBlank(xs[1..])
    else [xs[0]] + NonBlank(xs[1..])
  }

  /** Each line stripped, blank lines dropped, order kept. */
  function StripNonBlank(lines: seq<string>): (r: seq<string>)
    ensures |r| <= |lines|
  {
    NonBlank(StripEach(lines))
  }

  /** Every non-empty entry survives the filter. */
  lemma {:induction false} NonBlankMembers(xs: seq<string>, x: string)
    ensures x in NonBlank(xs) <==> x != [] && x in xs
    decreases |xs|
  {
    if xs != [] {
      NonBlankMembers(xs[1..], x);
      assert xs == [xs[0]] + xs[1..];
    }
  }

  /** The filter keeps entries that are all non-empty as they are. */
  lemma {:induction false} NonBlankKeeps(xs: seq<string>)
    requires forall i :: 0 <= i < |xs| ==> xs[i] != []
    ensures NonBlank(xs) == xs
    decreases |xs|
  {
    if xs != [] {
      NonBlankKeeps(xs[1..]);
      assert xs == [xs[0]] + xs[1..];
    }
  }

  /** The filter distributes over a split of its input. */
  lemma {:induction false} NonBlankAppend(a: seq<string>, b: seq<string>)
    ensures NonBlank(a + b) == NonBlank(a) + NonBlank(b)
    decreases |a|
  {
    if a == [] {
      assert a + b == b;
    } else {
      assert (a + b)[1..] == a[1..] + b;
      NonBlankAppend(a[1..], b);
    }
  }

  /** Lines free of line breaks come out clean. */
  lemma StripNonBlankNoBreaks(lines: seq<string>)
    requires forall i :: 0 <= i < |lines| ==> NoneOf(lines[i], LineBreaks)
    ensures forall i :: 0 <= i < |StripNonBlank(lines)| ==> Clean(StripNonBlank(lines)[i])
  {
  }

  /** An entry comes out exactly when it is the non-blank strip of some line. */
  lemma StripNonBlankMembers(lines: seq<string>, x: string)
    ensures x in StripNonBlank(lines) <==> x != [] && exists j :: 0 <= j < |lines| && x == Strip(lines[j])
  {
    var xs := StripEach(lines);
    NonBlankMembers(xs, x);
    if x in xs {
      var j :| 0 <= j < |xs| && xs[j] == x;
      assert x == Strip(lines[j]);
    }
    if exists j :: 0 <= j < |lines| && x == Strip(lines[j]) {
      var j :| 0 <= j < |lines| && x == Strip(lines[j]);
      assert xs[j] == x;
    }
  }

  /** Stripping and dropping blanks leaves clean entries as they are. */
  lemma StripNonBlankClean(lines: seq<string>)
    requires forall i :: 0 <= i < |lines| ==> Clean(lines[i])
    ensures StripNonBlank(lines) == lines
  {
    forall i | 0 <= i < |lines|
      ensures Strip(lines[i]) == lines[i]
    {
      StripStripped(lines[i]);
    }
    assert StripEach(lines) == lines;
    NonBlankKeeps(lines);
  }

  /** The entries load_ip_ranges reads from a file's text. */
  function ReadRanges(text: string): (r: seq<string>)
    ensures forall i :: 0 <= i < |r| ==> Clean(r[i])
  {
    var lines := Split(text, LineBreaks);
    StripNonBlankNoBreaks(lines);
    StripNonBlank(lines)
  }

  /** The text save_ip_ranges writes: the entries joined by newlines. */
  function WriteRanges(ranges: seq<string>): (text: string)
    ensures ranges == [] ==> text == ""
    ensures ranges != [] && (forall i :: 0 <= i < |ranges| ==> NoneOf(ranges[i], LineBreaks)) ==>
              Split(text, LineBreaks) == ranges
    ensures ranges != [] && (forall i :: 0 <= i < |ranges| ==> NoneOf(ranges[i], {'\n'})) ==>
              Split(text, {'\n'}) == ranges
  {
    if ranges != [] then
      (NewlineJoin(ranges); Join(ranges, "\n"))
    else
      Join(ranges, "\n")
  }

  /**
    Entries joined by '\n' split back on that character, and on every line
    break, when they hold none.
   */
  lemma NewlineJoin(ranges: seq<string>)
    requires ranges != []
    ensures (forall i :: 0 <= i < |ranges| ==> NoneOf(ranges[i], LineBreaks)) ==>
              Split(Join(ranges, "\n"), LineBreaks) == ranges
    ensures (forall i :: 0 <= i < |ranges| ==> NoneOf(ranges[i], {'\n'})) ==>
              Split(Join(ranges, "\n"), {'\n'}) == ranges
  {
    if forall i :: 0 <= i < |ranges| ==> NoneOf(ranges[i], LineBreaks) {
      SplitJoin(ranges, '\n', LineBreaks);
    }
    if forall i :: 0 <= i < |ranges| ==> NoneOf(ranges[i], {'\n'}) {
      SplitJoin(ranges, '\n', {'\n'});
    }
  }

  /** Reading back written entries strips each one and drops the blank ones, in order. */
  lemma ReadWrite(ranges: seq<string>)
    requires forall i :: 0 <= i < |ranges| ==> NoneOf(ranges[i], LineBreaks)
    ensures ReadRanges(WriteRanges(ranges)) == StripNonBlank(ranges)
  {
    var text := WriteRanges(ranges);
    if ranges == [] {
      assert text == "" && Split(text, LineBreaks) == [""];
      assert StripEach([""]) == [""] by {
        assert Strip("") == "";
      }
      assert NonBlank([""]) == [] by {
        assert [""][1..] == [];
      }
    } else {
      assert Split(text, LineBreaks) == ranges;
    }
  }

  /** Clean entries survive a write and a read exactly. */
  lemma ReadWriteClean(ranges: seq<string>)
    requires forall i :: 0 <= i < |ranges| ==> Clean(ranges[i])
    ensures ReadRanges(WriteRanges(ranges)) == ranges
  {
    ReadWrite(ranges);
    StripNonBlankClean(ranges);
  }

  /** Reading is a fixed point after one write-read cycle. */
  lemma ReadIdempotent(text: string)
    ensures ReadRanges(WriteRanges(ReadRanges(text))) == ReadRanges(text)
  {
    ReadWriteClean(ReadRanges(text));
  }

  /** What save_ip_ranges reports and the file it leaves behind. */
  datatype SaveOutcome = SaveOutcome(saved: bool, file: Option<string>)

  /** save_ip_ranges: an empty list writes nothing and reports failure; otherwise the file is replaced. */
  function SaveIpRanges(file: Option<string>, ranges: seq<string>): (r: SaveOutcome)
    ensures r.saved <==> ranges != []
    ensures !r.saved ==> r.file == file
    ensures r.saved ==> r.file == Some(WriteRanges(ranges))
  {
    if ranges == [] then SaveOutcome(false, file)
    else SaveOutcome(true, Some(WriteRanges(ranges)))
  }

  /**
    load_ip_ranges: None when the file is missing or unreadable, otherwise its stripped
    non-blank lines in order.
   */
  function LoadIpRanges(file: Option<string>): (r: Option<seq<string>>)
    ensures r.None? <==> file.None?
    ensures r.Some? ==> forall i :: 0 <= i < |r.value| ==> Clean(r.value[i])
  {
    match file
    case None => None
    case Some(text) => Some(ReadRanges(text))
  }

  /**
    Saving clean entries and loading them back gives the same entries; saving
    nothing leaves whatever file was there, so a later load reads the old one.
   */
  lemma SaveThenLoad(file: Option<string>, ranges: seq<string>)
    requires forall i :: 0 <= i < |ranges| ==> Clean(ranges[i])
    ensures ranges != [] ==> LoadIpRanges(SaveIpRanges(file, ranges).file) == Some(ranges)
    ensures ranges == [] ==> LoadIpRanges(SaveIpRanges(file, ranges).file) == LoadIpRanges(file)
  {
    ReadWriteClean(ranges);
  }
}
