/** Writing the request file `/sequence.fasta` from the user's input, and the check
    that the file holds header/sequence pairs.

    A FASTA file is copied line by line, each non-blank line stripped and written
    with a newline. A text block is split at "\n" and its blank lines dropped; a
    line holding a space that is not a header is refused; if the first line is a
    header the lines are written joined by "\n" (no final newline), otherwise each
    line is written under a synthesised header `>sequence_<i>`. */
module Normalize {
  import opened Outcomes
  import opened PyText

  // ---------------------------------------------------------------------------
  // The FASTA file path

  /** The stripped form of each non-blank line, in their order. */
  function Cleaned(lines: seq<string>): (r: seq<string>)
    ensures |r| <= |lines|
    ensures forall i :: 0 <= i < |r| ==> r[i] != ""
  {
    if lines == [] then []
    else if IsBlank(lines[0]) then Cleaned(lines[1..])
    else [Strip(lines[0])] + Cleaned(lines[1..])
  }

  /** Every cleaned line is in stripped form. */
  lemma {:induction false} CleanedStripped(lines: seq<string>)
    ensures forall i :: 0 <= i < |Cleaned(lines)| ==> Strip(Cleaned(lines)[i]) == Cleaned(lines)[i]
  {
    if lines != [] {
      CleanedStripped(lines[1..]);
      StripIdempotent(lines[0]);
    }
  }

  /** Cleaning works line by line: it keeps the order of the lines, drops a blank
      line and replaces any other line by its stripped form. */
  lemma {:induction false} CleanedAppend(a: seq<string>, b: seq<string>)
    ensures Cleaned(a + b) == Cleaned(a) + Cleaned(b)
    ensures |a| == 1 ==> Cleaned(a) == if IsBlank(a[0]) then [] else [Strip(a[0])]
  {
    if a != [] {
      assert (a + b)[0] == a[0];
      assert (a + b)[1..] == a[1..] + b;
      CleanedAppend(a[1..], b);
    } else {
      assert a + b == b;
    }
  }

  /** What the file path writes for a FASTA file with contents `content`. */
  function FileRequest(content: string): string
  {
    Terminated(Cleaned(ReadLines(content)))
  }

  lemma FileStep(lines: seq<string>, i: nat)
    requires i < |lines|
    ensures Terminated(Cleaned(lines[..i + 1])) ==
      Terminated(Cleaned(lines[..i])) + if Strip(lines[i]) != "" then Strip(lines[i]) + "\n" else ""
  {
    assert lines[..i + 1] == lines[..i] + [lines[i]];
    CleanedAppend(lines[..i], [lines[i]]);
    TerminatedAppend(Cleaned(lines[..i]), Cleaned([lines[i]]));
    if Strip(lines[i]) != "" {
      assert Cleaned([lines[i]]) == [Strip(lines[i])];
      assert Terminated([Strip(lines[i])]) == Strip(lines[i]) + "\n" + Terminated([]);
    } else {
      assert Cleaned([lines[i]]) == [];
    }
  }

  /** Copy the FASTA file, one stripped non-blank line at a time. */
  method WriteFromFile(content: string) returns (written: string)
    ensures written == FileRequest(content)
  {
    var lines := ReadLines(content);
    written := "";
    for i := 0 to |lines|
      invariant written == Terminated(Cleaned(lines[..i]))
    {
      FileStep(lines, i);
      if Strip(lines[i]) != "" {
        written := written + (Strip(lines[i]) + "\n");
      }
    }
    assert lines[..|lines|] == lines;
  }

  lemma {:induction false} CleanedAvoids(lines: seq<string>)
    requires forall i :: 0 <= i < |lines| ==> IsReadLine(lines[i]) && '\r' !in lines[i]
    ensures forall i :: 0 <= i < |Cleaned(lines)| ==>
      '\n' !in Cleaned(lines)[i] && '\r' !in Cleaned(lines)[i]
  {
    if lines != [] {
      StripDropsFinal(lines[0], '\n');
      StripAvoids(lines[0], '\r');
      CleanedAvoids(lines[1..]);
    }
  }

  /** The file written from a FASTA file reads back as its cleaned lines, one per
      line: its line count is the number of non-blank lines of the input. */
  lemma FileRequestLines(content: string)
    ensures LineCount(FileRequest(content)) == |Cleaned(ReadLines(content))|
    ensures forall i :: 0 <= i < |Cleaned(ReadLines(content))| ==>
      ReadLines(FileRequest(content))[i] == Cleaned(ReadLines(content))[i] + "\n"
  {
    ReadLinesShape(content);
    CleanedAvoids(ReadLines(content));
    ReadTerminated(Cleaned(ReadLines(content)));
  }

  // ---------------------------------------------------------------------------
  // The text block path

  /** `l.startswith(">")` */
  predicate IsHeader(l: string)
  {
    StartsWith(l, ">")
  }

  /** A line refused because it holds a space and is not a header. */
  predicate SpaceRejected(l: string)
  {
    ' ' in l && !IsHeader(l)
  }

  /** `[x for x in pieces if x.strip() != ""]`: the non-blank pieces, unstripped. */
  function NonBlank(pieces: seq<string>): (r: seq<string>)
    ensures |r| <= |pieces|
    ensures forall x :: x in r <==> x in pieces && !IsBlank(x)
  {
    if pieces == [] then []
    else
      var rest := NonBlank(pieces[1..]);
      if IsBlank(pieces[0]) then rest else [pieces[0]] + rest
  }

  lemma {:induction false} NonBlankOfBlanks(pieces: seq<string>)
    requires forall i :: 0 <= i < |pieces| ==> IsBlank(pieces[i])
    ensures NonBlank(pieces) == []
  {
    if pieces != [] {
      NonBlankOfBlanks(pieces[1..]);
    }
  }

  lemma {:induction false} NonBlankAppend(a: seq<string>, b: seq<string>)
    ensures NonBlank(a + b) == NonBlank(a) + NonBlank(b)
  {
    if a != [] {
      assert (a + b)[0] == a[0];
      assert (a + b)[1..] == a[1..] + b;
      NonBlankAppend(a[1..], b);
    } else {
      assert a + b == b;
    }
  }

  lemma NonBlankStep(pieces: seq<string>, i: nat)
    requires i < |pieces|
    ensures NonBlank(pieces[..i + 1]) == NonBlank(pieces[..i]) + if Strip(pieces[i]) != "" then [pieces[i]] else []
  {
    assert pieces[..i + 1] == pieces[..i] + [pieces[i]];
    NonBlankAppend(pieces[..i], [pieces[i]]);
    assert NonBlank([pieces[i]]) == (if Strip(pieces[i]) != "" then [pieces[i]] else []) by {
      assert [pieces[i]][1..] == [];
    }
  }

  /** The header synthesised for the `i`-th untagged line: `>sequence_`
      followed by the line's index, which reads back from the header. */
  function SequenceHeader(i: nat): (h: string)
    ensures IsHeader(h) && '\n' !in h && '\r' !in h
    ensures |h| > 10 && h[..10] == ">sequence_" && ParseInt(h[10..]) == Some(i as int)
    ensures CanonicalDecimal(h[10..])
  {
    var d := Decimal(i);
    assert forall j :: 0 <= j < |d| ==> IsDigit(d[j]);
    IntRoundTrip(i);
    assert (">sequence_" + d)[10..] == d;
    ">sequence_" + d
  }

  /** The header is exactly `">sequence_" + str(i)`: no other canonical
      decimal after the prefix reads back as `i`. */
  lemma SequenceHeaderExact(i: nat, digits: string)
    requires CanonicalDecimal(digits) && DecimalValue(digits) == i
    ensures SequenceHeader(i) == ">sequence_" + digits
  {
    DecimalUnique(digits, i);
  }

  /** Different lines get different headers. */
  lemma SequenceHeadersDistinct(i: nat, j: nat)
    requires i != j
    ensures SequenceHeader(i) != SequenceHeader(j)
  {
  }

  /** The lines written for untagged input: each line under its numbered header. */
  function NumberedLines(ls: seq<string>): (r: seq<string>)
    ensures |r| == 2 * |ls|
    ensures forall i :: 0 <= i < |ls| ==> r[2 * i] == SequenceHeader(i) && r[2 * i + 1] == ls[i]
  {
    if ls == [] then []
    else NumberedLines(ls[..|ls| - 1]) + [SequenceHeader(|ls| - 1), ls[|ls| - 1]]
  }

  lemma NumberedStep(ls: seq<string>, i: nat)
    requires i < |ls|
    ensures Terminated(NumberedLines(ls[..i + 1])) ==
      Terminated(NumberedLines(ls[..i])) + (SequenceHeader(i) + "\n" + ls[i] + "\n")
  {
    var next := [SequenceHeader(i), ls[i]];
    assert ls[..i + 1][..i] == ls[..i];
    assert NumberedLines(ls[..i + 1]) == NumberedLines(ls[..i]) + next;
    TerminatedAppend(NumberedLines(ls[..i]), next);
    assert Terminated([ls[i]]) == ls[i] + "\n" by {
      assert [ls[i]][1..] == [];
    }
    assert next[1..] == [ls[i]];
    assert Terminated(next) == SequenceHeader(i) + "\n" + (ls[i] + "\n");
    assert SequenceHeader(i) + "\n" + (ls[i] + "\n") == SequenceHeader(i) + "\n" + ls[i] + "\n";
  }

  /** `broken`: the non-blank lines of the text block, unstripped; none holds
      a "\n". */
  function Broken(text: string): (r: seq<string>)
    ensures forall x :: x in r <==> x in Split(text, '\n') && !IsBlank(x)
    ensures forall i :: 0 <= i < |r| ==> r[i] != "" && '\n' !in r[i]
  {
    NonBlankAvoids(Split(text, '\n'), '\n');
    NonBlank(Split(text, '\n'))
  }

  /** Some line is refused for holding a space. */
  predicate AnySpaceRejected(ls: seq<string>)
  {
    exists i :: 0 <= i < |ls| && SpaceRejected(ls[i])
  }

  /** What the text path writes for the text block `text`, or why it refuses it. */
  function TextRequest(text: string): (r: Result<string, Failure>)
    ensures r.Failure? ==> r.error == SpacesInSequence || r.error == NoSequenceLines
  {
    var broken := Broken(text);
    if AnySpaceRejected(broken) then Failure(SpacesInSequence)
    else if broken == [] then Failure(NoSequenceLines)
    else if IsHeader(broken[0]) then Success(Join(broken, "\n"))
    else Success(Terminated(NumberedLines(broken)))
  }

  /** The list comprehension that builds `broken`: keep the non-blank lines. */
  method KeepNonBlank(pieces: seq<string>) returns (broken: seq<string>)
    ensures broken == NonBlank(pieces)
  {
    broken := [];
    for i := 0 to |pieces|
      invariant broken == NonBlank(pieces[..i])
    {
      NonBlankStep(pieces, i);
      if Strip(pieces[i]) != "" {
        broken := broken + [pieces[i]];
      }
    }
    assert pieces[..|pieces|] == pieces;
  }

  /** Look for a line to refuse for holding a space. */
  method FindSpaceRejected(broken: seq<string>) returns (found: bool)
    ensures found == AnySpaceRejected(broken)
  {
    for i := 0 to |broken|
      invariant forall j :: 0 <= j < i ==> !SpaceRejected(broken[j])
    {
      if SpaceRejected(broken[i]) {
        return true;
      }
    }
    return false;
  }

  /** Write each line under its numbered header. */
  method WriteNumbered(broken: seq<string>) returns (written: string)
    ensures written == Terminated(NumberedLines(broken))
  {
    written := "";
    for i := 0 to |broken|
      invariant written == Terminated(NumberedLines(broken[..i]))
    {
      NumberedStep(broken, i);
      written := written + (SequenceHeader(i) + "\n" + broken[i] + "\n");
    }
    assert broken[..|broken|] == broken;
  }

  /** Split the text block, drop its blank lines, refuse spaces in
      sequence lines, then write the lines as they are or under numbered headers. */
  method WriteFromText(text: string) returns (r: Result<string, Failure>)
    ensures r == TextRequest(text)
  {
    var broken := KeepNonBlank(Split(text, '\n'));
    var refused := FindSpaceRejected(broken);
    if refused {
      return Failure(SpacesInSequence);
    }
    if |broken| == 0 {
      return Failure(NoSequenceLines);
    }
    if IsHeader(broken[0]) {
      return Success(Join(broken, "\n"));
    }
    var written := WriteNumbered(broken);
    r := Success(written);
  }

  /** A text block is refused for spaces exactly when one of its non-blank lines
      holds a space and is not a header. */
  lemma TextSpacesRefused(text: string)
    ensures TextRequest(text) == Failure(SpacesInSequence) <==>
      exists l :: l in Split(text, '\n') && !IsBlank(l) && SpaceRejected(l)
  {
    var broken := Broken(text);
    if AnySpaceRejected(broken) {
      var i :| 0 <= i < |broken| && SpaceRejected(broken[i]);
      assert broken[i] in broken;
    }
    if exists l :: l in Split(text, '\n') && !IsBlank(l) && SpaceRejected(l) {
      var l :| l in Split(text, '\n') && !IsBlank(l) && SpaceRejected(l);
      assert l in broken;
      var i :| 0 <= i < |broken| && broken[i] == l;
    }
  }

  lemma {:induction false} BlankJoin(xs: seq<string>)
    ensures IsBlank(Join(xs, "\n")) <==> forall i :: 0 <= i < |xs| ==> IsBlank(xs[i])
  {
    if |xs| > 1 {
      BlankJoin(xs[1..]);
      var j := Join(xs[1..], "\n");
      var s := xs[0] + "\n" + j;
      assert forall i :: 0 <= i < |xs[0]| ==> s[i] == xs[0][i];
      assert forall i :: 0 <= i < |j| ==> s[|xs[0]| + 1 + i] == j[i];
      assert forall i :: 1 <= i < |xs| ==> xs[i] == xs[1..][i - 1];
    }
  }

  /** A blank text block ends at `broken[0]` with an IndexError, and only a blank
      one does. */
  lemma TextBlankFails(text: string)
    ensures TextRequest(text) == Failure(NoSequenceLines) <==> IsBlank(text)
  {
    var pieces := Split(text, '\n');
    var broken := Broken(text);
    JoinSplit(text, '\n');
    BlankJoin(pieces);
    if IsBlank(text) {
      NonBlankOfBlanks(pieces);
      assert broken == [];
      assert !AnySpaceRejected(broken);
    } else {
      var i :| 0 <= i < |pieces| && !IsBlank(pieces[i]);
      assert pieces[i] in broken;
      assert broken != [];
    }
  }

  lemma {:induction false} SplitAvoids(s: string, sep: char, c: char)
    requires c !in s
    ensures forall i :: 0 <= i < |Split(s, sep)| ==> c !in Split(s, sep)[i]
  {
    if s != [] {
      SplitAvoids(s[1..], sep, c);
    }
  }

  lemma {:induction false} NonBlankAvoids(pieces: seq<string>, c: char)
    requires forall i :: 0 <= i < |pieces| ==> c !in pieces[i]
    ensures forall i :: 0 <= i < |NonBlank(pieces)| ==> c !in NonBlank(pieces)[i] && NonBlank(pieces)[i] != ""
  {
    if pieces != [] {
      NonBlankAvoids(pieces[1..], c);
    }
  }

  /** The lines of a text block are not empty and hold no "\n"; they hold no
      "\r" when the block holds none. */
  lemma BrokenShape(text: string)
    ensures forall i :: 0 <= i < |Broken(text)| ==> Broken(text)[i] != "" && '\n' !in Broken(text)[i]
    ensures '\r' !in text ==> forall i :: 0 <= i < |Broken(text)| ==> '\r' !in Broken(text)[i]
  {
    NonBlankAvoids(Split(text, '\n'), '\n');
    if '\r' !in text {
      SplitAvoids(text, '\n', '\r');
      NonBlankAvoids(Split(text, '\n'), '\r');
    }
  }

  /** Without carriage returns in the text, a header-tagged block is written as
      as many lines as it has non-blank lines. */
  lemma TaggedTextLines(text: string)
    requires '\r' !in text
    requires TextRequest(text).Success?
    requires IsHeader(Broken(text)[0])
    ensures LineCount(TextRequest(text).value) == |Broken(text)|
  {
    var broken := Broken(text);
    assert TextRequest(text).value == Join(broken, "\n");
    BrokenShape(text);
    ReadJoined(broken);
  }

  /** A header-tagged block is written as its non-blank lines, unchanged and in
      their order, joined by "\n": splitting the request at "\n" gives them
      back, and the request does not end with a newline. */
  lemma TaggedTextJoined(text: string)
    requires TextRequest(text).Success?
    requires IsHeader(Broken(text)[0])
    ensures Split(TextRequest(text).value, '\n') == Broken(text)
    ensures forall i :: 0 <= i < |Broken(text)| ==> Broken(text)[i] in Split(text, '\n')
    ensures TextRequest(text).value != [] && TextRequest(text).value[|TextRequest(text).value| - 1] != '\n'
  {
    var broken := Broken(text);
    var written := TextRequest(text).value;
    assert written == Join(broken, "\n");
    BrokenShape(text);
    SplitJoin(broken, '\n');
    JoinEndsWithLast(broken, "\n");
    var last := broken[|broken| - 1];
    assert written[|written| - 1] == last[|last| - 1];
    forall i | 0 <= i < |broken| ensures broken[i] in Split(text, '\n') {
      assert broken[i] in broken;
    }
  }

  /** Without carriage returns in the text, an untagged block of n non-blank lines
      is written as 2n lines that read back as header, line, header, line, ... */
  lemma UntaggedTextLines(text: string)
    requires '\r' !in text
    requires TextRequest(text).Success?
    requires !IsHeader(Broken(text)[0])
    ensures LineCount(TextRequest(text).value) == 2 * |Broken(text)|
    ensures forall i :: 0 <= i < |Broken(text)| ==>
      && ReadLines(TextRequest(text).value)[2 * i] == SequenceHeader(i) + "\n"
      && ReadLines(TextRequest(text).value)[2 * i + 1] == Broken(text)[i] + "\n"
  {
    assert TextRequest(text).value == Terminated(NumberedLines(Broken(text)));
    BrokenShape(text);
    ReadNumbered(Broken(text));
  }

  /** Numbered lines read back as header, line, header, line, ... */
  lemma ReadNumbered(ls: seq<string>)
    requires forall i :: 0 <= i < |ls| ==> '\n' !in ls[i] && '\r' !in ls[i]
    ensures |ReadLines(Terminated(NumberedLines(ls)))| == 2 * |ls|
    ensures forall i :: 0 <= i < |ls| ==>
      && ReadLines(Terminated(NumberedLines(ls)))[2 * i] == SequenceHeader(i) + "\n"
      && ReadLines(Terminated(NumberedLines(ls)))[2 * i + 1] == ls[i] + "\n"
  {
    var numbered := NumberedLines(ls);
    NumberedAvoids(ls);
    ReadTerminated(numbered);
    var read := ReadLines(Terminated(numbered));
    forall i | 0 <= i < |ls|
      ensures read[2 * i] == SequenceHeader(i) + "\n" && read[2 * i + 1] == ls[i] + "\n"
    {
      assert read[2 * i] == numbered[2 * i] + "\n";
      assert read[2 * i + 1] == numbered[2 * i + 1] + "\n";
      assert numbered[2 * i] == SequenceHeader(i);
      assert numbered[2 * i + 1] == ls[i];
    }
  }

  lemma NumberedAvoids(ls: seq<string>)
    requires forall i :: 0 <= i < |ls| ==> '\n' !in ls[i] && '\r' !in ls[i]
    ensures forall k :: 0 <= k < |NumberedLines(ls)| ==>
      '\n' !in NumberedLines(ls)[k] && '\r' !in NumberedLines(ls)[k]
  {
    var numbered := NumberedLines(ls);
    forall k | 0 <= k < |numbered| ensures '\n' !in numbered[k] && '\r' !in numbered[k] {
      var i := k / 2;
      assert numbered[2 * i] == SequenceHeader(i) && numbered[2 * i + 1] == ls[i];
      assert k == 2 * i || k == 2 * i + 1;
    }
  }

  // ---------------------------------------------------------------------------
  // Choosing the path, and the line-count check

  /** What is written to the request file, or why nothing valid is: a FASTA file
      takes precedence over a text block, and it is an error to give neither. */
  function Request(fastaFile: Option<string>, aaSequence: Option<string>): (r: Result<string, Failure>)
    ensures fastaFile.Some? ==> r.Success?
    ensures r.Failure? ==> IsInputFailure(r.error)
  {
    if fastaFile.Some? then Success(FileRequest(fastaFile.value))
    else if aaSequence.None? then Failure(NoInputProvided)
    else TextRequest(aaSequence.value)
  }

  /** Write the request file from the FASTA file when one is given, else from
      the text block; with neither, refuse. */
  method WriteRequest(fastaFile: Option<string>, aaSequence: Option<string>)
    returns (r: Result<string, Failure>)
    ensures r == Request(fastaFile, aaSequence)
  {
    if fastaFile.Some? {
      var written := WriteFromFile(fastaFile.value);
      return Success(written);
    }
    if aaSequence.None? {
      return Failure(NoInputProvided);
    }
    r := WriteFromText(aaSequence.value);
  }

  /** The request file must have a positive, even number of lines. */
  function CheckRequest(request: string): (r: Result<nat, Failure>)
    ensures r.Success? <==> LineCount(request) > 0 && LineCount(request) % 2 == 0
    ensures r.Success? ==> r.value == LineCount(request)
    ensures r == Failure(EmptyInput) <==> LineCount(request) == 0
    ensures r == Failure(UnpairedLine) <==> LineCount(request) % 2 == 1
  {
    var n := LineCount(request);
    if n == 0 then Failure(EmptyInput)
    else if n % 2 != 0 then Failure(UnpairedLine)
    else Success(n)
  }

  /** A FASTA file is accepted exactly when it has a positive, even number of
      non-blank lines; a file of blank lines is rejected as empty. */
  lemma FileAccepted(content: string)
    ensures CheckRequest(FileRequest(content)).Success? <==>
      |Cleaned(ReadLines(content))| > 0 && |Cleaned(ReadLines(content))| % 2 == 0
    ensures CheckRequest(FileRequest(content)) == Failure(EmptyInput) <==>
      Cleaned(ReadLines(content)) == []
  {
    FileRequestLines(content);
  }

  /** A request of n > 0 header/sequence pairs passes the line-count check. */
  lemma PairsAccepted(request: string, n: nat)
    requires n > 0 && LineCount(request) == 2 * n
    ensures CheckRequest(request) == Success(2 * n)
  {
    assert (2 * n) % 2 == 0;
  }

  /** Untagged text without carriage returns always passes the line-count check. */
  lemma UntaggedTextAccepted(text: string)
    requires '\r' !in text
    requires TextRequest(text).Success?
    requires !IsHeader(Broken(text)[0])
    ensures CheckRequest(TextRequest(text).value) == Success(2 * |Broken(text)|)
  {
    var broken := Broken(text);
    var written := TextRequest(text).value;
    assert written == Terminated(NumberedLines(broken));
    BrokenShape(text);
    ReadNumbered(broken);
    PairsAccepted(written, |broken|);
  }

  /** A lone "\r" in a text block is a line break only once the file is read
      back: an untagged one-line block `a + "\r" + b`, such as "AB\rCD", is
      written as a header and one line, but reads back as three lines and
      fails the line-count check. */
  lemma LoneCarriageReturnSplits(a: string, b: string)
    requires a != [] && b != [] && !IsBlank(a) && !IsHeader(a)
    requires '\n' !in a + b && '\r' !in a + b && ' ' !in a + b
    ensures TextRequest(a + "\r" + b).Success?
    ensures CheckRequest(TextRequest(a + "\r" + b).value) == Failure(UnpairedLine)
  {
    var h := SequenceHeader(0);
    var written := h + "\n" + (a + "\r" + b + "\n");
    LoneCarriageReturnWritten(a, b);
    LoneCarriageReturnReadBack(h, a, b);
    assert LineCount(written) % 2 == 1;
  }

  lemma LoneCarriageReturnWritten(a: string, b: string)
    requires a != [] && b != [] && !IsBlank(a) && !IsHeader(a)
    requires '\n' !in a + b && ' ' !in a + b
    ensures TextRequest(a + "\r" + b) == Success(SequenceHeader(0) + "\n" + (a + "\r" + b + "\n"))
  {
    var text := a + "\r" + b;
    assert '\n' !in text by {
      forall i | 0 <= i < |text| ensures text[i] != '\n' {
        if i < |a| { assert text[i] == (a + b)[i]; }
        else if i > |a| { assert text[i] == (a + b)[i - 1]; }
      }
    }
    assert ' ' !in text by {
      forall i | 0 <= i < |text| ensures text[i] != ' ' {
        if i < |a| { assert text[i] == (a + b)[i]; }
        else if i > |a| { assert text[i] == (a + b)[i - 1]; }
      }
    }
    SplitPrefix(text, "", '\n');
    assert text + "" == text;
    assert Split(text, '\n') == [text];
    assert !IsBlank(text) by {
      var k :| 0 <= k < |a| && !IsSpace(a[k]);
      assert text[k] == a[k];
    }
    assert [text][1..] == [];
    assert NonBlank([text]) == [text];
    assert !IsHeader(text) by { assert text[0] == a[0]; }
    assert !AnySpaceRejected([text]);
    var numbered := [SequenceHeader(0), text];
    assert NumberedLines([text]) == numbered;
    assert numbered[1..] == [text] && [text][1..] == [];
    assert Terminated([text]) == text + "\n" + Terminated([]) == text + "\n";
    assert Terminated(numbered) == SequenceHeader(0) + "\n" + Terminated([text]);
  }

  lemma LoneCarriageReturnReadBack(h: string, a: string, b: string)
    requires '\n' !in h && '\r' !in h && '\n' !in a + b && '\r' !in a + b && b != []
    ensures LineCount(h + "\n" + (a + "\r" + b + "\n")) == 3
  {
    assert '\n' !in a && '\r' !in a by { assert forall i :: 0 <= i < |a| ==> a[i] == (a + b)[i]; }
    assert '\n' !in b && '\r' !in b by { assert forall i :: 0 <= i < |b| ==> b[i] == (a + b)[|a| + i]; }
    var tail := "\r" + (b + "\n");
    var written := (h + "\n") + (a + tail);
    assert h + "\n" + (a + "\r" + b + "\n") == written;
    TranslateClean(h + "\n", a + tail);
    TranslateClean(a, tail);
    assert tail[1..] == b + "\n" && tail[1] == b[0] != '\n';
    assert Translate(tail) == "\n" + (b + "\n");
    var last := b + "\n" + "";
    var middle := a + "\n" + last;
    assert Translate(a + tail) == middle;
    assert Translate(written) == h + "\n" + middle;
    LinesOfCons(h, middle);
    LinesOfCons(a, last);
    LinesOfCons(b, "");
    assert |LinesOf(last)| == 1;
    assert |LinesOf(middle)| == 2;
  }

  /** Header-tagged text without carriage returns passes the line-count check
      exactly when it has an even number of non-blank lines. */
  lemma TaggedTextAccepted(text: string)
    requires '\r' !in text
    requires TextRequest(text).Success?
    requires IsHeader(Broken(text)[0])
    ensures CheckRequest(TextRequest(text).value).Success? <==> |Broken(text)| % 2 == 0
  {
    TaggedTextLines(text);
  }
}
