/** The porcelain parser of `git_aiblame/blame.py`.

    `parse_blame_output` walks `output` by index.  Its body is written for
    whole porcelain lines, but on a Python `str` each `output[i]` is a single
    character; the model takes the input as a sequence of ELEMENTS, which
    covers both readings (a list of lines, or a string whose elements all
    have length 1).

    The specification is a one-element-at-a-time state machine, `Step`,
    folded over the input by `Scan`; it has two modes, awaiting a header or
    content line, and inside a header's metadata.  `ParseBlameOutput` keeps
    the source's nested loops and is proved to compute `Parse`.  The
    `IndexError` raised by `line.split()[0]` on a blank element is the
    `None` result. */
module Blame {
  import opened Wrappers
  import opened Text

  /** One attributed line of the file (the `BlameLine` dataclass). */
  datatype BlameLine = BlameLine(lineNumber: int, commitHash: string, author: string, content: string)

  /** `line.startswith("\t")`: a content line. */
  predicate IsContentLine(e: string) {
    StartsWith(e, "\t")
  }

  /** `next_line.startswith("author ")`: an author line inside a header. */
  predicate IsAuthorLine(e: string) {
    StartsWith(e, "author ")
  }

  /** `line.startswith(("author ", "author-time ", "author-mail "))`:
      the fields skipped at the top of the outer loop. */
  predicate IsAuthorField(e: string) {
    StartsWith(e, "author ") || StartsWith(e, "author-time ") || StartsWith(e, "author-mail ")
  }

  /** `line[1:].rstrip("\n")` */
  function ContentOf(e: string): string
    requires IsContentLine(e)
  {
    RStripNewlines(e[1..])
  }

  /** `next_line[7:].rstrip("\n")` */
  function AuthorOf(e: string): string
    requires IsAuthorLine(e)
  {
    RStripNewlines(e[7..])
  }

  /** The outcome of `line[:40].isalnum() or len(line.split()[0]) == 40`. */
  datatype HeaderTest = Header(hash: string) | Blank | NotHeader

  /** The header test of the outer loop.  Python's `or` evaluates the split
      only when the alphanumeric test fails, so the split raises exactly on
      the blank elements; a recognised header's hash is its first token. */
  function TestHeader(e: string): HeaderTest {
    if IsAlnum(Prefix(e, 40)) then
      AlnumStartToken(e);
      Header(FirstToken(e))
    else if IsBlank(e) then Blank
    else if |FirstToken(e)| == 40 then Header(FirstToken(e))
    else NotHeader
  }

  /** The header test raises exactly on blank elements, and accepts exactly
      the elements whose first 40 characters are alphanumeric or whose first
      token is 40 characters long; the hash is that first token. */
  lemma TestHeaderSpec(e: string)
    ensures TestHeader(e).Blank? <==> IsBlank(e)
    ensures TestHeader(e).Header? ==> !IsBlank(e) && TestHeader(e).hash == FirstToken(e)
    ensures TestHeader(e).Header? <==> !IsBlank(e) && (IsAlnum(Prefix(e, 40)) || |FirstToken(e)| == 40)
  {
    if IsAlnum(Prefix(e, 40)) {
      AlnumStartToken(e);
    }
  }

  /** How the parser reads one element, following the order of its tests:
      the author prefixes first, then the tab, then the header test. */
  datatype Kind =
    | AuthorName(name: string)   // "author ": skipped at the top, sets the author in a header
    | AuthorDetail               // "author-time ", "author-mail ": always skipped
    | Content(text: string)      // "\t": a content line
    | HeaderLine(hash: string)   // passes the header test
    | BlankLine                  // reaches the header test with an empty split
    | Other                      // anything else

  function Classify(e: string): Kind {
    if IsAuthorLine(e) then AuthorName(AuthorOf(e))
    else if IsAuthorField(e) then AuthorDetail
    else if IsContentLine(e) then Content(ContentOf(e))
    else
      match TestHeader(e)
      case Header(h) => HeaderLine(h)
      case Blank => BlankLine
      case NotHeader => Other
  }

  /** Each kind in terms of the source's tests: the author prefixes exclude
      the tab and the header test, and a header's hash is its first token. */
  lemma ClassifySpec(e: string)
    ensures var k := Classify(e);
            && (k.AuthorName? <==> IsAuthorLine(e))
            && (k.AuthorName? ==> k.name == AuthorOf(e))
            && (k.AuthorDetail? <==> IsAuthorField(e) && !IsAuthorLine(e))
            && (k.Content? <==> IsContentLine(e))
            && (k.Content? ==> k.text == ContentOf(e))
            && (k.BlankLine? <==> IsBlank(e) && !IsContentLine(e))
            && (k.HeaderLine? <==> !IsAuthorField(e) && !IsContentLine(e) && TestHeader(e).Header?)
            && (k.HeaderLine? ==> !IsBlank(e) && k.hash == FirstToken(e))
            && (k.Other? <==> !IsAuthorField(e) && !IsContentLine(e) && TestHeader(e).NotHeader?)
  {
    if IsAuthorField(e) {
      assert e[0] == 'a';
    }
    TestHeaderSpec(e);
  }

  /** Where the scan is: at the top of the outer loop, or inside the inner
      loop that swallows a header's metadata. */
  datatype Mode = AwaitingHeaderOrContent | InMetadata

  /** The loop variables of `parse_blame_output`, plus the mode. */
  datatype ScanState = ScanState(mode: Mode, lines: seq<BlameLine>, lineNumber: int,
                                 commitHash: string, author: string)

  /** `lines = []`, `line_number = 1`, `commit_hash = ""`, `author = ""`. */
  const Start := ScanState(AwaitingHeaderOrContent, [], 1, "", "")

  /** A content line appends a record carrying the current state and leaves
      the metadata scan. */
  function Emit(st: ScanState, text: string): ScanState {
    ScanState(AwaitingHeaderOrContent,
              st.lines + [BlameLine(st.lineNumber, st.commitHash, st.author, text)],
              st.lineNumber + 1, st.commitHash, st.author)
  }

  /** One element.  At the top: author fields are skipped, a content line is
      emitted, a header sets the hash and enters the metadata scan, a blank
      element raises, anything else is skipped.  In the metadata: an author
      line sets the author, a content line ends the scan and is then emitted
      by the outer loop, anything else (a second header too) is skipped. */
  function Step(st: ScanState, k: Kind): (r: Option<ScanState>)
    ensures r.None? <==> st.mode == AwaitingHeaderOrContent && k.BlankLine?
    ensures r.Some? ==> st.lines <= r.value.lines
  {
    match st.mode
    case AwaitingHeaderOrContent => (
      match k
      case Content(text) => Some(Emit(st, text))
      case HeaderLine(h) => Some(st.(mode := InMetadata, commitHash := h))
      case BlankLine => None
      case _ => Some(st))
    case InMetadata => (
      match k
      case Content(text) => Some(Emit(st, text))
      case AuthorName(a) => Some(st.(author := a))
      case _ => Some(st))
  }

  /** One pass of the outer loop's body, in the source's order of tests:
      author fields, the tab, then the header test.  In the metadata scan the
      outer loop only ever sees the content line that ended it. */
  lemma OuterStep(st: ScanState, e: string)
    requires st.mode == InMetadata ==> IsContentLine(e)
    ensures IsAuthorField(e) ==> !IsContentLine(e)
    ensures Step(st, Classify(e)) ==
            if IsAuthorField(e) then Some(st)
            else if IsContentLine(e) then Some(Emit(st, RStripNewlines(e[1..])))
            else match TestHeader(e)
                 case Header(h) => Some(st.(mode := InMetadata, commitHash := h))
                 case Blank => None
                 case NotHeader => Some(st)
  {
    ClassifySpec(e);
  }

  /** One pass of the inner loop's body, in the source's terms. */
  lemma MetadataStep(st: ScanState, e: string)
    requires st.mode == InMetadata
    ensures Step(st, Classify(e)) ==
            if IsAuthorLine(e) then Some(st.(author := RStripNewlines(e[7..])))
            else if IsContentLine(e) then Some(Emit(st, RStripNewlines(e[1..])))
            else Some(st)
  {
    ClassifySpec(e);
  }

  /** The kind of every element, in order. */
  function Kinds(xs: seq<string>): (ks: seq<Kind>)
    ensures |ks| == |xs|
    decreases |xs|
  {
    if xs == [] then [] else Kinds(xs[..|xs| - 1]) + [Classify(xs[|xs| - 1])]
  }

  /** The state machine run over a sequence of element kinds; `None` once an
      element has raised. */
  function Scan(st: ScanState, ks: seq<Kind>): Option<ScanState>
    decreases |ks|
  {
    if ks == [] then Some(st)
    else
      match Scan(st, ks[..|ks| - 1])
      case None => None
      case Some(s) => Step(s, ks[|ks| - 1])
  }

  /** What `parse_blame_output(output)` returns, `None` standing for the
      `IndexError` it raises. */
  function Parse(output: seq<string>): (r: Option<seq<BlameLine>>)
    ensures output == [] ==> r == Some([])
  {
    match Scan(Start, Kinds(output))
    case None => None
    case Some(s) => Some(s.lines)
  }

  /** `parse_blame_output`, with the source's outer loop over `i`, its inner
      metadata loop, and the `continue`/`break` structure.  The `detector`
      argument is never used by the source and is dropped. */
  method ParseBlameOutput(output: seq<string>) returns (r: Option<seq<BlameLine>>)
    ensures r == Parse(output)
  {
    ghost var ks := Kinds(output);
    var lines: seq<BlameLine> := [];
    var lineNumber := 1;
    var commitHash := "";
    var author := "";
    var i := 0;
    ghost var mode := AwaitingHeaderOrContent;

    while i < |output|
      invariant i <= |output|
      invariant Scan(Start, ks[..i]) == Some(ScanState(mode, lines, lineNumber, commitHash, author))
      invariant mode == InMetadata ==> i == |output| || IsContentLine(output[i])
    {
      var line := output[i];
      ghost var st := ScanState(mode, lines, lineNumber, commitHash, author);
      ScanNext(output, i, st);
      OuterStep(st, line);

      if IsAuthorField(line) {
        i := i + 1;
        continue;
      }

      if IsContentLine(line) {
        lines := lines + [BlameLine(lineNumber, commitHash, author, RStripNewlines(line[1..]))];
        lineNumber := lineNumber + 1;
        i := i + 1;
        mode := AwaitingHeaderOrContent;
        continue;
      }

      // `line[:40].isalnum() or len(line.split()[0]) == 40`
      match TestHeader(line) {
        case Blank =>
          // `line.split()` is empty: `[0]` raises IndexError
          ScanFailurePersists(ks, i + 1);
          return None;
        case Header(hash) =>
          commitHash := hash;
          mode := InMetadata;
          i, author := ScanMetadata(output, i + 1, ScanState(InMetadata, lines, lineNumber, commitHash, author));
        case NotHeader =>
          i := i + 1;
      }
    }
    assert ks[..|output|] == ks;
    r := Some(lines);
  }

  /** The inner loop of `parse_blame_output`: after a header, every element
      up to the next content line is metadata, and each author line among
      them replaces the author.  Returns where the loop stopped (the content
      line, or the end) and the author it leaves. */
  method ScanMetadata(output: seq<string>, i0: nat, st: ScanState) returns (i: nat, author: string)
    requires i0 <= |output| && st.mode == InMetadata
    requires Scan(Start, Kinds(output)[..i0]) == Some(st)
    ensures i0 <= i <= |output|
    ensures i == |output| || IsContentLine(output[i])
    ensures Scan(Start, Kinds(output)[..i]) == Some(st.(author := author))
  {
    i, author := i0, st.author;
    while i < |output|
      invariant i0 <= i <= |output|
      invariant Scan(Start, Kinds(output)[..i]) == Some(st.(author := author))
    {
      var nextLine := output[i];
      ScanNext(output, i, st.(author := author));
      MetadataStep(st.(author := author), nextLine);
      if IsAuthorLine(nextLine) {
        author := RStripNewlines(nextLine[7..]);
      } else if IsContentLine(nextLine) {
        break;
      }
      i := i + 1;
    }
  }

  // ---------------------------------------------------------------------
  // Composition of the fold

  lemma ScanSnoc(st: ScanState, ks: seq<Kind>, k: Kind)
    ensures Scan(st, ks + [k]) ==
            match Scan(st, ks)
            case None => None
            case Some(s) => Step(s, k)
  {
    assert (ks + [k])[..|ks|] == ks;
  }

  /** One more element of the input, as both loops consume it. */
  lemma ScanNext(output: seq<string>, i: nat, st: ScanState)
    requires i < |output| && Scan(Start, Kinds(output)[..i]) == Some(st)
    ensures Scan(Start, Kinds(output)[..i + 1]) == Step(st, Classify(output[i]))
  {
    KindAt(output, i);
    ScanAt(Start, Kinds(output), i);
  }

  /** The scan of one more prefix element. */
  lemma ScanAt(st: ScanState, ks: seq<Kind>, i: nat)
    requires i < |ks|
    ensures Scan(st, ks[..i + 1]) ==
            match Scan(st, ks[..i])
            case None => None
            case Some(s) => Step(s, ks[i])
  {
    assert ks[..i + 1] == ks[..i] + [ks[i]];
    ScanSnoc(st, ks[..i], ks[i]);
  }

  lemma SliceSnoc(ks: seq<Kind>, p: nat, j: nat)
    requires p <= j < |ks|
    ensures ks[p..j + 1] == ks[p..j] + [ks[j]]
  {
  }

  /** The scan of one more element of a slice. */
  lemma ScanSliceAt(st: ScanState, ks: seq<Kind>, p: nat, j: nat)
    requires p <= j < |ks|
    ensures Scan(st, ks[p..j + 1]) ==
            match Scan(st, ks[p..j])
            case None => None
            case Some(s) => Step(s, ks[j])
  {
    SliceSnoc(ks, p, j);
    ScanSnoc(st, ks[p..j], ks[j]);
  }

  /** Scanning a concatenation is scanning the second part from where the
      first left off. */
  lemma {:induction false} ScanAppend(st: ScanState, xs: seq<Kind>, ys: seq<Kind>)
    ensures Scan(st, xs + ys) ==
            match Scan(st, xs)
            case None => None
            case Some(s) => Scan(s, ys)
    decreases |ys|
  {
    if ys == [] {
      assert xs + ys == xs;
    } else {
      var zs := xs + ys;
      assert zs[..|zs| - 1] == xs + ys[..|ys| - 1];
      assert zs[|zs| - 1] == ys[|ys| - 1];
      ScanAppend(st, xs, ys[..|ys| - 1]);
    }
  }

  /** Once an element has raised, the whole scan raises. */
  lemma ScanFailurePersists(ks: seq<Kind>, n: nat)
    requires n <= |ks| && Scan(Start, ks[..n]).None?
    ensures Scan(Start, ks).None?
  {
    assert ks[..n] + ks[n..] == ks;
    ScanAppend(Start, ks[..n], ks[n..]);
  }

  lemma {:induction false} ScanLinesGrow(st: ScanState, ks: seq<Kind>)
    requires Scan(st, ks).Some?
    ensures st.lines <= Scan(st, ks).value.lines
    decreases |ks|
  {
    if ks != [] {
      ScanLinesGrow(st, ks[..|ks| - 1]);
    }
  }

  // ---------------------------------------------------------------------
  // One record per content line, numbered from 1

  /** The content lines of `xs`, in order. */
  function ContentLines(xs: seq<string>): (r: seq<string>)
    ensures |r| <= |xs|
    ensures forall k :: 0 <= k < |r| ==> IsContentLine(r[k]) && r[k] in xs
    decreases |xs|
  {
    if xs == [] then []
    else ContentLines(xs[..|xs| - 1]) + (if IsContentLine(xs[|xs| - 1]) then [xs[|xs| - 1]] else [])
  }

  /** The texts carried by the content-line kinds, in order. */
  function ContentTexts(ks: seq<Kind>): seq<string>
    decreases |ks|
  {
    if ks == [] then []
    else ContentTexts(ks[..|ks| - 1]) + (if ks[|ks| - 1].Content? then [ks[|ks| - 1].text] else [])
  }

  /** A successful scan has emitted one record per content line, numbered
      from 1, each holding that line's text; the next number to hand out is
      one past the last. */
  lemma {:induction false} ScanRecords(ks: seq<Kind>)
    requires Scan(Start, ks).Some?
    ensures var s := Scan(Start, ks).value;
            && |s.lines| == |ContentTexts(ks)|
            && s.lineNumber == |s.lines| + 1
            && forall k :: 0 <= k < |s.lines| ==>
                 s.lines[k].lineNumber == k + 1 && s.lines[k].content == ContentTexts(ks)[k]
    decreases |ks|
  {
    if ks != [] {
      var pre, c := ks[..|ks| - 1], ks[|ks| - 1];
      ScanRecords(pre);
      var s0 := Scan(Start, pre).value;
      var s := Scan(Start, ks).value;
      if c.Content? {
        assert s == Emit(s0, c.text);
        assert ContentTexts(ks) == ContentTexts(pre) + [c.text];
      } else {
        assert s.lines == s0.lines && s.lineNumber == s0.lineNumber;
        assert ContentTexts(ks) == ContentTexts(pre);
      }
    }
  }

  /** The texts of the first `n` kinds are the contents of the content
      lines among the first `n` elements. */
  lemma {:induction false} ContentTextsUpTo(output: seq<string>, n: nat)
    requires n <= |output|
    ensures var t, cl := ContentTexts(Kinds(output)[..n]), ContentLines(output[..n]);
            && |t| == |cl|
            && forall k :: 0 <= k < |t| ==> t[k] == ContentOf(cl[k])
    decreases n
  {
    if n > 0 {
      ContentTextsUpTo(output, n - 1);
      var e := output[n - 1];
      var c := Kinds(output)[n - 1];
      assert c == Classify(e) by {
        KindAt(output, n - 1);
      }
      assert (c.Content? <==> IsContentLine(e)) && (c.Content? ==> c.text == ContentOf(e)) by {
        ClassifySpec(e);
      }
      assert ContentTexts(Kinds(output)[..n]) ==
             ContentTexts(Kinds(output)[..n - 1]) + (if c.Content? then [c.text] else []) by {
        ContentTextsAt(Kinds(output), n - 1);
      }
      assert ContentLines(output[..n]) ==
             ContentLines(output[..n - 1]) + (if IsContentLine(e) then [e] else []) by {
        assert output[..n][..n - 1] == output[..n - 1];
      }
    }
  }

  /** The texts of one more prefix element. */
  lemma ContentTextsAt(ks: seq<Kind>, i: nat)
    requires i < |ks|
    ensures ContentTexts(ks[..i + 1]) ==
            ContentTexts(ks[..i]) + (if ks[i].Content? then [ks[i].text] else [])
  {
    assert ks[..i + 1][..i] == ks[..i];
  }

  /** The records emitted before position `p`: one per content line there. */
  lemma RecordsBefore(output: seq<string>, p: nat)
    requires p <= |output|
    requires Scan(Start, Kinds(output)[..p]).Some?
    ensures |Scan(Start, Kinds(output)[..p]).value.lines| == |ContentLines(output[..p])|
  {
    ScanRecords(Kinds(output)[..p]);
    ContentTextsUpTo(output, p);
  }

  /** When parsing succeeds there is exactly one record per content line, in
      input order; the k-th record is numbered k + 1 whatever range the input
      came from, and its content is its line without the tab and without
      trailing newlines. */
  lemma ParseRecords(output: seq<string>)
    requires Parse(output).Some?
    ensures var recs := Parse(output).value;
            && |recs| == |ContentLines(output)|
            && forall k :: 0 <= k < |recs| ==>
                 recs[k].lineNumber == k + 1 && recs[k].content == ContentOf(ContentLines(output)[k])
  {
    var ks := Kinds(output);
    ScanRecords(ks);
    assert ks[..|output|] == ks && output[..|output|] == output;
    ContentTextsUpTo(output, |output|);
  }

  /** On a Python `str` every element is one character, so every record's
      content is empty. */
  lemma CharacterElements(output: seq<string>)
    requires forall j :: 0 <= j < |output| ==> |output[j]| == 1
    requires Parse(output).Some?
    ensures forall k :: 0 <= k < |Parse(output).value| ==> Parse(output).value[k].content == ""
  {
    ParseRecords(output);
    var cl := ContentLines(output);
    forall k | 0 <= k < |cl|
      ensures ContentOf(cl[k]) == ""
    {
      assert cl[k] in output;
      assert |cl[k]| == 1;
      assert cl[k][1..] == "";
    }
  }

  // ---------------------------------------------------------------------
  // Which header and author a record carries

  /** The kinds the outer loop passes over without changing anything:
      author fields, and elements that are neither content nor header-like. */
  predicate Skipped(k: Kind) {
    k.AuthorName? || k.AuthorDetail? || k.Other?
  }

  /** The position of the first kind the outer loop does not skip. */
  function FirstNotSkipped(ks: seq<Kind>): (r: Option<nat>)
    ensures r.None? ==> forall i :: 0 <= i < |ks| ==> Skipped(ks[i])
    ensures r.Some? ==> r.value < |ks| && !Skipped(ks[r.value])
                        && forall i :: 0 <= i < r.value ==> Skipped(ks[i])
    decreases |ks|
  {
    if ks == [] then None
    else if !Skipped(ks[0]) then Some(0)
    else
      match FirstNotSkipped(ks[1..])
      case None => None
      case Some(h) => Some(h + 1)
  }

  /** No author line after position `j`. */
  predicate NoLaterAuthorLine(ks: seq<Kind>, j: nat) {
    forall i :: j < i < |ks| ==> !ks[i].AuthorName?
  }

  /** The author carried out of a metadata span: the name on its last author
      line, or `author` unchanged when it has none. */
  function LastAuthor(ks: seq<Kind>, author: string): (a: string)
    ensures (forall j :: 0 <= j < |ks| ==> !ks[j].AuthorName?) ==> a == author
    ensures forall j :: 0 <= j < |ks| && ks[j].AuthorName? && NoLaterAuthorLine(ks, j) ==> a == ks[j].name
    decreases |ks|
  {
    if ks == [] then author
    else if ks[|ks| - 1].AuthorName? then ks[|ks| - 1].name
    else LastAuthor(ks[..|ks| - 1], author)
  }

  /** Reference reading of the elements between two content lines (or before
      the first): the first element the outer loop does not skip must be a
      header, whose first token becomes the hash; the author is then the last
      author line after it, else the one carried in.  A blank element there
      raises (`None`).  With no header at all, hash and author are inherited
      unchanged. */
  function Attribute(ks: seq<Kind>, hash: string, author: string): Option<(string, string)>
  {
    match FirstNotSkipped(ks)
    case None => Some((hash, author))
    case Some(h) =>
      match ks[h]
      case HeaderLine(t) => Some((t, LastAuthor(ks[h + 1..], author)))
      case _ => None
  }

  predicate NoContent(ks: seq<Kind>) {
    forall i :: 0 <= i < |ks| ==> !ks[i].Content?
  }

  lemma {:induction false} SkippedSegment(st: ScanState, ks: seq<Kind>)
    requires st.mode == AwaitingHeaderOrContent
    requires forall i :: 0 <= i < |ks| ==> Skipped(ks[i])
    ensures Scan(st, ks) == Some(st)
    decreases |ks|
  {
    if ks != [] {
      SkippedSegment(st, ks[..|ks| - 1]);
    }
  }

  lemma {:induction false} MetadataSegment(st: ScanState, ks: seq<Kind>)
    requires st.mode == InMetadata
    requires NoContent(ks)
    ensures Scan(st, ks) == Some(st.(author := LastAuthor(ks, st.author)))
    decreases |ks|
  {
    if ks != [] {
      MetadataSegment(st, ks[..|ks| - 1]);
    }
  }

  /** Scanning the kinds up to the next content line from the top of the
      outer loop does what `Attribute` says, and emits nothing. */
  lemma SegmentFromTop(st: ScanState, ks: seq<Kind>)
    requires st.mode == AwaitingHeaderOrContent
    requires NoContent(ks)
    ensures Attribute(ks, st.commitHash, st.author).None? ==> Scan(st, ks).None?
    ensures Attribute(ks, st.commitHash, st.author).Some? ==>
              var s := Scan(st, ks);
              && s.Some?
              && s.value.lines == st.lines && s.value.lineNumber == st.lineNumber
              && (s.value.commitHash, s.value.author) == Attribute(ks, st.commitHash, st.author).value
  {
    match FirstNotSkipped(ks)
    case None =>
      SkippedSegment(st, ks);
    case Some(h) =>
      FirstUnskipped(st, ks, h);
  }

  /** From the top of the outer loop, the skipped kinds before position `h`
      change nothing; a header at `h` enters the metadata, whose author lines
      then set the author, and a blank element at `h` raises. */
  lemma FirstUnskipped(st: ScanState, ks: seq<Kind>, h: nat)
    requires st.mode == AwaitingHeaderOrContent && NoContent(ks)
    requires h < |ks| && !Skipped(ks[h]) && forall i :: 0 <= i < h ==> Skipped(ks[i])
    ensures Scan(st, ks) ==
            match ks[h]
            case HeaderLine(t) => Some(st.(mode := InMetadata, commitHash := t,
                                           author := LastAuthor(ks[h + 1..], st.author)))
            case _ => None
  {
    var front, rest := ks[..h + 1], ks[h + 1..];
    assert Scan(st, front) == Step(st, ks[h]) by {
      assert front == ks[..h] + [ks[h]];
      SkippedSegment(st, ks[..h]);
      ScanSnoc(st, ks[..h], ks[h]);
    }
    assert Scan(st, ks) == match Scan(st, front) case None => None case Some(s) => Scan(s, rest) by {
      assert front + rest == ks;
      ScanAppend(st, front, rest);
    }
    if ks[h].HeaderLine? {
      assert NoContent(rest) by {
        assert forall i :: 0 <= i < |rest| ==> rest[i] == ks[h + 1 + i];
      }
      MetadataSegment(st.(mode := InMetadata, commitHash := ks[h].hash), rest);
    }
  }

  /** Position `p` starts a segment: it is the start of the input, or it
      follows a content line. */
  predicate SegmentStart(ks: seq<Kind>, p: nat) {
    p <= |ks| && (p == 0 || ks[p - 1].Content?)
  }

  /** After a content line the scan is back at the top of the outer loop
      and carries exactly the hash and author of the record just emitted. */
  lemma AfterContent(ks: seq<Kind>)
    requires ks != [] && ks[|ks| - 1].Content?
    requires Scan(Start, ks).Some?
    ensures var s := Scan(Start, ks).value;
            && s.mode == AwaitingHeaderOrContent && s.lines != []
            && s.lines[|s.lines| - 1].commitHash == s.commitHash
            && s.lines[|s.lines| - 1].author == s.author
  {
  }

  /** A segment and the content line that ends it, scanned from the top of
      the outer loop, emit exactly one record, carrying what `Attribute`
      makes of the segment. */
  lemma SegmentEmit(st: ScanState, seg: seq<Kind>, c: Kind)
    requires st.mode == AwaitingHeaderOrContent && NoContent(seg) && c.Content?
    requires Scan(st, seg + [c]).Some?
    ensures Attribute(seg, st.commitHash, st.author).Some?
    ensures var (hash, author) := Attribute(seg, st.commitHash, st.author).value;
            Scan(st, seg + [c]).value.lines == st.lines + [BlameLine(st.lineNumber, hash, author, c.text)]
  {
    ScanSnoc(st, seg, c);
    SegmentFromTop(st, seg);
  }

  /** The record a segment and its content line add to the records `recs`
      of the whole scan: it follows the `|st.lines|` records already there
      and carries what `Attribute` makes of the segment. */
  lemma EmittedRecord(st: ScanState, seg: seq<Kind>, c: Kind, recs: seq<BlameLine>)
    requires st.mode == AwaitingHeaderOrContent && NoContent(seg) && c.Content?
    requires Scan(st, seg + [c]).Some? && Scan(st, seg + [c]).value.lines <= recs
    ensures |st.lines| < |recs| && st.lines <= recs
    ensures Attribute(seg, st.commitHash, st.author) == Some((recs[|st.lines|].commitHash, recs[|st.lines|].author))
  {
    SegmentEmit(st, seg, c);
    var lines := Scan(st, seg + [c]).value.lines;
    assert recs[|st.lines|] == lines[|st.lines|];
  }

  /** Cutting a successful scan at `p` and at `q`. */
  lemma ScanAround(ks: seq<Kind>, p: nat, q: nat)
    requires Scan(Start, ks).Some? && p <= q <= |ks|
    ensures Scan(Start, ks[..p]).Some?
    ensures var sp := Scan(Start, ks[..p]).value;
            && Scan(sp, ks[p..q]).Some?
            && Scan(sp, ks[p..q]).value.lines <= Scan(Start, ks).value.lines
  {
    var pre, mid, post := ks[..p], ks[p..q], ks[q..];
    assert Scan(Start, ks[..q]).Some? &&
           Scan(Start, ks[..q]).value.lines <= Scan(Start, ks).value.lines by {
      assert ks[..q] + post == ks;
      ScanAppend(Start, ks[..q], post);
      ScanLinesGrow(Scan(Start, ks[..q]).value, post);
    }
    assert Scan(Start, ks[..q]) == match Scan(Start, pre) case None => None case Some(s) => Scan(s, mid) by {
      assert pre + mid == ks[..q];
      ScanAppend(Start, pre, mid);
    }
  }

  /** The record emitted by the content line at `j`, when `p` starts its
      segment: `k` records precede it, and it carries what `Attribute` makes
      of the kinds from `p` to `j`, starting from the previous record's hash
      and author (or `""` and `""` for the first record). */
  lemma SegmentRecord(ks: seq<Kind>, p: nat, j: nat)
    requires Scan(Start, ks).Some?
    requires p <= j < |ks| && ks[j].Content? && SegmentStart(ks, p)
    requires NoContent(ks[p..j])
    ensures Scan(Start, ks[..p]).Some?
    ensures var recs := Scan(Start, ks).value.lines;
            var k := |Scan(Start, ks[..p]).value.lines|;
            && k < |recs|
            && (p == 0 <==> k == 0)
            && Attribute(ks[p..j],
                         if k == 0 then "" else recs[k - 1].commitHash,
                         if k == 0 then "" else recs[k - 1].author)
               == Some((recs[k].commitHash, recs[k].author))
  {
    ScanAround(ks, p, j + 1);
    SliceSnoc(ks, p, j);
    StateAtSegmentStart(ks, p);
    var sp := Scan(Start, ks[..p]).value;
    var recs := Scan(Start, ks).value.lines;
    EmittedRecord(sp, ks[p..j], ks[j], recs);
    if p > 0 {
      var k := |sp.lines|;
      assert recs[k - 1] == sp.lines[k - 1];
    }
  }

  /** The scan state where a segment starts: at the top of the outer loop,
      with nothing recorded and empty hash and author at the start of the
      input, and otherwise carrying the hash and author of the last record. */
  lemma StateAtSegmentStart(ks: seq<Kind>, p: nat)
    requires SegmentStart(ks, p) && Scan(Start, ks[..p]).Some?
    ensures var sp := Scan(Start, ks[..p]).value;
            && sp.mode == AwaitingHeaderOrContent
            && (p == 0 <==> sp.lines == [])
            && (p == 0 ==> sp.commitHash == "" && sp.author == "")
            && (p > 0 ==> sp.lines[|sp.lines| - 1].commitHash == sp.commitHash
                          && sp.lines[|sp.lines| - 1].author == sp.author)
  {
    if p > 0 {
      assert ks[..p][p - 1] == ks[p - 1];
      AfterContent(ks[..p]);
    } else {
      assert ks[..p] == [];
    }
  }

  /** Every record carries the hash and author that `Attribute` computes from
      the kinds of the elements between the previous content line (or the
      start) and its own content line, starting from the previous record's
      hash and author (or `""` and `""` for the first record).  So a header
      without an author line inherits the author, a second header inside a
      metadata span changes nothing, and author fields before a header are
      ignored. */
  lemma RecordAttribution(output: seq<string>, p: nat, j: nat)
    requires Parse(output).Some?
    requires p <= j < |output| && IsContentLine(output[j])
    requires p == 0 || IsContentLine(output[p - 1])
    requires forall i :: p <= i < j ==> !IsContentLine(output[i])
    ensures var recs := Parse(output).value;
            var k := |ContentLines(output[..p])|;
            && k < |recs|
            && (p == 0 <==> k == 0)
            && Attribute(Kinds(output)[p..j],
                         if k == 0 then "" else recs[k - 1].commitHash,
                         if k == 0 then "" else recs[k - 1].author)
               == Some((recs[k].commitHash, recs[k].author))
  {
    var ks := Kinds(output);
    assert Parse(output).value == Scan(Start, ks).value.lines;
    assert ks[j].Content? && SegmentStart(ks, p) && NoContent(ks[p..j]) by {
      SegmentKinds(output, p, j);
    }
    SegmentRecord(ks, p, j);
    assert |Scan(Start, ks[..p]).value.lines| == |ContentLines(output[..p])| by {
      RecordsBefore(output, p);
    }
  }

  /** The conditions of `RecordAttribution`, read on the element kinds. */
  lemma SegmentKinds(output: seq<string>, p: nat, j: nat)
    requires p <= j < |output| && IsContentLine(output[j])
    requires p == 0 || IsContentLine(output[p - 1])
    requires forall i :: p <= i < j ==> !IsContentLine(output[i])
    ensures var ks := Kinds(output);
            ks[j].Content? && SegmentStart(ks, p) && NoContent(ks[p..j])
  {
    var ks := Kinds(output);
    KindAt(output, j);
    ClassifySpec(output[j]);
    if p > 0 {
      KindAt(output, p - 1);
      ClassifySpec(output[p - 1]);
    }
    forall i | p <= i < j
      ensures !ks[i].Content?
    {
      KindAt(output, i);
      ClassifySpec(output[i]);
    }
  }

  // ---------------------------------------------------------------------
  // When the parser raises

  /** Kind `j` is a blank element met at the top of the outer loop: every
      kind since the last content line (or the start) was skipped. */
  ghost predicate RaisesAtKind(ks: seq<Kind>, j: nat) {
    && j < |ks| && ks[j].BlankLine?
    && exists p: nat :: p <= j && SegmentStart(ks, p) && forall i :: p <= i < j ==> Skipped(ks[i])
  }

  lemma {:induction false} TopModeSegment(ks: seq<Kind>) returns (p: nat)
    requires Scan(Start, ks).Some? && Scan(Start, ks).value.mode == AwaitingHeaderOrContent
    ensures SegmentStart(ks, p)
    ensures forall i :: p <= i < |ks| ==> Skipped(ks[i])
    decreases |ks|
  {
    if ks == [] {
      p := 0;
    } else if ks[|ks| - 1].Content? {
      p := |ks|;
    } else {
      var pre := ks[..|ks| - 1];
      p := TopModeSegment(pre);
      assert p > 0 ==> ks[p - 1] == pre[p - 1];
      assert forall i :: p <= i < |pre| ==> ks[i] == pre[i];
    }
  }

  lemma {:induction false} FailureWitness(ks: seq<Kind>) returns (j: nat)
    requires Scan(Start, ks).None?
    ensures RaisesAtKind(ks, j)
    decreases |ks|
  {
    var pre := ks[..|ks| - 1];
    if Scan(Start, pre).None? {
      j := FailureWitness(pre);
      var p: nat :| p <= j && SegmentStart(pre, p) && forall i :: p <= i < j ==> Skipped(pre[i]);
      assert p > 0 ==> ks[p - 1] == pre[p - 1];
      assert forall i :: p <= i <= j ==> ks[i] == pre[i];
      assert SegmentStart(ks, p);
    } else {
      j := |ks| - 1;
      var p := TopModeSegment(pre);
      assert p > 0 ==> ks[p - 1] == pre[p - 1];
      assert forall i :: p <= i < j ==> ks[i] == pre[i];
      assert SegmentStart(ks, p);
    }
  }

  /** A blank element met at the top of the outer loop raises. */
  lemma BlankRaises(ks: seq<Kind>, p: nat, j: nat)
    requires p <= j < |ks| && ks[j].BlankLine? && SegmentStart(ks, p)
    requires forall i :: p <= i < j ==> Skipped(ks[i])
    ensures Scan(Start, ks).None?
  {
    if Scan(Start, ks).Some? {
      ScanAround(ks, p, j + 1);
      var sp := Scan(Start, ks[..p]).value;
      assert sp.mode == AwaitingHeaderOrContent by {
        StateAtSegmentStart(ks, p);
      }
      var seg := ks[p..j];
      assert Scan(sp, seg) == Some(sp) by {
        SkippedSegment(sp, seg);
      }
      ScanSliceAt(sp, ks, p, j);
      assert false;
    }
  }

  /** The scan raises exactly when some blank element is met at the top of
      the outer loop. */
  lemma ScanFailure(ks: seq<Kind>)
    ensures Scan(Start, ks).None? <==> exists j: nat :: RaisesAtKind(ks, j)
  {
    if Scan(Start, ks).None? {
      var j := FailureWitness(ks);
    }
    if j: nat :| RaisesAtKind(ks, j) {
      var p: nat :| p <= j && SegmentStart(ks, p) && forall i :: p <= i < j ==> Skipped(ks[i]);
      BlankRaises(ks, p, j);
    }
  }

  /** The element kinds, one by one. */
  lemma {:induction false} KindsAt(xs: seq<string>)
    ensures forall i :: 0 <= i < |xs| ==> Kinds(xs)[i] == Classify(xs[i])
    decreases |xs|
  {
    if xs != [] {
      KindsAt(xs[..|xs| - 1]);
    }
  }

  lemma KindAt(xs: seq<string>, i: nat)
    requires i < |xs|
    ensures Kinds(xs)[i] == Classify(xs[i])
  {
    KindsAt(xs);
  }

  /** Element position `p` starts a segment: the start of the input, or just
      after a content line. */
  predicate ElementSegmentStart(output: seq<string>, p: nat) {
    p <= |output| && (p == 0 || IsContentLine(output[p - 1]))
  }

  /** An element the outer loop passes over without changing anything. */
  predicate SkippedAtTop(e: string) {
    Skipped(Classify(e))
  }

  /** Element `j` reaches `line.split()[0]` with an empty split: it is blank,
      not a content line, and every element since the last content line (or
      the start) was skipped at the top of the outer loop. */
  ghost predicate RaisesAt(output: seq<string>, j: nat) {
    && j < |output| && IsBlank(output[j]) && !IsContentLine(output[j])
    && exists p: nat :: p <= j && ElementSegmentStart(output, p)
                        && forall i :: p <= i < j ==> SkippedAtTop(output[i])
  }

  /** `parse_blame_output` raises `IndexError` exactly when some element
      reaches the header test blank. */
  lemma ParseFailure(output: seq<string>)
    ensures Parse(output).None? <==> exists j: nat :: RaisesAt(output, j)
  {
    var ks := Kinds(output);
    ScanFailure(ks);
    KindsAt(output);
    if j: nat :| RaisesAt(output, j) {
      var p: nat :| p <= j && ElementSegmentStart(output, p)
                    && forall i :: p <= i < j ==> SkippedAtTop(output[i]);
      ClassifySpec(output[j]);
      if p > 0 {
        ClassifySpec(output[p - 1]);
      }
      assert SegmentStart(ks, p);
      assert RaisesAtKind(ks, j);
    }
    if j: nat :| RaisesAtKind(ks, j) {
      var p: nat :| p <= j && SegmentStart(ks, p) && forall i :: p <= i < j ==> Skipped(ks[i]);
      ClassifySpec(output[j]);
      if p > 0 {
        ClassifySpec(output[p - 1]);
      }
      assert ElementSegmentStart(output, p);
      assert RaisesAt(output, j);
    }
  }

  /** Input without blank elements never raises. */
  lemma NoBlankElementsNoFailure(output: seq<string>)
    requires forall j :: 0 <= j < |output| ==> !IsBlank(output[j])
    ensures Parse(output).Some?
  {
    ParseFailure(output);
  }
}
