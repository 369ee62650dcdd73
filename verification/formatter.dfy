/** `format_plain`: one row per record,
    `f"{line_number:4d} | {commit_hash[:7]} | {author:12} | {content}"`,
    the rows joined with newlines. */
module Formatter {
  import opened Text
  import opened Blame

  /** `f"{n:4d}"`: the decimal number right-aligned in at least 4 columns. */
  function NumberColumn(n: int): string {
    RJust(IntToDecimal(n), 4)
  }

  /** The separator between columns. */
  const Bar := " | "

  /** The row of one record. */
  function Row(bl: BlameLine): string {
    NumberColumn(bl.lineNumber) + Bar + Prefix(bl.commitHash, 7) + Bar + LJust(bl.author, 12) + Bar + bl.content
  }

  /** The rows of the records, in order. */
  function Rows(bls: seq<BlameLine>): (rows: seq<string>)
    ensures |rows| == |bls|
    ensures forall i :: 0 <= i < |bls| ==> rows[i] == Row(bls[i])
  {
    seq(|bls|, i requires 0 <= i < |bls| => Row(bls[i]))
  }

  /** `"\n".join(rows)` */
  function Join(rows: seq<string>): string
    decreases |rows|
  {
    if rows == [] then ""
    else if |rows| == 1 then rows[0]
    else Join(rows[..|rows| - 1]) + "\n" + rows[|rows| - 1]
  }

  /** `s.split("\n")`: the pieces between newlines, never empty. */
  function Split(s: string): (pieces: seq<string>)
    ensures |pieces| > 0
    decreases |s|
  {
    if s == [] then [""]
    else
      var front := Split(s[..|s| - 1]);
      if s[|s| - 1] == '\n' then front + [""]
      else front[..|front| - 1] + [front[|front| - 1] + [s[|s| - 1]]]
  }

  predicate NoNewline(s: string) {
    forall i :: 0 <= i < |s| ==> s[i] != '\n'
  }

  /** A string without newlines is one piece. */
  lemma {:induction false} SplitNoNewline(s: string)
    requires NoNewline(s)
    ensures Split(s) == [s]
    decreases |s|
  {
    if s != [] {
      var front := s[..|s| - 1];
      SplitNoNewline(front);
      assert front + [s[|s| - 1]] == s;
    }
  }

  /** Appending a newline and a newline-free piece adds that piece. */
  lemma {:induction false} SplitAppend(s: string, w: string)
    requires NoNewline(w)
    ensures Split(s + "\n" + w) == Split(s) + [w]
    decreases |w|
  {
    if w == [] {
      assert (s + "\n" + w)[..|s|] == s;
    } else {
      var front := w[..|w| - 1];
      SplitAppend(s, front);
      var t := s + "\n" + w;
      assert t[..|t| - 1] == s + "\n" + front;
      assert front + [w[|w| - 1]] == w;
    }
  }

  /** Splitting the joined rows gives back the rows, when none holds a
      newline and there is at least one (`"".split("\n") == [""]`). */
  lemma {:induction false} SplitJoin(rows: seq<string>)
    requires rows != []
    requires forall i :: 0 <= i < |rows| ==> NoNewline(rows[i])
    ensures Split(Join(rows)) == rows
    decreases |rows|
  {
    if |rows| == 1 {
      SplitNoNewline(rows[0]);
    } else {
      var front, last := rows[..|rows| - 1], rows[|rows| - 1];
      assert Split(Join(front)) == front by {
        SplitJoin(front);
      }
      assert Split(Join(front) + "\n" + last) == Split(Join(front)) + [last] by {
        SplitAppend(Join(front), last);
      }
      assert Join(rows) == Join(front) + "\n" + last;
      assert front + [last] == rows;
    }
  }

  /** One more character: a newline starts a new piece, anything else
      extends the last one. */
  lemma SplitSnoc(s: string, c: char)
    ensures var pieces := Split(s);
            Split(s + [c]) ==
            if c == '\n' then pieces + [""]
            else pieces[..|pieces| - 1] + [pieces[|pieces| - 1] + [c]]
  {
    assert (s + [c])[..|s|] == s;
  }

  /** Extending the last piece extends the joined string. */
  lemma JoinExtendLast(pieces: seq<string>, c: char)
    requires pieces != []
    ensures Join(pieces[..|pieces| - 1] + [pieces[|pieces| - 1] + [c]]) == Join(pieces) + [c]
  {
    var init := pieces[..|pieces| - 1];
    var r := init + [pieces[|pieces| - 1] + [c]];
    if |pieces| > 1 {
      assert r[..|r| - 1] == init;
    }
  }

  /** Joining the pieces of any string gives it back. */
  lemma {:induction false} JoinSplit(s: string)
    ensures Join(Split(s)) == s
    decreases |s|
  {
    if s != [] {
      var front, c := s[..|s| - 1], s[|s| - 1];
      assert s == front + [c];
      JoinSplit(front);
      SplitSnoc(front, c);
      var pieces := Split(front);
      if c == '\n' {
        assert (pieces + [""])[..|pieces|] == pieces;
      } else {
        JoinExtendLast(pieces, c);
      }
    }
  }

  /** Where the three parts of a concatenation sit. */
  lemma PartsAt(a: string, b: string, c: string)
    ensures var s := a + b + c;
            && s[..|a|] == a
            && s[|a|..|a| + |b|] == b
            && s[|a| + |b|..] == c
  {
  }

  /** The columns of a row, in order and separated by `" | "`: the number
      column, the hash column, the author column and the content verbatim. */
  lemma RowColumns(bl: BlameLine, num: string, hash: string, auth: string)
    requires num == NumberColumn(bl.lineNumber)
    requires hash == Prefix(bl.commitHash, 7)
    requires auth == LJust(bl.author, 12)
    ensures var row, w, h, a := Row(bl), |num|, |hash|, |auth|;
            && |row| == w + h + a + |bl.content| + 9
            && row[..w] == num
            && row[w..w + 3] == Bar
            && row[w + 3..w + 3 + h] == hash
            && row[w + 3 + h..w + 6 + h] == Bar
            && row[w + 6 + h..w + 6 + h + a] == auth
            && row[w + 6 + h + a..w + 9 + h + a] == Bar
            && row[w + 9 + h + a..] == bl.content
  {
    Columns(num, hash, auth, bl.content);
    assert Row(bl) == num + Bar + hash + Bar + auth + Bar + bl.content;
  }

  /** The hash column: `commit_hash[:7]`, the first 7 characters of the
      hash, or all of a shorter one. */
  lemma HashColumn(hash: string)
    ensures var col := Prefix(hash, 7);
            && |col| == Min(7, |hash|)
            && col == hash[..|col|]
  {
  }

  /** Where the seven parts of a row sit. */
  lemma Columns(num: string, hash: string, auth: string, content: string)
    ensures var row := num + Bar + hash + Bar + auth + Bar + content;
            var w, h, a := |num|, |hash|, |auth|;
            && |row| == w + h + a + |content| + 9
            && row[..w] == num
            && row[w..w + 3] == Bar
            && row[w + 3..w + 3 + h] == hash
            && row[w + 3 + h..w + 6 + h] == Bar
            && row[w + 6 + h..w + 6 + h + a] == auth
            && row[w + 6 + h + a..w + 9 + h + a] == Bar
            && row[w + 9 + h + a..] == content
  {
    var head := num + Bar + hash + Bar;
    var tail := Bar + content;
    assert num + Bar + hash + Bar + auth + Bar + content == head + auth + tail;
    PartsAt(head, auth, tail);
    PartsAt(num + Bar, hash, Bar);
    PartsAt(num, Bar, hash);
    PartsAt(head + auth, Bar, content);
  }

  /** The number column holds the decimal number right-aligned in at least
      4 characters, padded with spaces and never cut. */
  lemma NumberColumnLayout(n: int)
    ensures var col, digits := NumberColumn(n), IntToDecimal(n);
            && |col| == Max(4, |digits|)
            && (forall i :: 0 <= i < |col| - |digits| ==> col[i] == ' ')
            && col[|col| - |digits|..] == digits
  {
  }

  /** The author column holds the author left-aligned in at least 12
      characters, padded with spaces and never cut. */
  lemma AuthorColumnLayout(author: string)
    ensures var col := LJust(author, 12);
            && |col| == Max(12, |author|)
            && col[..|author|] == author
            && (forall i :: |author| <= i < |col| ==> col[i] == ' ')
  {
  }

  /** Reading the number column back: past its padding it holds the
      canonical digits of a non-negative line number. */
  lemma NumberColumnValue(n: int)
    requires n >= 0
    ensures var col := NumberColumn(n);
            var k := LeadingSpaces(col);
            && |col| >= 4
            && AllDigits(col[k..])
            && DecimalValue(col[k..]) == n
            && NatToDecimal(DecimalValue(col[k..])) == col[k..]
  {
    var digits := NatToDecimal(n);
    var col := NumberColumn(n);
    var pad := |col| - |digits|;
    assert col == Spaces(pad) + digits;
    LeadingSpacesOf(pad, digits);
  }

  /** The leading spaces of `pad` spaces before a digit string. */
  lemma {:induction false} LeadingSpacesOf(pad: nat, digits: string)
    requires |digits| > 0 && AllDigits(digits)
    ensures LeadingSpaces(Spaces(pad) + digits) == pad
    decreases pad
  {
    var s := Spaces(pad) + digits;
    if pad == 0 {
      assert s == digits;
    } else {
      assert s[1..] == Spaces(pad - 1) + digits;
      LeadingSpacesOf(pad - 1, digits);
    }
  }

  /** The number column's characters: spaces, a minus sign and digits. */
  lemma NumberColumnChars(n: int)
    ensures NoNewline(NumberColumn(n))
  {
    var digits := NatToDecimal(if n < 0 then -n else n);
    var d := IntToDecimal(n);
    assert NoNewline(d) by {
      assert NoNewline(digits);
      if n < 0 {
        AppendNoNewline("-", digits);
      }
    }
    var pad := Spaces(if |d| < 4 then 4 - |d| else 0);
    assert NumberColumn(n) == pad + d;
    AppendNoNewline(pad, d);
  }

  /** A record none of whose fields holds a newline has a one-line row. */
  lemma RowNoNewline(bl: BlameLine)
    requires NoNewline(bl.commitHash) && NoNewline(bl.author) && NoNewline(bl.content)
    ensures NoNewline(Row(bl))
  {
    NumberColumnChars(bl.lineNumber);
    var num, hash, auth := NumberColumn(bl.lineNumber), Prefix(bl.commitHash, 7), LJust(bl.author, 12);
    AppendNoNewline(num, Bar);
    AppendNoNewline(num + Bar, hash);
    AppendNoNewline(num + Bar + hash, Bar);
    AppendNoNewline(num + Bar + hash + Bar, auth);
    AppendNoNewline(num + Bar + hash + Bar + auth, Bar);
    AppendNoNewline(num + Bar + hash + Bar + auth + Bar, bl.content);
  }

  lemma AppendNoNewline(a: string, b: string)
    requires NoNewline(a) && NoNewline(b)
    ensures NoNewline(a + b)
  {
    assert forall i :: 0 <= i < |a| + |b| ==> (a + b)[i] == if i < |a| then a[i] else b[i - |a|];
  }

  lemma PrefixSnoc(all: seq<string>, i: nat)
    requires i < |all|
    ensures all[..i + 1] == all[..i] + [all[i]]
  {
  }

  /** `format_plain(blame_lines)`: collect the rows, then join them. */
  method FormatPlain(blameLines: seq<BlameLine>) returns (out: string)
    ensures out == Join(Rows(blameLines))
    ensures blameLines == [] ==> out == ""
  {
    var lines: seq<string> := [];
    var i := 0;
    while i < |blameLines|
      invariant i <= |blameLines|
      invariant lines == Rows(blameLines)[..i]
    {
      var row := Row(blameLines[i]);
      PrefixSnoc(Rows(blameLines), i);
      lines := lines + [row];
      i := i + 1;
    }
    assert Rows(blameLines)[..i] == Rows(blameLines);
    out := Join(lines);
  }

  /** The output's lines are the rows, in record order, when no field holds
      a newline: single separators, no trailing newline. */
  lemma FormatLines(bls: seq<BlameLine>)
    requires bls != []
    requires forall i :: 0 <= i < |bls| ==>
               NoNewline(bls[i].commitHash) && NoNewline(bls[i].author) && NoNewline(bls[i].content)
    ensures Split(Join(Rows(bls))) == Rows(bls)
  {
    forall i | 0 <= i < |bls|
      ensures NoNewline(Rows(bls)[i])
    {
      RowNoNewline(bls[i]);
    }
    SplitJoin(Rows(bls));
  }

  /** The two records of the formatter's test fixture. */
  const Fixture := [BlameLine(1, "abc123def456", "John Doe", "def hello():"),
                    BlameLine(2, "def456abc789", "Jane Smith", "    return 'world'")]

  /** The fixture's rows, column by column: each number right-aligned in
      4, each hash cut to 7 characters, each author padded to 12 and then
      followed by `" | "`. */
  lemma FixtureRows()
    ensures Rows(Fixture) ==
            ["   1" + Bar + "abc123d" + Bar + "John Doe    " + Bar + "def hello():",
             "   2" + Bar + "def456a" + Bar + "Jane Smith  " + Bar + "    return 'world'"]
  {
    assert NumberColumn(1) == "   1" by {
      assert IntToDecimal(1) == "1" && Spaces(3) == "   ";
    }
    assert NumberColumn(2) == "   2" by {
      assert IntToDecimal(2) == "2" && Spaces(3) == "   ";
    }
    assert LJust("John Doe", 12) == "John Doe    " by {
      assert Spaces(4) == "    ";
    }
    assert LJust("Jane Smith", 12) == "Jane Smith  " by {
      assert Spaces(2) == "  ";
    }
    assert Prefix("abc123def456", 7) == "abc123d" && Prefix("def456abc789", 7) == "def456a";
    assert Rows(Fixture) == [Row(Fixture[0]), Row(Fixture[1])];
  }

  /** The fixture's output splits back into its two rows. */
  lemma FixtureLines()
    ensures Split(Join(Rows(Fixture))) == Rows(Fixture)
  {
    assert NoNewline("abc123def456") && NoNewline("John Doe") && NoNewline("def hello():");
    assert NoNewline("def456abc789") && NoNewline("Jane Smith") && NoNewline("    return 'world'");
    FormatLines(Fixture);
  }

  /** The strings the fixture's test looks for (tests/test_formatter.py). */
  const ExpectedFirst := "   1 | abc123d | John Doe    | def hello():"
  const ExpectedSecond := "   2 | def456a | Jane Smith  |     return 'world'"

  /** Each string the fixture's test looks for has one space fewer before
      the third bar than the row the f-string produces, so neither is a
      line of the output, nor occurs anywhere in it: the test's
      `... in result` checks do not hold for the code as written. */
  lemma FixtureExpectations()
    ensures var lines := Split(Join(Rows(Fixture)));
            ExpectedFirst !in lines && ExpectedSecond !in lines
    ensures !Contains(Join(Rows(Fixture)), ExpectedFirst)
    ensures !Contains(Join(Rows(Fixture)), ExpectedSecond)
  {
    FixtureRows();
    FixtureLines();
    assert |Rows(Fixture)[0]| == 44 && |Rows(Fixture)[1]| == 50;
    FixtureOutputMissesFirst();
    FixtureOutputMissesSecond();
  }

  /** The first row of the fixture is a ':'-free part followed by its only
      ':', and holds no 'w'. */
  lemma FirstRowParts(r: string) returns (p: string)
    requires r == "   1" + Bar + "abc123d" + Bar + "John Doe    " + Bar + "def hello():"
    ensures r == p + [':'] && ':' !in p && 'w' !in r
    ensures |p| == 43 && p[25] == ' '
  {
    p := "   1" + Bar + "abc123d" + Bar + "John Doe    " + Bar + "def hello()";
    assert "def hello():" == "def hello()" + [':'];
  }

  /** The second row of the fixture has one 'w', in "'world'", and no ':'. */
  lemma SecondRowParts(r: string) returns (p: string, q: string)
    requires r == "   2" + Bar + "def456a" + Bar + "Jane Smith  " + Bar + "    return 'world'"
    ensures r == p + ['w'] + q && 'w' !in p && 'w' !in q && ':' !in r
    ensures |p| == 44 && p[27] == ' '
  {
    p, q := "   2" + Bar + "def456a" + Bar + "Jane Smith  " + Bar + "    return '", "orld'";
    assert "    return 'world'" == "    return '" + ['w'] + "orld'";
  }

  /** The fixture's rows, each split around its mark. */
  lemma FixtureRowParts() returns (p0: string, p1: string, q1: string)
    ensures Rows(Fixture)[0] == p0 + [':'] && ':' !in p0 && 'w' !in Rows(Fixture)[0]
    ensures Rows(Fixture)[1] == p1 + ['w'] + q1 && 'w' !in p1 && 'w' !in q1 && ':' !in Rows(Fixture)[1]
    ensures |p0| == 43 && p0[25] == ' ' && |p1| == 44 && p1[27] == ' '
  {
    FixtureRows();
    p0 := FirstRowParts(Rows(Fixture)[0]);
    p1, q1 := SecondRowParts(Rows(Fixture)[1]);
  }

  /** Two rows joined by a newline, the first ending in its only `c` and
      the second holding its only `d`, regrouped around either mark. */
  lemma JoinAroundMarks(p0: string, c: char, p1: string, d: char, q1: string)
    requires c !in p0 && c !in p1 + [d] + q1 && c != '\n'
    requires d !in p0 + [c] && d !in p1 && d !in q1 && d != '\n'
    ensures var out := (p0 + [c]) + "\n" + (p1 + [d] + q1);
            && out == p0 + [c] + ("\n" + p1 + [d] + q1)
            && out == (p0 + [c] + "\n" + p1) + [d] + q1
            && c !in "\n" + p1 + [d] + q1
            && d !in p0 + [c] + "\n" + p1
  {
  }

  /** The fixture's output, split around its only ':' and its only 'w'. */
  lemma FixtureOutputParts() returns (p0: string, p1: string, q1: string)
    ensures Join(Rows(Fixture)) == p0 + [':'] + ("\n" + p1 + ['w'] + q1)
    ensures Join(Rows(Fixture)) == (p0 + [':'] + "\n" + p1) + ['w'] + q1
    ensures ':' !in p0 && ':' !in "\n" + p1 + ['w'] + q1
    ensures 'w' !in p0 + [':'] + "\n" + p1 && 'w' !in q1
    ensures |p0| == 43 && p0[25] == ' ' && |p1| == 44 && p1[27] == ' '
  {
    var r0, r1 := Rows(Fixture)[0], Rows(Fixture)[1];
    assert Join(Rows(Fixture)) == r0 + "\n" + r1 by {
      assert Rows(Fixture)[..1] == [r0];
    }
    p0, p1, q1 := FixtureRowParts();
    JoinAroundMarks(p0, ':', p1, 'w', q1);
  }

  /** `ExpectedFirst in result` is false: the only ':' of the output ends
      the first row, so the string could only start one character into the
      output, where its 'e' of "Doe" meets a space. */
  lemma FixtureOutputMissesFirst()
    ensures !Contains(Join(Rows(Fixture)), ExpectedFirst)
  {
    var p0, p1, q1 := FixtureOutputParts();
    assert |ExpectedFirst| == 43 && ExpectedFirst[42] == ':' && ExpectedFirst[24] == 'e';
    NotContainsByMark(p0, ':', "\n" + p1 + ['w'] + q1, ExpectedFirst, 42, 24);
  }

  /** `ExpectedSecond in result` is false: the only 'w' of the output is in
      the second row, so the string could only start one character into that
      row, where its 'h' of "Smith" meets a space. */
  lemma FixtureOutputMissesSecond()
    ensures !Contains(Join(Rows(Fixture)), ExpectedSecond)
  {
    var p0, p1, q1 := FixtureOutputParts();
    var p := p0 + [':'] + "\n" + p1;
    assert p[72] == p1[27];
    assert |ExpectedSecond| == 49 && ExpectedSecond[43] == 'w' && ExpectedSecond[26] == 'h';
    NotContainsByMark(p, 'w', q1, ExpectedSecond, 43, 26);
  }
}
