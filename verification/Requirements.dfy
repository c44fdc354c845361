/** Rewriting requirements.txt (shared/package_manager.py,
    _append_to_requirements). `lower` stands for str.lower and may be any
    function. */
module Requirements {
  import opened Wrappers
  import opened Strings

  type Lower = string -> string

  // ------------------------------------------------------ text and lines

  /** read_text: every kind of line ending becomes a newline. */
  function ReadText(raw: string): string {
    if raw == "" then ""
    else if raw[0] != '\r' then [raw[0]] + ReadText(raw[1..])
    else if |raw| > 1 && raw[1] == '\n' then ReadText(raw[1..])
    else "\n" + ReadText(raw[1..])
  }

  /** str.splitlines, for text without "\r\n". */
  function SplitLines(s: string): (lines: seq<string>)
    ensures lines == [] <==> s == ""
  {
    if s == "" then []
    else if IsBreak(s[0]) then [""] + SplitLines(s[1..])
    else
      var rest := SplitLines(s[1..]);
      if rest == [] then [s] else [[s[0]] + rest[0]] + rest[1..]
  }

  predicate NoBreak(s: string) {
    forall c :: c in s ==> !IsBreak(c)
  }

  predicate NoBreaks(lines: seq<string>) {
    forall i :: 0 <= i < |lines| ==> NoBreak(lines[i])
  }

  /** Each line with a newline after it. */
  function Unlines(lines: seq<string>): string {
    if lines == [] then "" else lines[0] + "\n" + Unlines(lines[1..])
  }

  lemma {:induction false} UnlinesIsJoin(lines: seq<string>)
    requires lines != []
    ensures Join(lines, '\n') + "\n" == Unlines(lines)
  {
    if |lines| == 1 {
      assert lines[1..] == [];
      assert lines[0] + "\n" + "" == lines[0] + "\n";
    } else {
      UnlinesIsJoin(lines[1..]);
      assert lines[0] + "\n" + Join(lines[1..], '\n') + "\n" == lines[0] + "\n" + (Join(lines[1..], '\n') + "\n");
    }
  }

  lemma {:induction false} SplitLinesFree(s: string)
    ensures NoBreaks(SplitLines(s))
  {
    if s != "" {
      SplitLinesFree(s[1..]);
    }
  }

  lemma SplitLinesAfter(line: string, rest: string)
    requires NoBreak(line)
    ensures SplitLines(line + "\n" + rest) == [line] + SplitLines(rest)
  {
    SplitLinesAtBreak(line, '\n', rest);
  }

  lemma {:induction false} SplitOfUnlines(lines: seq<string>)
    requires NoBreaks(lines)
    ensures SplitLines(Unlines(lines)) == lines
  {
    if lines != [] {
      SplitOfUnlines(lines[1..]);
      SplitLinesAfter(lines[0], Unlines(lines[1..]));
    }
  }

  lemma {:induction false} ReadTextFixes(s: string)
    requires '\r' !in s
    ensures ReadText(s) == s
  {
    if s != "" {
      ReadTextFixes(s[1..]);
    }
  }

  lemma {:induction false} UnlinesHasNoReturn(lines: seq<string>)
    requires NoBreaks(lines)
    ensures '\r' !in Unlines(lines)
  {
    if lines != [] {
      UnlinesHasNoReturn(lines[1..]);
    }
  }

  /** The other characters a line ends at: vertical tab, form feed, the three
      information separators, next line, and the Unicode line and paragraph
      separators. A tab or a blank is none. */
  lemma OtherBreaks(line: string, c: char, rest: string)
    requires NoBreak(line)
    ensures c as int in {0x0B, 0x0C, 0x1C, 0x1D, 0x1E, 0x85, 0x2028, 0x2029} ==>
      SplitLines(line + [c] + rest) == [line] + SplitLines(rest)
    ensures NoBreak(" \t") && IsSpace(' ') && IsSpace('\t')
  {
    if c as int in {0x0B, 0x0C, 0x1C, 0x1D, 0x1E, 0x85, 0x2028, 0x2029} {
      SplitLinesAtBreak(line, c, rest);
    }
  }

  lemma {:induction false} SplitLinesAtBreak(line: string, c: char, rest: string)
    requires NoBreak(line) && IsBreak(c)
    ensures SplitLines(line + [c] + rest) == [line] + SplitLines(rest)
  {
    var s := line + [c] + rest;
    if line == "" {
      assert s == [c] + rest && s[1..] == rest;
    } else {
      SplitLinesAtBreak(line[1..], c, rest);
      assert s[1..] == line[1..] + [c] + rest;
      assert [line[0]] + line[1..] == line;
    }
  }

  /** A line ends at "\n", "\r\n" or "\r", whichever the file was written with. */
  lemma LineEndings(line: string, ending: string, rest: string)
    requires NoBreak(line) && (ending == "\n" || ending == "\r\n" || ending == "\r")
    requires ending == "\r" && rest != "" ==> rest[0] != '\n'
    ensures SplitLines(ReadText(line + ending + rest)) == [line] + SplitLines(ReadText(rest))
  {
    ReadTextAfter(line, ending, rest);
    SplitLinesAfter(line, ReadText(rest));
  }

  lemma {:induction false} ReadTextAfter(line: string, ending: string, rest: string)
    requires NoBreak(line) && (ending == "\n" || ending == "\r\n" || ending == "\r")
    requires ending == "\r" && rest != "" ==> rest[0] != '\n'
    ensures ReadText(line + ending + rest) == line + "\n" + ReadText(rest)
  {
    var s := line + ending + rest;
    if line != "" {
      ReadTextAfter(line[1..], ending, rest);
      assert s[0] == line[0] && line[0] in line;
      assert s[1..] == line[1..] + ending + rest;
      assert [line[0]] + (line[1..] + "\n" + ReadText(rest)) == line + "\n" + ReadText(rest);
    } else if ending == "\r\n" {
      assert s[1..] == "\n" + rest && s[1..][1..] == rest;
    } else {
      assert s[1..] == rest;
    }
  }

  // -------------------------------------------------------- one line

  /** s.split(op)[0], for an op of the two characters a and '='. */
  function Before(s: string, a: char): string {
    if |s| < 2 then s
    else if s[0] == a && s[1] == '=' then ""
    else [s[0]] + Before(s[1..], a)
  }

  /** .split("==")[0].split(">=")[0].split("<=")[0].split("~=")[0] */
  function Cut(s: string): string {
    Before(Before(Before(Before(s, '='), '>'), '<'), '~')
  }

  /** The name a requirement line is taken to be about. */
  function ExistingPackage(line: string): string {
    Trim(Cut(Trim(line)))
  }

  predicate IsRequirement(line: string) {
    Trim(line) != "" && Trim(line)[0] != '#'
  }

  predicate Matches(lower: Lower, line: string, name: string) {
    IsRequirement(line) && lower(ExistingPackage(line)) == lower(name)
  }

  // -------------------------------------------------------- the rewriting

  function Spec(name: string, version: string): string {
    if version != "" then name + "==" + version else name
  }

  /** The lines so far, each matching one replaced. */
  function Replaced(lower: Lower, lines: seq<string>, name: string, spec: string): (r: seq<string>)
    ensures |r| == |lines|
  {
    if lines == [] then []
    else
      var n := |lines| - 1;
      Replaced(lower, lines[..n], name, spec) + [if Matches(lower, lines[n], name) then spec else lines[n]]
  }

  predicate AnyMatches(lower: Lower, lines: seq<string>, name: string) {
    exists i :: 0 <= i < |lines| && Matches(lower, lines[i], name)
  }

  function Rewritten(lower: Lower, lines: seq<string>, name: string, spec: string): seq<string> {
    Replaced(lower, lines, name, spec) + if AnyMatches(lower, lines, name) then [] else [spec]
  }

  /** The file afterwards; None is a file that does not exist. */
  function Appended(lower: Lower, file: Option<string>, name: string, version: string): string {
    var spec := Spec(name, version);
    match file
    case None => spec + "\n"
    case Some(raw) => Join(Rewritten(lower, SplitLines(ReadText(raw)), name, spec), '\n') + "\n"
  }

  lemma OneMoreLine(lower: Lower, lines: seq<string>, i: nat, name: string, spec: string)
    requires i < |lines|
    ensures Replaced(lower, lines[..i + 1], name, spec) ==
      Replaced(lower, lines[..i], name, spec) + [if Matches(lower, lines[i], name) then spec else lines[i]]
    ensures AnyMatches(lower, lines[..i + 1], name) <==>
      AnyMatches(lower, lines[..i], name) || Matches(lower, lines[i], name)
  {
    assert lines[..i + 1][..i] == lines[..i] && lines[..i + 1][i] == lines[i];
    assert forall k :: 0 <= k < i ==> lines[..i + 1][k] == lines[..i][k];
  }

  method RewriteLines(lower: Lower, lines: seq<string>, packageName: string, spec: string)
    returns (updatedLines: seq<string>)
    ensures updatedLines == Rewritten(lower, lines, packageName, spec)
  {
    var packageExists := false;
    updatedLines := [];
    for i := 0 to |lines|
      invariant updatedLines == Replaced(lower, lines[..i], packageName, spec)
      invariant packageExists == AnyMatches(lower, lines[..i], packageName)
    {
      var line := lines[i];
      OneMoreLine(lower, lines, i, packageName, spec);
      if !IsRequirement(line) {
        updatedLines := updatedLines + [line];
      } else if lower(ExistingPackage(line)) == lower(packageName) {
        updatedLines := updatedLines + [spec];
        packageExists := true;
      } else {
        updatedLines := updatedLines + [line];
      }
    }
    assert lines[..|lines|] == lines;
    if !packageExists {
      updatedLines := updatedLines + [spec];
    }
  }

  class PackageManager {
    var requirementsFile: Option<string>

    constructor ()
      ensures requirementsFile == None
    {
      requirementsFile := None;
    }

    method AppendToRequirements(lower: Lower, packageName: string, version: string)
      modifies this
      ensures requirementsFile == Some(Appended(lower, old(requirementsFile), packageName, version))
    {
      var spec := if version != "" then packageName + "==" + version else packageName;
      if requirementsFile.None? {
        requirementsFile := Some(spec + "\n");
        return;
      }
      var content := ReadText(requirementsFile.value);
      var updatedLines := RewriteLines(lower, SplitLines(content), packageName, spec);
      requirementsFile := Some(Join(updatedLines, '\n') + "\n");
    }
  }

  // ---------------------------------------- which lines are recognised

  predicate IsNameChar(c: char) {
    'a' <= c <= 'z' || 'A' <= c <= 'Z' || '0' <= c <= '9' || c == '.' || c == '_' || c == '-'
  }

  predicate ValidName(name: string) {
    name != "" && forall c :: c in name ==> IsNameChar(c)
  }

  predicate Blank(s: string) {
    forall c :: c in s ==> IsSpace(c)
  }

  lemma {:induction false} BeforeKeeps(p: string, s: string, a: char)
    requires a !in p
    ensures Before(p + s, a) == p + Before(s, a)
  {
    if p == "" {
      assert p + s == s && p + Before(s, a) == Before(s, a);
    } else {
      BeforeKeeps(p[1..], s, a);
      assert (p + s)[1..] == p[1..] + s;
      assert [p[0]] + (p[1..] + Before(s, a)) == p + Before(s, a);
    }
  }

  predicate NoOperator(p: string) {
    '=' !in p && '>' !in p && '<' !in p && '~' !in p
  }

  lemma CutKeeps(p: string, s: string)
    requires NoOperator(p)
    ensures Cut(p + s) == p + Cut(s)
  {
    var s1 := Before(s, '=');
    var s2 := Before(s1, '>');
    BeforeKeeps(p, s, '=');
    BeforeKeeps(p, s1, '>');
    BeforeKeeps(p, s2, '<');
    BeforeKeeps(p, Before(s2, '<'), '~');
  }

  predicate IsOperator(op: string) {
    op == "==" || op == ">=" || op == "<=" || op == "~="
  }

  /** A cut at another operator leaves this one standing. */
  lemma OtherCut(a: char, t: string, b: char)
    requires b != '=' && a != b
    ensures Before([a, '='] + t, b) == [a, '='] + Before(t, b)
  {
    BeforeKeeps([a, '='], t, b);
  }

  /** At an operator everything goes, unless '=' follows an inequality. */
  lemma CutAtOperator(op: string, t: string)
    requires IsOperator(op) && (op != "==" && t != "" ==> t[0] != '=')
    ensures Cut(op + t) == ""
  {
    var a := op[0];
    if a != '=' {
      var t1 := Before(t, '=');
      assert op + t == [a, '='] + t;
      assert ([a, '='] + t)[1..] == "=" + t && ("=" + t)[1..] == t;
      assert Before(op + t, '=') == [a] + ("=" + t1) == [a, '='] + t1;
      if a != '>' {
        OtherCut(a, t1, '>');
        if a != '<' {
          OtherCut(a, Before(t1, '>'), '<');
        }
      }
    }
  }

  lemma {:induction false} TrimLeftDrops(lead: string, s: string)
    requires Blank(lead) && s != "" && !IsSpace(s[0])
    ensures TrimLeft(lead + s) == s
  {
    if lead == "" {
      assert lead + s == s;
    } else {
      TrimLeftDrops(lead[1..], s);
      assert (lead + s)[1..] == lead[1..] + s;
    }
  }

  lemma {:induction false} TrimRightKeepsFront(q: string, t: string)
    requires q != "" && !IsSpace(q[|q| - 1])
    ensures TrimRight(q + t) == q + TrimRight(t)
    ensures TrimRight(t) <= t
    ensures Blank(t) ==> TrimRight(t) == ""
    decreases |t|
  {
    if t == "" {
      assert q + t == q;
    } else {
      TrimRightKeepsFront(q, t[..|t| - 1]);
      assert (q + t)[..|q + t| - 1] == q + t[..|t| - 1];
    }
  }

  lemma NameIsTight(written: string)
    requires ValidName(written)
    ensures NoOperator(written) && !IsSpace(written[0]) && !IsSpace(written[|written| - 1]) && written[0] != '#'
  {
    assert forall c :: IsNameChar(c) ==> !IsSpace(c) && c != '=' && c != '>' && c != '<' && c != '~' && c != '#';
  }

  lemma TrimAround(lead: string, q: string, t: string)
    requires Blank(lead) && q != "" && !IsSpace(q[0]) && !IsSpace(q[|q| - 1])
    ensures Trim(lead + (q + t)) == q + TrimRight(t)
    ensures Blank(t) ==> Trim(lead + (q + t)) == q
  {
    TrimLeftDrops(lead, q + t);
    TrimRightKeepsFront(q, t);
    assert q + "" == q;
  }

  /** What stands between a line's name and its operator does not matter. */
  lemma CutLine(written: string, pad: string, rest: string)
    requires ValidName(written) && Blank(pad) && Cut(rest) == ""
    ensures Trim(Cut(written + pad + rest)) == written
  {
    NameIsTight(written);
    assert NoOperator(written + pad) by {
      assert forall c :: IsSpace(c) ==> c != '=' && c != '>' && c != '<' && c != '~';
    }
    CutKeeps(written + pad, rest);
    TrimAround("", written, pad);
    assert "" + (written + pad) == written + pad + "" == written + pad;
  }

  /** A valid name with blanks around it, alone on its line. */
  lemma RecognisedName(lower: Lower, lead: string, written: string, pad: string, name: string)
    requires ValidName(written) && Blank(lead) && Blank(pad) && lower(written) == lower(name)
    ensures Matches(lower, lead + (written + pad), name)
  {
    NameIsTight(written);
    TrimAround(lead, written, pad);
    CutLine(written, "", "");
    assert written + "" + "" == written;
  }

  /** A valid name, in any case, with blanks around it and one of the four
      operators after it: the line is about that name. */
  lemma RecognisedRequirement(lower: Lower, lead: string, written: string, pad: string, op: string, t: string,
                              name: string)
    requires ValidName(written) && Blank(lead) && Blank(pad) && lower(written) == lower(name)
    requires IsOperator(op) && (op != "==" && t != "" ==> t[0] != '=')
    ensures Matches(lower, lead + (written + pad + op + t), name)
  {
    NameIsTight(written);
    var q, t' := written + pad + op, TrimRight(t);
    assert q[|q| - 1] == '=';
    TrimAround(lead, q, t);
    TrimRightKeepsFront(q, t);
    CutAtOperator(op, t');
    CutLine(written, pad, op + t');
    assert q + t' == written + pad + (op + t');
  }

  lemma SpecMatches(lower: Lower, name: string, version: string)
    requires ValidName(name)
    ensures Matches(lower, Spec(name, version), name)
  {
    if version == "" {
      RecognisedName(lower, "", name, "", name);
      assert "" + (name + "") == name;
    } else {
      RecognisedRequirement(lower, "", name, "", "==", version, name);
      assert "" + (name + "" + "==" + version) == name + "==" + version;
    }
  }

  // --------------------------------- which lines about a package are missed

  lemma {:induction false} BeforeIsPrefix(s: string, a: char)
    ensures Before(s, a) <= s
    ensures Before(s, a) == "" <==> s == "" || (|s| >= 2 && s[0] == a && s[1] == '=')
  {
    if |s| >= 2 && !(s[0] == a && s[1] == '=') {
      BeforeIsPrefix(s[1..], a);
      assert s == [s[0]] + s[1..];
    }
  }

  lemma CutIsPrefix(s: string)
    ensures Cut(s) <= s
  {
    var s1 := Before(s, '=');
    var s2 := Before(s1, '>');
    var s3 := Before(s2, '<');
    BeforeIsPrefix(s, '=');
    BeforeIsPrefix(s1, '>');
    BeforeIsPrefix(s2, '<');
    BeforeIsPrefix(s3, '~');
  }

  /** An inequality with another '=' behind it does not count: the cut at "=="
      comes first and leaves its first character standing. */
  predicate BeginsWithOperator(r: string) {
    |r| >= 2 && IsOperator(r[..2]) && (r[0] == '=' || |r| == 2 || r[2] != '=')
  }

  /** A cut leaves nothing exactly when there is nothing or an operator. */
  lemma CutIsEmptyIff(r: string)
    ensures Cut(r) == "" <==> r == "" || BeginsWithOperator(r)
  {
    if BeginsWithOperator(r) {
      assert r == r[..2] + r[2..];
      CutAtOperator(r[..2], r[2..]);
    } else if r != "" {
      var s1 := Before(r, '=');
      var s2 := Before(s1, '>');
      var s3 := Before(s2, '<');
      BeforeIsPrefix(r, '=');
      BeforeIsPrefix(s1, '>');
      BeforeIsPrefix(s2, '<');
      BeforeIsPrefix(s3, '~');
      if |s1| >= 2 && s1[1] == '=' {
        assert |r| == 2 || r[2] == '=' || !IsOperator(r[..2]);
        NoSecondEquals(r);
      }
    }
  }

  /** What the cut at "==" leaves does not begin with x== for any x. */
  lemma NoSecondEquals(r: string)
    requires |Before(r, '=')| >= 2 && Before(r, '=')[1] == '='
    ensures |r| == 2 || r[2] != '='
  {
    BeforeIsPrefix(r, '=');
    assert Before(r, '=') == [r[0]] + Before(r[1..], '=');
    BeforeIsPrefix(r[1..], '=');
  }

  lemma {:induction false} TrimLeftSplits(s: string) returns (pad: string)
    ensures s == pad + TrimLeft(s) && Blank(pad)
    ensures TrimLeft(s) == "" || !IsSpace(TrimLeft(s)[0])
  {
    if s != "" && IsSpace(s[0]) {
      var rest := TrimLeftSplits(s[1..]);
      pad := [s[0]] + rest;
      assert s == [s[0]] + s[1..] == [s[0]] + (rest + TrimLeft(s[1..])) == pad + TrimLeft(s[1..]);
    } else {
      pad := "";
    }
  }

  lemma TrimBoth(pad: string, q: string, t: string)
    requires Blank(pad) && q != "" && !IsSpace(q[0]) && !IsSpace(q[|q| - 1])
    ensures TrimRight(pad + (q + t)) == pad + (q + TrimRight(t))
    ensures TrimLeft(pad + (q + TrimRight(t))) == q + TrimRight(t) == TrimRight(q + t)
    ensures TrimRight(t) <= t
  {
    assert pad + (q + t) == (pad + q) + t;
    TrimRightKeepsFront(pad + q, t);
    TrimRightKeepsFront(q, t);
    assert (pad + q) + TrimRight(t) == pad + (q + TrimRight(t));
    TrimLeftDrops(pad, q + TrimRight(t));
  }

  /** Stripping a tail on the right first comes to the same. */
  lemma TrimEitherWay(s: string)
    ensures TrimLeft(TrimRight(s)) == Trim(s)
    ensures TrimRight(s) <= s
  {
    var pad := TrimLeftSplits(s);
    var r := TrimLeft(s);
    if r == "" {
      assert s == pad;
      BlankTrimsAway(s);
    } else {
      var q, t := [r[0]], r[1..];
      assert r == q + t;
      TrimBoth(pad, q, t);
    }
  }

  lemma {:induction false} BlankTrimsAway(s: string)
    requires Blank(s)
    ensures TrimRight(s) == ""
  {
    if s != "" {
      BlankTrimsAway(s[..|s| - 1]);
    }
  }

  /** What is left of a tail after cutting is blank exactly when the stripped
      tail is empty or begins with an operator. */
  lemma CutIsBlankIff(tail: string)
    ensures Blank(Cut(tail)) <==> TrimLeft(tail) == "" || BeginsWithOperator(TrimLeft(tail))
  {
    var pad := TrimLeftSplits(tail);
    var r := TrimLeft(tail);
    assert NoOperator(pad) by {
      assert forall c :: IsSpace(c) ==> c != '=' && c != '>' && c != '<' && c != '~';
    }
    CutKeeps(pad, r);
    CutIsPrefix(r);
    CutIsEmptyIff(r);
    if Cut(r) != "" {
      assert Cut(r)[0] == r[0] && (pad + Cut(r))[|pad|] == r[0];
    }
  }

  /** What lowering has to respect: names stay names, and this character is
      not lowered into one. Of Python's str.lower that holds of every character
      outside names except the Kelvin sign. */
  ghost predicate KeepsNames(lower: Lower) {
    forall s :: (forall c :: c in s ==> IsNameChar(c)) ==> (forall c :: c in lower(s) ==> IsNameChar(c))
  }

  ghost predicate Foreign(lower: Lower, c: char) {
    forall s :: c in s ==> exists d :: d in lower(s) && !IsNameChar(d)
  }

  lemma PackageOfLine(lead: string, written: string, tail: string)
    requires ValidName(written) && Blank(lead)
    ensures IsRequirement(lead + (written + tail))
    ensures ExistingPackage(lead + (written + tail)) == written + TrimRight(Cut(TrimRight(tail)))
  {
    NameIsTight(written);
    TrimAround(lead, written, tail);
    var rest := Cut(TrimRight(tail));
    CutKeeps(written, TrimRight(tail));
    TrimAround("", written, rest);
    assert "" + (written + rest) == written + rest;
  }

  lemma TrimRightIsEmptyIff(s: string)
    ensures TrimRight(s) == "" <==> Blank(s)
    ensures TrimRight(s) <= s
  {
    TrimEitherWay(s);
    if Blank(s) {
      BlankTrimsAway(s);
    } else {
      var i :| 0 <= i < |s| && !IsSpace(s[i]);
      assert s == s[..i + 1] + s[i + 1..];
      TrimRightKeepsFront(s[..i + 1], s[i + 1..]);
    }
  }

  /** Which lines that begin with a name are about the package, exactly: the
      name is a spelling of the package's, and what follows it is blank or,
      after blanks, one of the four operators. */
  lemma RecognisedIff(lower: Lower, lead: string, written: string, tail: string, name: string)
    requires KeepsNames(lower) && ValidName(name)
    requires Blank(lead) && ValidName(written) && (tail != "" ==> Foreign(lower, tail[0]))
    ensures Matches(lower, lead + (written + tail), name) <==>
      lower(written) == lower(name) && (Trim(tail) == "" || BeginsWithOperator(Trim(tail)))
  {
    PackageOfLine(lead, written, tail);
    var cut := Cut(TrimRight(tail));
    TrimEitherWay(tail);
    CutIsBlankIff(TrimRight(tail));
    CutIsPrefix(TrimRight(tail));
    TrimRightIsEmptyIff(cut);
    var rest := TrimRight(cut);
    if rest == "" {
      assert written + rest == written;
    } else {
      assert rest[0] == tail[0];
      assert (written + rest)[|written|] == tail[0];
    }
  }

  /** Lines of a package that are missed: after the blanks behind the name
      comes something that is none of the four operators. */
  predicate OtherForm(tail: string) {
    Trim(tail) != "" && !BeginsWithOperator(Trim(tail))
  }

  /** Such a line stays as it is, wherever it stands in the file, and the
      package gets a second entry. */
  lemma OtherFormsAreOtherLines(lower: Lower, lines: seq<string>, i: nat, lead: string, written: string, tail: string,
                                name: string, version: string)
    requires KeepsNames(lower) && ValidName(name)
    requires Blank(lead) && ValidName(written) && tail != "" && Foreign(lower, tail[0])
    requires OtherForm(tail)
    requires i < |lines| && lines[i] == lead + (written + tail)
    ensures var r := Rewritten(lower, lines, name, Spec(name, version));
      && i < |r| && r[i] == lines[i]
      && exists k :: 0 <= k < |r| && k != i && r[k] == Spec(name, version)
  {
    var spec := Spec(name, version);
    var r := Rewritten(lower, lines, name, spec);
    RecognisedIff(lower, lead, written, tail, name);
    ReplacedAt(lower, lines, name, spec, i);
    if AnyMatches(lower, lines, name) {
      var k :| 0 <= k < |lines| && Matches(lower, lines[k], name);
      ReplacedAt(lower, lines, name, spec, k);
      assert r[k] == spec;
    } else {
      assert r[|lines|] == spec;
    }
  }

  predicate IsOperatorStart(c: char) {
    c == '=' || c == '>' || c == '<' || c == '~'
  }

  /** Which forms these are: a strict bound, "!=", "[extra]", "; marker", a
      comment, an address, or anything else that does not begin like an
      operator or goes on without '='. */
  lemma OtherFormsAre(pad: string, c: char, t: string)
    requires Blank(pad) && !IsSpace(c)
    requires !IsOperatorStart(c) || t == "" || t[0] != '='
    ensures OtherForm(pad + ([c] + t))
  {
    var tail := [c] + t;
    TrimLeftDrops(pad, tail);
    TrimRightKeepsFront([c], t);
    var q := [c] + TrimRight(t);
    assert Trim(pad + tail) == q;
    TrimRightIsEmptyIff(t);
    if |q| >= 2 {
      assert q[..2][0] == c && q[..2][1] == t[0];
    }
  }

  /** One of them: updating requests in a file that says requests>2. */
  lemma StrictBoundGetsASecondEntry(lower: Lower, version: string)
    requires KeepsNames(lower) && Foreign(lower, '>')
    ensures var spec := Spec("requests", version);
      Rewritten(lower, ["requests>2"], "requests", spec) == ["requests>2", spec]
  {
    var line := "requests>2";
    OtherFormsAre("", '>', "2");
    assert "" + (['>'] + "2") == ">2" && "" + ("requests" + ">2") == line;
    RecognisedIff(lower, "", "requests", ">2", "requests");
    assert Replaced(lower, [line][..0], "requests", Spec("requests", version)) == [];
  }

  // ------------------------------------------------- what the rewriting keeps

  /** The lines about other things, in order: other packages, comments,
      blanks. */
  function Others(lower: Lower, lines: seq<string>, name: string): seq<string> {
    if lines == [] then []
    else
      var n := |lines| - 1;
      Others(lower, lines[..n], name) + if Matches(lower, lines[n], name) then [] else [lines[n]]
  }

  function Count(lower: Lower, lines: seq<string>, name: string): nat {
    if lines == [] then 0
    else
      var n := |lines| - 1;
      Count(lower, lines[..n], name) + if Matches(lower, lines[n], name) then 1 else 0
  }

  lemma {:induction false} ReplacedAt(lower: Lower, lines: seq<string>, name: string, spec: string, i: nat)
    requires i < |lines|
    ensures Replaced(lower, lines, name, spec)[i] == if Matches(lower, lines[i], name) then spec else lines[i]
  {
    var n := |lines| - 1;
    if i < n {
      ReplacedAt(lower, lines[..n], name, spec, i);
    }
  }

  lemma {:induction false} ReplacedKeeps(lower: Lower, lines: seq<string>, name: string, spec: string)
    requires Matches(lower, spec, name)
    ensures var r := Replaced(lower, lines, name, spec);
      && Others(lower, r, name) == Others(lower, lines, name)
      && Count(lower, r, name) == Count(lower, lines, name)
      && Replaced(lower, r, name, spec) == r
  {
    if lines != [] {
      var n := |lines| - 1;
      ReplacedKeeps(lower, lines[..n], name, spec);
      var r := Replaced(lower, lines, name, spec);
      assert r[..n] == Replaced(lower, lines[..n], name, spec);
    }
  }

  lemma {:induction false} CountIsPositiveIff(lower: Lower, lines: seq<string>, name: string)
    ensures Count(lower, lines, name) > 0 <==> AnyMatches(lower, lines, name)
  {
    if lines != [] {
      var n := |lines| - 1;
      CountIsPositiveIff(lower, lines[..n], name);
      assert forall i :: 0 <= i < n ==> lines[..n][i] == lines[i];
    }
  }

  /** Comments and blank lines are about no package. */
  lemma CommentsAndBlanksStay(lower: Lower, lines: seq<string>, i: nat, lead: string, rest: string,
                              name: string, spec: string)
    requires i < |lines| && Blank(lead) && lines[i] == lead + rest && (rest == "" || rest[0] == '#')
    ensures Rewritten(lower, lines, name, spec)[i] == lines[i]
  {
    ReplacedAt(lower, lines, name, spec, i);
    if rest == "" {
      BlankTrimsAway(lead);
      TrimEitherWay(lead);
      assert lines[i] == lead;
    } else {
      assert rest == [rest[0]] + rest[1..];
      TrimLeftDrops(lead, rest);
      TrimRightKeepsFront([rest[0]], rest[1..]);
    }
  }

  /** What one rewriting does to the lines. */
  lemma RewrittenLines(lower: Lower, lines: seq<string>, name: string, version: string)
    requires ValidName(name)
    ensures var spec := if version == "" then name else name + "==" + version;
      var r := Rewritten(lower, lines, name, spec);
      && Others(lower, r, name) == Others(lower, lines, name)
      && Count(lower, r, name) == (if Count(lower, lines, name) > 0 then Count(lower, lines, name) else 1)
      && (forall i :: 0 <= i < |r| && Matches(lower, r[i], name) ==> r[i] == spec)
      && Rewritten(lower, r, name, spec) == r
  {
    var spec := Spec(name, version);
    var q := Replaced(lower, lines, name, spec);
    var r := Rewritten(lower, lines, name, spec);
    SpecMatches(lower, name, version);
    ReplacedKeeps(lower, lines, name, spec);
    ReplacedKeeps(lower, r, name, spec);
    CountIsPositiveIff(lower, lines, name);
    CountIsPositiveIff(lower, r, name);
    forall i | 0 <= i < |r| && Matches(lower, r[i], name) ensures r[i] == spec {
      if i < |lines| {
        ReplacedAt(lower, lines, name, spec, i);
      }
    }
    if AnyMatches(lower, lines, name) {
      assert r == q;
    } else {
      assert r == q + [spec] && r[..|r| - 1] == q;
    }
  }

  /** The written file's lines are the rewritten lines, each ended by a newline. */
  lemma AppendedLines(lower: Lower, file: Option<string>, name: string, version: string)
    requires ValidName(name) && NoBreak(version)
    ensures var spec := if version == "" then name else name + "==" + version;
      var lines := if file.Some? then SplitLines(ReadText(file.value)) else [];
      && Appended(lower, file, name, version) == Unlines(Rewritten(lower, lines, name, spec))
      && SplitLines(ReadText(Appended(lower, file, name, version))) == Rewritten(lower, lines, name, spec)
  {
    var spec := Spec(name, version);
    var lines := if file.Some? then SplitLines(ReadText(file.value)) else [];
    var r := Rewritten(lower, lines, name, spec);
    if file.Some? {
      SplitLinesFree(ReadText(file.value));
    }
    RewrittenHasNoBreaks(lower, lines, name, version);
    assert r != [] by {
      assert lines == [] ==> !AnyMatches(lower, lines, name);
    }
    UnlinesIsJoin(r);
    assert Appended(lower, file, name, version) == Unlines(r) by {
      if file.None? {
        assert Replaced(lower, lines, name, spec) == [] && r == [spec];
        assert Join(r, '\n') == spec;
      }
    }
    UnlinesHasNoReturn(r);
    ReadTextFixes(Unlines(r));
    SplitOfUnlines(r);
  }

  /** Running it again with the same package and version leaves the file's
      text as it is, whatever the file was before. */
  lemma AppendIsIdempotent(lower: Lower, file: Option<string>, name: string, version: string)
    requires ValidName(name) && NoBreak(version)
    ensures var once := Appended(lower, file, name, version);
      Appended(lower, Some(once), name, version) == once
  {
    var lines := if file.Some? then SplitLines(ReadText(file.value)) else [];
    AppendedLines(lower, file, name, version);
    RewrittenLines(lower, lines, name, version);
    if file.None? {
      assert Replaced(lower, lines, name, Spec(name, version)) == [];
    }
  }

  lemma RewrittenHasNoBreaks(lower: Lower, lines: seq<string>, name: string, version: string)
    requires ValidName(name) && NoBreak(version) && NoBreaks(lines)
    ensures NoBreaks(Rewritten(lower, lines, name, Spec(name, version)))
  {
    var spec := Spec(name, version);
    assert NoBreak(spec);
    forall i | 0 <= i < |lines| ensures NoBreak(Replaced(lower, lines, name, spec)[i]) {
      ReplacedAt(lower, lines, name, spec, i);
    }
  }
}
