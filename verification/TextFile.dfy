/** Text files as the program reads and rewrites them, line by line. */
module TextFiles {
  import opened SnapResult

  /** The first position of a character, or the length of the text. */
  function IndexOf(text: string, c: char): (k: nat)
    ensures k <= |text|
    ensures k < |text| ==> text[k] == c
    ensures forall i :: 0 <= i < k ==> text[i] != c
  {
    if text == "" || text[0] == c then 0 else 1 + IndexOf(text[1..], c)
  }

  function LineEnd(text: string): (k: nat)
    ensures k <= |text|
    ensures k < |text| ==> text[k] == '\n'
    ensures forall i :: 0 <= i < k ==> text[i] != '\n'
  {
    IndexOf(text, '\n')
  }

  function AfterLine(text: string): string {
    if LineEnd(text) < |text| then text[LineEnd(text) + 1..] else ""
  }

  /** The lines getline gives: a last line without a newline counts, nothing after the last newline does not. */
  function Lines(text: string): seq<string>
    decreases |text|
  {
    if text == "" then [] else [text[..LineEnd(text)]] + Lines(AfterLine(text))
  }

  /** The lines that end with a newline. */
  function Terminated(text: string): seq<string>
    decreases |text|
  {
    if LineEnd(text) == |text| then [] else [text[..LineEnd(text)]] + Terminated(AfterLine(text))
  }

  function Unlines(lines: seq<string>): string {
    if lines == [] then "" else lines[0] + "\n" + Unlines(lines[1..])
  }

  /** get_line: the empty string beyond the end of the file. */
  function LineAt(lines: seq<string>, n: nat): string {
    if n < |lines| then lines[n] else ""
  }

  function AddedLine(text: string, line: string): string { text + line + "\n" }

  /** replace_line, for a line that exists and is not empty: everything is copied but an unterminated last line. */
  function ReplacedLine(text: string, n: nat, line: string): string
    requires n < |Lines(text)|
  {
    var terminated := Terminated(text);
    Unlines(Lines(text)[..n]) + line + "\n" + (if n < |terminated| then Unlines(terminated[n + 1..]) else "")
  }

  predicate OneLine(s: string) { '\n' !in s }

  predicate AllOneLine(lines: seq<string>) { forall l :: l in lines ==> OneLine(l) }

  predicate Complete(text: string) { text == "" || text[|text| - 1] == '\n' }

  // ---------- lines and text ----------

  lemma LineEndConcat(line: string, rest: string)
    requires OneLine(line)
    ensures LineEnd(line + "\n" + rest) == |line| && AfterLine(line + "\n" + rest) == rest
    ensures (line + "\n" + rest)[..|line|] == line
  {
    var t := line + "\n" + rest;
    assert t[|line|] == '\n';
    assert forall i :: 0 <= i < |line| ==> t[i] == line[i];
    assert t[|line| + 1..] == rest;
  }

  lemma SplitText(text: string)
    ensures LineEnd(text) < |text| ==> text == text[..LineEnd(text)] + "\n" + AfterLine(text)
    ensures LineEnd(text) == |text| ==> OneLine(text) && text[..LineEnd(text)] == text
    ensures OneLine(text[..LineEnd(text)])
  {
    hide LineEnd, OneLine;
    var k := LineEnd(text);
    NoNewline(text, k);
    if k < |text| {
      CutAt(text, k);
    } else {
      assert text[..k] == text;
    }
  }

  lemma CutAt(text: string, k: nat)
    requires k < |text| && text[k] == '\n'
    ensures text == text[..k] + "\n" + text[k + 1..]
  {
  }

  lemma NoNewline(text: string, k: nat)
    requires k <= |text| && forall i :: 0 <= i < k ==> text[i] != '\n'
    ensures OneLine(text[..k])
  {
  }

  /** Splitting into lines undoes joining lines. */
  lemma {:induction false} LinesOfUnlines(lines: seq<string>)
    requires AllOneLine(lines)
    ensures Lines(Unlines(lines)) == lines && Terminated(Unlines(lines)) == lines
  {
    hide LineEnd, AfterLine;
    if lines != [] {
      LinesOfUnlines(lines[1..]);
      LineEndConcat(lines[0], Unlines(lines[1..]));
    } else {
      NoText();
    }
  }

  lemma NoText()
    ensures LineEnd("") == 0
  {
  }

  /** Joining undoes splitting exactly for texts that end with a newline. */
  lemma {:induction false} UnlinesOfLines(text: string)
    ensures Unlines(Lines(text)) == if Complete(text) then text else text + "\n"
    decreases |text|
  {
    if text != "" {
      FirstLine(text);
      var line, rest := text[..LineEnd(text)], AfterLine(text);
      hide LineEnd, AfterLine, Unlines;
      if LineEnd(text) < |text| {
        UnlinesOfLines(rest);
        UnlinesCons(line, Lines(rest));
        CompleteAfter(line, rest);
      } else {
        LastLine(text);
        UnlinesCons(text, []);
      }
    }
  }

  lemma FirstLine(text: string)
    requires text != ""
    ensures Lines(text) == [text[..LineEnd(text)]] + Lines(AfterLine(text))
    ensures Terminated(text) ==
            if LineEnd(text) < |text| then [text[..LineEnd(text)]] + Terminated(AfterLine(text)) else []
    ensures LineEnd(text) < |text| ==> |AfterLine(text)| < |text|
    ensures LineEnd(text) < |text| ==> text == text[..LineEnd(text)] + "\n" + AfterLine(text)
    ensures OneLine(text[..LineEnd(text)])
  {
    hide LineEnd;
    SplitText(text);
  }

  lemma UnlinesCons(line: string, lines: seq<string>)
    ensures Unlines([line] + lines) == line + "\n" + Unlines(lines) && Unlines([]) == ""
  {
    assert ([line] + lines)[1..] == lines;
  }

  lemma CompleteAfter(line: string, rest: string)
    ensures Complete(line + "\n" + rest) <==> Complete(rest)
    ensures line + "\n" + (rest + "\n") == line + "\n" + rest + "\n"
  {
  }

  lemma LastLine(text: string)
    requires text != "" && LineEnd(text) == |text|
    ensures Lines(text) == [text] + [] && Terminated(text) == [] && OneLine(text) && !Complete(text)
  {
    SplitText(text);
    assert AfterLine(text) == "";
    hide LineEnd;
    assert Lines("") == [];
  }

  /** All lines, or all but the last. */
  predicate AllButLast(front: seq<string>, lines: seq<string>, all: bool) {
    if all then front == lines else lines != [] && front == lines[..|lines| - 1]
  }

  lemma AllButLastCons(line: string, front: seq<string>, lines: seq<string>, all: bool)
    requires AllButLast(front, lines, all)
    ensures AllButLast([line] + front, [line] + lines, all)
  {
  }

  lemma AllOneLineCons(line: string, lines: seq<string>)
    ensures AllOneLine([line] + lines) <==> OneLine(line) && AllOneLine(lines)
  {
    hide OneLine;
    assert ([line] + lines)[0] == line;
    assert forall k :: 0 <= k < |lines| ==> ([line] + lines)[k + 1] == lines[k];
  }

  /** All lines but an unterminated last one are terminated. */
  lemma {:induction false} TerminatedLines(text: string)
    ensures AllOneLine(Lines(text)) && AllButLast(Terminated(text), Lines(text), Complete(text))
    decreases |text|
  {
    if text == "" {
      NoText();
    } else {
      FirstLine(text);
      var line, rest := text[..LineEnd(text)], AfterLine(text);
      hide LineEnd, AfterLine, Lines, Terminated, OneLine, AllOneLine, Complete, AllButLast;
      if LineEnd(text) < |text| {
        TerminatedLines(rest);
        CompleteAfter(line, rest);
        AllOneLineCons(line, Lines(rest));
        AllButLastCons(line, Terminated(rest), Lines(rest), Complete(rest));
      } else {
        LastLineOnly(text);
      }
    }
  }

  lemma LastLineOnly(text: string)
    requires text != "" && LineEnd(text) == |text|
    ensures AllOneLine(Lines(text)) && AllButLast(Terminated(text), Lines(text), Complete(text))
  {
    LastLine(text);
    hide Lines, LineEnd, Terminated, OneLine;
    assert ([text] + [])[..0] == [];
  }

  lemma {:induction false} UnlinesConcat(a: seq<string>, b: seq<string>)
    ensures Unlines(a + b) == Unlines(a) + Unlines(b)
  {
    if a == [] {
      assert a + b == b;
    } else {
      assert (a + b)[1..] == a[1..] + b;
      UnlinesConcat(a[1..], b);
      assert a[0] + "\n" + (Unlines(a[1..]) + Unlines(b)) == a[0] + "\n" + Unlines(a[1..]) + Unlines(b);
    }
  }

  lemma UnlinesOne(line: string)
    ensures Unlines([line]) == line + "\n"
  {
  }

  /** An unterminated text is its terminated lines and then its last line. */
  lemma TextOfIncomplete(text: string)
    requires !Complete(text)
    ensures Lines(text) != []
    ensures text == Unlines(Lines(text)[..|Lines(text)| - 1]) + Lines(text)[|Lines(text)| - 1]
  {
    hide Unlines, Lines, Terminated;
    UnlinesOfLines(text);
    TerminatedLines(text);
    var n := |Lines(text)| - 1;
    var front, last := Lines(text)[..n], Lines(text)[n];
    assert Lines(text) == front + [last];
    UnlinesConcat(front, [last]);
    UnlinesOne(last);
    assert text + "\n" == (Unlines(front) + last) + "\n";
    DropNewline(text, Unlines(front) + last);
  }

  lemma DropNewline(a: string, b: string)
    requires a + "\n" == b + "\n"
    ensures a == b
  {
    assert (a + "\n")[..|a|] == a;
    assert (b + "\n")[..|b|] == b;
  }

  /** Appending a line appends to the lines of the file exactly if the file is empty or ends with a newline. */
  lemma AddLineAppends(text: string, line: string)
    requires OneLine(line)
    ensures Lines(AddedLine(text, line)) == Lines(text) + [line] <==> Complete(text)
  {
    hide Unlines, Lines, OneLine, AllOneLine, Complete, Terminated, AllButLast;
    var lines := Lines(text);
    TerminatedLines(text);
    if Complete(text) {
      UnlinesOfLines(text);
      AppendLine(lines, line);
      AllOneLineSnoc(lines, line);
      LinesOfUnlines(lines + [line]);
    } else {
      AddLineContinues(text, line);
    }
  }

  /** A line added to an incomplete text continues its last line. */
  lemma AddLineContinues(text: string, line: string)
    requires OneLine(line) && !Complete(text)
    ensures Lines(text) != []
    ensures var last := |Lines(text)| - 1;
            Lines(AddedLine(text, line)) == Lines(text)[last := Lines(text)[last] + line]
  {
    hide Unlines, Lines, OneLine, AllOneLine, Complete, Terminated, AllButLast;
    TerminatedLines(text);
    TextOfIncomplete(text);
    var lines := Lines(text);
    var front, last := lines[..|lines| - 1], lines[|lines| - 1];
    assert lines == front + [last] && lines[|lines| - 1 := last + line] == front + [last + line];
    AllOneLineSnoc(front, last);
    OneLineConcat(last, line);
    AllOneLineSnoc(front, last + line);
    AppendLine(front, last + line);
    assert AddedLine(text, line) == Unlines(front) + (last + line) + "\n";
    LinesOfUnlines(front + [last + line]);
  }

  lemma OneLineConcat(a: string, b: string)
    ensures OneLine(a + b) <==> OneLine(a) && OneLine(b)
  {
  }

  lemma AllOneLineSnoc(lines: seq<string>, line: string)
    ensures AllOneLine(lines + [line]) <==> AllOneLine(lines) && OneLine(line)
  {
    hide OneLine;
    assert (lines + [line])[|lines|] == line;
    assert forall k :: 0 <= k < |lines| ==> (lines + [line])[k] == lines[k];
  }

  lemma AppendLine(lines: seq<string>, line: string)
    ensures Unlines(lines + [line]) == Unlines(lines) + line + "\n"
  {
    hide Unlines;
    UnlinesConcat(lines, [line]);
    UnlinesOne(line);
  }

  /** Replacing a line changes just this line of the file exactly if no unterminated line follows it. */
  lemma ReplaceLineUpdates(text: string, n: nat, line: string)
    requires OneLine(line) && n < |Lines(text)|
    ensures Lines(ReplacedLine(text, n, line)) == Lines(text)[n := line] <==>
            Complete(text) || n == |Lines(text)| - 1
  {
    hide Unlines, Lines, Terminated, OneLine, Complete;
    var lines, terminated := Lines(text), Terminated(text);
    TerminatedLines(text);
    var rest := if n < |terminated| then terminated[n + 1..] else [];
    NoLines();
    var all := lines[..n] + [line] + rest;
    UnlinesConcat(lines[..n] + [line], rest);
    AppendLine(lines[..n], line);
    LinesOfUnlines(all);
    assert ReplacedLine(text, n, line) == Unlines(all);
    if Complete(text) || n == |lines| - 1 {
      assert all == lines[n := line];
    } else {
      assert |all| == |lines| - 1;
    }
  }

  lemma NoLines()
    ensures Unlines([]) == ""
  {
  }

  // ---------- the file object ----------

  /** getline on the text that is left of a file that is not at its end. */
  method GetLineOf(rest: string) returns (line: string, after: string, eof: bool)
    ensures line == rest[..LineEnd(rest)] && after == AfterLine(rest) && eof == (LineEnd(rest) == |rest|)
  {
    hide LineEnd;
    var k := 0;
    while k < |rest| && rest[k] != '\n'
      invariant 0 <= k <= |rest| && k <= LineEnd(rest)
    {
      k := k + 1;
    }
    line, eof := rest[..k], k == |rest|;
    after := if eof then "" else rest[k + 1..];
  }

  class TextFile {
    var text: string

    constructor (text: string)
      ensures this.text == text
    {
      this.text := text;
    }

    method GetLine(n: nat) returns (line: string)
      ensures line == LineAt(Lines(text), n)
    {
      var rest, current := text, 0;
      while rest != ""
        invariant current <= n && LineAt(Lines(text), n) == LineAt(Lines(rest), n - current)
        decreases |rest|
      {
        FirstLine(rest);
        var eof;
        line, rest, eof := GetLineOf(rest);
        if current == n {
          return;
        }
        current := current + 1;
      }
      return "";
    }

    /** For one line, a complete file gets it as its new last line, and stays complete; what an incomplete file ended
        with is continued. */
    method AddLine(line: string)
      modifies this
      ensures text == AddedLine(old(text), line) && Complete(text)
      ensures OneLine(line) ==> (Lines(text) == Lines(old(text)) + [line] <==> Complete(old(text)))
      ensures OneLine(line) && !Complete(old(text)) ==>
                Lines(old(text)) != [] &&
                var last := |Lines(old(text))| - 1;
                Lines(text) == Lines(old(text))[last := Lines(old(text))[last] + line]
    {
      hide Lines, Unlines, OneLine;
      if OneLine(line) {
        AddLineAppends(text, line);
        if !Complete(text) {
          AddLineContinues(text, line);
        }
      }
      text := text + line + "\n";
    }

    method ReplaceLine(n: nat, newLine: string) returns (r: Result<()>)
      modifies this
      ensures r == if LineAt(Lines(old(text)), n) == "" then Err(NoSuchLine) else Ok(())
      ensures text == if r.Ok? then ReplacedLine(old(text), n, newLine) else old(text)
    {
      hide Lines, Terminated, Unlines, LineEnd, AfterLine, CopiedTo;
      var line := GetLine(n);
      if line == "" {
        return Err(NoSuchLine);
      }
      var out, rest := "", text;
      CopyStarts(text);
      var i, eof := 0, false;
      while i < n
        invariant text == old(text) && i <= n < |Lines(text)| && CopiedTo(text, i, out, rest)
      {
        CopyStep(text, i, out, rest);
        line, rest, eof := GetLineOf(rest);
        out := out + (line + "\n");
        i := i + 1;
      }
      CopyStep(text, n, out, rest);
      ghost var head, before := out, rest;
      line, rest, eof := GetLineOf(rest);
      out := out + (newLine + "\n");
      RestAfter(text, n, head, before, head + (line + "\n"), newLine, rest);
      ghost var goal := ReplacedLine(text, n, newLine);
      while true
        invariant goal == out + Unlines(Terminated(rest))
        decreases |rest|
      {
        TailStep(rest, out);
        line, rest, eof := GetLineOf(rest);
        if eof {
          break;
        }
        out := out + (line + "\n");
      }
      text := out;
      return Ok(());
    }
  }

  /** The first i lines are copied, and `rest` is what is left. */
  ghost predicate CopiedTo(text: string, i: nat, out: string, rest: string) {
    && i <= |Lines(text)| && out == Unlines(Lines(text)[..i]) && Lines(rest) == Lines(text)[i..]
    && Terminated(rest) == if i <= |Terminated(text)| then Terminated(text)[i..] else []
  }

  lemma CopyStarts(text: string)
    ensures CopiedTo(text, 0, "", text)
  {
  }

  lemma CopyStep(text: string, i: nat, out: string, rest: string)
    requires CopiedTo(text, i, out, rest) && i < |Lines(text)|
    ensures CopiedTo(text, i + 1, out + (rest[..LineEnd(rest)] + "\n"), AfterLine(rest))
  {
    hide Unlines, LineEnd, Lines, Terminated;
    NoLine();
    FirstLine(rest);
    var lines, line := Lines(text), rest[..LineEnd(rest)];
    assert lines[i..][1..] == lines[i + 1..] && lines[i] == line;
    assert lines[..i + 1] == lines[..i] + [line];
    AppendLine(lines[..i], line);
    assert out + (line + "\n") == out + line + "\n";
    if LineEnd(rest) < |rest| {
      assert Terminated(rest)[1..] == Terminated(AfterLine(rest));
    }
  }

  lemma NoLine()
    ensures Lines("") == [] && Terminated("") == []
  {
  }

  lemma RestAfter(text: string, n: nat, head: string, before: string, copied: string, line: string, rest: string)
    requires n < |Lines(text)| && CopiedTo(text, n, head, before) && CopiedTo(text, n + 1, copied, rest)
    ensures ReplacedLine(text, n, line) == head + (line + "\n") + Unlines(Terminated(rest))
  {
    hide Unlines, Lines, Terminated;
    NoLines();
    assert head + line + "\n" == head + (line + "\n");
  }

  lemma TailStep(rest: string, out: string)
    ensures LineEnd(rest) == |rest| ==> out + Unlines(Terminated(rest)) == out
    ensures LineEnd(rest) < |rest| ==>
              |AfterLine(rest)| < |rest| &&
              out + Unlines(Terminated(rest)) ==
              out + (rest[..LineEnd(rest)] + "\n") + Unlines(Terminated(AfterLine(rest)))
  {
    hide Unlines, LineEnd, Lines;
    NoLines();
    if LineEnd(rest) < |rest| {
      FirstLine(rest);
      UnlinesCons(rest[..LineEnd(rest)], Terminated(AfterLine(rest)));
    }
  }
}
