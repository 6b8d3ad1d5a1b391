/**
 The line streamer of multirun: one child output channel is scanned line by
 line and every line is written out decorated with its instance's colour and
 prefix, followed by the reset code and a newline.
 */
module Streaming {
  import opened Decimal
  import opened Labels

  predicate NoNewline(s: string) {
    forall i :: 0 <= i < |s| ==> s[i] != '\n'
  }

  /** The index of the first newline of `s`, or `|s|` when there is none. */
  function NewlineIndex(s: string): (k: nat)
    ensures k <= |s|
    ensures k < |s| ==> s[k] == '\n'
  {
    if s == [] || s[0] == '\n' then 0 else 1 + NewlineIndex(s[1..])
  }

  /** No newline comes before the index: it is the first one. */
  lemma {:induction false} NewlineIndexFirst(s: string)
    ensures forall j :: 0 <= j < NewlineIndex(s) ==> s[j] != '\n'
    decreases |s|
  {
    if s != [] && s[0] != '\n' {
      NewlineIndexFirst(s[1..]);
      forall j | 0 < j < NewlineIndex(s) ensures s[j] != '\n' {
        assert s[j] == s[1..][j - 1];
      }
    }
  }

  /**
   The lines a line scanner yields for the text `s`: every newline ends a line
   (and is dropped), and a non-empty fragment after the last newline is a line
   of its own.
   */
  function SplitLines(s: string): seq<string>
    decreases |s|
  {
    if s == [] then []
    else if NewlineIndex(s) == |s| then [s]
    else [s[..NewlineIndex(s)]] + SplitLines(s[NewlineIndex(s) + 1..])
  }

  /** The scanned lines hold no newline. */
  lemma {:induction false} SplitLinesNoNewline(s: string)
    ensures forall i :: 0 <= i < |SplitLines(s)| ==> NoNewline(SplitLines(s)[i])
    decreases |s|
  {
    if s != [] {
      var k := NewlineIndex(s);
      NewlineIndexFirst(s);
      assert NoNewline(s[..k]) by {
        forall j | 0 <= j < k ensures s[..k][j] != '\n' {
          assert s[..k][j] == s[j];
        }
      }
      if k < |s| {
        SplitLinesNoNewline(s[k + 1..]);
      }
    }
  }

  /** Every line followed by a newline: what writing the lines one per call produces. */
  function JoinLines(lines: seq<string>): string
  {
    if lines == [] then [] else lines[0] + "\n" + JoinLines(lines[1..])
  }

  /** Splitting undoes joining, for lines that hold no newline themselves. */
  lemma {:induction false} SplitJoin(lines: seq<string>)
    requires forall i :: 0 <= i < |lines| ==> NoNewline(lines[i])
    ensures SplitLines(JoinLines(lines)) == lines
  {
    if lines != [] {
      var s := JoinLines(lines);
      var rest := JoinLines(lines[1..]);
      assert s == lines[0] + "\n" + rest;
      NewlineAfter(lines[0], rest);
      assert s[..|lines[0]|] == lines[0];
      assert s[|lines[0]| + 1..] == rest;
      SplitJoin(lines[1..]);
    }
  }

  lemma NewlineAfter(line: string, rest: string)
    requires NoNewline(line)
    ensures NewlineIndex(line + "\n" + rest) == |line|
  {
    var s := line + "\n" + rest;
    NewlineIndexFirst(s);
    assert s[|line|] == '\n';
    forall j | 0 <= j < |line| ensures s[j] != '\n' {
      assert s[j] == line[j];
    }
  }

  /**
   Joining undoes splitting, except that a final line without its newline
   gets one.
   */
  lemma {:induction false} JoinSplit(s: string)
    ensures JoinLines(SplitLines(s)) == if s == [] || s[|s| - 1] == '\n' then s else s + "\n"
    decreases |s|
  {
    if s != [] {
      var k := NewlineIndex(s);
      if k == |s| {
        JoinSplitLast(s);
      } else {
        var rest := s[k + 1..];
        JoinSplitFirst(s, k);
        CutAtNewline(s, k);
        JoinSplit(rest);
        if rest != [] {
          assert s[|s| - 1] == rest[|rest| - 1];
        }
      }
    }
  }

  /** A text without a newline is one line, and joining adds its newline. */
  lemma JoinSplitLast(s: string)
    requires s != [] && NewlineIndex(s) == |s|
    ensures JoinLines(SplitLines(s)) == s + "\n"
    ensures s[|s| - 1] != '\n'
  {
    NewlineIndexFirst(s);
    assert SplitLines(s) == [s];
    assert JoinLines([s]) == s + "\n" + JoinLines([]);
  }

  /** A text whose first newline is at `k`: the first line, its newline, then the rest joined. */
  lemma JoinSplitFirst(s: string, k: nat)
    requires s != [] && k == NewlineIndex(s) && k < |s|
    ensures JoinLines(SplitLines(s)) == s[..k] + "\n" + JoinLines(SplitLines(s[k + 1..]))
  {
    NewlineIndexFirst(s);
    SplitLinesStep(s, 0, k);
    assert s[0..] == s && s[0..k] == s[..k];
    JoinLinesCons(s[..k], SplitLines(s[k + 1..]));
  }

  /** A text is cut at a newline into what precedes it, the newline, and what follows. */
  lemma CutAtNewline(s: string, k: nat)
    requires k < |s| && s[k] == '\n'
    ensures s == s[..k] + "\n" + s[k + 1..]
  {
    assert s == s[..k] + [s[k]] + s[k + 1..];
  }

  lemma JoinLinesCons(line: string, rest: seq<string>)
    ensures JoinLines([line] + rest) == line + "\n" + JoinLines(rest)
  {
    assert ([line] + rest)[1..] == rest;
  }

  /** One output line (without its terminator): colour, prefix, a space, the line, the reset code. */
  function Decorated(tag: Label, line: string): string
  {
    tag.color + tag.prefix + " " + line + Reset
  }

  function DecorateAll(tag: Label, lines: seq<string>): seq<string>
  {
    seq(|lines|, i requires 0 <= i < |lines| => Decorated(tag, lines[i]))
  }

  /** Everything the streamer writes for the whole text `input`. */
  function StreamText(tag: Label, input: string): string
  {
    JoinLines(DecorateAll(tag, SplitLines(input)))
  }

  /** The first line of `s[pos..]` ends at `end` (a newline, or the end of `s`). */
  lemma SplitLinesStep(s: string, pos: nat, end: nat)
    requires pos < |s| && pos <= end <= |s|
    requires end < |s| ==> s[end] == '\n'
    requires forall j :: pos <= j < end ==> s[j] != '\n'
    ensures end < |s| ==> SplitLines(s[pos..]) == [s[pos..end]] + SplitLines(s[end + 1..])
    ensures end == |s| ==> SplitLines(s[pos..]) == [s[pos..end]]
  {
    var t := s[pos..];
    var k := NewlineIndex(t);
    NewlineIndexFirst(t);
    assert end < |s| ==> t[end - pos] == '\n';
    forall j | 0 <= j < end - pos ensures t[j] != '\n' {
      assert t[j] == s[pos + j];
    }
    assert k == end - pos;
    if end == |s| {
      assert t == s[pos..end];
    } else {
      assert t[..k] == s[pos..end];
      assert t[k + 1..] == s[end + 1..];
    }
  }

  lemma StreamTextStep(tag: Label, line: string, rest: seq<string>)
    ensures JoinLines(DecorateAll(tag, [line] + rest))
         == Decorated(tag, line) + "\n" + JoinLines(DecorateAll(tag, rest))
  {
    var all := DecorateAll(tag, [line] + rest);
    assert all[1..] == DecorateAll(tag, rest);
  }

  /** What the streamer writes for `s[pos..]` is its first line, decorated, then the rest after `next`. */
  lemma StreamFirstLine(tag: Label, s: string, pos: nat, end: nat, next: nat)
    requires pos < |s| && pos <= end <= |s|
    requires end < |s| ==> s[end] == '\n'
    requires forall j :: pos <= j < end ==> s[j] != '\n'
    requires next == if end < |s| then end + 1 else end
    ensures StreamText(tag, s[pos..]) == Decorated(tag, s[pos..end]) + "\n" + StreamText(tag, s[next..])
  {
    SplitLinesStep(s, pos, end);
    if end == |s| {
      assert s[next..] == [];
      assert SplitLines(s[next..]) == [];
      assert [s[pos..end]] + [] == [s[pos..end]];
    }
    assert SplitLines(s[pos..]) == [s[pos..end]] + SplitLines(s[next..]);
    StreamTextStep(tag, s[pos..end], SplitLines(s[next..]));
  }

  lemma AppendLine(out: string, line: string, rest: string)
    ensures out + (line + "\n" + rest) == (out + line + "\n") + rest
  {
  }

  /**
   `streamOutput`: scans `input` line by line and writes, per line and in
   order, the decorated line and a newline. `out` is what the writer receives.
   */
  method StreamOutput(tag: Label, input: string) returns (out: string)
    ensures out == StreamText(tag, input)
  {
    out := "";
    var pos := 0;
    while pos < |input|
      invariant 0 <= pos <= |input|
      invariant StreamText(tag, input) == out + StreamText(tag, input[pos..])
      decreases |input| - pos
    {
      var end := pos;
      while end < |input| && input[end] != '\n'
        invariant pos <= end <= |input|
        invariant forall j :: pos <= j < end ==> input[j] != '\n'
      {
        end := end + 1;
      }
      var line := input[pos..end];
      var next := if end < |input| then end + 1 else end;
      StreamFirstLine(tag, input, pos, end, next);
      AppendLine(out, Decorated(tag, line), StreamText(tag, input[next..]));
      out := out + Decorated(tag, line) + "\n";
      pos := next;
    }
    assert input[pos..] == [];
  }

  /**
   The written text, split back into lines, is exactly one decorated line per
   input line, in input order, each ending with the reset code.
   */
  lemma StreamLines(tag: Label, input: string)
    requires NoNewline(tag.color) && NoNewline(tag.prefix)
    ensures SplitLines(StreamText(tag, input)) == DecorateAll(tag, SplitLines(input))
    ensures |SplitLines(StreamText(tag, input))| == |SplitLines(input)|
  {
    var decorated := DecorateAll(tag, SplitLines(input));
    SplitLinesNoNewline(input);
    forall i | 0 <= i < |decorated| ensures NoNewline(decorated[i]) {
      var line := SplitLines(input)[i];
      assert decorated[i] == tag.color + tag.prefix + " " + line + Reset;
      assert NoNewline(Reset);
      assert NoNewline(" ");
      NoNewlineConcat(tag.color, tag.prefix);
      NoNewlineConcat(tag.color + tag.prefix, " ");
      NoNewlineConcat(tag.color + tag.prefix + " ", line);
      NoNewlineConcat(tag.color + tag.prefix + " " + line, Reset);
    }
    SplitJoin(decorated);
  }

  lemma NoNewlineConcat(a: string, b: string)
    requires NoNewline(a) && NoNewline(b)
    ensures NoNewline(a + b)
  {
    forall i | 0 <= i < |a + b| ensures (a + b)[i] != '\n' {
      if i >= |a| {
        assert (a + b)[i] == b[i - |a|];
      }
    }
  }

  /** Replacing placeholders by a newline-free id keeps a newline-free template free of newlines. */
  lemma {:induction false} ReplaceNoNewline(s: string, idStr: string)
    requires NoNewline(s) && NoNewline(idStr)
    ensures NoNewline(ReplacePlaceholder(s, idStr))
    decreases |s|
  {
    if PlaceholderAt(s, 0) {
      var rest := s[|Placeholder|..];
      assert NoNewline(rest) by {
        forall j | 0 <= j < |rest| ensures rest[j] != '\n' {
          assert rest[j] == s[j + |Placeholder|];
        }
      }
      ReplaceNoNewline(rest, idStr);
      NoNewlineConcat(idStr, ReplacePlaceholder(rest, idStr));
    } else if s != [] {
      var rest := s[1..];
      assert NoNewline(rest) by {
        forall j | 0 <= j < |rest| ensures rest[j] != '\n' {
          assert rest[j] == s[j + 1];
        }
      }
      ReplaceNoNewline(rest, idStr);
      NoNewlineConcat([s[0]], ReplacePlaceholder(rest, idStr));
    }
  }

  lemma SgrNoNewline(style: string, hue: string)
    requires NoNewline(style) && NoNewline(hue)
    ensures NoNewline(Sgr(style, hue))
  {
    NoNewlineConcat("\U{1B}[", style);
    NoNewlineConcat("\U{1B}[" + style, hue);
    NoNewlineConcat("\U{1B}[" + style + hue, "m");
  }

  /**
   An assigned label holds no newline as long as the prefix template holds
   none: colours and rendered ids never contain one.
   */
  lemma AssignNoNewline(index: nat, count: int, noColor: bool, custom: string)
    requires index < count && NoNewline(custom)
    ensures NoNewline(Assign(index, count, noColor, custom).color)
    ensures NoNewline(Assign(index, count, noColor, custom).prefix)
  {
    var k := index % PaletteSize;
    assert NoNewline(Styles[k / 12]);
    assert NoNewline(Hues[k % 12]);
    SgrNoNewline(Styles[k / 12], Hues[k % 12]);
    var idStr := FormatId(ChooseIdFormat(count), index + 1);
    assert NoNewline(idStr) by {
      forall j | 0 <= j < |idStr| ensures idStr[j] != '\n' {
        assert IsDigit(idStr[j]);
      }
    }
    if custom == "" {
      NoNewlineConcat("[", idStr);
      NoNewlineConcat("[" + idStr, "]");
    } else {
      ReplaceNoNewline(custom, idStr);
    }
  }

  /**
   For an instance whose prefix template holds no newline, the written text
   splits back into exactly one decorated line per input line.
   */
  lemma AssignedStreamLines(index: nat, count: int, noColor: bool, custom: string, input: string)
    requires index < count && NoNewline(custom)
    ensures var tag := Assign(index, count, noColor, custom);
      SplitLines(StreamText(tag, input)) == DecorateAll(tag, SplitLines(input))
  {
    AssignNoNewline(index, count, noColor, custom);
    StreamLines(Assign(index, count, noColor, custom), input);
  }

  // ---------------------------------------------------------------- worked cases

  lemma EmptyInputExample(tag: Label)
    ensures StreamText(tag, "") == ""
  {
  }

  /** One newline-terminated line in, exactly that line decorated out. */
  lemma SingleLine(tag: Label, line: string)
    requires NoNewline(line)
    ensures StreamText(tag, line + "\n") == Decorated(tag, line) + "\n"
  {
    assert [line][1..] == [];
    assert JoinLines([line]) == line + "\n";
    SplitJoin([line]);
    assert SplitLines(line + "\n") == [line];
    StreamTextStep(tag, line, []);
    assert [line] + [] == [line];
    assert DecorateAll(tag, []) == [];
    assert JoinLines(DecorateAll(tag, [])) == "";
  }
}
