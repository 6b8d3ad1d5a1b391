/**
 The label assigner of multirun: for the instance at 0-based launch index `i`
 out of `count`, its id `i + 1` rendered at a width chosen from `count`, its
 ANSI colour from a fixed palette of 36, and its prefix (a custom template with
 every `{id}` replaced, or the bracketed id).
 */
module Labels {
  import opened Decimal

  /** The three id verbs the launcher chooses between. */
  datatype IdFormat = Plain | TwoDigits | ThreeDigits {
    function Verb(): string {
      match this
      case Plain => "%d"
      case TwoDigits => "%02d"
      case ThreeDigits => "%03d"
    }

    function Width(): nat {
      match this
      case Plain => 1
      case TwoDigits => 2
      case ThreeDigits => 3
    }
  }

  /**
   The id format for a run of `count` instances: ids are padded to the number
   of digits of `count` itself, up to three.
   */
  function ChooseIdFormat(count: int): (f: IdFormat)
    ensures 1 <= count < 1000 ==> f.Width() == |Digits(count)|
    ensures count >= 1000 ==> f.Width() == 3 < |Digits(count)|
    ensures count < 1 ==> f == Plain
  {
    DigitsLength(if count < 0 then 0 else count);
    if count >= 100 then ThreeDigits
    else if count >= 10 then TwoDigits
    else Plain
  }

  /** `fmt.Sprintf(f.Verb(), id)`. */
  function FormatId(f: IdFormat, id: nat): (s: string)
    ensures AllDigits(s) && Value(s) == id
    ensures |s| == if |Digits(id)| >= f.Width() then |Digits(id)| else f.Width()
  {
    RenderRoundTrip(id, f.Width());
    Render(id, f.Width())
  }

  /**
   Ids stay aligned: in a run of fewer than 1000 instances every id from 1 to
   `count` renders at the same length, the length of `count`.
   */
  lemma {:induction false} IdsAligned(count: int, id: nat)
    requires 1 <= id <= count
    ensures count < 1000 ==> |FormatId(ChooseIdFormat(count), id)| == ChooseIdFormat(count).Width() == |Digits(count)|
  {
    DigitsLength(id);
    DigitsLength(count);
  }

  /** From 1000 instances on the width stays 3, so id 1000 is one character wider than id 1. */
  lemma {:induction false} IdsMisalignedFrom1000(count: int)
    requires count >= 1000
    ensures |FormatId(ChooseIdFormat(count), 1000)| == 4
    ensures |FormatId(ChooseIdFormat(count), 1)| == 3
  {
    DigitsLength(1000);
    DigitsLength(1);
  }

  // ---------------------------------------------------------------- colours

  const Reset: string := "\U{1B}[0m"

  /** The SGR attribute of each block of twelve palette entries: plain, bold, underlined. */
  const Styles: seq<string> := ["", "1;", "4;"]

  /** Red, green, yellow, blue, magenta, cyan, then their bright variants. */
  const Hues: seq<string> := ["31", "32", "33", "34", "35", "36", "91", "92", "93", "94", "95", "96"]

  /** The escape sequence selecting `style` and `hue`. */
  function Sgr(style: string, hue: string): string {
    "\U{1B}[" + style + hue + "m"
  }

  /** The number of palette entries. */
  const PaletteSize: nat := 36

  /**
   Palette entry `k`: each style in turn, with the twelve hues under it. This
   is `ColorTable` again, written so that its entries can be told apart
   cheaply; `PlainColors`, `BoldColors` and `UnderlinedColors` prove the two
   agree entry by entry.
   */
  function Palette(k: nat): string
    requires k < PaletteSize
  {
    Sgr(Styles[k / 12], Hues[k % 12])
  }

  /** The colour table as the program lists it: plain, bold, then underlined entries. */
  const ColorTable: seq<string> := [
    "\U{1B}[31m", "\U{1B}[32m", "\U{1B}[33m", "\U{1B}[34m", "\U{1B}[35m", "\U{1B}[36m",
    "\U{1B}[91m", "\U{1B}[92m", "\U{1B}[93m", "\U{1B}[94m", "\U{1B}[95m", "\U{1B}[96m",
    "\U{1B}[1;31m", "\U{1B}[1;32m", "\U{1B}[1;33m", "\U{1B}[1;34m", "\U{1B}[1;35m", "\U{1B}[1;36m",
    "\U{1B}[1;91m", "\U{1B}[1;92m", "\U{1B}[1;93m", "\U{1B}[1;94m", "\U{1B}[1;95m", "\U{1B}[1;96m",
    "\U{1B}[4;31m", "\U{1B}[4;32m", "\U{1B}[4;33m", "\U{1B}[4;34m", "\U{1B}[4;35m", "\U{1B}[4;36m",
    "\U{1B}[4;91m", "\U{1B}[4;92m", "\U{1B}[4;93m", "\U{1B}[4;94m", "\U{1B}[4;95m", "\U{1B}[4;96m"
  ]

  /** The plain entries of the palette are those of the table. */
  lemma PlainColors()
    ensures forall k :: 0 <= k < 12 ==> Palette(k) == ColorTable[k]
  {
  }

  /** The bold entries of the palette are those of the table. */
  lemma BoldColors()
    ensures forall k :: 12 <= k < 24 ==> Palette(k) == ColorTable[k]
  {
  }

  /** The underlined entries of the palette are those of the table. */
  lemma UnderlinedColors()
    ensures forall k :: 24 <= k < 36 ==> Palette(k) == ColorTable[k]
  {
  }

  /** Where the style and the hue sit inside the escape sequence. */
  lemma SgrParts(style: string, hue: string)
    ensures |Sgr(style, hue)| == 3 + |style| + |hue|
    ensures Sgr(style, hue)[2..2 + |style|] == style
    ensures Sgr(style, hue)[2 + |style|..2 + |style| + |hue|] == hue
  {
    var t := Sgr(style, hue);
    assert t == "\U{1B}[" + style + hue + "m";
    forall k | 0 <= k < |style| ensures t[2 + k] == style[k] {
    }
    forall k | 0 <= k < |hue| ensures t[2 + |style| + k] == hue[k] {
    }
  }

  /** Different styles or hues give different escape sequences. */
  lemma SgrInjective(s1: string, h1: string, s2: string, h2: string)
    requires s1 in Styles && s2 in Styles && h1 in Hues && h2 in Hues
    requires Sgr(s1, h1) == Sgr(s2, h2)
    ensures s1 == s2 && h1 == h2
  {
    SgrParts(s1, h1);
    SgrParts(s2, h2);
    assert |h1| == 2 && |h2| == 2;
    assert |s1| == |s2|;
  }

  lemma StylesHuesDistinct()
    ensures forall a, b :: 0 <= a < b < |Styles| ==> Styles[a] != Styles[b]
    ensures forall a, b :: 0 <= a < b < |Hues| ==> Hues[a] != Hues[b]
  {
  }

  lemma PaletteDistinct()
    ensures forall i, j :: 0 <= i < j < PaletteSize ==> Palette(i) != Palette(j)
  {
    forall i, j | 0 <= i < j < PaletteSize ensures Palette(i) != Palette(j) {
      if Palette(i) == Palette(j) {
        SgrInjective(Styles[i / 12], Hues[i % 12], Styles[j / 12], Hues[j % 12]);
        StylesHuesDistinct();
        assert false;
      }
    }
  }

  /** The colour of the instance at 0-based index `index`; none when colouring is off. */
  function Color(index: nat, noColor: bool): (c: string)
    ensures noColor ==> c == ""
    ensures !noColor ==> c != "" && c != Reset
  {
    if noColor then "" else
      SgrParts(Styles[(index % PaletteSize) / 12], Hues[(index % PaletteSize) % 12]);
      Palette(index % PaletteSize)
  }

  /** Colours repeat with period exactly 36: two indices share a colour iff they agree modulo 36. */
  lemma ColorPeriod(i: nat, j: nat)
    ensures Color(i, false) == Color(j, false) <==> i % 36 == j % 36
  {
    PaletteDistinct();
  }

  /**
   With colouring on, instance `i` gets entry `i mod 36` of the program's
   colour table; with it off, no colour.
   */
  lemma ColorFromTable(i: nat)
    ensures |ColorTable| == PaletteSize
    ensures Color(i, false) == ColorTable[i % |ColorTable|]
    ensures Color(i, true) == ""
  {
    PlainColors();
    BoldColors();
    UnderlinedColors();
  }

  lemma ColorCycles(i: nat, noColor: bool)
    ensures Color(i, noColor) == Color(i + 36, noColor)
  {
    assert (i + 36) % 36 == i % 36;
  }

  // ---------------------------------------------------------------- prefixes

  const Placeholder: string := "{id}"

  /** The placeholder `{id}` occurs in `s` at position `i`. */
  predicate PlaceholderAt(s: string, i: int) {
    0 <= i && i + 4 <= |s| && s[i] == '{' && s[i + 1] == 'i' && s[i + 2] == 'd' && s[i + 3] == '}'
  }

  predicate HasPlaceholder(s: string) {
    exists i | 0 <= i <= |s| - |Placeholder| :: PlaceholderAt(s, i)
  }

  /** `strings.ReplaceAll(s, "{id}", idStr)`: leftmost, non-overlapping occurrences. */
  function ReplacePlaceholder(s: string, idStr: string): string
  {
    if PlaceholderAt(s, 0) then idStr + ReplacePlaceholder(s[|Placeholder|..], idStr)
    else if s == [] then []
    else [s[0]] + ReplacePlaceholder(s[1..], idStr)
  }

  /** A template without the placeholder comes back unchanged. */
  lemma {:induction false} ReplaceWithoutPlaceholder(s: string, idStr: string)
    ensures !HasPlaceholder(s) ==> ReplacePlaceholder(s, idStr) == s
  {
    if !HasPlaceholder(s) && s != [] {
      assert !PlaceholderAt(s, 0);
      forall i | 0 <= i <= |s[1..]| - |Placeholder| ensures !PlaceholderAt(s[1..], i) {
        assert !PlaceholderAt(s, i + 1);
      }
      ReplaceWithoutPlaceholder(s[1..], idStr);
    }
  }

  /** Replacing the placeholder by itself gives back the template: only placeholders are touched. */
  lemma {:induction false} ReplaceByPlaceholder(s: string)
    ensures ReplacePlaceholder(s, Placeholder) == s
  {
    if PlaceholderAt(s, 0) {
      ReplaceByPlaceholder(s[|Placeholder|..]);
      assert s == s[..|Placeholder|] + s[|Placeholder|..];
      assert s[..|Placeholder|] == Placeholder;
    } else if s != [] {
      ReplaceByPlaceholder(s[1..]);
    }
  }

  lemma ReplaceStartsWithId(s: string, idStr: string)
    requires |idStr| >= 1
    ensures PlaceholderAt(s, 0) ==>
      |ReplacePlaceholder(s, idStr)| >= 1 && ReplacePlaceholder(s, idStr)[0] == idStr[0]
  {
  }

  /**
   As long as the first `k` characters of a replacement result hold no digit,
   they are copied verbatim from the template.
   */
  lemma {:induction false} NonDigitHeadCopied(s: string, idStr: string, k: nat)
    requires |idStr| >= 1 && AllDigits(idStr)
    requires k <= |ReplacePlaceholder(s, idStr)|
    requires forall j :: 0 <= j < k ==> !IsDigit(ReplacePlaceholder(s, idStr)[j])
    ensures k <= |s| && s[..k] == ReplacePlaceholder(s, idStr)[..k]
  {
    var r := ReplacePlaceholder(s, idStr);
    if k > 0 {
      ReplaceStartsWithId(s, idStr);
      if PlaceholderAt(s, 0) {
        assert false;
      } else {
        assert s != [];
        var rest := ReplacePlaceholder(s[1..], idStr);
        assert r == [s[0]] + rest;
        forall j | 0 <= j < k - 1 ensures !IsDigit(rest[j]) {
          assert rest[j] == r[j + 1];
        }
        NonDigitHeadCopied(s[1..], idStr, k - 1);
        assert s[..k] == [s[0]] + s[1..][..k - 1];
      }
    }
  }

  /** Every occurrence is replaced: with a non-empty digit id the result holds no placeholder at all. */
  lemma {:induction false} ReplaceRemovesAllPlaceholders(s: string, idStr: string)
    requires |idStr| >= 1 && AllDigits(idStr)
    ensures !HasPlaceholder(ReplacePlaceholder(s, idStr))
  {
    var r := ReplacePlaceholder(s, idStr);
    if PlaceholderAt(s, 0) {
      var rest := ReplacePlaceholder(s[|Placeholder|..], idStr);
      ReplaceRemovesAllPlaceholders(s[|Placeholder|..], idStr);
      assert r == idStr + rest;
      forall i | 0 <= i <= |r| - |Placeholder| ensures !PlaceholderAt(r, i) {
        if i < |idStr| {
          assert IsDigit(r[i]);
        } else {
          assert !PlaceholderAt(rest, i - |idStr|);
        }
      }
    } else if s != [] {
      var rest := ReplacePlaceholder(s[1..], idStr);
      ReplaceRemovesAllPlaceholders(s[1..], idStr);
      assert r == [s[0]] + rest;
      forall i | 0 <= i <= |r| - |Placeholder| ensures !PlaceholderAt(r, i) {
        if i == 0 {
          if PlaceholderAt(r, 0) {
            NonDigitHeadCopied(s, idStr, |Placeholder|);
            assert s[..|Placeholder|] == r[..|Placeholder|];
            assert PlaceholderAt(s, 0);
          }
        } else {
          assert !PlaceholderAt(rest, i - 1);
        }
      }
    }
  }

  /**
   The prefix of an instance: the custom template with every `{id}` replaced by
   the rendered id, or the rendered id in brackets when no template was given.
   */
  function FormatPrefix(custom: string, id: nat, f: IdFormat): (p: string)
    ensures custom == "" ==> p == "[" + FormatId(f, id) + "]"
    ensures custom != "" && !HasPlaceholder(custom) ==> p == custom
    ensures custom != "" ==> !HasPlaceholder(p)
  {
    var idStr := FormatId(f, id);
    if custom != "" then
      ReplaceRemovesAllPlaceholders(custom, idStr);
      ReplaceWithoutPlaceholder(custom, idStr);
      ReplacePlaceholder(custom, idStr)
    else
      "[" + idStr + "]"
  }

  /** The visual label of one instance. */
  datatype Label = Label(color: string, prefix: string)

  /** The label of the instance at 0-based `index` in a run of `count`. */
  function Assign(index: nat, count: int, noColor: bool, custom: string): (l: Label)
    requires index < count
  {
    Label(Color(index, noColor), FormatPrefix(custom, index + 1, ChooseIdFormat(count)))
  }

  /**
   The label of instance `index`: the table colour of its index unless
   colouring is off; the bracketed id `index + 1` by default, else the template
   with no placeholder left (and unchanged when it had none).
   */
  lemma AssignLabel(index: nat, count: int, noColor: bool, custom: string)
    requires index < count
    ensures var l := Assign(index, count, noColor, custom);
      && (noColor <==> l.color == "")
      && (!noColor ==> l.color == ColorTable[index % |ColorTable|])
      && (custom == "" ==>
            && |l.prefix| >= 3
            && l.prefix[0] == '[' && l.prefix[|l.prefix| - 1] == ']'
            && AllDigits(l.prefix[1..|l.prefix| - 1])
            && Value(l.prefix[1..|l.prefix| - 1]) == index + 1)
      && (custom != "" ==> !HasPlaceholder(l.prefix))
      && (custom != "" && !HasPlaceholder(custom) ==> l.prefix == custom)
  {
    var l := Assign(index, count, noColor, custom);
    ColorFromTable(index);
    if custom == "" {
      var idStr := FormatId(ChooseIdFormat(count), index + 1);
      assert l.prefix == "[" + idStr + "]";
      assert l.prefix[1..|l.prefix| - 1] == idStr;
    }
  }

  /** With the default prefix and fewer than 1000 instances, every prefix is as long as `[count]`. */
  lemma PrefixesAligned(index: nat, count: int, noColor: bool)
    requires index < count < 1000
    ensures |Assign(index, count, noColor, "").prefix| == |Digits(count)| + 2
  {
    IdsAligned(count, index + 1);
  }

  // ---------------------------------------------------------------- worked cases

  lemma IdFormatExamples()
    ensures ChooseIdFormat(1).Verb() == "%d" && ChooseIdFormat(5).Verb() == "%d"
    ensures ChooseIdFormat(9).Verb() == "%d" && ChooseIdFormat(10).Verb() == "%02d"
    ensures ChooseIdFormat(50).Verb() == "%02d" && ChooseIdFormat(99).Verb() == "%02d"
    ensures ChooseIdFormat(100).Verb() == "%03d" && ChooseIdFormat(999).Verb() == "%03d"
  {
  }

  /** A one-digit id is its digit behind `width - 1` zeros. */
  lemma OneDigitId(d: nat)
    requires d < 10
    ensures FormatId(Plain, d) == [DigitChar(d)]
    ensures FormatId(TwoDigits, d) == ['0', DigitChar(d)]
    ensures FormatId(ThreeDigits, d) == ['0', '0', DigitChar(d)]
  {
    var ds := Digits(d);
    assert ds == [DigitChar(d)];
    assert Render(d, 1) == ds;
    assert Render(d, 2) == Zeros(1) + ds == ['0', DigitChar(d)];
    assert Render(d, 3) == Zeros(2) + ds == ['0', '0', DigitChar(d)];
  }

  /** Text in which no placeholder starts is copied ahead of whatever the rest becomes. */
  lemma {:induction false} ReplaceAfterText(a: string, b: string, idStr: string)
    requires forall i :: 0 <= i < |a| ==> !PlaceholderAt(a + b, i)
    ensures ReplacePlaceholder(a + b, idStr) == a + ReplacePlaceholder(b, idStr)
  {
    if a == [] {
      assert a + b == b;
    } else {
      var ab := a + b;
      var tail := a[1..] + b;
      var rest := ReplacePlaceholder(b, idStr);
      assert ab[0] == a[0];
      assert !PlaceholderAt(ab, 0);
      assert ab[1..] == tail;
      assert ReplacePlaceholder(ab, idStr) == [a[0]] + ReplacePlaceholder(tail, idStr);
      forall i | 0 <= i < |a[1..]| ensures !PlaceholderAt(tail, i) {
        assert !PlaceholderAt(ab, i + 1);
        assert tail[i..] == ab[i + 1..];
      }
      ReplaceAfterText(a[1..], b, idStr);
      calc {
        [a[0]] + (a[1..] + rest);
        ([a[0]] + a[1..]) + rest;
        { assert [a[0]] + a[1..] == a; }
        a + rest;
      }
    }
  }

  /**
   The first placeholder becomes the id: what precedes it is kept and what
   follows it is replaced in turn.
   */
  lemma ReplaceFirstPlaceholder(a: string, b: string, idStr: string)
    requires forall i :: 0 <= i < |a| ==> !PlaceholderAt(a + Placeholder + b, i)
    ensures ReplacePlaceholder(a + Placeholder + b, idStr) == a + idStr + ReplacePlaceholder(b, idStr)
  {
    assert a + Placeholder + b == a + (Placeholder + b);
    ReplaceAfterText(a, Placeholder + b, idStr);
    ReplaceLeading(b, idStr);
  }

  /** A leading placeholder becomes the id. */
  lemma ReplaceLeading(b: string, idStr: string)
    ensures ReplacePlaceholder(Placeholder + b, idStr) == idStr + ReplacePlaceholder(b, idStr)
  {
    assert PlaceholderAt(Placeholder + b, 0);
    assert (Placeholder + b)[|Placeholder|..] == b;
  }

  lemma DefaultPrefixExamples()
    ensures FormatPrefix("", 3, Plain) == "[3]"
    ensures FormatPrefix("", 3, TwoDigits) == "[03]"
    ensures FormatPrefix("", 3, ThreeDigits) == "[003]"
  {
    OneDigitId(3);
  }

  /** `Worker-{id}` with `idStr` gives `Worker-` followed by `idStr`. */
  lemma WorkerTemplate(idStr: string)
    ensures ReplacePlaceholder("Worker-{id}", idStr) == "Worker-" + idStr
  {
    assert "Worker-{id}" == "Worker-" + Placeholder;
    ReplaceAfterText("Worker-", Placeholder, idStr);
    ReplaceLeading([], idStr);
    assert Placeholder + [] == Placeholder;
    assert idStr + [] == idStr;
  }

  lemma CustomPrefixExample()
    ensures FormatPrefix("Worker-{id}", 5, Plain) == "Worker-5"
  {
    OneDigitId(5);
    assert FormatId(Plain, 5) == "5";
    WorkerTemplate("5");
  }

  lemma CustomPaddedPrefixExample()
    ensures FormatPrefix("Worker-{id}", 5, TwoDigits) == "Worker-05"
  {
    OneDigitId(5);
    assert FormatId(TwoDigits, 5) == "05";
    WorkerTemplate("05");
  }

  lemma StaticPrefixExample()
    ensures FormatPrefix("Static", 1, Plain) == "Static"
  {
  }

  lemma RepeatedPlaceholderExample()
    ensures FormatPrefix("{id}-{id}", 7, Plain) == "7-7"
  {
    OneDigitId(7);
    assert FormatId(Plain, 7) == "7";
    assert "{id}-{id}" == Placeholder + ("-" + Placeholder);
    ReplaceLeading("-" + Placeholder, "7");
    ReplaceAfterText("-", Placeholder, "7");
    ReplaceLeading([], "7");
    assert Placeholder + [] == Placeholder;
  }
}
