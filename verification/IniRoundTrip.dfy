/** Printing sections, pairs, continuation lines and comments and parsing them back. */
module IniRoundTrip {
  import opened IniLines
  import opened IniText

  /** A section, a pair, an indented line that continues the value of the last pair, and a blank or comment line. */
  datatype Item =
    | SectionItem(section: string)
    | PairItem(name: string, delimiter: char, value: string)
    | MoreItem(indent: string, value: string)
    | IgnoredItem(text: string)

  function PrintItem(i: Item): string {
    match i
    case SectionItem(section) => "[" + section + "]\n"
    case PairItem(name, delimiter, value) => name + [delimiter] + value + "\n"
    case MoreItem(indent, value) => indent + value + "\n"
    case IgnoredItem(text) => text + "\n"
  }

  function Print(items: seq<Item>): string { if items == [] then "" else PrintItem(items[0]) + Print(items[1..]) }

  predicate SectionForm(section: string) { Free(section, "]") }

  predicate PairForm(name: string, value: string) {
    && Trimmed(name) && Free(name, "=:") && (name != "" ==> name[0] !in START_COMMENTS && name[0] != '[')
    && Trimmed(value) && Free(value, "")
  }

  predicate MoreForm(indent: string, value: string) {
    && indent != "" && AllSpaces(indent)
    && value != "" && Trimmed(value) && value[0] !in START_COMMENTS
  }

  /** What an item must be to parse back, given the name that a continuation would belong to. */
  predicate Form(i: Item, prevName: string) {
    match i
    case SectionItem(section) => SectionForm(section)
    case PairItem(name, delimiter, value) => delimiter in "=:" && PairForm(name, value)
    case MoreItem(indent, value) => prevName != "" && MoreForm(indent, value)
    case IgnoredItem(text) => IsIgnored(text)
  }

  /** What it should parse to. */
  function KindOf(i: Item): Kind {
    match i
    case SectionItem(section) => Section(section)
    case PairItem(name, _, value) => Pair(name, value)
    case MoreItem(_, value) => Continuation(value)
    case IgnoredItem(_) => Nothing
  }

  /** The name that a continuation after the item would belong to. */
  function NameAfter(i: Item, prevName: string): string {
    match i
    case SectionItem(_) => ""
    case PairItem(name, _, _) => if |name| < 50 then name else name[..49]
    case MoreItem(_, _) => prevName
    case IgnoredItem(_) => prevName
  }

  /** One line of text: no line feed or NUL inside, and short enough for the buffer. */
  predicate OneLine(i: Item) {
    var l := PrintItem(i);
    |l| <= 199 && '\0' !in l && '\n' !in l[..|l| - 1]
  }

  predicate WellFormed(i: Item, prevName: string) {
    Form(i, prevName) && OneLine(i) && (i.SectionItem? ==> |i.section| < 50)
  }

  predicate AllWellFormed(items: seq<Item>, prevName: string) {
    items != [] ==> WellFormed(items[0], prevName) && AllWellFormed(items[1..], NameAfter(items[0], prevName))
  }

  // ------------------------------------------------------------------ stripping

  lemma {:induction false} RStrippedOf(s: string, tail: string)
    requires s == "" || !IsSpace(s[|s| - 1])
    requires forall i :: 0 <= i < |tail| ==> IsSpace(tail[i])
    ensures RStripped(s + tail) == s
    decreases |tail|
  {
    if tail == "" {
      assert s + tail == s;
    } else {
      var t := tail[..|tail| - 1];
      RStrippedOf(s, t);
      assert (s + tail)[..|s + tail| - 1] == s + t;
    }
  }

  /** A line that starts and ends with something else than white space, before its line feed. */
  lemma LineContent(t: string)
    requires t != "" && Trimmed(t)
    ensures RStripped(t + "\n") == t && LStripped(t) == t
  {
    RStrippedOf(t, "\n");
  }

  lemma FreeStop(s: string, chars: string, tail: string)
    requires Free(s, chars) && (tail != "" ==> tail[0] in chars)
    ensures FindStop(s + tail, chars, false) == |s|
  {
    var t := s + tail;
    forall i | 0 <= i < |s| ensures !Stops(t, chars, i) {
      assert !Stops(s, chars, i);
    }
    FindStopUnique(t, chars, |s|);
  }

  // ------------------------------------------------------------------ one line

  lemma SectionKindBack(section: string)
    requires SectionForm(section)
    ensures SectionKind("[" + section + "]") == Section(section)
  {
    var t := "[" + section + "]";
    FreeStop(section, "]", "]");
    hide FindStop, Free;
    assert t[1..] == section + "]";
    assert t[1..1 + |section|] == section;
  }

  lemma ClassifyLine(t: string, first: bool, prevName: string)
    requires t != "" && Trimmed(t) && t[0] !in START_COMMENTS && !HasBom(t + "\n", first)
    ensures Classify(t + "\n", first, prevName) == if t[0] == '[' then SectionKind(t) else PairKind(t)
  {
    LineContent(t);
  }

  lemma SectionBack(section: string, first: bool, prevName: string)
    requires SectionForm(section)
    ensures Classify(PrintItem(SectionItem(section)), first, prevName) == Section(section)
  {
    var t := "[" + section + "]";
    assert PrintItem(SectionItem(section)) == t + "\n";
    SectionKindBack(section);
    assert !HasBom(t + "\n", first) by {
      assert BOM[0] == '\U{EF}' && t[0] == '[';
    }
    hide SectionKind, PairKind, Classify, SectionForm;
    ClassifyLine(t, first, prevName);
  }

  lemma PairKindBack(name: string, delimiter: char, value: string)
    requires delimiter in "=:" && PairForm(name, value)
    ensures PairKind(name + [delimiter] + value) == Pair(name, value)
  {
    var t := name + [delimiter] + value;
    FreeStop(name, "=:", [delimiter] + value);
    FreeStop(value, "", "");
    RStrippedOf(name, "");
    RStrippedOf(value, "");
    hide FindStop, Free, RStripped;
    assert t == name + ([delimiter] + value) && name + "" == name && value + "" == value;
    assert t[..|name|] == name && t[|name| + 1..] == value && value[..|value|] == value;
  }

  lemma PairLine(name: string, delimiter: char, value: string)
    requires delimiter in "=:" && PairForm(name, value)
    ensures var t := name + [delimiter] + value;
            t != "" && Trimmed(t) && t[0] !in START_COMMENTS && t[0] != '['
    ensures PrintItem(PairItem(name, delimiter, value)) == name + [delimiter] + value + "\n"
  {
    hide Free;
  }

  lemma PairBack(name: string, delimiter: char, value: string, first: bool, prevName: string)
    requires delimiter in "=:" && PairForm(name, value)
    requires !HasBom(PrintItem(PairItem(name, delimiter, value)), first)
    ensures Classify(PrintItem(PairItem(name, delimiter, value)), first, prevName) == Pair(name, value)
  {
    hide SectionKind, PairKind, Classify, PairForm, HasBom, Trimmed, PrintItem;
    var t := name + [delimiter] + value;
    PairLine(name, delimiter, value);
    PairKindBack(name, delimiter, value);
    ClassifyLine(t, first, prevName);
  }

  lemma ParsedSectionForm(t: string)
    requires t != "" && SectionKind(t).Section?
    ensures SectionForm(SectionKind(t).section)
  {
    var e := FindStop(t[1..], "]", false);
    FreeSlice(t[1..], "]", 0, e);
    assert t[1..1 + e] == t[1..][0..e];
    hide FindStop, Free;
  }

  lemma ParsedPairForm(t: string)
    requires t != "" && !IsSpace(t[0]) && t[0] !in START_COMMENTS && t[0] != '[' && PairKind(t).Pair?
    ensures PairForm(PairKind(t).name, PairKind(t).value)
  {
    hide FindStop, Free, RStripped, ValueOf;
    var e := FindStop(t, "=:", false);
    var name := RStripped(t[..e]);
    RStrippedExact(t[..e]);
    FreeSlice(t, "=:", 0, |name|);
    assert name == t[0..|name|];
    ValueForm(t[e + 1..]);
  }

  lemma ValueForm(v: string)
    ensures Trimmed(ValueOf(v)) && Free(ValueOf(v), "")
  {
    hide FindStop, Free, RStripped, LStripped;
    var cut := v[..FindStop(v, "", false)];
    LStrippedExact(cut);
    RStrippedExact(LStripped(cut));
    var skipped := |cut| - |LStripped(cut)|;
    var value := ValueOf(v);
    FreeSlice(v, "", skipped, skipped + |value|);
    assert value == v[skipped..skipped + |value|];
  }

  /** Whatever line a section or pair was parsed from, it has the form that prints and parses back. */
  lemma ParsedForm(raw: string, first: bool, prevName: string)
    ensures var k := Classify(raw, first, prevName);
            && (k.Section? ==> SectionForm(k.section))
            && (k.Pair? ==> PairForm(k.name, k.value))
  {
    var t := Content(raw, first);
    LStrippedExact(RStripped(Body(raw, first)));
    hide SectionKind, PairKind, SectionForm, PairForm, RStripped, Body, LStripped, HasBom;
    var k := Classify(raw, first, prevName);
    if k.Section? {
      ParsedSectionForm(t);
    } else if k.Pair? {
      ParsedPairForm(t);
    }
  }

  /** A line feed at the end does not matter. */
  lemma LineFeed(text: string)
    ensures LStripped(RStripped(text + "\n")) == LStripped(RStripped(text))
  {
    var t := text + "\n";
    assert t[..|t| - 1] == text;
    assert RStripped(t) == RStripped(text);
  }

  lemma IgnoredBack(text: string, first: bool, prevName: string)
    requires !HasBom(text + "\n", first)
    ensures Classify(text + "\n", first, prevName) == Nothing <==> IsIgnored(text)
  {
    hide RStripped, LStripped, IsIgnored, HasBom, SectionKind, PairKind;
    LineFeed(text);
    IgnoredExact(text);
  }

  /** Text with white space before and a line feed behind. */
  lemma IndentedContent(indent: string, value: string)
    requires AllSpaces(indent) && value != "" && Trimmed(value)
    ensures LStripped(RStripped(indent + value + "\n")) == value
  {
    hide IsSpace;
    var s := indent + value;
    assert s[|s| - 1] == value[|value| - 1];
    RStrippedOf(s, "\n") by { assert IsSpace('\n') by { SpaceLf(); } }
    LStrippedOf(indent, value);
  }

  lemma SpaceLf()
    ensures IsSpace('\n')
  {
  }

  lemma {:induction false} LStrippedOf(indent: string, t: string)
    requires AllSpaces(indent) && (t == "" || !IsSpace(t[0]))
    ensures LStripped(indent + t) == t
  {
    hide IsSpace;
    if indent == "" {
      assert indent + t == t;
    } else {
      assert (indent + t)[1..] == indent[1..] + t;
      LStrippedOf(indent[1..], t);
    }
  }

  /** An indented text that is no comment continues the pair before with just that text. */
  lemma MoreParses(indent: string, value: string, first: bool)
    requires MoreForm(indent, value) && !HasBom(indent + value + "\n", first)
    ensures var raw := indent + value + "\n";
            Content(raw, first) == value && !IsIgnored(Body(raw, first)) && Indented(raw, first)
  {
    hide RStripped, LStripped, IsSpace, HasBom, IsIgnored;
    var raw := indent + value + "\n";
    IndentedContent(indent, value);
    IgnoredExact(raw);
    assert raw[0] == indent[0];
  }

  /** And nothing else does. */
  lemma MoreNeedsForm(indent: string, value: string, first: bool)
    requires var raw := indent + value + "\n";
             !HasBom(raw, first) && Content(raw, first) == value != "" && !IsIgnored(raw) && Indented(raw, first)
    ensures MoreForm(indent, value)
  {
    hide RStripped, LStripped, IsSpace, HasBom, IsIgnored, TextAt;
    var raw := indent + value + "\n";
    ContentExact(raw);
    IgnoredExact(raw);
    MoreIndent(indent, value, |RStripped(raw)| - |value|);
  }

  lemma MoreBack(indent: string, value: string, first: bool, prevName: string)
    requires !HasBom(indent + value + "\n", first)
    ensures Classify(indent + value + "\n", first, prevName) == Continuation(value)
            <==> prevName != "" && MoreForm(indent, value)
  {
    hide Classify, MoreForm, Content, IsIgnored, Indented, HasBom;
    var raw := indent + value + "\n";
    ContinuesExact(raw, first, prevName);
    assert Body(raw, first) == raw;
    if MoreForm(indent, value) {
      MoreParses(indent, value, first);
    } else if Classify(raw, first, prevName) == Continuation(value) {
      MoreNeedsForm(indent, value, first);
    }
  }

  /** What stands before the text is the indentation. */
  lemma MoreIndent(indent: string, value: string, k: nat)
    requires value != "" && TextAt(indent + value + "\n", value, k)
    ensures AllSpaces(indent) && Trimmed(value)
    ensures (indent + value + "\n")[0] == if indent == "" then value[0] else indent[0]
  {
    hide IsSpace;
    var raw := indent + value + "\n";
    SpacesAt(raw, k);
    assert k <= |indent| + 1;
    assert raw[k..k + |value|] == value && raw[|indent|..|indent| + |value|] == value;
  }

  /** After the first line, printing an item and parsing the line gives it back exactly if it has that form. */
  lemma RoundTripExactly(i: Item, prevName: string)
    requires i.PairItem? ==> i.delimiter in "=:"
    ensures Classify(PrintItem(i), false, prevName) == KindOf(i) <==> Form(i, prevName)
  {
    hide Classify, SectionForm, PairForm, MoreForm, IsIgnored;
    assert !HasBom(PrintItem(i), false);
    ParsedForm(PrintItem(i), false, prevName);
    match i {
      case SectionItem(section) => if Form(i, prevName) { SectionBack(section, false, prevName); }
      case PairItem(name, delimiter, value) =>
        if Form(i, prevName) { PairBack(name, delimiter, value, false, prevName); }
      case MoreItem(indent, value) => MoreBack(indent, value, false, prevName);
      case IgnoredItem(text) => IgnoredBack(text, false, prevName);
    }
  }

  // ------------------------------------------------------------------ a whole text

  lemma {:induction false} ChunkOf(line: string, rest: string, room: nat)
    requires 0 < |line| <= room && line[|line| - 1] == '\n' && '\n' !in line[..|line| - 1]
    ensures ChunkLen(line + rest, room) == |line|
  {
    assert (line + rest)[1..] == line[1..] + rest;
    if |line| > 1 {
      assert line[0] in line[..|line| - 1];
      assert line[1..][..|line| - 2] == line[..|line| - 1][1..];
      ChunkOf(line[1..], rest, room - 1);
    }
  }

  function Printed(items: seq<Item>): seq<string> {
    if items == [] then [] else [PrintItem(items[0])] + Printed(items[1..])
  }

  /** The reader delivers the printed items line by line. */
  lemma {:induction false} LinesOfPrint(items: seq<Item>)
    requires forall i :: i in items ==> OneLine(i)
    ensures Lines(Print(items)) == Printed(items) && |Printed(items)| == |items| && '\0' !in Print(items)
  {
    if items != [] {
      var line, rest := PrintItem(items[0]), Print(items[1..]);
      assert OneLine(items[0]);
      ChunkOf(line, rest, MAX_LINE - 1);
      LinesOfPrint(items[1..]);
      assert (line + rest)[..|line|] == line && (line + rest)[|line|..] == rest;
    }
  }

  /** The calls the handler should get for items whose first is on line `lineno`. */
  function Calls(items: seq<Item>, section: string, prevName: string, lineno: nat): seq<Call>
    decreases |items|
  {
    if items == [] then []
    else
      CallsOf(items[0], section, prevName, lineno)
      + Calls(items[1..], if items[0].SectionItem? then items[0].section else section, NameAfter(items[0], prevName),
              lineno + 1)
  }

  /** A pair calls with its name, a continuation with that of the pair before; nothing else calls. */
  function CallsOf(i: Item, section: string, prevName: string, lineno: nat): seq<Call> {
    match i
    case PairItem(name, _, value) => [Call(section, name, value, lineno)]
    case MoreItem(_, value) => [Call(section, prevName, value, lineno)]
    case _ => []
  }

  /** What the line of one item does. */
  lemma ItemLine(accepts: seq<Call> -> bool, p: Parsed, i: Item, lineno: nat)
    requires WellFormed(i, p.context.prevName) && !HasBom(PrintItem(i), lineno == 1)
    ensures var q, c := ParseLine(accepts, p, PrintItem(i), lineno), p.context;
            && q.context.section == (if i.SectionItem? then i.section else c.section)
            && q.context.prevName == NameAfter(i, c.prevName)
            && q.context.calls == c.calls + CallsOf(i, c.section, c.prevName, lineno)
            && (accepts(q.context.calls) || i.SectionItem? || i.IgnoredItem? ==> q.error == p.error)
  {
    hide Classify, OneLine, HasBom, SectionForm, PairForm, MoreForm, IsIgnored;
    var prevName := p.context.prevName;
    assert p.context.calls + [] == p.context.calls;
    match i {
      case SectionItem(section) => SectionBack(section, lineno == 1, prevName);
      case PairItem(name, delimiter, value) => PairBack(name, delimiter, value, lineno == 1, prevName);
      case MoreItem(indent, value) => MoreBack(indent, value, lineno == 1, prevName);
      case IgnoredItem(text) => IgnoredBack(text, lineno == 1, prevName);
    }
  }

  lemma Assoc<T>(a: seq<T>, b: seq<T>, c: seq<T>)
    ensures a + b + c == a + (b + c) && a + [] == a && [] + a == a
  {
  }

  lemma {:induction false} ParsePrinted(accepts: seq<Call> -> bool, p: Parsed, items: seq<Item>, lineno: nat)
    requires AllWellFormed(items, p.context.prevName)
    requires items != [] ==> !HasBom(PrintItem(items[0]), lineno == 0)
    ensures var r := ParseLines(accepts, p, Printed(items), lineno);
            && r.context.calls == p.context.calls + Calls(items, p.context.section, p.context.prevName, lineno + 1)
            && ((forall calls :: accepts(calls)) ==> r.error == p.error)
    decreases |items|
  {
    hide Print, Printed, Lines, ParseLines, ParseLine, Calls, PrintItem, WellFormed, CallsOf, NameAfter;
    var section, prevName := p.context.section, p.context.prevName;
    if items == [] {
      NoItems(accepts, p, items, lineno);
      Assoc(p.context.calls, [], []);
    } else {
      var i, rest := items[0], items[1..];
      var q := ParseLine(accepts, p, PrintItem(i), lineno + 1);
      FirstItem(accepts, p, items, lineno);
      ItemLine(accepts, p, i, lineno + 1);
      ParsePrinted(accepts, q, rest, lineno + 1);
      Assoc(p.context.calls, CallsOf(i, section, prevName, lineno + 1),
            Calls(rest, q.context.section, q.context.prevName, lineno + 2));
    }
  }

  lemma NoItems(accepts: seq<Call> -> bool, p: Parsed, items: seq<Item>, lineno: nat)
    requires items == []
    ensures ParseLines(accepts, p, Printed(items), lineno) == p
    ensures Calls(items, p.context.section, p.context.prevName, lineno + 1) == []
  {
  }

  /** The first item unfolded. */
  lemma FirstItem(accepts: seq<Call> -> bool, p: Parsed, items: seq<Item>, lineno: nat)
    requires items != []
    ensures ParseLines(accepts, p, Printed(items), lineno)
            == ParseLines(accepts, ParseLine(accepts, p, PrintItem(items[0]), lineno + 1),
                          Printed(items[1..]), lineno + 1)
    ensures var i, section, prevName := items[0], p.context.section, p.context.prevName;
            Calls(items, section, prevName, lineno + 1)
            == CallsOf(i, section, prevName, lineno + 1)
               + Calls(items[1..], if i.SectionItem? then i.section else section, NameAfter(i, prevName), lineno + 2)
  {
    hide ParseLine, PrintItem;
    assert Printed(items)[1..] == Printed(items[1..]);
  }

  lemma {:induction false} AllOneLine(items: seq<Item>, prevName: string)
    requires AllWellFormed(items, prevName)
    ensures forall i :: i in items ==> OneLine(i)
  {
    hide OneLine, Form;
    if items != [] {
      AllOneLine(items[1..], NameAfter(items[0], prevName));
    }
  }

  /** Printing well-formed items and parsing the text calls the handler with exactly the sections, names, values and
      line numbers of its pairs and continuation lines; blank lines and comments make no call. If the handler accepts
      everything, the result is zero. */
  lemma {:induction false} PrintThenParse(accepts: seq<Call> -> bool, items: seq<Item>)
    requires AllWellFormed(items, "")
    requires items != [] ==> !(BOM <= PrintItem(items[0]))
    ensures '\0' !in Print(items)
    ensures ParseString(accepts, Print(items)).context.calls == Calls(items, "", "", 1)
    ensures (forall calls :: accepts(calls)) ==> ParseString(accepts, Print(items)).error == 0
  {
    hide Print, Printed, Lines, ParseLines, Calls, PrintItem, OneLine, Form, AllWellFormed;
    AllOneLine(items, "");
    LinesOfPrint(items);
    ParsePrinted(accepts, Parsed(0, START), items, 0);
    Assoc(Calls(items, "", "", 1), [], []);
  }
}
