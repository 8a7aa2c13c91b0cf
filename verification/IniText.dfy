/**
 What inih makes of its input, as functions on strings. The configuration is that of `custom.h` with the
 defaults of `inih.h`: a line buffer of 200 characters, continuation lines, a byte order mark, comments
 starting with ';' or '#', inline comments starting with ';' after white space, no stop at an error.
 */
module IniText {
  const MAX_LINE: nat := 200
  const MAX_SECTION: nat := 50
  const MAX_NAME: nat := 50
  const START_COMMENTS: string := ";#"
  const INLINE_COMMENTS: string := ";"
  const BOM: string := ['\U{EF}', '\U{BB}', '\U{BF}']

  // ------------------------------------------------------------------ characters and strings

  /** `isspace` in the C locale. */
  predicate IsSpace(c: char) { c == ' ' || '\U{09}' <= c <= '\U{0D}' }

  function RStripped(s: string): (r: string)
    ensures r <= s
    decreases |s|
  {
    if s == "" || !IsSpace(s[|s| - 1]) then s else RStripped(s[..|s| - 1])
  }

  function LStripped(s: string): (r: string)
    ensures |r| <= |s| && s[|s| - |r|..] == r
  {
    if s == "" || !IsSpace(s[0]) then s else LStripped(s[1..])
  }

  /** Where the scan for one of `chars` or an inline comment stops. */
  function FindStop(s: string, chars: string, wasSpace: bool): (r: nat)
    ensures r <= |s|
  {
    if s == "" then 0
    else if s[0] in chars || (wasSpace && s[0] in INLINE_COMMENTS) then 0
    else 1 + FindStop(s[1..], chars, IsSpace(s[0]))
  }

  function Cut(s: string, n: nat): string { if |s| <= n then s else s[..n] }

  predicate Trimmed(s: string) { s == "" || (!IsSpace(s[0]) && !IsSpace(s[|s| - 1])) }

  /** The i-th character ends a scan for `chars`. */
  predicate Stops(s: string, chars: string, i: nat)
    requires i < |s|
  {
    s[i] in chars || (i > 0 && IsSpace(s[i - 1]) && s[i] == ';')
  }

  /** The scan stops at the first character that ends it, or at the end of the string. */
  lemma {:induction false} FindStopExact(s: string, chars: string, wasSpace: bool)
    ensures var r := FindStop(s, chars, wasSpace);
            && (forall i :: 0 <= i < r ==> !Stops(s, chars, i))
            && (r < |s| ==> Stops(s, chars, r) || (r == 0 && wasSpace && s[r] == ';'))
  {
    if s != "" && !(s[0] in chars || (wasSpace && s[0] in INLINE_COMMENTS)) {
      var r := FindStop(s, chars, wasSpace);
      var rest := s[1..];
      FindStopExact(rest, chars, IsSpace(s[0]));
      forall i | 0 < i < r ensures !Stops(s, chars, i) {
        assert !Stops(rest, chars, i - 1);
        if i == 1 {
          assert FindStop(rest, chars, IsSpace(s[0])) > 0;
        }
      }
    }
  }

  lemma {:induction false} FindStopUnique(s: string, chars: string, r: nat)
    requires r <= |s| && (forall i :: 0 <= i < r ==> !Stops(s, chars, i)) && (r < |s| ==> Stops(s, chars, r))
    ensures FindStop(s, chars, false) == r
  {
    FindStopExact(s, chars, false);
  }

  /** Stripping leaves nothing at the ends, and takes nothing but white space. */
  lemma {:induction false} RStrippedExact(s: string)
    ensures var r := RStripped(s);
            && (r == "" || !IsSpace(r[|r| - 1]))
            && (forall i :: |r| <= i < |s| ==> IsSpace(s[i]))
    decreases |s|
  {
    if s != "" && IsSpace(s[|s| - 1]) {
      RStrippedExact(s[..|s| - 1]);
    }
  }

  lemma {:induction false} LStrippedExact(s: string)
    ensures var r := LStripped(s);
            && (r == "" || !IsSpace(r[0]))
            && (forall i :: 0 <= i < |s| - |r| ==> IsSpace(s[i]))
  {
    hide IsSpace;
    if s != "" && IsSpace(s[0]) {
      var rest := s[1..];
      LStrippedExact(rest);
      SpacesThen(s, |rest| - |LStripped(rest)|);
    }
  }

  lemma SpacesThen(s: string, n: nat)
    requires 0 < |s| && n < |s| && IsSpace(s[0]) && forall i :: 0 <= i < n ==> IsSpace(s[1..][i])
    ensures forall i :: 0 <= i < n + 1 ==> IsSpace(s[i])
  {
    hide IsSpace;
    var rest := s[1..];
    forall i | 0 < i < n + 1 ensures IsSpace(s[i]) {
      assert s[i] == rest[i - 1];
    }
  }

  // ------------------------------------------------------------------ one line

  datatype Kind =
    | Nothing
    | Continuation(value: string)
    | Section(section: string)
    | NoBracket
    | Pair(name: string, value: string)
    | NoDelimiter

  predicate HasBom(raw: string, first: bool) { first && BOM <= raw }

  function Body(raw: string, first: bool): string { if HasBom(raw, first) then raw[3..] else raw }

  function Content(raw: string, first: bool): string { LStripped(RStripped(Body(raw, first))) }

  function SectionKind(t: string): (k: Kind)
    requires t != ""
    ensures k.Section? || k == NoBracket
  {
    var e := 1 + FindStop(t[1..], "]", false);
    if e < |t| && t[e] == ']' then Section(t[1..e]) else NoBracket
  }

  function ValueOf(v: string): string { RStripped(LStripped(v[..FindStop(v, "", false)])) }

  function PairKind(t: string): (k: Kind)
    ensures k.Pair? || k == NoDelimiter
  {
    var e := FindStop(t, "=:", false);
    if e < |t| && t[e] in "=:" then Pair(RStripped(t[..e]), ValueOf(t[e + 1..])) else NoDelimiter
  }

  /** What a line is, given the name that a continuation would belong to. */
  function Classify(raw: string, first: bool, prevName: string): Kind {
    var t := Content(raw, first);
    if t == "" || t[0] in START_COMMENTS then Nothing
    else if prevName != "" && |t| < |RStripped(Body(raw, first))| + |raw| - |Body(raw, first)| then Continuation(t)
    else if t[0] == '[' then SectionKind(t)
    else PairKind(t)
  }

  datatype Call = Call(section: string, name: string, value: string, lineno: nat)

  /** The section and previous name the parser keeps, and the calls its handler has had. */
  datatype Context = Context(section: string, prevName: string, calls: seq<Call>)

  function Step(c: Context, raw: string, lineno: nat): Context {
    match Classify(raw, lineno == 1, c.prevName)
    case Continuation(value) => c.(calls := c.calls + [Call(c.section, c.prevName, value, lineno)])
    case Section(section) => c.(section := Cut(section, MAX_SECTION - 1), prevName := "")
    case Pair(name, value) =>
      c.(prevName := Cut(name, MAX_NAME - 1), calls := c.calls + [Call(c.section, name, value, lineno)])
    case _ => c
  }

  /** A line is bad if its ']' or its '=' or ':' is missing, or if the handler refuses its call. The handler
      may remember earlier calls, so its answer depends on all of them. */
  predicate Bad(accepts: seq<Call> -> bool, c: Context, raw: string, lineno: nat) {
    match Classify(raw, lineno == 1, c.prevName)
    case NoBracket | NoDelimiter => true
    case Continuation(_) | Pair(_, _) => !accepts(Step(c, raw, lineno).calls)
    case _ => false
  }

  // ------------------------------------------------------------------ the stream

  /** How many characters the string reader copies into a buffer with room for `room` of them. */
  function ChunkLen(text: string, room: nat): (n: nat)
    ensures n <= |text| && n <= room && (text != "" && room > 0 ==> n > 0)
  {
    if text == "" || room == 0 then 0
    else if text[0] == '\n' then 1
    else 1 + ChunkLen(text[1..], room - 1)
  }

  /** The lines the reader delivers. */
  function Lines(text: string): seq<string>
    decreases |text|
  {
    if text == "" then []
    else
      var n := ChunkLen(text, MAX_LINE - 1);
      [text[..n]] + Lines(text[n..])
  }

  function Concat(lines: seq<string>): string { if lines == [] then "" else lines[0] + Concat(lines[1..]) }

  datatype Parsed = Parsed(error: nat, context: Context)

  function ParseLine(accepts: seq<Call> -> bool, p: Parsed, raw: string, lineno: nat): Parsed {
    Parsed(if p.error == 0
        && Bad(accepts, p.context, raw, lineno) then lineno else p.error, Step(p.context, raw, lineno))
  }

  function ParseLines(accepts: seq<Call> -> bool, p: Parsed, lines: seq<string>, lineno: nat): Parsed
    decreases |lines|
  {
    if lines == [] then p
    else ParseLines(accepts, ParseLine(accepts, p, lines[0], lineno + 1), lines[1..], lineno + 1)
  }

  const START: Context := Context("", "", [])

  /** `ini_parse_string`. */
  function ParseString(accepts: seq<Call> -> bool, text: string): Parsed {
    ParseLines(accepts, Parsed(0, START), Lines(text), 0)
  }

  // ------------------------------------------------------------------ properties

  /** A chunk is at most as long as the room, ends with its only line feed, and ends early only there or
      at the end of the text. */
  lemma {:induction false} ChunkExact(text: string, room: nat)
    ensures var n := ChunkLen(text, room);
            && (forall i :: 0 <= i < n - 1 ==> text[i] != '\n')
            && (n < room && n < |text| ==> n > 0 && text[n - 1] == '\n')
  {
    if text != "" && room > 0 && text[0] != '\n' {
      var n := ChunkLen(text, room);
      ChunkExact(text[1..], room - 1);
      forall i | 0 < i < n - 1 ensures text[i] != '\n' {
        assert text[i] == text[1..][i - 1];
      }
    }
  }

  /** A chunk fits the buffer and has no line feed before its end, and it ends with one unless it fills the
      buffer or is the last. */
  predicate ChunkForm(l: string, last: bool) {
    && 0 < |l| <= 199
    && (forall i :: 0 <= i < |l| - 1 ==> l[i] != '\n')
    && (l[|l| - 1] == '\n' || |l| == 199 || last)
  }

  lemma ChunkIsLine(text: string, n: nat)
    requires text != "" && n == ChunkLen(text, MAX_LINE - 1)
    ensures 0 < n <= |text| && ChunkForm(text[..n], n == |text|)
  {
    ChunkExact(text, MAX_LINE - 1);
    hide ChunkLen;
  }

  /** The chunks the reader produces concatenate to the whole input, and none is longer than the buffer
      allows. */
  lemma {:induction false} LinesExact(text: string)
    ensures Concat(Lines(text)) == text
    ensures forall k :: 0 <= k < |Lines(text)| ==> ChunkForm(Lines(text)[k], k == |Lines(text)| - 1)
    decreases |text|
  {
    hide ChunkLen, ChunkForm;
    if text != "" {
      var n := ChunkLen(text, MAX_LINE - 1);
      ChunkIsLine(text, n);
      var rest := text[n..];
      LinesExact(rest);
      assert text == text[..n] + rest;
      forall k | 0 <= k < |Lines(text)| ensures ChunkForm(Lines(text)[k], k == |Lines(text)| - 1) {
        if k > 0 {
          assert Lines(text)[k] == Lines(rest)[k - 1];
        } else if n < |text| {
          assert rest != "" && |Lines(rest)| > 0;
        }
      }
    }
  }

  /** The context before line `k`, whether or not earlier lines were bad. */
  function ContextAt(c: Context, lines: seq<string>, lineno: nat, k: nat): Context
    requires k <= |lines|
  {
    if k == 0 then c else Step(ContextAt(c, lines, lineno, k - 1), lines[k - 1], lineno + k)
  }

  predicate BadAt(accepts: seq<Call> -> bool, c: Context, lines: seq<string>, lineno: nat, k: nat)
    requires k < |lines|
  {
    Bad(accepts, ContextAt(c, lines, lineno, k), lines[k], lineno + k + 1)
  }

  lemma {:induction false} ContextAtTail(c: Context, lines: seq<string>, lineno: nat, k: nat)
    requires 0 < k <= |lines|
    ensures ContextAt(c, lines, lineno, k) == ContextAt(Step(c, lines[0], lineno + 1), lines[1..], lineno + 1, k - 1)
  {
    if k > 1 {
      ContextAtTail(c, lines, lineno, k - 1);
    }
  }

  /** `error` is the number of the first bad line, or zero if there is none. */
  ghost predicate FirstBad(accepts: seq<Call> -> bool, c: Context, lines: seq<string>, lineno: nat, error: nat) {
    if error == 0 then forall k :: 0 <= k < |lines| ==> !BadAt(accepts, c, lines, lineno, k)
    else
      && lineno < error <= lineno + |lines|
      && BadAt(accepts, c, lines, lineno, error - lineno - 1)
      && forall k :: 0 <= k < error - lineno - 1 ==> !BadAt(accepts, c, lines, lineno, k)
  }

  /** Every line is processed, in order; the result is the number of the first bad one, or what it was. */
  lemma {:induction false} ParseLinesExact(accepts: seq<Call> -> bool, p: Parsed, lines: seq<string>, lineno: nat)
    ensures var r := ParseLines(accepts, p, lines, lineno);
            && r.context == ContextAt(p.context, lines, lineno, |lines|)
            && (if p.error != 0 then r.error == p.error else FirstBad(accepts, p.context, lines, lineno, r.error))
    decreases |lines|
  {
    hide Bad, Step;
    if lines != [] {
      var q := ParseLine(accepts, p, lines[0], lineno + 1);
      ParseLinesExact(accepts, q, lines[1..], lineno + 1);
      forall k | 0 < k <= |lines|
        ensures ContextAt(p.context, lines, lineno, k) == ContextAt(q.context, lines[1..], lineno + 1, k - 1)
        ensures k < |lines| ==>
                  (BadAt(accepts, p.context, lines, lineno, k)
                   <==> BadAt(accepts, q.context, lines[1..], lineno + 1, k - 1))
      {
        ContextAtTail(p.context, lines, lineno, k);
      }
      assert BadAt(accepts, p.context, lines, lineno, 0) <==> Bad(accepts, p.context, lines[0], lineno + 1);
    }
  }

  /** `ini_parse_string` returns zero exactly when no line is bad, and otherwise the number of the first bad
      line; the handler gets every call, also those after a bad line. */
  lemma FirstBadLine(accepts: seq<Call> -> bool, text: string)
    ensures var r := ParseString(accepts, text);
            && r.context == ContextAt(START, Lines(text), 0, |Lines(text)|)
            && FirstBad(accepts, START, Lines(text), 0, r.error)
  {
    hide FirstBad, ContextAt, Lines;
    ParseLinesExact(accepts, Parsed(0, START), Lines(text), 0);
  }
}
