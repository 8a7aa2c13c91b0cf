/**
 What one line of an INI text does, read off its characters: which lines are ignored, which continue the value
 before them, which are sections or pairs, and which are bad.
 */
module IniLines {
  import opened IniText

  /** White space: blank, tabulators, line feed, form feed and carriage return. */
  lemma SpaceExactly(c: char)
    ensures IsSpace(c) <==>
            c == ' ' || c == '\t' || c == '\n' || c == '\U{0B}' || c == '\U{0C}' || c == '\r'
  {
  }

  predicate AllSpaces(s: string) { forall i :: 0 <= i < |s| ==> IsSpace(s[i]) }

  /** The first character that is no white space, if there is one, starts a comment. */
  predicate IsIgnored(s: string) {
    forall k :: 0 <= k < |s| && !IsSpace(s[k]) && AllSpaces(s[..k]) ==> s[k] == ';' || s[k] == '#'
  }

  /** Something stands before the text of the line: white space, or a byte order mark. */
  predicate Indented(raw: string, first: bool) { HasBom(raw, first) || (raw != "" && IsSpace(raw[0])) }

  /** The text of the line is what is left without the white space around it; it starts at character `k`. */
  ghost predicate TextAt(body: string, t: string, k: nat) {
    && k + |t| <= |body| && body[k..k + |t|] == t
    && AllSpaces(body[..k]) && AllSpaces(body[k + |t|..])
    && (t != "" ==> !IsSpace(t[0]) && !IsSpace(t[|t| - 1]))
  }

  lemma ContentExact(body: string)
    ensures var t := LStripped(RStripped(body)); TextAt(body, t, |RStripped(body)| - |t|)
  {
    hide RStripped, LStripped, IsSpace;
    var r := RStripped(body);
    var t := LStripped(r);
    RStrippedExact(body);
    LStrippedExact(r);
    Between(body, r, t);
  }

  lemma Between(body: string, r: string, t: string)
    requires r <= body && |t| <= |r| && r[|r| - |t|..] == t
    requires forall i :: |r| <= i < |body| ==> IsSpace(body[i])
    requires forall i :: 0 <= i < |r| - |t| ==> IsSpace(r[i])
    requires (r == "" || !IsSpace(r[|r| - 1])) && (t == "" || !IsSpace(t[0]))
    ensures TextAt(body, t, |r| - |t|)
  {
    hide IsSpace;
    var k := |r| - |t|;
    assert body[k..k + |t|] == t;
    forall i | 0 <= i < k ensures IsSpace(body[..k][i]) {
      assert body[..k][i] == r[i];
    }
    forall i | 0 <= i < |body| - |r| ensures IsSpace(body[|r|..][i]) {
      assert body[|r|..][i] == body[|r| + i];
    }
  }

  lemma SpacesAt(s: string, n: nat)
    requires n <= |s| && AllSpaces(s[..n])
    ensures forall i :: 0 <= i < n ==> IsSpace(s[i])
  {
    hide IsSpace;
    forall i | 0 <= i < n ensures IsSpace(s[i]) {
      assert s[..n][i] == s[i];
    }
  }

  /** Such a text is empty exactly if the line is white space, and else starts with its first other character. */
  lemma TextStarts(body: string, t: string, k: nat)
    requires TextAt(body, t, k)
    ensures t == "" ==> AllSpaces(body)
    ensures t != "" ==> body[k] == t[0] && !IsSpace(body[k])
    ensures t != "" ==> forall j :: 0 <= j < |body| && !IsSpace(body[j]) && AllSpaces(body[..j]) ==> j == k
  {
    hide IsSpace;
    if t == "" {
      forall i | 0 <= i < |body| ensures IsSpace(body[i]) {
        assert i < k ==> body[..k][i] == body[i];
        assert k <= i ==> body[k..][i - k] == body[i];
      }
    } else {
      assert body[k] == body[k..k + |t|][0];
      SpacesAt(body, k);
      forall j | 0 <= j < |body| && !IsSpace(body[j]) && AllSpaces(body[..j]) ensures j == k {
        SpacesAt(body, j);
      }
    }
  }

  lemma IgnoredExact(body: string)
    ensures var t := LStripped(RStripped(body)); IsIgnored(body) <==> t == "" || t[0] in START_COMMENTS
  {
    hide RStripped, LStripped, IsSpace, TextAt;
    ContentExact(body);
    var t := LStripped(RStripped(body));
    var k := |RStripped(body)| - |t|;
    TextStarts(body, t, k);
    if t != "" {
      assert AllSpaces(body[..k]) by { TextBefore(body, t, k); }
    }
  }

  lemma TextBefore(body: string, t: string, k: nat)
    requires TextAt(body, t, k)
    ensures k + |t| <= |body| && AllSpaces(body[..k])
  {
  }

  /** Whether the text starts after the start of the line. */
  lemma IndentedExact(raw: string, first: bool)
    requires Content(raw, first) != ""
    ensures Indented(raw, first)
            <==> |Content(raw, first)| < |RStripped(Body(raw, first))| + |raw| - |Body(raw, first)|
  {
    hide RStripped, LStripped, IsSpace, TextAt;
    var body := Body(raw, first);
    ContentExact(body);
    var t := Content(raw, first);
    var k := |RStripped(body)| - |t|;
    TextStarts(body, t, k);
    TextBefore(body, t, k);
    if !HasBom(raw, first) && k > 0 {
      assert raw[..k][0] == raw[0];
    }
  }

  /** A line continues a value exactly if it has text that is no comment, is indented and follows a pair. */
  lemma ContinuesExact(raw: string, first: bool, prevName: string)
    ensures Classify(raw, first, prevName).Continuation?
            <==> !IsIgnored(Body(raw, first)) && prevName != "" && Indented(raw, first)
    ensures Classify(raw, first, prevName).Continuation? ==>
              Content(raw, first) != "" && Classify(raw, first, prevName).value == Content(raw, first)
  {
    hide RStripped, LStripped, IsIgnored, Indented, SectionKind, PairKind, Body;
    IgnoredExact(Body(raw, first));
    if Content(raw, first) != "" {
      IndentedExact(raw, first);
    }
  }

  /** No character of the string ends a scan for `chars`. */
  predicate Free(s: string, chars: string) { forall i :: 0 <= i < |s| ==> !Stops(s, chars, i) }

  /** No part of what a scan went over ends the scan. */
  lemma FreeSlice(s: string, chars: string, i: nat, j: nat)
    requires i <= j <= FindStop(s, chars, false)
    ensures Free(s[i..j], chars)
  {
    FindStopExact(s, chars, false);
    hide FindStop;
    forall k | 0 <= k < j - i ensures !Stops(s[i..j], chars, k) {
      assert !Stops(s, chars, i + k);
    }
  }

  /** The scan that starts at `from` ends at `e`, at one of `chars`. */
  predicate EndsAt(t: string, chars: string, from: nat, e: nat) {
    from <= e < |t| && t[e] in chars && Free(t[from..e], chars)
  }

  lemma EndsAtExact(t: string, chars: string, from: nat)
    requires from <= |t|
    ensures var e := from + FindStop(t[from..], chars, false);
            if e < |t| && t[e] in chars then
              EndsAt(t, chars, from, e) && (forall d: nat :: EndsAt(t, chars, from, d) ==> d == e)
            else forall d: nat :: !EndsAt(t, chars, from, d)
  {
    hide FindStop;
    var s := t[from..];
    FindStopExact(s, chars, false);
    var r := FindStop(s, chars, false);
    FreeSlice(s, chars, 0, r);
    assert t[from..from + r] == s[0..r];
    forall d: nat | EndsAt(t, chars, from, d) ensures d == from + r {
      EndsStops(t, chars, from, d);
      FindStopUnique(s, chars, d - from);
    }
  }

  lemma EndsStops(t: string, chars: string, from: nat, d: nat)
    requires EndsAt(t, chars, from, d)
    ensures Stops(t[from..], chars, d - from) && forall i :: 0 <= i < d - from ==> !Stops(t[from..], chars, i)
  {
    forall i | 0 <= i < d - from ensures !Stops(t[from..], chars, i) {
      assert !Stops(t[from..d], chars, i);
    }
  }

  /** A handler call: it is recorded, and makes the line bad if it is refused. */
  predicate Called(accepts: seq<Call> -> bool, c: Context, call: Call, c': Context, bad: bool) {
    c'.calls == c.calls + [call] && (bad <==> !accepts(c'.calls))
  }

  /** A line that starts with '[' names a section, cut to 49 characters, if there is a ']' before its end or an
      inline comment; else it is bad. */
  ghost predicate SectionSpec(c: Context, t: string, c': Context, bad: bool) {
    && (forall e: nat :: EndsAt(t, "]", 1, e) ==>
          c' == c.(section := if e <= 50 then t[1..e] else t[1..50], prevName := "") && !bad)
    && ((forall e: nat :: !EndsAt(t, "]", 1, e)) ==> c' == c && bad)
  }

  /** Any other line calls the handler with the name before its first '=' or ':' and the value behind, if there is
      one before its end or an inline comment; else it is bad. */
  ghost predicate PairSpec(accepts: seq<Call> -> bool, c: Context, t: string, lineno: nat, c': Context, bad: bool) {
    && (forall e: nat :: EndsAt(t, "=:", 0, e) ==>
          var name, value := RStripped(t[..e]), ValueOf(t[e + 1..]);
          && c' == c.(prevName := if |name| < 50 then name else name[..49], calls := c'.calls)
          && Called(accepts, c, Call(c.section, name, value, lineno), c', bad))
    && ((forall e: nat :: !EndsAt(t, "=:", 0, e)) ==> c' == c && bad)
  }

  /** What a line does to the context, and whether it is bad: blank lines and comments are ignored, an indented line
      after a pair continues its value, and the others are sections or pairs. */
  ghost predicate LineSpec(accepts: seq<Call> -> bool, c: Context, raw: string, lineno: nat, c': Context, bad: bool) {
    var first := lineno == 1;
    var t := Content(raw, first);
    if IsIgnored(Body(raw, first)) then c' == c && !bad
    else if c.prevName != "" && Indented(raw, first) then
      c' == c.(calls := c'.calls) && Called(accepts, c, Call(c.section, c.prevName, t, lineno), c', bad)
    else t != "" && if t[0] == '[' then SectionSpec(c, t, c', bad) else PairSpec(accepts, c, t, lineno, c', bad)
  }

  lemma SectionExact(c: Context, t: string)
    requires t != ""
    ensures var k := SectionKind(t);
            if k == NoBracket then SectionSpec(c, t, c, true)
            else SectionSpec(c, t, c.(section := Cut(k.section, MAX_SECTION - 1), prevName := ""), false)
  {
    hide FindStop, EndsAt;
    EndsAtExact(t, "]", 1);
  }

  lemma PairExact(accepts: seq<Call> -> bool, c: Context, t: string, lineno: nat)
    ensures var k := PairKind(t);
            if k == NoDelimiter then PairSpec(accepts, c, t, lineno, c, true)
            else
              var calls := c.calls + [Call(c.section, k.name, k.value, lineno)];
              PairSpec(accepts, c, t, lineno, c.(prevName := Cut(k.name, MAX_NAME - 1), calls := calls), !accepts(calls))
  {
    hide FindStop, EndsAt, RStripped, ValueOf;
    assert t[0..] == t;
    EndsAtExact(t, "=:", 0);
  }

  /** Main result. Every line does exactly that. */
  lemma LineExactly(accepts: seq<Call> -> bool, c: Context, raw: string, lineno: nat)
    ensures LineSpec(accepts, c, raw, lineno, Step(c, raw, lineno), Bad(accepts, c, raw, lineno))
  {
    hide SectionKind, PairKind, RStripped, LStripped, HasBom, SectionSpec, PairSpec, IsIgnored, Cut, Body, Indented;
    var first := lineno == 1;
    var t := Content(raw, first);
    IgnoredExact(Body(raw, first));
    if t != "" {
      IndentedExact(raw, first);
      SectionExact(c, t);
      PairExact(accepts, c, t, lineno);
    }
  }

  /** So for a whole text: the context goes from line to line like that, and the result is the number of the first
      line that is bad, or zero. */
  lemma TextExactly(accepts: seq<Call> -> bool, text: string)
    ensures var lines, r := Lines(text), ParseString(accepts, text);
            && FirstBad(accepts, START, lines, 0, r.error)
            && r.context == ContextAt(START, lines, 0, |lines|)
            && forall k :: 0 <= k < |lines| ==>
                 LineSpec(accepts, ContextAt(START, lines, 0, k), lines[k], k + 1, ContextAt(START, lines, 0, k + 1),
                          BadAt(accepts, START, lines, 0, k))
  {
    hide Lines, FirstBad, Step, Bad, LineSpec, ParseString;
    var lines := Lines(text);
    FirstBadLine(accepts, text);
    forall k | 0 <= k < |lines|
      ensures LineSpec(accepts, ContextAt(START, lines, 0, k), lines[k], k + 1, ContextAt(START, lines, 0, k + 1),
                       BadAt(accepts, START, lines, 0, k))
    {
      LineExactly(accepts, ContextAt(START, lines, 0, k), lines[k], k + 1);
    }
  }
}
