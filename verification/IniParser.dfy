/** inih's parser as it works in place, on a line buffer of characters that are overwritten with NULs. */
module IniParser {
  import opened IniText

  /** The NUL-terminated string at `s`. */
  ghost predicate At(b: seq<char>, s: nat, str: string) {
    s + |str| < |b| && b[s..s + |str|] == str && b[s + |str|] == '\0' && '\0' !in str
  }

  lemma AtIndex(b: seq<char>, s: nat, str: string, i: nat)
    requires At(b, s, str) && i <= |str|
    ensures s + i < |b| && (i < |str| ==> b[s + i] == str[i] != '\0') && (i == |str| ==> b[s + i] == '\0')
  {
    if i < |str| {
      assert b[s..s + |str|][i] == b[s + i];
    }
  }

  lemma AtTail(b: seq<char>, s: nat, str: string, i: nat)
    requires At(b, s, str) && i <= |str|
    ensures At(b, s + i, str[i..])
  {
    assert b[s + i..s + |str|] == b[s..s + |str|][i..];
  }

  /** Writing a NUL inside a string cuts it off. */
  lemma AtCut(b: seq<char>, c: seq<char>, s: nat, str: string, i: nat)
    requires At(b, s, str) && i <= |str| && |c| == |b| && c[s + i] == '\0'
    requires forall k :: s <= k < s + i ==> c[k] == b[k]
    ensures At(c, s, str[..i])
  {
    assert c[s..s + i] == b[s..s + |str|][..i];
  }

  lemma AtSame(b: seq<char>, c: seq<char>, s: nat, str: string)
    requires At(b, s, str) && |c| == |b| && forall k :: s <= k <= s + |str| ==> c[k] == b[k]
    ensures At(c, s, str)
  {
    assert c[s..s + |str|] == b[s..s + |str|];
  }

  // ------------------------------------------------------------------ helpers

  method StrLen(a: array<char>, s: nat, ghost str: string) returns (n: nat)
    requires At(a[..], s, str)
    ensures n == |str|
  {
    n := 0;
    AtIndex(a[..], s, str, 0);
    while a[s + n] != '\0'
      invariant n <= |str| && s + n < a.Length
      invariant n < |str| ==> a[s + n] != '\0'
      decreases |str| - n
    {
      AtIndex(a[..], s, str, n);
      n := n + 1;
      AtIndex(a[..], s, str, n);
    }
  }

  method RStrip(a: array<char>, s: nat, ghost str: string)
    requires At(a[..], s, str)
    modifies a
    ensures At(a[..], s, RStripped(str))
    ensures forall k :: 0 <= k < a.Length && !(s <= k < s + |str|) ==> a[k] == old(a[k])
  {
    var n := StrLen(a, s, str);
    var p := s + n;
    ghost var before := a[..];
    assert str[..|str|] == str;
    while p > s && IsSpace(a[p - 1])
      invariant s <= p <= s + |str|
      invariant At(a[..], s, str[..p - s]) && RStripped(str[..p - s]) == RStripped(str)
      invariant forall k :: 0 <= k < a.Length && !(p <= k < s + |str|) ==> a[k] == before[k]
    {
      ghost var cut := str[..p - s];
      AtIndex(a[..], s, cut, p - 1 - s);
      ghost var old_a := a[..];
      p := p - 1;
      a[p] := '\0';
      AtCut(old_a, a[..], s, cut, p - s);
      assert cut[..p - s] == str[..p - s];
    }
    if p > s {
      AtIndex(a[..], s, str[..p - s], p - 1 - s);
    }
  }

  method LSkip(a: array<char>, s: nat, ghost str: string) returns (p: nat)
    requires At(a[..], s, str)
    ensures s <= p && p == s + |str| - |LStripped(str)| && At(a[..], p, LStripped(str))
  {
    p := s;
    AtIndex(a[..], s, str, 0);
    ghost var rest := str;
    while a[p] != '\0' && IsSpace(a[p])
      invariant s <= p <= s + |str| && At(a[..], p, rest) && p < a.Length
      invariant |rest| == s + |str| - p && LStripped(rest) == LStripped(str)
      decreases |rest|
    {
      AtIndex(a[..], p, rest, 0);
      AtTail(a[..], p, rest, 1);
      rest := rest[1..];
      p := p + 1;
    }
    AtIndex(a[..], p, rest, 0);
  }

  /** `chars` is empty where the source passes NULL. */
  method FindCharsOrComment(a: array<char>, s: nat, chars: string, ghost str: string) returns (p: nat)
    requires At(a[..], s, str)
    ensures p == s + FindStop(str, chars, false)
  {
    p := s;
    var wasSpace := false;
    AtIndex(a[..], s, str, 0);
    ghost var rest := str;
    while a[p] != '\0' && a[p] !in chars && !(wasSpace && a[p] in INLINE_COMMENTS)
      invariant s <= p <= s + |str| && At(a[..], p, rest) && p < a.Length
      invariant |rest| == s + |str| - p && p + FindStop(rest, chars, wasSpace) == s + FindStop(str, chars, false)
      decreases |rest|
    {
      AtIndex(a[..], p, rest, 0);
      AtTail(a[..], p, rest, 1);
      rest := rest[1..];
      wasSpace := IsSpace(a[p]);
      p := p + 1;
    }
    AtIndex(a[..], p, rest, 0);
  }

  method Strncpy0(dest: array<char>, src: array<char>, s: nat, size: nat, ghost str: string)
    requires dest != src && 0 < size == dest.Length && At(src[..], s, str)
    modifies dest
    ensures At(dest[..], 0, Cut(str, size - 1))
  {
    var i := 0;
    AtIndex(src[..], s, str, 0);
    while i < size - 1 && src[s + i] != '\0'
      invariant 0 <= i <= size - 1 && i <= |str| && s + i < src.Length && src[..] == old(src[..])
      invariant dest[..i] == str[..i]
    {
      AtIndex(src[..], s, str, i);
      dest[i] := src[s + i];
      i := i + 1;
      AtIndex(src[..], s, str, i);
    }
    AtIndex(src[..], s, str, i);
    dest[i] := '\0';
    assert dest[..][0..i] == dest[..i] == str[..i];
  }

  /** What a handler sees of a string it is passed. */
  method Seen(a: array<char>, s: nat, ghost str: string) returns (r: string)
    requires At(a[..], s, str)
    ensures r == str
  {
    var n := StrLen(a, s, str);
    r := a[s..s + n];
    assert r == a[..][s..s + |str|];
  }

  /** `ini_reader_string`: the next chunk of the text from `pos` into the buffer. */
  method ReadLine(text: string, pos: nat, a: array<char>) returns (more: bool, next: nat)
    requires pos <= |text| && '\0' !in text && a.Length >= 2
    modifies a
    ensures more <==> pos < |text|
    ensures more ==>
              var n := ChunkLen(text[pos..], a.Length - 1);
              next == pos + n && n > 0 && At(a[..], 0, text[pos..next])
    ensures !more ==> next == pos
  {
    next := pos;
    var numLeft, num := |text| - pos, a.Length;
    if numLeft == 0 || num < 2 {
      return false, next;
    }
    more := true;
    var strp := 0;
    var stop := false;
    while num > 1 && numLeft != 0 && !stop
      invariant pos <= next <= |text| && numLeft == |text| - next && strp == next - pos
      invariant 0 <= strp < a.Length && 1 <= num && (!stop ==> num == a.Length - strp)
      invariant a[..strp] == text[pos..next]
      invariant ChunkLen(text[pos..], a.Length - 1)
                == strp + if stop then 0 else ChunkLen(text[next..], num - 1)
      decreases numLeft
    {
      var c := text[next];
      assert text[next..][1..] == text[next + 1..];
      next := next + 1;
      numLeft := numLeft - 1;
      a[strp] := c;
      strp := strp + 1;
      if c == '\n' {
        stop := true;
      } else {
        num := num - 1;
      }
    }
    a[strp] := '\0';
    assert a[..][0..strp] == a[..strp] == text[pos..next];
  }

  // ------------------------------------------------------------------ one line

  /** Skips a byte order mark, strips the line and skips its leading white space. */
  method Strip(line: array<char>, first: bool, ghost raw: string) returns (start: nat)
    requires line.Length >= 3 && At(line[..], 0, raw)
    modifies line
    ensures At(line[..], start, Content(raw, first))
    ensures start == |raw| - |Body(raw, first)| + |RStripped(Body(raw, first))| - |Content(raw, first)|
  {
    start := 0;
    BomAt(line[..], raw);
    if first && line[0] == BOM[0] && line[1] == BOM[1] && line[2] == BOM[2] {
      start := 3;
      AtTail(line[..], 0, raw, 3);
    }
    RStrip(line, start, Body(raw, first));
    start := LSkip(line, start, RStripped(Body(raw, first)));
  }

  lemma BomAt(b: seq<char>, raw: string)
    requires At(b, 0, raw) && |b| >= 3
    ensures b[0] == BOM[0] && b[1] == BOM[1] && b[2] == BOM[2] <==> BOM <= raw
  {
    if |raw| >= 3 {
      assert raw[0] == b[0..|raw|][0] && raw[1] == b[0..|raw|][1] && raw[2] == b[0..|raw|][2];
      assert BOM == [BOM[0], BOM[1], BOM[2]];
    } else {
      AtIndex(b, 0, raw, |raw|);
    }
  }

  /** A "[section]" line. */
  method SectionLine(line: array<char>, start: nat, section: array<char>, prevName: array<char>, ghost t: string)
    returns (ok: bool)
    requires line != section && line != prevName && section != prevName
    requires section.Length == MAX_SECTION && prevName.Length == MAX_NAME
    requires t != "" && At(line[..], start, t)
    modifies line, section, prevName
    ensures ok <==> SectionKind(t).Section?
    ensures ok ==> At(section[..], 0, Cut(SectionKind(t).section, MAX_SECTION - 1)) && At(prevName[..], 0, "")
    ensures !ok ==> section[..] == old(section[..]) && prevName[..] == old(prevName[..])
  {
    hide FindStop;
    AtTail(line[..], start, t, 1);
    ghost var rest := t[1..];
    var end := FindCharsOrComment(line, start + 1, "]", rest);
    ghost var e := FindStop(rest, "]", false);
    AtIndex(line[..], start + 1, rest, e);
    assert t[1..][..e] == t[1..1 + e];
    ok := line[end] == ']';
    if ok {
      ghost var before := line[..];
      line[end] := '\0';
      AtCut(before, line[..], start + 1, rest, e);
      Strncpy0(section, line, start + 1, MAX_SECTION, rest[..e]);
      prevName[0] := '\0';
    }
  }

  /** A "name = value" line: where its name and its value are, if it has a delimiter. */
  method PairLine(line: array<char>, start: nat, ghost t: string) returns (ok: bool, value: nat)
    requires At(line[..], start, t)
    modifies line
    ensures ok <==> PairKind(t).Pair?
    ensures ok ==> At(line[..], start, PairKind(t).name) && At(line[..], value, PairKind(t).value)
  {
    hide FindStop, RStripped, LStripped, At, ValueOf;
    value := 0;
    var end := FindCharsOrComment(line, start, "=:", t);
    ghost var e := FindStop(t, "=:", false);
    AtIndex(line[..], start, t, e);
    ok := line[end] == '=' || line[end] == ':';
    if !ok {
      return;
    }
    AtTail(line[..], start, t, e + 1);
    ghost var v, before := t[e + 1..], line[..];
    line[end] := '\0';
    AtCut(before, line[..], start, t, e);
    AtSame(before, line[..], end + 1, v);
    ghost var parted := line[..];
    RStrip(line, start, t[..e]);
    AtSame(parted, line[..], end + 1, v);
    value := TrimValue(line, start, end, RStripped(t[..e]), v);
  }

  /** Cuts an inline comment off the value after `end`, and white space on both sides. */
  method TrimValue(line: array<char>, start: nat, end: nat, ghost name: string, ghost v: string) returns (value: nat)
    requires At(line[..], start, name) && start + |name| <= end && At(line[..], end + 1, v)
    modifies line
    ensures At(line[..], start, name) && At(line[..], value, ValueOf(v))
  {
    hide FindStop, RStripped, LStripped, At;
    ghost var before := line[..];
    ghost var f := FindStop(v, "", false);
    var stop := FindCharsOrComment(line, end + 1, "", v);
    AtIndex(line[..], end + 1, v, f);
    if line[stop] != '\0' {
      line[stop] := '\0';
    }
    ghost var cut := line[..];
    AtCut(before, cut, end + 1, v, f);
    value := LSkip(line, end + 1, v[..f]);
    RStrip(line, value, LStripped(v[..f]));
    AtSame(before, line[..], start, name);
  }

  /** What `ini_parse_stream` keeps between two lines. */
  ghost predicate Keeps(section: seq<char>, prevName: seq<char>, error: nat, calls: seq<Call>, p: Parsed) {
    && At(section, 0, p.context.section) && At(prevName, 0, p.context.prevName)
    && error == p.error && calls == p.context.calls
  }

  /** One round of the loop of `ini_parse_stream`. */
  method ScanLine(line: array<char>, section: array<char>, prevName: array<char>, lineno: nat, error0: nat,
                  calls0: seq<Call>, accepts: seq<Call> -> bool, ghost raw: string, ghost p: Parsed)
    returns (error: nat, calls: seq<Call>)
    requires line != section && line != prevName && section != prevName
    requires line.Length == MAX_LINE && section.Length == MAX_SECTION && prevName.Length == MAX_NAME
    requires At(line[..], 0, raw) && Keeps(section[..], prevName[..], error0, calls0, p)
    modifies line, section, prevName
    ensures Keeps(section[..], prevName[..], error, calls, ParseLine(accepts, p, raw, lineno))
  {
    hide RStripped, LStripped, SectionKind, PairKind, Content, Body;
    error, calls := error0, calls0;
    ghost var t := Content(raw, lineno == 1);
    var start := Strip(line, lineno == 1, raw);
    AtIndex(line[..], start, t, 0);
    AtIndex(prevName[..], 0, p.context.prevName, 0);
    if line[start] == '\0' || line[start] in START_COMMENTS {
    } else if prevName[0] != '\0' && line[start] != '\0' && start > 0 {
      var sec := Seen(section, 0, p.context.section);
      var name := Seen(prevName, 0, p.context.prevName);
      var value := Seen(line, start, t);
      calls := calls + [Call(sec, name, value, lineno)];
      if !accepts(calls) && error == 0 {
        error := lineno;
      }
    } else if line[start] == '[' {
      var ok := SectionLine(line, start, section, prevName, t);
      if !ok && error == 0 {
        error := lineno;
      }
    } else {
      var ok, at := PairLine(line, start, t);
      if ok {
        ghost var kind := PairKind(t);
        var sec := Seen(section, 0, p.context.section);
        var name := Seen(line, start, kind.name);
        var value := Seen(line, at, kind.value);
        Strncpy0(prevName, line, start, MAX_NAME, kind.name);
        calls := calls + [Call(sec, name, value, lineno)];
        if !accepts(calls) && error == 0 {
          error := lineno;
        }
      } else if error == 0 {
        error := lineno;
      }
    }
  }

  // ------------------------------------------------------------------ the whole text

  /** What is still to be parsed after some lines. */
  ghost function Rest(accepts: seq<Call> -> bool, p: Parsed, text: string, pos: nat, lineno: nat): Parsed
    requires pos <= |text|
  {
    ParseLines(accepts, p, Lines(text[pos..]), lineno)
  }

  lemma RestStep(accepts: seq<Call> -> bool, p: Parsed, text: string, pos: nat, lineno: nat)
    requires pos < |text|
    ensures var n := ChunkLen(text[pos..], MAX_LINE - 1);
            n > 0 && pos + n <= |text|
            && Rest(accepts, p, text, pos, lineno)
               == Rest(accepts, ParseLine(accepts, p, text[pos..pos + n], lineno + 1), text, pos + n, lineno + 1)
  {
    hide ParseLine, ChunkLen;
    var here := text[pos..];
    var n := ChunkLen(here, MAX_LINE - 1);
    assert here[..n] == text[pos..pos + n] && here[n..] == text[pos + n..];
    assert Lines(here)[1..] == Lines(here[n..]);
  }

  lemma RestEnds(accepts: seq<Call> -> bool, p: Parsed, text: string, lineno: nat)
    ensures Rest(accepts, p, text, |text|, lineno) == p
              && Rest(accepts, p, text, 0, lineno) == ParseLines(accepts, p, Lines(text), lineno)
  {
    hide ParseLine, ChunkLen;
    assert text[|text|..] == "" && text[0..] == text;
  }

  /** `ini_parse_string`: `ini_parse_stream` with the string reader. */
  method ParseText(text: string, accepts: seq<Call> -> bool) returns (error: nat, calls: seq<Call>)
    requires '\0' !in text
    ensures error == ParseString(accepts, text).error && calls == ParseString(accepts, text).context.calls
  {
    hide ParseLines, ParseLine, Lines, ChunkLen, Rest, At;
    var line := new char[MAX_LINE];
    var section, prevName := new char[MAX_SECTION], new char[MAX_NAME];
    section[0], prevName[0] := '\0', '\0';
    EmptyAt(section[..]);
    EmptyAt(prevName[..]);
    var lineno := 0;
    error, calls := 0, [];
    ghost var p := Parsed(0, START);
    RestEnds(accepts, p, text, 0);
    var more, pos := true, 0;
    while more
      invariant pos <= |text| && Keeps(section[..], prevName[..], error, calls, p)
      invariant !more ==> pos == |text|
      invariant Rest(accepts, p, text, pos, lineno) == ParseString(accepts, text)
      decreases |text| - pos, more
    {
      ghost var from := pos;
      more, pos := ReadLine(text, pos, line);
      if more {
        lineno := lineno + 1;
        RestStep(accepts, p, text, from, lineno - 1);
        ghost var raw := text[from..pos];
        error, calls := ScanLine(line, section, prevName, lineno, error, calls, accepts, raw, p);
        p := ParseLine(accepts, p, raw, lineno);
      }
    }
    RestEnds(accepts, p, text, lineno);
  }

  lemma EmptyAt(b: seq<char>)
    requires b != [] && b[0] == '\0'
    ensures At(b, 0, "")
  {
  }
}
