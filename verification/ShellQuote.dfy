/**
 `escapeshellarg` against the quoting rules of sections 2.2.1 and 2.2.2 of the POSIX.1-2017 Shell Command
 Language.
 */
module ShellQuote {
  import opened Common

  // ------------------------------------------------------------------ what a shell reads

  /** Characters that mean something to the shell, or end the word, when they are not quoted. */
  predicate Special(c: char) { c in "|&;<>()$`\"*?[#~=%!{} \t\n" }

  function Prefixed(c: char, rest: Option<string>): Option<string> {
    match rest
    case None => None
    case Some(s) => Some([c] + s)
  }

  /** The text the shell takes one word to stand for. Inside single quotes every character is itself up to
      the next single quote; outside, a backslash quotes the next character, and joins lines before a line
      feed. `None` if the word does not end with the text, or is not plain text. */
  function Word(s: string, quoted: bool): Option<string>
    decreases |s|
  {
    if s == "" then (if quoted then None else Some(""))
    else if quoted then
      if s[0] == '\'' then Word(s[1..], false) else Prefixed(s[0], Word(s[1..], true))
    else if s[0] == '\'' then Word(s[1..], true)
    else if s[0] == '\\' then
      if |s| == 1 then None
      else if s[1] == '\n' then Word(s[2..], false)
      else Prefixed(s[1], Word(s[2..], false))
    else if Special(s[0]) then None
    else Prefixed(s[0], Word(s[1..], false))
  }

  // ------------------------------------------------------------------ what the function produces

  /** One character of the argument. */
  function Escape(c: char): string { if c == '\'' then ['\'', '\\', '\'', '\''] else [c] }

  function Escaped(s: string): string { if s == "" then "" else Escaped(s[..|s| - 1]) + Escape(s[|s| - 1]) }

  function Quotes(s: string): nat { if s == "" then 0 else Quotes(s[..|s| - 1]) + if s[|s| - 1] == '\'' then 1 else 0 }

  function Quoted(s: string): string { ['\''] + Escaped(s) + ['\''] }

  /** `cmd[y++] = c`; a write outside the buffer has no effect here. */
  method Append(cmd: array<char>, y: nat, c: char) returns (next: nat)
    modifies cmd
    ensures next == y + 1
    ensures y < cmd.Length ==> cmd[..next] == old(cmd[..y]) + [c]
    ensures forall k :: next <= k < cmd.Length ==> cmd[k] == old(cmd[k])
  {
    if y < cmd.Length {
      cmd[y] := c;
    }
    next := y + 1;
  }

  /** One turn of the loop over the argument. */
  method AppendEscaped(cmd: array<char>, y: nat, c: char) returns (next: nat)
    modifies cmd
    ensures next == y + |Escape(c)|
    ensures next <= cmd.Length ==> cmd[..next] == old(cmd[..y]) + Escape(c)
    ensures forall k :: next <= k < cmd.Length ==> cmd[k] == old(cmd[k])
  {
    next := y;
    ghost var before := if y <= cmd.Length then cmd[..y] else [];
    if c == '\'' {
      next := Append(cmd, next, '\'');
      next := Append(cmd, next, '\\');
      next := Append(cmd, next, '\'');
    }
    next := Append(cmd, next, c);
    assert next <= cmd.Length ==> cmd[..next] == before + Escape(c);
  }

  /** `escapeshellarg`, with the argument's characters before its NUL (or the first `len` of them) as `str`.
      `inside` says that it wrote nothing outside the buffer, whether the caller's or, if the caller passes
      none, its own; `LargeEnough` says when its own has room. */
  method EscapeShellArg(alloc: array?<char>, str: string) returns (cmd: array<char>, resLen: nat, inside: bool)
    modifies if alloc == null then {} else {alloc}
    ensures if alloc == null then fresh(cmd) && cmd.Length == 4 * |str| + 1 else cmd == alloc
    ensures resLen == |Quoted(str)| && (inside <==> resLen < cmd.Length)
    ensures inside ==> cmd[..resLen] == Quoted(str) && cmd[resLen] == '\0'
    ensures alloc != null ==> forall k :: resLen < k < cmd.Length ==> cmd[k] == old(alloc[k])
  {
    hide Escaped, Escape;
    var l := |str|;
    if alloc == null {
      cmd := new char[l * 4 + 1];
    } else {
      cmd := alloc;
    }
    label Start:
    ghost var room := |Quoted(str)| < cmd.Length;
    var y := Append(cmd, 0, '\'');
    NothingEscaped(str);
    var x := 0;
    while x < l
      invariant 0 <= x <= l && y == 1 + |Escaped(str[..x])|
      invariant room ==> y < cmd.Length && cmd[..y] == ['\''] + Escaped(str[..x])
      invariant forall k :: y <= k < cmd.Length ==> cmd[k] == old@Start(cmd[k])
    {
      EscapedNext(str, x);
      ghost var sofar := Escaped(str[..x]);
      y := AppendEscaped(cmd, y, str[x]);
      Joined(sofar, str[x]);
      x := x + 1;
    }
    assert str[..l] == str;
    y := Append(cmd, y, '\'');
    resLen := y;
    y := Append(cmd, y, '\0');
    inside := y <= cmd.Length;
    assert inside ==> cmd[..y][..resLen] == cmd[..resLen];
  }

  lemma NothingEscaped(str: string)
    ensures Escaped(str[..0]) == "" && ['\''] + Escaped(str[..0]) == [] + ['\'']
  {
  }

  lemma Joined(sofar: string, c: char)
    ensures ['\''] + (sofar + Escape(c)) == ['\''] + sofar + Escape(c)
  {
  }

  lemma EscapedNext(str: string, x: nat)
    requires x < |str|
    ensures Escaped(str[..x + 1]) == Escaped(str[..x]) + Escape(str[x])
    ensures |Escaped(str[..x + 1])| <= |Escaped(str)|
  {
    var s := str[..x + 1];
    assert s[..|s| - 1] == str[..x];
    EscapedShorter(str, x + 1);
  }

  lemma {:induction false} EscapedShorter(str: string, x: nat)
    requires x <= |str|
    ensures |Escaped(str[..x])| <= |Escaped(str)|
    decreases |str|
  {
    if x == |str| {
      assert str[..x] == str;
    } else {
      var t := str[..|str| - 1];
      EscapedShorter(t, x);
      assert t[..x] == str[..x];
    }
  }

  // ------------------------------------------------------------------ properties

  /** Reading an escaped string inside quotes gives it back and stays inside quotes. */
  lemma {:induction false} EscapedRead(s: string, tail: string)
    ensures Word(Escaped(s) + tail, true)
            == match Word(tail, true) case None => None case Some(t) => Some(s + t)
    decreases |s|
  {
    hide Word, Escape;
    if s == "" {
      assert "" + tail == tail;
      match Word(tail, true) {
        case None =>
        case Some(t) => assert "" + t == t;
      }
    } else {
      var c, t := s[|s| - 1], s[..|s| - 1];
      EscapedRead(t, Escape(c) + tail);
      EscapeRead(c, tail);
      assert Escaped(s) + tail == Escaped(t) + (Escape(c) + tail);
      match Word(tail, true) {
        case None =>
        case Some(u) => assert t + ([c] + u) == s + u;
      }
    }
  }

  lemma EscapeRead(c: char, tail: string)
    ensures Word(Escape(c) + tail, true) == Prefixed(c, Word(tail, true))
  {
    var s := Escape(c) + tail;
    if c == '\'' {
      var s1, s3 := s[1..], s[1..][2..];
      assert s1[0] == '\\' && s1[1] == '\'' && s3[0] == '\'' && s3[1..] == tail;
      assert Word(s3, false) == Word(tail, true);
      assert Word(s1, false) == Prefixed('\'', Word(s3, false));
    } else {
      assert s[1..] == tail;
    }
  }

  /** The shell reads the output as one word that stands for exactly the argument. */
  lemma ShellReadsBack(s: string)
    ensures Word(Quoted(s), false) == Some(s)
  {
    EscapedRead(s, "'");
    assert Quoted(s)[1..] == Escaped(s) + "'";
    assert "'"[1..] == "";
    assert Word("'", true) == Some("");
    assert s + "" == s;
  }

  /** The output is as long as the argument, plus three for each quote in it, plus two. */
  lemma {:induction false} QuotedLength(s: string)
    ensures |Quoted(s)| == |s| + 3 * Quotes(s) + 2
    decreases |s|
  {
    if s != "" {
      QuotedLength(s[..|s| - 1]);
    }
  }

  lemma {:induction false} AllQuotes(s: string)
    ensures Quotes(s) <= |s|
    ensures Quotes(s) == |s| <==> forall i :: 0 <= i < |s| ==> s[i] == '\''
    decreases |s|
  {
    if s != "" {
      var t := s[..|s| - 1];
      AllQuotes(t);
      assert forall i :: 0 <= i < |t| ==> t[i] == s[i];
      if forall i :: 0 <= i < |s| ==> s[i] == '\'' {
        assert forall i :: 0 <= i < |t| ==> t[i] == '\'';
      } else if s[|s| - 1] == '\'' {
        var i :| 0 <= i < |s| && s[i] != '\'';
        assert t[i] != '\'';
      }
    }
  }

  /** The buffer the function allocates itself has room for the output and its NUL exactly if the argument
      has a character that is not a single quote. So for the empty argument, and for one of nothing but
      quotes, the caller has to pass a buffer. */
  lemma LargeEnough(s: string)
    ensures |Quoted(s)| < 4 * |s| + 1 <==> exists i :: 0 <= i < |s| && s[i] != '\''
  {
    QuotedLength(s);
    AllQuotes(s);
  }
}
