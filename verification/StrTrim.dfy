/** `strtriml_move`: white space is cut off both ends of a string, in place. */
module StrTrim {
  import opened IniText
  import opened IniParser

  function Trim(s: string): string { RStripped(LStripped(s)) }

  /** `t` is the part of `s` from `i` on, and what is around it is white space. */
  ghost predicate Middle(s: string, t: string, i: nat) {
    i + |t| <= |s| && t == s[i..i + |t|] && forall k :: 0 <= k < |s| && !(i <= k < i + |t|) ==> IsSpace(s[k])
  }

  /** The result is a middle part with nothing but white space around it, and none at its ends. */
  lemma TrimExact(s: string)
    ensures Trimmed(Trim(s))
    ensures exists i: nat :: Middle(s, Trim(s), i)
  {
    hide IsSpace, RStripped, LStripped;
    var t := LStripped(s);
    LStrippedExact(s);
    RStrippedExact(t);
    var i := |s| - |t|;
    assert Trim(s) == s[i..i + |Trim(s)|];
    assert forall k :: 0 <= k < i ==> IsSpace(s[k]);
    forall k | i + |Trim(s)| <= k < |s| ensures IsSpace(s[k]) {
      assert s[k] == t[k - i];
    }
    assert Middle(s, Trim(s), i);
  }

  /** `len` is the length of the string; the array holds it at its start. */
  method StrTrimLMove(a: array<char>, len: nat, ghost str: string)
    requires At(a[..], 0, str) && len == |str|
    modifies a
    ensures At(a[..], 0, Trim(str))
    ensures forall k :: len <= k < a.Length ==> a[k] == old(a[k])
  {
    hide RStripped, IsSpace, LStripped, At;
    ghost var t := LStripped(str);
    if len == 0 {
      EmptyTrim();
      return;
    }
    var end := len - 1;
    var start := SkipSpaces(a, len, str);
    LStrippedExact(str);
    AtIndex(a[..], start, t, 0);
    if a[start] == '\0' && start == end + 1 {
      EmptyTrim();
      a[0] := '\0';
      EmptyAt(a[..]);
      return;
    }
    end := SkipSpacesBack(a, start, end, t);
    MoveDown(a, start, end - start + 1, t);
  }

  /** The `memmove` of the first `n` characters of the string at `start` to the front, and the NUL after
      them. */
  method MoveDown(a: array<char>, start: nat, n: nat, ghost t: string)
    requires At(a[..], start, t) && n <= |t|
    modifies a
    ensures At(a[..], 0, t[..n])
    ensures forall k :: start + |t| <= k < a.Length ==> a[k] == old(a[k])
  {
    hide At;
    ghost var before := a[..];
    AtIndex(before, start, t, n);
    AtIndex(before, start, t, |t|);
    if start != 0 {
      forall i | 0 <= i < n {
        a[i] := a[start + i];
      }
    }
    a[n] := '\0';
    Moved(before, a[..], start, t, n);
  }

  lemma EmptyTrim()
    ensures RStripped("") == "" && LStripped("") == ""
  {
  }

  /** The first `n` characters of the string at `start`, moved to the front and ended there. */
  lemma Moved(b: seq<char>, c: seq<char>, start: nat, t: string, n: nat)
    requires At(b, start, t) && n <= |t| && |c| == |b| && c[n] == '\0'
    requires forall i :: 0 <= i < n ==> c[i] == b[start + i]
    ensures At(c, 0, t[..n])
  {
    assert b[start..start + |t|][..n] == b[start..start + n];
    assert c[0..n] == b[start..start + n];
  }

  method SkipSpaces(a: array<char>, len: nat, ghost str: string) returns (start: nat)
    requires At(a[..], 0, str) && len == |str| > 0
    ensures start == len - |LStripped(str)| && At(a[..], start, LStripped(str))
  {
    start := 0;
    ghost var rest := str;
    AtIndex(a[..], 0, str, 0);
    while IsSpace(a[start])
      invariant 0 <= start <= len && start < a.Length && At(a[..], start, rest)
      invariant |rest| == len - start && LStripped(rest) == LStripped(str)
      decreases |rest|
    {
      AtIndex(a[..], start, rest, 0);
      if start == len {
        // The NUL is no white space, so this is never reached.
        assert false;
      }
      AtTail(a[..], start, rest, 1);
      rest := rest[1..];
      start := start + 1;
    }
    AtIndex(a[..], start, rest, 0);
  }

  method SkipSpacesBack(a: array<char>, start: nat, last: nat, ghost t: string) returns (end: nat)
    requires At(a[..], start, t) && t != "" && !IsSpace(t[0]) && last == start + |t| - 1
    ensures start <= end <= last && RStripped(t) == t[..end - start + 1]
  {
    end := last;
    assert t[..|t|] == t;
    AtIndex(a[..], start, t, end - start);
    while IsSpace(a[end])
      invariant start <= end <= last && RStripped(t) == RStripped(t[..end - start + 1]) && a[end] == t[end - start]
      decreases end
    {
      ghost var u := t[..end - start + 1];
      assert u[..|u| - 1] == t[..end - start];
      end := end - 1;
      AtIndex(a[..], start, t, end - start);
    }
  }
}
