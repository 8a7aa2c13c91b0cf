/**
 The credentials in an auth packet: two arrays of 256 characters, in which the server reads the strings up to
 the first NUL, or the first 255 characters. A receive writes as many bytes as arrived and leaves what the
 packet buffer held after them, and the server reads the arrays whatever the number was.
 */
module AuthPacket {

  const FIELD: nat := 256
  const AUTH_LEN: nat := 512

  /** What a field can hold. */
  type Text = s: string | |s| < FIELD && '\0' !in s

  type Creds = s: string | |s| == AUTH_LEN witness seq(AUTH_LEN, _ => '\0')

  /** The string up to its first NUL. */
  function UpToNul(s: string): (r: string)
    ensures r <= s && '\0' !in r
    ensures |r| < |s| ==> s[|r|] == '\0'
  {
    if s == [] || s[0] == '\0' then "" else [s[0]] + UpToNul(s[1..])
  }

  function UserOf(c: Creds): Text { UpToNul(c[..FIELD - 1]) }

  function PassOf(c: Creds): Text { UpToNul(c[FIELD..AUTH_LEN - 1]) }

  function Padded(t: Text): string { t + seq(FIELD - |t|, _ => '\0') }

  /** `cli_pprep_auth`: the client's fields are filled up with NULs. */
  function Fields(user: Text, pass: Text): Creds { Padded(user) + Padded(pass) }

  /** It is the only such string. */
  lemma {:induction false} UpToNulIs(s: string, r: string)
    requires r <= s && '\0' !in r && (|r| < |s| ==> s[|r|] == '\0')
    ensures UpToNul(s) == r
  {
    if s != [] && s[0] != '\0' {
      UpToNulIs(s[1..], r[1..]);
    }
  }

  lemma FieldsRead(user: Text, pass: Text)
    ensures UserOf(Fields(user, pass)) == user && PassOf(Fields(user, pass)) == pass
  {
    var c := Fields(user, pass);
    assert c[..FIELD - 1] == Padded(user)[..FIELD - 1] && c[FIELD..AUTH_LEN - 1] == Padded(pass)[..FIELD - 1];
    UpToNulIs(c[..FIELD - 1], user);
    UpToNulIs(c[FIELD..AUTH_LEN - 1], pass);
  }

  /** The arrays in the buffer when `n` of their bytes arrived over what was held. */
  function Over(sent: Creds, n: nat, held: Creds): Creds {
    if n >= AUTH_LEN then sent else sent[..n] + held[n..]
  }

  /** The packet alone makes the server read these credentials, whatever the buffer held. */
  ghost predicate Carries(sent: Creds, n: nat, user: Text, pass: Text) {
    forall held: Creds :: UserOf(Over(sent, n, held)) == user && PassOf(Over(sent, n, held)) == pass
  }

  /** How many bytes reach the end of the password. The last byte of a field is not read. */
  function Reach(pass: Text): nat { FIELD + if |pass| < FIELD - 1 then |pass| + 1 else FIELD - 1 }

  /** The credentials that the server reads are the packet's own exactly if the packet reaches the end of the
      password that is read. */
  lemma CarriesExactly(sent: Creds, n: nat, held: Creds)
    ensures var c := Over(sent, n, held); Carries(sent, n, UserOf(c), PassOf(c)) <==> n >= Reach(PassOf(c))
  {
    var c := Over(sent, n, held);
    if n >= Reach(PassOf(c)) {
      forall other: Creds
        ensures UserOf(Over(sent, n, other)) == UserOf(c) && PassOf(Over(sent, n, other)) == PassOf(c)
      {
        ReachedReads(c, Over(sent, n, other), n);
      }
    } else {
      ShortReads(sent, n, held);
    }
  }

  /** Two buffers that agree as far as the end of the password in one of them. */
  lemma ReachedReads(a: Creds, b: Creds, n: nat)
    requires n >= Reach(PassOf(a)) && forall k :: 0 <= k < AUTH_LEN && k < n ==> a[k] == b[k]
    ensures UserOf(b) == UserOf(a) && PassOf(b) == PassOf(a)
  {
    hide UpToNul;
    assert a[..FIELD - 1] == b[..FIELD - 1];
    var s, t, r := a[FIELD..AUTH_LEN - 1], b[FIELD..AUTH_LEN - 1], PassOf(a);
    assert r == s[..|r|];
    forall k | 0 <= k < |r| ensures r[k] == t[k] {
      assert s[k] == a[FIELD + k] && t[k] == b[FIELD + k];
    }
    if |r| < |t| {
      assert s[|r|] == a[FIELD + |r|] && t[|r|] == b[FIELD + |r|];
    }
    UpToNulIs(t, r);
  }

  /** Over a buffer of one character, a packet that ends within the password gives one that is as long as what
      arrived, or as long as can be. */
  lemma ShortPass(sent: Creds, n: nat, held: Creds, fill: char)
    requires n < Reach(PassOf(Over(sent, n, held)))
    ensures var k := if n < FIELD then 0 else n - FIELD;
            |PassOf(Over(sent, n, seq(AUTH_LEN, _ => fill)))| == if fill == '\0' then k else FIELD - 1
    ensures n < AUTH_LEN - 1
  {
    hide UpToNul;
    var c, d := Over(sent, n, held), Over(sent, n, seq(AUTH_LEN, _ => fill));
    var s, t, r := c[FIELD..AUTH_LEN - 1], d[FIELD..AUTH_LEN - 1], PassOf(c);
    var k := if n < FIELD then 0 else n - FIELD;
    forall i | 0 <= i < k ensures t[i] != '\0' {
      assert t[i] == sent[FIELD + i] == s[i] == r[i];
    }
    forall i | k <= i < |t| ensures t[i] == fill {
      assert t[i] == d[FIELD + i];
    }
    UpToNulIs(t, if fill == '\0' then t[..k] else t);
  }

  lemma ShortReads(sent: Creds, n: nat, held: Creds)
    requires n < Reach(PassOf(Over(sent, n, held)))
    ensures !Carries(sent, n, UserOf(Over(sent, n, held)), PassOf(Over(sent, n, held)))
  {
    hide UserOf, PassOf, Over;
    ShortPass(sent, n, held, '\0');
    ShortPass(sent, n, held, 'x');
  }
}
