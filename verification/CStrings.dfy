/** C strings: the bytes in front of the first NUL. */
module CStrings {

  type byte = bv8

  const NUL: byte := 0

  /** The text of a NUL-terminated buffer. */
  function Text(buf: seq<byte>): (t: seq<byte>)
    requires NUL in buf
    ensures |t| < |buf| && t == buf[..|t|] && buf[|t|] == NUL && NUL !in t
  {
    if buf[0] == NUL then [] else [buf[0]] + Text(buf[1..])
  }

  lemma {:induction false} TextIs(buf: seq<byte>, n: nat)
    requires n < |buf| && buf[n] == NUL && NUL !in buf[..n]
    ensures NUL in buf && Text(buf) == buf[..n]
  {
    assert buf[n] in buf;
    if n > 0 {
      assert buf[..n][0] == buf[0] && buf[..n][1..] == buf[1..][..n - 1];
      TextIs(buf[1..], n - 1);
    }
  }

  /** strcmp on texts: bytes compare unsigned, and the end of a text is below every byte. */
  function Strcmp(s: seq<byte>, t: seq<byte>): int {
    if s == [] then (if t == [] then 0 else -(t[0] as int))
    else if t == [] then s[0] as int
    else if s[0] != t[0] then s[0] as int - t[0] as int
    else Strcmp(s[1..], t[1..])
  }

  /** The order of texts: at the first difference the unsigned bytes decide, and a prefix comes first. */
  ghost predicate Below(s: seq<byte>, t: seq<byte>) {
    exists i: nat :: Differ(s, t, i)
  }

  ghost predicate Differ(s: seq<byte>, t: seq<byte>, i: nat) {
    && i <= |s| && i < |t| && s[..i] == t[..i]
    && (i == |s| || s[i] as int < t[i] as int)
  }

  lemma {:induction false} StrcmpZero(s: seq<byte>, t: seq<byte>)
    requires NUL !in s && NUL !in t
    ensures Strcmp(s, t) == 0 <==> s == t
  {
    if s != [] && t != [] && s[0] == t[0] {
      StrcmpZero(s[1..], t[1..]);
      assert s == [s[0]] + s[1..] && t == [t[0]] + t[1..];
    }
  }

  lemma DifferNext(s: seq<byte>, t: seq<byte>, i: nat)
    requires s != [] && t != [] && s[0] == t[0]
    ensures Differ(s, t, i + 1) <==> Differ(s[1..], t[1..], i)
  {
    if i <= |s| - 1 && i <= |t| - 1 {
      assert s[..i + 1] == [s[0]] + s[1..][..i] && t[..i + 1] == [t[0]] + t[1..][..i];
    }
  }

  lemma BelowNext(s: seq<byte>, t: seq<byte>)
    requires s != [] && t != [] && s[0] == t[0]
    ensures Below(s, t) <==> Below(s[1..], t[1..])
  {
    if Below(s[1..], t[1..]) {
      var i: nat :| Differ(s[1..], t[1..], i);
      DifferNext(s, t, i);
    }
    if Below(s, t) {
      var i: nat :| Differ(s, t, i);
      DifferNext(s, t, i - 1);
    }
  }

  /** The result of strcmp is negative exactly when the first text is below the second, and changes sign when they are swapped. */
  lemma {:induction false} StrcmpSign(s: seq<byte>, t: seq<byte>)
    requires NUL !in s && NUL !in t
    ensures Strcmp(s, t) < 0 <==> Below(s, t)
    ensures Strcmp(t, s) == -Strcmp(s, t)
  {
    if s == [] || t == [] || s[0] != t[0] {
      StrcmpAtOnce(s, t);
    } else {
      StrcmpSign(s[1..], t[1..]);
      BelowNext(s, t);
      hide Below;
    }
  }

  lemma StrcmpAtOnce(s: seq<byte>, t: seq<byte>)
    requires NUL !in s && NUL !in t && (s == [] || t == [] || s[0] != t[0])
    ensures Strcmp(s, t) < 0 <==> Below(s, t)
    ensures Strcmp(t, s) == -Strcmp(s, t)
  {
    if t != [] {
      assert Differ(s, t, 0) <==> s == [] || s[0] as int < t[0] as int;
    }
  }

  /** Of two texts, exactly one is below the other, or they are the same. */
  lemma BelowTotal(s: seq<byte>, t: seq<byte>)
    requires NUL !in s && NUL !in t
    ensures Below(s, t) <==> s != t && !Below(t, s)
  {
    StrcmpSign(s, t);
    StrcmpSign(t, s);
    StrcmpZero(s, t);
    hide Strcmp, Below;
  }
}
