/** What pd_cmd_parse_cmd makes of a line, as a function on byte sequences. */
module CmdLine {
  import opened CStrings

  const SPACE: byte := 32
  const NEWLINE: byte := 10
  const BLOCK := 128
  const AUXBUF_LEN := 64

  lemma Separating()
    ensures SPACE as int == ' ' as int && NEWLINE as int == '\n' as int
  {
  }

  /** A line ends with a newline and has no other; a text has no NUL. */
  ghost predicate Line(text: seq<byte>) {
    && text != [] && text[|text| - 1] == NEWLINE
    && NEWLINE !in text[..|text| - 1] && NUL !in text
  }

  /** A full work buffer goes to the slot opened last, which is the command slot when there is none. */
  function Flushed(work: seq<byte>, slots: seq<seq<byte>>): (r: seq<seq<byte>>)
    ensures |work| == BLOCK ==> |r| == if slots == [] then 1 else |slots|
  {
    if |work| != BLOCK then slots
    else if slots == [] then [work]
    else slots[..|slots| - 1] + [slots[|slots| - 1] + work]
  }

  function Kept(work: seq<byte>): (r: seq<byte>)
    ensures |work| <= BLOCK ==> |r| < BLOCK
  {
    if |work| == BLOCK then [] else work
  }

  /** The slots after reading `rest` with `work` in the work buffer and `slots` already opened.
      A space opens the next slot; the byte behind it is taken as it is. */
  function ParseFrom(work: seq<byte>, slots: seq<seq<byte>>, rest: seq<byte>): seq<seq<byte>>
    decreases |rest|
  {
    if rest == [] then slots + [if work == [] then [] else work[..|work| - 1]]
    else if rest[0] == SPACE && |rest| > 1 then ParseFrom([rest[1]], Flushed(work, slots) + [Kept(work)], rest[2..])
    else ParseFrom(Kept(work) + [rest[0]], Flushed(work, slots), rest[1..])
  }

  function Parsed(text: seq<byte>): seq<seq<byte>> {
    ParseFrom([], [], text)
  }

  // ---- Nothing is lost, nothing is added

  function Flatten(q: seq<seq<byte>>): seq<byte> {
    if q == [] then [] else Flatten(q[..|q| - 1]) + q[|q| - 1]
  }

  /** The line without the spaces that separate. */
  function Stripped(rest: seq<byte>): seq<byte>
    decreases |rest|
  {
    if rest == [] then []
    else if rest[0] == SPACE && |rest| > 1 then [rest[1]] + Stripped(rest[2..])
    else [rest[0]] + Stripped(rest[1..])
  }

  lemma FlattenMore(q: seq<seq<byte>>, w: seq<byte>)
    ensures Flatten(q + [w]) == Flatten(q) + w
  {
    assert (q + [w])[..|q|] == q;
  }

  lemma FlattenFlushed(work: seq<byte>, slots: seq<seq<byte>>)
    ensures Flatten(Flushed(work, slots)) + Kept(work) == Flatten(slots) + work
  {
    if |work| == BLOCK && slots != [] {
      FlattenMore(slots[..|slots| - 1], slots[|slots| - 1] + work);
    } else {
      FlattenMore(slots, work);
    }
  }

  /** The byte that ends the line: the last of `rest`, or of the work buffer once all is read. */
  ghost predicate Ends(work: seq<byte>, rest: seq<byte>) {
    if rest == [] then work != [] && work[|work| - 1] == NEWLINE else rest[|rest| - 1] == NEWLINE
  }

  lemma {:induction false} Conserved(work: seq<byte>, slots: seq<seq<byte>>, rest: seq<byte>)
    requires Ends(work, rest)
    ensures Flatten(ParseFrom(work, slots, rest)) + [NEWLINE] == Flatten(slots) + work + Stripped(rest)
    decreases |rest|
  {
    hide Flushed, Kept, Flatten;
    FlattenFlushed(work, slots);
    var f, k := Flushed(work, slots), Kept(work);
    var head := Flatten(slots) + work;
    if rest == [] {
      FlattenMore(slots, work[..|work| - 1]);
      Assoc(Flatten(slots), work[..|work| - 1], [NEWLINE]);
      assert work[..|work| - 1] + [NEWLINE] == work;
      assert head + [] == head;
    } else if rest[0] == SPACE && |rest| > 1 {
      Conserved([rest[1]], f + [k], rest[2..]);
      FlattenMore(f, k);
      Assoc(head, [rest[1]], Stripped(rest[2..]));
    } else {
      Conserved(k + [rest[0]], f, rest[1..]);
      Assoc(Flatten(f), k, [rest[0]]);
      Assoc(head, [rest[0]], Stripped(rest[1..]));
    }
  }

  lemma Assoc(a: seq<byte>, b: seq<byte>, c: seq<byte>)
    ensures (a + b) + c == a + (b + c)
  {
  }

  /** The concatenation of all slots is the line without its separating spaces and its newline. */
  lemma ParsedConserves(text: seq<byte>)
    requires Line(text)
    ensures Flatten(Parsed(text)) + [NEWLINE] == Stripped(text)
  {
    Conserved([], [], text);
    assert Flatten([]) + [] + Stripped(text) == Stripped(text);
  }

  function NoSpaces(s: seq<byte>): seq<byte> {
    if s == [] then [] else (if s[0] == SPACE then [] else [s[0]]) + NoSpaces(s[1..])
  }

  /** Where no two spaces are adjacent, every space separates. */
  lemma {:induction false} StrippedIsNoSpaces(rest: seq<byte>)
    requires forall i :: 0 <= i < |rest| - 1 && rest[i] == SPACE ==> rest[i + 1] != SPACE
    requires rest != [] ==> rest[|rest| - 1] != SPACE
    ensures Stripped(rest) == NoSpaces(rest)
    decreases |rest|
  {
    if rest == [] {
    } else if rest[0] == SPACE && |rest| > 1 {
      StrippedIsNoSpaces(rest[2..]);
      assert rest[1..][1..] == rest[2..];
    } else {
      StrippedIsNoSpaces(rest[1..]);
    }
  }

  // ---- How many slots, and how long

  function Separators(rest: seq<byte>): nat
    decreases |rest|
  {
    if rest == [] then 0
    else if rest[0] == SPACE && |rest| > 1 then 1 + Separators(rest[2..])
    else Separators(rest[1..])
  }

  lemma {:induction false} Counted(work: seq<byte>, slots: seq<seq<byte>>, rest: seq<byte>)
    ensures slots != [] ==> |ParseFrom(work, slots, rest)| == |slots| + 1 + Separators(rest)
    ensures slots == [] ==> 1 + Separators(rest) <= |ParseFrom(work, slots, rest)| <= 2 + Separators(rest)
    decreases |rest|
  {
    if rest == [] {
    } else if rest[0] == SPACE && |rest| > 1 {
      Counted([rest[1]], Flushed(work, slots) + [Kept(work)], rest[2..]);
    } else {
      Counted(Kept(work) + [rest[0]], Flushed(work, slots), rest[1..]);
    }
  }

  /** Slots are only ever opened and appended to. */
  lemma {:induction false} Grows(work: seq<byte>, slots: seq<seq<byte>>, rest: seq<byte>)
    ensures |slots| < |ParseFrom(work, slots, rest)|
    ensures forall i :: 0 <= i < |slots| ==> slots[i] <= ParseFrom(work, slots, rest)[i]
    decreases |rest|
  {
    if rest == [] {
    } else {
      var f := Flushed(work, slots);
      assert forall i :: 0 <= i < |slots| ==> slots[i] <= f[i];
      if rest[0] == SPACE && |rest| > 1 {
        Grows([rest[1]], f + [Kept(work)], rest[2..]);
        assert forall i :: 0 <= i < |f| ==> (f + [Kept(work)])[i] == f[i];
      } else {
        Grows(Kept(work) + [rest[0]], f, rest[1..]);
      }
    }
  }

  lemma {:induction false} SlotInside(q: seq<seq<byte>>, i: nat)
    requires i < |q|
    ensures |q[i]| <= |Flatten(q)|
  {
    if i < |q| - 1 {
      SlotInside(q[..|q| - 1], i);
    }
  }

  lemma {:induction false} StrippedShorter(rest: seq<byte>)
    ensures |Stripped(rest)| <= |rest|
    decreases |rest|
  {
    if rest == [] {
    } else if rest[0] == SPACE && |rest| > 1 {
      StrippedShorter(rest[2..]);
    } else {
      StrippedShorter(rest[1..]);
    }
  }

  ghost predicate Texts(q: seq<seq<byte>>) {
    forall i :: 0 <= i < |q| ==> NUL !in q[i]
  }

  lemma {:induction false} ParsedTexts(work: seq<byte>, slots: seq<seq<byte>>, rest: seq<byte>)
    requires NUL !in work && NUL !in rest && Texts(slots)
    ensures Texts(ParseFrom(work, slots, rest))
    decreases |rest|
  {
    if rest == [] {
    } else if rest[0] == SPACE && |rest| > 1 {
      ParsedTexts([rest[1]], Flushed(work, slots) + [Kept(work)], rest[2..]);
    } else {
      ParsedTexts(Kept(work) + [rest[0]], Flushed(work, slots), rest[1..]);
    }
  }

  // ---- One turn of the reading loop

  lemma TurnFlush(work: seq<byte>, slots: seq<seq<byte>>, rest: seq<byte>)
    requires |work| == BLOCK && rest != []
    ensures ParseFrom(work, slots, rest) == ParseFrom([], Flushed(work, slots), rest)
    ensures slots != [] ==> |ParseFrom(work, slots, rest)| >= |slots|
    ensures slots != [] ==> |slots[|slots| - 1]| + BLOCK <= |ParseFrom(work, slots, rest)[|slots| - 1]|
  {
    Grows([], Flushed(work, slots), rest);
    assert slots != [] ==> Flushed(work, slots)[|slots| - 1] == slots[|slots| - 1] + work;
  }

  lemma TurnNext(work: seq<byte>, slots: seq<seq<byte>>, rest: seq<byte>)
    requires |work| < BLOCK && rest != []
    ensures ParseFrom(work, slots, rest) ==
      if rest[0] == SPACE && |rest| > 1 then ParseFrom([rest[1]], slots + [work], rest[2..])
      else ParseFrom(work + [rest[0]], slots, rest[1..])
    ensures |slots| < |ParseFrom(work, slots, rest)|
  {
    Grows(work, slots, rest);
  }

  /** The lines that stay within the slots and the chunks of the argument record. */
  ghost predicate InDomain(text: seq<byte>) {
    && Line(text)
    && |Parsed(text)| <= 1 + AUXBUF_LEN
    && forall i :: 0 <= i < |Parsed(text)| ==> |Parsed(text)[i]| <= 2048
  }

  /** Every line of at most 2049 bytes and 63 separators is one of them. */
  lemma ShortLinesInDomain(text: seq<byte>)
    requires Line(text) && |text| <= 2049 && Separators(text) <= 63
    ensures InDomain(text)
  {
    Counted([], [], text);
    ParsedConserves(text);
    StrippedShorter(text);
    forall i | 0 <= i < |Parsed(text)| ensures |Parsed(text)[i]| <= 2048 {
      SlotInside(Parsed(text), i);
    }
  }

  // ---- Printing and parsing

  ghost predicate Word(t: seq<byte>) {
    t != [] && SPACE !in t && NEWLINE !in t && NUL !in t
  }

  ghost predicate Words(ts: seq<seq<byte>>) {
    forall i :: 0 <= i < |ts| ==> Word(ts[i])
  }

  /** What follows a token: the other tokens, each behind a space, and the newline. */
  function Tail(ts: seq<seq<byte>>): seq<byte> {
    if ts == [] then [NEWLINE] else [SPACE] + (ts[0] + Tail(ts[1..]))
  }

  function Printed(ts: seq<seq<byte>>): seq<byte>
    requires ts != []
  {
    ts[0] + Tail(ts[1..])
  }

  lemma {:induction false} TailIsLine(ts: seq<seq<byte>>)
    requires Words(ts)
    ensures Line(Tail(ts))
  {
    if ts != [] {
      TailIsLine(ts[1..]);
      LineBehind(ts[0], Tail(ts[1..]));
      LineBehind([SPACE], ts[0] + Tail(ts[1..]));
    }
  }

  lemma LineBehind(t: seq<byte>, rest: seq<byte>)
    requires NEWLINE !in t && NUL !in t && Line(rest)
    ensures Line(t + rest)
  {
    assert (t + rest)[..|t + rest| - 1] == t + rest[..|rest| - 1];
  }

  lemma PrintedIsLine(ts: seq<seq<byte>>)
    requires ts != [] && Words(ts)
    ensures Line(Printed(ts)) && Printed(ts) != [NEWLINE]
  {
    TailIsLine(ts[1..]);
    LineBehind(ts[0], Tail(ts[1..]));
  }

  lemma {:induction false} TailLength(ts: seq<seq<byte>>)
    requires forall i :: 0 <= i < |ts| ==> |ts[i]| < BLOCK
    ensures |Tail(ts)| <= 1 + BLOCK * |ts|
  {
    if ts != [] { TailLength(ts[1..]); }
  }

  /** As long as the work buffer has room, bytes that are not spaces are collected in it. */
  lemma {:induction false} Collects(work: seq<byte>, slots: seq<seq<byte>>, t: seq<byte>, tail: seq<byte>)
    requires SPACE !in t && |work| + |t| <= BLOCK
    ensures ParseFrom(work, slots, t + tail) == ParseFrom(work + t, slots, tail)
    decreases |t|
  {
    if t == [] {
      assert t + tail == tail && work + t == work;
    } else {
      assert (t + tail)[1..] == t[1..] + tail;
      Collects(work + [t[0]], slots, t[1..], tail);
      assert work + [t[0]] + t[1..] == work + t;
    }
  }

  lemma NextToken(t: seq<byte>, slots: seq<seq<byte>>, ts: seq<seq<byte>>)
    requires |t| < BLOCK && ts != [] && Word(ts[0])
    ensures ParseFrom(t, slots, Tail(ts)) == ParseFrom([ts[0][0]], slots + [t], ts[0][1..] + Tail(ts[1..]))
  {
    var rest := Tail(ts);
    assert rest[1] == ts[0][0];
    assert rest[2..] == ts[0][1..] + Tail(ts[1..]);
  }

  /** A short token is read and becomes the new work buffer. */
  lemma NextRead(t: seq<byte>, slots: seq<seq<byte>>, ts: seq<seq<byte>>)
    requires |t| < BLOCK && ts != [] && Word(ts[0]) && |ts[0]| < BLOCK
    ensures ParseFrom(t, slots, Tail(ts)) == ParseFrom(ts[0], slots + [t], Tail(ts[1..]))
    ensures slots + [t] + [ts[0]] + ts[1..] == slots + [t] + ts
  {
    hide ParseFrom, Tail;
    NextToken(t, slots, ts);
    Collects([ts[0][0]], slots + [t], ts[0][1..], Tail(ts[1..]));
    assert [ts[0][0]] + ts[0][1..] == ts[0];
  }

  lemma {:induction false} ReadBack(t: seq<byte>, slots: seq<seq<byte>>, ts: seq<seq<byte>>)
    requires |t| < BLOCK && Words(ts) && forall i :: 0 <= i < |ts| ==> |ts[i]| < BLOCK
    ensures ParseFrom(t, slots, Tail(ts)) == slots + [t] + ts
    decreases |ts|
  {
    if ts == [] {
      assert ParseFrom(t, slots, [NEWLINE]) == ParseFrom(t + [NEWLINE], slots, [NEWLINE][1..]);
      assert (t + [NEWLINE])[..|t|] == t;
    } else {
      NextRead(t, slots, ts);
      ReadBack(ts[0], slots + [t], ts[1..]);
    }
  }

  /** A first token of 128 bytes or more: one slot too many comes out. */
  lemma LongFirst(t: seq<byte>, ts: seq<seq<byte>>)
    requires Word(t) && |t| >= 128 && Words(ts)
    ensures |Parsed(t + Tail(ts))| == |ts| + 2
  {
    assert Tail(ts) != [];
    hide ParseFrom, Tail;
    var rest := t[BLOCK..] + Tail(ts);
    Collects([], [], t[..BLOCK], rest);
    assert t[..BLOCK] + rest == t + Tail(ts);
    assert [] + t[..BLOCK] == t[..BLOCK];
    SeparatorsOfWords(t[BLOCK..], ts);
    CountedFull(t[..BLOCK], rest);
  }

  lemma CountedFull(work: seq<byte>, rest: seq<byte>)
    requires |work| == BLOCK && rest != []
    ensures |ParseFrom(work, [], rest)| == 2 + Separators(rest)
  {
    if rest[0] == SPACE && |rest| > 1 {
      Counted([rest[1]], [work] + [[]], rest[2..]);
    } else {
      Counted([] + [rest[0]], [work], rest[1..]);
    }
  }

  lemma TailSplit(ts: seq<seq<byte>>)
    requires ts != [] && ts[0] != []
    ensures |Tail(ts)| > 1 && Tail(ts)[0] == SPACE && Tail(ts)[2..] == ts[0][1..] + Tail(ts[1..])
  {
  }

  lemma {:induction false} SeparatorsOfWords(t: seq<byte>, ts: seq<seq<byte>>)
    requires SPACE !in t && Words(ts)
    ensures Separators(t + Tail(ts)) == |ts|
    decreases |ts|, |t|
  {
    if t != [] {
      assert (t + Tail(ts))[1..] == t[1..] + Tail(ts);
      SeparatorsOfWords(t[1..], ts);
    } else if ts != [] {
      assert t + Tail(ts) == Tail(ts);
      TailSplit(ts);
      SeparatorsOfWords(ts[0][1..], ts[1..]);
    } else {
      assert t + Tail(ts) == [NEWLINE];
    }
  }

  /** A later token of 128 bytes or more: its first 128 bytes go to the slot of the token before it. */
  lemma LongNext(t: seq<byte>, slots: seq<seq<byte>>, ts: seq<seq<byte>>)
    requires |t| < 128 && ts != [] && Word(ts[0]) && |ts[0]| >= 128
    ensures |ParseFrom(t, slots, Tail(ts))| > |slots|
    ensures t + ts[0][..128] <= ParseFrom(t, slots, Tail(ts))[|slots|]
  {
    var u := ts[0];
    var rest := u[BLOCK..] + Tail(ts[1..]);
    NextToken(t, slots, ts);
    assert u[1..BLOCK] + rest == u[1..] + Tail(ts[1..]);
    Collects([u[0]], slots + [t], u[1..BLOCK], rest);
    assert [u[0]] + u[1..BLOCK] == u[..BLOCK];
    var full := slots + [t + u[..BLOCK]];
    assert Flushed(u[..BLOCK], slots + [t]) == full;
    if rest[0] == SPACE && |rest| > 1 {
      Grows([rest[1]], full + [[]], rest[2..]);
      assert (full + [[]])[|slots|] == full[|slots|];
    } else {
      Grows([] + [rest[0]], full, rest[1..]);
    }
  }

  /** Reading on from a token that was read exactly, all tokens come back exactly when all are short. */
  lemma {:induction false} ReadBackIff(t: seq<byte>, slots: seq<seq<byte>>, ts: seq<seq<byte>>)
    requires |t| < BLOCK && Words(ts)
    ensures ParseFrom(t, slots, Tail(ts)) == slots + [t] + ts <==> forall i :: 0 <= i < |ts| ==> |ts[i]| < BLOCK
    decreases |ts|
  {
    hide ParseFrom, Tail;
    if forall i :: 0 <= i < |ts| ==> |ts[i]| < BLOCK {
      ReadBack(t, slots, ts);
    } else if |ts[0]| >= BLOCK {
      LongNext(t, slots, ts);
      assert (slots + [t] + ts)[|slots|] == t;
    } else {
      NextRead(t, slots, ts);
      ReadBackIff(ts[0], slots + [t], ts[1..]);
    }
  }

  /** Printing and parsing gives the tokens back exactly when each is shorter than the work buffer. */
  lemma RoundTripIff(ts: seq<seq<byte>>)
    requires ts != [] && Words(ts)
    ensures Parsed(Printed(ts)) == ts <==> forall i :: 0 <= i < |ts| ==> |ts[i]| < 128
  {
    if |ts[0]| >= BLOCK {
      LongFirst(ts[0], ts[1..]);
    } else {
      Collects([], [], ts[0], Tail(ts[1..]));
      assert [] + ts[0] == ts[0];
      ReadBackIff(ts[0], [], ts[1..]);
      assert [] + [ts[0]] + ts[1..] == ts;
    }
  }
}
