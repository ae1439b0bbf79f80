/** The command line of the Rust server: splitting at white space, and the commands. */
module Commands {
  import opened Wrappers

  datatype Error = KeyNotFound | ValueNotFound | UnknownCommand

  datatype Command = GET(key: string) | SET(key: string, value: string) | DELETE(key: string)

  // ---- Splitting

  /** char::is_whitespace: the characters with the Unicode property White_Space. */
  predicate White(c: char) {
    var n := c as int;
    9 <= n <= 13 || n == 0x20 || n == 0x85 || n == 0xa0 || n == 0x1680 || 0x2000 <= n <= 0x200a
    || n == 0x2028 || n == 0x2029 || n == 0x202f || n == 0x205f || n == 0x3000
  }

  /** The same, one by one. */
  const WHITE_SPACE :=
    "\t\n\U{0b}\U{0c}\r \U{85}\U{a0}\U{1680}\U{2000}\U{2001}\U{2002}\U{2003}\U{2004}\U{2005}"
    + "\U{2006}\U{2007}\U{2008}\U{2009}\U{200a}\U{2028}\U{2029}\U{202f}\U{205f}\U{3000}"

  lemma WhiteIs(c: char)
    ensures White(c) <==> c in WHITE_SPACE
  {
  }

  function WordLength(s: string): (n: nat)
    ensures n <= |s| && (forall i :: 0 <= i < n ==> !White(s[i])) && (n < |s| ==> White(s[n]))
  {
    if s == "" || White(s[0]) then 0 else 1 + WordLength(s[1..])
  }

  /** split_whitespace */
  function Split(s: string): seq<string>
    decreases |s|
  {
    if s == "" then []
    else if White(s[0]) then Split(s[1..])
    else [s[..WordLength(s)]] + Split(s[WordLength(s)..])
  }

  ghost predicate Blank(s: string) {
    forall i :: 0 <= i < |s| ==> White(s[i])
  }

  ghost predicate Token(s: string) {
    s != "" && forall i :: 0 <= i < |s| ==> !White(s[i])
  }

  /** White space around the tokens: any at both ends, and some between two of them. */
  ghost predicate Gaps(ts: seq<string>, gaps: seq<string>) {
    && |gaps| == |ts| + 1
    && (forall i :: 0 <= i < |ts| ==> Token(ts[i]))
    && (forall i :: 0 <= i < |gaps| ==> Blank(gaps[i]))
    && (forall i :: 0 < i < |ts| ==> gaps[i] != "")
  }

  ghost function Spaced(ts: seq<string>, gaps: seq<string>): string
    requires |gaps| == |ts| + 1
  {
    if ts == [] then gaps[0] else gaps[0] + (ts[0] + Spaced(ts[1..], gaps[1..]))
  }

  lemma {:induction false} SkipBlank(gap: string, s: string)
    requires Blank(gap)
    ensures Split(gap + s) == Split(s)
  {
    if gap == "" {
      assert gap + s == s;
    } else {
      assert (gap + s)[1..] == gap[1..] + s;
      SkipBlank(gap[1..], s);
    }
  }

  lemma {:induction false} LengthOfWord(t: string, s: string)
    requires (forall i :: 0 <= i < |t| ==> !White(t[i])) && (s == "" || White(s[0]))
    ensures WordLength(t + s) == |t|
  {
    if t == "" {
      assert t + s == s;
    } else {
      assert (t + s)[1..] == t[1..] + s;
      LengthOfWord(t[1..], s);
    }
  }

  lemma TakeToken(t: string, s: string)
    requires Token(t) && (s == "" || White(s[0]))
    ensures Split(t + s) == [t] + Split(s)
  {
    LengthOfWord(t, s);
    assert (t + s)[..|t|] == t && (t + s)[|t|..] == s;
  }

  /** Splitting gives back the tokens, whatever the white space. */
  lemma {:induction false} SplitSpaced(ts: seq<string>, gaps: seq<string>)
    requires Gaps(ts, gaps)
    ensures Split(Spaced(ts, gaps)) == ts
  {
    if ts == [] {
      SkipBlank(gaps[0], "");
      assert gaps[0] + "" == gaps[0];
    } else {
      var rest := Spaced(ts[1..], gaps[1..]);
      SkipBlank(gaps[0], ts[0] + rest);
      assert |ts| > 1 ==> gaps[1] != "" && rest[0] == gaps[1][0];
      TakeToken(ts[0], rest);
      SplitSpaced(ts[1..], gaps[1..]);
    }
  }

  /** Every string is its tokens with white space around them. */
  lemma {:induction false} SplitComplete(s: string) returns (gaps: seq<string>)
    ensures Gaps(Split(s), gaps) && s == Spaced(Split(s), gaps)
    ensures gaps[0] != "" <==> s != "" && White(s[0])
    decreases |s|
  {
    if s == "" {
      gaps := [""];
    } else if White(s[0]) {
      var more := SplitComplete(s[1..]);
      gaps := [[s[0]] + more[0]] + more[1..];
      assert Spaced(Split(s), gaps) == [s[0]] + Spaced(Split(s), more);
    } else {
      var n := WordLength(s);
      var more := SplitComplete(s[n..]);
      gaps := [""] + more;
      assert Split(s)[1..] == Split(s[n..]) && gaps[1..] == more;
      assert s == s[..n] + s[n..];
    }
  }

  // ---- Parsing

  /** to_lowercase, on the letters of the command words */
  function Lower(c: char): char {
    if 'A' <= c <= 'Z' then (c as int + 32) as char else c
  }

  function Lowercase(s: string): string {
    seq(|s|, i requires 0 <= i < |s| => Lower(s[i]))
  }

  function FromStr(cmd: string): Result<Command, Error> {
    var words := Split(cmd);
    if |words| <= 1 && |words| > 3 then Err(UnknownCommand)
    else if |words| == 0 then Err(UnknownCommand)
    else
      var word := Lowercase(words[0]);
      if word == "get" then
        if |words| < 2 then Err(KeyNotFound) else Ok(GET(words[1]))
      else if word == "set" then
        if |words| < 2 then Err(KeyNotFound) else if |words| < 3 then Err(ValueNotFound) else Ok(SET(words[1], words[2]))
      else if word == "del" || word == "delete" then
        if |words| < 2 then Err(KeyNotFound) else Ok(DELETE(words[1]))
      else Err(UnknownCommand)
  }

  ghost function Names(c: Command): set<string> {
    match c
    case GET(_) => {"get"}
    case SET(_, _) => {"set"}
    case DELETE(_) => {"del", "delete"}
  }

  ghost function Args(c: Command): seq<string> {
    match c
    case GET(k) => [k]
    case SET(k, v) => [k, v]
    case DELETE(k) => [k]
  }

  /** `word` is `name` with any of its letters in upper case. */
  ghost predicate Spells(word: string, name: string) {
    |word| == |name| && forall i :: 0 <= i < |name| ==> word[i] == name[i] || word[i] as int == name[i] as int - 32
  }

  lemma LowercaseIff(word: string, name: string)
    requires forall i :: 0 <= i < |name| ==> 'a' <= name[i] <= 'z'
    ensures Lowercase(word) == name <==> Spells(word, name)
  {
    if Spells(word, name) {
      assert forall i :: 0 <= i < |name| ==> Lowercase(word)[i] == name[i];
    }
    if Lowercase(word) == name {
      forall i | 0 <= i < |name| ensures word[i] == name[i] || word[i] as int == name[i] as int - 32 {
        assert Lowercase(word)[i] == name[i];
      }
    }
  }

  ghost predicate Named(word: string, c: Command) {
    exists name :: name in Names(c) && Spells(word, name)
  }

  lemma NamedIff(word: string, c: Command)
    ensures Named(word, c) <==>
      match c
      case GET(_) => Lowercase(word) == "get"
      case SET(_, _) => Lowercase(word) == "set"
      case DELETE(_) => Lowercase(word) == "del" || Lowercase(word) == "delete"
  {
    match c {
      case GET(_) => NameIff(word, c, "get");
      case SET(_, _) => NameIff(word, c, "set");
      case DELETE(_) =>
        NameIff(word, c, "del");
        NameIff(word, c, "delete");
    }
  }

  lemma NameIff(word: string, c: Command, name: string)
    requires name in Names(c)
    ensures Lowercase(word) == name ==> Named(word, c)
    ensures Named(word, c) ==> exists n :: n in Names(c) && Lowercase(word) == n
  {
    LowercaseIff(word, name);
    if Named(word, c) {
      var n :| n in Names(c) && Spells(word, n);
      LowercaseIff(word, n);
    }
  }

  /** The tokens are a spelling of the command: its word in any case, its arguments, and anything behind them. */
  ghost predicate Says(ts: seq<string>, c: Command) {
    && |ts| > |Args(c)|
    && Named(ts[0], c)
    && forall i :: 0 <= i < |Args(c)| ==> ts[i + 1] == Args(c)[i]
  }

  lemma SaysIff(s: string, c: Command)
    ensures FromStr(s) == Ok(c) <==> Says(Split(s), c)
  {
    if Split(s) != [] {
      NamedIff(Split(s)[0], c);
      hide Lowercase, Named, Split;
      DistinctNames();
    }
  }

  lemma DistinctNames()
    ensures "get" != "set" && "get" != "del" && "get" != "delete" && "set" != "del" && "set" != "delete"
  {
    assert "get"[0] != "set"[0] && "get"[0] != "del"[0] && "set"[0] != "del"[0];
  }

  /** A line is parsed as a command exactly when it consists of a spelling of that command with white space around its tokens. */
  lemma ParsesIff(s: string, c: Command)
    ensures FromStr(s) == Ok(c) <==> exists ts, gaps :: Gaps(ts, gaps) && s == Spaced(ts, gaps) && Says(ts, c)
  {
    hide FromStr, Says, Spaced, Split, Token, Blank;
    SaysIff(s, c);
    var own := SplitComplete(s);
    assert Says(Split(s), c) ==> Gaps(Split(s), own) && s == Spaced(Split(s), own);
    forall ts, gaps | Gaps(ts, gaps) && s == Spaced(ts, gaps) ensures Split(s) == ts {
      SplitSpaced(ts, gaps);
    }
  }

  /** Any case of the command word, any white space, any tokens behind the command. */
  lemma RoundTrip(c: Command, word: string, extra: seq<string>, gaps: seq<string>)
    requires Named(word, c) && Gaps([word] + Args(c) + extra, gaps)
    ensures FromStr(Spaced([word] + Args(c) + extra, gaps)) == Ok(c)
  {
    var ts := [word] + Args(c) + extra;
    SplitSpaced(ts, gaps);
    SaysIff(Spaced(ts, gaps), c);
    hide FromStr, Split, Spaced, Gaps, Named;
    assert Says(ts, c);
  }

  ghost predicate Known(word: string) {
    Named(word, GET("")) || Named(word, SET("", "")) || Named(word, DELETE(""))
  }

  /** The errors, exactly: no known word, a known word alone, and SET with a key only. */
  lemma ErrorIff(s: string)
    ensures FromStr(s) == Err(UnknownCommand) <==> Split(s) == [] || !Known(Split(s)[0])
    ensures FromStr(s) == Err(KeyNotFound) <==> |Split(s)| == 1 && Known(Split(s)[0])
    ensures FromStr(s) == Err(ValueNotFound) <==> |Split(s)| == 2 && Named(Split(s)[0], SET("", ""))
  {
    if Split(s) != [] {
      var word := Split(s)[0];
      NamedIff(word, GET(""));
      NamedIff(word, SET("", ""));
      NamedIff(word, DELETE(""));
      hide Lowercase, Named, Split;
      DistinctNames();
    }
  }

  // ---- Plain lines

  ghost predicate Plain(t: string) {
    t != "" && forall i :: 0 <= i < |t| ==> '!' <= t[i] <= '~'
  }

  ghost function Joined(ts: seq<string>, separator: char): string {
    if |ts| == 0 then ""
    else if |ts| == 1 then ts[0]
    else ts[0] + ([separator] + Joined(ts[1..], separator))
  }

  lemma PlainIsToken(t: string)
    requires Plain(t)
    ensures Token(t)
  {
  }

  lemma SeparatorFirst(separator: char, s: string)
    requires separator in {' ', '\t', '\r', '\n'}
    ensures Split([separator] + s) == Split(s)
  {
    assert ([separator] + s)[1..] == s;
  }

  /** Tokens of printable ASCII, joined by single spaces or tabs, are split back exactly. */
  lemma {:induction false} SplitJoined(ts: seq<string>, separator: char)
    requires separator == ' ' || separator == '\t'
    requires forall i :: 0 <= i < |ts| ==> Plain(ts[i])
    ensures Split(Joined(ts, separator)) == ts
  {
    if |ts| == 1 {
      PlainIsToken(ts[0]);
      TakeToken(ts[0], "");
      assert ts[0] + "" == ts[0];
    } else if |ts| > 1 {
      var rest := [separator] + Joined(ts[1..], separator);
      PlainIsToken(ts[0]);
      assert White(rest[0]);
      TakeToken(ts[0], rest);
      SeparatorFirst(separator, Joined(ts[1..], separator));
      SplitJoined(ts[1..], separator);
    }
  }

  lemma PlainSpelling(word: string, name: string)
    requires Spells(word, name) && name in {"get", "set", "del", "delete"}
    ensures Plain(word) && Lowercase(word) == name
  {
    assert forall i :: 0 <= i < |name| ==> 'a' <= name[i] <= 'z';
    LowercaseIff(word, name);
  }

  lemma JoinedBySpaces(a: string, b: string, c: string)
    ensures Joined([a, b], ' ') == a + " " + b
    ensures Joined([a, b, c], ' ') == a + " " + b + " " + c
  {
    assert [a, b][1..] == [b] && [a, b, c][1..] == [b, c] && [b, c][1..] == [c];
    assert Joined([b], ' ') == b && Joined([c], ' ') == c;
    assert Joined([b, c], ' ') == b + ([' '] + c);
    assert Joined([a, b, c], ' ') == a + ([' '] + (b + ([' '] + c)));
  }

  /** The command word in any case, a space and a printable key are the command; for SET, with a space and a printable value. */
  lemma PlainLine(word: string, key: string, value: string)
    requires Plain(key) && Plain(value)
    ensures Spells(word, "get") ==> FromStr(word + " " + key) == Ok(GET(key))
    ensures Spells(word, "del") || Spells(word, "delete") ==> FromStr(word + " " + key) == Ok(DELETE(key))
    ensures Spells(word, "set") ==> FromStr(word + " " + key + " " + value) == Ok(SET(key, value))
  {
    forall name | name in {"get", "set", "del", "delete"} && Spells(word, name) ensures Plain(word) && Lowercase(word) == name {
      PlainSpelling(word, name);
    }
    JoinedBySpaces(word, key, value);
    if Plain(word) {
      SplitJoined([word, key], ' ');
      SplitJoined([word, key, value], ' ');
    }
    hide Spells, Lowercase, Plain, Split, Joined;
    DistinctNames();
  }
}
