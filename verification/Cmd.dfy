/** pd_cmd: the argument record, its parser, its check and its release. */
module Cmd {
  import opened CStrings
  import opened Smbufs
  import opened CmdLine

  /** A `pd_smbuf_t **` into the record: nowhere, at the command or at an argument. */
  datatype Slot = Nowhere | AtCmd | AtAux(i: nat)

  class CmdArgs {
    var plen: nat
    var pcmd: Smbuf?
    var paux: seq<Smbuf?>  // embedded in the record, of fixed length

    constructor ()
      ensures Clean() && |paux| == 64
    {
      plen, pcmd := 0, null;
      paux := seq(AUXBUF_LEN, _ => null);
    }

    ghost predicate Clean()
      reads this
    {
      && plen == 0 && pcmd == null && |paux| == AUXBUF_LEN
      && forall i :: 0 <= i < AUXBUF_LEN ==> paux[i] == null
    }

    /** The slots point at the heads of the chains, in order; the other slots are null. */
    ghost predicate Slotted(chains: seq<seq<Smbuf>>)
      reads this`pcmd, this`paux
    {
      && |paux| == AUXBUF_LEN && |chains| <= 1 + AUXBUF_LEN
      && (forall i :: 0 <= i < |chains| ==> chains[i] != [])
      && pcmd == (if chains == [] then null else chains[0][0])
      && forall i :: 0 <= i < AUXBUF_LEN ==> paux[i] == if i + 1 < |chains| then chains[i + 1][0] else null
    }

    /** `*cpbuf` */
    function Get(cpbuf: Slot): Smbuf?
      requires cpbuf.AtCmd? || (cpbuf.AtAux? && cpbuf.i < |paux|)
      reads this`pcmd, this`paux
    {
      if cpbuf.AtCmd? then pcmd else paux[cpbuf.i]
    }

    /** `*cpbuf = b` */
    method Set(cpbuf: Slot, b: Smbuf)
      requires cpbuf.AtCmd? || (cpbuf.AtAux? && cpbuf.i < |paux|)
      modifies this`pcmd, this`paux
      ensures cpbuf.AtCmd? ==> pcmd == b && paux == old(paux)
      ensures cpbuf.AtAux? ==> pcmd == old(pcmd) && paux == old(paux)[cpbuf.i := b]
    {
      if cpbuf.AtCmd? {
        pcmd := b;
      } else {
        paux := paux[cpbuf.i := b];
      }
    }
  }

  /** The slot with number `k`. */
  function SlotAt(k: nat): Slot {
    if k == 0 then AtCmd else AtAux(k - 1)
  }

  ghost predicate Apart(a: seq<Smbuf>, b: seq<Smbuf>) {
    forall n :: n in a ==> n !in b && n.buf !in Buffers(b)
  }

  ghost predicate Within(chains: seq<seq<Smbuf>>, mine: set<object>) {
    forall i :: 0 <= i < |chains| ==> Inside(chains[i], mine)
  }

  /** The chains carry the slots. Only the last one is still written to, and it shares nothing with the others. */
  ghost predicate Carried(chains: seq<seq<Smbuf>>, slots: seq<seq<byte>>, mine: set<object>)
    requires Within(chains, mine)
    reads mine
  {
    && |chains| == |slots|
    && (forall i :: 0 <= i < |chains| ==> Holds(chains[i], slots[i]))
    && (forall i :: 0 <= i < |chains| - 1 ==> Apart(chains[i], chains[|chains| - 1]))
  }

  ghost predicate Inside(ns: seq<Smbuf>, mine: set<object>)
    ensures Inside(ns, mine) ==> forall n :: n in ns ==> n in mine
    ensures Inside(ns, mine) ==> forall b :: b in Buffers(ns) ==> b in mine
  {
    forall n :: n in ns ==> n in mine && n.buf in mine
  }

  ghost predicate Outside(ns: seq<Smbuf>, mine: set<object>) {
    forall n :: n in ns ==> n !in mine && n.buf !in mine
  }

  ghost function Objects(ns: seq<Smbuf>): (r: set<object>)
    ensures Inside(ns, r)
  {
    (set n | n in ns :: n as object) + (set n | n in ns :: n.buf as object)
  }

  lemma CarriedMore(chains: seq<seq<Smbuf>>, slots: seq<seq<byte>>, mine: set<object>, ns: seq<Smbuf>, c: seq<byte>, mine': set<object>)
    requires Within(chains, mine) && Carried(chains, slots, mine) && mine <= mine'
    requires Holds(ns, c) && Inside(ns, mine') && Outside(ns, mine)
    ensures Within(chains + [ns], mine') && Carried(chains + [ns], slots + [c], mine')
  {
    hide Holds;
    forall i | 0 <= i < |chains| ensures Apart(chains[i], ns) && Inside(chains[i], mine') {
      assert Inside(chains[i], mine);
    }
    hide Apart, Inside;
  }

  lemma SlottedMore(args: CmdArgs, chains: seq<seq<Smbuf>>, ns: seq<Smbuf>)
    requires |args.paux| == AUXBUF_LEN && |chains| <= AUXBUF_LEN
    requires forall i :: 0 <= i < |chains| ==> chains[i] != []
    requires ns != []
    requires args.pcmd == (if chains == [] then ns[0] else chains[0][0])
    requires forall i :: 0 <= i < AUXBUF_LEN ==>
      args.paux[i] == if i + 1 < |chains| then chains[i + 1][0] else if i + 1 == |chains| then ns[0] else null
    ensures args.Slotted(chains + [ns])
  {
  }

  /** `*cpbuf` is null: a new chain is made from the work buffer. */
  method Open(args: CmdArgs, s: seq<byte>, cpbuf: Slot, ghost chains: seq<seq<Smbuf>>, ghost slots: seq<seq<byte>>, ghost mine: set<object>)
    returns (ghost chains': seq<seq<Smbuf>>, ghost mine': set<object>)
    requires args.Slotted(chains) && Within(chains, mine) && Carried(chains, slots, mine) && args !in mine && NUL in s
    requires cpbuf == SlotAt(|chains|) && |chains| <= AUXBUF_LEN
    modifies args`pcmd, args`paux
    ensures args.Slotted(chains') && Within(chains', mine') && Carried(chains', slots + [Text(s)], mine')
    ensures mine <= mine' && fresh(mine' - mine)
  {
    hide Carried, Holds;
    var b, ns := Init(s);
    args.Set(cpbuf, b);
    chains', mine' := chains + [ns], mine + Objects(ns);
    CarriedMore(chains, slots, mine, ns, Text(s), mine');
    SlottedMore(args, chains, ns);
  }

  lemma CarriedLast(chains: seq<seq<Smbuf>>, slots: seq<seq<byte>>, mine: set<object>, ns: seq<Smbuf>, c: seq<byte>, mine': set<object>)
    requires chains != [] && |chains| == |slots| && Within(chains, mine) && mine <= mine'
    requires Holds(ns, c) && Inside(ns, mine')
    requires forall i :: 0 <= i < |chains| - 1 ==> Holds(chains[i], slots[i]) && Apart(chains[i], ns)
    ensures var q := chains[..|chains| - 1] + [ns];
      Within(q, mine') && Carried(q, slots[..|slots| - 1] + [c], mine')
  {
    forall i | 0 <= i < |chains| ensures Inside(chains[i], mine') { assert Inside(chains[i], mine); }
    hide Holds, Apart, Inside;
  }

  /** `*cpbuf` is the slot opened last: the work buffer goes to the end of its chain. */
  method Extend(args: CmdArgs, s: seq<byte>, cpbuf: Slot, ghost chains: seq<seq<Smbuf>>, ghost slots: seq<seq<byte>>, ghost mine: set<object>)
    returns (ghost chains': seq<seq<Smbuf>>, ghost mine': set<object>)
    requires args.Slotted(chains) && Within(chains, mine) && Carried(chains, slots, mine) && args !in mine && NUL in s
    requires chains != [] && cpbuf == SlotAt(|chains| - 1)
    requires |slots[|slots| - 1]| < 2 * MAXLEN_PER_NODE
    modifies mine
    ensures args.Slotted(chains') && Within(chains', mine')
    ensures Carried(chains', slots[..|slots| - 1] + [slots[|slots| - 1] + Text(s)], mine')
    ensures mine <= mine' && fresh(mine' - mine)
  {
    hide Holds;
    ghost var k := |chains| - 1;
    ghost var last := chains[k];
    assert Inside(last, mine);
    ghost var ns := InsertBuf(args.Get(cpbuf), s, last, slots[k]);
    forall i | 0 <= i < k ensures Holds(chains[i], slots[i]) && Apart(chains[i], ns) {
      assert Apart(chains[i], last) && Inside(chains[i], mine);
      forall n | n in chains[i] ensures unchanged(n) && unchanged(n.buf) && n !in ns && n.buf !in Buffers(ns) {
        assert n !in last;
      }
      HoldsStill(chains[i], slots[i]);
    }
    chains', mine' := chains[..k] + [ns], mine + Objects(ns);
    CarriedLast(chains, slots, mine, ns, slots[k] + Text(s), mine');
  }

  ghost function Delivered(slots: seq<seq<byte>>, k: nat, t: seq<byte>): seq<seq<byte>>
    requires k <= |slots|
  {
    if k == |slots| then slots + [t] else slots[..k] + [slots[k] + t] + slots[k + 1..]
  }

  /** The work buffer goes to `*cpbuf`, a new slot or the one opened last. */
  method Deliver(args: CmdArgs, s: seq<byte>, cpbuf: Slot, ghost k: nat,
                 ghost chains: seq<seq<Smbuf>>, ghost slots: seq<seq<byte>>, ghost mine: set<object>)
    returns (ghost chains': seq<seq<Smbuf>>, ghost mine': set<object>)
    requires args.Slotted(chains) && Within(chains, mine) && Carried(chains, slots, mine) && args !in mine && NUL in s
    requires cpbuf == SlotAt(k) && k <= |chains| <= k + 1 && k <= AUXBUF_LEN
    requires k < |slots| ==> |slots[k]| < 2 * MAXLEN_PER_NODE
    modifies args`pcmd, args`paux, mine
    ensures args.Slotted(chains') && Within(chains', mine') && Carried(chains', Delivered(slots, k, Text(s)), mine')
    ensures mine <= mine' && fresh(mine' - mine)
  {
    hide Holds;
    if args.Get(cpbuf) == null {
      chains', mine' := Open(args, s, cpbuf, chains, slots, mine);
    } else {
      chains', mine' := Extend(args, s, cpbuf, chains, slots, mine);
      assert slots[..k] + [slots[k] + Text(s)] + slots[k + 1..] == slots[..k] + [slots[k] + Text(s)];
    }
  }

  // ---- The work buffer

  /** The work buffer holds `work`, with zeroes behind it. */
  ghost predicate Work(buf: array<byte>, work: seq<byte>)
    reads buf
  {
    && buf.Length == BLOCK + 1 && |work| <= BLOCK && NUL !in work
    && buf[..|work|] == work
    && forall i :: |work| <= i <= BLOCK ==> buf[i] == NUL
  }

  lemma WorkText(buf: array<byte>, work: seq<byte>)
    requires Work(buf, work)
    ensures NUL in buf[..] && Text(buf[..]) == work
  {
    assert buf[..][..|work|] == work;
    TextIs(buf[..], |work|);
  }

  method Bzero(buf: array<byte>)
    requires buf.Length == BLOCK + 1
    modifies buf
    ensures Work(buf, [])
  {
    forall i | 0 <= i <= BLOCK { buf[i] := NUL; }
  }

  // ---- The parser

  /** The record in the middle of a line: `slots` are opened, and `cpbuf` is the last of them. */
  ghost predicate Reading(args: CmdArgs, cpbuf: Slot, chains: seq<seq<Smbuf>>, slots: seq<seq<byte>>, mine: set<object>)
    reads args, mine
  {
    && args !in mine && args.Slotted(chains) && Within(chains, mine) && Carried(chains, slots, mine)
    && args.plen == |slots|
    && cpbuf == if slots == [] then Nowhere else SlotAt(|slots| - 1)
  }

  /** Lines 79-90: a full work buffer is flushed to the slot opened last. */
  method Flush(args: CmdArgs, buf: array<byte>, cpbuf: Slot, ghost work: seq<byte>,
               ghost chains: seq<seq<Smbuf>>, ghost slots: seq<seq<byte>>, ghost mine: set<object>)
    returns (cpbuf': Slot, ghost chains': seq<seq<Smbuf>>, ghost mine': set<object>)
    requires Reading(args, cpbuf, chains, slots, mine) && Work(buf, work) && buf !in mine && |work| == BLOCK
    requires slots != [] ==> |slots[|slots| - 1]| < 2 * MAXLEN_PER_NODE
    modifies args, buf, mine
    ensures Reading(args, cpbuf', chains', Flushed(work, slots), mine') && Work(buf, [])
    ensures mine <= mine' && fresh(mine' - mine)
  {
    hide Holds, Carried;
    WorkText(buf, work);
    cpbuf' := cpbuf;
    if cpbuf' == Nowhere {
      cpbuf' := AtCmd;
      args.plen := args.plen + 1;
    }
    ghost var k := if slots == [] then 0 else |slots| - 1;
    CarriedLength(chains, slots, mine);
    chains', mine' := Deliver(args, buf[..], cpbuf', k, chains, slots, mine);
    DeliveredIsFlushed(work, slots);
    Bzero(buf);
  }

  lemma DeliveredIsFlushed(work: seq<byte>, slots: seq<seq<byte>>)
    requires |work| == BLOCK
    ensures Delivered(slots, if slots == [] then 0 else |slots| - 1, work) == Flushed(work, slots)
  {
  }

  lemma CarriedLength(chains: seq<seq<Smbuf>>, slots: seq<seq<byte>>, mine: set<object>)
    requires Within(chains, mine) && Carried(chains, slots, mine)
    ensures |chains| == |slots|
  {
  }

  /** Lines 94-104, and again lines 125-135: the work buffer opens the next slot. */
  method NextSlot(args: CmdArgs, buf: array<byte>, cpbuf: Slot, ghost work: seq<byte>,
                  ghost chains: seq<seq<Smbuf>>, ghost slots: seq<seq<byte>>, ghost mine: set<object>)
    returns (cpbuf': Slot, ghost chains': seq<seq<Smbuf>>, ghost mine': set<object>)
    requires Reading(args, cpbuf, chains, slots, mine) && Work(buf, work) && buf !in mine
    requires |slots| <= AUXBUF_LEN
    modifies args, mine
    ensures Reading(args, cpbuf', chains', slots + [work], mine')
    ensures mine <= mine' && fresh(mine' - mine)
  {
    hide Holds, Carried;
    WorkText(buf, work);
    if cpbuf == Nowhere {
      cpbuf' := AtCmd;
      args.plen := args.plen + 1;
    } else {
      cpbuf' := AtAux(args.plen - 1);
      args.plen := args.plen + 1;
    }
    CarriedLength(chains, slots, mine);
    chains', mine' := Deliver(args, buf[..], cpbuf', |slots|, chains, slots, mine);
  }

  /** Line 111: one more byte in the work buffer. */
  method Collect(buf: array<byte>, pbuf: nat, b: byte, ghost work: seq<byte>)
    requires Work(buf, work) && pbuf == |work| < BLOCK && b != NUL
    modifies buf
    ensures Work(buf, work + [b])
  {
    buf[pbuf] := b;
    assert buf[..pbuf + 1] == work + [b];
  }

  /** Lines 114-123: the newline becomes the end of the text. */
  method CutNewline(buf: array<byte>, ghost work: seq<byte>)
    requires Work(buf, work) && work != [] && work[|work| - 1] == NEWLINE && NEWLINE !in work[..|work| - 1]
    modifies buf
    ensures Work(buf, work[..|work| - 1])
  {
    var pbuf := 0;
    assert forall j :: 0 <= j < |work| ==> buf[j] == buf[..|work|][j];
    assert forall j :: 0 <= j < |work| - 1 ==> work[j] in work[..|work| - 1];
    while buf[pbuf] != NEWLINE
      invariant 0 <= pbuf < |work|
      decreases |work| - pbuf
    {
      pbuf := pbuf + 1;
    }
    buf[pbuf] := NUL;
    assert buf[..pbuf] == work[..pbuf];
  }

  /** What is known of the work buffer while a line is read: the newline is in it only once all is read. */
  ghost predicate NoNewlineYet(work: seq<byte>, rest: seq<byte>) {
    if rest == [] then work != [] && work[|work| - 1] == NEWLINE && NEWLINE !in work[..|work| - 1]
    else NEWLINE !in work && Line(rest)
  }

  lemma NoNewlineNext(work: seq<byte>, rest: seq<byte>)
    requires NoNewlineYet(work, rest) && rest != []
    ensures rest[0] != NUL && NoNewlineYet([], rest)
    ensures NoNewlineYet(work + [rest[0]], rest[1..])
    ensures rest[0] == SPACE ==> |rest| > 1 && rest[1] != NUL && NoNewlineYet([rest[1]], rest[2..])
  {
    assert forall j :: 0 <= j < |rest| - 1 ==> rest[j] in rest[..|rest| - 1];
    if |rest| > 1 {
      NoNewlineTail(rest);
      if |rest| > 2 { NoNewlineTail(rest[1..]); }
    }
  }

  lemma NoNewlineTail(rest: seq<byte>)
    requires Line(rest) && |rest| > 1
    ensures Line(rest[1..])
  {
    assert rest[1..][..|rest| - 2] == rest[..|rest| - 1][1..];
  }

  /** The parser at the top of its loop, with `rest` still to read. */
  ghost predicate Parsing(args: CmdArgs, buf: array<byte>, pbuf: nat, cpbuf: Slot, work: seq<byte>,
                          chains: seq<seq<Smbuf>>, slots: seq<seq<byte>>, mine: set<object>, rest: seq<byte>)
    reads args, buf, mine
  {
    && Reading(args, cpbuf, chains, slots, mine) && Work(buf, work) && buf !in mine
    && pbuf == |work| && NoNewlineYet(work, rest)
  }

  /** One turn of the loop. */
  method Turn(args: CmdArgs, buf: array<byte>, pbuf: nat, cpbuf: Slot, cmd: seq<byte>, i: nat, ghost work: seq<byte>,
              ghost chains: seq<seq<Smbuf>>, ghost slots: seq<seq<byte>>, ghost mine: set<object>, ghost rest: seq<byte>)
    returns (pbuf': nat, cpbuf': Slot, i': nat, ghost work': seq<byte>,
             ghost chains': seq<seq<Smbuf>>, ghost slots': seq<seq<byte>>, ghost mine': set<object>)
    requires Parsing(args, buf, pbuf, cpbuf, work, chains, slots, mine, rest)
    requires rest != [] && rest <= cmd[if i <= |cmd| then i else |cmd|..]
    requires |ParseFrom(work, slots, rest)| <= 1 + AUXBUF_LEN
    requires forall j :: 0 <= j < |ParseFrom(work, slots, rest)| ==> |ParseFrom(work, slots, rest)[j]| <= 2048
    modifies args, buf, mine
    ensures i < i' <= i + |rest|
    ensures Parsing(args, buf, pbuf', cpbuf', work', chains', slots', mine', rest[i' - i..])
    ensures ParseFrom(work', slots', rest[i' - i..]) == ParseFrom(work, slots, rest)
    ensures mine <= mine' && fresh(mine' - mine)
  {
    hide Holds, Carried, Reading, Work, ParseFrom, NoNewlineYet, Flushed;
    pbuf', cpbuf', i' := pbuf, cpbuf, i;
    work', chains', slots', mine' := work, chains, slots, mine;
    NoNewlineNext(work, rest);
    WorkText(buf, work);
    assert rest[0] == cmd[i];
    if |Text(buf[..])| == BLOCK {
      TurnFlush(work, slots, rest);
      cpbuf', chains', mine' := Flush(args, buf, cpbuf', work, chains', slots, mine');
      slots', work', pbuf' := Flushed(work, slots), [], 0;
      NoNewlineNext([], rest);
    }
    WorkBound(buf, work');
    assert |rest| > 1 ==> rest[1] == cmd[i + 1] && [] + [rest[1]] == [rest[1]];
    TurnNext(work', slots', rest);
    if cmd[i'] == SPACE {
      cpbuf', chains', mine' := NextSlot(args, buf, cpbuf', work', chains', slots', mine');
      slots', work', pbuf', i' := slots' + [work'], [], 0, i' + 1;
      Bzero(buf);
    }
    Collect(buf, pbuf', cmd[i'], work');
    work', pbuf', i' := work' + [cmd[i']], pbuf' + 1, i' + 1;
  }

  lemma WorkBound(buf: array<byte>, work: seq<byte>)
    requires Work(buf, work)
    ensures |work| <= BLOCK && buf.Length == BLOCK + 1
  {
  }

  method ParseCmd(args: CmdArgs, cmd: seq<byte>) returns (ghost chains: seq<seq<Smbuf>>, ghost mine: set<object>)
    requires args.Clean() && NUL in cmd && InDomain(Text(cmd))
    modifies args
    ensures args.Slotted(chains) && Within(chains, mine) && Carried(chains, Parsed(Text(cmd)), mine)
    ensures args.plen == |Parsed(Text(cmd))| - 1
    ensures args !in mine && fresh(mine)
  {
    hide Holds, Carried, Parsed, ParseFrom, Within;
    ghost var text := Text(cmd);
    var buf := new byte[BLOCK + 1];
    var pbuf: nat, cpbuf, i: nat := 0, Nowhere, 0;
    ghost var work: seq<byte>, slots: seq<seq<byte>> := [], [];
    chains, mine := [], {};
    Bzero(buf);
    StartParsing(args, buf, text);
    while cmd[i] != NUL
      invariant 0 <= i <= |text| && fresh(buf) && fresh(mine)
      invariant Parsing(args, buf, pbuf, cpbuf, work, chains, slots, mine, text[i..])
      invariant ParseFrom(work, slots, text[i..]) == Parsed(text)
      decreases |text| - i
    {
      hide Parsing;
      ghost var rest := text[i..];
      ghost var j := i;
      pbuf, cpbuf, i, work, chains, slots, mine := Turn(args, buf, pbuf, cpbuf, cmd, i, work, chains, slots, mine, rest);
      assert rest[i - j..] == text[i..];
    }
    assert text[i..] == [];
    FinishParsing(work, slots);
    CutNewline(buf, work);
    cpbuf, chains, mine := NextSlot(args, buf, cpbuf, work[..|work| - 1], chains, slots, mine);
    args.plen := args.plen - 1;
  }

  lemma StartParsing(args: CmdArgs, buf: array<byte>, text: seq<byte>)
    requires args.Clean() && Line(text) && Work(buf, [])
    ensures Parsing(args, buf, 0, Nowhere, [], [], [], {}, text[0..])
    ensures ParseFrom([], [], text[0..]) == Parsed(text)
  {
  }

  lemma FinishParsing(work: seq<byte>, slots: seq<seq<byte>>)
    requires work != []
    ensures ParseFrom(work, slots, []) == slots + [work[..|work| - 1]]
  {
  }

  // ---- The check

  const GET: seq<byte> := [71, 69, 84]
  const SET: seq<byte> := [83, 69, 84]
  const DEL: seq<byte> := [68, 69, 76]
  const DELETE: seq<byte> := DEL + [69, 84, 69]

  ghost predicate Spells(word: seq<byte>, s: string) {
    |word| == |s| && forall i :: 0 <= i < |s| ==> word[i] as int == s[i] as int
  }

  lemma CommandWords()
    ensures Spells(GET, "GET") && Spells(SET, "SET") && Spells(DEL, "DEL") && Spells(DELETE, "DELETE")
  {
  }

  /** pd_cmd_t */
  datatype Available = Available(cmd: seq<byte>, arity: nat)

  const AVAIL_CMDS := [Available(GET, 1), Available(SET, 2), Available(DELETE, 1), Available(DEL, 1)]

  /** A line of slots is a command when it starts with a command word and has as many arguments as that takes. */
  ghost predicate IsCommand(slots: seq<seq<byte>>) {
    slots != [] &&
    if First(slots[0]) == SET then |slots| == 3
    else First(slots[0]) in {GET, DEL, DELETE} && |slots| == 2
  }

  lemma InTable(slots: seq<seq<byte>>)
    requires slots != []
    ensures Available(First(slots[0]), |slots| - 1) in AVAIL_CMDS <==> IsCommand(slots)
  {
    hide First;
    assert AVAIL_CMDS[0] == Available(GET, 1) && AVAIL_CMDS[2] == Available(DELETE, 1) && AVAIL_CMDS[3] == Available(DEL, 1);
    assert SET[0] == 83 && GET[0] == 71 && DEL[0] == 68 && DELETE[0] == 68;
  }

  method ValidateCmd(pargs: CmdArgs, ghost chains: seq<seq<Smbuf>>, ghost slots: seq<seq<byte>>, ghost mine: set<object>) returns (ret: int)
    requires pargs.Slotted(chains) && Within(chains, mine) && Carried(chains, slots, mine)
    requires slots != [] && pargs.plen == |slots| - 1
    ensures ret == if IsCommand(slots) then 0 else -1
  {
    HeadText(chains[0], slots[0]);
    InTable(slots);
    hide Holds, First, IsCommand;
    var found := false;
    var arity := pargs.plen;
    var i := 0;
    while i < |AVAIL_CMDS|
      invariant 0 <= i <= |AVAIL_CMDS| && !found
      invariant Available(First(slots[0]), arity) !in AVAIL_CMDS[..i]
    {
      StrcmpZero(First(slots[0]), AVAIL_CMDS[i].cmd);
      if Strcmp(Text(pargs.pcmd.buf[..]), AVAIL_CMDS[i].cmd) == 0 && arity == AVAIL_CMDS[i].arity {
        found := true;
        break;
      }
      i := i + 1;
    }
    return if !found then -1 else 0;
  }

  // ---- The release

  /** The record is clean afterwards exactly when the slots in use were the first `plen`. */
  method ReleaseSmbuf(pargs: CmdArgs)
    requires pargs.plen <= |pargs.paux| == AUXBUF_LEN
    modifies pargs
    ensures pargs.Clean() <==> old(forall i :: pargs.plen <= i < AUXBUF_LEN ==> pargs.paux[i] == null)
  {
    var i := 0;
    while i < pargs.plen
      invariant 0 <= i <= pargs.plen == old(pargs.plen) && |pargs.paux| == AUXBUF_LEN
      invariant forall j :: 0 <= j < i ==> pargs.paux[j] == null
      invariant forall j :: i <= j < AUXBUF_LEN ==> pargs.paux[j] == old(pargs.paux)[j]
    {
      pargs.paux := pargs.paux[i := null];
      i := i + 1;
    }
    pargs.pcmd := null;
    pargs.plen := 0;
  }
}
