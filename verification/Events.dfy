/** pd_event: what happens between the bytes that arrive on a connection and the answer to them. */
module Events {
  import opened CStrings
  import opened Smbufs
  import opened CmdLine
  import opened Cmd
  import opened TreeShapes
  import opened TreeOrder
  import opened Trees
  import TreeInit
  import opened TreeSearch
  import opened Handlers
  import opened StoreModel

  const NETEV_BUFLEN := 4096

  /** What read() brought. */
  datatype Input = Nothing | Bytes(bytes: seq<byte>)

  /** The zeroed buffer after the read. */
  function Buffer(bytes: seq<byte>): (buf: seq<byte>)
    requires |bytes| <= NETEV_BUFLEN
    ensures NUL in buf && |buf| == NETEV_BUFLEN + 1 && bytes <= buf
    ensures forall i :: |bytes| <= i <= NETEV_BUFLEN ==> buf[i] == NUL
  {
    var zeroes := seq(NETEV_BUFLEN + 1 - |bytes|, _ => NUL);
    assert zeroes[0] == NUL;
    bytes + zeroes
  }

  /** Input that the parser is meant for: one line that fits, or none. */
  ghost predicate Acceptable(input: Input) {
    input.Bytes? ==>
      && |input.bytes| <= NETEV_BUFLEN
      && (Text(Buffer(input.bytes)) == [NEWLINE] || InDomain(Text(Buffer(input.bytes))))
  }

  ghost function RequestOf(input: Input): Request
    requires Acceptable(input)
  {
    if input.Nothing? || Text(Buffer(input.bytes)) == [NEWLINE] then [] else Parsed(Text(Buffer(input.bytes)))
  }

  /** A connection is not answered exactly when nothing was read, or a newline and nothing in front of it. */
  lemma SilentIff(s: State, input: Input)
    requires Acceptable(input)
    ensures Answer(s, RequestOf(input)) == Silent <==> input.Nothing? || Text(Buffer(input.bytes)) == [NEWLINE]
  {
    OtherAnswers(s, RequestOf(input));
    if input.Bytes? {
      Grows([], [], Text(Buffer(input.bytes)));
      hide Text, Buffer, Answer;
    }
  }

  lemma EmptyLine(rest: seq<byte>)
    requires |rest| <= NETEV_BUFLEN - 2
    ensures Acceptable(Bytes([NEWLINE])) && RequestOf(Bytes([NEWLINE])) == []
    ensures Acceptable(Bytes([NEWLINE, NUL] + rest)) && RequestOf(Bytes([NEWLINE, NUL] + rest)) == []
  {
    var one, more := Buffer([NEWLINE]), Buffer([NEWLINE, NUL] + rest);
    assert more[..2] == [NEWLINE, NUL];
    assert one[..1] == [NEWLINE] && more[..1] == [NEWLINE];
    TextIs(one, 1);
    TextIs(more, 1);
    hide Text, Buffer, InDomain;
  }

  /** The record carries the request; it is clean when there is none. */
  ghost predicate Filled(args: CmdArgs, chains: seq<seq<Smbuf>>, req: Request, mine: set<object>)
    reads args, mine
  {
    && args !in mine && Within(chains, mine)
    && if req == [] then args.Clean()
       else args.Slotted(chains) && Carried(chains, req, mine) && args.plen == |req| - 1
  }

  method ReadFn(args: CmdArgs, input: Input) returns (ret: int, ghost chains: seq<seq<Smbuf>>, ghost mine: set<object>)
    requires args.Clean() && Acceptable(input)
    modifies args
    ensures Filled(args, chains, RequestOf(input), mine) && fresh(mine)
    ensures ret == if RequestOf(input) != [] && IsCommand(RequestOf(input)) then 0 else -1
  {
    hide Carried, InDomain, Text, Buffer, IsCommand, Parsed;
    chains, mine := [], {};
    if input.Nothing? {
      return -1, chains, mine;
    }
    var buf := Buffer(input.bytes);
    StrcmpZero(Text(buf), [NEWLINE]);
    if Strcmp(Text(buf), [NEWLINE]) == 0 {
      return -1, chains, mine;
    }
    chains, mine := ParseCmd(args, buf);
    Grows([], [], Text(buf));
    var valid := ValidateCmd(args, chains, Parsed(Text(buf)), mine);
    if valid < 0 {
      return -1, chains, mine;
    }
    ret := 0;
  }

  method ErrorFn(args: CmdArgs, ghost chains: seq<seq<Smbuf>>, ghost req: Request, ghost mine: set<object>) returns (reply: Reply)
    requires Filled(args, chains, req, mine)
    modifies args
    ensures args.Clean()
    ensures reply == if req == [] then Silent else Unknown(First(req[0]), Firsts(req[1..]))
  {
    hide Holds, First;
    if args.pcmd == null {
      return Silent;
    }
    reply := HandleInvalid(args, chains, req, mine);
    ReleaseSmbuf(args);
  }

  /** The tree in the heap is the tree of the state, and its root is stale when the state says so. */
  ghost predicate Mirrors(tree: TreeSlot, s: State)
    reads tree, tree.root
  {
    && View(tree.shape) == s.tree && Hashed(tree.repr)
    && (tree.root != null && tree.root.parent != null) == s.stale
  }

  ghost predicate Sound(tree: TreeSlot, s: State, ever: set<Tree>)
    reads tree, tree.root, tree.repr
    reads set n | n in tree.repr :: n.data.key.buf
    reads set n | n in tree.repr :: n.data.value.buf
  {
    RootParent(tree, ever) && Tells(tree, s)
  }

  ghost predicate Tells(tree: TreeSlot, s: State)
    reads tree, tree.root, tree.repr
    reads set n | n in tree.repr :: n.data.key.buf
    reads set n | n in tree.repr :: n.data.value.buf
  {
    tree.Valid() && Readable(tree.repr) && Mirrors(tree, s)
  }

  lemma GetKeeps(s: State, req: Request)
    requires IsGet(req)
    ensures Next(s, req) == s && !Fatal(s, req)
  {
  }

  method ServeGet(tree: TreeSlot, key: Smbuf, ghost kc: seq<Smbuf>, ghost req: Request, ghost s: State, ghost ever: set<Tree>)
    returns (reply: Reply)
    requires Sound(tree, s, ever) && IsGet(req) && Holds(kc, req[1]) && key == kc[0]
    ensures reply == Answer(s, req) && !Fatal(s, req) && Sound(tree, Next(s, req), ever)
  {
    ViewFound(tree.shape, First(req[1]));
    GetKeeps(s, req);
    hide Holds, First, KeyFound, Seek, View, Tells;
    reply := GetFrom(tree, key, kc, req, s);
    TellsStill(tree, s);
  }

  method GetFrom(tree: TreeSlot, key: Smbuf, ghost kc: seq<Smbuf>, ghost req: Request, ghost s: State) returns (reply: Reply)
    requires Tells(tree, s) && IsGet(req) && Holds(kc, req[1]) && key == kc[0]
    ensures reply == Answer(s, req)
  {
    ViewFound(tree.shape, First(req[1]));
    hide Holds, First, KeyFound, Seek, View, Readable;
    reply := HandleGet(tree, key, kc, req[1]);
  }

  lemma ViewRoot(tree: TreeSlot)
    requires tree.Valid()
    ensures tree.root == Root(tree.shape) && (tree.root == null <==> View(tree.shape).Tip?)
  {
  }

  method ServeSet(tree: TreeSlot, key: Smbuf, value: Smbuf, ghost kc: seq<Smbuf>, ghost vc: seq<Smbuf>,
                  ghost req: Request, ghost s: State, ghost ever: set<Tree>)
    returns (reply: Reply, ghost ever': set<Tree>)
    requires Sound(tree, s, ever) && IsSet(req)
    requires Holds(kc, req[1]) && key == kc[0] && |req[1]| <= 2 * MAXLEN_PER_NODE
    requires Holds(vc, req[2]) && value == vc[0] && |req[2]| <= 2 * MAXLEN_PER_NODE
    modifies tree, tree.repr
    ensures reply == Answer(s, req) && !Fatal(s, req) && Sound(tree, Next(s, req), ever')
    ensures ever <= ever' && fresh(ever' - ever)
  {
    hide Holds, First, View, Readable, Carries, Ordered, StableDescending, Add, Inserted;
    ViewRoot(tree);
    ghost var node;
    reply, node := HandleSet(tree, key, value, kc, req[1], vc, req[2]);
    ever' := ever + {node};
    ViewInserted(old(tree.shape), node);
  }

  method ServeDelete(tree: TreeSlot, key: Smbuf, ghost kc: seq<Smbuf>, ghost req: Request, ghost s: State, ghost ever: set<Tree>)
    returns (reply: Reply)
    requires Sound(tree, s, ever) && IsDel(req) && Holds(kc, req[1]) && key == kc[0]
    modifies tree, ever
    ensures reply == Answer(s, req)
    ensures if Fatal(s, req) then reply == Removed(1) && tree.root == old(tree.root) else Sound(tree, Next(s, req), ever)
  {
    DelCases(s, req);
    hide Holds, First, View, Readable, Carries, Ordered, StableDescending, KeyFound, Seek, Remove, Deleted, Answer, Next, Fatal, IsDel;
    ViewRoot(tree);
    FoundMirrors(tree, s, kc, req);
    ghost var node;
    reply, node := HandleDelete(tree, key, kc, req[1], ever);
    if node != null && !Fatal(s, req) {
      ReadableLess(old(tree.repr), tree.repr);
      ViewRoot(tree);
      assert View(tree.shape) == Next(s, req).tree;
    }
  }

  lemma ReadableLess(nodes: set<Tree>, fewer: set<Tree>)
    requires Readable(nodes) && fewer <= nodes
    ensures Readable(fewer)
  {
  }

  lemma DelCases(s: State, req: Request)
    requires IsDel(req)
    ensures |req| == 2
    ensures Answer(s, req) == Removed(if Seek(s.tree, First(req[1])).Tip? then 0 else 1)
    ensures Next(s, req) ==
      if Seek(s.tree, First(req[1])).Tip? then s
      else if First(s.tree.entry.key) == First(req[1]) then State(Remove(s.tree, First(req[1])), Remove(s.tree, First(req[1])).Fork?)
      else State(Remove(s.tree, First(req[1])), s.stale)
  {
  }

  /** What the search for the key of `req` finds, in the heap and in the state. */
  lemma FoundMirrors(tree: TreeSlot, s: State, kc: seq<Smbuf>, req: Request)
    requires tree.Valid() && Readable(tree.repr) && Mirrors(tree, s) && IsDel(req) && Holds(kc, req[1])
    ensures var n := KeyFound(tree.shape, First(req[1]));
      && (n == null <==> Seek(s.tree, First(req[1])).Tip?)
      && (n != null ==> n in Nodes(tree.shape) && View(Deleted(tree.shape, n)) == Remove(s.tree, First(req[1])))
      && (n != null ==> (n == tree.root <==> First(s.tree.entry.key) == First(req[1])))
      && (Fatal(s, req) <==> n != null && tree.Stuck(n))
  {
    var k := First(req[1]);
    HeadText(kc, req[1]);
    ViewFound(tree.shape, k);
    if tree.shape.Node? {
      assert tree.root in Nodes(tree.shape) && Legible(tree.root);
      ViewFound(tree.shape.left, k);
      ViewFound(tree.shape.right, k);
      if KeyFound(tree.shape, k) != null { ViewDeleted(tree.shape, k); }
    }
  }

  /** strncmp on texts */
  function Strncmp(s: seq<byte>, t: seq<byte>, n: nat): int {
    Strcmp(if |s| < n then s else s[..n], if |t| < n then t else t[..n])
  }

  lemma StrncmpPrefix(s: seq<byte>, t: seq<byte>)
    requires NUL !in s && NUL !in t
    ensures Strncmp(s, t, |s|) == 0 <==> s <= t
  {
    StrcmpZero(s, if |t| < |s| then t else t[..|s|]);
    assert s[..|s|] == s;
    hide Strcmp;
  }

  /** After the check, the comparisons of prefixes tell the commands apart. */
  lemma PrefixesTell(req: Request)
    requires req != [] && IsCommand(req)
    ensures IsGet(req) <==> Strncmp(GET, First(req[0]), 3) == 0
    ensures IsSet(req) <==> Strncmp(SET, First(req[0]), 3) == 0
    ensures IsDel(req) <==> Strncmp(DEL, First(req[0]), 3) == 0 || Strncmp(DELETE, First(req[0]), 6) == 0
    ensures IsGet(req) || IsSet(req) || IsDel(req)
  {
    var cmd := First(req[0]);
    assert cmd in {GET, SET, DEL, DELETE};
    assert cmd[0] == 71 || cmd[0] == 83 || cmd[0] == 68;
    assert DELETE[..3] == DEL && DELETE[..6] == DELETE && GET[..3] == GET && SET[..3] == SET && DEL[..3] == DEL;
    StrcmpZero(DEL, DEL);
    StrcmpZero(GET, GET);
    StrcmpZero(SET, SET);
    assert Strcmp(GET, SET) != 0;
  }

  ghost predicate Short(req: Request) {
    forall i :: 0 <= i < |req| ==> |req[i]| <= 2 * MAXLEN_PER_NODE
  }

  lemma FilledSlots(args: CmdArgs, chains: seq<seq<Smbuf>>, req: Request, mine: set<object>)
    requires Filled(args, chains, req, mine) && req != [] && IsCommand(req) && Short(req)
    ensures |chains| == |req| && args.plen + 1 == |req| && 2 <= |req| <= 3 && |args.paux| == AUXBUF_LEN
    ensures args.pcmd != null && NUL in args.pcmd.buf[..] && Text(args.pcmd.buf[..]) == First(req[0])
    ensures forall i :: 1 <= i < |req| ==>
      chains[i] != [] && args.paux[i - 1] == chains[i][0] && Holds(chains[i], req[i]) && |req[i]| <= 2 * MAXLEN_PER_NODE
    ensures forall i :: args.plen <= i < AUXBUF_LEN ==> args.paux[i] == null
  {
    HeadText(chains[0], req[0]);
    hide Holds, First;
  }

  /** Lines 104-121: the handler of the command. */
  method Serve(tree: TreeSlot, args: CmdArgs, ghost chains: seq<seq<Smbuf>>, ghost req: Request, ghost mine: set<object>,
               ghost s: State, ghost ever: set<Tree>) returns (reply: Reply, ghost ever': set<Tree>)
    requires Sound(tree, s, ever) && Filled(args, chains, req, mine) && req != [] && IsCommand(req) && Short(req)
    modifies tree, ever
    ensures reply == Answer(s, req)
    ensures if Fatal(s, req) then reply == Removed(1) && tree.root == old(tree.root) else Sound(tree, Next(s, req), ever')
    ensures ever <= ever' && fresh(ever' - ever)
  {
    FilledSlots(args, chains, req, mine);
    PrefixesTell(req);
    ever' := ever;
    hide *;
    reply := Silent;
    assert tree.repr <= ever;
    if Strncmp(GET, Text(args.pcmd.buf[..]), 3) == 0 {
      reply := ServeGet(tree, args.paux[0], chains[1], req, s, ever);
    } else if Strncmp(SET, Text(args.pcmd.buf[..]), 3) == 0 {
      reply, ever' := ServeSet(tree, args.paux[0], args.paux[1], chains[1], chains[2], req, s, ever);
    } else if Strncmp(DEL, Text(args.pcmd.buf[..]), 3) == 0 || Strncmp(DELETE, Text(args.pcmd.buf[..]), 6) == 0 {
      reply := ServeDelete(tree, args.paux[0], chains[1], req, s, ever);
    }
  }

  method WriteFn(tree: TreeSlot, args: CmdArgs, ghost chains: seq<seq<Smbuf>>, ghost req: Request, ghost mine: set<object>,
                 ghost s: State, ghost ever: set<Tree>) returns (reply: Reply, ghost ever': set<Tree>)
    requires Sound(tree, s, ever) && Filled(args, chains, req, mine) && req != [] && IsCommand(req) && Short(req)
    modifies args, tree, ever
    ensures args.Clean() && reply == Answer(s, req)
    ensures if Fatal(s, req) then reply == Removed(1) && tree.root == old(tree.root) else Sound(tree, Next(s, req), ever')
    ensures ever <= ever' && fresh(ever' - ever)
  {
    FilledSlots(args, chains, req, mine);
    hide *;
    reply, ever' := Serve(tree, args, chains, req, mine, s, ever);
    ReleaseSmbuf(args);
  }

  // ---- The loop

  ghost predicate AllTexts(reqs: seq<Request>) {
    forall i :: 0 <= i < |reqs| ==> Texts(reqs[i])
  }

  lemma RequestTexts(input: Input)
    requires Acceptable(input)
    ensures Texts(RequestOf(input))
    ensures forall reqs :: AllTexts(reqs) ==> AllTexts(reqs + [RequestOf(input)])
  {
    if RequestOf(input) != [] {
      ParsedTexts([], [], Text(Buffer(input.bytes)));
    }
  }

  class Event {
    const ev_tree: TreeSlot
    const ev_cmds: CmdArgs
    ghost var ever: set<Tree>           // every node that was ever in the tree
    ghost var requests: seq<Request>
    ghost var replies: seq<Reply>

    /** Between two events the record is clean, the tree is the one that the run so far leaves behind,
        and every answer was the one that the run up to it prescribes. */
    ghost predicate Valid()
      reads this, ev_tree, ev_tree.root, ev_tree.repr, ev_cmds
      reads set n | n in ev_tree.repr :: n.data.key.buf
      reads set n | n in ev_tree.repr :: n.data.value.buf
    {
      && ev_cmds.Clean()
      && Safe(requests) && AllTexts(requests)
      && Sound(ev_tree, StateAfter(requests), ever)
      && replies == Answers(requests)
    }

    constructor ()
      ensures Valid() && requests == [] && fresh(ev_tree) && fresh(ev_cmds) && ever == {}
    {
      ev_tree := new TreeSlot();
      ev_cmds := new CmdArgs();
      ever, requests, replies := {}, [], [];
    }

    /** One turn of the loop for a connection, lines 258-269. It keeps all of `Valid`, on the valid, the invalid
        and the nothing-read path alike, unless the request deletes a stale root: then the root stays where it was. */
    method Dispatch(input: Input) returns (reply: Reply)
      requires Valid() && Acceptable(input)
      modifies this, ev_tree, ev_cmds, ever
      ensures ev_cmds.Clean()
      ensures requests == old(requests) + [RequestOf(input)] && replies == old(replies) + [reply]
      ensures reply == Answer(StateAfter(old(requests)), RequestOf(input))
      ensures reply == Silent <==> input.Nothing? || Text(Buffer(input.bytes)) == [NEWLINE]
      ensures if old(Fatal(StateAfter(requests), RequestOf(input)))
        then reply == Removed(1) && ev_tree.root == old(ev_tree.root)
        else Valid() && ever >= old(ever) && fresh(ever - old(ever))
    {
      RequestShort(input);
      assert ev_cmds.Clean() && Sound(ev_tree, StateAfter(requests), ever) && Safe(requests) && replies == Answers(requests);
      RequestTexts(input);
      SilentIff(StateAfter(requests), input);
      hide *;
      ghost var ever';
      reply, ever' := Handle(ev_tree, ev_cmds, input, StateAfter(requests), ever);
      Record(RequestOf(input), reply, ever');
    }

    ghost method Record(req: Request, reply: Reply, ever': set<Tree>)
      requires ev_cmds.Clean() && Safe(requests) && replies == Answers(requests) && AllTexts(requests + [req])
      requires reply == Answer(StateAfter(requests), req)
      modifies this`ever, this`requests, this`replies
      ensures requests == old(requests) + [req] && replies == old(replies) + [reply] && ever == ever'
      ensures old(!Fatal(StateAfter(requests), req) && Sound(ev_tree, Next(StateAfter(requests), req), ever')) ==> Valid()
    {
      AfterMore(requests, req);
      SafeMore(requests, req);
      AnswersMore(requests, req);
      hide Tells, StateAfter, Answers, Answer, Next, Fatal, Safe;
      var s := Next(StateAfter(requests), req);
      requests, replies, ever := requests + [req], replies + [reply], ever';
      if old(Tells(ev_tree, s)) { TellsStill(ev_tree, s); }
    }
  }

  /** Lines 260-269: the callbacks of the loop. */
  method Handle(tree: TreeSlot, args: CmdArgs, input: Input, ghost s: State, ghost ever: set<Tree>)
    returns (reply: Reply, ghost ever': set<Tree>)
    requires args.Clean() && Acceptable(input) && Sound(tree, s, ever) && Short(RequestOf(input))
    modifies args, tree, ever
    ensures args.Clean() && reply == Answer(s, RequestOf(input))
    ensures if Fatal(s, RequestOf(input)) then reply == Removed(1) && tree.root == old(tree.root)
      else Sound(tree, Next(s, RequestOf(input)), ever')
    ensures ever <= ever' && fresh(ever' - ever)
  {
    hide Tells, RootParent, RequestOf, Filled, Fatal, IsCommand, Answer, Next;
    ever' := ever;
    ghost var req := RequestOf(input);
    var ret;
    ghost var chains, mine;
    ret, chains, mine := ReadFn(args, input);
    TellsStill(tree, s);
    if ret < 0 {
      NoCommand(s, req);
      label read:
      reply := ErrorFn(args, chains, req, mine);
      TellsStill@read(tree, s);
    } else {
      reply, ever' := WriteFn(tree, args, chains, req, mine, s, ever);
    }
  }

  twostate lemma TellsStill(tree: TreeSlot, new s: State)
    requires old(Tells(tree, s)) && unchanged(tree) && unchanged(tree.repr)
    requires forall n | n in tree.repr :: unchanged(n.data.key.buf) && unchanged(n.data.value.buf)
    ensures Tells(tree, s)
  {
    assert old(tree.Valid()) && old(Readable(tree.repr));
    ReadableStill(tree.repr);
    assert tree.Valid();
  }

  lemma NoCommand(s: State, req: Request)
    requires req == [] || !IsCommand(req)
    ensures Next(s, req) == s && !Fatal(s, req)
    ensures Answer(s, req) == if req == [] then Silent else Unknown(First(req[0]), Firsts(req[1..]))
  {
  }

  lemma RequestShort(input: Input)
    requires Acceptable(input)
    ensures Short(RequestOf(input))
  {
  }

  // ---- Every run

  /** Whatever a GET was answered with, an earlier request of the run had stored it under that key. */
  lemma GetInRun(ev: Event, i: nat)
    requires ev.Valid() && i < |ev.requests| && IsGet(ev.requests[i]) && ev.replies[i].Found?
    ensures exists j :: (0 <= j < i && IsSet(ev.requests[j])
      && First(ev.requests[j][1]) == First(ev.requests[i][1]) && First(ev.requests[j][2]) == ev.replies[i].value)
  {
    var before := ev.requests[..i];
    AnswersAt(ev.requests, i);
    assert forall j :: 0 <= j < i ==> before[j] == ev.requests[j];
    hide IsSet, IsGet, Texts, Answer, First, StateAfter, Answers, Sound, Safe;
    GetSound(before, ev.requests[i]);
  }

  /** The nodes in the tree are as many as the SETs answered, less the DELs answered with 1. */
  lemma NodesInRun(ev: Event)
    requires ev.Valid()
    ensures |ev.ev_tree.repr| + multiset(ev.replies)[Removed(1)] == multiset(ev.replies)[Stored]
  {
    CountExact(ev.requests);
    BagOfView(ev.ev_tree.shape);
  }

  /** A line of up to 65 printed tokens of up to 127 bytes each arrives as these tokens. */
  lemma PrintedRequest(ts: seq<seq<byte>>)
    requires 1 <= |ts| <= 65 && Words(ts) && |Printed(ts)| <= 4096
    requires forall i :: 0 <= i < |ts| ==> |ts[i]| < 128
    ensures Acceptable(Bytes(Printed(ts))) && RequestOf(Bytes(Printed(ts))) == ts
  {
    PrintedIsLine(ts);
    RoundTripIff(ts);
    hide Printed, Parsed, Words;
    var line := Printed(ts);
    assert Buffer(line)[..|line|] == line;
    TextIs(Buffer(line), |line|);
  }

  ghost predicate AllAcceptable(inputs: seq<Input>) {
    forall i :: 0 <= i < |inputs| ==> Acceptable(inputs[i])
  }

  ghost function RequestsOf(inputs: seq<Input>): (reqs: seq<Request>)
    requires AllAcceptable(inputs)
    ensures |reqs| == |inputs|
  {
    seq(|inputs|, i requires 0 <= i < |inputs| => RequestOf(inputs[i]))
  }

  lemma RequestsNext(inputs: seq<Input>, i: nat)
    requires AllAcceptable(inputs) && i < |inputs|
    ensures Acceptable(inputs[i]) && RequestsOf(inputs)[..i + 1] == RequestsOf(inputs)[..i] + [RequestOf(inputs[i])]
    ensures Safe(RequestsOf(inputs)) ==> !Fatal(StateAfter(RequestsOf(inputs)[..i]), RequestOf(inputs[i]))
  {
    hide Acceptable, RequestOf, Fatal, StateAfter;
    assert RequestsOf(inputs)[i] == RequestOf(inputs[i]);
  }

  /** The whole loop: from the start, every run without the deletion of a stale root is answered as the machine prescribes. */
  method Run(inputs: seq<Input>) returns (replies: seq<Reply>)
    requires AllAcceptable(inputs) && Safe(RequestsOf(inputs))
    ensures replies == Answers(RequestsOf(inputs))
  {
    hide *;
    ghost var reqs := RequestsOf(inputs);
    var ev := new Event();
    var i := 0;
    replies := [];
    assert reqs[..0] == [];
    NoReplies(ev);
    while i < |inputs|
      invariant 0 <= i <= |inputs| && fresh(ev) && fresh(ev.ev_tree) && fresh(ev.ev_cmds) && fresh(ev.ever)
      invariant ev.Valid() && ev.requests == reqs[..i] && ev.replies == replies
    {
      RequestsNext(inputs, i);
      var reply := ev.Dispatch(inputs[i]);
      replies := replies + [reply];
      i := i + 1;
    }
    assert reqs[..i] == reqs;
    RepliesAre(ev);
  }

  lemma NoReplies(ev: Event)
    requires ev.Valid() && ev.requests == []
    ensures ev.replies == []
  {
  }

  lemma RepliesAre(ev: Event)
    requires ev.Valid()
    ensures ev.replies == Answers(ev.requests)
  {
  }

  const A: seq<byte> := [97]
  const B: seq<byte> := [98]

  /** SET b b, SET a b, GET a: the value just stored is not found. */
  method LostUpdate() returns (reply: Reply)
    ensures reply == NotFound(A)
  {
    LostLines();
    hide *;
    var ev := new Event();
    reply := ev.Dispatch(Bytes(Printed([SET, B, B])));
    reply := ev.Dispatch(Bytes(Printed([SET, A, B])));
    assert ev.requests == [[SET, B, B], [SET, A, B]];
    reply := ev.Dispatch(Bytes(Printed([GET, A])));
  }

  lemma LostLines()
    ensures var first, second, third := Bytes(Printed([SET, B, B])), Bytes(Printed([SET, A, B])), Bytes(Printed([GET, A]));
      && Acceptable(first) && RequestOf(first) == [SET, B, B]
      && Acceptable(second) && RequestOf(second) == [SET, A, B]
      && Acceptable(third) && RequestOf(third) == [GET, A]
    ensures Answer(StateAfter([[SET, B, B], [SET, A, B]]), [GET, A]) == NotFound(A)
    ensures forall s :: !Fatal(s, [SET, B, B]) && !Fatal(s, [SET, A, B])
  {
    ShortLine([SET, B, B]);
    ShortLine([SET, A, B]);
    ShortLine([GET, A]);
    NotFatal(B, B);
    NotFatal(A, B);
    hide *;
    LostEntry();
  }

  lemma LostEntry()
    ensures Answer(StateAfter([[SET, B, B], [SET, A, B]]), [GET, A]) == NotFound(A)
  {
    Letters();
    LettersHash();
    hide *;
    SetThenGetMisses(B, A, B);
  }

  lemma Letters()
    ensures First(A) == A && NUL !in A && NUL !in B && Below(First(A), First(B))
  {
    FirstShort(A);
    FirstShort(B);
    hide First;
    assert A[..0] == B[..0];
    assert Differ(A, B, 0);
  }

  lemma LettersHash()
    ensures TreeInit.NodeHash(A, B) != 0
  {
    assert A[0] != B[0];
    hide TreeInit.NodeHash;
    TreeInit.NodeHashSeen(A, B, 0, 1);
  }

  lemma NotFatal(k: seq<byte>, v: seq<byte>)
    ensures forall s :: !Fatal(s, [SET, k, v])
  {
    IsSetWords(k, v);
  }

  lemma ShortLine(ts: seq<seq<byte>>)
    requires 2 <= |ts| <= 3 && (ts[0] == SET || ts[0] == GET) && forall i :: 1 <= i < |ts| ==> ts[i] == A || ts[i] == B
    ensures Acceptable(Bytes(Printed(ts))) && RequestOf(Bytes(Printed(ts))) == ts
  {
    hide RequestOf, Acceptable;
    assert forall i :: 0 <= i < |ts| ==> ts[i] in {SET, GET, A, B};
    assert Words(ts) && forall i :: 0 <= i < |ts| ==> |ts[i]| < BLOCK;
    TailLength(ts[1..]);
    PrintedRequest(ts);
  }
}
