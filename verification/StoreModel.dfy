/** The C store as a machine on values: what a run of requests answers, and what it leaves behind. */
module StoreModel {
  import opened CStrings
  import opened Smbufs
  import opened CmdLine
  import opened Cmd
  import opened TreeShapes
  import opened TreeSearch
  import opened TreeInit
  import opened MachineWords
  import opened Handlers

  datatype Entry = Entry(key: seq<byte>, value: seq<byte>)

  datatype Entries = Tip | Fork(left: Entries, entry: Entry, right: Entries)

  ghost function Rank(e: Entry): nat {
    Number(NodeHash(e.key, e.value))
  }

  ghost function Add(t: Entries, e: Entry): Entries {
    match t
    case Tip => Fork(Tip, e, Tip)
    case Fork(l, f, r) => if Rank(f) < Rank(e) then Fork(Add(l, e), f, r) else Fork(l, f, Add(r, e))
  }

  /** The subtree below the entry that a search for `k` ends at. */
  ghost function Seek(t: Entries, k: seq<byte>): Entries {
    match t
    case Tip => Tip
    case Fork(l, f, r) =>
      if First(f.key) == k then t else if Below(First(f.key), k) then Seek(l, k) else Seek(r, k)
  }

  ghost function Least(t: Entries): Entry
    requires t.Fork?
  {
    if t.left.Tip? then t.entry else Least(t.left)
  }

  ghost function WithoutLeast(t: Entries): Entries
    requires t.Fork?
  {
    if t.left.Tip? then t.right else Fork(WithoutLeast(t.left), t.entry, t.right)
  }

  ghost function Merge(l: Entries, r: Entries): Entries {
    if l.Tip? then r else if r.Tip? then l else Fork(l, Least(r), WithoutLeast(r))
  }

  /** The tree without the entry that a search for `k` ends at. */
  ghost function Remove(t: Entries, k: seq<byte>): Entries {
    match t
    case Tip => Tip
    case Fork(l, f, r) =>
      if First(f.key) == k then Merge(l, r)
      else if Below(First(f.key), k) then Fork(Remove(l, k), f, r)
      else Fork(l, f, Remove(r, k))
  }

  // ---- The machine

  /** `stale`: the root has a parent pointer, to a node that is no longer in the tree. */
  datatype State = State(tree: Entries, stale: bool)

  const EMPTY := State(Tip, false)

  /** A request is the slots of its line, or nothing when there was no line to parse. */
  type Request = seq<seq<byte>>

  ghost predicate IsGet(req: Request): (r: bool)
    ensures r ==> |req| == 2
  {
    req != [] && IsCommand(req) && First(req[0]) == GET
  }

  ghost predicate IsSet(req: Request): (r: bool)
    ensures r ==> |req| == 3
  {
    req != [] && IsCommand(req) && First(req[0]) == SET
  }

  ghost predicate IsDel(req: Request): (r: bool)
    ensures r ==> |req| == 2
  {
    req != [] && IsCommand(req) && First(req[0]) in {DEL, DELETE}
  }

  ghost function Answer(s: State, req: Request): Reply {
    if req == [] then Silent
    else if IsGet(req) then
      var at := Seek(s.tree, First(req[1]));
      if at.Tip? then NotFound(First(req[1])) else Found(First(at.entry.value))
    else if IsSet(req) then Stored
    else if IsDel(req) then Removed(if Seek(s.tree, First(req[1])).Tip? then 0 else 1)
    else Unknown(First(req[0]), Firsts(req[1..]))
  }

  /** Nothing is answered to nothing, and a line that is no command is answered with all of its slots, in their order. */
  lemma OtherAnswers(s: State, req: Request)
    ensures Answer(s, req) == Silent <==> req == []
    ensures Answer(s, req).Unknown? <==> req != [] && !IsCommand(req)
    ensures Answer(s, req).Unknown? ==>
      Answer(s, req).cmd == First(req[0]) && |Answer(s, req).args| == |req| - 1
    ensures Answer(s, req).Unknown? ==> forall i :: 0 <= i < |req| - 1 ==> Answer(s, req).args[i] == First(req[i + 1])
  {
    if req != [] { FirstsAt(req); }
    hide First, Seek, Firsts;
  }

  /** The root is to be deleted while its parent pointer is stale. */
  ghost predicate Fatal(s: State, req: Request) {
    IsDel(req) && s.tree.Fork? && s.stale && First(s.tree.entry.key) == First(req[1])
  }

  ghost function Next(s: State, req: Request): State {
    if IsSet(req) then State(Add(s.tree, Entry(req[1], req[2])), s.tree.Fork? && s.stale)
    else if IsDel(req) && Seek(s.tree, First(req[1])).Fork? then
      var t := Remove(s.tree, First(req[1]));
      State(t, if First(s.tree.entry.key) == First(req[1]) then t.Fork? else s.stale)
    else s
  }

  ghost function StateAfter(reqs: seq<Request>): State {
    if reqs == [] then EMPTY else Next(StateAfter(reqs[..|reqs| - 1]), reqs[|reqs| - 1])
  }

  /** What a run of requests is answered, one by one. */
  ghost function Answers(reqs: seq<Request>): (r: seq<Reply>)
    ensures |r| == |reqs|
  {
    if reqs == [] then []
    else Answers(reqs[..|reqs| - 1]) + [Answer(StateAfter(reqs[..|reqs| - 1]), reqs[|reqs| - 1])]
  }

  lemma AnswersMore(reqs: seq<Request>, req: Request)
    ensures Answers(reqs + [req]) == Answers(reqs) + [Answer(StateAfter(reqs), req)]
  {
    hide Answer, StateAfter;
    assert (reqs + [req])[..|reqs|] == reqs;
  }

  lemma {:induction false} AnswersAt(reqs: seq<Request>, i: nat)
    ensures |Answers(reqs)| == |reqs|
    ensures i < |reqs| ==> Answers(reqs)[i] == Answer(StateAfter(reqs[..i]), reqs[i])
  {
    hide Answer, StateAfter;
    if reqs != [] {
      var before := reqs[..|reqs| - 1];
      AnswersAt(before, i);
      assert i < |before| ==> before[..i] == reqs[..i] && before[i] == reqs[i];
    }
  }

  /** No request of the run deletes a stale root. */
  ghost predicate Safe(reqs: seq<Request>) {
    forall i :: 0 <= i < |reqs| ==> !Fatal(StateAfter(reqs[..i]), reqs[i])
  }

  lemma AfterMore(reqs: seq<Request>, req: Request)
    ensures StateAfter(reqs + [req]) == Next(StateAfter(reqs), req)
  {
    hide Next;
    assert (reqs + [req])[..|reqs|] == reqs;
  }

  lemma SafeMore(reqs: seq<Request>, req: Request)
    ensures Safe(reqs + [req]) <==> Safe(reqs) && !Fatal(StateAfter(reqs), req)
  {
    hide StateAfter, Fatal;
    var more := reqs + [req];
    assert more[..|reqs|] == reqs && more[|reqs|] == req;
    forall i | 0 <= i < |reqs| ensures more[..i] == reqs[..i] && more[i] == reqs[i] {
    }
    if Safe(more) {
      forall i | 0 <= i < |reqs| ensures !Fatal(StateAfter(reqs[..i]), reqs[i]) {
        assert !Fatal(StateAfter(more[..i]), more[i]);
      }
    }
  }

  // ---- The shapes of the heap tree, seen as values

  ghost function View(s: Shape): Entries {
    match s
    case Leaf => Tip
    case Node(l, x, r) => Fork(View(l), Entry(x.key, x.value), View(r))
  }

  ghost predicate Hashed(nodes: set<Tree>) {
    forall n :: n in nodes ==> n.hash == Rank(Entry(n.key, n.value))
  }

  lemma {:induction false} ViewInserted(s: Shape, x: Tree)
    requires Hashed(Nodes(s) + {x})
    ensures View(Inserted(s, x)) == Add(View(s), Entry(x.key, x.value))
  {
    hide Rank;
    if s.Node? {
      if s.item.hash < x.hash { ViewInserted(s.left, x); } else { ViewInserted(s.right, x); }
    }
  }

  lemma {:induction false} ViewFound(s: Shape, k: seq<byte>)
    ensures KeyFound(s, k) == null <==> Seek(View(s), k).Tip?
    ensures var n := KeyFound(s, k); n != null ==>
      n in Nodes(s) && Seek(View(s), k).entry == Entry(n.key, n.value)
  {
    hide First, Below;
    if s.Node? {
      ViewFound(s.left, k);
      ViewFound(s.right, k);
    }
  }

  lemma {:induction false} ViewMinimum(s: Shape)
    requires s.Node?
    ensures Least(View(s)) == Entry(Minimum(s).key, Minimum(s).value)
    ensures View(WithoutMin(s)) == WithoutLeast(View(s))
  {
    if s.left.Node? { ViewMinimum(s.left); }
  }

  lemma ViewJoined(l: Shape, r: Shape)
    ensures View(Joined(l, r)) == Merge(View(l), View(r))
  {
    if l.Node? && r.Node? { ViewMinimum(r); }
  }

  lemma {:induction false} ViewDeleted(s: Shape, k: seq<byte>)
    requires Unique(s) && KeyFound(s, k) != null
    ensures KeyFound(s, k) in Nodes(s)
    ensures View(Deleted(s, KeyFound(s, k))) == Remove(View(s), k)
  {
    hide First, Below, Joined, Merge;
    ViewFound(s, k);
    if First(s.item.key) == k {
      ViewJoined(s.left, s.right);
    } else {
      ViewDeleted(if Below(First(s.item.key), k) then s.left else s.right, k);
    }
  }

  // ---- Nothing is lost and nothing is made up

  ghost function Bag(t: Entries): multiset<Entry> {
    match t
    case Tip => multiset{}
    case Fork(l, e, r) => Bag(l) + multiset{e} + Bag(r)
  }

  lemma {:induction false} BagOfView(s: Shape)
    requires Unique(s)
    ensures |Bag(View(s))| == |Nodes(s)|
  {
    if s.Node? {
      BagOfView(s.left);
      BagOfView(s.right);
      assert |Nodes(s.left) + {s.item}| == |Nodes(s.left)| + 1;
    }
  }

  /** The entries that the run stored. */
  ghost function StoredBag(reqs: seq<Request>): multiset<Entry> {
    if reqs == [] then multiset{}
    else
      StoredBag(reqs[..|reqs| - 1]) + Given(reqs[|reqs| - 1])
  }

  ghost function Given(req: Request): multiset<Entry> {
    if IsSet(req) then multiset{Entry(req[1], req[2])} else multiset{}
  }

  /** The entries that the run removed. */
  ghost function RemovedBag(reqs: seq<Request>): multiset<Entry> {
    if reqs == [] then multiset{}
    else
      RemovedBag(reqs[..|reqs| - 1]) + Taken(StateAfter(reqs[..|reqs| - 1]), reqs[|reqs| - 1])
  }

  ghost function Taken(s: State, req: Request): multiset<Entry> {
    if IsDel(req) && Seek(s.tree, First(req[1])).Fork? then multiset{Seek(s.tree, First(req[1])).entry} else multiset{}
  }

  lemma {:induction false} BagAdd(t: Entries, e: Entry)
    ensures Bag(Add(t, e)) == Bag(t) + multiset{e}
  {
    hide Rank;
    if t.Fork? {
      if Rank(t.entry) < Rank(e) { BagAdd(t.left, e); } else { BagAdd(t.right, e); }
    }
  }

  lemma {:induction false} BagLeast(t: Entries)
    requires t.Fork?
    ensures Bag(WithoutLeast(t)) + multiset{Least(t)} == Bag(t)
  {
    if t.left.Fork? { BagLeast(t.left); }
  }

  lemma BagMerge(l: Entries, r: Entries)
    ensures Bag(Merge(l, r)) == Bag(l) + Bag(r)
  {
    if l.Fork? && r.Fork? { BagLeast(r); }
  }

  lemma {:induction false} BagRemove(t: Entries, k: seq<byte>)
    requires Seek(t, k).Fork?
    ensures Bag(Remove(t, k)) + multiset{Seek(t, k).entry} == Bag(t)
    ensures Seek(t, k).entry in Bag(t)
  {
    hide First, Below, Merge;
    if First(t.entry.key) == k {
      BagMerge(t.left, t.right);
    } else {
      BagRemove(if Below(First(t.entry.key), k) then t.left else t.right, k);
    }
  }

  lemma BagNext(s: State, req: Request)
    ensures Bag(Next(s, req).tree) + Taken(s, req) == Bag(s.tree) + Given(req)
  {
    hide Bag, Seek, First, Remove, Add;
    if IsSet(req) {
      BagAdd(s.tree, Entry(req[1], req[2]));
    } else if IsDel(req) && Seek(s.tree, First(req[1])).Fork? {
      BagRemove(s.tree, First(req[1]));
    }
  }

  /** In every run, what is in the tree and what was removed are together what was stored. */
  lemma {:induction false} Conservation(reqs: seq<Request>)
    ensures Bag(StateAfter(reqs).tree) + RemovedBag(reqs) == StoredBag(reqs)
  {
    hide Next, Taken, Given;
    if reqs != [] {
      var before := reqs[..|reqs| - 1];
      Conservation(before);
      BagNext(StateAfter(before), reqs[|reqs| - 1]);
      Exchange(Bag(StateAfter(before).tree), Given(reqs[|reqs| - 1]), Bag(StateAfter(reqs).tree),
               Taken(StateAfter(before), reqs[|reqs| - 1]), RemovedBag(before));
    }
  }

  lemma Exchange<T>(a: multiset<T>, g: multiset<T>, a': multiset<T>, t: multiset<T>, r: multiset<T>)
    requires a' + t == a + g
    ensures a' + (r + t) == (a + r) + g
  {
    assert a' + (r + t) == (a' + t) + r;
  }

  /** The number of nodes is the number of SETs that were answered, less the DELs answered with 1. */
  lemma CountExact(reqs: seq<Request>)
    ensures |Bag(StateAfter(reqs).tree)| + multiset(Answers(reqs))[Removed(1)] == multiset(Answers(reqs))[Stored]
  {
    Conservation(reqs);
    Counts(reqs);
  }

  lemma {:induction false} Counts(reqs: seq<Request>)
    ensures |StoredBag(reqs)| == multiset(Answers(reqs))[Stored]
    ensures |RemovedBag(reqs)| == multiset(Answers(reqs))[Removed(1)]
  {
    if reqs != [] {
      var before, req := reqs[..|reqs| - 1], reqs[|reqs| - 1];
      Counts(before);
      AnswerCounts(StateAfter(before), req);
      hide Answer, Given, Taken;
      assert multiset(Answers(reqs)) == multiset(Answers(before)) + multiset{Answer(StateAfter(before), req)};
    }
  }

  lemma AnswerCounts(s: State, req: Request)
    ensures |Given(req)| == if Answer(s, req) == Stored then 1 else 0
    ensures |Taken(s, req)| == if Answer(s, req) == Removed(1) then 1 else 0
  {
  }

  lemma {:induction false} StoredByWhom(reqs: seq<Request>, e: Entry)
    requires e in StoredBag(reqs)
    ensures exists i :: 0 <= i < |reqs| && IsSet(reqs[i]) && Entry(reqs[i][1], reqs[i][2]) == e
  {
    hide IsSet;
    var last := |reqs| - 1;
    if e in Given(reqs[last]) {
      assert IsSet(reqs[last]) && Entry(reqs[last][1], reqs[last][2]) == e;
    } else {
      StoredByWhom(reqs[..last], e);
      var i :| 0 <= i < last && IsSet(reqs[..last][i]) && Entry(reqs[..last][i][1], reqs[..last][i][2]) == e;
      assert IsSet(reqs[i]) && Entry(reqs[i][1], reqs[i][2]) == e;
    }
  }

  /** A GET is answered with a value only when an earlier request stored that value under that key. */
  lemma GetSound(reqs: seq<Request>, req: Request)
    requires IsGet(req) && Answer(StateAfter(reqs), req).Found?
    ensures exists i :: (0 <= i < |reqs| && IsSet(reqs[i])
      && First(reqs[i][1]) == First(req[1]) && First(reqs[i][2]) == Answer(StateAfter(reqs), req).value)
  {
    FoundEntry(StateAfter(reqs), req);
    hide Answer, Seek, First, StateAfter, IsGet, IsSet;
    var i := StoredUnder(reqs, First(req[1]));
  }

  /** The entry that a search ends at was stored, under the key searched for. */
  lemma StoredUnder(reqs: seq<Request>, k: seq<byte>) returns (i: nat)
    requires Seek(StateAfter(reqs).tree, k).Fork?
    ensures i < |reqs| && IsSet(reqs[i]) && First(reqs[i][1]) == k
    ensures Entry(reqs[i][1], reqs[i][2]) == Seek(StateAfter(reqs).tree, k).entry
  {
    hide *;
    var t := StateAfter(reqs).tree;
    var e := Seek(t, k).entry;
    BagRemove(t, k);
    InTreeStored(reqs, e);
    StoredByWhom(reqs, e);
    i :| 0 <= i < |reqs| && IsSet(reqs[i]) && Entry(reqs[i][1], reqs[i][2]) == e;
    SeekHasKey(t, k);
  }

  lemma InTreeStored(reqs: seq<Request>, e: Entry)
    requires e in Bag(StateAfter(reqs).tree)
    ensures e in StoredBag(reqs)
  {
    Conservation(reqs);
  }

  lemma FoundEntry(s: State, req: Request)
    requires IsGet(req) && Answer(s, req).Found?
    ensures Seek(s.tree, First(req[1])).Fork?
    ensures Answer(s, req).value == First(Seek(s.tree, First(req[1])).entry.value)
  {
  }

  lemma FirstText(c: seq<byte>)
    requires NUL !in c
    ensures NUL !in First(c)
  {
  }

  lemma {:induction false} SeekHasKey(t: Entries, k: seq<byte>)
    requires Seek(t, k).Fork?
    ensures First(Seek(t, k).entry.key) == k
  {
    hide First, Below;
    if First(t.entry.key) != k { SeekHasKey(if Below(First(t.entry.key), k) then t.left else t.right, k); }
  }

  // ---- When a GET finds what a SET has stored

  /** On the way down by hash along which `e` is added, the order of texts sends its key the same way. */
  ghost predicate Agrees(t: Entries, e: Entry) {
    match t
    case Tip => true
    case Fork(l, f, r) =>
      && First(f.key) != First(e.key)
      && if Rank(f) < Rank(e) then Below(First(f.key), First(e.key)) && Agrees(l, e)
         else !Below(First(f.key), First(e.key)) && Agrees(r, e)
  }

  lemma {:induction false} SeekAfterAdd(t: Entries, e: Entry)
    ensures var before, after := Seek(t, First(e.key)), Seek(Add(t, e), First(e.key));
      if before.Fork? then after.Fork? && after.entry == before.entry
      else if Agrees(t, e) then after == Fork(Tip, e, Tip)
      else after == Tip
  {
    if t.Fork? {
      hide First, Below, Rank;
      var low := Rank(t.entry) < Rank(e);
      if First(t.entry.key) != First(e.key) && Below(First(t.entry.key), First(e.key)) == low {
        SeekAfterAdd(if low then t.left else t.right, e);
      }
    }
  }

  /** What a GET is answered right after a SET of its key: what it would have been answered before, if it found anything;
      otherwise the new value exactly when the two orders agree on the way down. */
  lemma GetAfterSet(s: State, k: seq<byte>, v: seq<byte>)
    ensures Answer(Next(s, [SET, k, v]), [GET, k]) ==
      if Answer(s, [GET, k]).Found? then Answer(s, [GET, k])
      else if Agrees(s.tree, Entry(k, v)) then Found(First(v))
      else NotFound(First(k))
  {
    SeekAfterAdd(s.tree, Entry(k, v));
    IsSetWords(k, v);
    hide First, Seek, Add, Agrees, IsSet, IsGet;
  }

  /** A key that sorts below another one, entered behind an entry of that one to itself: it cannot be found. */
  lemma SetThenGetMisses(k: seq<byte>, w: seq<byte>, v: seq<byte>)
    requires NUL !in k && NUL !in w && Below(First(w), First(k)) && NodeHash(w, v) != 0
    ensures Answer(StateAfter([[SET, k, k], [SET, w, v]]), [GET, w]) == NotFound(First(w))
  {
    var t := Fork(Tip, Entry(k, k), Tip);
    FirstRun(k, w, v);
    FirstText(k);
    FirstText(w);
    BelowTotal(First(w), First(k));
    hide First, Below, NodeHash, Number, IsSet, IsGet, StateAfter, Next;
    NodeHashSymmetric(k, k);
    NumberZero(NodeHash(w, v));
    assert Rank(Entry(k, k)) == 0 < Rank(Entry(w, v));
    assert !Agrees(t, Entry(w, v)) && Seek(t, First(w)) == Tip;
    IsSetWords(k, w);
    GetAfterSet(State(t, false), w, v);
  }

  lemma RunOne(k: seq<byte>)
    ensures StateAfter([[SET, k, k]]) == State(Fork(Tip, Entry(k, k), Tip), false) && Safe([[SET, k, k]])
  {
    AfterMore([], [SET, k, k]);
    SafeMore([], [SET, k, k]);
    IsSetWords(k, k);
    hide IsSet;
    assert [] + [[SET, k, k]] == [[SET, k, k]];
  }

  lemma FirstRun(k: seq<byte>, w: seq<byte>, v: seq<byte>)
    ensures StateAfter([[SET, k, k], [SET, w, v]]) == Next(State(Fork(Tip, Entry(k, k), Tip), false), [SET, w, v])
  {
    RunOne(k);
    AfterMore([[SET, k, k]], [SET, w, v]);
    hide StateAfter, Next, Safe;
    assert [[SET, k, k]] + [[SET, w, v]] == [[SET, k, k], [SET, w, v]];
  }

  lemma IsSetWords(k: seq<byte>, v: seq<byte>)
    ensures IsSet([SET, k, v]) && IsGet([GET, k])
  {
    FirstShort(SET);
    FirstShort(GET);
    hide First;
    assert GET[0] != SET[0];
    assert [SET, k, v][0] == SET && [GET, k][0] == GET;
  }

  lemma FirstShort(c: seq<byte>)
    requires |c| <= MAXLEN_PER_NODE
    ensures First(c) == c
  {
  }

  /** An entry of a key to itself goes to the right of another one: both hash to 0. */
  lemma RunTwo(k: seq<byte>, w: seq<byte>)
    ensures var reqs := [[SET, k, k], [SET, w, w]];
      StateAfter(reqs) == State(Fork(Tip, Entry(k, k), Fork(Tip, Entry(w, w), Tip)), false) && Safe(reqs)
  {
    RunOne(k);
    AfterMore([[SET, k, k]], [SET, w, w]);
    SafeMore([[SET, k, k]], [SET, w, w]);
    SetStep(State(Fork(Tip, Entry(k, k), Tip), false), w, w);
    SelfRight(k, w);
    hide IsSet, StateAfter, Safe, Next, Fatal, Add;
    assert [[SET, k, k]] + [[SET, w, w]] == [[SET, k, k], [SET, w, w]];
  }

  lemma SetStep(s: State, k: seq<byte>, v: seq<byte>)
    ensures Next(s, [SET, k, v]) == State(Add(s.tree, Entry(k, v)), s.tree.Fork? && s.stale)
    ensures !Fatal(s, [SET, k, v])
  {
    IsSetWords(k, v);
    hide IsSet, Add;
  }

  lemma SelfRight(k: seq<byte>, w: seq<byte>)
    ensures Add(Fork(Tip, Entry(k, k), Tip), Entry(w, w)) == Fork(Tip, Entry(k, k), Fork(Tip, Entry(w, w), Tip))
  {
    NodeHashSymmetric(k, k);
    NodeHashSymmetric(w, w);
    hide NodeHash, Number;
  }

  lemma RunThree(k: seq<byte>, w: seq<byte>)
    ensures var reqs := [[SET, k, k], [SET, w, w], [DEL, k]];
      StateAfter(reqs) == State(Fork(Tip, Entry(w, w), Tip), true) && Safe(reqs)
  {
    var two := [[SET, k, k], [SET, w, w]];
    RunTwo(k, w);
    AfterMore(two, [DEL, k]);
    SafeMore(two, [DEL, k]);
    IsDelWords(k);
    hide IsSet, IsDel, StateAfter, Safe, First;
    assert two + [[DEL, k]] == [[SET, k, k], [SET, w, w], [DEL, k]];
  }

  lemma StaleRoot(w: seq<byte>)
    ensures Fatal(State(Fork(Tip, Entry(w, w), Tip), true), [DEL, w])
  {
    IsDelWords(w);
    hide IsDel, First;
  }

  /** Two keys, each stored with itself as the value, deleted in the order in which they came:
      the second deletion is that of a stale root. */
  lemma SecondDeleteIsFatal(k: seq<byte>, w: seq<byte>)
    ensures Safe([[SET, k, k], [SET, w, w], [DEL, k]])
    ensures !Safe([[SET, k, k], [SET, w, w], [DEL, k], [DEL, w]])
  {
    var three := [[SET, k, k], [SET, w, w], [DEL, k]];
    RunThree(k, w);
    SafeMore(three, [DEL, w]);
    StaleRoot(w);
    hide *;
    assert three + [[DEL, w]] == [[SET, k, k], [SET, w, w], [DEL, k], [DEL, w]];
  }

  lemma IsDelWords(k: seq<byte>)
    ensures IsDel([DEL, k]) && !IsSet([DEL, k])
  {
    FirstShort(DEL);
    hide First;
    assert DEL[0] != SET[0];
    assert [DEL, k][0] == DEL;
  }

  lemma NumberZero(h: bv32)
    ensures Number(h) == 0 <==> h == 0
  {
  }
}
