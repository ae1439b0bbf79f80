/** The handlers of the Rust server, as critical sections over one shared map. */
module Controller {
  import opened Wrappers
  import opened Commands

  datatype Reply =
    | Value(value: string)
    | NoValue(key: string)
    | Stored
    | Removed(key: string)
    | Failed
    | Rejected(error: Error)

  // ---- The store as a function of the commands executed

  function Apply(db: map<string, string>, c: Command): (map<string, string>, Reply) {
    match c
    case GET(k) => (db, if k in db then Value(db[k]) else NoValue(k))
    case SET(k, v) => (db[k := v], Stored)
    case DELETE(k) => (db - {k}, if k in db then Removed(k) else NoValue(k))
  }

  function Run(cmds: seq<Command>): map<string, string> {
    if cmds == [] then map[] else Apply(Run(cmds[..|cmds| - 1]), cmds[|cmds| - 1]).0
  }

  function ReplyAt(cmds: seq<Command>, p: nat): Reply
    requires p < |cmds|
  {
    Apply(Run(cmds[..p]), cmds[p]).1
  }

  /** The value that the last command that writes to `k` leaves there, if any. */
  ghost function LastWrite(cmds: seq<Command>, k: string): Option<string> {
    if cmds == [] then None
    else
      match cmds[|cmds| - 1]
      case GET(_) => LastWrite(cmds[..|cmds| - 1], k)
      case SET(l, v) => if l == k then Some(v) else LastWrite(cmds[..|cmds| - 1], k)
      case DELETE(l) => if l == k then None else LastWrite(cmds[..|cmds| - 1], k)
  }

  /** The map has exactly what was last written. */
  lemma {:induction false} RunIsLastWrite(cmds: seq<Command>, k: string)
    ensures LastWrite(cmds, k) == if k in Run(cmds) then Some(Run(cmds)[k]) else None
  {
    if cmds != [] {
      RunIsLastWrite(cmds[..|cmds| - 1], k);
    }
  }

  /** A GET is answered with the last value set, when there is one that was not deleted. */
  lemma GetsLastWrite(cmds: seq<Command>, p: nat)
    requires p < |cmds| && cmds[p].GET?
    ensures ReplyAt(cmds, p) ==
      match LastWrite(cmds[..p], cmds[p].key)
      case None => NoValue(cmds[p].key)
      case Some(v) => Value(v)
  {
    RunIsLastWrite(cmds[..p], cmds[p].key);
  }

  /** A DELETE is answered by whether there is such a value, and a SET always in the same way. */
  lemma WritesAnswered(cmds: seq<Command>, p: nat)
    requires p < |cmds|
    ensures cmds[p].DELETE? ==>
      ReplyAt(cmds, p) == if LastWrite(cmds[..p], cmds[p].key).Some? then Removed(cmds[p].key) else NoValue(cmds[p].key)
    ensures cmds[p].SET? ==> ReplyAt(cmds, p) == Stored
  {
    RunIsLastWrite(cmds[..p], cmds[p].key);
  }

  lemma RunNext(cmds: seq<Command>, c: Command)
    ensures Run(cmds + [c]) == Apply(Run(cmds), c).0
    ensures ReplyAt(cmds + [c], |cmds|) == Apply(Run(cmds), c).1
    ensures forall p :: 0 <= p < |cmds| ==> ReplyAt(cmds + [c], p) == ReplyAt(cmds, p)
  {
    hide Apply;
    assert (cmds + [c])[..|cmds|] == cmds;
    forall p | 0 <= p < |cmds| ensures ReplyAt(cmds + [c], p) == ReplyAt(cmds, p) {
      assert (cmds + [c])[..p] == cmds[..p];
    }
  }

  // ---- The handlers

  /** AtomicDB: the map and the mutex round it, which is poisoned when a thread has panicked with it locked. */
  class Database {
    var db: map<string, string>
    const poisoned: bool

    constructor ()
      ensures db == Run([]) && !poisoned
    {
      db, poisoned := map[], false;
    }

    method HandleGet(key: string) returns (reply: Reply)
      ensures reply == if poisoned then Failed else if key in db then Value(db[key]) else NoValue(key)
      ensures !poisoned ==> reply == Apply(db, GET(key)).1
    {
      if poisoned {
        return Failed;
      }
      if key in db {
        return Value(db[key]);
      }
      return NoValue(key);
    }

    method HandleSet(key: string, value: string) returns (reply: Reply)
      modifies this
      ensures reply == if poisoned then Failed else Stored
      ensures db == if poisoned then old(db) else old(db)[key := value]
      ensures !poisoned ==> (db, reply) == Apply(old(db), SET(key, value))
    {
      if poisoned {
        return Failed;
      }
      if key in db {
        db := db[key := value];
      } else {
        db := db + map[key := value];
      }
      return Stored;
    }

    method HandleDel(key: string) returns (reply: Reply)
      modifies this
      ensures reply == if poisoned then Failed else if key in old(db) then Removed(key) else NoValue(key)
      ensures db == if poisoned then old(db) else old(db) - {key}
      ensures !poisoned ==> (db, reply) == Apply(old(db), DELETE(key))
    {
      if poisoned {
        return Failed;
      }
      if key in db {
        db := map k | k in db && k != key :: db[k];
        return Removed(key);
      }
      return NoValue(key);
    }

    /** A line that is no command is answered with its error and changes nothing. */
    method HandleCmd(requestLine: string) returns (reply: Reply)
      modifies this
      ensures match FromStr(requestLine)
        case Ok(c) => reply == (if poisoned then Failed else Apply(old(db), c).1)
                      && db == (if poisoned then old(db) else Apply(old(db), c).0)
        case Err(e) => reply == Rejected(e) && db == old(db)
    {
      match FromStr(requestLine) {
        case Ok(GET(key)) => reply := HandleGet(key);
        case Ok(SET(key, value)) => reply := HandleSet(key, value);
        case Ok(DELETE(key)) => reply := HandleDel(key);
        case Err(error) => reply := Rejected(error);
      }
    }
  }
}
