/** The lookup of a path, component by component, following symbolic links. The state is
    the list of names still to look up; `LookupText` shows that the text the library
    rewrites and walks takes exactly these steps. */
module Lookup {
  import opened Paths

  const MAX_LINK_COUNT := 40

  datatype Config = Config(exportDir: string, noFollow: bool, openNoFollow: bool)

  /** The call a lookup is waiting for. */
  datatype Pending = Idle | AskAttr | AskLookup | AskReadlink

  datatype Outcome = Continued | NoEntry | Loop | NoMemory | ServerError

  /** A reply: a failure, an object that is or is not a link, or the target of a link.
      A reply to another question than the one asked counts as a failure. */
  datatype Answer = Failed | Found(link: bool) | Target(text: string)

  /** `k` names are looked up, `links` is the link count, `readlinks` counts READLINK
      calls, `ended` lists the callbacks run. */
  datatype State = State(names: seq<string>, k: nat, links: nat, readlinks: nat, pending: Pending, ended: seq<Outcome>)

  function End(s: State, o: Outcome): State {
    s.(pending := Idle, ended := s.ended + [o])
  }

  /** nfs3_lookup_path_async_internal; `sends` says whether memory and the call are to be
      had. */
  function Advance(c: Config, s: State, isLink: bool, sends: bool): State
    requires s.k <= |s.names|
  {
    if isLink && c.openNoFollow then End(s, Loop)
    else if isLink && (!c.noFollow || s.k < |s.names|) then
      var s1 := s.(links := s.links + 1);
      if s.links >= MAX_LINK_COUNT then End(s1, Loop)
      else if sends then s1.(pending := AskReadlink, readlinks := s.readlinks + 1)
      else End(s1, NoMemory)
    else if !sends then End(s, NoMemory)
    else if s.k == |s.names| then End(s, Continued)
    else s.(k := s.k + 1, pending := AskLookup)
  }

  /** Where a link leads: an absolute target inside the export counts from its root; a
      relative one from the directory that holds the link, followed by what was left of
      the path. */
  function Follow(c: Config, s: State, target: string): Walk
    requires s.k <= |s.names|
  {
    if target != "" && target[0] == '/' then
      if !(c.exportDir <= target) then Fail else
      var rest := target[|c.exportDir|..];
      if rest == "" then At([]) else Resolve(rest)
    else
      VisitAll(At(s.names[..s.k]), [".."] + Split(target) + s.names[s.k..])
  }

  function OnReply(c: Config, s: State, a: Answer, sends: bool): State
    requires s.k <= |s.names|
  {
    match (s.pending, a)
    case (Idle, _) => s
    case (AskReadlink, Target(text)) =>
      (match Follow(c, s, text)
       case Fail => End(s, NoEntry)
       case At(names) => Advance(c, s.(names := names, k := 0, pending := Idle), false, sends))
    case (AskReadlink, _) => End(s, ServerError)
    case (_, Found(link)) => Advance(c, s.(pending := Idle), link, sends)
    case (_, _) => End(s, ServerError)
  }

  /** The start of a lookup of a path that resolves. The empty text asks for attributes
      first; a call that cannot be sent then is reported by the return value. */
  function Start(c: Config, names: seq<string>, empty: bool, sends: bool): State {
    var s := State(names, 0, 0, 0, Idle, []);
    if empty then s.(pending := AskAttr) else Advance(c, s, false, sends)
  }

  /** A lookup that waits has run no callback; one that does not has run exactly one. */
  predicate Sound(s: State) {
    && s.k <= |s.names|
    && s.readlinks <= MAX_LINK_COUNT
    && (s.pending == Idle <==> |s.ended| == 1)
    && (s.pending != Idle ==> s.ended == [] && s.readlinks == s.links <= MAX_LINK_COUNT)
  }

  /** The links left to follow, a READLINK under way counting half. */
  function LinksLeft(s: State): int {
    2 * (MAX_LINK_COUNT - s.links) + if s.pending == AskReadlink then 1 else 0
  }

  lemma {:induction false} AdvanceSound(c: Config, s: State, isLink: bool, sends: bool)
    requires s.k <= |s.names| && s.pending == Idle && s.ended == [] && s.readlinks == s.links <= MAX_LINK_COUNT
    ensures var s' := Advance(c, s, isLink, sends);
            && Sound(s')
            && (s'.pending != Idle ==>
                  LinksLeft(s') < LinksLeft(s) || (LinksLeft(s') == LinksLeft(s) && |s'.names| - s'.k < |s.names| - s.k))
  {
  }

  /** Every reply ends the lookup or brings it nearer to its end: fewer links to follow, or
      as many and fewer names. */
  lemma {:induction false} ReplySound(c: Config, s: State, a: Answer, sends: bool)
    requires Sound(s) && s.pending != Idle
    ensures var s' := OnReply(c, s, a, sends);
            && Sound(s')
            && (s'.pending != Idle ==>
                  LinksLeft(s') < LinksLeft(s) || (LinksLeft(s') == LinksLeft(s) && |s'.names| - s'.k < |s.names| - s.k))
  {
    if a.Found? && s.pending != AskReadlink {
      AdvanceSound(c, s.(pending := Idle), a.link, sends);
    } else if a.Target? && s.pending == AskReadlink && Follow(c, s, a.text).At? {
      AdvanceSound(c, s.(names := Follow(c, s, a.text).stack, k := 0, pending := Idle), false, sends);
    }
  }

  /** A server and a transport: what they answer to the n-th call, and whether the next
      call can be sent. */
  ghost function Complete(c: Config, s: State, server: nat -> (Answer, bool), n: nat): (r: State)
    requires Sound(s)
    ensures Sound(r) && r.pending == Idle
    decreases if s.pending == Idle then 0 else 1, LinksLeft(s), |s.names| - s.k
  {
    if s.pending == Idle then s else
    ReplySound(c, s, server(n).0, server(n).1);
    Complete(c, OnReply(c, s, server(n).0, server(n).1), server, n + 1)
  }

  /** Whatever the server answers, a started lookup ends, after at most 40 READLINK calls,
      having run exactly one callback. */
  lemma {:induction false} EveryLookupEndsOnce(c: Config, names: seq<string>, empty: bool, sends: bool,
                                               server: nat -> (Answer, bool))
    ensures Sound(Start(c, names, empty, sends))
    ensures var r := Complete(c, Start(c, names, empty, sends), server, 0);
            r.pending == Idle && |r.ended| == 1 && r.readlinks <= MAX_LINK_COUNT
  {
    AdvanceSound(c, State(names, 0, 0, 0, Idle, []), false, sends);
  }

  lemma {:induction false} NotForMemory(c: Config, s: State, a: Answer)
    requires Sound(s) && s.pending != Idle
    ensures OnReply(c, s, a, true).ended != [NoMemory]
  {
    var ended := OnReply(c, s, a, true).ended;
    assert ended == [] || ended[0] != NoMemory;
  }

  /** A lookup that waits for a reply ends for lack of memory only when something could not be
      had later on. */
  lemma {:induction false} NoMemoryHasACause(c: Config, s: State, server: nat -> (Answer, bool), n: nat)
    requires Sound(s) && s.pending != Idle && Complete(c, s, server, n).ended == [NoMemory]
    ensures exists m :: n <= m && !server(m).1
    decreases LinksLeft(s), |s.names| - s.k
  {
    var s' := OnReply(c, s, server(n).0, server(n).1);
    ReplySound(c, s, server(n).0, server(n).1);
    if server(n).1 {
      NotForMemory(c, s, server(n).0);
      NoMemoryHasACause(c, s', server, n + 1);
    }
  }

  /** And it does so at the first reply after which something cannot be had, unless the reply
      ends it anyway. */
  lemma {:induction false} NothingToBeHad(c: Config, s: State, link: bool)
    requires Sound(s) && (s.pending == AskAttr || s.pending == AskLookup)
    ensures OnReply(c, s, Found(link), false).ended ==
            if link && (c.openNoFollow || ((!c.noFollow || s.k < |s.names|) && s.links == 40)) then [Loop] else [NoMemory]
  {
  }
}
