/** Lookups against a tree of files, directories and symbolic links: when a lookup ends at
    the object that the path names. */
module LookupTree {
  import opened Bytes
  import opened Paths
  import opened Lookup

  datatype Object = File(id: nat) | Link(target: string) | Dir(entries: map<string, Object>)

  /** The object that names lead to, with no link followed on the way. */
  function Get(o: Object, names: seq<string>): Option<Object>
    decreases |names|
  {
    if names == [] then Some(o)
    else if o.Dir? && names[0] in o.entries then Get(o.entries[names[0]], names[1..])
    else None
  }

  predicate Absolute(target: string) {
    target != "" && target[0] == '/'
  }

  /** Where a link in a directory leads: an absolute target inside the export counts from its
      root, a relative one from the directory. */
  function Whither(c: Config, dir: seq<string>, target: string): Walk {
    if Absolute(target) then
      if !(c.exportDir <= target) then Fail
      else if target == c.exportDir then At([])
      else Resolve(target[|c.exportDir|..])
    else
      VisitAll(At(dir), Split(target))
  }

  /** What is at the end of a path: its last name, after every link has been replaced by
      where it leads. */
  datatype Place = Reached(names: seq<string>) | Missing | Looping | Outside

  /** A link that is the last name may be asked not to be followed, or not to be there. */
  function Find(c: Config, root: Object, names: seq<string>, k: nat, links: nat): Place
    requires k <= |names| && links <= MAX_LINK_COUNT
    decreases MAX_LINK_COUNT - links, |names| - k
  {
    if k == |names| then Reached(names) else
    match Get(root, names[..k + 1])
    case None => Missing
    case Some(o) =>
      if o.Link? && k + 1 == |names| && c.openNoFollow then Looping
      else if o.Link? && !(k + 1 == |names| && c.noFollow) then
        if links == MAX_LINK_COUNT then Looping else
        match Whither(c, names[..k], o.target)
        case Fail => Outside
        case At(dir) => Find(c, root, dir + names[k + 1..], 0, links + 1)
      else Find(c, root, names, k + 1, links)
  }

  /** The links that are met before the last name are relative, and links are not refused. */
  predicate Plain(c: Config, root: Object, names: seq<string>, k: nat, links: nat)
    requires k <= |names| && links <= MAX_LINK_COUNT
    decreases MAX_LINK_COUNT - links, |names| - k
  {
    if k == |names| then true else
    match Get(root, names[..k + 1])
    case None => true
    case Some(o) =>
      if o.Link? && k + 1 < |names| && (Absolute(o.target) || c.openNoFollow) then false
      else if o.Link? && k + 1 == |names| && c.openNoFollow then true
      else if o.Link? && !(k + 1 == |names| && c.noFollow) then
        links == MAX_LINK_COUNT ||
        match Whither(c, names[..k], o.target)
        case Fail => true
        case At(dir) => Plain(c, root, dir + names[k + 1..], 0, links + 1)
      else Plain(c, root, names, k + 1, links)
  }

  // One link

  /** The link replaced by where it leads, with the rest of the path behind it. */
  function Replaced(w: Walk, rest: seq<string>): Walk {
    match w
    case Fail => Fail
    case At(dir) => At(dir + rest)
  }

  lemma {:induction false} RelativeLink(c: Config, s: State, target: string)
    requires Names(s.names) && 0 < s.k <= |s.names| && !Absolute(target)
    ensures Follow(c, s, target) == Replaced(Whither(c, s.names[..s.k - 1], target), s.names[s.k..])
  {
    var dir, rest := s.names[..s.k], s.names[s.k..];
    VisitAppend(At(dir), [".."] + Split(target), rest);
    VisitAppend(At(dir), [".."], Split(target));
    assert dir[..|dir| - 1] == s.names[..s.k - 1];
    assert VisitAll(At(dir), [".."]) == At(s.names[..s.k - 1]);
    match Whither(c, s.names[..s.k - 1], target)
    case Fail => VisitFail(rest);
    case At(stack) => VisitNames(stack, rest);
  }

  /** A link is replaced by where it leads exactly when it is relative, or the last name, or
      leads nowhere: after an absolute link the rest of the path is lost. */
  lemma {:induction false} FollowReplaces(c: Config, s: State, target: string)
    requires Names(s.names) && 0 < s.k <= |s.names|
    ensures var w := Whither(c, s.names[..s.k - 1], target);
            Follow(c, s, target) == Replaced(w, s.names[s.k..]) <==> !Absolute(target) || s.k == |s.names| || w.Fail?
  {
    var w, rest := Whither(c, s.names[..s.k - 1], target), s.names[s.k..];
    if !Absolute(target) {
      RelativeLink(c, s, target);
    } else {
      assert Follow(c, s, target) == w;
      if w.At? {
        assert |w.stack + rest| == |w.stack| + |rest|;
        assert rest == [] ==> w.stack + rest == w.stack;
      }
    }
  }

  lemma {:induction false} WhitherNames(c: Config, dir: seq<string>, target: string)
    requires Names(dir)
    ensures var w := Whither(c, dir, target); w.At? ==> Names(w.stack)
  {
    if Absolute(target) {
      if c.exportDir <= target {
        var rest := target[|c.exportDir|..];
        SplitSlashFree(rest);
        VisitKeepsNames(At([]), Split(rest));
      }
    } else {
      SplitSlashFree(target);
      VisitKeepsNames(At(dir), Split(target));
    }
  }

  // The whole lookup

  /** What a server with this tree answers. */
  function Honest(root: Object, s: State): Answer
    requires s.k <= |s.names|
  {
    match s.pending
    case Idle => Failed
    case AskAttr => Found(root.Link?)
    case AskLookup =>
      (match Get(root, s.names[..s.k]) case None => Failed case Some(o) => Found(o.Link?))
    case AskReadlink =>
      (match Get(root, s.names[..s.k]) case Some(Link(text)) => Target(text) case _ => Failed)
  }

  /** The lookup run to its end with such a server. */
  ghost function Settled(c: Config, root: Object, s: State): (r: State)
    requires Sound(s)
    ensures Sound(r) && r.pending == Idle
    decreases if s.pending == Idle then 0 else 1, LinksLeft(s), |s.names| - s.k
  {
    if s.pending == Idle then s else
    ReplySound(c, s, Honest(root, s), true);
    Settled(c, root, OnReply(c, s, Honest(root, s), true))
  }

  ghost predicate EndsAt(r: State, p: Place) {
    match p
    case Reached(names) => r.ended == [Continued] && r.names == names
    case Missing => r.ended == [ServerError]
    case Looping => r.ended == [Loop]
    case Outside => r.ended == [NoEntry]
  }

  /** The READLINK call of a link that is followed. */
  lemma {:induction false} LinkIsReplaced(c: Config, root: Object, s: State, target: string) returns (s': State)
    requires Sound(s) && s.pending == AskReadlink && Names(s.names) && 0 < s.k <= |s.names|
    requires Get(root, s.names[..s.k]) == Some(Link(target)) && (!Absolute(target) || s.k == |s.names|)
    ensures Sound(s') && Settled(c, root, s) == Settled(c, root, s')
    ensures var w := Whither(c, s.names[..s.k - 1], target);
            if w.Fail? then s' == End(s, NoEntry)
            else
              var names := w.stack + s.names[s.k..];
              Names(names) && s' == Advance(c, s.(names := names, k := 0, pending := Idle), false, true)
  {
    FollowReplaces(c, s, target);
    WhitherNames(c, s.names[..s.k - 1], target);
    ReplySound(c, s, Target(target), true);
    s' := OnReply(c, s, Target(target), true);
  }

  /** One LOOKUP reply. */
  lemma {:induction false} NameIsLooked(c: Config, root: Object, s: State) returns (s': State)
    requires Sound(s) && s.pending == AskLookup && 0 < s.k
    ensures s' == OnReply(c, s, Honest(root, s), true) && Sound(s') && Settled(c, root, s) == Settled(c, root, s')
    ensures match Get(root, s.names[..s.k])
            case None => s' == End(s, ServerError)
            case Some(o) => s' == Advance(c, s.(pending := Idle), o.Link?, true)
  {
    ReplySound(c, s, Honest(root, s), true);
    s' := OnReply(c, s, Honest(root, s), true);
  }

  /** The place behind a link. */
  function Behind(c: Config, root: Object, w: Walk, rest: seq<string>, links: nat): Place
    requires links <= MAX_LINK_COUNT
  {
    match w
    case Fail => Outside
    case At(dir) => Find(c, root, dir + rest, 0, links)
  }

  lemma {:induction false} LinkOf(c: Config, root: Object, s: State, target: string)
    requires Sound(s) && s.pending == AskReadlink && Names(s.names) && 0 < s.k <= |s.names|
    requires Get(root, s.names[..s.k]) == Some(Link(target)) && (!Absolute(target) || s.k == |s.names|)
    requires var w := Whither(c, s.names[..s.k - 1], target);
             w.At? ==> Plain(c, root, w.stack + s.names[s.k..], 0, s.links)
    ensures var w := Whither(c, s.names[..s.k - 1], target);
            EndsAt(Settled(c, root, s), Behind(c, root, w, s.names[s.k..], s.links))
    decreases MAX_LINK_COUNT - s.links, 1, 0
  {
    var s' := LinkIsReplaced(c, root, s, target);
    if s'.pending == AskLookup {
      LookupOf(c, root, s');
    }
  }

  /** A link that is to be followed, as name k - 1. */
  predicate Followed(c: Config, o: Object, names: seq<string>, k: nat) {
    o.Link? && !(k == |names| && (c.openNoFollow || c.noFollow))
  }

  /** What is found, by the object at name k - 1. */
  lemma {:induction false} FindBy(c: Config, root: Object, names: seq<string>, k: nat, links: nat)
    requires 0 < k <= |names| && links <= MAX_LINK_COUNT && Plain(c, root, names, k - 1, links)
    ensures var p := Find(c, root, names, k - 1, links);
            match Get(root, names[..k])
            case None => p == Missing
            case Some(o) =>
              if Followed(c, o, names, k) then
                var w := Whither(c, names[..k - 1], o.target);
                && (k < |names| ==> !Absolute(o.target) && !c.openNoFollow)
                && (links == MAX_LINK_COUNT ==> p == Looping)
                && (links < MAX_LINK_COUNT ==>
                      p == Behind(c, root, w, names[k..], links + 1) &&
                      (w.At? ==> Plain(c, root, w.stack + names[k..], 0, links + 1)))
              else if o.Link? && c.openNoFollow then p == Looping
              else p == Find(c, root, names, k, links) && Plain(c, root, names, k, links)
  {
    assert names[..k - 1 + 1] == names[..k] && names[k - 1 + 1..] == names[k..];
  }

  /** A reply that ends the lookup ends it where it should. */
  lemma {:induction false} EndsHere(c: Config, root: Object, s: State)
    requires Sound(s) && s.pending == AskLookup && 0 < s.k && Plain(c, root, s.names, s.k - 1, s.links)
    requires OnReply(c, s, Honest(root, s), true).pending == Idle
    ensures EndsAt(Settled(c, root, s), Find(c, root, s.names, s.k - 1, s.links))
  {
    FindBy(c, root, s.names, s.k, s.links);
    ReplySound(c, s, Honest(root, s), true);
  }

  lemma {:induction false} LookupOf(c: Config, root: Object, s: State)
    requires Sound(s) && s.pending == AskLookup && Names(s.names) && 0 < s.k
    requires Plain(c, root, s.names, s.k - 1, s.links)
    ensures EndsAt(Settled(c, root, s), Find(c, root, s.names, s.k - 1, s.links))
    decreases MAX_LINK_COUNT - s.links, 0, |s.names| - s.k
  {
    var s1 := NameIsLooked(c, root, s);
    if s1.pending == Idle {
      EndsHere(c, root, s);
    } else {
      FindBy(c, root, s.names, s.k, s.links);
      var o := Get(root, s.names[..s.k]).value;
      if s1.pending == AskReadlink {
        LinkOf(c, root, s1, o.target);
      } else {
        LookupOf(c, root, s1);
      }
    }
  }

  /** What the lookup does with a link before the last name. */
  function Taken(c: Config, s: State, target: string): State
    requires s.k <= |s.names|
  {
    var s1 := OnReply(c, s, Found(true), true);
    if s1.pending == AskReadlink then OnReply(c, s1, Target(target), true) else s1
  }

  /** What it should do: go on with the path in which the link is replaced. */
  function Wanted(c: Config, s: State, target: string): State
    requires 0 < s.k <= |s.names|
  {
    var s1 := s.(links := s.links + 1, readlinks := s.readlinks + 1);
    match Replaced(Whither(c, s.names[..s.k - 1], target), s.names[s.k..])
    case Fail => End(s1, NoEntry)
    case At(names) => Advance(c, s1.(names := names, k := 0, pending := Idle), false, true)
  }

  /** A link before the last name is taken as it should be exactly when links are not refused
      and it is relative or leads nowhere. */
  lemma {:induction false} InnerLinkIsTaken(c: Config, s: State, target: string)
    requires Sound(s) && s.pending == AskLookup && Names(s.names) && 0 < s.k < |s.names| && s.links < MAX_LINK_COUNT
    ensures var w := Whither(c, s.names[..s.k - 1], target);
            Taken(c, s, target) == Wanted(c, s, target) <==> !c.openNoFollow && (!Absolute(target) || w.Fail?)
  {
    var s1 := OnReply(c, s, Found(true), true);
    if !c.openNoFollow {
      assert s1 == s.(links := s.links + 1, readlinks := s.readlinks + 1, pending := AskReadlink);
      FollowReplaces(c, s1, target);
    }
  }

  /** A lookup ends where the path leads, whatever links are on the way, when the ones before
      the last name are relative and links are not refused. */
  lemma {:induction false} LookupFinds(c: Config, root: Object, names: seq<string>, empty: bool)
    requires Names(names) && Plain(c, root, names, 0, 0) && (empty ==> names == [] && !root.Link?)
    ensures Sound(Start(c, names, empty, true))
    ensures EndsAt(Settled(c, root, Start(c, names, empty, true)), Find(c, root, names, 0, 0))
  {
    var s := Start(c, names, empty, true);
    AdvanceSound(c, State(names, 0, 0, 0, Idle, []), false, true);
    if empty {
      ReplySound(c, s, Found(false), true);
      assert Settled(c, root, s) == OnReply(c, s, Found(false), true);
    } else if names != [] {
      LookupOf(c, root, s);
    }
  }

  /** A tree with a link a to the exported directory d, and b in d. */
  function Shortcut(b: Object): Object {
    Dir(map["a" := Link("/e/d"), "d" := Dir(map["b" := b])])
  }

  lemma {:induction false} InShortcut(b: Object)
    ensures Get(Shortcut(b), ["a"]) == Some(Link("/e/d")) && Get(Shortcut(b), ["d"]) == Some(Dir(map["b" := b]))
    ensures Get(Shortcut(b), ["d", "b"]) == Some(b)
  {
    assert ["a"][1..] == [] && ["d"][1..] == [] && ["d", "b"][1..] == ["b"] && ["b"][1..] == [];
  }

  lemma {:induction false} ToD()
    ensures Resolve("/d") == At(["d"])
  {
    assert "/d" == "" + "/" + "d";
    SplitName("d");
    SplitSlash("", "d");
    assert Split("/d") == ["", "d"] && ["", "d"][1..] == ["d"];
    VisitNames([], ["d"]);
    assert [] + ["d"] == ["d"];
  }

  /** "a/b" leads to b in d, but its lookup ends at d. */
  lemma {:induction false} AbsoluteLinkLosesTheRest(b: Object)
    requires !b.Link?
    ensures var c, s := Config("/e", false, false), Start(Config("/e", false, false), ["a", "b"], false, true);
            && Find(c, Shortcut(b), ["a", "b"], 0, 0) == Reached(["d", "b"])
            && Sound(s) && EndsAt(Settled(c, Shortcut(b), s), Reached(["d"]))
  {
    var c, root, names := Config("/e", false, false), Shortcut(b), ["a", "b"];
    InShortcut(b);
    ToD();
    assert "/e/d"[2..] == "/d" && "/e" <= "/e/d" && "/e/d"[0] == '/';
    assert names[..1] == ["a"] && names[..0] == [] && names[1..] == ["b"] && ["d"] + ["b"] == ["d", "b"];
    assert ["d", "b"][..1] == ["d"] && ["d", "b"][..2] == ["d", "b"];
    assert Find(c, root, ["d", "b"], 0, 1) == Reached(["d", "b"]);
    var s1 := NameIsLooked(c, root, Start(c, names, false, true));
    ReplySound(c, s1, Target("/e/d"), true);
    var s2 := OnReply(c, s1, Target("/e/d"), true);
    assert Follow(c, s1, "/e/d") == At(["d"]);
    assert ["d"][..1] == ["d"];
    var s3 := NameIsLooked(c, root, s2);
  }

  /** A tree with a relative link a to the directory d, and b in d. */
  function Detour(b: Object): Object {
    Dir(map["a" := Link("d"), "d" := Dir(map["b" := b])])
  }

  /** "a/b" leads to b in d, but where links are refused its lookup fails at a, which is not
      the last name. */
  lemma {:induction false} InnerLinkIsRefused(b: Object)
    requires !b.Link?
    ensures var c, s := Config("/e", false, true), Start(Config("/e", false, true), ["a", "b"], false, true);
            && Find(c, Detour(b), ["a", "b"], 0, 0) == Reached(["d", "b"])
            && Sound(s) && EndsAt(Settled(c, Detour(b), s), Looping)
  {
    var c, root, names := Config("/e", false, true), Detour(b), ["a", "b"];
    assert Get(root, ["a"]) == Some(Link("d")) && Get(root, ["d"]) == Some(Dir(map["b" := b])) by {
      assert ["a"][1..] == [] && ["d"][1..] == [];
    }
    assert Get(root, ["d", "b"]) == Some(b) by {
      assert ["d", "b"][1..] == ["b"] && ["b"][1..] == [];
    }
    SplitName("d");
    VisitNames([], ["d"]);
    assert [] + ["d"] == ["d"] && Whither(c, [], "d") == At(["d"]);
    assert names[..1] == ["a"] && names[..0] == [] && names[1..] == ["b"] && ["d"] + ["b"] == ["d", "b"];
    assert ["d", "b"][..1] == ["d"] && ["d", "b"][..2] == ["d", "b"];
    assert Find(c, root, ["d", "b"], 0, 1) == Reached(["d", "b"]);
    var s1 := NameIsLooked(c, root, Start(c, names, false, true));
  }
}
