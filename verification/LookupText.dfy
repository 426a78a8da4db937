/** The lookup as the library runs it: one path text, a position in it, and rewriting of
    the text when a link is found. Every step is the step of `Lookup` on the names that the
    text spells. */
module LookupText {
  import opened Bytes
  import opened Paths
  import L = Lookup

  lemma {:induction false} CanonicalSplit(a: seq<string>, b: seq<string>)
    ensures Canonical(a + b) == Canonical(a) + Canonical(b)
  {
    if a == [] {
      assert a + b == b;
      assert "" + Canonical(b) == Canonical(b);
    } else {
      assert (a + b)[1..] == a[1..] + b;
      CanonicalSplit(a[1..], b);
      Assoc("/" + a[0], Canonical(a[1..]), Canonical(b));
    }
  }

  /** The text behind a slash. */
  lemma {:induction false} CanonicalTail(names: seq<string>)
    requires names != []
    ensures Canonical(names) == "/" + Join(names)
  {
    CanonicalJoin(names);
    assert ([""] + names)[1..] == names;
    assert "" + "/" == "/";
  }

  /** `saved` spells `names`; `path` stands before name k, with or without its slash. */
  ghost predicate Spells(saved: string, path: nat, names: seq<string>, k: nat) {
    && Names(names) && k <= |names|
    && (|| (saved == Canonical(names)
            && (path == |Canonical(names[..k])| || (k < |names| && path == |Canonical(names[..k])| + 1)))
        || (names == [] && saved == "/" && path <= 1))
  }

  lemma {:induction false} SpellsParts(saved: string, path: nat, names: seq<string>, k: nat)
    requires Spells(saved, path, names, k) && saved == Canonical(names)
    ensures saved == Canonical(names[..k]) + Canonical(names[k..]) && path <= |saved|
    ensures k < |names| ==> saved == Canonical(names[..k]) + "/" + Join(names[k..]) && |Canonical(names[..k])| < |saved|
  {
    assert names == names[..k] + names[k..];
    CanonicalSplit(names[..k], names[k..]);
    if k < |names| {
      CanonicalTail(names[k..]);
      Assoc(Canonical(names[..k]), "/", Join(names[k..]));
    } else {
      assert names[k..] == [];
    }
  }

  lemma {:induction false} FirstOfJoin(names: seq<string>)
    requires names != [] && Name(names[0])
    ensures Join(names) != "" && Join(names)[0] == names[0][0] != '/'
  {
  }

  lemma {:induction false} SlashHere(saved: string, p: nat, names: seq<string>, k: nat)
    requires Spells(saved, p, names, k) && p < |saved| && saved[p] == '/'
    ensures Spells(saved, p + 1, names, k)
  {
    if saved == Canonical(names) && names != [] {
      SpellsParts(saved, p, names, k);
      if k < |names| && p == |Canonical(names[..k])| + 1 {
        assert saved[p] == Join(names[k..])[0];
        FirstOfJoin(names[k..]);
      }
    }
  }

  lemma {:induction false} NoSlashHere(saved: string, p: nat, names: seq<string>, k: nat)
    requires Spells(saved, p, names, k) && p <= |saved| && (p < |saved| ==> saved[p] != '/')
    ensures if k < |names| then p == |Canonical(names[..k])| + 1 && saved[p..] == Join(names[k..]) else p == |saved|
  {
    if saved == Canonical(names) {
      SpellsParts(saved, p, names, k);
      var a := Canonical(names[..k]);
      if k < |names| {
        assert saved[|a|] == '/';
        assert saved[|a| + 1..] == Join(names[k..]);
      } else {
        assert names[..k] == names;
      }
    }
  }

  /** The loop that steps over slashes. */
  method SkipSlashes(saved: string, path: nat, ghost names: seq<string>, ghost k: nat) returns (p: nat)
    requires Spells(saved, path, names, k)
    ensures Spells(saved, p, names, k) && p <= |saved|
    ensures if k < |names| then p == |Canonical(names[..k])| + 1 && saved[p..] == Join(names[k..]) else p == |saved|
  {
    p := path;
    if saved == Canonical(names) {
      SpellsParts(saved, path, names, k);
    }
    while p < |saved| && saved[p] == '/'
      invariant Spells(saved, p, names, k) && path <= p <= |saved|
    {
      SlashHere(saved, p, names, k);
      p := p + 1;
    }
    NoSlashHere(saved, p, names, k);
  }

  /** strchr(path, '/'): where the component that starts at p ends. */
  method ComponentEnd(saved: string, p: nat) returns (e: nat)
    requires p <= |saved|
    ensures p <= e <= |saved| && (e < |saved| ==> saved[e] == '/')
    ensures forall j | p <= j < e :: saved[j] != '/'
  {
    e := p;
    while e < |saved| && saved[e] != '/'
      invariant p <= e <= |saved| && forall j | p <= j < e :: saved[j] != '/'
    {
      e := e + 1;
    }
  }

  lemma {:induction false} CanonicalNext(names: seq<string>, k: nat)
    requires k < |names|
    ensures |Canonical(names[..k + 1])| == |Canonical(names[..k])| + 1 + |names[k]|
  {
    assert names[..k + 1] == names[..k] + [names[k]];
    CanonicalAppend(names[..k], names[k]);
  }

  /** The first slash of a joined text ends its first name. */
  lemma {:induction false} FirstSlash(names: seq<string>, t: string, e: nat)
    requires names != [] && SlashFree(names[0]) && t == Join(names)
    requires e <= |t| && (e < |t| ==> t[e] == '/') && forall j | 0 <= j < e :: t[j] != '/'
    ensures e == |names[0]| && t[..e] == names[0] && (e < |t| <==> |names| > 1)
  {
    var name := names[0];
    if |names| > 1 {
      assert t == name + "/" + Join(names[1..]);
      assert t[|name|] == '/';
    }
    assert t[..|name|] == name;
    assert forall j | 0 <= j < |name| :: t[j] == t[..|name|][j] == name[j];
  }

  /** The component that starts at p is name k, and what follows it stands before k + 1. */
  lemma {:induction false} ComponentIs(saved: string, p: nat, names: seq<string>, k: nat, e: nat)
    requires Spells(saved, p, names, k) && k < |names| && p <= |saved|
    requires p == |Canonical(names[..k])| + 1 && saved[p..] == Join(names[k..])
    requires p <= e <= |saved| && (e < |saved| ==> saved[e] == '/') && forall j | p <= j < e :: saved[j] != '/'
    ensures saved[p..e] == names[k] && e > p
    ensures Spells(saved, if e < |saved| then e + 1 else e, names, k + 1)
  {
    var t := saved[p..];
    assert forall j | 0 <= j < |t| :: t[j] == saved[p + j];
    FirstSlash(names[k..], t, e - p);
    CanonicalNext(names, k);
    assert saved[p..e] == t[..e - p];
    if k + 1 == |names| {
      assert names[..k + 1] == names;
    }
  }

  /** The text a link puts in place of the path: what leads up to the link, "..", the
      target, and what was left. */
  function Spliced(saved: string, path: nat, target: string): string
    requires path <= |saved| && (path < |saved| ==> path > 0)
  {
    if path < |saved| then saved[..path - 1] + "/../" + target + "/" + saved[path..]
    else saved + "/../" + target
  }

  lemma {:induction false} SplitCanonical(names: seq<string>)
    requires Names(names)
    ensures Split(Canonical(names)) == [""] + names
  {
    CanonicalJoin(names);
    SplitJoin([""] + names);
  }

  lemma {:induction false} VisitUp(head: seq<string>, rest: seq<string>)
    requires Names(head)
    ensures VisitAll(At([]), [""] + head + rest) == VisitAll(At(head), rest)
  {
    VisitAppend(At([]), [""] + head, rest);
    assert ([""] + head)[1..] == head;
    VisitNames([], head);
    assert [] + head == head;
  }

  lemma {:induction false} SplitUp(head: string, target: string)
    ensures Split(head + "/../" + target) == Split(head) + ([".."] + Split(target))
  {
    assert head + "/../" + target == head + "/" + (".." + "/" + target);
    SplitSlash(head, ".." + "/" + target);
    SplitSlash("..", target);
    SplitName("..");
  }

  /** The text up to the end of a link's target. */
  lemma {:induction false} UpFrom(head: seq<string>, target: string)
    requires Names(head)
    ensures var t := Canonical(head) + "/../" + target;
            t[0] == '/' && Split(t) == [""] + head + ([".."] + Split(target))
  {
    SplitCanonical(head);
    SplitUp(Canonical(head), target);
    if head != [] {
      CanonicalTail(head);
    }
  }

  lemma {:induction false} LastLinkFollows(head: seq<string>, target: string)
    requires Names(head)
    ensures Resolve(Canonical(head) + "/../" + target) == VisitAll(At(head), [".."] + Split(target))
  {
    UpFrom(head, target);
    VisitUp(head, [".."] + Split(target));
  }

  lemma {:induction false} InnerLinkFollows(head: seq<string>, target: string, rest: seq<string>)
    requires Names(head) && Names(rest) && rest != []
    ensures Resolve(Canonical(head) + "/../" + target + "/" + Join(rest)) ==
            VisitAll(At(head), [".."] + Split(target) + rest)
  {
    var t, up := Canonical(head) + "/../" + target, [".."] + Split(target);
    UpFrom(head, target);
    SplitSlash(t, Join(rest));
    SplitJoin(rest);
    Assoc([""] + head, up, rest);
    VisitUp(head, up + rest);
  }

  lemma {:induction false} RootLinkFollows(target: string)
    ensures Resolve("/" + "/../" + target) == VisitAll(At([]), [".."] + Split(target))
  {
    var up := [".."] + Split(target);
    SplitUp("/", target);
    assert Split("/") == ["", ""];
    assert ["", ""] + up == [""] + [] + ([""] + up);
    VisitUp([], [""] + up);
    assert ([""] + up)[1..] == up;
  }

  /** The spliced text leads where the link leads. */
  lemma {:induction false} SplicedFollows(saved: string, p: nat, names: seq<string>, k: nat, target: string)
    requires Spells(saved, p, names, k) && p <= |saved|
    requires if k < |names| then p == |Canonical(names[..k])| + 1 && saved[p..] == Join(names[k..]) else p == |saved|
    ensures p < |saved| ==> p > 0
    ensures Resolve(Spliced(saved, p, target)) == VisitAll(At(names[..k]), [".."] + Split(target) + names[k..])
  {
    var head, up := names[..k], [".."] + Split(target);
    if k < |names| {
      SpellsParts(saved, p, names, k);
      FirstOfJoin(names[k..]);
      assert saved[..p - 1] == Canonical(head);
      InnerLinkFollows(head, target, names[k..]);
    } else {
      assert names[k..] == [] && head == names && up + names[k..] == up;
      if saved == Canonical(names) {
        LastLinkFollows(head, target);
      } else {
        RootLinkFollows(target);
      }
    }
  }

  lemma {:induction false} NormalSpells(text: string)
    requires Resolve(text).At?
    ensures Spells(Normal(text), 0, Resolve(text).stack, 0)
    ensures Normal(text) == "" ==> Resolve(text).stack == []
  {
    JoinSplit(text);
    VisitKeepsNames(At([]), Split(text));
    var names := Resolve(text).stack;
    assert names[..0] == [];
    if names != [] {
      CanonicalTail(names);
    }
  }

  /** struct nfs_cb_data, the part a lookup uses. */
  class PathLookup {
    const c: L.Config
    var savedPath: string
    var path: nat
    var linkCount: nat
    var readlinks: nat
    var pending: L.Pending
    var ended: seq<L.Outcome>
    ghost var names: seq<string>
    ghost var k: nat

    ghost predicate Valid()
      reads this
    {
      && Spells(savedPath, path, names, k)
      && (pending == L.AskReadlink ==> AtName())
    }

    ghost function View(): L.State
      reads this
    {
      L.State(names, k, linkCount, readlinks, pending, ended)
    }

    /** The path is `text`, which resolves; the text becomes its normal form. */
    constructor (c: L.Config, text: string)
      requires Resolve(text).At?
      ensures Valid() && View() == L.State(Resolve(text).stack, 0, 0, 0, L.Idle, []) && this.c == c
      ensures savedPath == Normal(text)
    {
      this.c, savedPath, path := c, Normal(text), 0;
      linkCount, readlinks, pending, ended := 0, 0, L.Idle, [];
      names, k := Resolve(text).stack, 0;
      NormalSpells(text);
    }

    method End(o: L.Outcome)
      requires Valid()
      modifies this
      ensures Valid() && View() == L.End(old(View()), o)
    {
      pending, ended := L.Idle, ended + [o];
    }

    /** Between SkipSlashes and the next call: the position is at name k itself. */
    ghost predicate AtName()
      reads this
    {
      && Spells(savedPath, path, names, k) && path <= |savedPath|
      && if k < |names| then path == |Canonical(names[..k])| + 1 && savedPath[path..] == Join(names[k..])
         else path == |savedPath|
    }

    /** A link that is to be followed. */
    method AskLink(sends: bool)
      requires AtName() && pending == L.Idle
      modifies this
      ensures Valid() && View() == (var s := old(View());
                                    var s1 := s.(links := s.links + 1);
                                    if s.links >= L.MAX_LINK_COUNT then L.End(s1, L.Loop)
                                    else if sends then s1.(pending := L.AskReadlink, readlinks := s.readlinks + 1)
                                    else L.End(s1, L.NoMemory))
    {
      linkCount := linkCount + 1;
      if linkCount - 1 >= L.MAX_LINK_COUNT {
        End(L.Loop);
      } else if sends {
        pending, readlinks := L.AskReadlink, readlinks + 1;
      } else {
        End(L.NoMemory);
      }
    }

    /** The next name, or the end of the path. */
    method AskName(sends: bool)
      requires AtName() && pending == L.Idle
      modifies this
      ensures Valid() && View() == (var s := old(View());
                                    if !sends then L.End(s, L.NoMemory)
                                    else if s.k == |s.names| then L.End(s, L.Continued)
                                    else s.(k := s.k + 1, pending := L.AskLookup))
    {
      NameLeft();
      if !sends {
        End(L.NoMemory);
      } else if path == |savedPath| {
        End(L.Continued);
      } else {
        var end := ComponentEnd(savedPath, path);
        ComponentIs(savedPath, path, names, k, end);
        path := if end < |savedPath| then end + 1 else end;
        k, pending := k + 1, L.AskLookup;
      }
    }

    lemma {:induction false} NameLeft()
      requires AtName()
      ensures path < |savedPath| <==> k < |names|
    {
      if k < |names| {
        FirstOfJoin(names[k..]);
      }
    }

    /** nfs3_lookup_path_async_internal */
    method Internal(isLink: bool, sends: bool)
      requires Valid() && pending == L.Idle
      modifies this
      ensures Valid() && View() == L.Advance(c, old(View()), isLink, sends)
    {
      path := SkipSlashes(savedPath, path, names, k);
      NameLeft();
      if isLink && c.openNoFollow {
        End(L.Loop);
      } else if isLink && (!c.noFollow || path < |savedPath|) {
        AskLink(sends);
      } else {
        AskName(sends);
      }
    }

    /** nfs3_lookup_path_1_cb and nfs3_lookup_path_getattr_cb */
    method OnLookup(a: L.Answer, sends: bool)
      requires Valid() && (pending == L.AskLookup || pending == L.AskAttr)
      modifies this
      ensures Valid() && View() == L.OnReply(c, old(View()), a, sends)
    {
      if !a.Found? {
        End(L.ServerError);
        return;
      }
      pending := L.Idle;
      Internal(a.link, sends);
    }

    /** The new text of nfs3_lookup_path_2_cb, or none when the link leads outside. */
    method NewText(target: string) returns (ok: bool, text: string)
      requires Valid() && pending == L.AskReadlink
      ensures ok ==> Resolve(text) == L.Follow(c, View(), target)
      ensures !ok ==> L.Follow(c, View(), target) == Fail
    {
      ok, text := true, "";
      if target != "" && target[0] == '/' {
        if c.exportDir <= target {
          text := target[|c.exportDir|..];
          if text == "" {
            text := "/";
            assert Split("/") == ["", ""];
          } else if text[0] != '/' {
            ok := false;
          }
        } else {
          ok := false;
        }
      } else {
        SplicedFollows(savedPath, path, names, k, target);
        text := Spliced(savedPath, path, target);
      }
    }

    /** Start again at the root, with a new text. */
    method Restart(text: string)
      requires Resolve(text).At?
      modifies this
      ensures Valid() && View() == old(View()).(names := Resolve(text).stack, k := 0, pending := L.Idle)
    {
      NormalSpells(text);
      savedPath, path, pending, names, k := Normal(text), 0, L.Idle, Resolve(text).stack, 0;
    }

    /** nfs3_lookup_path_2_cb */
    method OnReadlink(a: L.Answer, sends: bool)
      requires Valid() && pending == L.AskReadlink
      modifies this
      ensures Valid() && View() == L.OnReply(c, old(View()), a, sends)
    {
      if !a.Target? {
        End(L.ServerError);
        return;
      }
      var ok, text := NewText(a.text);
      if !ok || Resolve(text).Fail? {
        End(L.NoEntry);
        return;
      }
      Restart(text);
      Internal(false, sends);
    }

    /** Answer calls until none is outstanding. */
    method Run(server: nat -> (L.Answer, bool))
      requires Valid() && L.Sound(View())
      modifies this
      ensures Valid() && View() == L.Complete(c, old(View()), server, 0)
      ensures pending == L.Idle && |ended| == 1 && readlinks <= L.MAX_LINK_COUNT
    {
      var n := 0;
      while pending != L.Idle
        invariant Valid() && L.Sound(View())
        invariant L.Complete(c, View(), server, n) == L.Complete(c, old(View()), server, 0)
        decreases if pending == L.Idle then 0 else 1, L.LinksLeft(View()), |names| - k
      {
        var (a, sends) := server(n);
        L.ReplySound(c, View(), a, sends);
        if pending == L.AskReadlink {
          OnReadlink(a, sends);
        } else {
          OnLookup(a, sends);
        }
        n := n + 1;
      }
    }
  }

  /** nfs3_lookuppath_async without nested mounts: a lack of memory for the request or its
      path, a path that does not resolve, or an attribute call that cannot be sent is refused
      by the return value; otherwise the lookup has started. */
  method LookupPath(c: L.Config, cwd: string, given: string, memory: bool, sends: bool) returns (l: PathLookup?)
    ensures var p := if given == "" then "." else given;
            var text := if p[0] == '/' then p else cwd + "/" + p;
            && (l == null <==> !memory || Resolve(text).Fail? || (Normal(text) == "" && !sends))
            && (l != null ==> l.Valid() && l.c == c && L.Sound(l.View())
                              && l.View() == L.Start(c, Resolve(text).stack, Normal(text) == "", sends))
  {
    var p := if given == "" then "." else given;
    var text := if p[0] == '/' then p else cwd + "/" + p;
    l := null;
    if !memory {
      return;
    }
    if Resolve(text).At? {
      var names := Resolve(text).stack;
      L.AdvanceSound(c, L.State(names, 0, 0, 0, L.Idle, []), false, sends);
      if Normal(text) != "" {
        l := new PathLookup(c, text);
        l.Internal(false, sends);
      } else if sends {
        l := new PathLookup(c, text);
        l.pending := L.AskAttr;
      }
    }
  }
}
