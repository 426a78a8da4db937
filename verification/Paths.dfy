/** Paths as sequences of components: what a path means is a walk over its components that
    keeps a stack of directory names. */
module Paths {

  /** The components between slashes; "/a" has two, the first one empty. */
  function Split(s: string): (cs: seq<string>)
    ensures cs != []
  {
    if s == "" then [""]
    else if s[0] == '/' then [""] + Split(s[1..])
    else var cs := Split(s[1..]); [[s[0]] + cs[0]] + cs[1..]
  }

  function Join(cs: seq<string>): string
    requires cs != []
  {
    if |cs| == 1 then cs[0] else cs[0] + "/" + Join(cs[1..])
  }

  predicate SlashFree(c: string) {
    forall i | 0 <= i < |c| :: c[i] != '/'
  }

  predicate AllSlashFree(cs: seq<string>) {
    forall i | 0 <= i < |cs| :: SlashFree(cs[i])
  }

  lemma {:induction false} JoinCons(c: string, cs: seq<string>)
    requires cs != []
    ensures Join([c] + cs) == c + "/" + Join(cs)
  {
    assert ([c] + cs)[1..] == cs;
  }

  lemma {:induction false} JoinGrow(x: char, cs: seq<string>)
    requires cs != []
    ensures Join([[x] + cs[0]] + cs[1..]) == [x] + Join(cs)
  {
    if |cs| == 1 {
      assert cs[1..] == [];
    } else {
      JoinCons([x] + cs[0], cs[1..]);
      var a, b := cs[0], "/" + Join(cs[1..]);
      assert a + "/" + Join(cs[1..]) == a + b;
      assert [x] + a + "/" + Join(cs[1..]) == [x] + a + b == [x] + (a + b);
    }
  }

  lemma {:induction false} SplitSlashFree(s: string)
    ensures AllSlashFree(Split(s))
  {
    if s != "" {
      SplitSlashFree(s[1..]);
    }
  }

  lemma {:induction false} JoinSplit(s: string)
    ensures AllSlashFree(Split(s)) && Join(Split(s)) == s
  {
    SplitSlashFree(s);
    if s != "" {
      JoinSplit(s[1..]);
      assert s == [s[0]] + s[1..];
      if s[0] == '/' {
        JoinCons("", Split(s[1..]));
        assert "" + "/" == "/";
      } else {
        JoinGrow(s[0], Split(s[1..]));
      }
    }
  }

  lemma {:induction false} SplitName(c: string)
    requires SlashFree(c)
    ensures Split(c) == [c]
  {
    if c != "" {
      SplitName(c[1..]);
      assert [c[0]] + c[1..] == c;
    }
  }

  /** A slash always separates components. */
  lemma {:induction false} SplitSlash(a: string, b: string)
    ensures Split(a + "/" + b) == Split(a) + Split(b)
  {
    var s := a + "/" + b;
    if a == "" {
      assert s[1..] == b;
    } else {
      assert s[1..] == a[1..] + "/" + b;
      SplitSlash(a[1..], b);
    }
  }

  lemma {:induction false} SplitJoin(cs: seq<string>)
    requires cs != [] && AllSlashFree(cs)
    ensures Split(Join(cs)) == cs
  {
    SplitName(cs[0]);
    if |cs| > 1 {
      SplitJoin(cs[1..]);
      SplitSlash(cs[0], Join(cs[1..]));
      assert [cs[0]] + cs[1..] == cs;
    }
  }

  lemma {:induction false} JoinAppend(a: seq<string>, b: seq<string>)
    requires a != [] && b != []
    ensures Join(a + b) == Join(a) + "/" + Join(b)
  {
    if |a| == 1 {
      assert (a + b)[1..] == b;
    } else {
      assert (a + b)[1..] == a[1..] + b;
      JoinAppend(a[1..], b);
      var x, y, z := a[0] + "/", Join(a[1..]), "/" + Join(b);
      assert x + (y + z) == (x + y) + z;
      assert y + "/" + Join(b) == y + z;
      assert Join(a) + "/" + Join(b) == Join(a) + z;
    }
  }

  // ---------------------------------------------------------------- what a path means

  datatype Walk = Fail | At(stack: seq<string>)

  function Visit(w: Walk, c: string): Walk {
    match w
    case Fail => Fail
    case At(stack) =>
      if c == "" || c == "." then w
      else if c == ".." then (if stack == [] then Fail else At(stack[..|stack| - 1]))
      else At(stack + [c])
  }

  function VisitAll(w: Walk, cs: seq<string>): Walk
    decreases |cs|
  {
    if cs == [] then w else VisitAll(Visit(w, cs[0]), cs[1..])
  }

  /** Where an absolute path leads from the root; `Fail` for a relative path or one that
      climbs above the root. */
  function Resolve(s: string): Walk {
    if s == "" || s[0] != '/' then Fail else VisitAll(At([]), Split(s))
  }

  function Canonical(stack: seq<string>): string {
    if stack == [] then "" else "/" + stack[0] + Canonical(stack[1..])
  }

  /** The normal form: the canonical path of the stack; the root is "/" when the path ends
      in a slash and empty otherwise. */
  function Normal(s: string): string
    requires Resolve(s).At?
  {
    var stack := Resolve(s).stack;
    if stack == [] && s[|s| - 1] == '/' then "/" else Canonical(stack)
  }

  predicate Name(c: string) {
    SlashFree(c) && c != "" && c != "." && c != ".."
  }

  predicate Names(cs: seq<string>) {
    forall i | 0 <= i < |cs| :: Name(cs[i])
  }

  lemma {:induction false} VisitFail(cs: seq<string>)
    ensures VisitAll(Fail, cs) == Fail
    decreases |cs|
  {
    if cs != [] {
      VisitFail(cs[1..]);
    }
  }

  lemma {:induction false} VisitAppend(w: Walk, a: seq<string>, b: seq<string>)
    ensures VisitAll(w, a + b) == VisitAll(VisitAll(w, a), b)
    decreases |a|
  {
    if a == [] {
      assert a + b == b;
    } else {
      assert (a + b)[1..] == a[1..] + b;
      VisitAppend(Visit(w, a[0]), a[1..], b);
    }
  }

  lemma {:induction false} VisitNames(stack: seq<string>, cs: seq<string>)
    requires Names(cs)
    ensures VisitAll(At(stack), cs) == At(stack + cs)
    decreases |cs|
  {
    if cs == [] {
      assert stack + cs == stack;
    } else {
      VisitNames(stack + [cs[0]], cs[1..]);
      assert stack + [cs[0]] + cs[1..] == stack + cs;
    }
  }

  lemma {:induction false} VisitKeepsNames(w: Walk, cs: seq<string>)
    requires AllSlashFree(cs) && (w.At? ==> Names(w.stack))
    ensures VisitAll(w, cs).At? ==> Names(VisitAll(w, cs).stack)
    decreases |cs|
  {
    if cs != [] {
      VisitKeepsNames(Visit(w, cs[0]), cs[1..]);
    }
  }

  lemma {:induction false} CanonicalJoin(stack: seq<string>)
    ensures Canonical(stack) == Join([""] + stack)
  {
    if stack != [] {
      CanonicalJoin(stack[1..]);
      assert ([""] + stack)[1..] == stack;
      assert ([""] + stack[1..])[1..] == stack[1..];
      if |stack| > 1 {
        assert Canonical(stack[1..]) == "/" + Join(stack[1..]);
      }
    }
  }

  /** Normalising again changes nothing, unless the first result was the empty string. */
  lemma {:induction false} NormalIsFixed(s: string)
    requires Resolve(s).At? && Normal(s) != ""
    ensures Resolve(Normal(s)) == Resolve(s) && Normal(Normal(s)) == Normal(s)
  {
    var stack := Resolve(s).stack;
    var t := Normal(s);
    JoinSplit(s);
    VisitKeepsNames(At([]), Split(s));
    if stack == [] {
      assert Split("/") == ["", ""];
    } else {
      CanonicalJoin(stack);
      SplitJoin([""] + stack);
      assert t[0] == '/';
      VisitNames([], stack);
      assert VisitAll(At([]), [""] + stack) == VisitAll(At([]), stack) by {
        assert ([""] + stack)[1..] == stack;
      }
      assert [] + stack == stack;
    }
  }

  function Weight(cs: seq<string>): nat {
    if cs == [] then 0 else |cs[0]| + 1 + Weight(cs[1..])
  }

  lemma {:induction false} CanonicalAppend(stack: seq<string>, c: string)
    ensures |Canonical(stack + [c])| == |Canonical(stack)| + |c| + 1
  {
    if stack == [] {
      assert ([] + [c])[1..] == [];
    } else {
      assert (stack + [c])[1..] == stack[1..] + [c];
      CanonicalAppend(stack[1..], c);
    }
  }

  lemma {:induction false} VisitWeight(w: Walk, cs: seq<string>)
    requires VisitAll(w, cs).At?
    ensures w.At? && |Canonical(VisitAll(w, cs).stack)| <= |Canonical(w.stack)| + Weight(cs)
    decreases |cs|
  {
    if cs != [] {
      VisitWeight(Visit(w, cs[0]), cs[1..]);
      if cs[0] != "" && cs[0] != "." && cs[0] != ".." {
        CanonicalAppend(w.stack, cs[0]);
      } else if cs[0] == ".." {
        CanonicalAppend(w.stack[..|w.stack| - 1], w.stack[|w.stack| - 1]);
        assert w.stack[..|w.stack| - 1] + [w.stack[|w.stack| - 1]] == w.stack;
      }
    }
  }

  lemma {:induction false} SplitWeight(s: string)
    ensures Weight(Split(s)) == |s| + 1
  {
    if s != "" {
      SplitWeight(s[1..]);
      assert Split(s)[1..] == if s[0] == '/' then Split(s[1..]) else Split(s[1..])[1..];
    }
  }

  /** The normal form is never longer than the path. */
  lemma {:induction false} NormalIsNoLonger(s: string)
    requires Resolve(s).At?
    ensures |Normal(s)| <= |s|
  {
    var cs := Split(s);
    SplitWeight(s);
    VisitWeight(At([]), cs[1..]);
    assert cs[0] == "";
  }
}
