/** nfs_normalize_path: one NUL-terminated buffer, rewritten in place until it holds the
    normal form of the path it held. */
module PathNormalize {
  import opened Bytes
  import opened Paths

  ghost predicate Holds(buf: array<char>, s: string)
    reads buf
  {
    && |s| < buf.Length && buf[..|s|] == s && buf[|s|] == '\0'
    && forall i | 0 <= i < |s| :: s[i] != '\0'
  }

  predicate OccursAt(s: string, pat: string, k: nat) {
    k + |pat| <= |s| && s[k..k + |pat|] == pat
  }

  /** strncmp(&buf[k], pat, |pat|) == 0 */
  method MatchesAt(buf: array<char>, ghost s: string, k: nat, pat: string) returns (b: bool)
    requires Holds(buf, s) && k <= |s| && forall i | 0 <= i < |pat| :: pat[i] != '\0'
    ensures b == OccursAt(s, pat, k)
  {
    var i := 0;
    while i < |pat| && buf[k + i] == pat[i]
      invariant 0 <= i <= |pat| && k + i <= |s| && forall j | 0 <= j < i :: s[k + j] == pat[j]
    {
      i := i + 1;
    }
    b := i == |pat|;
    if b {
      assert s[k..k + |pat|] == pat;
    } else if k + |pat| <= |s| {
      assert s[k..k + |pat|][i] == buf[k + i] != pat[i];
    }
  }

  /** strstr: the first occurrence, or -1. */
  method StrStr(buf: array<char>, ghost s: string, pat: string) returns (k: int)
    requires Holds(buf, s) && pat != "" && forall i | 0 <= i < |pat| :: pat[i] != '\0'
    ensures k >= 0 ==> OccursAt(s, pat, k) && forall j | 0 <= j < k :: !OccursAt(s, pat, j)
    ensures k < 0 ==> forall j: nat :: !OccursAt(s, pat, j)
  {
    k := 0;
    while buf[k] != '\0'
      invariant 0 <= k <= |s| && forall j | 0 <= j < k :: !OccursAt(s, pat, j)
      decreases |s| - k
    {
      var b := MatchesAt(buf, s, k, pat);
      if b {
        return;
      }
      k := k + 1;
    }
    k := -1;
  }

  /** The shifting loops of the first two rules: drop d characters at `at`. */
  method Shift(buf: array<char>, ghost s: string, at: nat, d: nat)
    requires Holds(buf, s) && d > 0 && at + d <= |s|
    modifies buf
    ensures Holds(buf, s[..at] + s[at + d..])
  {
    var str := at;
    while buf[str + d - 1] != '\0'
      invariant at <= str <= |s| - d + 1
      invariant forall j | 0 <= j < at :: buf[j] == s[j]
      invariant forall j | at <= j < str && j + d < |s| :: buf[j] == s[j + d]
      invariant str == |s| - d + 1 ==> buf[|s| - d] == '\0'
      invariant forall j | str <= j <= |s| :: buf[j] == old(buf[j])
      decreases |s| - str
    {
      buf[str] := buf[str + d];
      str := str + 1;
    }
    assert buf[..|s| - d] == s[..at] + s[at + d..];
  }

  /** The copying loop of the third rule: what starts at `from` moves down to `to`. */
  method CopyDown(buf: array<char>, ghost s: string, to: nat, from: nat)
    requires Holds(buf, s) && to < from <= |s|
    modifies buf
    ensures Holds(buf, s[..to] + s[from..])
  {
    var tmp, str := to, from;
    buf[tmp] := buf[str];
    while buf[tmp] != '\0'
      invariant to <= tmp && str == tmp + (from - to) <= |s|
      invariant forall j | 0 <= j < to :: buf[j] == s[j]
      invariant forall j | to <= j < tmp :: buf[j] == s[j + (from - to)]
      invariant buf[tmp] == old(buf[str])
      invariant forall j | tmp < j <= |s| :: buf[j] == old(buf[j])
      decreases |s| - str
    {
      tmp, str := tmp + 1, str + 1;
      buf[tmp] := buf[str];
    }
    assert buf[..tmp] == s[..to] + s[from..];
  }

  /** Walk back from `start` to the nearest slash. */
  method SlashBefore(buf: array<char>, ghost s: string, start: nat, ghost slash: nat) returns (t: nat)
    requires Holds(buf, s) && slash <= start < |s| && s[slash] == '/'
    requires forall j | slash < j <= start :: s[j] != '/'
    ensures t == slash
  {
    t := start;
    while buf[t] != '/'
      invariant slash <= t <= start
      decreases t
    {
      t := t - 1;
    }
  }

  // ---------------------------------------------------------------- components

  /** The components between the first and the last. */
  function Inner(cs: seq<string>): seq<string> {
    if |cs| <= 2 then [] else cs[1..|cs| - 1]
  }

  ghost predicate Text(buf: array<char>, cs: seq<string>)
    reads buf
  {
    cs != [] && AllSlashFree(cs) && Holds(buf, Join(cs))
  }

  /** `cs` means what `cs0` means, and starts and ends as it does. */
  ghost predicate Same(cs: seq<string>, cs0: seq<string>) {
    && cs != [] && cs0 != []
    && (|cs| == 1 <==> |cs0| == 1)
    && cs[0] == cs0[0] && cs[|cs| - 1] == cs0[|cs0| - 1]
    && VisitAll(At([]), cs) == VisitAll(At([]), cs0)
  }

  lemma {:induction false} SplitAround(p: string, name: string, q: string)
    requires SlashFree(name)
    ensures Split(p + ("/" + name + "/") + q) == Split(p) + ([name] + Split(q))
  {
    assert p + ("/" + name + "/") + q == p + "/" + (name + "/" + q);
    SplitSlash(p, name + "/" + q);
    SplitSlash(name, q);
    SplitName(name);
  }

  lemma {:induction false} Around(s: string, name: string, k: nat)
    requires OccursAt(s, "/" + name + "/", k)
    ensures k + |name| + 2 <= |s|
    ensures s == s[..k] + ("/" + name + "/") + s[k + |name| + 2..]
    ensures s[k + 1 + |name|..] == "/" + s[k + |name| + 2..]
  {
    var pat := "/" + name + "/";
    assert pat[1 + |name|] == '/' && s[k..k + |pat|][1 + |name|] == s[k + 1 + |name|];
  }

  lemma {:induction false} SplitAt(cs: seq<string>, a: seq<string>, name: string, b: seq<string>)
    requires cs == a + ([name] + b)
    ensures |cs| == |a| + 1 + |b| && cs[..|a|] == a && cs[|a|] == name && cs[|a| + 1..] == b
  {
  }

  /** An occurrence of "/name/" is an inner component. */
  lemma {:induction false} OccurrenceIsInner(cs: seq<string>, name: string, k: nat) returns (i: nat)
    requires cs != [] && AllSlashFree(cs) && SlashFree(name) && OccursAt(Join(cs), "/" + name + "/", k)
    ensures 0 < i < |cs| - 1 && cs[i] == name && Join(cs[..i]) == Join(cs)[..k]
    ensures Join(cs)[k + 1 + |name|..] == "/" + Join(cs[i + 1..])
  {
    var s := Join(cs);
    Around(s, name, k);
    var p, q := s[..k], s[k + |name| + 2..];
    SplitAround(p, name, q);
    SplitJoin(cs);
    JoinSplit(p);
    JoinSplit(q);
    i := |Split(p)|;
    SplitAt(cs, Split(p), name, Split(q));
  }

  /** An inner component is an occurrence of "/name/". */
  lemma {:induction false} InnerIsOccurrence(cs: seq<string>, i: nat)
    requires 0 < i < |cs| - 1
    ensures OccursAt(Join(cs), "/" + cs[i] + "/", |Join(cs[..i])|)
  {
    var s, p := Join(cs), Join(cs[..i]);
    JoinAppend(cs[..i], cs[i..]);
    assert cs == cs[..i] + cs[i..];
    assert cs[i..][1..] == cs[i + 1..];
    var pat, q := "/" + cs[i] + "/", Join(cs[i + 1..]);
    assert s == p + "/" + (cs[i] + "/" + q) == p + pat + q;
    assert s[|p|..|p| + |pat|] == pat;
  }

  lemma {:induction false} NoOccurrence(cs: seq<string>, name: string)
    requires cs != [] && forall j: nat :: !OccursAt(Join(cs), "/" + name + "/", j)
    ensures name !in Inner(cs)
  {
    if name in Inner(cs) {
      var i :| 0 <= i < |Inner(cs)| && Inner(cs)[i] == name;
      InnerIsOccurrence(cs, i + 1);
    }
  }

  // ---------------------------------------------------------------- the rules

  function Drop(cs: seq<string>, i: nat, n: nat): seq<string>
    requires i + n <= |cs|
  {
    cs[..i] + cs[i + n..]
  }

  lemma {:induction false} InnerDrop(cs: seq<string>, i: nat, n: nat)
    requires 0 < i && i + n < |cs|
    ensures forall x | x in Inner(Drop(cs, i, n)) :: x in Inner(cs)
  {
    var ds := Drop(cs, i, n);
    forall x | x in Inner(ds) ensures x in Inner(cs) {
      var j :| 0 <= j < |Inner(ds)| && Inner(ds)[j] == x;
      assert ds[j + 1] == x;
      var m := if j + 1 < i then j + 1 else j + 1 + n;
      assert cs[m] == x;
      assert Inner(cs)[m - 1] == x;
    }
  }

  /** Dropping an inner "" or "." changes nothing. */
  lemma {:induction false} DropQuiet(cs: seq<string>, i: nat)
    requires 0 < i < |cs| - 1 && AllSlashFree(cs) && (cs[i] == "" || cs[i] == ".")
    ensures Same(Drop(cs, i, 1), cs) && AllSlashFree(Drop(cs, i, 1))
    ensures forall x | x in Inner(Drop(cs, i, 1)) :: x in Inner(cs)
  {
    var w := VisitAll(At([]), cs[..i]);
    VisitAppend(At([]), cs[..i], cs[i..]);
    VisitAppend(At([]), cs[..i], cs[i + 1..]);
    assert cs == cs[..i] + cs[i..] && cs[i..][1..] == cs[i + 1..];
    InnerDrop(cs, i, 1);
  }

  lemma {:induction false} VisitPair(w: Walk, name: string, cs: seq<string>)
    requires Name(name)
    ensures VisitAll(w, [name, ".."] + cs) == VisitAll(w, cs)
  {
    var pair := [name, ".."];
    VisitAppend(w, pair, cs);
    assert pair[1..] == [".."] && [".."][1..] == [];
    assert VisitAll(Visit(w, name), [".."]) == Visit(Visit(w, name), "..");
    if w.At? {
      assert (w.stack + [name])[..|w.stack|] == w.stack;
    }
  }

  lemma {:induction false} VisitWithoutPair(w: Walk, a: seq<string>, name: string, b: seq<string>)
    requires Name(name)
    ensures VisitAll(w, a + ([name, ".."] + b)) == VisitAll(w, a + b)
  {
    VisitAppend(w, a, [name, ".."] + b);
    VisitAppend(w, a, b);
    VisitPair(VisitAll(w, a), name, b);
  }

  /** Dropping a name and the ".." behind it changes nothing. */
  lemma {:induction false} DropParent(cs: seq<string>, i: nat)
    requires 1 < i < |cs| - 1 && AllSlashFree(cs) && Name(cs[i - 1]) && cs[i] == ".."
    ensures Same(Drop(cs, i - 1, 2), cs) && AllSlashFree(Drop(cs, i - 1, 2))
    ensures forall x | x in Inner(Drop(cs, i - 1, 2)) :: x in Inner(cs)
  {
    var a, b := cs[..i - 1], cs[i + 1..];
    assert cs == a + ([cs[i - 1], ".."] + b);
    VisitWithoutPair(At([]), a, cs[i - 1], b);
    InnerDrop(cs, i - 1, 2);
  }

  lemma {:induction false} JoinDrop(cs: seq<string>, i: nat, n: nat)
    requires 0 < i && i + n < |cs|
    ensures Join(Drop(cs, i, n)) == Join(cs[..i]) + "/" + Join(cs[i + n..])
  {
    JoinAppend(cs[..i], cs[i + n..]);
  }

  lemma {:induction false} JoinLast(cs: seq<string>)
    requires |cs| >= 2
    ensures Join(cs) == Join(cs[..|cs| - 1]) + "/" + cs[|cs| - 1]
  {
    JoinAppend(cs[..|cs| - 1], [cs[|cs| - 1]]);
    assert cs == cs[..|cs| - 1] + [cs[|cs| - 1]];
  }

  /** What the rules "//" and "/./" leave of the components. */
  lemma {:induction false} QuietAt(cs: seq<string>, c: string, k: nat) returns (cs': seq<string>)
    requires cs != [] && AllSlashFree(cs) && (c == "" || c == ".") && OccursAt(Join(cs), "/" + c + "/", k)
    ensures Same(cs', cs) && |cs'| < |cs| && AllSlashFree(cs')
    ensures forall x | x in Inner(cs') :: x in Inner(cs)
    ensures Join(cs') == Join(cs)[..k] + Join(cs)[k + (|c| + 1)..]
  {
    var i := OccurrenceIsInner(cs, c, k);
    cs' := Drop(cs, i, 1);
    DropQuiet(cs, i);
    JoinDrop(cs, i, 1);
    assert Join(cs)[k + 1 + |c|..] == "/" + Join(cs[i + 1..]);
    Assoc(Join(cs[..i]), "/", Join(cs[i + 1..]));
  }

  method DropOne(buf: array<char>, ghost cs: seq<string>, c: string, k: nat) returns (ghost cs': seq<string>)
    requires Text(buf, cs) && (c == "" || c == ".") && OccursAt(Join(cs), "/" + c + "/", k)
    modifies buf
    ensures Text(buf, cs') && Same(cs', cs) && |cs'| < |cs|
    ensures forall x | x in Inner(cs') :: x in Inner(cs)
  {
    cs' := QuietAt(cs, c, k);
    Shift(buf, Join(cs), k, |c| + 1);
  }

  /** The loops "// -> /" (c is "") and "/./ -> /" (c is "."). */
  method DropEach(buf: array<char>, ghost cs0: seq<string>, c: string) returns (ghost cs: seq<string>)
    requires Text(buf, cs0) && (c == "" || c == ".")
    modifies buf
    ensures Text(buf, cs) && Same(cs, cs0)
    ensures c !in Inner(cs) && forall x | x in Inner(cs) :: x in Inner(cs0)
  {
    cs := cs0;
    var pat := "/" + c + "/";
    var k := StrStr(buf, Join(cs), pat);
    while k >= 0
      invariant Text(buf, cs) && Same(cs, cs0)
      invariant forall x | x in Inner(cs) :: x in Inner(cs0)
      invariant k >= 0 ==> OccursAt(Join(cs), pat, k)
      invariant k < 0 ==> forall j: nat :: !OccursAt(Join(cs), pat, j)
      decreases |cs|, k
    {
      cs := DropOne(buf, cs, c, k);
      k := StrStr(buf, Join(cs), pat);
    }
    NoOccurrence(cs, c);
  }

  /** A path that starts with "/../" leads above the root. */
  lemma {:induction false} StartsAbove(cs: seq<string>)
    requires |cs| >= 2 && cs[0] == "" && cs[1] == ".."
    ensures VisitAll(At([]), cs) == Fail
  {
    VisitFail(cs[1..][1..]);
  }

  /** What stands before the first inner "..": a name, ending where the ".." begins. */
  lemma {:induction false} BeforeParent(cs: seq<string>, k: nat, i: nat)
    requires AllSlashFree(cs) && 1 < i < |cs| - 1 && "" !in Inner(cs) && "." !in Inner(cs)
    requires k == |Join(cs[..i])| && forall j | 0 <= j < k :: !OccursAt(Join(cs), "/../", j)
    ensures Name(cs[i - 1])
    ensures Join(cs[..i]) == Join(cs[..i - 1]) + "/" + cs[i - 1]
  {
    JoinLast(cs[..i]);
    assert cs[..i][..i - 1] == cs[..i - 1];
    assert Inner(cs)[i - 2] == cs[i - 1];
    assert "/" + ".." + "/" == "/../";
    if cs[i - 1] == ".." {
      InnerIsOccurrence(cs, i - 1);
    }
  }

  lemma {:induction false} StartJoin(cs: seq<string>, i: nat)
    requires cs != [] && cs[0] == "" && 0 < i < |cs|
    ensures |Join(cs[..i])| == 0 <==> i == 1
  {
    if i > 1 {
      JoinLast(cs[..i]);
    }
  }

  lemma {:induction false} NameSpan(a: string, name: string, b: string)
    requires SlashFree(name)
    ensures var s := a + "/" + name + b;
            && s[..|a|] == a && s[|a|] == '/'
            && forall j | |a| < j < |s| - |b| :: s[j] != '/'
  {
    var s := a + "/" + name + b;
    forall j | |a| < j < |s| - |b| ensures s[j] != '/' {
      assert s[j] == name[j - |a| - 1];
    }
  }

  /** What the rule "/../" leaves of the components, when it does not stand at the start. */
  lemma {:induction false} ParentAt(cs: seq<string>, k: nat) returns (cs': seq<string>, slash: nat)
    requires cs != [] && AllSlashFree(cs) && cs[0] == "" && "" !in Inner(cs) && "." !in Inner(cs)
    requires 0 < k && OccursAt(Join(cs), "/" + ".." + "/", k)
    requires forall j | 0 <= j < k :: !OccursAt(Join(cs), "/../", j)
    ensures Same(cs', cs) && |cs'| < |cs| && AllSlashFree(cs')
    ensures forall x | x in Inner(cs') :: x in Inner(cs)
    ensures slash < k && Join(cs)[slash] == '/' && forall j | slash < j < k :: Join(cs)[j] != '/'
    ensures Join(cs') == Join(cs)[..slash] + Join(cs)[k + 3..]
  {
    var i := OccurrenceIsInner(cs, "..", k);
    StartJoin(cs, i);
    BeforeParent(cs, k, i);
    DropParent(cs, i);
    JoinDrop(cs, i - 1, 2);
    cs', slash := Drop(cs, i - 1, 2), |Join(cs[..i - 1])|;
    var head, name := Join(cs)[..k], cs[i - 1];
    NameSpan(Join(cs[..i - 1]), name, "");
    assert head == Join(cs[..i - 1]) + "/" + name == Join(cs[..i - 1]) + "/" + name + "";
    assert forall j | 0 <= j < k :: Join(cs)[j] == head[j];
    assert Join(cs)[..slash] == head[..slash];
    assert Join(cs)[k + 1 + 2..] == "/" + Join(cs[i + 1..]);
    Assoc(Join(cs[..i - 1]), "/", Join(cs[i + 1..]));
  }

  method DropParentAt(buf: array<char>, ghost cs: seq<string>, k: nat) returns (ghost cs': seq<string>)
    requires Text(buf, cs) && cs[0] == "" && "" !in Inner(cs) && "." !in Inner(cs)
    requires 0 < k && OccursAt(Join(cs), "/../", k) && forall j | 0 <= j < k :: !OccursAt(Join(cs), "/../", j)
    modifies buf
    ensures Text(buf, cs') && Same(cs', cs) && |cs'| < |cs|
    ensures forall x | x in Inner(cs') :: x in Inner(cs)
  {
    ghost var slash;
    assert "/" + ".." + "/" == "/../";
    cs', slash := ParentAt(cs, k);
    var tmp := SlashBefore(buf, Join(cs), k - 1, slash);
    CopyDown(buf, Join(cs), tmp, k + 3);
  }

  /** The loop "/string/../ -> /". */
  method DropParents(buf: array<char>, ghost cs0: seq<string>) returns (ok: bool, ghost cs: seq<string>)
    requires Text(buf, cs0) && |cs0| >= 2 && cs0[0] == "" && "" !in Inner(cs0) && "." !in Inner(cs0)
    modifies buf
    ensures ok ==> Text(buf, cs) && Same(cs, cs0) && ".." !in Inner(cs)
                   && forall x | x in Inner(cs) :: x in Inner(cs0)
    ensures !ok ==> VisitAll(At([]), cs0) == Fail
  {
    cs := cs0;
    assert "/" + ".." + "/" == "/../";
    var k := StrStr(buf, Join(cs), "/../");
    while k >= 0
      invariant Text(buf, cs) && Same(cs, cs0)
      invariant forall x | x in Inner(cs) :: x in Inner(cs0)
      invariant k >= 0 ==> OccursAt(Join(cs), "/../", k) && forall j | 0 <= j < k :: !OccursAt(Join(cs), "/../", j)
      invariant k < 0 ==> forall j: nat :: !OccursAt(Join(cs), "/../", j)
      decreases |cs|, k
    {
      var starts := MatchesAt(buf, Join(cs), 0, "/../");
      if starts {
        ghost var i := OccurrenceIsInner(cs, "..", 0);
        StartJoin(cs, i);
        StartsAbove(cs);
        return false, cs;
      }
      cs := DropParentAt(buf, cs, k);
      k := StrStr(buf, Join(cs), "/../");
    }
    NoOccurrence(cs, "..");
    ok := true;
  }

  // ---------------------------------------------------------------- the end of the path

  function Last(cs: seq<string>): string
    requires cs != []
  {
    cs[|cs| - 1]
  }

  function Front(cs: seq<string>): seq<string>
    requires cs != []
  {
    cs[..|cs| - 1]
  }

  /** An absolute path whose inner components are all names. */
  ghost predicate Tidy(cs: seq<string>) {
    cs != [] && cs[0] == "" && AllSlashFree(cs) && Names(Inner(cs))
  }

  lemma {:induction false} TidyFront(cs: seq<string>)
    requires Tidy(cs) && |cs| >= 2
    ensures Tidy(Front(cs)) && (|cs| >= 3 ==> Name(Last(Front(cs))))
    ensures Join(cs) == Join(Front(cs)) + "/" + Last(cs)
    ensures VisitAll(At([]), cs) == Visit(VisitAll(At([]), Front(cs)), Last(cs))
  {
    JoinLast(cs);
    VisitAppend(At([]), Front(cs), [Last(cs)]);
    assert cs == Front(cs) + [Last(cs)];
    if |cs| >= 3 {
      assert Inner(cs)[|cs| - 3] == Last(Front(cs));
      forall i | 0 <= i < |Inner(Front(cs))| ensures Name(Inner(Front(cs))[i]) {
        assert Inner(Front(cs))[i] == Inner(cs)[i];
      }
    }
  }

  /** A tidy path that ends in a name, or has no further component, is the canonical path
      of where it leads. */
  lemma {:induction false} TidyIsCanonical(cs: seq<string>)
    requires Tidy(cs) && (|cs| >= 2 ==> Name(Last(cs)))
    ensures VisitAll(At([]), cs) == At(cs[1..]) && Join(cs) == Canonical(cs[1..])
  {
    forall i | 0 <= i < |cs[1..]| ensures Name(cs[1..][i]) {
      if i < |cs| - 2 {
        assert Inner(cs)[i] == cs[1..][i];
      }
    }
    VisitNames([], cs[1..]);
    CanonicalJoin(cs[1..]);
    assert [] + cs[1..] == cs[1..];
    assert [""] + cs[1..] == cs;
  }

  lemma {:induction false} LastSlash(cs: seq<string>)
    requires |cs| >= 2 && AllSlashFree(cs)
    ensures Join(cs) != "" && (Join(cs)[|Join(cs)| - 1] == '/' <==> Last(cs) == "")
  {
    JoinLast(cs);
    var s := Join(cs);
    if Last(cs) != "" {
      assert s[|s| - 1] == Last(cs)[|Last(cs)| - 1];
    }
  }

  predicate EndsWith(s: string, pat: string) {
    |pat| <= |s| && OccursAt(s, pat, |s| - |pat|)
  }

  /** The text ends in "/name" exactly when its last component is that name. */
  lemma {:induction false} EndsIn(cs: seq<string>, name: string)
    requires |cs| >= 2 && AllSlashFree(cs) && SlashFree(name)
    ensures EndsWith(Join(cs), "/" + name) <==> Last(cs) == name
  {
    JoinLast(cs);
    var s, p, pat := Join(cs), Join(Front(cs)), "/" + name;
    if Last(cs) == name {
      assert s == p + pat;
      assert s[|p|..|p| + |pat|] == pat;
    }
    if EndsWith(s, pat) {
      SplitJoin(cs);
      var k := |s| - |pat|;
      assert s == s[..k] + s[k..k + |pat|] == s[..k] + "/" + name;
      SplitSlash(s[..k], name);
      SplitName(name);
      assert cs == Split(s[..k]) + [name];
    }
  }

  method StrLen(buf: array<char>, ghost s: string) returns (n: nat)
    requires Holds(buf, s)
    ensures n == |s|
  {
    n := 0;
    while buf[n] != '\0'
      invariant n <= |s|
      decreases |s| - n
    {
      n := n + 1;
    }
  }

  /** Cut the text at position n. */
  method Cut(buf: array<char>, ghost s: string, n: nat)
    requires Holds(buf, s) && n <= |s|
    modifies buf
    ensures Holds(buf, s[..n])
  {
    buf[n] := '\0';
  }

  /** strcmp(&buf[n - |pat|], pat) == 0 */
  method Ends(buf: array<char>, ghost s: string, n: nat, pat: string) returns (b: bool)
    requires Holds(buf, s) && n == |s| && forall i | 0 <= i < |pat| :: pat[i] != '\0'
    ensures b == EndsWith(s, pat)
  {
    b := n >= |pat|;
    if b {
      b := MatchesAt(buf, s, n - |pat|, pat);
    }
  }

  /** The normal form of a path with these components. */
  ghost function Outcome(cs: seq<string>): string
    requires cs != [] && VisitAll(At([]), cs).At?
  {
    var stack := VisitAll(At([]), cs).stack;
    if stack == [] && Last(cs) == "" then "/" else Canonical(stack)
  }

  /** Only the root path "/" still ends in a slash after the rule "/$". */
  lemma {:induction false} OnlyRoot(cs: seq<string>)
    requires Tidy(cs) && |cs| >= 2 && Last(cs) == "" && |Join(cs)| <= 1
    ensures cs == ["", ""] && Join(cs) == "/" && VisitAll(At([]), cs) == At([])
  {
    TidyFront(cs);
    StartJoin(cs, |cs| - 1);
    assert cs[..1] == [""];
  }

  lemma {:induction false} ParentText(cs: seq<string>)
    requires Tidy(cs) && |cs| > 2 && Last(cs) == ".."
    ensures Join(cs) == Join(Front(Front(cs))) + "/" + Last(Front(cs)) + "/.."
  {
    TidyFront(cs);
    TidyFront(Front(cs));
    var t := Join(Front(cs));
    assert t + "/" + ".." == t + "/..";
  }

  lemma {:induction false} FrontTail(f: seq<string>)
    requires |f| >= 2
    ensures f[1..][..|f| - 2] == Front(f)[1..]
  {
  }

  lemma {:induction false} ParentWalk(cs: seq<string>)
    requires Tidy(cs) && |cs| > 2 && Last(cs) == ".."
    ensures VisitAll(At([]), cs) == At(Front(Front(cs))[1..])
  {
    TidyFront(cs);
    TidyIsCanonical(Front(cs));
    FrontTail(Front(cs));
  }

  /** A name and ".." at the end: where they lead, and what the text is. */
  lemma {:induction false} NameThenParent(cs: seq<string>)
    requires Tidy(cs) && |cs| > 2 && Last(cs) == ".."
    ensures var ff, name := Front(Front(cs)), Last(Front(cs));
            && SlashFree(name) && VisitAll(At([]), cs) == At(ff[1..]) && Join(ff) == Canonical(ff[1..])
            && Join(cs) == Join(ff) + "/" + name + "/.."
  {
    ParentText(cs);
    ParentWalk(cs);
    TidyFront(cs);
    TidyFront(Front(cs));
    TidyIsCanonical(Front(Front(cs)));
  }

  /** A ".." at the end: above the root when nothing stands before it; otherwise it and
      the name before it go, back to the slash at `slash`. */
  lemma {:induction false} ParentAtEnd(cs: seq<string>) returns (slash: nat)
    requires Tidy(cs) && |cs| >= 2 && Last(cs) == ".."
    ensures |Join(cs)| >= 3 && (|Join(cs)| == 3 <==> VisitAll(At([]), cs) == Fail)
    ensures |Join(cs)| > 3 ==>
              && slash < |Join(cs)| - 3 && Join(cs)[slash] == '/'
              && (forall j | slash < j < |Join(cs)| - 3 :: Join(cs)[j] != '/')
              && Join(cs)[..slash] == Outcome(cs)
  {
    slash := 0;
    if |cs| > 2 {
      NameThenParent(cs);
      var ff := Front(Front(cs));
      slash := |Join(ff)|;
      NameSpan(Join(ff), Last(Front(cs)), "/..");
    } else {
      TidyFront(cs);
      assert cs == ["", ".."];
    }
  }

  lemma {:induction false} RestIsCanonical(cs: seq<string>)
    requires Tidy(cs) && |cs| >= 2 && Last(cs) != "." && Last(cs) != ".." && (Last(cs) == "" ==> |Join(cs)| <= 1)
    ensures VisitAll(At([]), cs).At? && Join(cs) == Outcome(cs)
  {
    if Last(cs) == "" {
      OnlyRoot(cs);
    } else {
      TidyIsCanonical(cs);
    }
  }

  /** The rules "^/..$" and "/string/..$". */
  method FinishParent(buf: array<char>, ghost cs: seq<string>, len: nat) returns (ret: int)
    requires Text(buf, cs) && Tidy(cs) && |cs| >= 2 && len == |Join(cs)|
    requires Last(cs) != "." && (Last(cs) == "" ==> len <= 1)
    modifies buf
    ensures ret == (if VisitAll(At([]), cs) == Fail then -1 else 0)
    ensures ret == 0 ==> Holds(buf, Outcome(cs))
  {
    EndsIn(cs, "..");
    assert "/" + ".." == "/..";
    var parent := Ends(buf, Join(cs), len, "/..");
    if parent {
      ghost var slash := ParentAtEnd(cs);
      if len == 3 {
        return -1;
      }
      var tmp := SlashBefore(buf, Join(cs), len - 3 - 1, slash);
      Cut(buf, Join(cs), tmp);
    } else {
      RestIsCanonical(cs);
    }
    ret := 0;
  }

  /** A slash or a "." at the end: what stands before it is the outcome. */
  lemma {:induction false} QuietAtEnd(cs: seq<string>)
    requires Tidy(cs) && |cs| >= 2 && (Last(cs) == "." || (Last(cs) == "" && |Join(cs)| > 1))
    ensures |Join(cs)| > |Last(cs)| && VisitAll(At([]), cs).At?
    ensures Join(cs)[..|Join(cs)| - 1 - |Last(cs)|] == Outcome(cs)
  {
    TidyFront(cs);
    StartJoin(cs, |cs| - 1);
    TidyIsCanonical(Front(cs));
    assert Join(cs)[..|Join(Front(cs))|] == Join(Front(cs));
  }

  /** The rules for the end of the path: "/$", "/.$", "^/..$" and "/string/..$". */
  method Finish(buf: array<char>, ghost cs: seq<string>) returns (ret: int)
    requires Text(buf, cs) && Tidy(cs) && |cs| >= 2
    modifies buf
    ensures ret == (if VisitAll(At([]), cs) == Fail then -1 else 0)
    ensures ret == 0 ==> Holds(buf, Outcome(cs))
  {
    var len := StrLen(buf, Join(cs));
    LastSlash(cs);
    if len > 1 && buf[len - 1] == '/' {
      QuietAtEnd(cs);
      Cut(buf, Join(cs), len - 1);
      return 0;
    }
    EndsIn(cs, ".");
    assert "/" + "." == "/.";
    var dot := Ends(buf, Join(cs), len, "/.");
    if dot {
      QuietAtEnd(cs);
      Cut(buf, Join(cs), len - 2);
      return 0;
    }
    ret := FinishParent(buf, cs, len);
  }

  lemma {:induction false} FirstComponent(cs: seq<string>)
    requires cs != [] && AllSlashFree(cs)
    ensures (Join(cs) != "" && Join(cs)[0] == '/') <==> |cs| >= 2 && cs[0] == ""
  {
  }

  lemma {:induction false} AboveRoot(cs: seq<string>)
    requires cs != [] && AllSlashFree(cs) && OccursAt(Join(cs), "/../", 0)
    ensures VisitAll(At([]), cs) == Fail
  {
    assert "/" + ".." + "/" == "/../";
    FirstComponent(cs);
    assert Join(cs)[0] == Join(cs)[0..4][0] == '/';
    var i := OccurrenceIsInner(cs, "..", 0);
    StartJoin(cs, i);
    StartsAbove(cs);
  }

  lemma {:induction false} TidyNow(cs: seq<string>)
    requires cs != [] && cs[0] == "" && AllSlashFree(cs)
    requires "" !in Inner(cs) && "." !in Inner(cs) && ".." !in Inner(cs)
    ensures Tidy(cs)
  {
    forall i | 0 <= i < |Inner(cs)| ensures Name(Inner(cs)[i]) {
      assert Inner(cs)[i] == cs[i + 1];
    }
  }

  /** The walk over the components is what the path means. */
  lemma {:induction false} SameOutcome(path: string, cs: seq<string>)
    requires Same(cs, Split(path))
    ensures Resolve(path).At? <==> |cs| >= 2 && cs[0] == "" && VisitAll(At([]), cs).At?
    ensures Resolve(path).At? ==> Normal(path) == Outcome(cs)
  {
    JoinSplit(path);
    FirstComponent(Split(path));
    if |cs| >= 2 {
      LastSlash(Split(path));
    }
  }

  /** nfs_normalize_path: 0 exactly for the paths that resolve, and the buffer then holds
      their normal form; -1 otherwise. */
  method Normalize(buf: array<char>, ghost path: string) returns (ret: int)
    requires Holds(buf, path)
    modifies buf
    ensures ret == (if Resolve(path).At? then 0 else -1)
    ensures ret == 0 ==> Holds(buf, Normal(path))
  {
    JoinSplit(path);
    ghost var cs := DropEach(buf, Split(path), "");
    cs := DropEach(buf, cs, ".");
    SameOutcome(path, cs);
    var above := MatchesAt(buf, Join(cs), 0, "/../");
    if above {
      AboveRoot(cs);
      return -1;
    }
    FirstComponent(cs);
    if buf[0] != '/' {
      return -1;
    }
    var ok;
    ok, cs := DropParents(buf, cs);
    if !ok {
      return -1;
    }
    SameOutcome(path, cs);
    TidyNow(cs);
    ret := Finish(buf, cs);
  }
}
