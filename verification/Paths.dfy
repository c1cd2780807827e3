/**
 path_canonicalise: the in-place rewrite of a path through two moving pointers, against a plain
 stack of path components.
 */
module Paths {

  // ---------------------------------------------------------------- the component stack

  /** A path component; `lead` says that a separator stands in front of it. */
  datatype Comp = Comp(lead: bool, name: string) {
    function Text(): string { (if lead then "/" else "") + name }
  }

  /** First index from `i` on that is not a separator. */
  function SkipSeparators(s: string, i: nat): (j: nat)
    requires i <= |s|
    ensures i <= j <= |s| && (forall k :: i <= k < j ==> s[k] == '/') && (j < |s| ==> s[j] != '/')
    decreases |s| - i
  {
    if i < |s| && s[i] == '/' then SkipSeparators(s, i + 1) else i
  }

  /** First index from `i` on that is a separator. */
  function NameEnd(s: string, i: nat): (j: nat)
    requires i <= |s|
    ensures i <= j <= |s| && (forall k :: i <= k < j ==> s[k] != '/') && (j < |s| ==> s[j] == '/')
    decreases |s| - i
  {
    if i < |s| && s[i] != '/' then NameEnd(s, i + 1) else i
  }

  /** The non-empty components from index `i` on. */
  function Split(s: string, i: nat): seq<Comp>
    requires i <= |s|
    decreases |s| - i
  {
    var b := SkipSeparators(s, i);
    if b == |s| then [] else
      var e := NameEnd(s, b);
      [Comp(b > i, s[b..e])] + Split(s, e)
  }

  /** One component applied to the stack. */
  function Apply(stack: seq<Comp>, c: Comp): seq<Comp> {
    if c.name == "." then stack
    else if c.name == ".." then (if stack == [] then [] else stack[..|stack| - 1])
    else stack + [c]
  }

  function Resolve(cs: seq<Comp>, stack: seq<Comp>): seq<Comp> {
    if cs == [] then stack else Resolve(cs[1..], Apply(stack, cs[0]))
  }

  function Render(stack: seq<Comp>): string {
    if stack == [] then "" else Render(stack[..|stack| - 1]) + stack[|stack| - 1].Text()
  }

  /** The canonical form of a path. */
  function Canonical(s: string): string {
    Render(Resolve(Split(s, 0), []))
  }

  // ---------------------------------------------------------------- what the stack holds

  ghost predicate PlainName(n: string) {
    n != "" && n != "." && n != ".." && forall i :: 0 <= i < |n| ==> n[i] != '/'
  }

  /** Plain components only; none but the bottom one may lack its separator. */
  ghost predicate Plain(stack: seq<Comp>) {
    && (forall i :: 0 <= i < |stack| ==> PlainName(stack[i].name))
    && (forall i :: 1 <= i < |stack| ==> stack[i].lead)
  }

  lemma RenderPush(stack: seq<Comp>, c: Comp)
    ensures Render(stack + [c]) == Render(stack) + c.Text()
  {
    assert (stack + [c])[..|stack|] == stack;
  }

  /** A rendered plain stack does not end in a separator. */
  lemma RenderEnd(stack: seq<Comp>)
    requires Plain(stack)
    ensures stack != [] ==> Render(stack) != "" && Render(stack)[|Render(stack)| - 1] != '/'
  {
    if stack != [] {
      var c := stack[|stack| - 1];
      assert PlainName(c.name);
      assert Render(stack)[|Render(stack)| - 1] == c.name[|c.name| - 1];
    }
  }

  lemma {:induction false} ResolvePlain(cs: seq<Comp>, stack: seq<Comp>)
    requires Plain(stack)
    requires forall i :: 0 <= i < |cs| ==>
               cs[i].name != "" && forall k :: 0 <= k < |cs[i].name| ==> cs[i].name[k] != '/'
    requires forall i :: 0 <= i < |cs| && (i > 0 || stack != []) ==> cs[i].lead
    ensures Plain(Resolve(cs, stack))
    decreases |cs|
  {
    if cs != [] {
      ResolvePlain(cs[1..], Apply(stack, cs[0]));
    }
  }

  lemma {:induction false} SplitParts(s: string, i: nat)
    requires i <= |s|
    ensures forall j :: 0 <= j < |Split(s, i)| ==>
              && Split(s, i)[j].name != "" && (j > 0 || (i < |s| && s[i] == '/') ==> Split(s, i)[j].lead)
              && forall k :: 0 <= k < |Split(s, i)[j].name| ==> Split(s, i)[j].name[k] != '/'
    decreases |s| - i
  {
    var b := SkipSeparators(s, i);
    if b < |s| {
      SplitParts(s, NameEnd(s, b));
    }
  }

  /** Canonical paths are renderings of plain stacks. */
  lemma CanonicalStack(s: string) returns (stack: seq<Comp>)
    ensures stack == Resolve(Split(s, 0), []) && Plain(stack) && Canonical(s) == Render(stack)
    ensures s != "" && s[0] == '/' ==> forall i :: 0 <= i < |stack| ==> stack[i].lead
  {
    SplitParts(s, 0);
    stack := Resolve(Split(s, 0), []);
    ResolvePlain(Split(s, 0), []);
    if s != "" && s[0] == '/' {
      ResolveLead(Split(s, 0), []);
    }
  }

  lemma {:induction false} ResolveLead(cs: seq<Comp>, stack: seq<Comp>)
    requires forall i :: 0 <= i < |stack| ==> stack[i].lead
    requires forall i :: 0 <= i < |cs| ==> cs[i].lead
    ensures forall i :: 0 <= i < |Resolve(cs, stack)| ==> Resolve(cs, stack)[i].lead
    decreases |cs|
  {
    if cs != [] {
      ResolveLead(cs[1..], Apply(stack, cs[0]));
    }
  }

  // ---------------------------------------------------------------- round trip and idempotence

  /** The rendering, read from the bottom of the stack. */
  function Joined(cs: seq<Comp>): string {
    if cs == [] then "" else cs[0].Text() + Joined(cs[1..])
  }

  lemma {:induction false} RenderIsJoined(cs: seq<Comp>)
    ensures Render(cs) == Joined(cs)
    decreases |cs|
  {
    if cs != [] {
      var n := |cs|;
      RenderIsJoined(cs[..n - 1]);
      JoinedPush(cs[..n - 1], cs[n - 1]);
      assert cs[..n - 1] + [cs[n - 1]] == cs;
    }
  }

  lemma {:induction false} JoinedPush(cs: seq<Comp>, c: Comp)
    ensures Joined(cs + [c]) == Joined(cs) + c.Text()
    decreases |cs|
  {
    var all := cs + [c];
    if cs == [] {
      assert all[1..] == [] && all[0] == c;
    } else {
      var t := cs[0].Text();
      JoinedPush(cs[1..], c);
      assert all[1..] == cs[1..] + [c] && all[0] == cs[0];
      assert t + (Joined(cs[1..]) + c.Text()) == (t + Joined(cs[1..])) + c.Text();
    }
  }

  lemma {:induction false} SkipIs(s: string, i: nat, j: nat)
    requires i <= j <= |s| && (forall k :: i <= k < j ==> s[k] == '/') && (j < |s| ==> s[j] != '/')
    ensures SkipSeparators(s, i) == j
    decreases j - i
  {
    if i < j { SkipIs(s, i + 1, j); }
  }

  lemma {:induction false} NameEndIs(s: string, i: nat, j: nat)
    requires i <= j <= |s| && (forall k :: i <= k < j ==> s[k] != '/') && (j < |s| ==> s[j] == '/')
    ensures NameEnd(s, i) == j
    decreases j - i
  {
    if i < j { NameEndIs(s, i + 1, j); }
  }

  /** The first component of a joined text, found at its place. */
  lemma JoinedHead(s: string, i: nat, c: Comp, rest: string)
    requires i <= |s| && s[i..] == c.Text() + rest
    ensures var b := i + if c.lead then 1 else 0;
            var e := b + |c.name|;
            && e <= |s| && s[b..e] == c.name && s[e..] == rest && (c.lead ==> s[i] == '/')
  {
    var b := i + if c.lead then 1 else 0;
    var e := b + |c.name|;
    var t := s[i..];
    assert c.name == c.Text()[b - i..] == t[b - i..e - i];
    assert s[b..e] == t[b - i..e - i];
    assert s[e..] == t[e - i..];
    assert c.lead ==> s[i] == t[0];
  }

  /** Splitting undoes joining. */
  lemma {:induction false} SplitJoined(s: string, i: nat, cs: seq<Comp>)
    requires i <= |s| && s[i..] == Joined(cs) && Plain(cs)
    ensures Split(s, i) == cs
    decreases |cs|
  {
    hide SkipSeparators;
    hide NameEnd;
    hide Split;
    if cs == [] {
      SplitAtEnd(s);
    } else {
      var c, rest := cs[0], cs[1..];
      assert cs == [c] + rest;
      assert PlainName(c.name);
      var b := i + if c.lead then 1 else 0;
      var e := b + |c.name|;
      JoinedHead(s, i, c, Joined(rest));
      assert c == Comp(b > i, s[b..e]);
      assert forall k :: b <= k < e ==> s[k] == s[b..e][k - b];
      if rest != [] {
        assert rest[0] == cs[1];
        JoinedHead(s, e, rest[0], Joined(rest[1..]));
      }
      SkipIs(s, i, b);
      NameEndIs(s, b, e);
      SplitStep(s, i, b, e);
      SplitJoined(s, e, rest);
    }
  }

  lemma SplitAtEnd(s: string)
    ensures Split(s, |s|) == []
  {
  }

  lemma SplitStep(s: string, i: nat, b: nat, e: nat)
    requires i <= b < e <= |s| && SkipSeparators(s, i) == b && NameEnd(s, b) == e
    ensures Split(s, i) == [Comp(b > i, s[b..e])] + Split(s, e)
  {
  }

  /** A plain stack survives rendering and splitting, and pushing its components rebuilds it. */
  lemma {:induction false} ResolveOfPlain(cs: seq<Comp>, stack: seq<Comp>)
    requires forall i :: 0 <= i < |cs| ==> PlainName(cs[i].name)
    ensures Resolve(cs, stack) == stack + cs
    decreases |cs|
  {
    if cs != [] {
      assert PlainName(cs[0].name);
      ResolveOfPlain(cs[1..], Apply(stack, cs[0]));
    }
  }

  /** A canonical path is its own canonical form. */
  lemma CanonicalIdempotent(s: string)
    ensures Canonical(Canonical(s)) == Canonical(s)
  {
    hide Split;
    hide Resolve;
    var stack := CanonicalStack(s);
    var c := Render(stack);
    RenderIsJoined(stack);
    assert c[0..] == c;
    SplitJoined(c, 0, stack);
    ResolveOfPlain(stack, []);
    assert [] + stack == stack;
  }

  /** The canonical form of an absolute path: the empty string for the root, else "/" before each name. */
  lemma CanonicalAbsolute(s: string)
    requires s != "" && s[0] == '/'
    ensures Canonical(s) == "" || Canonical(s)[0] == '/'
    ensures Canonical(s) == JoinNames(Names(Resolve(Split(s, 0), [])))
  {
    var stack := CanonicalStack(s);
    RenderIsJoined(stack);
    JoinedLead(stack);
  }

  function Names(cs: seq<Comp>): seq<string> {
    if cs == [] then [] else [cs[0].name] + Names(cs[1..])
  }

  function JoinNames(ns: seq<string>): string {
    if ns == [] then "" else "/" + ns[0] + JoinNames(ns[1..])
  }

  lemma {:induction false} JoinedLead(cs: seq<Comp>)
    requires forall i :: 0 <= i < |cs| ==> cs[i].lead
    ensures Joined(cs) == JoinNames(Names(cs))
    decreases |cs|
  {
    if cs != [] {
      JoinedLead(cs[1..]);
    }
  }

  // ---------------------------------------------------------------- laws of canonical paths

  lemma {:induction false} ResolveSplit(cs: seq<Comp>, ds: seq<Comp>, stack: seq<Comp>)
    ensures Resolve(cs + ds, stack) == Resolve(ds, Resolve(cs, stack))
    decreases |cs|
  {
    if cs == [] {
      assert cs + ds == ds;
    } else {
      assert (cs + ds)[1..] == cs[1..] + ds;
      ResolveSplit(cs[1..], ds, Apply(stack, cs[0]));
    }
  }

  lemma SkipShift(a: string, u: string, j: nat)
    requires j <= |u|
    ensures SkipSeparators(a + u, |a| + j) == |a| + SkipSeparators(u, j)
  {
    hide SkipSeparators;
    SkipIs(a + u, |a| + j, |a| + SkipSeparators(u, j));
  }

  lemma NameShift(a: string, u: string, j: nat)
    requires j <= |u|
    ensures NameEnd(a + u, |a| + j) == |a| + NameEnd(u, j)
  {
    hide NameEnd;
    NameEndIs(a + u, |a| + j, |a| + NameEnd(u, j));
  }

  lemma ShiftSlice(a: string, u: string, i: nat, j: nat)
    requires i <= j <= |u|
    ensures (a + u)[|a| + i..|a| + j] == u[i..j]
  {
    var x, y := (a + u)[|a| + i..|a| + j], u[i..j];
    assert forall k :: 0 <= k < |y| ==> x[k] == y[k];
  }

  /** Components do not depend on what stands in front. */
  lemma {:induction false} SplitShift(a: string, u: string, j: nat)
    requires j <= |u|
    ensures Split(a + u, |a| + j) == Split(u, j)
    decreases |u| - j
  {
    hide Split, SkipSeparators, NameEnd;
    SkipShift(a, u, j);
    var b := SkipSeparators(u, j);
    if b < |u| {
      NameShift(a, u, b);
      var e := NameEnd(u, b);
      SplitStep(a + u, |a| + j, |a| + b, |a| + e);
      SplitStep(u, j, b, e);
      ShiftSlice(a, u, b, e);
      SplitShift(a, u, e);
    } else {
      SplitNone(u, j);
      SplitNone(a + u, |a| + j);
    }
  }

  /** Splitting falls apart at a separator. */
  lemma {:induction false} SplitAppend(a: string, u: string, i: nat)
    requires i <= |a| && u != "" && u[0] == '/'
    ensures Split(a + u, i) == Split(a, i) + Split(u, 0)
    decreases |a| - i
  {
    hide Split, SkipSeparators, NameEnd;
    var s, b := a + u, SkipSeparators(a, i);
    if b == |a| {
      SkipIs(s, i, |a| + SkipSeparators(u, 0));
      SplitTail(a, u, i);
      SplitNone(a, i);
    } else {
      var e := NameEnd(a, b);
      SkipIs(s, i, b);
      NameEndIs(s, b, e);
      SplitStep(s, i, b, e);
      SplitStep(a, i, b, e);
      SplitAppend(a, u, e);
      var c := Comp(b > i, a[b..e]);
      assert s[b..e] == a[b..e];
      assert [c] + (Split(a, e) + Split(u, 0)) == ([c] + Split(a, e)) + Split(u, 0);
    }
  }

  lemma SplitNone(s: string, i: nat)
    requires i <= |s| && SkipSeparators(s, i) == |s|
    ensures Split(s, i) == []
  {
  }

  lemma SplitTail(a: string, u: string, i: nat)
    requires i <= |a| && u != "" && u[0] == '/' && SkipSeparators(a + u, i) == |a| + SkipSeparators(u, 0)
    ensures Split(a + u, i) == Split(u, 0)
  {
    hide Split, SkipSeparators, NameEnd;
    var b := SkipSeparators(u, 0);
    if b < |u| {
      var e := NameEnd(u, b);
      NameShift(a, u, b);
      SplitStep(a + u, i, |a| + b, |a| + e);
      SplitStep(u, 0, b, e);
      ShiftSlice(a, u, b, e);
      SplitShift(a, u, e);
    } else {
      SplitNone(u, 0);
      SplitNone(a + u, i);
    }
  }

  /** The components of a separator and one name. */
  lemma SplitOne(lead: bool, n: string)
    requires forall i :: 0 <= i < |n| ==> n[i] != '/'
    ensures var s := (if lead then "/" else "") + n; Split(s, 0) == if n == "" then [] else [Comp(lead, n)]
  {
    var s := (if lead then "/" else "") + n;
    var b: nat := if lead then 1 else 0;
    SkipIs(s, 0, b);
    if n != "" {
      NameEndIs(s, b, |s|);
      assert s[b..|s|] == n;
      SplitAtEnd(s);
    }
  }

  /** One more component behind a path. */
  lemma Behind(a: string, n: string)
    requires forall i :: 0 <= i < |n| ==> n[i] != '/'
    ensures var stack := Resolve(Split(a, 0), []);
            Resolve(Split(a + ("/" + n), 0), []) == if n == "" then stack else Apply(stack, Comp(true, n))
  {
    hide Split, Apply;
    SplitAppend(a, "/" + n, 0);
    SplitOne(true, n);
    ResolveSplit(Split(a, 0), Split("/" + n, 0), []);
  }

  /** A separator, or a separator and ".", at the end changes nothing. */
  lemma DotLaw(a: string)
    ensures Canonical(a + "/") == Canonical(a) && Canonical(a + "/.") == Canonical(a)
  {
    hide Split, Resolve, Render;
    Behind(a, "");
    Behind(a, ".");
    assert "/" + "" == "/" && "/" + "." == "/.";
  }

  /** A plain name goes behind. */
  lemma NameLaw(a: string, n: string)
    requires PlainName(n)
    ensures Canonical(a + "/" + n) == Canonical(a) + "/" + n
  {
    hide Split, Resolve, Render;
    Behind(a, n);
    assert a + "/" + n == a + ("/" + n);
    var stack := Resolve(Split(a, 0), []);
    RenderPush(stack, Comp(true, n));
    assert Comp(true, n).Text() == "/" + n;
    assert Canonical(a) + "/" + n == Canonical(a) + ("/" + n);
  }

  /** ".." takes the last component of the canonical form away, if there is one. */
  lemma UpLaw(a: string, b: string, n: string)
    requires PlainName(n)
    ensures Canonical(a) == "" ==> Canonical(a + "/..") == ""
    ensures Canonical(a) == n ==> Canonical(a + "/..") == ""
    ensures Canonical(a) == b + "/" + n ==> Canonical(a + "/..") == b
  {
    hide Split, Resolve;
    Behind(a, "..");
    assert "/" + ".." == "/..";
    var stack := CanonicalStack(a);
    if stack != [] {
      LastText(stack, b, n);
    }
  }

  /** The last component of a rendering, read off its text. */
  lemma LastText(stack: seq<Comp>, b: string, n: string)
    requires Plain(stack) && stack != [] && PlainName(n)
    ensures Render(stack) != ""
    ensures Render(stack) == n ==> Render(stack[..|stack| - 1]) == ""
    ensures Render(stack) == b + "/" + n ==> Render(stack[..|stack| - 1]) == b
  {
    var c, front := stack[|stack| - 1], Render(stack[..|stack| - 1]);
    assert PlainName(c.name);
    assert Render(stack) == front + c.Text();
    assert !c.lead ==> stack[..|stack| - 1] == [];
    if Render(stack) == n {
      NoSeparator(front, c, n);
    } else if Render(stack) == b + "/" + n {
      SameLast(front, c, b, n);
    }
  }

  lemma NoSeparator(front: string, c: Comp, n: string)
    requires PlainName(n) && front + c.Text() == n
    ensures !c.lead
  {
    LeadText(front, c);
  }

  lemma LeadText(front: string, c: Comp)
    ensures c.lead ==> |front| < |front + c.Text()| && (front + c.Text())[|front|] == '/'
  {
  }

  lemma SameLast(front: string, c: Comp, b: string, n: string)
    requires PlainName(n) && PlainName(c.name) && front + c.Text() == b + "/" + n
    ensures c.lead ==> front == b
    ensures !c.lead ==> front != ""
  {
    var s := b + "/" + n;
    assert s[|b|] == '/' && forall i :: |b| < i < |s| ==> s[i] == n[i - |b| - 1];
    var k := |s| - |c.name|;
    assert forall i :: k <= i < |s| ==> s[i] == c.name[i - k];
    if c.lead {
      assert s[|front|] == '/' && k == |front| + 1;
      assert |front| == |b|;
      assert front == s[..|front|] == b;
    }
  }

  /** Paths of one component. */
  lemma BaseLaw(n: string)
    ensures Canonical("") == "" && Canonical(".") == "" && Canonical("..") == "" && Canonical("/..") == ""
    ensures PlainName(n) ==> Canonical(n) == n
  {
    OneComponent(".");
    OneComponent("..");
    assert Canonical("") == "";
    UpLaw("", "", "n");
    assert "" + "/.." == "/..";
    if PlainName(n) { OneComponent(n); }
  }

  lemma OneComponent(n: string)
    requires n != "" && forall i :: 0 <= i < |n| ==> n[i] != '/'
    ensures Canonical(n) == if n == "." || n == ".." then "" else n
  {
    hide Split;
    SplitOne(false, n);
    assert "" + n == n;
    var c := Comp(false, n);
    assert Resolve([c], []) == Apply([], c) by { assert [c][1..] == []; }
    RenderPush([], c);
    assert [] + [c] == [c];
  }

  /** Going down into a plain name and up again leads back. */
  lemma DownAndUp(a: string, n: string)
    requires PlainName(n)
    ensures Canonical(a + "/" + n + "/..") == Canonical(a)
  {
    NameLaw(a, n);
    UpLaw(a + "/" + n, Canonical(a), n);
  }

  /** What a function on paths must do to be canonicalisation, told by its values alone. */
  ghost predicate Lawful(f: string -> string) {
    && f("") == "" && f(".") == "" && f("..") == ""
    && (forall n :: PlainName(n) ==> f(n) == n)
    && (forall a: string :: Trailing(f, a))
    && (forall a: string, n :: Down(f, a, n))
    && (forall a: string, b: string, n :: Up(f, a, b, n))
  }

  ghost predicate Trailing(f: string -> string, a: string) { f(a + "/") == f(a) && f(a + "/.") == f(a) }

  ghost predicate Down(f: string -> string, a: string, n: string) {
    PlainName(n) ==> f(a + "/" + n) == f(a) + "/" + n
  }

  ghost predicate Up(f: string -> string, a: string, b: string, n: string) {
    && (f(a) == "" ==> f(a + "/..") == "")
    && (PlainName(n) && f(a) == n ==> f(a + "/..") == "")
    && (PlainName(n) && f(a) == b + "/" + n ==> f(a + "/..") == b)
  }

  /** Canonicalisation is lawful. */
  lemma CanonicalLawful()
    ensures Lawful(Canonical)
  {
    hide Canonical;
    BaseLaw("n");
    forall n | PlainName(n) ensures Canonical(n) == n { BaseLaw(n); }
    forall a: string ensures Trailing(Canonical, a) { DotLaw(a); }
    forall a: string, n ensures Down(Canonical, a, n) { if PlainName(n) { NameLaw(a, n); } }
    forall a: string, b: string, n ensures Up(Canonical, a, b, n) {
      UpLaw(a, b, "n");
      if PlainName(n) { UpLaw(a, b, n); }
    }
  }

  /** And it is the only lawful function: the laws say what becomes of every path. */
  lemma {:induction false} LawsDetermine(f: string -> string, s: string)
    requires Lawful(f)
    ensures f(s) == Canonical(s)
    decreases |s|
  {
    hide Canonical, Lawful;
    CanonicalLawful();
    var k := LastSeparator(s);
    if k >= 0 {
      var a, n := s[..k], s[k + 1..];
      assert s == a + "/" + n;
      LawsDetermine(f, a);
      SameStep(f, a, n);
    } else {
      SameBase(f, s);
    }
  }

  /** Index of the last separator, or -1. */
  function LastSeparator(s: string): (k: int)
    ensures -1 <= k < |s| && (k >= 0 ==> s[k] == '/') && forall i :: k < i < |s| ==> s[i] != '/'
  {
    if s == "" then -1 else if s[|s| - 1] == '/' then |s| - 1 else LastSeparator(s[..|s| - 1])
  }

  lemma SameBase(f: string -> string, s: string)
    requires Lawful(f) && forall i :: 0 <= i < |s| ==> s[i] != '/'
    ensures f(s) == Canonical(s)
  {
    hide Canonical;
    BaseLaw(s);
  }

  /** What a canonical path looks like. */
  lemma CanonicalForm(s: string) returns (b: string, n: string)
    ensures Canonical(s) == "" || (PlainName(n) && (Canonical(s) == n || Canonical(s) == b + "/" + n))
  {
    hide Split, Resolve;
    var stack := CanonicalStack(s);
    b, n := "", "";
    if stack != [] {
      var c := stack[|stack| - 1];
      b, n := Render(stack[..|stack| - 1]), c.name;
      assert !c.lead ==> stack[..|stack| - 1] == [];
      assert b + ("/" + n) == b + "/" + n;
    }
  }

  lemma SameStep(f: string -> string, a: string, n: string)
    requires Lawful(f) && f(a) == Canonical(a) && forall i :: 0 <= i < |n| ==> n[i] != '/'
    ensures f(a + "/" + n) == Canonical(a + "/" + n)
  {
    hide Canonical;
    assert Trailing(f, a) && Down(f, a, n);
    DotLaw(a);
    if n == "" {
      assert a + "/" + n == a + "/";
    } else if n == "." {
      assert a + "/" + n == a + "/.";
    } else if n == ".." {
      assert a + "/" + n == a + "/..";
      var b, m := CanonicalForm(a);
      assert Up(f, a, b, m);
      UpLaw(a, b, if PlainName(m) then m else "n");
    } else {
      NameLaw(a, n);
    }
  }

  // ---------------------------------------------------------------- the in-place rewrite

  /** `path` holds the string `s`, zero-terminated. */
  ghost predicate Holds(path: array<char>, s: string)
    reads path
  {
    && |s| < path.Length
    && path[..|s|] == s
    && path[|s|] == '\0'
    && NoTerminator(s)
  }

  predicate NoTerminator(s: string) {
    forall i :: 0 <= i < |s| ==> s[i] != '\0'
  }

  lemma NoTerminatorParts(a: string, b: string)
    ensures NoTerminator(a + b) <==> NoTerminator(a) && NoTerminator(b)
  {
    assert forall i :: 0 <= i < |a| ==> (a + b)[i] == a[i];
    assert forall i :: 0 <= i < |b| ==> (a + b)[|a| + i] == b[i];
  }

  lemma NoTerminatorSlice(s: string, from: nat, to: nat)
    requires NoTerminator(s) && from <= to <= |s|
    ensures NoTerminator(s[from..to])
  {
  }

  /** From index `i` on, `path` still holds the original text `s` and its terminator. */
  ghost predicate Unread(path: array<char>, s: string, i: nat)
    reads path
  {
    && i <= |s| < path.Length
    && path[i..|s|] == s[i..]
    && path[|s|] == '\0'
    && NoTerminator(s)
  }

  /** The next characters of the text are those of the buffer. */
  lemma UnreadAt(path: array<char>, s: string, i: nat, j: nat)
    requires Unread(path, s, i) && i <= j <= |s|
    ensures path[j] == if j < |s| then s[j] else '\0'
    ensures j < |s| ==> s[j] != '\0'
  {
    assert j < |s| ==> path[j] == path[i..|s|][j - i];
  }

  /** Walk over separators. */
  method WalkSeparators(path: array<char>, i: nat, ghost s: string) returns (j: nat)
    requires Unread(path, s, i)
    ensures j == SkipSeparators(s, i)
  {
    hide Unread;
    UnreadIs(path, s, i);
    j := i;
    UnreadAt(path, s, i, i);
    while path[j] == '/'
      invariant i <= j <= |s| && SkipSeparators(s, i) == SkipSeparators(s, j)
      invariant path[j] == if j < |s| then s[j] else '\0'
      decreases |s| - j
    {
      j := j + 1;
      UnreadAt(path, s, i, j);
    }
  }

  lemma UnreadIs(path: array<char>, s: string, i: nat)
    requires Unread(path, s, i)
    ensures i <= |s| < path.Length && NoTerminator(s) && path[|s|] == '\0' && path[i..|s|] == s[i..]
  {
  }

  /** Walk over a path component. */
  method WalkName(path: array<char>, i: nat, ghost s: string) returns (j: nat)
    requires Unread(path, s, i)
    ensures j == NameEnd(s, i)
  {
    hide Unread;
    UnreadIs(path, s, i);
    j := i;
    UnreadAt(path, s, i, i);
    while path[j] != '\0' && path[j] != '/'
      invariant i <= j <= |s| && NameEnd(s, i) == NameEnd(s, j)
      invariant path[j] == if j < |s| then s[j] else '\0'
      invariant j < |s| ==> s[j] != '\0'
      decreases |s| - j
    {
      j := j + 1;
      UnreadAt(path, s, i, j);
    }
  }

  /** Copy the component in [from, to) down to the write position. */
  method CopyName(path: array<char>, write: nat, from: nat, to: nat, ghost s: string) returns (w: nat)
    requires Unread(path, s, from) && write <= from <= to <= |s|
    modifies path
    ensures Unread(path, s, to) && w == write + (to - from)
    ensures path[..w] == old(path[..write]) + s[from..to]
    ensures path[|s|..] == old(path[|s|..])
  {
    hide NoTerminator;
    w := write;
    var r := from;
    UnreadIs(path, s, from);
    assert forall k :: from <= k < |s| ==> path[k] == path[from..|s|][k - from];
    while r < to
      invariant from <= r <= to && w == write + (r - from)
      invariant forall k :: 0 <= k < write ==> path[k] == old(path[k])
      invariant forall k :: write <= k < w ==> path[k] == s[k - write + from]
      invariant forall k :: r <= k < |s| ==> path[k] == s[k]
      invariant forall k :: |s| <= k < path.Length ==> path[k] == old(path[k])
    {
      path[w] := path[r];
      w := w + 1;
      r := r + 1;
    }
    Copied(path[..], old(path[..]), s, write, from, to);
  }

  /** What the copying loop leaves, in one piece. */
  lemma Copied(m: seq<char>, before: seq<char>, s: string, write: nat, from: nat, to: nat)
    requires write <= from <= to <= |s| < |m| == |before|
    requires forall k :: 0 <= k < write ==> m[k] == before[k]
    requires forall k :: write <= k < write + (to - from) ==> m[k] == s[k - write + from]
    requires forall k :: to <= k < |s| ==> m[k] == s[k]
    requires forall k :: |s| <= k < |m| ==> m[k] == before[k]
    ensures m[..write + (to - from)] == before[..write] + s[from..to]
    ensures m[to..|s|] == s[to..] && m[|s|..] == before[|s|..]
  {
  }

  /** What stands in the buffer for a stack, and a separator if `slash`. */
  function Output(stack: seq<Comp>, slash: bool): string {
    Render(stack) + if slash then "/" else ""
  }

  /** The first `write` characters are the output for the stack. */
  ghost predicate Written(path: array<char>, write: nat, stack: seq<Comp>, slash: bool)
    reads path
  {
    write <= path.Length && path[..write] == Output(stack, slash) && NoTerminator(Output(stack, slash))
  }

  /** The output for one more component. */
  lemma OutputPush(stack: seq<Comp>, c: Comp)
    ensures Output(stack, c.lead) + c.name == Output(stack + [c], false)
  {
    hide Render;
    RenderPush(stack, c);
    assert Render(stack) + (if c.lead then "/" else "") + c.name == Render(stack) + c.Text();
  }

  /** Copy an ordinary component behind the stack written so far. */
  method PushName(path: array<char>, write: nat, from: nat, to: nat, ghost s: string,
                  ghost stack: seq<Comp>, ghost lead: bool) returns (w: nat)
    requires Unread(path, s, from) && write <= from < to <= |s| && Written(path, write, stack, lead)
    modifies path
    ensures Unread(path, s, to) && w <= to
    ensures Written(path, w, stack + [Comp(lead, s[from..to])], false)
    ensures path[|s|..] == old(path[|s|..])
  {
    hide Output, NoTerminator, Unread;
    ghost var c := Comp(lead, s[from..to]);
    UnreadIs(path, s, from);
    OutputPush(stack, c);
    NoTerminatorSlice(s, from, to);
    NoTerminatorParts(Output(stack, lead), c.name);
    w := CopyName(path, write, from, to, s);
  }

  /** The output of a stack ends in its last component and the separator. */
  lemma OutputLast(stack: seq<Comp>, lead: bool)
    requires Plain(stack) && stack != []
    ensures var c, base := stack[|stack| - 1], Render(stack[..|stack| - 1]);
            && Output(stack, lead) == base + c.Text() + (if lead then "/" else "")
            && c.name != "" && (forall i :: 0 <= i < |c.name| ==> c.name[i] != '/')
            && (!c.lead ==> base == "")
  {
    assert PlainName(stack[|stack| - 1].name);
  }

  /** Rewind the write position past the last component written, and the separator written behind it. */
  method Rewind(path: array<char>, write: nat, ghost stack: seq<Comp>, ghost lead: bool) returns (w: nat)
    requires Plain(stack) && Written(path, write, stack, lead) && (lead || stack == [])
    ensures w <= write && Written(path, w, if stack == [] then [] else stack[..|stack| - 1], false)
  {
    hide Plain, NoTerminator, Render, Output, Written;
    WrittenIs(path, write, stack, lead);
    ghost var kept := if stack == [] then [] else stack[..|stack| - 1];
    ghost var base, out := Render(kept), Output(stack, lead);
    ghost var c := if stack == [] then Comp(false, "") else stack[|stack| - 1];
    ghost var low := |base| + if c.lead then 1 else 0;
    EmptyOutput(lead);
    if stack != [] {
      OutputLast(stack, lead);
    }
    w := if write >= 2 then write - 2 else 0;
    while w > 0
      invariant low <= w < low + |c.name| || (stack == [] && w == 0)
    {
      w := w - 1;
      assert path[w] == out[w];
      if path[w] == '/' {
        break;
      }
    }
    Rewound(path, write, stack, lead, kept, w);
  }

  lemma EmptyOutput(slash: bool)
    ensures Render([]) == "" && Output([], slash) == if slash then "/" else ""
  {
  }

  /** A front part of the output is the output for a front part of the stack. */
  lemma Rewound(path: array<char>, write: nat, stack: seq<Comp>, slash: bool, kept: seq<Comp>, w: nat)
    requires Written(path, write, stack, slash) && w <= write && w == |Render(kept)|
    requires Render(kept) <= Output(stack, slash)
    ensures Written(path, w, kept, false)
  {
    hide Render, NoTerminator;
    assert path[..w] == path[..write][..w] == Render(kept);
    assert Output(kept, false) == Render(kept);
    NoTerminatorParts(Render(kept), Output(stack, slash)[w..]);
    assert Output(stack, slash) == Render(kept) + Output(stack, slash)[w..];
  }

  /** Treat the component in [from, to): ignore ".", rewind for "..", copy anything else. */
  method TakeComponent(path: array<char>, write: nat, from: nat, to: nat, ghost s: string,
                       ghost stack: seq<Comp>, ghost lead: bool) returns (w: nat)
    requires Unread(path, s, from) && write <= from < to <= |s|
    requires Plain(stack) && Written(path, write, stack, lead) && (lead || stack == [])
    modifies path
    ensures Unread(path, s, to) && w <= to
    ensures Written(path, w, Apply(stack, Comp(lead, s[from..to])), false)
    ensures path[|s|..] == old(path[|s|..])
  {
    hide Plain, Render, NoTerminator, Output, Unread, Written;
    ghost var c := Comp(lead, s[from..to]);
    UnreadIs(path, s, from);
    UnreadAt(path, s, from, from);
    UnreadAt(path, s, from, from + 1);
    UnreadTail(path, s, from, to);
    w := write;
    var len := to - from;
    if len == 1 && path[from] == '.' {
      assert c.name == ".";
      WrittenIs(path, write, stack, lead);
      if w > 0 {
        w := w - 1;
      }
      DropSeparator(path, write, stack, lead, w);
    } else if len == 2 && path[from] == '.' && path[from + 1] == '.' {
      assert c.name == "..";
      w := Rewind(path, write, stack, lead);
    } else {
      assert c.name != "." && c.name != "..";
      w := PushName(path, write, from, to, s, stack, lead);
    }
  }

  lemma WrittenIs(path: array<char>, write: nat, stack: seq<Comp>, slash: bool)
    requires Written(path, write, stack, slash)
    ensures write <= path.Length && path[..write] == Output(stack, slash) && NoTerminator(Output(stack, slash))
  {
  }

  /** Without its separator the output is that for the stack alone. */
  lemma DropSeparator(path: array<char>, write: nat, stack: seq<Comp>, slash: bool, w: nat)
    requires Written(path, write, stack, slash) && (slash || stack == [])
    requires w == if write > 0 then write - 1 else 0
    ensures Written(path, w, stack, false)
  {
    hide NoTerminator;
    assert path[..w] == path[..write][..w] == Render(stack);
    assert Render(stack) + "" == Render(stack);
    NoTerminatorParts(Render(stack), if slash then "/" else "");
  }

  lemma UnreadTail(path: array<char>, s: string, from: nat, to: nat)
    requires from <= to <= |s|
    ensures Unread(path, s, from) ==> Unread(path, s, to)
  {
    if Unread(path, s, from) {
      assert path[to..|s|] == path[from..|s|][to - from..];
    }
  }

  /** Write the separator of the next component and walk over the run it stands for. */
  method TakeSeparators(path: array<char>, write: nat, i: nat, ghost s: string, ghost stack: seq<Comp>) returns (j: nat)
    requires Unread(path, s, i) && write <= i < |s| && s[i] == '/' && Written(path, write, stack, false)
    modifies path
    ensures j == SkipSeparators(s, i) && Unread(path, s, j)
    ensures Written(path, write + 1, stack, true)
    ensures path[|s|..] == old(path[|s|..])
  {
    hide Render, NoTerminator;
    path[write] := '/';
    assert path[i + 1..|s|] == old(path[i..|s|])[1..];
    assert path[..write + 1] == old(path[..write]) + "/";
    OutputSlash(stack);
    NoTerminatorParts(Output(stack, false), "/");
    j := WalkSeparators(path, i + 1, s);
    UnreadTail(path, s, i + 1, j);
  }

  lemma OutputSlash(stack: seq<Comp>)
    ensures Output(stack, true) == Output(stack, false) + "/"
    ensures NoTerminator("/")
  {
    assert Render(stack) + "" == Render(stack);
  }

  /** Trim the last separator and terminate the string. */
  method Terminate(path: array<char>, write: nat, ghost n: nat, ghost stack: seq<Comp>, ghost slash: bool)
    requires write <= n < path.Length && Plain(stack) && Written(path, write, stack, slash)
    modifies path
    ensures |Render(stack)| <= n && Holds(path, Render(stack))
    ensures path[n + 1..] == old(path[n + 1..])
  {
    hide Render, NoTerminator, Plain, Written, Output;
    WrittenIs(path, write, stack, slash);
    LastOutput(stack, slash);
    ghost var out := Output(stack, slash);
    var w := write;
    assert w > 0 ==> path[w - 1] == out[w - 1];
    if w > 0 && path[w - 1] == '/' {
      w := w - 1;
    }
    assert path[..w] == path[..write][..w] == Render(stack);
    path[w] := '\0';
    assert path[..w] == old(path[..w]);
  }

  /** The output ends in a separator only if one was added to the stack's components. */
  lemma LastOutput(stack: seq<Comp>, slash: bool)
    requires Plain(stack) && NoTerminator(Output(stack, slash))
    ensures var out, text := Output(stack, slash), Render(stack);
            && NoTerminator(text) && text <= out
            && |text| == if out != "" && out[|out| - 1] == '/' then |out| - 1 else |out|
  {
    hide Render, NoTerminator;
    RenderEnd(stack);
    EmptyOutput(slash);
    NoTerminatorParts(Render(stack), if slash then "/" else "");
  }

  /** path_canonicalise: the buffer that holds `s` ends up holding its canonical form. */
  method PathCanonicalise(path: array<char>, ghost s: string)
    requires Holds(path, s)
    modifies path
    ensures |Canonical(s)| <= |s| && Holds(path, Canonical(s))
    ensures path[|s| + 1..] == old(path[|s| + 1..])
  {
    hide Written, Plain, Render, Split, Resolve, Apply, NoTerminator, Unread, Output;
    UnreadStart(path, s);
    assert old(path[|s| + 1..]) == old(path[|s|..])[1..];
    var readStart, readEnd, write: nat := 0, 0, 0;
    ghost var stack: seq<Comp> := [];
    ghost var slash := false;
    StartState(path, s);
    UnreadAt(path, s, 0, 0);
    while path[readStart] != '\0'
      invariant readStart <= |s| && Unread(path, s, readStart) && readEnd == readStart && write <= readStart
      invariant readStart == 0 || readStart == |s| || s[readStart] == '/'
      invariant readStart == 0 ==> stack == []
      invariant slash ==> readStart == |s|
      invariant path[readStart] == if readStart < |s| then s[readStart] else '\0'
      invariant readStart < |s| ==> s[readStart] != '\0'
      invariant Plain(stack) && Written(path, write, stack, slash)
      invariant Resolve(Split(s, readStart), stack) == Resolve(Split(s, 0), [])
      invariant path[|s|..] == old(path[|s|..])
      decreases |s| - readStart
    {
      ghost var i := readStart;
      ghost var lead := s[i] == '/';
      if path[readEnd] == '/' {
        readEnd := TakeSeparators(path, write, readEnd, s, stack);
        write := write + 1;
        readStart := readEnd;
      }
      readEnd := WalkName(path, readEnd, s);
      if readStart != readEnd {
        ghost var c := Comp(lead, s[readStart..readEnd]);
        ResolveStep(s, i, readStart, readEnd, stack, c);
        write := TakeComponent(path, write, readStart, readEnd, s, stack, lead);
        readStart := readEnd;
        ApplyPlain(stack, c);
        stack := Apply(stack, c);
      } else {
        slash := lead;
        ResolveEnd(s, i, stack);
      }
      UnreadAt(path, s, readStart, readStart);
    }
    ResolveEnd(s, readStart, stack);
    assert path[|s|..][1..] == path[|s| + 1..];
    Terminate(path, write, |s|, stack, slash);
  }

  lemma UnreadStart(path: array<char>, s: string)
    requires Holds(path, s)
    ensures Unread(path, s, 0) && |s| < path.Length
  {
    assert path[0..|s|] == path[..|s|];
  }

  /** Taking the component in [b, e) is one step of the stack. */
  lemma ResolveStep(s: string, i: nat, b: nat, e: nat, stack: seq<Comp>, c: Comp)
    requires i <= b < e <= |s| && SkipSeparators(s, i) == b && NameEnd(s, b) == e
    requires c == Comp(s[i] == '/', s[b..e])
    ensures Resolve(Split(s, i), stack) == Resolve(Split(s, e), Apply(stack, c))
  {
    SplitStep(s, i, b, e);
    assert ([c] + Split(s, e))[1..] == Split(s, e);
  }

  /** Only separators are left: the stack is final. */
  lemma ResolveEnd(s: string, i: nat, stack: seq<Comp>)
    requires i <= |s|
    ensures SkipSeparators(s, i) == |s| ==> Resolve(Split(s, i), stack) == stack == Resolve(Split(s, |s|), stack)
    ensures SkipSeparators(s, |s|) == |s|
  {
  }

  lemma StartState(path: array<char>, s: string)
    requires Holds(path, s)
    ensures Unread(path, s, 0) && Plain([]) && Written(path, 0, [], false)
  {
    assert path[0..|s|] == path[..|s|];
  }

  lemma ApplyPlain(stack: seq<Comp>, c: Comp)
    requires Plain(stack) && c.name != "" && (c.lead || stack == [])
    requires forall i :: 0 <= i < |c.name| ==> c.name[i] != '/'
    ensures Plain(Apply(stack, c))
  {
  }
}
