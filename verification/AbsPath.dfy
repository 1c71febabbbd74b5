/** `abspath`: one buffer, a reading and a writing pointer, against a stack of components. */
module AbsPath {
  const SLASH := '/'
  const BACKSLASH := '\\'
  const EOS := '\0'

  predicate IsSep(c: char) { c == SLASH || c == BACKSLASH }

  ghost predicate Clean(s: string) { forall i :: 0 <= i < |s| ==> s[i] != EOS }

  // ----------------------------------------------------- the stack machine

  /** The length of the run of other characters that `s` starts with. */
  function Span(s: string): (k: nat)
    ensures k <= |s| && (forall i :: 0 <= i < k ==> !IsSep(s[i])) && (k < |s| ==> IsSep(s[k]))
  {
    if s == "" || IsSep(s[0]) then 0 else 1 + Span(s[1..])
  }

  /** The components of a path: what lies between separators, without the empty ones. */
  function Components(s: string): seq<string>
    decreases |s|
  {
    if s == "" then []
    else if IsSep(s[0]) then Components(s[1..])
    else [s[..Span(s)]] + Components(s[Span(s)..])
  }

  function Up(stack: seq<string>): seq<string> { if stack == [] then [] else stack[..|stack| - 1] }

  /** `.` stays, `..` goes up but not above the root, any other name goes down. */
  function Step(stack: seq<string>, comp: string): seq<string> {
    if comp == "." then stack
    else if comp == ".." then Up(stack)
    else stack + [comp]
  }

  function Walk(stack: seq<string>, comps: seq<string>): seq<string>
    decreases |comps|
  {
    if comps == [] then stack else Walk(Step(stack, comps[0]), comps[1..])
  }

  /** The root, then each component followed by a slash. */
  function Trail(root: char, stack: seq<string>): (s: string)
    ensures |s| > 0 && s[0] == root
    decreases |stack|
  {
    if stack == [] then [root] else Trail(root, stack[..|stack| - 1]) + stack[|stack| - 1] + [SLASH]
  }

  /** The path as it ends up: no slash at the end, but for the root itself. */
  function Render(root: char, stack: seq<string>): string {
    var s := Trail(root, stack);
    if stack == [] then s else s[..|s| - 1]
  }

  /** What `abspath` promises for an absolute path. */
  function Canonical(s: string): string
    requires s != ""
  {
    Render(s[0], Walk([], Components(s)))
  }

  // ------------------------------------------------------------- canonical

  ghost predicate Proper(comp: string) {
    comp != "" && comp != "." && comp != ".." && forall i :: 0 <= i < |comp| ==> !IsSep(comp[i])
  }

  ghost predicate AllProper(stack: seq<string>) { forall i :: 0 <= i < |stack| ==> Proper(stack[i]) }

  ghost predicate Plain(comps: seq<string>) {
    forall i :: 0 <= i < |comps| ==> comps[i] != "" && forall j :: 0 <= j < |comps[i]| ==> !IsSep(comps[i][j])
  }

  lemma {:induction false} ComponentsPlain(s: string)
    ensures Plain(Components(s))
    decreases |s|
  {
    if s == "" {
    } else if IsSep(s[0]) {
      ComponentsPlain(s[1..]);
    } else {
      ComponentsPlain(s[Span(s)..]);
    }
  }

  lemma {:induction false} WalkProper(stack: seq<string>, comps: seq<string>)
    requires AllProper(stack) && Plain(comps)
    ensures AllProper(Walk(stack, comps))
    decreases |comps|
  {
    if comps != [] {
      WalkProper(Step(stack, comps[0]), comps[1..]);
    }
  }

  lemma {:induction false} WalkKeepsProper(stack: seq<string>, comps: seq<string>)
    requires AllProper(comps)
    ensures Walk(stack, comps) == stack + comps
    decreases |comps|
  {
    if comps != [] {
      WalkKeepsProper(stack + [comps[0]], comps[1..]);
      assert stack + [comps[0]] + comps[1..] == stack + comps;
    }
  }

  lemma {:induction false} ComponentsAppend(s: string, u: string)
    requires s == "" || IsSep(s[|s| - 1])
    ensures Components(s + u) == Components(s) + Components(u)
    decreases |s|
  {
    hide Span;
    if s == "" {
      assert s + u == u;
    } else if IsSep(s[0]) {
      assert (s + u)[1..] == s[1..] + u;
      ComponentsAppend(s[1..], u);
    } else {
      SpanAppend(s, u);
      var k := Span(s);
      assert (s + u)[..k] == s[..k] && (s + u)[k..] == s[k..] + u;
      ComponentsAppend(s[k..], u);
    }
  }

  lemma {:induction false} SpanAppend(s: string, u: string)
    requires s != "" && IsSep(s[|s| - 1])
    ensures Span(s + u) == Span(s) < |s| && (!IsSep(s[0]) ==> Span(s) > 0)
  {
    if !IsSep(s[0]) {
      assert (s + u)[1..] == s[1..] + u;
      SpanAppend(s[1..], u);
    }
  }

  lemma {:induction false} ComponentOfOne(comp: string)
    requires comp != "" && forall i :: 0 <= i < |comp| ==> !IsSep(comp[i])
    ensures Components(comp + [SLASH]) == [comp] == Components(comp)
  {
    SpanWhole(comp, [SLASH]);
    SpanWhole(comp, "");
    assert comp + "" == comp;
    assert (comp + [SLASH])[|comp|..] == [SLASH] && (comp + [SLASH])[..|comp|] == comp && comp[..|comp|] == comp;
    assert Components([SLASH]) == [] by { assert [SLASH][1..] == ""; }
  }

  lemma {:induction false} SpanWhole(comp: string, u: string)
    requires forall i :: 0 <= i < |comp| ==> !IsSep(comp[i])
    requires u == "" || IsSep(u[0])
    ensures Span(comp + u) == |comp|
  {
    if comp == "" {
      assert comp + u == u;
    } else {
      assert (comp + u)[1..] == comp[1..] + u;
      SpanWhole(comp[1..], u);
    }
  }

  /** Reading back what was written gives the same components, with the last slash or without. */
  lemma {:induction false} TrailComponents(root: char, stack: seq<string>)
    requires IsSep(root) && AllProper(stack)
    ensures Components(Trail(root, stack)) == stack && Components(Render(root, stack)) == stack
    ensures IsSep(Trail(root, stack)[|Trail(root, stack)| - 1])
    decreases |stack|
  {
    RootComponents(root);
    hide Components;
    if stack != [] {
      var front, last := stack[..|stack| - 1], stack[|stack| - 1];
      TrailComponents(root, front);
      assert Proper(last);
      OneMore(Trail(root, front), front, last);
      assert Trail(root, stack) == Trail(root, front) + (last + [SLASH]);
      assert Render(root, stack) == Trail(root, front) + last;
      assert front + [last] == stack;
    }
  }

  lemma RootComponents(root: char)
    requires IsSep(root)
    ensures Components([root]) == []
  {
    assert [root][1..] == "";
  }

  lemma OneMore(s: string, front: seq<string>, last: string)
    requires s != "" && IsSep(s[|s| - 1]) && Components(s) == front && Proper(last)
    ensures Components(s + (last + [SLASH])) == front + [last] == Components(s + last)
  {
    hide Components;
    ComponentOfOne(last);
    ComponentsAppend(s, last + [SLASH]);
    ComponentsAppend(s, last);
  }

  /** The result names only proper components, in order, and a second pass changes nothing. */
  lemma CanonicalIsFixed(s: string)
    requires s != "" && IsSep(s[0])
    ensures var stack := Walk([], Components(s));
            AllProper(stack) && Components(Canonical(s)) == stack
    ensures Canonical(s) != "" && Canonical(Canonical(s)) == Canonical(s)
  {
    var stack := Walk([], Components(s));
    ComponentsPlain(s);
    WalkProper([], Components(s));
    TrailComponents(s[0], stack);
    RenderRoot(s[0], stack);
    WalkKeepsProper([], stack);
    assert [] + stack == stack;
  }

  lemma {:induction false} RenderRoot(root: char, stack: seq<string>)
    requires AllProper(stack)
    ensures Render(root, stack) != "" && Render(root, stack)[0] == root
  {
    if stack != [] {
      assert Proper(stack[|stack| - 1]);
    }
  }

  /** `a/..` is nothing, wherever it stands below another name. */
  lemma {:induction false} UpCancelsDown(stack: seq<string>, comp: string, rest: seq<string>)
    requires Proper(comp)
    ensures Walk(stack, [comp, ".."] + rest) == Walk(stack, rest)
  {
    var all := [comp, ".."] + rest;
    assert all[1..][1..] == rest;
    assert Step(Step(stack, comp), "..") == stack;
  }

  // --------------------------------------------------------- the algorithm

  /** What is left to read from position `c` on. */
  function Rest(src: string, c: nat): string
    requires c < |src| - 1
  {
    src[c + 1..|src| - 1]
  }

  /** The text that the buffer starts with. */
  ghost predicate Source(src: string) {
    && |src| >= 3 && IsSep(src[0]) && src[|src| - 2] == SLASH && src[|src| - 1] == EOS
    && (forall i :: 0 <= i < |src| - 1 ==> src[i] != EOS)
  }

  /** The buffer is as it was behind `c`, but that the separator next to `c` may have become a slash. */
  ghost predicate Unread(buf: seq<char>, src: string, c: nat, t: nat)
    requires |buf| == |src|
  {
    && (forall i :: c < i < |src| && i > t ==> buf[i] == src[i])
    && t <= c + 1 && (t == c + 1 ==> t < |src| && IsSep(src[t]) && IsSep(buf[t]))
  }

  /** Separators next to the reading pointer are skipped. */
  lemma SkipSep(src: string, c: nat)
    requires c + 1 < |src| - 1 && IsSep(src[c + 1])
    ensures Components(Rest(src, c)) == Components(Rest(src, c + 1))
  {
    assert Rest(src, c)[1..] == Rest(src, c + 1);
  }

  /** The next component ends before the separator at `c + 1 + k`. */
  lemma NextComponent(src: string, c: nat, k: nat)
    requires 0 < k && c + 1 + k < |src| - 1 && (forall i :: c < i <= c + k ==> !IsSep(src[i])) && IsSep(src[c + 1 + k])
    ensures Components(Rest(src, c)) == [src[c + 1..c + 1 + k]] + Components(Rest(src, c + k))
  {
    var r := Rest(src, c);
    SpanWhole(r[..k], r[k..]);
    assert r == r[..k] + r[k..] && r[..k] == src[c + 1..c + 1 + k] && r[k..] == Rest(src, c + k);
  }

  lemma WalkOne(stack: seq<string>, comp: string, rest: seq<string>)
    ensures Walk(stack, [comp] + rest) == Walk(Step(stack, comp), rest)
  {
    assert ([comp] + rest)[1..] == rest;
  }

  /** A source has a separator at or behind any position but the last. */
  lemma {:induction false} SpanEnds(src: string, c: nat) returns (k: nat)
    requires Source(src) && c + 1 < |src| - 1
    ensures c + 1 + k < |src| - 1 && IsSep(src[c + 1 + k]) && forall i :: c < i <= c + k ==> !IsSep(src[i])
    decreases |src| - c
  {
    if IsSep(src[c + 1]) {
      k := 0;
    } else {
      k := SpanEnds(src, c + 1);
      k := k + 1;
    }
  }

  /** A component of `k` characters lies behind `c`, and `t` is not beyond. */
  ghost predicate CanCopy(buf: seq<char>, src: string, c: nat, t: nat, k: nat) {
    && |buf| == |src| && Source(src) && Unread(buf, src, c, t) && 0 < k && c + 1 + k < |src| - 1 && t <= c
    && IsSep(src[c + 1 + k]) && forall i :: c < i <= c + k ==> !IsSep(src[i])
  }

  /** It has been copied behind `t`, with a slash. */
  ghost predicate Copied(buf: seq<char>, buf': seq<char>, src: string, c: nat, t: nat, k: nat) {
    && |buf'| == |buf| == |src| && t <= c && c + 1 + k < |src| && Unread(buf', src, c + k, t + k + 1)
    && buf'[..t + k + 2] == buf[..t + 1] + src[c + 1..c + 1 + k] + [SLASH]
  }

  /** Copies the component behind `c` down behind `t`, and puts a slash. */
  method CopyDown(buf: array<char>, c0: nat, t0: nat, ghost src: string, ghost k: nat) returns (c: nat, t: nat)
    requires CanCopy(buf[..], src, c0, t0, k)
    modifies buf
    ensures 0 < k && c == c0 + k && t == t0 + k + 1 && Copied(old(buf[..]), buf[..], src, c0, t0, k)
  {
    c, t := c0, t0;
    while !IsSep(buf[c + 1])
      invariant c0 <= c <= c0 + k && t - t0 == c - c0
      invariant forall i :: c < i < |src| ==> buf[i] == src[i]
      invariant buf[..t + 1] == old(buf[..t0 + 1]) + src[c0 + 1..c + 1]
      decreases c0 + k - c
    {
      t, c := t + 1, c + 1;
      buf[t] := buf[c];
      assert buf[..t + 1] == buf[..t] + [buf[t]];
    }
    t := t + 1;
    buf[t] := SLASH;
    assert buf[..t + 1] == buf[..t] + [SLASH];
  }

  /** Takes the write pointer back to the separator before the last component. */
  method Back(buf: array<char>, t0: nat, ghost root: char, ghost stack: seq<string>) returns (t: nat)
    requires t0 < buf.Length && buf[..t0 + 1] == Trail(root, stack) && AllProper(stack) && IsSep(root)
    ensures t <= t0 && buf[..t + 1] == Trail(root, Up(stack))
  {
    ghost var low := |Trail(root, Up(stack))| - 1;
    BackTo(buf[..t0 + 1], root, stack);
    t := t0;
    while t > 0
      invariant low <= t <= t0 && (t == low ==> t == t0 == 0)
    {
      t := t - 1;
      if IsSep(buf[t]) {
        break;
      }
    }
    assert buf[..t0 + 1][..t + 1] == buf[..t + 1];
  }

  /** Where the last component starts. */
  lemma BackTo(s: string, root: char, stack: seq<string>)
    requires s == Trail(root, stack) && AllProper(stack) && IsSep(root)
    ensures var front := Trail(root, Up(stack));
            && |front| <= |s| && s[..|front|] == front && IsSep(s[|front| - 1])
            && (forall i :: |front| <= i < |s| - 1 ==> !IsSep(s[i]))
            && (stack == [] ==> |front| == |s| == 1) && (stack != [] ==> |front| < |s| - 1)
  {
    TrailComponents(root, Up(stack));
    if stack != [] {
      var front, last := Trail(root, Up(stack)), stack[|stack| - 1];
      assert Proper(last);
      assert s == front + last + [SLASH];
      assert s[..|front|] == front;
      forall i | |front| <= i < |s| - 1 ensures s[i] == last[i - |front|] {}
    }
  }

  /** The next component has `k` characters; what walking on from there means for the stack. */
  ghost predicate Leads(src: string, c: nat, stack: seq<string>, k: nat) {
    && c + 1 + k < |src| - 1 && IsSep(src[c + 1 + k]) && (k == 0 <==> IsSep(src[c + 1]))
    && (forall i :: c < i <= c + k ==> !IsSep(src[i]))
    && var now := Walk(stack, Components(Rest(src, c)));
       if k == 0 then now == Walk(stack, Components(Rest(src, c + 1)))
       else if k == 1 && src[c + 1] == '.' then now == Walk(stack, Components(Rest(src, c + 2)))
       else if k == 2 && src[c + 1] == src[c + 2] == '.' then now == Walk(Up(stack), Components(Rest(src, c + 3)))
       else Proper(src[c + 1..c + 1 + k]) && now == Walk(stack + [src[c + 1..c + 1 + k]], Components(Rest(src, c + k)))
  }

  /** What the four branches of the loop do to the path still to be walked. */
  lemma Turn(src: string, c: nat, stack: seq<string>) returns (k: nat)
    requires Source(src) && c + 1 < |src| - 1
    ensures Leads(src, c, stack, k)
  {
    hide Components, Walk, Rest;
    k := SpanEnds(src, c);
    if k == 0 {
      SkipSep(src, c);
    } else {
      var comp := src[c + 1..c + 1 + k];
      NextComponent(src, c, k);
      WalkOne(stack, comp, Components(Rest(src, c + k)));
      SkipSep(src, c + k);
      assert comp == "." <==> k == 1 && src[c + 1] == '.';
      assert comp == ".." <==> k == 2 && src[c + 1] == src[c + 2] == '.' by {
        if k == 2 {
          assert comp == [src[c + 1], src[c + 2]];
        }
      }
    }
  }

  lemma {:induction false} TrailingSlash(u: string)
    ensures Components(u + [SLASH]) == Components(u)
    decreases |u|
  {
    if u == "" {
      assert u + [SLASH] == [SLASH] && [SLASH][1..] == "";
    } else if IsSep(u[0]) {
      assert (u + [SLASH])[1..] == u[1..] + [SLASH];
      TrailingSlash(u[1..]);
    } else {
      var k := Span(u);
      SpanWhole(u[..k], u[k..] + [SLASH]);
      assert u[..k] + (u[k..] + [SLASH]) == u + [SLASH];
      assert (u + [SLASH])[..k] == u[..k] && (u + [SLASH])[k..] == u[k..] + [SLASH];
      TrailingSlash(u[k..]);
    }
  }

  /** The path to be walked, without the slash put behind it. */
  lemma WholePath(src: string)
    requires Source(src)
    ensures Components(Rest(src, 0)) == Components(src[..|src| - 2])
  {
    var s := src[..|src| - 2];
    assert Rest(src, 0) == s[1..] + [SLASH];
    TrailingSlash(s[1..]);
  }

  /** The branch taken on the buffer is the one the source text calls for. */
  lemma SeenAlike(buf: seq<char>, src: string, c: nat, t: nat, k: nat)
    requires |buf| == |src| && Source(src) && Unread(buf, src, c, t) && c + 1 + k < |src| - 1 && IsSep(src[c + 1 + k])
    requires (k == 0 <==> IsSep(src[c + 1])) && forall i :: c < i <= c + k ==> !IsSep(src[i])
    ensures buf[c + 1] != EOS && (k == 0 <==> IsSep(buf[c + 1])) && (k > 0 ==> t <= c)
    ensures k > 0 ==> (buf[c + 1] == '.' && IsSep(buf[c + 2]) <==> k == 1 && src[c + 1] == '.')
    ensures k > 0 && !(buf[c + 1] == '.' && IsSep(buf[c + 2])) ==>
              (buf[c + 1] == '.' && buf[c + 2] == '.' && IsSep(buf[c + 3]) <==> k == 2 && src[c + 1] == src[c + 2] == '.')
  {}

  /** The path walked so far is written out up to `t`; walking the rest gives `goal`. */
  ghost predicate Walked(buf: seq<char>, src: string, c: nat, t: nat, stack: seq<string>, goal: seq<string>) {
    && |buf| == |src| && c + 1 < |src| && Unread(buf, src, c, t)
    && t < |src| && buf[..t + 1] == Trail(src[0], stack) && AllProper(stack)
    && Walk(stack, Components(Rest(src, c))) == goal
  }

  /** The two branches that only read. */
  lemma TurnReads(buf: seq<char>, src: string, c: nat, t: nat, stack: seq<string>, goal: seq<string>, k: nat)
    requires Source(src) && c + 1 < |src| - 1 && Walked(buf, src, c, t, stack, goal) && Leads(src, c, stack, k)
    ensures k == 0 ==> Walked(buf, src, c + 1, t, stack, goal)
    ensures k == 1 && src[c + 1] == '.' ==> Walked(buf, src, c + 2, t, stack, goal)
  {
    SeenAlike(buf, src, c, t, k);
    hide Components, Walk, Trail;
  }

  /** The branch of `..`. */
  method TurnUp(buf: array<char>, c0: nat, t0: nat, ghost src: string, ghost stack: seq<string>, ghost goal: seq<string>) returns (c: nat, t: nat)
    requires Source(src) && c0 + 3 < |src| - 1 && Walked(buf[..], src, c0, t0, stack, goal) && Leads(src, c0, stack, 2)
    requires src[c0 + 1] == src[c0 + 2] == '.'
    ensures c == c0 + 3 && Walked(buf[..], src, c, t, Up(stack), goal)
  {
    SeenAlike(buf[..], src, c0, t0, 2);
    hide Components, Walk, Trail, Proper;
    c := c0 + 3;
    t := Back(buf, t0, src[0], stack);
  }

  lemma LeadsDown(src: string, c: nat, stack: seq<string>, k: nat)
    requires c + 1 + k < |src| - 1 && Leads(src, c, stack, k) && k > 0 && Proper(src[c + 1..c + 1 + k])
    ensures Walk(stack, Components(Rest(src, c))) == Walk(stack + [src[c + 1..c + 1 + k]], Components(Rest(src, c + k)))
    ensures IsSep(src[c + 1 + k]) && forall i :: c < i <= c + k ==> !IsSep(src[i])
  {
    hide Components, Walk, Rest;
    var comp := src[c + 1..c + 1 + k];
    assert k == 1 && src[c + 1] == '.' ==> comp == ".";
    assert k == 2 && src[c + 1] == src[c + 2] == '.' ==> comp == "..";
  }

  /** What copying a proper component does to the walk. */
  lemma CopiedWalked(buf: seq<char>, buf': seq<char>, src: string, c: nat, t: nat, stack: seq<string>, goal: seq<string>, k: nat)
    requires Walked(buf, src, c, t, stack, goal) && Copied(buf, buf', src, c, t, k) && c + 1 + k < |src| - 1
    requires k > 0 && Leads(src, c, stack, k) && Proper(src[c + 1..c + 1 + k])
    ensures Walked(buf', src, c + k, t + k + 1, stack + [src[c + 1..c + 1 + k]], goal)
  {
    LeadsDown(src, c, stack, k);
    TrailDown(src[0], stack, src[c + 1..c + 1 + k]);
    hide Components, Walk, Trail, Proper, Unread, Rest;
    assert t + k + 1 < |src|;
  }

  /** The branch of a proper component. */
  method TurnDown(buf: array<char>, c0: nat, t0: nat, ghost src: string, ghost stack: seq<string>, ghost goal: seq<string>, ghost k: nat)
    returns (c: nat, t: nat)
    requires CanCopy(buf[..], src, c0, t0, k) && Walked(buf[..], src, c0, t0, stack, goal) && Leads(src, c0, stack, k)
    requires Proper(src[c0 + 1..c0 + 1 + k])
    modifies buf
    ensures c > c0 && Walked(buf[..], src, c, t, stack + [src[c0 + 1..c0 + 1 + k]], goal)
  {
    hide Walked, Copied, Proper, Source, Unread, Leads;
    ghost var was := buf[..];
    c, t := CopyDown(buf, c0, t0, src, k);
    CopiedWalked(was, buf[..], src, c0, t0, stack, goal, k);
  }

  /** The body of the loop of `abspath`. */
  method Advance(buf: array<char>, c0: nat, t0: nat, ghost src: string, ghost stack: seq<string>, ghost goal: seq<string>)
    returns (c: nat, t: nat, ghost stack': seq<string>)
    requires Source(src) && c0 + 1 < |src| - 1 && Walked(buf[..], src, c0, t0, stack, goal)
    modifies buf
    ensures c > c0 && Walked(buf[..], src, c, t, stack', goal)
  {
    ghost var k := Turn(src, c0, stack);
    SeenAlike(buf[..], src, c0, t0, k);
    TurnReads(buf[..], src, c0, t0, stack, goal, k);
    hide Walked, Leads, Proper;
    c, t, stack' := c0, t0, stack;
    if IsSep(buf[c + 1]) {
      c := c + 1;
    } else if buf[c + 1] == '.' && IsSep(buf[c + 2]) {
      c := c + 2;
    } else if buf[c + 1] == '.' && buf[c + 2] == '.' && IsSep(buf[c + 3]) {
      c, t := TurnUp(buf, c, t, src, stack, goal);
      stack' := Up(stack);
    } else {
      stack' := stack + [src[c0 + 1..c0 + 1 + k]];
      c, t := TurnDown(buf, c, t, src, stack, goal, k);
    }
  }

  /** The loop of `abspath`. */
  method Squeeze(buf: array<char>, ghost src: string) returns (t: nat)
    requires buf[..] == src && Source(src)
    modifies buf
    ensures t < |src| - 1 && buf[..t + 1] == Trail(src[0], Walk([], Components(Rest(src, 0))))
  {
    ghost var goal, stack := Walk([], Components(Rest(src, 0))), [];
    var c: nat := 0;
    t := 0;
    while buf[c + 1] != EOS
      invariant buf.Length == |src| && Walked(buf[..], src, c, t, stack, goal)
      decreases |src| - c
    {
      c, t, stack := Advance(buf, c, t, src, stack, goal);
    }
    assert Rest(src, c) == "";
  }

  lemma TrailDown(root: char, stack: seq<string>, comp: string)
    ensures Trail(root, stack + [comp]) == Trail(root, stack) + comp + [SLASH]
  {
    assert (stack + [comp])[..|stack|] == stack;
  }

  /** `abspath`, from where the buffer holds the path, a slash and the end mark. */
  method Normalise(buf: array<char>, ghost src: string) returns (len: nat)
    requires buf[..] == src && Source(src)
    modifies buf
    ensures len < buf.Length && buf[len] == EOS && buf[..len] == Canonical(src[..|src| - 2])
  {
    WholePath(src);
    var t := Squeeze(buf, src);
    ghost var done := buf[..t + 1];
    if t > 0 {
      buf[t] := EOS;
      len := t;
    } else {
      t := t + 1;
      buf[t] := EOS;
      len := t;
    }
    assert buf[..len] == done[..len];
    TrailLength(src[0], Walk([], Components(src[..|src| - 2])));
  }

  lemma TrailLength(root: char, stack: seq<string>)
    ensures |Trail(root, stack)| == 1 <==> stack == []
  {}

  /** `abspath`, whole; `pwd` is the absolute path of the current directory. */
  method AbsolutePath(pwd: string, path: string) returns (buf: array<char>, len: nat)
    requires pwd != "" && IsSep(pwd[0]) && Clean(pwd) && Clean(path)
    ensures fresh(buf) && len < buf.Length && buf[len] == EOS
    ensures buf[..len] == Canonical(if path != "" && IsSep(path[0]) then path else pwd + [SLASH] + path)
  {
    var whole;
    if path == "" || !IsSep(path[0]) {
      whole := pwd + [SLASH] + path + [SLASH, EOS];
      assert whole[..|whole| - 2] == pwd + [SLASH] + path;
    } else {
      whole := path + [SLASH, EOS];
      assert whole[..|whole| - 2] == path;
    }
    buf := new char[|whole|](i requires 0 <= i < |whole| => whole[i]);
    assert buf[..] == whole;
    len := Normalise(buf, whole);
  }
}
