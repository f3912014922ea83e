/**
 * Model of the DLL-load callback registry of primedev/core/hooks.cpp: the
 * parser of an `ON_DLL_LOAD` dependency string, and the scheduler that runs
 * the callbacks registered for a freshly loaded library in dependency order.
 *
 * The callbacks themselves are foreign code: the model records which ones
 * ran, and in which order, instead of running them.
 */
module DllCallbacks {
  import opened Basics

  /* ----- the `reliesOn` string ----- */

  /** A character that ends a tag in the parenthesised form. */
  predicate ClosesTag(c: char) {
    c == ',' || c == ')'
  }

  /** A tag as the parser can produce it: no white space and no delimiter. */
  predicate Bare(t: string) {
    forall i :: 0 <= i < |t| ==> !IsSpace(t[i]) && !ClosesTag(t[i])
  }

  /** How many delimiters `s` holds: one tag is closed per delimiter. */
  function Delimiters(s: string): nat {
    if |s| == 0 then 0 else (if ClosesTag(s[0]) then 1 else 0) + Delimiters(s[1..])
  }

  /**
   * The tags closed while reading `s`, the partial tag `cur` being collected:
   * white space is dropped, a delimiter closes the current tag, any other
   * character is appended to it; an unclosed tail is dropped.
   */
  function SplitTags(s: string, cur: string): (tags: seq<string>)
    requires Bare(cur)
    ensures |tags| == Delimiters(s)
    ensures forall k :: 0 <= k < |tags| ==> Bare(tags[k])
  {
    if |s| == 0 then []
    else if IsSpace(s[0]) then SplitTags(s[1..], cur)
    else if ClosesTag(s[0]) then [cur] + SplitTags(s[1..], "")
    else SplitTags(s[1..], cur + [s[0]])
  }

  /**
   * The `reliesOn` argument of `__dllLoadCallback`: a string not starting
   * with `(` is one tag; otherwise the characters after the first are split.
   */
  function ParseReliesOn(reliesOn: string): (tags: seq<string>)
    ensures |reliesOn| == 0 ==> tags == []
    ensures |reliesOn| > 0 && reliesOn[0] != '(' ==> tags == [reliesOn]
    ensures |reliesOn| > 0 && reliesOn[0] == '(' ==>
              |tags| == Delimiters(reliesOn[1..]) && forall k :: 0 <= k < |tags| ==> Bare(tags[k])
  {
    if |reliesOn| > 0 && reliesOn[0] != '(' then [reliesOn]
    else if |reliesOn| == 0 then []
    else SplitTags(reliesOn[1..], "")
  }

  /** The tags written as `(a, b, c)`; no tags is the empty string. */
  function FormatReliesOn(tags: seq<string>): string {
    if |tags| == 0 then "" else "(" + JoinTags(tags)
  }

  function JoinTags(tags: seq<string>): string
    requires |tags| > 0
  {
    if |tags| == 1 then tags[0] + ")" else tags[0] + (", " + JoinTags(tags[1..]))
  }

  /** Characters of a bare tag are collected into the current one. */
  lemma {:induction false} SplitCollects(t: string, rest: string, cur: string)
    requires Bare(t) && Bare(cur)
    ensures Bare(cur + t)
    ensures SplitTags(t + rest, cur) == SplitTags(rest, cur + t)
    decreases |t|
  {
    if |t| == 0 {
      assert t + rest == rest;
      assert cur + t == cur;
    } else {
      assert (t + rest)[1..] == t[1..] + rest;
      assert Bare(cur + [t[0]]);
      SplitCollects(t[1..], rest, cur + [t[0]]);
      assert cur + [t[0]] + t[1..] == cur + t;
    }
  }

  lemma {:induction false} SplitJoined(tags: seq<string>)
    requires |tags| > 0
    requires forall k :: 0 <= k < |tags| ==> Bare(tags[k])
    ensures SplitTags(JoinTags(tags), "") == tags
    decreases |tags|
  {
    var t := tags[0];
    if |tags| == 1 {
      SplitCollects(t, ")", "");
      assert "" + t == t;
      assert ")"[1..] == "";
    } else {
      var rest := JoinTags(tags[1..]);
      SplitCollects(t, ", " + rest, "");
      assert "" + t == t;
      assert (", " + rest)[1..] == " " + rest;
      assert (" " + rest)[1..] == rest;
      SplitJoined(tags[1..]);
      assert tags == [t] + tags[1..];
    }
  }

  /** Writing a list of bare tags and parsing it back gives the same list. */
  lemma ReliesOnRoundTrip(tags: seq<string>)
    requires forall k :: 0 <= k < |tags| ==> Bare(tags[k])
    ensures ParseReliesOn(FormatReliesOn(tags)) == tags
  {
    if |tags| > 0 {
      SplitJoined(tags);
      assert FormatReliesOn(tags)[1..] == JoinTags(tags);
    }
  }

  /** `()` is one empty tag, which no callback ever provides. */
  lemma EmptyParenthesesExample()
    ensures ParseReliesOn("()") == [""]
  {
    assert "()"[1..] == ")";
    assert ")"[1..] == "";
  }

  /** `s` without its white space. */
  function RemoveSpaces(s: string): (r: string)
    ensures forall i :: 0 <= i < |r| ==> !IsSpace(r[i])
  {
    if |s| == 0 then "" else (if IsSpace(s[0]) then "" else [s[0]]) + RemoveSpaces(s[1..])
  }

  /** White space anywhere in the list, even inside a tag, makes no difference. */
  lemma {:induction false} SplitIgnoresSpaces(s: string, cur: string)
    requires Bare(cur)
    ensures SplitTags(s, cur) == SplitTags(RemoveSpaces(s), cur)
    decreases |s|
  {
    if |s| > 0 {
      var r := RemoveSpaces(s);
      if IsSpace(s[0]) {
        assert r == RemoveSpaces(s[1..]);
        SplitIgnoresSpaces(s[1..], cur);
      } else {
        assert r == [s[0]] + RemoveSpaces(s[1..]);
        assert r[0] == s[0] && r[1..] == RemoveSpaces(s[1..]);
        if ClosesTag(s[0]) {
          SplitIgnoresSpaces(s[1..], "");
        } else {
          assert Bare(cur + [s[0]]);
          SplitIgnoresSpaces(s[1..], cur + [s[0]]);
        }
      }
    }
  }

  /** Characters after the last delimiter never make a tag. */
  lemma SplitDropsUnclosedTail(rest: string, cur: string)
    requires Bare(cur)
    requires forall i :: 0 <= i < |rest| ==> !ClosesTag(rest[i])
    ensures SplitTags(rest, cur) == []
  {
    NoDelimiters(rest);
  }

  lemma {:induction false} NoDelimiters(s: string)
    requires forall i :: 0 <= i < |s| ==> !ClosesTag(s[i])
    ensures Delimiters(s) == 0
    decreases |s|
  {
    if |s| > 0 {
      NoDelimiters(s[1..]);
    }
  }

  /* ----- file names ----- */

  /** Both separators `std::filesystem` accepts on Windows. */
  predicate IsSeparator(c: char) {
    c == '/' || c == '\\'
  }

  /** `fs::path(path).filename()`: what follows the last separator. */
  function FileName(path: string): string {
    if |path| == 0 || IsSeparator(path[|path| - 1]) then ""
    else FileName(path[..|path| - 1]) + [path[|path| - 1]]
  }

  /** The file name is the longest separator-free suffix of the path. */
  lemma {:induction false} FileNameIsLastComponent(path: string)
    ensures var name := FileName(path);
      && |name| <= |path| && name == path[|path| - |name|..]
      && (forall i :: 0 <= i < |name| ==> !IsSeparator(name[i]))
      && (|name| < |path| ==> IsSeparator(path[|path| - |name| - 1]))
    decreases |path|
  {
    if |path| > 0 && !IsSeparator(path[|path| - 1]) {
      var init := path[..|path| - 1];
      FileNameIsLastComponent(init);
      var name := FileName(path);
      assert name == FileName(init) + [path[|path| - 1]];
      assert path[|path| - |name|..] == init[|init| - |FileName(init)|..] + [path[|path| - 1]];
    }
  }

  /** A directory prefix does not change the file name. */
  lemma {:induction false} FileNameIgnoresDirectory(dir: string, name: string)
    requires forall i :: 0 <= i < |name| ==> !IsSeparator(name[i])
    ensures FileName(dir + "/" + name) == name
    ensures FileName(dir + "\\" + name) == name
    decreases |name|
  {
    if |name| > 0 {
      var init := name[..|name| - 1];
      FileNameIgnoresDirectory(dir, init);
      assert (dir + "/" + name)[..|dir + "/" + name| - 1] == dir + "/" + init;
      assert (dir + "\\" + name)[..|dir + "\\" + name| - 1] == dir + "\\" + init;
      assert init + [name[|name| - 1]] == name;
    }
  }

  /* ----- the scheduler ----- */

  /** One registered callback (`DllLoadCallback`); the function pointer is left out. */
  datatype Callback = Callback(dll: string, tag: string, reliesOn: seq<string>, called: bool)

  /** The registered callbacks and the global `calledTags` list. */
  datatype Registry = Registry(callbacks: seq<Callback>, calledTags: seq<string>)

  /** A callback the loaded library `lib` concerns, and not yet run. */
  predicate Matches(lib: string, cb: Callback) {
    !cb.called && FileName(lib) == FileName(cb.dll)
  }

  /** Every tag the callback relies on has been produced. */
  predicate Ready(cb: Callback, calledTags: seq<string>) {
    forall t | t in cb.reliesOn :: t in calledTags
  }

  /** The tags of the callbacks at `ran`, in order. */
  function TagsOf(cbs: seq<Callback>, ran: seq<nat>): (tags: seq<string>)
    requires forall k :: 0 <= k < |ran| ==> ran[k] < |cbs|
    ensures |tags| == |ran|
    ensures forall k :: 0 <= k < |ran| ==> tags[k] == cbs[ran[k]].tag
  {
    if |ran| == 0 then [] else [cbs[ran[0]].tag] + TagsOf(cbs, ran[1..])
  }

  predicate Increasing(ran: seq<nat>) {
    forall a, b :: 0 <= a < b < |ran| ==> ran[a] < ran[b]
  }

  /** What one pass of the `for` loop did: the registry after it, the indices
      of the callbacks it ran, and whether it saw a blocked one. */
  datatype PassResult = PassResult(reg: Registry, ran: seq<nat>, blocked: bool)

  /**
   * The `for` loop from index `i`: a matching callback runs when it is ready
   * (its tag is appended and it is marked called, visibly to the callbacks
   * after it) and is otherwise skipped and clears `bDoneCalling`.
   */
  function PassFrom(lib: string, reg: Registry, i: nat): (p: PassResult)
    requires i <= |reg.callbacks|
    ensures |p.reg.callbacks| == |reg.callbacks|
    ensures forall x :: x in p.ran ==> i <= x < |reg.callbacks|
    decreases |reg.callbacks| - i
  {
    if i == |reg.callbacks| then PassResult(reg, [], false)
    else
      var cb := reg.callbacks[i];
      if !Matches(lib, cb) then PassFrom(lib, reg, i + 1)
      else if !Ready(cb, reg.calledTags) then PassFrom(lib, reg, i + 1).(blocked := true)
      else
        var p := PassFrom(lib, RunAt(reg, i), i + 1);
        p.(ran := [i] + p.ran)
  }

  /** Running the callback at `i`: its tag is appended and it is marked called. */
  function RunAt(reg: Registry, i: nat): (r: Registry)
    requires i < |reg.callbacks|
    ensures |r.callbacks| == |reg.callbacks|
    ensures r.callbacks[i].called
    ensures forall j :: 0 <= j < |reg.callbacks| && j != i ==> r.callbacks[j] == reg.callbacks[j]
    ensures r.calledTags == reg.calledTags + [reg.callbacks[i].tag]
  {
    Registry(reg.callbacks[i := reg.callbacks[i].(called := true)], reg.calledTags + [reg.callbacks[i].tag])
  }

  /** A pass runs callbacks in index order, so each at most once. */
  lemma {:induction false} PassIncreasing(lib: string, reg: Registry, i: nat)
    requires i <= |reg.callbacks|
    ensures Increasing(PassFrom(lib, reg, i).ran)
    decreases |reg.callbacks| - i
  {
    if i < |reg.callbacks| {
      var cb := reg.callbacks[i];
      if !Matches(lib, cb) {
        PassIncreasing(lib, reg, i + 1);
      } else if !Ready(cb, reg.calledTags) {
        PassIncreasing(lib, reg, i + 1);
      } else {
        PassIncreasing(lib, RunAt(reg, i), i + 1);
        var r := PassFrom(lib, RunAt(reg, i), i + 1).ran;
        assert forall k :: 0 <= k < |r| ==> r[k] in r;
        assert ([i] + r)[1..] == r;
      }
    }
  }

  /**
   * The callbacks a pass ran are exactly the ones it marked called; every
   * other entry is untouched, and a called flag never reverts.
   */
  lemma {:induction false} PassMarks(lib: string, reg: Registry, i: nat)
    requires i <= |reg.callbacks|
    ensures var p := PassFrom(lib, reg, i);
      forall j :: 0 <= j < |reg.callbacks| ==>
        p.reg.callbacks[j] == if j in p.ran then reg.callbacks[j].(called := true) else reg.callbacks[j]
    decreases |reg.callbacks| - i
  {
    if i < |reg.callbacks| {
      var cb := reg.callbacks[i];
      if !Matches(lib, cb) {
        PassMarks(lib, reg, i + 1);
      } else if !Ready(cb, reg.calledTags) {
        PassMarks(lib, reg, i + 1);
      } else {
        PassMarks(lib, RunAt(reg, i), i + 1);
        var p := PassFrom(lib, RunAt(reg, i), i + 1);
        assert i !in p.ran;
      }
    }
  }

  /** The callbacks a pass ran all matched the library when visited. */
  lemma {:induction false} PassRunsMatching(lib: string, reg: Registry, i: nat)
    requires i <= |reg.callbacks|
    ensures forall x :: x in PassFrom(lib, reg, i).ran ==> Matches(lib, reg.callbacks[x])
    decreases |reg.callbacks| - i
  {
    if i < |reg.callbacks| {
      var cb := reg.callbacks[i];
      if !Matches(lib, cb) {
        PassRunsMatching(lib, reg, i + 1);
      } else if !Ready(cb, reg.calledTags) {
        PassRunsMatching(lib, reg, i + 1);
      } else {
        PassRunsMatching(lib, RunAt(reg, i), i + 1);
      }
    }
  }

  lemma TagsOfSameTags(c1: seq<Callback>, c2: seq<Callback>, ran: seq<nat>)
    requires |c1| == |c2|
    requires forall j :: 0 <= j < |c1| ==> c1[j].tag == c2[j].tag
    requires forall k :: 0 <= k < |ran| ==> ran[k] < |c1|
    ensures TagsOf(c1, ran) == TagsOf(c2, ran)
  {
  }

  /** A pass appends the tags of the callbacks it ran, in the order it ran them. */
  lemma {:induction false} PassTags(lib: string, reg: Registry, i: nat)
    requires i <= |reg.callbacks|
    ensures forall k :: 0 <= k < |PassFrom(lib, reg, i).ran| ==> PassFrom(lib, reg, i).ran[k] < |reg.callbacks|
    ensures PassFrom(lib, reg, i).reg.calledTags == reg.calledTags + TagsOf(reg.callbacks, PassFrom(lib, reg, i).ran)
    decreases |reg.callbacks| - i, 1
  {
    var p := PassFrom(lib, reg, i);
    assert forall k :: 0 <= k < |p.ran| ==> p.ran[k] in p.ran;
    if i == |reg.callbacks| {
      assert reg.calledTags + TagsOf(reg.callbacks, p.ran) == reg.calledTags;
    } else if !Matches(lib, reg.callbacks[i]) || !Ready(reg.callbacks[i], reg.calledTags) {
      PassTags(lib, reg, i + 1);
      assert p.reg == PassFrom(lib, reg, i + 1).reg && p.ran == PassFrom(lib, reg, i + 1).ran;
    } else {
      PassTagsRun(lib, reg, i);
    }
  }

  /** The case of `PassTags` where the callback at `i` runs. */
  lemma PassTagsRun(lib: string, reg: Registry, i: nat)
    requires i < |reg.callbacks| && Matches(lib, reg.callbacks[i]) && Ready(reg.callbacks[i], reg.calledTags)
    ensures forall k :: 0 <= k < |PassFrom(lib, reg, i).ran| ==> PassFrom(lib, reg, i).ran[k] < |reg.callbacks|
    ensures PassFrom(lib, reg, i).reg.calledTags == reg.calledTags + TagsOf(reg.callbacks, PassFrom(lib, reg, i).ran)
    decreases |reg.callbacks| - i, 0
  {
    var next := RunAt(reg, i);
    PassTags(lib, next, i + 1);
    var q := PassFrom(lib, next, i + 1);
    var p := PassFrom(lib, reg, i);
    assert p.ran == [i] + q.ran && p.reg == q.reg;
    TagsOfSameTags(next.callbacks, reg.callbacks, q.ran);
    var rest := TagsOf(reg.callbacks, q.ran);
    assert TagsOf(reg.callbacks, p.ran) == [reg.callbacks[i].tag] + rest by {
      assert p.ran[1..] == q.ran;
    }
    AppendAssociates(reg.calledTags, [reg.callbacks[i].tag], rest);
  }

  /**
   * `bDoneCalling` is cleared exactly when the pass left a matching callback
   * behind (it was visited while one of its tags was missing).
   */
  lemma {:induction false} PassBlocked(lib: string, reg: Registry, i: nat)
    requires i <= |reg.callbacks|
    ensures var p := PassFrom(lib, reg, i);
      p.blocked <==> exists j :: i <= j < |reg.callbacks| && Matches(lib, reg.callbacks[j]) && j !in p.ran
    decreases |reg.callbacks| - i
  {
    if i < |reg.callbacks| {
      var cb := reg.callbacks[i];
      if !Matches(lib, cb) {
        PassBlocked(lib, reg, i + 1);
      } else if !Ready(cb, reg.calledTags) {
        PassBlocked(lib, reg, i + 1);
        assert i !in PassFrom(lib, reg, i).ran;
      } else {
        var next := RunAt(reg, i);
        PassBlocked(lib, next, i + 1);
        var q := PassFrom(lib, next, i + 1);
        assert forall j :: i < j < |reg.callbacks| ==> next.callbacks[j] == reg.callbacks[j];
        assert i in [i] + q.ran;
        assert forall j :: j in q.ran ==> j in [i] + q.ran;
        assert forall j :: j != i && j in [i] + q.ran ==> j in q.ran;
      }
    }
  }

  /** A pass that ran nothing left every matching callback waiting on a tag. */
  lemma {:induction false} IdlePassIsStuck(lib: string, reg: Registry, i: nat)
    requires i <= |reg.callbacks|
    requires PassFrom(lib, reg, i).ran == []
    ensures PassFrom(lib, reg, i).reg == reg
    ensures forall j :: i <= j < |reg.callbacks| && Matches(lib, reg.callbacks[j]) ==>
              !Ready(reg.callbacks[j], reg.calledTags)
    decreases |reg.callbacks| - i
  {
    if i < |reg.callbacks| {
      IdlePassIsStuck(lib, reg, i + 1);
    }
  }

  /**
   * The callbacks were run in dependency order: each was ready given the
   * tags produced before it.
   */
  predicate DependencyOrdered(cbs: seq<Callback>, produced: seq<string>, ran: seq<nat>)
    requires forall k :: 0 <= k < |ran| ==> ran[k] < |cbs|
    decreases |ran|
  {
    |ran| == 0 ||
    (Ready(cbs[ran[0]], produced) && DependencyOrdered(cbs, produced + [cbs[ran[0]].tag], ran[1..]))
  }

  lemma {:induction false} OrderedSameDeps(c1: seq<Callback>, c2: seq<Callback>, produced: seq<string>, ran: seq<nat>)
    requires |c1| == |c2|
    requires forall j :: 0 <= j < |c1| ==> c1[j].tag == c2[j].tag && c1[j].reliesOn == c2[j].reliesOn
    requires forall k :: 0 <= k < |ran| ==> ran[k] < |c1|
    requires DependencyOrdered(c1, produced, ran)
    ensures DependencyOrdered(c2, produced, ran)
    decreases |ran|
  {
    if |ran| > 0 {
      OrderedSameDeps(c1, c2, produced + [c1[ran[0]].tag], ran[1..]);
    }
  }

  lemma {:induction false} PassInDependencyOrder(lib: string, reg: Registry, i: nat)
    requires i <= |reg.callbacks|
    ensures var p := PassFrom(lib, reg, i);
      (forall k :: 0 <= k < |p.ran| ==> p.ran[k] < |reg.callbacks|) &&
      DependencyOrdered(reg.callbacks, reg.calledTags, p.ran)
    decreases |reg.callbacks| - i
  {
    var p := PassFrom(lib, reg, i);
    assert forall k :: 0 <= k < |p.ran| ==> p.ran[k] in p.ran;
    if i < |reg.callbacks| {
      var cb := reg.callbacks[i];
      if !Matches(lib, cb) {
        PassInDependencyOrder(lib, reg, i + 1);
      } else if !Ready(cb, reg.calledTags) {
        PassInDependencyOrder(lib, reg, i + 1);
      } else {
        var next := RunAt(reg, i);
        PassInDependencyOrder(lib, next, i + 1);
        var q := PassFrom(lib, next, i + 1);
        assert forall k :: 0 <= k < |q.ran| ==> q.ran[k] in q.ran;
        OrderedSameDeps(next.callbacks, reg.callbacks, next.calledTags, q.ran);
        assert p.ran[0] == i && p.ran[1..] == q.ran;
      }
    }
  }

  /* ----- the outer `while (true)` loop ----- */

  predicate Distinct(ran: seq<nat>) {
    forall a, b :: 0 <= a < b < |ran| ==> ran[a] != ran[b]
  }

  /**
   * `after` is what running the callbacks at `ran` (in that order) makes of
   * `before`: each ran once, matched the library, was ready when it ran, was
   * marked called, and appended its tag; nothing else changed.
   */
  ghost predicate Accounts(lib: string, before: Registry, after: Registry, ran: seq<nat>) {
    && |after.callbacks| == |before.callbacks|
    && (forall k :: 0 <= k < |ran| ==> ran[k] < |before.callbacks|)
    && Distinct(ran)
    && (forall k :: 0 <= k < |ran| ==> Matches(lib, before.callbacks[ran[k]]))
    && (forall j :: 0 <= j < |before.callbacks| ==>
          after.callbacks[j] == if j in ran then before.callbacks[j].(called := true) else before.callbacks[j])
    && after.calledTags == before.calledTags + TagsOf(before.callbacks, ran)
    && DependencyOrdered(before.callbacks, before.calledTags, ran)
  }

  lemma PassAccounts(lib: string, reg: Registry)
    ensures Accounts(lib, reg, PassFrom(lib, reg, 0).reg, PassFrom(lib, reg, 0).ran)
  {
    var p := PassFrom(lib, reg, 0);
    PassIncreasing(lib, reg, 0);
    PassMarks(lib, reg, 0);
    PassTags(lib, reg, 0);
    PassRunsMatching(lib, reg, 0);
    PassInDependencyOrder(lib, reg, 0);
    assert forall k :: 0 <= k < |p.ran| ==> p.ran[k] in p.ran;
  }

  lemma {:induction false} TagsOfAppend(cbs: seq<Callback>, r1: seq<nat>, r2: seq<nat>)
    requires forall k :: 0 <= k < |r1| ==> r1[k] < |cbs|
    requires forall k :: 0 <= k < |r2| ==> r2[k] < |cbs|
    ensures forall k :: 0 <= k < |r1 + r2| ==> (r1 + r2)[k] < |cbs|
    ensures TagsOf(cbs, r1 + r2) == TagsOf(cbs, r1) + TagsOf(cbs, r2)
  {
  }

  lemma {:induction false} OrderedAppend(cbs: seq<Callback>, produced: seq<string>, r1: seq<nat>, r2: seq<nat>)
    requires forall k :: 0 <= k < |r1| ==> r1[k] < |cbs|
    requires forall k :: 0 <= k < |r2| ==> r2[k] < |cbs|
    requires DependencyOrdered(cbs, produced, r1)
    requires DependencyOrdered(cbs, produced + TagsOf(cbs, r1), r2)
    ensures forall k :: 0 <= k < |r1 + r2| ==> (r1 + r2)[k] < |cbs|
    ensures DependencyOrdered(cbs, produced, r1 + r2)
    decreases |r1|
  {
    if |r1| == 0 {
      assert r1 + r2 == r2;
      assert produced + TagsOf(cbs, r1) == produced;
    } else {
      var head := cbs[r1[0]].tag;
      assert TagsOf(cbs, r1) == [head] + TagsOf(cbs, r1[1..]);
      assert produced + TagsOf(cbs, r1) == (produced + [head]) + TagsOf(cbs, r1[1..]);
      OrderedAppend(cbs, produced + [head], r1[1..], r2);
      assert (r1 + r2)[0] == r1[0];
      assert (r1 + r2)[1..] == r1[1..] + r2;
    }
  }

  lemma RanIsCalled(lib: string, b: Registry, m: Registry, r1: seq<nat>)
    requires Accounts(lib, b, m, r1)
    ensures forall x :: x in r1 ==> x < |m.callbacks| && m.callbacks[x].called
  {
    forall x | x in r1 ensures x < |m.callbacks| && m.callbacks[x].called {
      var k :| 0 <= k < |r1| && r1[k] == x;
    }
  }

  /** Running callbacks changes only their called flags. */
  lemma KeepsDependencies(lib: string, b: Registry, m: Registry, r1: seq<nat>)
    requires Accounts(lib, b, m, r1)
    ensures forall j :: 0 <= j < |m.callbacks| ==>
              m.callbacks[j].tag == b.callbacks[j].tag && m.callbacks[j].reliesOn == b.callbacks[j].reliesOn
  {
  }

  lemma ComposeDistinct(lib: string, b: Registry, m: Registry, a: Registry, r1: seq<nat>, r2: seq<nat>)
    requires Accounts(lib, b, m, r1) && Accounts(lib, m, a, r2)
    ensures Distinct(r1 + r2)
  {
    RanIsCalled(lib, b, m, r1);
    var r := r1 + r2;
    forall x, y | 0 <= x < y < |r| ensures r[x] != r[y] {
      if y < |r1| {
      } else if x >= |r1| {
        assert r[x] == r2[x - |r1|] && r[y] == r2[y - |r1|];
      } else {
        assert r[x] in r1 && r[y] == r2[y - |r1|];
      }
    }
  }

  lemma ComposeMatches(lib: string, b: Registry, m: Registry, a: Registry, r1: seq<nat>, r2: seq<nat>)
    requires Accounts(lib, b, m, r1) && Accounts(lib, m, a, r2)
    ensures forall k :: 0 <= k < |r1 + r2| ==> (r1 + r2)[k] < |b.callbacks| && Matches(lib, b.callbacks[(r1 + r2)[k]])
  {
    RanIsCalled(lib, b, m, r1);
    var r := r1 + r2;
    forall k | 0 <= k < |r| ensures r[k] < |b.callbacks| && Matches(lib, b.callbacks[r[k]]) {
      if k >= |r1| {
        var x := r2[k - |r1|];
        assert r[k] == x;
        assert x !in r1;
      }
    }
  }

  lemma ComposeMarks(lib: string, b: Registry, m: Registry, a: Registry, r1: seq<nat>, r2: seq<nat>)
    requires Accounts(lib, b, m, r1) && Accounts(lib, m, a, r2)
    ensures forall j :: 0 <= j < |b.callbacks| ==>
              a.callbacks[j] == if j in r1 + r2 then b.callbacks[j].(called := true) else b.callbacks[j]
  {
    assert forall j :: j in r1 + r2 <==> j in r1 || j in r2;
  }

  lemma TagsCompose(cb: seq<Callback>, cm: seq<Callback>, t0: seq<string>, t1: seq<string>, t2: seq<string>,
                    r1: seq<nat>, r2: seq<nat>)
    requires |cm| == |cb|
    requires forall j :: 0 <= j < |cm| ==> cm[j].tag == cb[j].tag
    requires forall k :: 0 <= k < |r1| ==> r1[k] < |cb|
    requires forall k :: 0 <= k < |r2| ==> r2[k] < |cb|
    requires t1 == t0 + TagsOf(cb, r1)
    requires t2 == t1 + TagsOf(cm, r2)
    ensures forall k :: 0 <= k < |r1 + r2| ==> (r1 + r2)[k] < |cb|
    ensures t2 == t0 + TagsOf(cb, r1 + r2)
  {
    TagsOfSameTags(cm, cb, r2);
    TagsOfAppend(cb, r1, r2);
    AppendAssociates(t0, TagsOf(cb, r1), TagsOf(cb, r2));
  }

  lemma ComposeTags(lib: string, b: Registry, m: Registry, a: Registry, r1: seq<nat>, r2: seq<nat>)
    requires Accounts(lib, b, m, r1) && Accounts(lib, m, a, r2)
    ensures forall k :: 0 <= k < |r1 + r2| ==> (r1 + r2)[k] < |b.callbacks|
    ensures a.calledTags == b.calledTags + TagsOf(b.callbacks, r1 + r2)
  {
    KeepsDependencies(lib, b, m, r1);
    TagsCompose(b.callbacks, m.callbacks, b.calledTags, m.calledTags, a.calledTags, r1, r2);
  }

  lemma ComposeOrder(lib: string, b: Registry, m: Registry, a: Registry, r1: seq<nat>, r2: seq<nat>)
    requires Accounts(lib, b, m, r1) && Accounts(lib, m, a, r2)
    ensures forall k :: 0 <= k < |r1 + r2| ==> (r1 + r2)[k] < |b.callbacks|
    ensures DependencyOrdered(b.callbacks, b.calledTags, r1 + r2)
  {
    KeepsDependencies(lib, b, m, r1);
    OrderedSameDeps(m.callbacks, b.callbacks, m.calledTags, r2);
    OrderedAppend(b.callbacks, b.calledTags, r1, r2);
  }

  /** Running `r1` and then `r2` accounts for running `r1 + r2`. */
  lemma AccountsCompose(lib: string, b: Registry, m: Registry, a: Registry, r1: seq<nat>, r2: seq<nat>)
    requires Accounts(lib, b, m, r1) && Accounts(lib, m, a, r2)
    ensures Accounts(lib, b, a, r1 + r2)
  {
    ComposeDistinct(lib, b, m, a, r1, r2);
    ComposeMatches(lib, b, m, a, r1, r2);
    ComposeMarks(lib, b, m, a, r1, r2);
    ComposeTags(lib, b, m, a, r1, r2);
    ComposeOrder(lib, b, m, a, r1, r2);
  }

  /** How many callbacks have not run yet. */
  function Uncalled(cbs: seq<Callback>): nat {
    if |cbs| == 0 then 0 else (if cbs[0].called then 0 else 1) + Uncalled(cbs[1..])
  }

  lemma {:induction false} UncalledDrops(before: seq<Callback>, after: seq<Callback>, j: nat)
    requires |before| == |after|
    requires forall k :: 0 <= k < |before| ==> before[k].called ==> after[k].called
    requires j < |before| && !before[j].called && after[j].called
    ensures Uncalled(after) < Uncalled(before)
    decreases |before|
  {
    if j > 0 {
      UncalledDrops(before[1..], after[1..], j - 1);
    } else {
      UncalledNoMore(before[1..], after[1..]);
    }
  }

  lemma {:induction false} UncalledNoMore(before: seq<Callback>, after: seq<Callback>)
    requires |before| == |after|
    requires forall k :: 0 <= k < |before| ==> before[k].called ==> after[k].called
    ensures Uncalled(after) <= Uncalled(before)
    decreases |before|
  {
    if |before| > 0 {
      UncalledNoMore(before[1..], after[1..]);
    }
  }

  /** A pass that ran something leaves fewer callbacks to run. */
  lemma PassShrinks(lib: string, reg: Registry)
    requires PassFrom(lib, reg, 0).ran != []
    ensures Uncalled(PassFrom(lib, reg, 0).reg.callbacks) < Uncalled(reg.callbacks)
  {
    var p := PassFrom(lib, reg, 0);
    PassAccounts(lib, reg);
    UncalledDrops(reg.callbacks, p.reg.callbacks, p.ran[0]);
  }

  /** The result of the loop: the registry after it and the callbacks it ran, in order. */
  datatype Schedule = Schedule(reg: Registry, ran: seq<nat>)

  /**
   * The loop as the source runs it, when it ends.  A pass that runs nothing
   * while a matching callback waits leaves the state as it was, so the
   * source repeats it forever: that is `Diverges`.
   */
  datatype Outcome = Settled(schedule: Schedule) | Diverges(schedule: Schedule)

  function CallAsWritten(lib: string, reg: Registry): Outcome
    decreases Uncalled(reg.callbacks)
  {
    var p := PassFrom(lib, reg, 0);
    if !p.blocked then Settled(Schedule(p.reg, p.ran))
    else if p.ran == [] then Diverges(Schedule(p.reg, []))
    else
      PassShrinks(lib, reg);
      match CallAsWritten(lib, p.reg)
      case Settled(s) => Settled(Schedule(s.reg, p.ran + s.ran))
      case Diverges(s) => Diverges(Schedule(s.reg, p.ran + s.ran))
  }

  /**
   * `CallLoadLibraryACallbacks` / `CallLoadLibraryWCallbacks` with the loop
   * also ending when a pass runs nothing: the callbacks still waiting stay
   * registered for a later load.
   */
  function CallCallbacks(lib: string, reg: Registry): Schedule
    decreases Uncalled(reg.callbacks)
  {
    var p := PassFrom(lib, reg, 0);
    if !p.blocked || p.ran == [] then Schedule(p.reg, p.ran)
    else
      PassShrinks(lib, reg);
      var s := CallCallbacks(lib, p.reg);
      Schedule(s.reg, p.ran + s.ran)
  }

  /**
   * Everything the loop ran, it ran once, in dependency order, for a matching
   * library; it marked exactly those called and appended exactly their tags.
   */
  lemma {:induction false} CallCallbacksAccounts(lib: string, reg: Registry)
    ensures Accounts(lib, reg, CallCallbacks(lib, reg).reg, CallCallbacks(lib, reg).ran)
    decreases Uncalled(reg.callbacks)
  {
    var p := PassFrom(lib, reg, 0);
    PassAccounts(lib, reg);
    if p.blocked && p.ran != [] {
      PassShrinks(lib, reg);
      CallCallbacksAccounts(lib, p.reg);
      var s := CallCallbacks(lib, p.reg);
      AccountsCompose(lib, reg, p.reg, s.reg, p.ran, s.ran);
    }
  }

  /** When the loop ends, every matching callback left is waiting on a missing tag. */
  lemma {:induction false} CallCallbacksSettles(lib: string, reg: Registry)
    ensures var s := CallCallbacks(lib, reg);
      |s.reg.callbacks| == |reg.callbacks| &&
      forall j :: 0 <= j < |reg.callbacks| && Matches(lib, s.reg.callbacks[j]) ==>
        !Ready(s.reg.callbacks[j], s.reg.calledTags)
    decreases Uncalled(reg.callbacks)
  {
    var p := PassFrom(lib, reg, 0);
    PassAccounts(lib, reg);
    if !p.blocked {
      PassBlocked(lib, reg, 0);
    } else if p.ran == [] {
      IdlePassIsStuck(lib, reg, 0);
    } else {
      PassShrinks(lib, reg);
      CallCallbacksSettles(lib, p.reg);
    }
  }

  /**
   * The source's loop agrees with `CallCallbacks` whenever it ends, and then
   * no matching callback is left; it hangs exactly when one is left.
   */
  lemma {:induction false} AsWrittenAgrees(lib: string, reg: Registry)
    ensures var s := CallCallbacks(lib, reg);
      |s.reg.callbacks| == |reg.callbacks| &&
      (CallAsWritten(lib, reg).Settled? ==>
         CallAsWritten(lib, reg).schedule == s && forall j :: 0 <= j < |reg.callbacks| ==> !Matches(lib, s.reg.callbacks[j])) &&
      (CallAsWritten(lib, reg).Diverges? <==> exists j :: 0 <= j < |reg.callbacks| && Matches(lib, s.reg.callbacks[j]))
    decreases Uncalled(reg.callbacks)
  {
    var p := PassFrom(lib, reg, 0);
    PassAccounts(lib, reg);
    PassBlocked(lib, reg, 0);
    if !p.blocked {
    } else if p.ran == [] {
      var j :| 0 <= j < |reg.callbacks| && Matches(lib, reg.callbacks[j]) && j !in p.ran;
      assert p.reg.callbacks[j] == reg.callbacks[j];
    } else {
      PassShrinks(lib, reg);
      AsWrittenAgrees(lib, p.reg);
    }
  }

  /**
   * A callback waiting on a tag nobody provides: the source's loop makes a
   * blocked pass that runs nothing, and makes it again forever; the corrected
   * loop stops and leaves the registry as it was.
   */
  lemma WaitingCallbackHangs()
    ensures var reg := Registry([Callback("server.dll", "a", ["b"], false)], []);
      && CallAsWritten("server.dll", reg).Diverges?
      && CallCallbacks("server.dll", reg) == Schedule(reg, [])
  {
    var reg := Registry([Callback("server.dll", "a", ["b"], false)], []);
    assert !Ready(reg.callbacks[0], []) by {
      assert "b" in reg.callbacks[0].reliesOn;
    }
    assert PassFrom("server.dll", reg, 0) == PassResult(reg, [], true);
  }

  /**
   * A callback relying on a later one's tag runs in the second pass, after
   * it, for any library whose file name is the callbacks' (so whatever its
   * directory, as `FileNameIgnoresDirectory` shows).
   */
  lemma DependencyChainExample(lib: string, dll: string)
    requires FileName(lib) == FileName(dll)
    ensures var reg := Registry([Callback(dll, "a", ["b"], false), Callback(dll, "b", [], false)], []);
      && CallCallbacks(lib, reg).ran == [1, 0]
      && CallCallbacks(lib, reg).reg.calledTags == ["b", "a"]
      && CallAsWritten(lib, reg).Settled?
  {
    var a := Callback(dll, "a", ["b"], false);
    var b := Callback(dll, "b", [], false);
    var reg := Registry([a, b], []);
    assert Matches(lib, a) && Matches(lib, b);
    assert !Ready(a, []) by {
      assert "b" in a.reliesOn;
    }
    var r1 := Registry([a, b.(called := true)], ["b"]);
    assert RunAt(reg, 1) == r1;
    assert PassFrom(lib, r1, 2) == PassResult(r1, [], false);
    assert PassFrom(lib, reg, 1) == PassResult(r1, [1], false);
    assert PassFrom(lib, reg, 0) == PassResult(r1, [1], true);
    var r2 := Registry([a.(called := true), b.(called := true)], ["b", "a"]);
    assert Ready(a, ["b"]);
    assert RunAt(r1, 0) == r2;
    assert !Matches(lib, r2.callbacks[1]);
    assert PassFrom(lib, r2, 1) == PassResult(r2, [], false);
    assert PassFrom(lib, r1, 0) == PassResult(r2, [0], false);
  }

  /* ----- registration ----- */

  /** The side an `ON_DLL_LOAD` variant is declared for. */
  datatype Side = Unsided | Client | DedicatedServer

  /** Whether a build (`IsDedicatedServer()` given as `dedicated`) keeps a callback of that side. */
  predicate SideApplies(side: Side, dedicated: bool) {
    match side
    case Unsided => true
    case Client => !dedicated
    case DedicatedServer => dedicated
  }

  /**
   * `__dllLoadCallback` and `AddDllLoadCallback*`: the dependency string is
   * parsed and, when the side applies to this build, an uncalled callback is
   * appended to the registry.
   */
  function RegisterCallback(reg: Registry, side: Side, dedicated: bool, dll: string, tag: string, reliesOn: string): (r: Registry)
    ensures r.calledTags == reg.calledTags
    ensures reg.callbacks <= r.callbacks
    ensures |r.callbacks| == |reg.callbacks| + 1 <==> SideApplies(side, dedicated)
    ensures !SideApplies(side, dedicated) ==> r == reg
    ensures SideApplies(side, dedicated) ==> Matches(dll, r.callbacks[|reg.callbacks|])
  {
    if SideApplies(side, dedicated) then
      Registry(reg.callbacks + [Callback(dll, tag, ParseReliesOn(reliesOn), false)], reg.calledTags)
    else reg
  }

  /** A matching callback whose tags have all been produced runs in the loop. */
  lemma ReadyCallbackRuns(lib: string, reg: Registry, n: nat)
    requires n < |reg.callbacks| && Matches(lib, reg.callbacks[n]) && Ready(reg.callbacks[n], reg.calledTags)
    ensures n in CallCallbacks(lib, reg).ran
  {
    var s := CallCallbacks(lib, reg);
    CallCallbacksAccounts(lib, reg);
    CallCallbacksSettles(lib, reg);
    if n !in s.ran {
      assert s.reg.callbacks[n] == reg.callbacks[n];
      assert Ready(s.reg.callbacks[n], s.reg.calledTags);
      assert false;
    }
  }

  /** A callback the loop ran is marked called and its tag is among the produced ones. */
  lemma RanLeavesTag(lib: string, reg: Registry, n: nat)
    requires n < |reg.callbacks| && n in CallCallbacks(lib, reg).ran
    ensures |CallCallbacks(lib, reg).reg.callbacks| == |reg.callbacks|
    ensures CallCallbacks(lib, reg).reg.callbacks[n].called
    ensures reg.callbacks[n].tag in CallCallbacks(lib, reg).reg.calledTags
  {
    var s := CallCallbacks(lib, reg);
    CallCallbacksAccounts(lib, reg);
    var k :| 0 <= k < |s.ran| && s.ran[k] == n;
    assert TagsOf(reg.callbacks, s.ran)[k] == reg.callbacks[n].tag;
    assert s.reg.calledTags[|reg.calledTags| + k] == reg.callbacks[n].tag;
  }

  /**
   * A callback registered for this build whose tags have all been produced
   * has run, and left its tag behind, once a library with its file name loads.
   */
  lemma RegisteredRunsOnLoad(reg: Registry, side: Side, dedicated: bool, dll: string, tag: string, reliesOn: string, lib: string)
    requires SideApplies(side, dedicated)
    requires FileName(lib) == FileName(dll)
    requires forall t | t in ParseReliesOn(reliesOn) :: t in reg.calledTags
    ensures |CallCallbacks(lib, RegisterCallback(reg, side, dedicated, dll, tag, reliesOn)).reg.callbacks| == |reg.callbacks| + 1
    ensures CallCallbacks(lib, RegisterCallback(reg, side, dedicated, dll, tag, reliesOn)).reg.callbacks[|reg.callbacks|].called
    ensures tag in CallCallbacks(lib, RegisterCallback(reg, side, dedicated, dll, tag, reliesOn)).reg.calledTags
  {
    var r := RegisterCallback(reg, side, dedicated, dll, tag, reliesOn);
    var n := |reg.callbacks|;
    assert r.callbacks[n] == Callback(dll, tag, ParseReliesOn(reliesOn), false);
    ReadyCallbackRuns(lib, r, n);
    RanLeavesTag(lib, r, n);
  }
}
