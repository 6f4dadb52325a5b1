/**
  Go's `path.Clean` and `path.Join`, described one '/'-separated element at
  a time: the path is split into elements, the elements are resolved against
  a stack (empty and "." elements vanish, ".." removes the previous element),
  and the stack is joined again.
*/
module GoPath {
  import opened GoStrings

  /** The '/'-separated elements of `s`, empty ones included: "a//b" gives ["a", "", "b"]. */
  function Split(s: string): (r: seq<string>)
    ensures |r| > 0
    ensures forall k :: 0 <= k < |r| ==> '/' !in r[k]
    decreases |s|
  {
    var i := IndexByte(s, '/');
    if i < 0 then [s] else [s[..i]] + Split(s[i + 1..])
  }

  /** The elements joined with '/' between them. */
  function JoinSegs(segs: seq<string>): string
    decreases |segs|
  {
    if segs == [] then ""
    else if |segs| == 1 then segs[0]
    else segs[0] + "/" + JoinSegs(segs[1..])
  }

  /** A name that survives cleaning unchanged: not empty, not "." or "..", no '/'. */
  predicate IsName(e: string)
  {
    e != "" && e != "." && e != ".." && '/' !in e
  }

  predicate AllNames(segs: seq<string>)
  {
    forall k :: 0 <= k < |segs| ==> IsName(segs[k])
  }

  /** The stack of a cleaned relative path: some ".." elements, then names. */
  predicate IsRelativeStack(st: seq<string>)
  {
    && (forall k :: 0 <= k < |st| ==> st[k] == ".." || IsName(st[k]))
    && (forall i, j :: 0 <= i < j < |st| && st[j] == ".." ==> st[i] == "..")
  }

  /** One element applied to the stack. A ".." at the root is dropped; in a relative path it is kept when nothing can be removed. */
  function Step(rooted: bool, stack: seq<string>, e: string): seq<string>
  {
    if e == "" || e == "." then stack
    else if e == ".." then
      if |stack| > 0 && stack[|stack| - 1] != ".." then stack[..|stack| - 1]
      else if rooted then stack
      else stack + [".."]
    else stack + [e]
  }

  function Resolve(rooted: bool, stack: seq<string>, segs: seq<string>): seq<string>
    decreases |segs|
  {
    if segs == [] then stack else Resolve(rooted, Step(rooted, stack, segs[0]), segs[1..])
  }

  /** `path.Clean(p)`: the shortest path equivalent to `p`; "." for an empty result of a relative path. */
  function Clean(p: string): (r: string)
    ensures r != ""
    ensures (p != "" && p[0] == '/') <==> r[0] == '/'
  {
    if p == "" then "."
    else if p[0] == '/' then "/" + JoinSegs(Resolve(true, [], Split(p[1..])))
    else
      var stack := Resolve(false, [], Split(p));
      if stack == [] then "."
      else
        ResolveRelativeShape([], Split(p));
        RelativeStackStart(stack);
        JoinSegs(stack)
  }

  /** Total length of the elements, `size` in `path.Join`. */
  function TotalLength(elems: seq<string>): nat
    decreases |elems|
  {
    if elems == [] then 0 else |elems[0]| + TotalLength(elems[1..])
  }

  /** The buffer `path.Join` builds: leading empty elements are skipped, later ones add a '/'. */
  function JoinBuf(buf: string, elems: seq<string>): string
    decreases |elems|
  {
    if elems == [] then buf
    else
      var e := elems[0];
      var next := if |buf| > 0 || e != "" then (if |buf| > 0 then buf + "/" else buf) + e else buf;
      JoinBuf(next, elems[1..])
  }

  /** `path.Join(elems...)`: "" when every element is empty, otherwise the cleaned '/'-joined elements. */
  function Join(elems: seq<string>): (r: string)
    ensures r == "" <==> forall i :: 0 <= i < |elems| ==> elems[i] == ""
    ensures r != "" ==> Clean(r) == r
  {
    TotalLengthZero(elems);
    if TotalLength(elems) == 0 then ""
    else
      CleanIdempotent(JoinBuf("", elems));
      Clean(JoinBuf("", elems))
  }

  /** The total length is zero exactly when every element is empty. */
  lemma {:induction false} TotalLengthZero(elems: seq<string>)
    ensures TotalLength(elems) == 0 <==> forall i :: 0 <= i < |elems| ==> elems[i] == ""
    decreases |elems|
  {
    if elems != [] {
      TotalLengthZero(elems[1..]);
      assert forall i :: 1 <= i < |elems| ==> elems[i] == elems[1..][i - 1];
    }
  }

  // ---- splitting and joining ----

  lemma SplitName(a: string)
    requires '/' !in a
    ensures Split(a) == [a]
  {
  }

  lemma SplitCons(a: string, t: string)
    requires '/' !in a
    ensures Split(a + "/" + t) == [a] + Split(t)
  {
    var s := a + "/" + t;
    var i := IndexByte(s, '/');
    assert s[|a|] == '/';
    assert s[..i] == a;
    assert s[i + 1..] == t;
  }

  lemma {:induction false} SplitJoinSlash(st: seq<string>, t: string)
    requires |st| > 0
    requires forall k :: 0 <= k < |st| ==> '/' !in st[k]
    ensures Split(JoinSegs(st) + "/" + t) == st + Split(t)
    decreases |st|
  {
    if |st| == 1 {
      SplitJoinSlashOne(st, t);
    } else {
      SplitJoinSlash(st[1..], t);
      SplitJoinSlashStep(st, t);
    }
  }

  lemma SplitJoinSlashOne(st: seq<string>, t: string)
    requires |st| == 1 && '/' !in st[0]
    ensures Split(JoinSegs(st) + "/" + t) == st + Split(t)
  {
    assert JoinSegs(st) == st[0];
    assert st == [st[0]];
    SplitCons(st[0], t);
  }

  lemma SplitJoinSlashStep(st: seq<string>, t: string)
    requires |st| > 1 && '/' !in st[0]
    requires Split(JoinSegs(st[1..]) + "/" + t) == st[1..] + Split(t)
    ensures Split(JoinSegs(st) + "/" + t) == st + Split(t)
  {
    var tail := JoinSegs(st[1..]);
    assert JoinSegs(st) == st[0] + "/" + tail;
    SplitConsThree(st[0], tail, t);
    ConsAppend(st, Split(t));
  }

  /** The first element of a path of three parts. */
  lemma SplitConsThree(a: string, b: string, t: string)
    requires '/' !in a
    ensures Split(a + "/" + b + "/" + t) == [a] + Split(b + "/" + t)
  {
    assert a + "/" + b + "/" + t == a + "/" + (b + "/" + t);
    SplitCons(a, b + "/" + t);
  }

  /** Splitting undoes joining when no element contains '/'. */
  lemma {:induction false} SplitJoin(st: seq<string>)
    requires |st| > 0
    requires forall k :: 0 <= k < |st| ==> '/' !in st[k]
    ensures Split(JoinSegs(st)) == st
    decreases |st|
  {
    if |st| == 1 {
      SplitName(st[0]);
    } else {
      SplitCons(st[0], JoinSegs(st[1..]));
      SplitJoin(st[1..]);
      assert st == [st[0]] + st[1..];
    }
  }

  /** The joined elements begin with the first element. */
  lemma JoinSegsStart(st: seq<string>)
    requires |st| > 0
    ensures HasPrefix(JoinSegs(st), st[0])
  {
    if |st| > 1 {
      assert JoinSegs(st) == st[0] + ("/" + JoinSegs(st[1..]));
    }
  }

  /** The joined elements end with the last element. */
  lemma {:induction false} JoinSegsEnd(st: seq<string>)
    requires |st| > 0
    ensures var j, last := JoinSegs(st), st[|st| - 1];
      |last| <= |j| && j[|j| - |last|..] == last
    decreases |st|
  {
    if |st| > 1 {
      JoinSegsEnd(st[1..]);
      var tail := JoinSegs(st[1..]);
      assert JoinSegs(st) == (st[0] + "/") + tail;
    }
  }

  /** A joined stack of names neither is empty nor ends in '/'. */
  lemma JoinNamesLast(st: seq<string>)
    requires |st| > 0 && AllNames(st)
    ensures var j := JoinSegs(st); |j| > 0 && j[|j| - 1] != '/'
  {
    JoinSegsEnd(st);
    var j, last := JoinSegs(st), st[|st| - 1];
    assert IsName(last);
    assert j[|j| - 1] == last[|last| - 1];
  }

  // ---- resolving ----

  lemma {:induction false} ResolveAppend(rooted: bool, acc: seq<string>, a: seq<string>, b: seq<string>)
    ensures Resolve(rooted, acc, a + b) == Resolve(rooted, Resolve(rooted, acc, a), b)
    decreases |a|
  {
    if a == [] {
      assert a + b == b;
    } else {
      assert (a + b)[0] == a[0];
      assert (a + b)[1..] == a[1..] + b;
      ResolveAppend(rooted, Step(rooted, acc, a[0]), a[1..], b);
    }
  }

  /** Names are pushed as they are. */
  lemma {:induction false} ResolveNames(rooted: bool, acc: seq<string>, segs: seq<string>)
    requires AllNames(segs)
    ensures Resolve(rooted, acc, segs) == acc + segs
    decreases |segs|
  {
    if segs != [] {
      assert IsName(segs[0]);
      ResolveNames(rooted, acc + [segs[0]], segs[1..]);
      assert acc + [segs[0]] + segs[1..] == acc + segs;
    }
  }

  /** A relative stack pushed element by element is rebuilt unchanged. */
  lemma {:induction false} ResolveRelativeStack(acc: seq<string>, segs: seq<string>)
    requires IsRelativeStack(acc + segs)
    ensures Resolve(false, acc, segs) == acc + segs
    decreases |segs|
  {
    if segs != [] {
      var all := acc + segs;
      var e := segs[0];
      assert all[|acc|] == e;
      if e == ".." && |acc| > 0 {
        assert all[|acc| - 1] == acc[|acc| - 1];
      }
      assert Step(false, acc, e) == acc + [e];
      assert acc + [e] + segs[1..] == all;
      ResolveRelativeStack(acc + [e], segs[1..]);
    }
  }

  /** From the root, the stack only ever holds names. */
  lemma {:induction false} ResolveRootedNames(acc: seq<string>, segs: seq<string>)
    requires AllNames(acc)
    requires forall k :: 0 <= k < |segs| ==> '/' !in segs[k]
    ensures AllNames(Resolve(true, acc, segs))
    decreases |segs|
  {
    if segs != [] {
      var next := Step(true, acc, segs[0]);
      assert AllNames(next) by {
        if segs[0] == ".." && |acc| > 0 {
          assert forall k :: 0 <= k < |acc| - 1 ==> acc[..|acc| - 1][k] == acc[k];
        }
      }
      ResolveRootedNames(next, segs[1..]);
    }
  }

  /** In a relative path, the stack always is some ".." elements followed by names. */
  lemma {:induction false} ResolveRelativeShape(acc: seq<string>, segs: seq<string>)
    requires IsRelativeStack(acc)
    requires forall k :: 0 <= k < |segs| ==> '/' !in segs[k]
    ensures IsRelativeStack(Resolve(false, acc, segs))
    decreases |segs|
  {
    if segs != [] {
      var e := segs[0];
      var next := Step(false, acc, e);
      assert IsRelativeStack(next) by {
        if e == ".." {
          if |acc| > 0 && acc[|acc| - 1] != ".." {
            assert next == acc[..|acc| - 1];
            assert forall k :: 0 <= k < |next| ==> next[k] == acc[k];
          } else {
            assert next == acc + [".."];
            assert forall k :: 0 <= k < |acc| ==> acc[k] == ".." by {
              forall k | 0 <= k < |acc|
                ensures acc[k] == ".."
              {
                assert k < |acc| - 1 ==> acc[|acc| - 1] == "..";
              }
            }
          }
        } else if e != "" && e != "." {
          assert next == acc + [e];
          assert forall k :: 0 <= k < |acc| ==> next[k] == acc[k];
        }
      }
      ResolveRelativeShape(next, segs[1..]);
    }
  }

  // ---- properties of Clean ----

  /** The rooted form of Clean: "/" followed by names joined with '/'. */
  lemma CleanRootedForm(p: string)
    requires p != "" && p[0] == '/'
    ensures var st := Resolve(true, [], Split(p[1..]));
      AllNames(st) && Clean(p) == "/" + JoinSegs(st)
  {
    ResolveRootedNames([], Split(p[1..]));
  }

  /** Splitting and resolving a rooted path of names gives the names back. */
  lemma ResolveSplitNames(st: seq<string>)
    requires AllNames(st)
    ensures Resolve(true, [], Split(JoinSegs(st))) == st
  {
    if st == [] {
      assert Split("") == [""];
    } else {
      SplitJoin(st);
      ResolveNames(true, [], st);
    }
  }

  /** A rooted path made of names is already clean. */
  lemma CleanRootedNames(st: seq<string>)
    requires AllNames(st)
    ensures Clean("/" + JoinSegs(st)) == "/" + JoinSegs(st)
  {
    var p := "/" + JoinSegs(st);
    assert p[1..] == JoinSegs(st);
    ResolveSplitNames(st);
  }

  /** A trailing '/' only adds an empty element, which resolving drops. */
  lemma ResolveSplitNamesSlash(st: seq<string>)
    requires |st| > 0 && AllNames(st)
    ensures Resolve(true, [], Split(JoinSegs(st) + "/")) == st
  {
    SplitJoinSlash(st, "");
    assert JoinSegs(st) + "/" + "" == JoinSegs(st) + "/";
    assert Split("") == [""];
    ResolveAppend(true, [], st, [""]);
    ResolveNames(true, [], st);
  }

  /** Clean drops the trailing '/' of a rooted path made of names. */
  lemma CleanRootedNamesSlash(st: seq<string>)
    requires |st| > 0 && AllNames(st)
    ensures Clean("/" + JoinSegs(st) + "/") == "/" + JoinSegs(st)
  {
    var p := "/" + JoinSegs(st) + "/";
    assert p[1..] == JoinSegs(st) + "/";
    ResolveSplitNamesSlash(st);
  }

  /** A joined relative stack does not start with '/'. */
  lemma RelativeStackStart(st: seq<string>)
    requires |st| > 0 && IsRelativeStack(st)
    ensures JoinSegs(st) != "" && JoinSegs(st)[0] != '/'
  {
    JoinSegsStart(st);
    assert st[0] != "";
    assert JoinSegs(st)[0] == st[0][0];
  }

  lemma ResolveSplitRelative(st: seq<string>)
    requires |st| > 0 && IsRelativeStack(st)
    ensures Resolve(false, [], Split(JoinSegs(st))) == st
  {
    SplitJoin(st);
    ResolveRelativeStack([], st);
  }

  /** A relative cleaned stack, joined, is already clean. */
  lemma CleanRelativeStack(st: seq<string>)
    requires |st| > 0 && IsRelativeStack(st)
    ensures Clean(JoinSegs(st)) == JoinSegs(st)
  {
    RelativeStackStart(st);
    ResolveSplitRelative(st);
  }

  /** `path.Clean` is idempotent: a cleaned path is its own clean form. */
  lemma CleanIdempotent(p: string)
    ensures Clean(Clean(p)) == Clean(p)
  {
    if p == "" {
      assert Split(".") == ["."];
    } else if p[0] == '/' {
      CleanRootedForm(p);
      CleanRootedNames(Resolve(true, [], Split(p[1..])));
    } else {
      var st := Resolve(false, [], Split(p));
      ResolveRelativeShape([], Split(p));
      if st == [] {
        assert Split(".") == ["."];
      } else {
        CleanRelativeStack(st);
      }
    }
  }

  // ---- properties of Join ----

  lemma {:induction false} JoinBufNames(buf: string, elems: seq<string>)
    requires |buf| > 0 && |elems| > 0 && AllNames(elems)
    ensures JoinBuf(buf, elems) == buf + "/" + JoinSegs(elems)
    decreases |elems|
  {
    assert IsName(elems[0]);
    if |elems| > 1 {
      JoinBufNames(buf + "/" + elems[0], elems[1..]);
    }
  }

  lemma JoinBufFromEmpty(elems: seq<string>)
    requires |elems| > 0 && AllNames(elems)
    ensures JoinBuf("", elems) == JoinSegs(elems)
  {
    assert IsName(elems[0]);
    assert "" + elems[0] == elems[0];
    assert JoinBuf("", elems) == JoinBuf(elems[0], elems[1..]);
    if |elems| > 1 {
      JoinBufNames(elems[0], elems[1..]);
    }
  }

  /** `path.Join` of names is the names separated by '/', with nothing else changed. */
  lemma JoinNames(elems: seq<string>)
    requires |elems| > 0 && AllNames(elems)
    ensures Join(elems) == JoinSegs(elems)
  {
    assert IsName(elems[0]);
    assert TotalLength(elems) >= |elems[0]| > 0;
    JoinBufFromEmpty(elems);
    assert IsRelativeStack(elems);
    CleanRelativeStack(elems);
  }
}
