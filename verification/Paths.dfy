/** Relative paths of a backup manifest (core/storage_backup.go): cleaning a path and
    joining it to a root never leaves the root. */
module Paths {
  import opened Prelude
  import opened Sorting

  /** A path below some root: the names on the way. */
  type Path = seq<string>

  predicate ProperName(name: string) {
    name != "" && name != "." && name != ".." && '/' !in name
  }

  ghost predicate Proper(p: Path) {
    p != [] && forall i | 0 <= i < |p| :: ProperName(p[i])
  }

  /** The segments between slashes. */
  function Split(s: string): (r: seq<string>)
    ensures r != [] && forall i | 0 <= i < |r| :: '/' !in r[i]
  {
    if s == "" then [""]
    else
      var rest := Split(s[1..]);
      if s[0] == '/' then [""] + rest else [s[..1] + rest[0]] + rest[1..]
  }

  lemma {:induction false} SplitName(name: string)
    requires '/' !in name
    ensures Split(name) == [name]
  {
    if name != "" {
      SplitName(name[1..]);
      assert name[..1] + name[1..] == name;
    }
  }

  lemma {:induction false} SplitFront(name: string, rest: string)
    requires '/' !in name
    ensures Split(name + ("/" + rest)) == [name] + Split(rest)
  {
    var s := name + ("/" + rest);
    if name == "" {
      assert s[1..] == rest;
    } else {
      assert s[1..] == name[1..] + ("/" + rest);
      SplitFront(name[1..], rest);
      assert s[..1] + name[1..] == name;
    }
  }

  lemma {:induction false} SplitJoin(p: seq<string>)
    requires p != [] && forall i | 0 <= i < |p| :: '/' !in p[i]
    ensures Split(Join(p, "/")) == p
  {
    if |p| == 1 {
      SplitName(p[0]);
    } else {
      assert Join(p, "/") == p[0] + ("/" + Join(p[1..], "/"));
      SplitFront(p[0], Join(p[1..], "/"));
      SplitJoin(p[1..]);
    }
  }

  /** path.Clean on segments: the stack after each of them. */
  function Push(stack: seq<string>, segment: string): seq<string> {
    if segment == "" || segment == "." then stack
    else if segment == ".." && stack != [] && stack[|stack| - 1] != ".." then stack[..|stack| - 1]
    else stack + [segment]
  }

  function Reduce(stack: seq<string>, segments: seq<string>): seq<string>
    decreases |segments|
  {
    if segments == [] then stack else Reduce(Push(stack, segments[0]), segments[1..])
  }

  /** Some ".." first, then names. */
  ghost predicate Reduced(stack: seq<string>, ups: nat) {
    && ups <= |stack| && (forall i | 0 <= i < ups :: stack[i] == "..")
    && (forall i | ups <= i < |stack| :: ProperName(stack[i]))
  }

  lemma {:induction false} ReduceForm(stack: seq<string>, segments: seq<string>, ups: nat) returns (ups': nat)
    requires Reduced(stack, ups) && forall i | 0 <= i < |segments| :: '/' !in segments[i]
    ensures Reduced(Reduce(stack, segments), ups')
    decreases |segments|
  {
    if segments == [] {
      return ups;
    }
    var s := segments[0];
    var next := Push(stack, s);
    var n := if s == ".." && (stack == [] || stack[|stack| - 1] == "..") then |stack| + 1 else ups;
    assert Reduced(next, n);
    ups' := ReduceForm(next, segments[1..], n);
  }

  lemma {:induction false} ReduceProper(stack: seq<string>, p: seq<string>)
    requires forall i | 0 <= i < |p| :: ProperName(p[i])
    ensures Reduce(stack, p) == stack + p
    decreases |p|
  {
    if p != [] {
      ReduceProper(stack + [p[0]], p[1..]);
      assert stack + [p[0]] + p[1..] == stack + p;
    }
  }

  lemma {:induction false} ReduceAppend(stack: seq<string>, a: seq<string>, b: seq<string>)
    ensures Reduce(stack, a + b) == Reduce(Reduce(stack, a), b)
    decreases |a|
  {
    if a == [] {
      assert a + b == b;
    } else {
      assert (a + b)[1..] == a[1..] + b;
      ReduceAppend(Push(stack, a[0]), a[1..], b);
    }
  }

  /** cleanManifestPath. */
  function Clean(trim: string -> string, rel: string): Result<Path> {
    var t := trim(rel);
    if t == "" || t == "." then Err("backup entry path is empty")
    else if t[0] == '/' then Err("backup entry path must be relative")
    else
      var r := Reduce([], Split(t));
      if r == [] || r[0] == ".." then Err("backup entry path escapes snapshot") else Ok(r)
  }

  /** Following the segments from a directory: stay, go up, or go down to a name. Nowhere if
      a step would leave the directory where it began. */
  function Follow(at: Path, segments: seq<string>): Option<Path>
    decreases |segments|
  {
    if segments == [] then Some(at)
    else if segments[0] == "" || segments[0] == "." then Follow(at, segments[1..])
    else if segments[0] == ".." then if at == [] then None else Follow(at[..|at| - 1], segments[1..])
    else Follow(at + [segments[0]], segments[1..])
  }

  lemma {:induction false} EscapedStays(stack: seq<string>, segments: seq<string>)
    requires stack != [] && stack[0] == ".." && forall i | 0 <= i < |stack| - 1 ::
             stack[i + 1] == ".." ==> stack[i] == ".."
    ensures Reduce(stack, segments) != [] && Reduce(stack, segments)[0] == ".."
    decreases |segments|
  {
    if segments != [] {
      EscapedStays(Push(stack, segments[0]), segments[1..]);
    }
  }

  lemma {:induction false} ReduceFollows(at: Path, segments: seq<string>)
    requires ".." !in at
    ensures var there := Follow(at, segments);
            if there.Some? then Reduce(at, segments) == there.value && ".." !in there.value
            else Reduce(at, segments) != [] && Reduce(at, segments)[0] == ".."
    decreases |segments|
  {
    if segments != [] {
      var s := segments[0];
      if s == ".." && at == [] {
        EscapedStays([".."], segments[1..]);
        assert at + [s] == [".."];
      } else if s == ".." {
        ReduceFollows(at[..|at| - 1], segments[1..]);
      } else {
        ReduceFollows(Push(at, s), segments[1..]);
      }
    }
  }

  /** A path is accepted exactly if, trimmed, it is relative and following its segments from
      the root never leaves the root and ends below it; it is then the path to that place. */
  lemma CleanIff(trim: string -> string, rel: string)
    ensures var t := trim(rel);
            var there := Follow([], Split(t));
            && (Clean(trim, rel).Ok? <==> t != "" && t[0] != '/' && there.Some? && there.value != [])
            && (Clean(trim, rel).Ok? ==> Clean(trim, rel).value == there.value)
  {
    var t := trim(rel);
    ReduceFollows([], Split(t));
    if t == "." {
      assert Split(t) == ["."] by { SplitName("."); }
    }
  }

  /** A path that is accepted has only proper names. */
  lemma CleanProper(trim: string -> string, rel: string)
    requires Clean(trim, rel).Ok?
    ensures Proper(Clean(trim, rel).value)
  {
    var ups := ReduceForm([], Split(trim(rel)), 0);
    assert ups == 0;
  }

  /** The path of a file below the root is accepted as it is, unless trimming changes it. */
  lemma CleanJoin(trim: string -> string, p: Path)
    requires Proper(p) && trim(Join(p, "/")) == Join(p, "/")
    ensures Clean(trim, Join(p, "/")) == Ok(p)
  {
    SplitJoin(p);
    ReduceProper([], p);
    assert [] + p == p;
    JoinFirst(p);
  }

  lemma JoinFirst(p: Path)
    requires Proper(p)
    ensures Join(p, "/") != "" && Join(p, "/")[0] == p[0][0] != '/' && Join(p, "/") != "."
  {
    assert p[0][0] in p[0];
    if |p| > 1 {
      assert Join(p, "/")[|p[0]|] == '/';
    }
  }

  /** safeJoin: filepath.Join cleans the root and the accepted path together. The answer
      is a path strictly below the root, namely the root followed by the proper names, so
      the second check never refuses what the first one let through. */
  function SafeJoin(trim: string -> string, root: seq<string>, rel: string): Result<seq<string>> {
    var clean := Clean(trim, rel);
    if clean.Err? then Err(clean.error)
    else
      var joined := Reduce([], root + clean.value);
      if Reduce([], root) <= joined then Ok(joined) else Err("backup entry path escapes target")
  }

  lemma SafeJoinStays(trim: string -> string, root: seq<string>, rel: string)
    ensures SafeJoin(trim, root, rel).Ok? <==> Clean(trim, rel).Ok?
    ensures SafeJoin(trim, root, rel).Ok? ==>
              SafeJoin(trim, root, rel).value == Reduce([], root) + Clean(trim, rel).value
                && Proper(Clean(trim, rel).value)
  {
    if Clean(trim, rel).Ok? {
      CleanProper(trim, rel);
      var p := Clean(trim, rel).value;
      ReduceAppend([], root, p);
      ReduceProper(Reduce([], root), p);
    }
  }

  /** A directory sorts before everything below it. */
  lemma ParentSortsFirst(p: Path, q: Path)
    requires p != [] && q != []
    ensures Less(Join(p, "/"), Join(p + q, "/"))
  {
    JoinConcat(p, q);
    PrefixLess(Join(p, "/"), "/" + Join(q, "/"));
  }

  lemma {:induction false} JoinConcat(p: Path, q: Path)
    requires p != [] && q != []
    ensures Join(p + q, "/") == Join(p, "/") + ("/" + Join(q, "/"))
  {
    if |p| == 1 {
      assert (p + q)[1..] == q;
      ConcatAssociative(p[0], "/", Join(q, "/"));
    } else {
      assert (p + q)[1..] == p[1..] + q;
      JoinConcat(p[1..], q);
      ConcatAssociative(p[0] + "/", Join(p[1..], "/"), "/" + Join(q, "/"));
    }
  }

  /** Different paths have different names in the manifest. */
  lemma JoinInjective(p: Path, q: Path)
    requires Proper(p) && Proper(q)
    ensures Join(p, "/") == Join(q, "/") <==> p == q
  {
    SplitJoin(p);
    SplitJoin(q);
  }

  // ----- Cleaning never makes a path longer -----

  function Span(p: seq<string>): nat {
    if p == [] then 0 else |p[0]| + 1 + Span(p[1..])
  }

  lemma {:induction false} SpanAppend(p: seq<string>, name: string)
    ensures Span(p + [name]) == Span(p) + |name| + 1
  {
    if p == [] {
      assert p + [name] == [name];
    } else {
      assert (p + [name])[1..] == p[1..] + [name];
      SpanAppend(p[1..], name);
    }
  }

  lemma {:induction false} SpanJoin(p: seq<string>)
    requires p != []
    ensures Span(p) == |Join(p, "/")| + 1
  {
    if |p| > 1 {
      SpanJoin(p[1..]);
    }
  }

  lemma {:induction false} SpanSplit(s: string)
    ensures Span(Split(s)) == |s| + 1
  {
    if s != "" {
      SpanSplit(s[1..]);
      var rest := Split(s[1..]);
      if s[0] == '/' {
        assert ([""] + rest)[1..] == rest;
      } else {
        assert ([s[..1] + rest[0]] + rest[1..])[1..] == rest[1..];
      }
    }
  }

  lemma {:induction false} SpanReduce(stack: seq<string>, segments: seq<string>)
    ensures Span(Reduce(stack, segments)) <= Span(stack) + Span(segments)
    decreases |segments|
  {
    if segments != [] {
      SpanReduce(Push(stack, segments[0]), segments[1..]);
      SpanAppend(stack, segments[0]);
      if stack != [] {
        SpanAppend(stack[..|stack| - 1], stack[|stack| - 1]);
        assert stack[..|stack| - 1] + [stack[|stack| - 1]] == stack;
      }
    }
  }

  lemma CleanShorter(trim: string -> string, rel: string)
    requires Clean(trim, rel).Ok?
    ensures |Join(Clean(trim, rel).value, "/")| <= |trim(rel)|
  {
    SpanSplit(trim(rel));
    SpanReduce([], Split(trim(rel)));
    SpanJoin(Clean(trim, rel).value);
  }
}
