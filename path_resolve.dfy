/**
 * `normalizePathSegments` and `resolvePath` of next/src/lib/resolve-href.ts:
 * the character-scanning normaliser proved equal to a stack of segments, and
 * the right-to-left join of path arguments.
 */
module PathResolve {
  import opened Strings

  // ---------------------------------------------------------------------------
  // The segment stack

  /** The `dots` counter after scanning `s`: the number of dots while `s` holds
      nothing else, -1 once any other character has been seen. */
  function DotCount(s: string): int {
    if |s| == 0 then 0
    else
      var d := DotCount(s[..|s| - 1]);
      if s[|s| - 1] == '.' && d != -1 then d + 1 else -1
  }

  /** The counter is the length of an all-dots text, and -1 for any other. */
  lemma {:induction false} DotCountAllDots(s: string)
    ensures DotCount(s) == if forall k :: 0 <= k < |s| ==> s[k] == '.' then |s| else -1
  {
    if |s| > 0 {
      var init := s[..|s| - 1];
      DotCountAllDots(init);
      if forall k :: 0 <= k < |init| ==> init[k] == '.' {
        if s[|s| - 1] == '.' {
          assert forall k :: 0 <= k < |s| ==> s[k] == '.' by {
            forall k | 0 <= k < |s| ensures s[k] == '.' {
              if k < |init| {
                assert s[k] == init[k];
              }
            }
          }
        }
      } else {
        var k :| 0 <= k < |init| && init[k] != '.';
        assert s[k] == init[k];
      }
    }
  }

  /** The counter names the three segments the normaliser treats specially. */
  lemma DotCountSegments(s: string)
    ensures DotCount(s) == 0 <==> s == ""
    ensures DotCount(s) == 1 <==> s == "."
    ensures DotCount(s) == 2 <==> s == ".."
  {
    DotCountAllDots(s);
    if |s| == 1 && s[0] == '.' {
      assert s == ".";
    }
    if |s| == 2 && s[0] == '.' && s[1] == '.' {
      assert s == "..";
    }
  }

  /** One segment applied to the stack: empty and "." segments change nothing, ".."
      drops the last segment unless it is itself "..", and otherwise, above the
      root, is kept only when allowed; any other segment is pushed. */
  function Step(stack: seq<string>, seg: string, allowAboveRoot: bool): seq<string> {
    if seg == "" || seg == "." then stack
    else if seg == ".." then
      if |stack| > 0 && stack[|stack| - 1] != ".." then stack[..|stack| - 1]
      else if allowAboveRoot then stack + [".."]
      else stack
    else stack + [seg]
  }

  /** The stack after all segments, from left to right. */
  function Resolve(segs: seq<string>, allowAboveRoot: bool): seq<string> {
    if |segs| == 0 then []
    else Step(Resolve(segs[..|segs| - 1], allowAboveRoot), segs[|segs| - 1], allowAboveRoot)
  }

  /** The segments `normalizePathSegments(path, allowAboveRoot)` keeps. */
  function NormalizedSegments(path: string, allowAboveRoot: bool): seq<string> {
    Resolve(Split(path, '/'), allowAboveRoot)
  }

  /** What `normalizePathSegments(path, allowAboveRoot)` returns. */
  function Normalized(path: string, allowAboveRoot: bool): string {
    Join(NormalizedSegments(path, allowAboveRoot), "/")
  }

  /** A normalised stack: no empty or "." segment, no "/" inside a segment, and
      ".." only when going above the root is allowed and only right after another
      ".." or at the start (so only in a leading run, as `CleanLeading` shows). */
  predicate Clean(stack: seq<string>, allowAboveRoot: bool) {
    forall i :: 0 <= i < |stack| ==> CleanAt(stack, i, allowAboveRoot)
  }

  predicate CleanAt(stack: seq<string>, i: int, allowAboveRoot: bool)
    requires 0 <= i < |stack|
  {
    && stack[i] != "" && stack[i] != "." && '/' !in stack[i]
    && (stack[i] == ".." ==> allowAboveRoot && (i == 0 || stack[i - 1] == ".."))
  }

  /** What a normalised stack says about each of its segments. */
  lemma CleanSegments(stack: seq<string>, allowAboveRoot: bool)
    requires Clean(stack, allowAboveRoot)
    ensures forall i :: 0 <= i < |stack| ==> stack[i] != "" && '/' !in stack[i]
    ensures !allowAboveRoot ==> ".." !in stack
  {
    forall i | 0 <= i < |stack|
      ensures stack[i] != "" && '/' !in stack[i] && (!allowAboveRoot ==> stack[i] != "..")
    {
      assert CleanAt(stack, i, allowAboveRoot);
    }
  }

  /** In a normalised stack every segment before a ".." is "..". */
  lemma CleanLeading(stack: seq<string>, allowAboveRoot: bool, i: int, j: int)
    requires Clean(stack, allowAboveRoot)
    requires 0 <= j < i < |stack| && stack[i] == ".."
    ensures stack[j] == ".."
    decreases i - j
  {
    assert CleanAt(stack, i, allowAboveRoot);
    if j < i - 1 {
      CleanLeading(stack, allowAboveRoot, i - 1, j);
    }
  }

  /** Dropping the last segment keeps a stack normalised. */
  lemma CleanInit(stack: seq<string>, allowAboveRoot: bool)
    requires Clean(stack, allowAboveRoot) && |stack| > 0
    ensures Clean(stack[..|stack| - 1], allowAboveRoot)
  {
    var init := stack[..|stack| - 1];
    forall i | 0 <= i < |init|
      ensures CleanAt(init, i, allowAboveRoot)
    {
      assert CleanAt(stack, i, allowAboveRoot);
      assert init[i] == stack[i];
      if i > 0 {
        assert init[i - 1] == stack[i - 1];
      }
    }
  }

  /** Pushing a segment keeps a stack normalised when the segment may go there. */
  lemma CleanPush(stack: seq<string>, seg: string, allowAboveRoot: bool)
    requires Clean(stack, allowAboveRoot)
    requires seg != "" && seg != "." && '/' !in seg
    requires seg == ".." ==> allowAboveRoot && (|stack| == 0 || stack[|stack| - 1] == "..")
    ensures Clean(stack + [seg], allowAboveRoot)
  {
    var s := stack + [seg];
    forall i | 0 <= i < |s|
      ensures CleanAt(s, i, allowAboveRoot)
    {
      if i < |stack| {
        assert CleanAt(stack, i, allowAboveRoot);
        assert s[i] == stack[i];
        if i > 0 {
          assert s[i - 1] == stack[i - 1];
        }
      } else if i > 0 {
        assert s[i - 1] == stack[|stack| - 1];
      }
    }
  }

  lemma StepClean(stack: seq<string>, seg: string, allowAboveRoot: bool)
    requires Clean(stack, allowAboveRoot) && '/' !in seg
    ensures Clean(Step(stack, seg, allowAboveRoot), allowAboveRoot)
  {
    if seg == "" || seg == "." {
    } else if seg == ".." {
      if |stack| > 0 && stack[|stack| - 1] != ".." {
        CleanInit(stack, allowAboveRoot);
      } else if allowAboveRoot {
        CleanPush(stack, seg, allowAboveRoot);
      }
    } else {
      CleanPush(stack, seg, allowAboveRoot);
    }
  }

  /** Whatever the input, the stack is normalised. */
  lemma {:induction false} ResolveClean(segs: seq<string>, allowAboveRoot: bool)
    requires forall i :: 0 <= i < |segs| ==> '/' !in segs[i]
    ensures Clean(Resolve(segs, allowAboveRoot), allowAboveRoot)
  {
    if |segs| > 0 {
      ResolveClean(segs[..|segs| - 1], allowAboveRoot);
      StepClean(Resolve(segs[..|segs| - 1], allowAboveRoot), segs[|segs| - 1], allowAboveRoot);
    }
  }

  /** A normalised stack is left as it is. */
  lemma {:induction false} ResolveFixes(stack: seq<string>, allowAboveRoot: bool)
    requires Clean(stack, allowAboveRoot)
    ensures Resolve(stack, allowAboveRoot) == stack
  {
    if |stack| > 0 {
      var init := stack[..|stack| - 1];
      CleanInit(stack, allowAboveRoot);
      ResolveFixes(init, allowAboveRoot);
      var last := stack[|stack| - 1];
      assert stack == init + [last];
      assert CleanAt(stack, |stack| - 1, allowAboveRoot);
      if last == ".." && |init| > 0 {
        assert init[|init| - 1] == stack[|stack| - 2];
      }
    }
  }

  /** Joining segments free of "/" and splitting again gives them back. */
  lemma {:induction false} SplitJoinSegments(stack: seq<string>)
    requires |stack| >= 1
    requires forall i :: 0 <= i < |stack| ==> '/' !in stack[i]
    ensures Split(Join(stack, "/"), '/') == stack
  {
    if |stack| == 1 {
      assert Split(stack[0], '/') == [stack[0]];
    } else {
      var init := stack[..|stack| - 1];
      var last := stack[|stack| - 1];
      SplitJoinSegments(init);
      SplitLast(Join(init, "/"), '/', last);
      assert stack == init + [last];
    }
  }

  /** The output has no empty or "." segment, and ".." only as a leading run and
      only when allowed: never when `allowAboveRoot` is false. */
  lemma NormalizedClean(path: string, allowAboveRoot: bool)
    ensures var out := Normalized(path, allowAboveRoot);
      out == "" || Clean(Split(out, '/'), allowAboveRoot)
    ensures !allowAboveRoot ==> ".." !in Split(Normalized(path, allowAboveRoot), '/')
  {
    var st := NormalizedSegments(path, allowAboveRoot);
    ResolveClean(Split(path, '/'), allowAboveRoot);
    if |st| > 0 {
      CleanSegments(st, allowAboveRoot);
      SplitJoinSegments(st);
    } else {
      assert Split("", '/') == [""];
    }
  }

  /** Normalising twice is normalising once. */
  lemma NormalizedIdempotent(path: string, allowAboveRoot: bool)
    ensures Normalized(Normalized(path, allowAboveRoot), allowAboveRoot) == Normalized(path, allowAboveRoot)
  {
    var st := NormalizedSegments(path, allowAboveRoot);
    ResolveClean(Split(path, '/'), allowAboveRoot);
    if |st| > 0 {
      CleanSegments(st, allowAboveRoot);
      SplitJoinSegments(st);
      ResolveFixes(st, allowAboveRoot);
    } else {
      assert Split("", '/') == [""];
      assert Resolve([""], allowAboveRoot) == Step([], "", allowAboveRoot);
    }
  }

  // ---------------------------------------------------------------------------
  // The character scan

  /** The segments closed by the slashes up to position `lastSlash`. */
  function Done(path: string, lastSlash: int): seq<string>
    requires -1 <= lastSlash <= |path|
  {
    if lastSlash < 0 then [] else Split(path[..lastSlash], '/')
  }

  /** The next slash closes the segment since the previous one. */
  lemma DoneNext(path: string, lastSlash: int, i: int)
    requires -1 <= lastSlash < i <= |path|
    requires LastIndexOf(path[..i], '/') == lastSlash
    ensures '/' !in path[lastSlash + 1..i]
    ensures Done(path, i) == Done(path, lastSlash) + [path[lastSlash + 1..i]]
  {
    LastSlashFacts(path, lastSlash, i);
    SplitSegment(path, lastSlash, i);
  }

  /** What the last slash before `i` says about the characters around it. */
  lemma LastSlashFacts(path: string, lastSlash: int, i: int)
    requires -1 <= lastSlash < i <= |path|
    requires LastIndexOf(path[..i], '/') == lastSlash
    ensures '/' !in path[lastSlash + 1..i]
    ensures lastSlash >= 0 ==> path[lastSlash] == '/'
  {
    LastIndexOfLast(path[..i], '/');
    assert path[..i][lastSlash + 1..] == path[lastSlash + 1..i];
    if lastSlash >= 0 {
      assert path[..i][lastSlash] == path[lastSlash];
    }
  }

  lemma SplitSegment(path: string, lastSlash: int, i: int)
    requires -1 <= lastSlash < i <= |path|
    requires lastSlash >= 0 ==> path[lastSlash] == '/'
    requires '/' !in path[lastSlash + 1..i]
    ensures Done(path, i) == Done(path, lastSlash) + [path[lastSlash + 1..i]]
  {
    if lastSlash < 0 {
      assert path[..i] == path[lastSlash + 1..i];
      assert Split(path[..i], '/') == [path[..i]];
    } else {
      assert path[..i] == path[..lastSlash] + ['/'] + path[lastSlash + 1..i];
      SplitLast(path[..lastSlash], '/', path[lastSlash + 1..i]);
    }
  }

  lemma ResolveSnoc(segs: seq<string>, seg: string, allowAboveRoot: bool)
    ensures Resolve(segs + [seg], allowAboveRoot) == Step(Resolve(segs, allowAboveRoot), seg, allowAboveRoot)
  {
    assert (segs + [seg])[..|segs|] == segs;
  }

  /** One more character of the current segment. */
  lemma SegmentNext(path: string, lastSlash: int, i: int)
    requires -1 <= lastSlash < i < |path| && path[i] != '/'
    requires LastIndexOf(path[..i], '/') == lastSlash
    ensures LastIndexOf(path[..i + 1], '/') == lastSlash
    ensures DotCount(path[lastSlash + 1..i + 1])
         == var d := DotCount(path[lastSlash + 1..i]); if path[i] == '.' && d != -1 then d + 1 else -1
  {
    var t := path[..i + 1];
    assert t[..i] == path[..i];
    var s := path[lastSlash + 1..i + 1];
    assert s[..|s| - 1] == path[lastSlash + 1..i];
  }

  /** A slash is the last one so far. */
  lemma SlashNext(path: string, i: int)
    requires 0 <= i < |path| && path[i] == '/'
    ensures LastIndexOf(path[..i + 1], '/') == i
  {
    assert path[..i + 1][i] == '/';
  }

  function LastLength(stack: seq<string>): int {
    if |stack| == 0 then 0 else |stack[|stack| - 1]|
  }

  /** Where the last segment of a joined stack starts. */
  lemma LastSegment(stack: seq<string>)
    requires |stack| >= 1
    requires forall i :: 0 <= i < |stack| ==> '/' !in stack[i]
    ensures var res := Join(stack, "/"); var k := LastIndexOf(res, '/');
      && k == (if |stack| == 1 then -1 else |Join(stack[..|stack| - 1], "/")|)
      && |res| - 1 - k == |stack[|stack| - 1]|
      && (|stack| >= 2 ==> res[..k] == Join(stack[..|stack| - 1], "/"))
      && res[|res| - |stack[|stack| - 1]|..] == stack[|stack| - 1]
  {
    var last := stack[|stack| - 1];
    if |stack| >= 2 {
      var front := Join(stack[..|stack| - 1], "/");
      LastIndexOfAt(front, '/', last);
      assert (front + ['/'] + last)[..|front|] == front;
    }
  }

  /** Two or more non-empty segments join to at least three characters. */
  lemma JoinLong(stack: seq<string>)
    requires |stack| >= 2
    requires forall i :: 0 <= i < |stack| ==> stack[i] != ""
    ensures |Join(stack, "/")| >= 3
  {
    var init := stack[..|stack| - 1];
    if |init| == 1 {
      assert Join(init, "/") == init[0];
    } else {
      JoinLong(init);
    }
  }

  /** The scan's test for "the last segment is not ..", on the joined text. */
  lemma LastNotDotDot(stack: seq<string>, allowAboveRoot: bool)
    requires Clean(stack, allowAboveRoot)
    ensures var res := Join(stack, "/");
      (|res| < 2 || LastLength(stack) != 2 || res[|res| - 1] != '.' || res[|res| - 2] != '.')
      <==> (|stack| == 0 || stack[|stack| - 1] != "..")
  {
    CleanSegments(stack, allowAboveRoot);
    if |stack| > 0 {
      var res := Join(stack, "/");
      var last := stack[|stack| - 1];
      LastSegment(stack);
      if last == ".." {
        assert res[|res| - 2..] == "..";
      }
      if |res| >= 2 && |last| == 2 && res[|res| - 1] == '.' && res[|res| - 2] == '.' {
        assert last == res[|res| - 2..];
      }
    }
  }

  /** Dropping the last segment of the joined text, as the scan does it. */
  lemma PopJoined(stack: seq<string>, allowAboveRoot: bool)
    requires Clean(stack, allowAboveRoot) && |stack| > 0
    ensures var res := Join(stack, "/"); var k := LastIndexOf(res, '/');
      && (k == -1 <==> |stack| == 1)
      && (|res| <= 2 ==> |stack| == 1)
      && (k != -1 ==> res[..k] == Join(stack[..|stack| - 1], "/")
                      && |res[..k]| - 1 - LastIndexOf(res[..k], '/') == LastLength(stack[..|stack| - 1]))
  {
    CleanSegments(stack, allowAboveRoot);
    LastSegment(stack);
    if |stack| >= 2 {
      JoinLong(stack);
      var init := stack[..|stack| - 1];
      CleanInit(stack, allowAboveRoot);
      CleanSegments(init, allowAboveRoot);
      LastSegment(init);
    }
  }

  /** The ".." branch of the scan, on `res` and `lastSegmentLength`. */
  method DotDot(res0: string, lastSegmentLength0: int, allowAboveRoot: bool, ghost stack: seq<string>)
    returns (res: string, lastSegmentLength: int)
    requires Clean(stack, allowAboveRoot)
    requires res0 == Join(stack, "/") && lastSegmentLength0 == LastLength(stack)
    ensures res == Join(Step(stack, "..", allowAboveRoot), "/")
    ensures lastSegmentLength == LastLength(Step(stack, "..", allowAboveRoot))
  {
    res, lastSegmentLength := res0, lastSegmentLength0;
    LastNotDotDot(stack, allowAboveRoot);
    if |res| < 2 || lastSegmentLength != 2 || res[|res| - 1] != '.' || res[|res| - 2] != '.' {
      if |stack| > 0 {
        PopJoined(stack, allowAboveRoot);
      }
      if |res| > 2 {
        var lastSlashIndex := LastIndexOf(res, '/');
        if lastSlashIndex == -1 {
          res := "";
          lastSegmentLength := 0;
        } else {
          res := res[..lastSlashIndex];
          lastSegmentLength := |res| - 1 - LastIndexOf(res, '/');
        }
        return;
      } else if |res| != 0 {
        res := "";
        lastSegmentLength := 0;
        return;
      }
    }
    if allowAboveRoot {
      if |stack| > 0 {
        CleanSegments(stack, allowAboveRoot);
        LastSegment(stack);
        JoinLast(stack, "..", "/");
        Associative(res, "/", "..");
      }
      res := res + (if |res| > 0 then "/.." else "..");
      lastSegmentLength := 2;
    }
  }

  /** The branch taken at a slash: the segment since the previous slash applied. */
  method CloseSegment(path: string, lastSlash: int, i: int, res0: string, lastSegmentLength0: int, dots: int,
                      allowAboveRoot: bool, ghost stack: seq<string>)
    returns (res: string, lastSegmentLength: int)
    requires -1 <= lastSlash < i <= |path|
    requires dots == DotCount(path[lastSlash + 1..i]) && '/' !in path[lastSlash + 1..i]
    requires Clean(stack, allowAboveRoot)
    requires res0 == Join(stack, "/") && lastSegmentLength0 == LastLength(stack)
    ensures res == Join(Step(stack, path[lastSlash + 1..i], allowAboveRoot), "/")
    ensures lastSegmentLength == LastLength(Step(stack, path[lastSlash + 1..i], allowAboveRoot))
  {
    ghost var seg := path[lastSlash + 1..i];
    DotCountSegments(seg);
    CleanSegments(stack, allowAboveRoot);
    res, lastSegmentLength := res0, lastSegmentLength0;
    if lastSlash == i - 1 || dots == 1 {
    } else if dots == 2 {
      res, lastSegmentLength := DotDot(res, lastSegmentLength, allowAboveRoot, stack);
    } else {
      if |res| > 0 {
        assert |stack| > 0;
        JoinLast(stack, seg, "/");
        res := res + "/" + path[lastSlash + 1..i];
      } else {
        assert |stack| == 0 by {
          if |stack| > 0 {
            LastSegment(stack);
          }
        }
        res := path[lastSlash + 1..i];
      }
      lastSegmentLength := i - lastSlash - 1;
    }
  }

  /** `normalizePathSegments`: one pass over the characters and a final virtual "/". */
  method NormalizePathSegments(path: string, allowAboveRoot: bool) returns (res: string)
    ensures res == Normalized(path, allowAboveRoot)
  {
    res := "";
    var lastSegmentLength := 0;
    var lastSlash := -1;
    var dots := 0;
    var code := '\0';
    ghost var stack: seq<string> := [];
    ghost var segs: seq<string> := [];
    var i := 0;
    while i <= |path|
      invariant 0 <= i <= |path| + 1
      invariant -1 <= lastSlash < i && lastSlash <= |path|
      invariant i <= |path| ==> LastIndexOf(path[..i], '/') == lastSlash && dots == DotCount(path[lastSlash + 1..i])
      invariant i == |path| + 1 ==> lastSlash == |path|
      invariant code == if i == 0 then '\0' else if i <= |path| then path[i - 1] else '/'
      invariant segs == Done(path, lastSlash) && stack == Resolve(segs, allowAboveRoot)
      invariant Clean(stack, allowAboveRoot)
      invariant res == Join(stack, "/") && lastSegmentLength == LastLength(stack)
      decreases |path| + 1 - i
    {
      if i < |path| {
        code := path[i];
      } else if code == '/' {
        assert path[..i][i - 1] == '/';
        DoneNext(path, lastSlash, i);
        ResolveSnoc(segs, "", allowAboveRoot);
        assert path[..|path|] == path;
        return;
      } else {
        code := '/';
      }
      if code == '/' {
        ghost var seg := path[lastSlash + 1..i];
        DoneNext(path, lastSlash, i);
        res, lastSegmentLength := CloseSegment(path, lastSlash, i, res, lastSegmentLength, dots, allowAboveRoot, stack);
        ResolveSnoc(segs, seg, allowAboveRoot);
        StepClean(stack, seg, allowAboveRoot);
        segs := segs + [seg];
        stack := Step(stack, seg, allowAboveRoot);
        if i < |path| {
          SlashNext(path, i);
        }
        lastSlash := i;
        dots := 0;
      } else {
        SegmentNext(path, lastSlash, i);
        if code == '.' && dots != -1 {
          dots := dots + 1;
        } else {
          dots := -1;
        }
      }
      i := i + 1;
    }
    assert path[..|path|] == path;
  }

  // ---------------------------------------------------------------------------
  // `resolvePath`

  /** The text the right-to-left loop of `resolvePath` builds from `paths` in
      front of `acc`, and whether it met an absolute path; past the first
      argument it meets the root "/" it starts from. */
  function Gather(paths: seq<string>, acc: string): (string, bool) {
    if |paths| == 0 then ("/" + "/" + acc, true)
    else
      var p := paths[|paths| - 1];
      if p == "" then Gather(paths[..|paths| - 1], acc)
      else if StartsWith(p, "/") then (p + "/" + acc, true)
      else Gather(paths[..|paths| - 1], p + "/" + acc)
  }

  /** What `resolvePath(...paths)` returns. */
  function ResolvedPath(paths: seq<string>): string {
    var g := Gather(paths, "");
    var n := Normalized(g.0, !g.1);
    if g.1 then "/" + n else if |n| > 0 then n else "."
  }

  /** `resolvePath`: join from the right until an absolute path, then normalise. */
  method ResolvePath(paths: seq<string>) returns (r: string)
    ensures r == ResolvedPath(paths)
  {
    var resolvedPath := "";
    var resolvedAbsolute := false;
    var i := |paths| - 1;
    assert paths[..i + 1] == paths;
    while i >= -1 && !resolvedAbsolute
      invariant -2 <= i < |paths|
      invariant i == -2 ==> resolvedAbsolute
      invariant !resolvedAbsolute ==> Gather(paths[..i + 1], resolvedPath) == Gather(paths, "")
      invariant resolvedAbsolute ==> (resolvedPath, true) == Gather(paths, "")
      decreases i + 2
    {
      var path := if i >= 0 then paths[i] else "/";
      if path != "" {
        assert i >= 0 ==> paths[..i + 1][..i] == paths[..i];
        resolvedPath := path + "/" + resolvedPath;
        resolvedAbsolute := StartsWith(path, "/");
      } else {
        assert paths[..i + 1][..i] == paths[..i];
      }
      i := i - 1;
    }
    resolvedPath := NormalizePathSegments(resolvedPath, !resolvedAbsolute);
    if resolvedAbsolute {
      return "/" + resolvedPath;
    }
    return if |resolvedPath| > 0 then resolvedPath else ".";
  }

  /** The loop always ends on an absolute path: at the latest the root. */
  lemma {:induction false} GatherAbsolute(paths: seq<string>, acc: string)
    ensures Gather(paths, acc).1
    decreases |paths|
  {
    if |paths| > 0 {
      var p := paths[|paths| - 1];
      if p == "" {
        GatherAbsolute(paths[..|paths| - 1], acc);
      } else if !StartsWith(p, "/") {
        GatherAbsolute(paths[..|paths| - 1], p + "/" + acc);
      }
    }
  }

  /** The result is absolute and normalised: it starts with "/", and after that
      has no empty, "." or ".." segment (nothing climbs above the root). */
  lemma ResolvedPathAbsolute(paths: seq<string>)
    ensures var r := ResolvedPath(paths);
      && |r| >= 1 && r[0] == '/'
      && (r == "/" || Clean(Split(r[1..], '/'), false))
      && ".." !in Split(r[1..], '/')
  {
    var g := Gather(paths, "");
    GatherAbsolute(paths, "");
    NormalizedClean(g.0, false);
    assert ResolvedPath(paths)[1..] == Normalized(g.0, false);
  }

  /** Empty arguments are skipped. */
  lemma {:induction false} GatherSkipsEmpty(a: seq<string>, b: seq<string>, acc: string)
    ensures Gather(a + [""] + b, acc) == Gather(a + b, acc)
    decreases |b|
  {
    if |b| == 0 {
      assert (a + [""] + b)[..|a|] == a;
      assert a + b == a;
    } else {
      var x := a + [""] + b;
      var y := a + b;
      var last := b[|b| - 1];
      var b' := b[..|b| - 1];
      assert x[|x| - 1] == last && y[|y| - 1] == last;
      assert x[..|x| - 1] == a + [""] + b';
      assert y[..|y| - 1] == a + b';
      GatherSkipsEmpty(a, b', acc);
      GatherSkipsEmpty(a, b', last + "/" + acc);
    }
  }

  lemma ResolvedPathSkipsEmpty(a: seq<string>, b: seq<string>)
    ensures ResolvedPath(a + [""] + b) == ResolvedPath(a + b)
  {
    GatherSkipsEmpty(a, b, "");
  }

  /** Everything left of an absolute argument is ignored. */
  lemma {:induction false} GatherRestarts(a: seq<string>, p: string, b: seq<string>, acc: string)
    requires StartsWith(p, "/")
    ensures Gather(a + [p] + b, acc) == Gather([p] + b, acc)
    decreases |b|
  {
    if |b| > 0 {
      var x := a + [p] + b;
      var y := [p] + b;
      var last := b[|b| - 1];
      var b' := b[..|b| - 1];
      assert x[|x| - 1] == last && y[|y| - 1] == last;
      assert x[..|x| - 1] == a + [p] + b';
      assert y[..|y| - 1] == [p] + b';
      GatherRestarts(a, p, b', acc);
      GatherRestarts(a, p, b', last + "/" + acc);
    } else {
      assert (a + [p] + b)[|a|] == p;
      assert ([p] + b)[0] == p;
    }
  }

  lemma ResolvedPathRestarts(a: seq<string>, p: string, b: seq<string>)
    requires StartsWith(p, "/")
    ensures ResolvedPath(a + [p] + b) == ResolvedPath([p] + b)
  {
    GatherRestarts(a, p, b, "");
  }

  // ---------------------------------------------------------------------------
  // Resolving a relative path against a directory

  /** A leading empty segment (the one before a leading "/") changes nothing. */
  lemma {:induction false} ResolveLeadingEmpty(segs: seq<string>, allowAboveRoot: bool)
    ensures Resolve([""] + segs, allowAboveRoot) == Resolve(segs, allowAboveRoot)
    decreases |segs|
  {
    if |segs| == 0 {
      assert Resolve([""], allowAboveRoot) == Step([], "", allowAboveRoot);
    } else {
      var init := segs[..|segs| - 1];
      var last := segs[|segs| - 1];
      assert [""] + segs == ([""] + init) + [last];
      assert segs == init + [last];
      ResolveLeadingEmpty(init, allowAboveRoot);
      ResolveSnoc([""] + init, last, allowAboveRoot);
      ResolveSnoc(init, last, allowAboveRoot);
    }
  }

  /** The segments of a text written between slashes: an empty one on each side. */
  lemma SplitBetweenSlashes(j: string, parts: seq<string>)
    requires Split(j, '/') == parts
    ensures Split("/" + j + "/", '/') == [""] + parts + [""]
  {
    var none: string := "";
    assert "/" + j == none + ['/'] + j;
    SplitAtFirst(none, '/', j);
    assert "/" + j + "/" == ("/" + j) + ['/'] + none;
    SplitLast("/" + j, '/', none);
  }

  /** The empty segments on each side of a normalised stack are dropped. */
  lemma ResolveBetweenSlashes(stack: seq<string>, allowAboveRoot: bool)
    requires Clean(stack, allowAboveRoot)
    ensures Resolve([""] + stack + [""], allowAboveRoot) == stack
  {
    ResolveSnoc([""] + stack, "", allowAboveRoot);
    ResolveLeadingEmpty(stack, allowAboveRoot);
    ResolveFixes(stack, allowAboveRoot);
  }

  /** A normalised stack written between slashes normalises to itself. */
  lemma NormalizedOfClean(stack: seq<string>, allowAboveRoot: bool)
    requires |stack| >= 1 && Clean(stack, allowAboveRoot)
    ensures Normalized("/" + Join(stack, "/") + "/", allowAboveRoot) == Join(stack, "/")
  {
    CleanSegments(stack, allowAboveRoot);
    SplitJoinSegments(stack);
    SplitBetweenSlashes(Join(stack, "/"), stack);
    ResolveBetweenSlashes(stack, allowAboveRoot);
  }

  /** Without "..", two normalised stacks put together stay normalised. */
  lemma CleanConcat(a: seq<string>, b: seq<string>)
    requires Clean(a, false) && Clean(b, false)
    ensures Clean(a + b, false)
  {
    var s := a + b;
    forall i | 0 <= i < |s| ensures CleanAt(s, i, false) {
      if i < |a| {
        assert CleanAt(a, i, false);
        assert s[i] == a[i];
      } else {
        assert CleanAt(b, i - |a|, false);
        assert s[i] == b[i - |a|];
      }
    }
  }

  /** Resolving a normalised relative path against a normalised absolute
      directory appends its segments to the directory's. */
  lemma ResolvedPathJoin(a: seq<string>, b: seq<string>)
    requires |a| >= 1 && |b| >= 1 && Clean(a, false) && Clean(b, false)
    ensures ResolvedPath(["/" + Join(a, "/"), Join(b, "/")]) == "/" + Join(a + b, "/")
  {
    var dir, rel := "/" + Join(a, "/"), Join(b, "/");
    RelativeStart(b);
    GatherPair(dir, rel);
    JoinConcat(a, b, "/");
    Wrapped(Join(a, "/"), rel, Join(a + b, "/"));
    CleanConcat(a, b);
    NormalizedOfClean(a + b, false);
  }

  /** A normalised stack joins to a non-empty text that does not start with "/". */
  lemma RelativeStart(b: seq<string>)
    requires |b| >= 1 && Clean(b, false)
    ensures Join(b, "/") != "" && !StartsWith(Join(b, "/"), "/")
  {
    assert CleanAt(b, 0, false);
    JoinStarts(b, "/");
    assert Join(b, "/")[0] == b[0][0];
  }

  /** The loop on a relative path after an absolute one. */
  lemma GatherPair(dir: string, rel: string)
    requires StartsWith(dir, "/") && rel != "" && !StartsWith(rel, "/")
    ensures Gather([dir, rel], "") == (dir + "/" + (rel + "/"), true)
  {
    assert [dir, rel][..1] == [dir];
    assert [dir][..0] == [];
    var none: string := "";
    assert rel + "/" + none == rel + "/";
    assert Gather([dir, rel], "") == Gather([dir], rel + "/");
  }

  lemma Wrapped(x: string, y: string, z: string)
    requires z == x + "/" + y
    ensures "/" + x + "/" + (y + "/") == "/" + z + "/"
  {
  }
}
