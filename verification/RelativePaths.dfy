/** The bounded-buffer normaliser for relative paths, and what a path means before and after it. */
module RelativePaths {
  import opened Sequences
  import opened CStrings

  predicate IsKept(segment: string) {
    segment != "" && segment != "."
  }

  ghost function KeptTest(): string -> bool {
    (segment: string) => IsKept(segment)
  }

  /** The segments that name something: not empty, not ".". */
  ghost function KeptSegments(path: string): seq<string> {
    Filter(KeptTest(), Split(path, '/'))
  }

  ghost predicate HasParent(path: string) {
    ".." in Split(path, '/')
  }

  /** What normalising into a buffer of n bytes should yield. */
  ghost function Normalized(path: string, n: nat): Option<string> {
    if (path != "" && path[0] == '/') || HasParent(path) || KeptSegments(path) == [] ||
       |Join(KeptSegments(path), '/')| >= n
    then None
    else Some(Join(KeptSegments(path), '/'))
  }

  // ----- the loop's steps, on values

  /** What is still ahead in the path: its kept segments, and whether there is a "..". */
  ghost predicate Ahead(path: string, ro: nat, done: seq<string>) {
    ro <= |path| && KeptSegments(path) == done + KeptSegments(path[ro..]) &&
    (HasParent(path) <==> HasParent(path[ro..]))
  }

  lemma AheadInit(path: string)
    ensures Ahead(path, 0, [])
  {
    assert path[0..] == path && [] + KeptSegments(path) == KeptSegments(path);
  }

  lemma SlashAhead(path: string, ro: nat)
    requires ro < |path| && path[ro] == '/'
    ensures KeptSegments(path[ro..]) == KeptSegments(path[ro + 1..])
    ensures HasParent(path[ro..]) <==> HasParent(path[ro + 1..])
  {
    var rest := Split(path[ro + 1..], '/');
    assert path[ro..][1..] == path[ro + 1..];
    assert Split(path[ro..], '/') == [""] + rest;
    assert ([""] + rest)[1..] == rest;
    assert Filter(KeptTest(), [""] + rest) == Filter(KeptTest(), rest);
  }

  lemma SegmentAhead(path: string, ro: nat, end: nat)
    requires ro < end <= |path| && '/' !in path[ro..end] && (end < |path| ==> path[end] == '/')
    ensures KeptSegments(path[ro..]) ==
            (if IsKept(path[ro..end]) then [path[ro..end]] else []) + KeptSegments(path[end..])
    ensures HasParent(path[ro..]) <==> path[ro..end] == ".." || HasParent(path[end..])
  {
    var segment := path[ro..end];
    if end < |path| {
      assert path[ro..] == segment + ['/'] + path[end + 1..];
      SplitHead(segment, path[end + 1..], '/');
      SlashAhead(path, end);
      HeadSegment(segment, Split(path[end + 1..], '/'));
    } else {
      assert path[ro..] == segment && path[end..] == "";
      SplitPiece(segment, '/');
      HeadSegment(segment, []);
      assert KeptSegments("") == [];
    }
  }

  lemma HeadSegment(segment: string, rest: seq<string>)
    ensures Filter(KeptTest(), [segment] + rest) ==
            (if IsKept(segment) then [segment] else []) + Filter(KeptTest(), rest)
  {
    assert ([segment] + rest)[1..] == rest;
  }

  lemma StepSegment(path: string, ro: nat, end: nat, done: seq<string>)
    requires Ahead(path, ro, done)
    requires ro < end <= |path| && '/' !in path[ro..end] && (end < |path| ==> path[end] == '/')
    ensures path[ro..end] != ".." ==>
              Ahead(path, end, if IsKept(path[ro..end]) then done + [path[ro..end]] else done)
    ensures path[ro..end] == ".." ==> HasParent(path)
    ensures IsKept(path[ro..end]) ==>
              |Join(done + [path[ro..end]], '/')| <= |Join(KeptSegments(path), '/')|
  {
    hide KeptSegments, HasParent, Join;
    SegmentAhead(path, ro, end);
    var segment, later := path[ro..end], KeptSegments(path[end..]);
    if IsKept(segment) {
      assert done + ([segment] + later) == (done + [segment]) + later;
      JoinGrows(done + [segment], later, '/');
    } else {
      assert [] + later == later;
    }
  }

  // ----- the normaliser

  method SkipSlashes(path: string, ro: nat) returns (ro': nat)
    requires ro <= |path|
    ensures ro <= ro' <= |path| && (ro' < |path| ==> path[ro'] != '/')
    ensures KeptSegments(path[ro..]) == KeptSegments(path[ro'..])
    ensures HasParent(path[ro..]) <==> HasParent(path[ro'..])
  {
    hide KeptSegments, HasParent;
    ro' := ro;
    while ro' < |path| && path[ro'] == '/'
      invariant ro <= ro' <= |path|
      invariant KeptSegments(path[ro..]) == KeptSegments(path[ro'..])
      invariant HasParent(path[ro..]) <==> HasParent(path[ro'..])
    {
      SlashAhead(path, ro');
      ro' := ro' + 1;
    }
  }

  method SegmentEnd(path: string, ro: nat) returns (end: nat)
    requires ro < |path| && path[ro] != '/'
    ensures ro < end <= |path| && '/' !in path[ro..end] && (end < |path| ==> path[end] == '/')
  {
    end := ro;
    while end < |path| && path[end] != '/'
      invariant ro <= end <= |path|
      invariant forall k :: ro <= k < end ==> path[k] != '/'
    {
      end := end + 1;
    }
  }

  /** Appends one segment, with a slash before it unless it is the first. */
  method AppendSegment(buffer: array<char>, wo: nat, segment: string, ghost done: seq<string>)
      returns (ok: bool, wo': nat)
    requires wo <= buffer.Length && buffer[..wo] == Join(done, '/') && (wo == 0 <==> done == []) && segment != ""
    modifies buffer
    ensures ok <==> |Join(done + [segment], '/')| < buffer.Length
    ensures ok ==> 0 < wo' < buffer.Length && buffer[..wo'] == Join(done + [segment], '/')
  {
    JoinSnoc(done, segment, '/');
    ghost var before := Join(done, '/');
    wo' := wo;
    if wo' != 0 {
      if wo' + 1 >= buffer.Length {
        return false, wo';
      }
      buffer[wo'] := '/';
      wo' := wo' + 1;
      assert buffer[..wo'] == before + ['/'];
    }
    if wo' + |segment| >= buffer.Length {
      return false, wo';
    }
    ghost var front := buffer[..wo'];
    forall i | 0 <= i < |segment| {
      buffer[wo' + i] := segment[i];
    }
    assert buffer[..wo' + |segment|] == front + segment;
    ok, wo' := true, wo' + |segment|;
  }

  ghost predicate HoldsCString(buffer: array<char>, s: string)
    reads buffer
  {
    |s| < buffer.Length && buffer[..|s|] == s && buffer[|s|] == '\0'
  }

  method NormalizeRelativePath(path: Option<string>, buffer: array?<char>) returns (ok: bool)
    modifies buffer
    ensures path.None? || buffer == null ==> !ok
    ensures path.Some? && buffer != null ==>
              (ok <==> Normalized(path.value, buffer.Length).Some?) &&
              (ok ==> HoldsCString(buffer, Normalized(path.value, buffer.Length).value))
  {
    hide KeptSegments, HasParent;
    if path.None? || buffer == null || buffer.Length == 0 || (|path.value| > 0 && path.value[0] == '/') {
      return false;
    }
    var p := path.value;
    var ro: nat, wo: nat := 0, 0;
    ghost var done: seq<string> := [];
    AheadInit(p);
    while ro < |p|
      invariant Ahead(p, ro, done) && wo < buffer.Length
      invariant buffer[..wo] == Join(done, '/') && (wo == 0 <==> done == [])
      decreases |p| - ro
    {
      ro := SkipSlashes(p, ro);
      if ro == |p| {
        break;
      }
      var end := SegmentEnd(p, ro);
      StepSegment(p, ro, end, done);
      if p[ro..end] == ".." {
        return false;
      }
      if p[ro..end] != "." {
        var fits;
        fits, wo := AppendSegment(buffer, wo, p[ro..end], done);
        if !fits {
          return false;
        }
        done := done + [p[ro..end]];
      }
      ro := end;
    }
    NothingAhead(p, ro, done);
    if wo == 0 || wo >= buffer.Length {
      return false;
    }
    buffer[wo] := '\0';
    return true;
  }

  lemma NothingAhead(path: string, ro: nat, done: seq<string>)
    requires Ahead(path, ro, done) && ro == |path|
    ensures KeptSegments(path) == done && !HasParent(path)
  {
    assert path[ro..] == "" && Split("", '/') == [""];
    assert KeptSegments("") == [] && done + [] == done;
  }

  // ----- what it promises

  lemma KeptSegmentsProper(path: string)
    ensures SepFree(KeptSegments(path), '/')
    ensures forall s :: s in KeptSegments(path) ==> IsKept(s) && s in Split(path, '/')
  {
    SplitSepFree(path, '/');
    forall s | s in KeptSegments(path) ensures IsKept(s) && s in Split(path, '/') {
      FilterMembers(KeptTest(), Split(path, '/'), s);
    }
  }

  /** Splitting the output gives the kept segments back, and normalising it again changes nothing. */
  lemma NormalizedTwice(path: string, n: nat)
    requires Normalized(path, n).Some?
    ensures var out := Normalized(path, n).value;
            Split(out, '/') == KeptSegments(path) && Normalized(out, n) == Some(out)
  {
    var kept := KeptSegments(path);
    var out := Join(kept, '/');
    KeptSegmentsProper(path);
    SplitJoin(kept, '/');
    FilterAll(KeptTest(), kept);
    assert kept[0] in kept;
    assert out[0] == kept[0][0] && kept[0][0] in kept[0];
  }

  /**
   Normalising succeeds exactly on relative paths without "..", and its result is the one text that splits
   into the segments of the path other than "" and ".", if there are any and the text fits.
   */
  lemma NormalizedExact(path: string, n: nat, out: string, named: string -> bool)
    requires forall s :: named(s) <==> s != "" && s != "."
    ensures Normalized(path, n) == Some(out) <==>
            (path == "" || path[0] != '/') && ".." !in Split(path, '/') &&
            Filter(named, Split(path, '/')) != [] && Split(out, '/') == Filter(named, Split(path, '/')) && |out| < n
  {
    FilterAgree(KeptTest(), named, Split(path, '/'));
    JoinSplit(out, '/');
    if Normalized(path, n) == Some(out) {
      NormalizedTwice(path, n);
    }
  }

  /** The result has only segments that name something below its start. */
  lemma OutputSegments(path: string, n: nat)
    requires Normalized(path, n).Some?
    ensures forall s :: s in Split(Normalized(path, n).value, '/') ==> s != "" && s != "." && s != ".."
  {
    NormalizedTwice(path, n);
    KeptSegmentsProper(path);
  }

  lemma NormalizedKeepsOut(path: string, n: nat, c: char)
    requires Normalized(path, n).Some? && c !in path && c != '/'
    ensures c !in Normalized(path, n).value
  {
    SplitKeepsOut(path, '/', c);
    KeptSegmentsProper(path);
    JoinKeepsOut(KeptSegments(path), '/', c);
  }

  // ----- path resolution, after section 4.13 of IEEE Std 1003.1-2017, Base Definitions

  datatype Node = File(id: int) | Dir(entries: map<string, Node>)

  /** Resolution in a tree without links.  A slash after a name, or ".", asks for a directory. */
  ghost function Resolve(node: Node, segments: seq<string>): Option<Node>
    decreases |segments|
  {
    if segments == [] then Some(node)
    else if node.File? then None
    else if segments[0] == "" || segments[0] == "." then Resolve(node, segments[1..])
    else if segments[0] in node.entries then Resolve(node.entries[segments[0]], segments[1..])
    else None
  }

  lemma {:induction false} ResolveKept(node: Node, segments: seq<string>)
    ensures var kept := Resolve(node, Filter(KeptTest(), segments));
            Resolve(node, segments) ==
            if segments != [] && !IsKept(segments[|segments| - 1]) && kept.Some? && kept.value.File? then None else kept
    decreases |segments|
  {
    if segments != [] && !node.File? {
      var rest := segments[1..];
      assert Filter(KeptTest(), segments) ==
             (if IsKept(segments[0]) then [segments[0]] else []) + Filter(KeptTest(), rest);
      if !IsKept(segments[0]) {
        assert [] + Filter(KeptTest(), rest) == Filter(KeptTest(), rest);
        ResolveKept(node, rest);
      } else if segments[0] in node.entries {
        assert Filter(KeptTest(), segments)[1..] == Filter(KeptTest(), rest);
        ResolveKept(node.entries[segments[0]], rest);
      }
    } else if segments != [] {
      NothingKept(segments);
    }
  }

  /** Either something is kept, or the last segment is not. */
  lemma {:induction false} NothingKept(segments: seq<string>)
    requires segments != []
    ensures Filter(KeptTest(), segments) != [] || !IsKept(segments[|segments| - 1])
  {
    var last := segments[|segments| - 1];
    if IsKept(last) {
      assert last in segments;
      FilterMembers(KeptTest(), segments, last);
    }
  }

  /**
   Normalising preserves what a path resolves to, except that a path ending in a slash or "." that
   names a file does not resolve while its normal form does.
   */
  lemma NormalizingPreservesMeaning(root: Node, path: string, n: nat)
    requires Normalized(path, n).Some?
    ensures var segments := Split(path, '/');
            var after := Resolve(root, Split(Normalized(path, n).value, '/'));
            Resolve(root, segments) ==
            if segments[|segments| - 1] in ["", "."] && after.Some? && after.value.File? then None else after
    ensures Resolve(root, Split(path, '/')).Some? ==>
              Resolve(root, Split(Normalized(path, n).value, '/')) == Resolve(root, Split(path, '/'))
  {
    NormalizedTwice(path, n);
    ResolveKept(root, Split(path, '/'));
  }

  /** The exception is real: where "a" is a file, "a/" does not resolve, and its normal form "a" does. */
  lemma TrailingSlashLost(n: nat)
    requires n >= 2
    ensures var root := Dir(map["a" := File(0)]);
            Normalized("a/", n) == Some("a") &&
            Resolve(root, Split("a/", '/')) == None && Resolve(root, Split("a", '/')) == Some(File(0))
  {
    var root := Dir(map["a" := File(0)]);
    SplitHead("a", "", '/');
    SplitPiece("a", '/');
    SplitPiece("", '/');
    assert "a" + ['/'] + "" == "a/" && ["a"] + [""] == ["a", ""];
    assert KeptSegments("a/") == ["a"];
    assert Resolve(root, ["a", ""]) == Resolve(File(0), ["a", ""][1..]);
  }
}
