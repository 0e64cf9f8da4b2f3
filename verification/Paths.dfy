/** File paths with the Linux separator: gluing components together and taking the last one off. */
module Paths {
  import opened MachineWords
  import opened Outcomes

  const SEPARATOR := '/'

  predicate IsDirectorySeparator(c: char) { c == SEPARATOR }

  predicate IsPathRooted(path: string) { |path| > 0 && IsDirectorySeparator(path[0]) }

  function GetRootLength(path: string): nat { if IsPathRooted(path) then 1 else 0 }

  predicate EndsInSeparator(path: string) { |path| > 0 && IsDirectorySeparator(path[|path| - 1]) }

  predicate SeparatorFree(path: string) { forall i :: 0 <= i < |path| ==> !IsDirectorySeparator(path[i]) }

  // ---- Two at a time ----

  /** A rooted second path replaces the first. */
  function Combine2(a: string, b: string): string {
    if b == "" then a
    else if a == "" || IsPathRooted(b) then b
    else a + (if EndsInSeparator(a) then "" else [SEPARATOR]) + b
  }

  /** A separator only where neither side has one; nothing is ever dropped. */
  function Join2(a: string, b: string): string {
    if b == "" then a
    else if a == "" then b
    else a + (if EndsInSeparator(a) || IsPathRooted(b) then "" else [SEPARATOR]) + b
  }

  function CombineAll(paths: seq<string>): string {
    if paths == [] then "" else Combine2(CombineAll(paths[..|paths| - 1]), paths[|paths| - 1])
  }

  function JoinAll(paths: seq<string>): string {
    if paths == [] then "" else Join2(JoinAll(paths[..|paths| - 1]), paths[|paths| - 1])
  }

  lemma Combine2Associative(a: string, b: string, c: string)
    ensures Combine2(Combine2(a, b), c) == Combine2(a, Combine2(b, c))
  {
    if a != "" && b != "" && c != "" && !IsPathRooted(b) && !IsPathRooted(c) {
      var s, t := if EndsInSeparator(a) then "" else [SEPARATOR], if EndsInSeparator(b) then "" else [SEPARATOR];
      var ab, bc := a + s + b, b + t + c;
      assert ab[|ab| - 1] == b[|b| - 1] && bc[0] == b[0];
      assert ab + t + c == a + s + bc;
    }
  }

  lemma Join2Associative(a: string, b: string, c: string)
    ensures Join2(Join2(a, b), c) == Join2(a, Join2(b, c))
  {
    if a != "" && b != "" && c != "" {
      var s := if EndsInSeparator(a) || IsPathRooted(b) then "" else [SEPARATOR];
      var t := if EndsInSeparator(b) || IsPathRooted(c) then "" else [SEPARATOR];
      var ab, bc := a + s + b, b + t + c;
      assert ab[|ab| - 1] == b[|b| - 1] && bc[0] == b[0];
      assert ab + t + c == a + s + bc;
    }
  }

  /** Combining is a monoid: nested calls flatten, and empty components change nothing. */
  lemma {:induction false} CombineFlattens(xs: seq<string>, ys: seq<string>)
    ensures CombineAll(xs + ys) == CombineAll([CombineAll(xs), CombineAll(ys)])
    ensures CombineAll(xs + [""] + ys) == CombineAll(xs + ys)
  {
    CombineConcat(xs, ys);
    CombineConcat(xs + [""], ys);
    CombinePair(CombineAll(xs), CombineAll(ys));
    assert (xs + [""])[..|xs|] == xs;
  }

  lemma CombinePair(a: string, b: string)
    ensures CombineAll([a, b]) == Combine2(a, b)
  {
    assert [a, b][..1] == [a] && [a][..0] == [];
    assert CombineAll([a]) == Combine2(CombineAll([a][..0]), a);
  }

  lemma {:induction false} CombineConcat(xs: seq<string>, ys: seq<string>)
    ensures CombineAll(xs + ys) == Combine2(CombineAll(xs), CombineAll(ys))
  {
    if ys == [] {
      assert xs + ys == xs;
    } else {
      var k := |ys| - 1;
      assert (xs + ys)[..|xs + ys| - 1] == xs + ys[..k];
      CombineConcat(xs, ys[..k]);
      Combine2Associative(CombineAll(xs), CombineAll(ys[..k]), ys[k]);
    }
  }

  lemma {:induction false} JoinFlattens(xs: seq<string>, ys: seq<string>)
    ensures JoinAll(xs + ys) == JoinAll([JoinAll(xs), JoinAll(ys)])
    ensures JoinAll(xs + [""] + ys) == JoinAll(xs + ys)
  {
    JoinConcat(xs, ys);
    JoinConcat(xs + [""], ys);
    JoinPair(JoinAll(xs), JoinAll(ys));
    assert (xs + [""])[..|xs|] == xs;
  }

  lemma JoinPair(a: string, b: string)
    ensures JoinAll([a, b]) == Join2(a, b)
  {
    assert [a, b][..1] == [a] && [a][..0] == [];
    assert JoinAll([a]) == Join2(JoinAll([a][..0]), a);
  }

  lemma {:induction false} JoinConcat(xs: seq<string>, ys: seq<string>)
    ensures JoinAll(xs + ys) == Join2(JoinAll(xs), JoinAll(ys))
  {
    if ys == [] {
      assert xs + ys == xs;
    } else {
      var k := |ys| - 1;
      assert (xs + ys)[..|xs + ys| - 1] == xs + ys[..k];
      JoinConcat(xs, ys[..k]);
      Join2Associative(JoinAll(xs), JoinAll(ys[..k]), ys[k]);
    }
  }

  /** The two differ exactly where a rooted path would be appended to something. */
  lemma CombineVersusJoin(a: string, b: string)
    ensures Combine2(a, b) == Join2(a, b) <==> a == "" || !IsPathRooted(b)
  {
    if a != "" && IsPathRooted(b) {
      assert |Join2(a, b)| > |b|;
    }
  }

  /** A combination is rooted exactly when some component is. */
  lemma {:induction false} CombineRooted(paths: seq<string>)
    ensures IsPathRooted(CombineAll(paths)) <==> exists i :: 0 <= i < |paths| && IsPathRooted(paths[i])
  {
    if paths == [] {
    } else {
      var k := |paths| - 1;
      CombineRooted(paths[..k]);
      if IsPathRooted(paths[k]) {
      } else if i :| 0 <= i < k && IsPathRooted(paths[i]) {
        assert IsPathRooted(paths[..k][i]);
      }
    }
  }

  /** Components before a rooted one have no effect. */
  lemma {:induction false} CombineFromRooted(paths: seq<string>, first: nat)
    requires first < |paths| && IsPathRooted(paths[first])
    ensures CombineAll(paths) == CombineAll(paths[first..])
  {
    CombineConcat(paths[..first], paths[first..]);
    assert paths == paths[..first] + paths[first..];
    assert IsPathRooted(paths[first..][0]);
    CombineRooted(paths[first..]);
  }

  // ---- The loops ----

  /** The characters a builder needs, counting the separator that may follow it. */
  function Room(builder: string): nat {
    |builder| + if builder == "" || EndsInSeparator(builder) then 0 else 1
  }

  lemma CombineStep(paths: seq<string>, from: nat, i: nat)
    requires from <= i < |paths|
    ensures CombineAll(paths[from..i + 1]) == Combine2(CombineAll(paths[from..i]), paths[i])
  {
    assert paths[from..i + 1][..i - from] == paths[from..i];
  }

  lemma RoomStep(builder: string, path: string)
    ensures Room("") == 0 && Room(Combine2(builder, "")) == Room(builder)
    ensures path != "" ==>
              Room(Combine2(builder, path)) == (if IsPathRooted(path) then 0 else Room(builder)) + Room(path)
  {
  }

  /** What `reserve` throws when its argument, a wrapped int32, is negative. */
  datatype Error = LengthError

  /** Two passes: the first finds where the last rooted component is and how much to reserve. */
  method Combine(paths: seq<string>) returns (result: Result<string, Error>, maxSize: int32)
    ensures maxSize == S32(Room(CombineAll(paths)))
    ensures result == if maxSize < 0 then Err(LengthError) else Ok(CombineAll(paths))
    ensures |CombineAll(paths)| < TWO_31 - 1 ==> result.Ok? && |result.value| <= maxSize
  {
    hide CombineAll, Combine2, S32;
    var firstComponent: nat;
    firstComponent, maxSize := Measure(paths);
    if maxSize < 0 {
      return Err(LengthError), maxSize;
    }
    var builder := "";
    EmptyCombination();
    var i := firstComponent;
    assert paths != [] ==> paths[i..i] == [];
    while i < |paths|
      invariant firstComponent <= i && (i <= |paths| || paths == [])
      invariant paths != [] ==> builder == CombineAll(paths[firstComponent..i])
      invariant paths == [] ==> builder == ""
    {
      var path := paths[i];
      CombineStep(paths, firstComponent, i);
      AppendStep(builder, path);
      if |path| != 0 {
        if |builder| == 0 {
          builder := builder + path;
        } else {
          if !IsDirectorySeparator(builder[|builder| - 1]) {
            builder := builder + [SEPARATOR];
          }
          builder := builder + path;
        }
      }
      i := i + 1;
    }
    if paths != [] {
      assert paths[firstComponent..i] == paths[firstComponent..];
      if firstComponent != 0 {
        CombineFromRooted(paths, firstComponent);
      } else {
        assert paths[0..] == paths;
      }
    }
    result := Ok(builder);
  }

  lemma EmptyCombination()
    ensures CombineAll([]) == ""
  {
  }

  lemma AppendStep(builder: string, path: string)
    requires builder != "" ==> !IsPathRooted(path)
    ensures path == "" ==> Combine2(builder, path) == builder
    ensures path != "" && builder == "" ==> Combine2(builder, path) == builder + path
    ensures path != "" && builder != "" ==>
              Combine2(builder, path) == (if EndsInSeparator(builder) then builder else builder + [SEPARATOR]) + path
  {
  }

  /** The first pass. Its running size wraps. */
  method Measure(paths: seq<string>) returns (firstComponent: nat, maxSize: int32)
    ensures maxSize == S32(Room(CombineAll(paths)))
    ensures firstComponent == 0 || (firstComponent < |paths| && IsPathRooted(paths[firstComponent]))
    ensures forall k :: firstComponent < k < |paths| ==> !IsPathRooted(paths[k])
  {
    hide CombineAll, Combine2, S32;
    maxSize, firstComponent := 0, 0;
    EmptyCombination();
    RoomStep("", "");
    for i := 0 to |paths|
      invariant firstComponent == 0 || (firstComponent < i && IsPathRooted(paths[firstComponent]))
      invariant forall k :: firstComponent < k < i ==> !IsPathRooted(paths[k])
      invariant maxSize == S32(Room(CombineAll(paths[0..i])))
    {
      var path := paths[i];
      ghost var before := CombineAll(paths[0..i]);
      CombineStep(paths, 0, i);
      RoomStep(before, path);
      S32Sum(Room(before), |path|);
      S32Sum(Room(before) + |path|, 1);
      S32Sum(|path|, 1);
      if |path| != 0 {
        if IsPathRooted(path) {
          firstComponent := i;
          maxSize := S32(|path|);
        } else {
          maxSize := S32(maxSize + |path|);
        }
        if !IsDirectorySeparator(path[|path| - 1]) {
          maxSize := S32(maxSize + 1);
        }
      }
    }
    assert paths[0..|paths|] == paths;
  }

  function TotalLength(paths: seq<string>): nat {
    if paths == [] then 0 else TotalLength(paths[..|paths| - 1]) + |paths[|paths| - 1]|
  }

  method Join(paths: seq<string>) returns (result: Result<string, Error>, maxSize: int32)
    ensures maxSize == if paths == [] then 0 else S32(TotalLength(paths) + |paths| - 1)
    ensures result == if maxSize < 0 then Err(LengthError) else Ok(JoinAll(paths))
    ensures TotalLength(paths) + |paths| <= TWO_31 ==> result.Ok? && |result.value| <= maxSize
  {
    hide S32, JoinAll, Join2;
    EmptyJoin();
    maxSize := 0;
    if |paths| == 0 {
      return Ok(""), 0;
    }
    for i := 0 to |paths|
      invariant maxSize == S32(TotalLength(paths[..i]))
    {
      assert paths[..i + 1][..i] == paths[..i];
      S32Sum(TotalLength(paths[..i]), |paths[i]|);
      maxSize := S32(maxSize + |paths[i]|);
    }
    assert paths[..|paths|] == paths;
    S32Sum(TotalLength(paths), |paths| - 1);
    maxSize := S32(maxSize + (|paths| - 1));
    if maxSize < 0 {
      return Err(LengthError), maxSize;
    }
    var builder := "";
    for i := 0 to |paths|
      invariant builder == JoinAll(paths[..i])
      invariant |builder| <= TotalLength(paths[..i]) + (if i == 0 then 0 else i - 1)
    {
      var path := paths[i];
      JoinStep(paths, i);
      JoinAppendStep(builder, path);
      if path != "" {
        if |builder| == 0 {
          builder := builder + path;
        } else {
          if !IsDirectorySeparator(builder[|builder| - 1]) && !IsDirectorySeparator(path[0]) {
            builder := builder + [SEPARATOR];
          }
          builder := builder + path;
        }
      }
    }
    result := Ok(builder);
  }

  lemma EmptyJoin()
    ensures JoinAll([]) == ""
  {
  }

  lemma JoinStep(paths: seq<string>, i: nat)
    requires i < |paths|
    ensures JoinAll(paths[..i + 1]) == Join2(JoinAll(paths[..i]), paths[i])
    ensures TotalLength(paths[..i + 1]) == TotalLength(paths[..i]) + |paths[i]|
  {
    assert paths[..i + 1][..i] == paths[..i];
  }

  lemma JoinAppendStep(builder: string, path: string)
    ensures path == "" ==> Join2(builder, path) == builder
    ensures path != "" && builder == "" ==> Join2(builder, path) == builder + path
    ensures path != "" && builder != "" ==>
              Join2(builder, path) ==
              (if EndsInSeparator(builder) || IsPathRooted(path) then builder else builder + [SEPARATOR]) + path
  {
  }

  // ---- Taking the last component off ----

  /** The length of a path up to and including its last separator. */
  function StemLength(path: string): (n: nat)
    ensures n <= |path| && SeparatorFree(path[n..])
    ensures n > 0 ==> IsDirectorySeparator(path[n - 1])
  {
    if path == "" || EndsInSeparator(path) then |path|
    else
      var k := |path| - 1;
      var n := StemLength(path[..k]);
      assert path[n..] == path[..k][n..] + [path[k]];
      n
  }

  lemma StemIs(path: string, n: nat)
    requires n <= |path| && SeparatorFree(path[n..]) && (n > 0 ==> IsDirectorySeparator(path[n - 1]))
    ensures StemLength(path) == n
  {
    NoSeparatorFrom(path, n);
    NoSeparatorFrom(path, StemLength(path));
  }

  lemma NoSeparatorFrom(path: string, n: nat)
    requires n <= |path|
    ensures SeparatorFree(path[n..]) <==> forall k :: n <= k < |path| ==> !IsDirectorySeparator(path[k])
  {
    forall k | n <= k < |path|
      ensures path[k] == path[n..][k - n]
    {
    }
  }

  /** Trailing separators removed, but not below `root`. */
  function TrimLength(path: string, root: nat, end: nat): (n: nat)
    requires root <= end <= |path|
    ensures root <= n <= end
    ensures forall k :: n <= k < end ==> IsDirectorySeparator(path[k])
    ensures n > root ==> !IsDirectorySeparator(path[n - 1])
    decreases end
  {
    if end > root && IsDirectorySeparator(path[end - 1]) then TrimLength(path, root, end - 1) else end
  }

  function FileNameOf(path: string): string { path[StemLength(path)..] }

  function DirectoryLength(path: string): nat {
    var root := GetRootLength(path);
    var stem := StemLength(path);
    TrimLength(path, root, if stem > root then stem else root)
  }

  function DirectoryOf(path: string): string {
    if |path| <= GetRootLength(path) then "" else path[..DirectoryLength(path)]
  }

  /** The scan from the end. The source reads before the start of a path without a separator. */
  method GetFileName(path: string) returns (name: string)
    requires !SeparatorFree(path)
    ensures name == FileNameOf(path)
  {
    var root := GetRootLength(path);
    var i := |path|;
    while true
      invariant 0 <= i <= |path| && SeparatorFree(path[i..])
      invariant exists k :: 0 <= k < i && IsDirectorySeparator(path[k])
      decreases i
    {
      i := i - 1;
      if i < root || IsDirectorySeparator(path[i]) {
        StemIs(path, i + 1);
        return path[i + 1..];
      }
      assert path[i..] == [path[i]] + path[i + 1..];
    }
  }

  method GetDirectoryNameOffset(path: string) returns (offset: int)
    ensures |path| <= GetRootLength(path) ==> offset == -1
    ensures |path| > GetRootLength(path) ==> offset == DirectoryLength(path)
  {
    var rootLength := GetRootLength(path);
    var end := |path|;
    if end <= rootLength {
      return -1;
    }
    while end > rootLength
      invariant rootLength <= end <= |path| && SeparatorFree(path[end..])
    {
      end := end - 1;
      if IsDirectorySeparator(path[end]) {
        break;
      }
      assert path[end..] == [path[end]] + path[end + 1..];
    }
    StemFound(path, end);
    while end > rootLength && IsDirectorySeparator(path[end - 1])
      invariant rootLength <= end <= |path|
      invariant TrimLength(path, rootLength, end) == DirectoryLength(path)
    {
      end := end - 1;
    }
    return end;
  }

  /** Where the first scan stops: at the last separator, or at the root. */
  lemma StemFound(path: string, end: nat)
    requires GetRootLength(path) <= end < |path|
    requires SeparatorFree(path[end + 1..])
    requires end == GetRootLength(path) || IsDirectorySeparator(path[end])
    ensures TrimLength(path, GetRootLength(path), end) == DirectoryLength(path)
  {
    hide StemLength, TrimLength;
    var root := GetRootLength(path);
    NoSeparatorFrom(path, end + 1);
    if IsDirectorySeparator(path[end]) {
      StemIs(path, end + 1);
      TrimStep(path, root, end + 1);
    } else {
      NoSeparatorFrom(path, root);
      StemIs(path, root);
    }
  }

  lemma TrimStep(path: string, root: nat, end: nat)
    requires root < end <= |path| && IsDirectorySeparator(path[end - 1])
    ensures TrimLength(path, root, end) == TrimLength(path, root, end - 1)
  {
  }

  method GetDirectoryName(path: string) returns (directory: string)
    ensures directory == DirectoryOf(path)
  {
    if path == "" {
      return "";
    }
    var end := GetDirectoryNameOffset(path);
    return if end >= 0 then path[..end] else "";
  }

  /** A path is its directory, a run of separators, and its file name; the directory is the root
      or does not end in a separator; and only the root stands directly before the name. */
  lemma PathParts(path: string)
    requires |path| > GetRootLength(path)
    ensures var d, n := |DirectoryOf(path)|, |path| - |FileNameOf(path)|;
            && GetRootLength(path) <= d <= n
            && path[..d] == DirectoryOf(path) && path[n..] == FileNameOf(path)
            && (forall k :: d <= k < n ==> IsDirectorySeparator(path[k]))
            && SeparatorFree(path[n..])
            && (d == GetRootLength(path) || !IsDirectorySeparator(path[d - 1]))
            && (d == n ==> d == GetRootLength(path))
  {
    NoSeparatorFrom(path, StemLength(path));
  }

  /** Going up always shortens a path, so it ends at the empty one. */
  lemma DirectoryShortens(path: string)
    requires path != ""
    ensures |DirectoryOf(path)| < |path|
  {
    if |path| > GetRootLength(path) {
      PathParts(path);
    }
  }

  /** Combining with a plain name puts the last separator right before it. */
  lemma StemOfCombine(d: string, f: string)
    requires d != "" && f != "" && SeparatorFree(f)
    ensures var p := Combine2(d, f);
            && StemLength(p) == |p| - |f| && FileNameOf(p) == f
            && GetRootLength(p) == GetRootLength(d)
            && |p| - |f| == |d| + (if EndsInSeparator(d) then 0 else 1)
            && p[..|d|] == d
  {
    var p := Combine2(d, f);
    assert p[|p| - |f|..] == f;
    StemIs(p, |p| - |f|);
  }

  /** Splitting undoes combining: always for the name, and for the directory exactly when it is
      the root or does not end in a separator. */
  lemma SplitUndoesCombine(d: string, f: string)
    requires d != "" && f != "" && SeparatorFree(f)
    ensures FileNameOf(Combine2(d, f)) == f
    ensures DirectoryOf(Combine2(d, f)) == d <==> (d == [SEPARATOR] || !EndsInSeparator(d))
  {
    hide Combine2, StemLength, TrimLength;
    StemOfCombine(d, f);
    var p := Combine2(d, f);
    var e := DirectoryLength(p);
    assert DirectoryOf(p) == p[..e];
    assert p[|d| - 1] == d[|d| - 1] by { assert p[..|d|][|d| - 1] == d[|d| - 1]; }
    TrimKeeps(p, GetRootLength(p), StemLength(p), |d|);
    if p[..e] == d {
      assert e == |d|;
    }
  }

  lemma TrimKeeps(path: string, root: nat, end: nat, k: nat)
    requires root <= end <= |path| && 0 < k <= end
    ensures !IsDirectorySeparator(path[k - 1]) ==> TrimLength(path, root, end) >= k
  {
  }

  /** Combining undoes splitting exactly when a name is there and one separator stands before it. */
  lemma CombineUndoesSplit(path: string)
    ensures Combine2(DirectoryOf(path), FileNameOf(path)) == path <==>
            path == "" || (FileNameOf(path) != "" && (StemLength(path) <= 1
                                                       || !IsDirectorySeparator(path[StemLength(path) - 2])))
  {
    hide StemLength, TrimLength, DirectoryLength, DirectoryOf;
    var dir, name := DirectoryOf(path), FileNameOf(path);
    if |path| <= GetRootLength(path) {
      RootDirectory(path);
      StemIs(path, |path|);
    } else {
      DirectoryShortens(path);
      PathParts(path);
      NoSeparatorFrom(path, StemLength(path));
      RejoinParts(path, |dir|, StemLength(path));
    }
  }

  lemma RootDirectory(path: string)
    requires |path| <= GetRootLength(path)
    ensures DirectoryOf(path) == ""
  {
  }

  lemma RejoinParts(path: string, d: nat, n: nat)
    requires GetRootLength(path) <= d <= n <= |path| && d < |path|
    requires forall k :: d <= k < n ==> IsDirectorySeparator(path[k])
    requires forall k :: n <= k < |path| ==> !IsDirectorySeparator(path[k])
    requires d == GetRootLength(path) || !IsDirectorySeparator(path[d - 1])
    requires d == n ==> d == GetRootLength(path)
    ensures Combine2(path[..d], path[n..]) == path <==>
            n < |path| && (n <= 1 || !IsDirectorySeparator(path[n - 2]))
  {
    var dir, name := path[..d], path[n..];
    if name != "" && dir != "" {
      var s := if EndsInSeparator(dir) then d else d + 1;
      assert Combine2(dir, name) == dir + (if EndsInSeparator(dir) then "" else [SEPARATOR]) + name;
      assert |Combine2(dir, name)| == s + |name|;
      if s == n {
        assert path == path[..d] + path[d..n] + path[n..];
        assert s > d ==> path[d..n] == [SEPARATOR];
      }
    }
  }

  /** `DirectoryOf`, `k` times. */
  function Up(path: string, k: nat): string {
    if k == 0 then path else DirectoryOf(Up(path, k - 1))
  }

  predicate Names(fs: seq<string>) {
    forall i :: 0 <= i < |fs| ==> fs[i] != "" && SeparatorFree(fs[i])
  }

  lemma {:induction false} CombinationKeepsBase(d: string, fs: seq<string>)
    requires d != "" && (d == [SEPARATOR] || !EndsInSeparator(d)) && Names(fs)
    ensures var p := CombineAll([d] + fs); p != "" && (p == [SEPARATOR] || !EndsInSeparator(p))
  {
    if fs == [] {
      CombineSingle(d);
      assert [d] + fs == [d];
    } else {
      var k := |fs| - 1;
      CombinationKeepsBase(d, fs[..k]);
      LastCombined(d, fs);
      var q := CombineAll([d] + fs[..k]);
      var p := Combine2(q, fs[k]);
      assert p[|p| - 1] == fs[k][|fs[k]| - 1];
    }
  }

  lemma CombineSingle(d: string)
    ensures CombineAll([d]) == d
  {
    assert [d][..0] == [];
    assert CombineAll([d][..0]) == "";
  }

  lemma LastCombined(d: string, fs: seq<string>)
    requires fs != []
    ensures CombineAll([d] + fs) == Combine2(CombineAll([d] + fs[..|fs| - 1]), fs[|fs| - 1])
  {
    assert ([d] + fs)[..|fs|] == [d] + fs[..|fs| - 1];
  }

  /** Going up from a combination takes its names off one at a time, last first, down to its base. */
  lemma {:induction false} UpTakesNamesOff(d: string, fs: seq<string>, k: nat)
    requires d != "" && (d == [SEPARATOR] || !EndsInSeparator(d)) && Names(fs) && k <= |fs|
    ensures Up(CombineAll([d] + fs), k) == CombineAll([d] + fs[..|fs| - k])
    ensures k < |fs| ==> FileNameOf(Up(CombineAll([d] + fs), k)) == fs[|fs| - k - 1]
  {
    hide CombineAll, Combine2, FileNameOf, DirectoryOf;
    if k == 0 {
      assert fs[..|fs|] == fs;
    } else {
      UpTakesNamesOff(d, fs, k - 1);
      OneUp(d, fs[..|fs| - k + 1]);
      assert fs[..|fs| - k + 1][..|fs| - k] == fs[..|fs| - k];
    }
    if k < |fs| {
      OneUp(d, fs[..|fs| - k]);
    }
  }

  lemma OneUp(d: string, fs: seq<string>)
    requires d != "" && (d == [SEPARATOR] || !EndsInSeparator(d)) && Names(fs) && fs != []
    ensures DirectoryOf(CombineAll([d] + fs)) == CombineAll([d] + fs[..|fs| - 1])
    ensures FileNameOf(CombineAll([d] + fs)) == fs[|fs| - 1]
  {
    LastCombined(d, fs);
    CombinationKeepsBase(d, fs[..|fs| - 1]);
    SplitUndoesCombine(CombineAll([d] + fs[..|fs| - 1]), fs[|fs| - 1]);
  }

  // ---- What gluing keeps ----

  /** Both sides are kept whole, with one separator between them exactly where neither brings one. */
  lemma JoinKeepsBoth(a: string, b: string)
    requires a != "" && b != ""
    ensures var p := Join2(a, b);
            var added := if EndsInSeparator(a) || IsPathRooted(b) then 0 else 1;
            && |p| == |a| + added + |b| && p[..|a|] == a && p[|a| + added..] == b
            && (added == 1 ==> IsDirectorySeparator(p[|a|]))
    ensures !IsPathRooted(b) ==> Combine2(a, b) == Join2(a, b)
  {
  }

  /** The names along a path: its longest runs without a separator. */
  function NamesIn(path: string): seq<string>
    decreases |path|
  {
    if path == "" then []
    else if EndsInSeparator(path) then NamesIn(path[..|path| - 1])
    else NamesIn(path[..StemLength(path)]) + [FileNameOf(path)]
  }

  function AllNames(paths: seq<string>): seq<string> {
    if paths == [] then [] else AllNames(paths[..|paths| - 1]) + NamesIn(paths[|paths| - 1])
  }

  lemma NamesUnfold(path: string)
    requires path != ""
    ensures EndsInSeparator(path) ==> NamesIn(path) == NamesIn(path[..|path| - 1])
    ensures !EndsInSeparator(path) ==>
              var n := StemLength(path); n < |path| && NamesIn(path) == NamesIn(path[..n]) + [path[n..]]
    ensures NamesIn("") == []
  {
  }

  /** Names do not run together across a separator. */
  lemma {:induction false} NamesConcat(a: string, b: string)
    requires a == "" || b == "" || EndsInSeparator(a) || IsPathRooted(b)
    ensures NamesIn(a + b) == NamesIn(a) + NamesIn(b)
    decreases |b|
  {
    hide StemLength, NamesIn;
    if b == "" {
      NamesUnfold("/");
      assert a + b == a;
    } else if a == "" {
      NamesUnfold("/");
      assert a + b == b;
    } else {
      NamesUnfold(b);
      NamesUnfold(a + b);
      if EndsInSeparator(b) {
        NamesConcat(a, b[..|b| - 1]);
        assert (a + b)[..|a + b| - 1] == a + b[..|b| - 1];
      } else {
        StemOfConcat(a, b);
        LastNameOfConcat(a, b);
        if StemLength(b) > 0 {
          NamesConcat(a, b[..StemLength(b)]);
        }
      }
    }
  }

  lemma LastNameOfConcat(a: string, b: string)
    ensures var n := StemLength(b);
            && (a + b)[|a| + n..] == b[n..] && (a + b)[..|a| + n] == a + b[..n]
            && (n == 0 ==> (a + b)[..|a|] == a && b[n..] == b && b[..n] == "")
  {
  }

  lemma StemOfConcat(a: string, b: string)
    requires a == "" || b == "" || EndsInSeparator(a) || IsPathRooted(b)
    ensures StemLength(a + b) == |a| + StemLength(b)
            || (b == "" && StemLength(a + b) == StemLength(a))
  {
    if b == "" {
      assert a + b == a;
    } else {
      var n := StemLength(b);
      assert (a + b)[|a| + n..] == b[n..];
      NoSeparatorFrom(b, n);
      StemIs(a + b, |a| + n);
    }
  }

  lemma NamesOfSeparated(a: string)
    ensures NamesIn(a + [SEPARATOR]) == NamesIn(a)
  {
    assert (a + [SEPARATOR])[..|a|] == a;
  }

  lemma JoinNames(a: string, b: string)
    ensures NamesIn(Join2(a, b)) == NamesIn(a) + NamesIn(b)
    ensures NamesIn(Combine2(a, b)) == if IsPathRooted(b) then NamesIn(b) else NamesIn(a) + NamesIn(b)
  {
    hide NamesIn;
    NamesOfSeparated(a);
    if a == "" || b == "" || EndsInSeparator(a) || IsPathRooted(b) {
      NamesConcat(a, b);
      assert a == "" ==> a + b == b;
      assert b == "" ==> a + b == a;
      assert a + "" + b == a + b;
    } else {
      NamesConcat(a + [SEPARATOR], b);
    }
  }

  /** Joining loses no name and makes none. */
  lemma {:induction false} JoinKeepsNames(paths: seq<string>)
    ensures NamesIn(JoinAll(paths)) == AllNames(paths)
  {
    if paths == [] {
    } else {
      JoinKeepsNames(paths[..|paths| - 1]);
      JoinNames(JoinAll(paths[..|paths| - 1]), paths[|paths| - 1]);
    }
  }

  /** Neither does combining, from the last rooted component on. */
  lemma {:induction false} CombineKeepsNames(paths: seq<string>, first: nat)
    requires first == 0 || (first < |paths| && IsPathRooted(paths[first]))
    requires forall k :: first < k < |paths| ==> !IsPathRooted(paths[k])
    ensures NamesIn(CombineAll(paths)) == AllNames(paths[first..])
  {
    if first > 0 {
      CombineFromRooted(paths, first);
    } else {
      assert paths[0..] == paths;
    }
    UnrootedNames(paths[first..]);
  }

  lemma {:induction false} UnrootedNames(paths: seq<string>)
    requires forall k :: 0 < k < |paths| ==> !IsPathRooted(paths[k])
    ensures NamesIn(CombineAll(paths)) == AllNames(paths)
  {
    if paths == [] {
    } else {
      var k := |paths| - 1;
      UnrootedNames(paths[..k]);
      JoinNames(CombineAll(paths[..k]), paths[k]);
      if k == 0 {
        assert AllNames(paths[..k]) == [];
      }
    }
  }
}
