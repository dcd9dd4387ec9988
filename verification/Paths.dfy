/** Slash-separated paths: normalising, parent, file name, joining, and listing helpers. */
module Paths {
  import opened Base

  function TrimStart(s: string): string {
    if s != "" && s[0] == '/' then TrimStart(s[1..]) else s
  }

  function TrimEnd(s: string): string {
    if s != "" && s[|s| - 1] == '/' then TrimEnd(s[..|s| - 1]) else s
  }

  /** `trim_matches('/')`. */
  function Normalize(path: string): string { TrimEnd(TrimStart(path)) }

  /** `split('/')`: always at least one component. */
  function Split(s: string): (parts: seq<string>)
    ensures parts != []
  {
    if s == "" then [""]
    else if s[0] == '/' then [""] + Split(s[1..])
    else
      var rest := Split(s[1..]);
      [[s[0]] + rest[0]] + rest[1..]
  }

  function Join(parts: seq<string>): string
    requires parts != []
  {
    if |parts| == 1 then parts[0] else parts[0] + "/" + Join(parts[1..])
  }

  function ParentPath(path: string): Option<string> {
    var normalized := Normalize(path);
    if normalized == "" then None else
      var parts := Split(normalized);
      if |parts| <= 1 then Some("") else Some(Join(parts[..|parts| - 1]))
  }

  function FileName(path: string): string {
    var parts := Split(TrimEnd(path));
    parts[|parts| - 1]
  }

  function JoinPath(parent: string, name: string): string {
    if parent == "" then name else TrimEnd(parent) + "/" + name
  }

  /** The first component of `path` below `prefix`. */
  function ExtractDirName(path: string, prefix: string): Option<string> {
    if !(prefix <= path) then None else
      var name := Split(TrimStart(path[|prefix|..]))[0];
      if name == "" then None else Some(name)
  }

  predicate IsDirectChild(path: string, prefix: string) {
    prefix <= path &&
      var relative := TrimStart(path[|prefix|..]);
      '/' !in TrimEnd(relative) && relative != ""
  }

  // ---------------------------------------------------------------- trimming

  ghost predicate Normal(path: string) {
    path != "" ==> path[0] != '/' && path[|path| - 1] != '/'
  }

  lemma {:induction false} TrimStartKeeps(s: string)
    ensures var t := TrimStart(s); (t != "" ==> t[0] != '/') && |t| <= |s|
    ensures TrimStart(s) != "" ==> s != "" && TrimStart(s)[|TrimStart(s)| - 1] == s[|s| - 1]
  {
    if s != "" && s[0] == '/' { TrimStartKeeps(s[1..]); }
  }

  lemma {:induction false} TrimEndKeeps(s: string)
    ensures var t := TrimEnd(s); (t != "" ==> t[|t| - 1] != '/') && t <= s
    ensures s == "" || s[0] == '/' || TrimEnd(s) != ""
  {
    if s != "" && s[|s| - 1] == '/' { TrimEndKeeps(s[..|s| - 1]); }
  }

  /** Normalising yields a normal path and leaves normal paths alone. */
  lemma NormalizeIsNormal(path: string)
    ensures Normal(Normalize(path)) && |Normalize(path)| <= |path|
    ensures Normal(path) <==> Normalize(path) == path
  {
    TrimStartKeeps(path);
    TrimEndKeeps(TrimStart(path));
  }

  // ---------------------------------------------------------------- splitting and joining

  lemma {:induction false} SplitAround(a: string, b: string)
    ensures Split(a + "/" + b) == Split(a) + Split(b)
  {
    if a == "" {
      assert a + "/" + b == "/" + b;
      assert ("/" + b)[1..] == b;
    } else {
      var s, rest := a + "/" + b, Split(a[1..]);
      assert s[0] == a[0] && s[1..] == a[1..] + "/" + b;
      SplitAround(a[1..], b);
      assert Split(s[1..]) == rest + Split(b);
      if a[0] == '/' {
        assert [""] + (rest + Split(b)) == [""] + rest + Split(b);
      } else {
        assert (rest + Split(b))[1..] == rest[1..] + Split(b);
      }
    }
  }

  lemma {:induction false} SplitWhole(name: string)
    requires '/' !in name
    ensures Split(name) == [name]
  {
    if name != "" {
      assert name[0] in name && forall c :: c in name[1..] ==> c in name;
      SplitWhole(name[1..]);
      assert [name[0]] + name[1..] == name;
    }
  }

  lemma {:induction false} JoinOfSplit(s: string)
    ensures Join(Split(s)) == s
  {
    if s != "" {
      JoinOfSplit(s[1..]);
      var rest := Split(s[1..]);
      assert [s[0]] + s[1..] == s;
      if s[0] == '/' {
        assert ([""] + rest)[1..] == rest;
      } else {
        assert ([[s[0]] + rest[0]] + rest[1..])[1..] == rest[1..];
        if |rest| > 1 { assert [s[0]] + (rest[0] + "/" + Join(rest[1..])) == [s[0]] + rest[0] + "/" + Join(rest[1..]); }
      }
    }
  }

  ghost predicate SlashFree(parts: seq<string>) {
    forall i :: 0 <= i < |parts| ==> '/' !in parts[i]
  }

  lemma {:induction false} SplitSlashFree(s: string)
    ensures SlashFree(Split(s))
  {
    if s != "" { SplitSlashFree(s[1..]); }
  }

  lemma {:induction false} SplitOfJoin(parts: seq<string>)
    requires parts != [] && SlashFree(parts)
    ensures Split(Join(parts)) == parts
  {
    SplitWhole(parts[0]);
    if |parts| > 1 {
      SplitOfJoin(parts[1..]);
      SplitAround(parts[0], Join(parts[1..]));
      assert parts == [parts[0]] + parts[1..];
    }
  }

  /** The ends of a path show in its first and last components. */
  lemma {:induction false} SplitEnds(s: string)
    requires s != ""
    ensures var p := Split(s);
            (s[|s| - 1] == '/' <==> p[|p| - 1] == "") && (s[0] == '/' <==> p[0] == "")
  {
    if |s| > 1 {
      SplitEnds(s[1..]);
    } else {
      assert s[1..] == "";
    }
  }

  // ---------------------------------------------------------------- round trips

  /** The parent and the name of a joined path are the two it was joined from. */
  lemma JoinThenSplit(parent: string, name: string)
    requires Normal(parent) && name != "" && '/' !in name
    ensures ParentPath(JoinPath(parent, name)) == Some(parent)
    ensures FileName(JoinPath(parent, name)) == name
  {
    var path := JoinPath(parent, name);
    assert name[0] in name && name[|name| - 1] in name;
    NormalizeIsNormal(path);
    SplitWhole(name);
    if parent != "" {
      SplitAround(parent, name);
      JoinOfSplit(parent);
      assert Split(path)[..|Split(path)| - 1] == Split(parent);
    }
  }

  /** The component before the last, if there is one, is not empty. */
  predicate NoGapBeforeName(path: string) {
    var parts := Split(path);
    |parts| >= 2 ==> parts[|parts| - 2] != ""
  }

  lemma NormalParts(path: string)
    requires path != "" && Normal(path)
    ensures var parts := Split(path);
            && FileName(path) == parts[|parts| - 1] != ""
            && parts[0] != ""
            && ParentPath(path) == Some(if |parts| == 1 then "" else Join(parts[..|parts| - 1]))
  {
    NormalizeIsNormal(path);
    SplitEnds(path);
  }

  lemma {:induction false} JoinSnoc(parts: seq<string>, last: string)
    requires parts != []
    ensures Join(parts + [last]) == Join(parts) + "/" + last
  {
    if |parts| == 1 {
      assert (parts + [last])[1..] == [last];
    } else {
      assert (parts + [last])[1..] == parts[1..] + [last];
      JoinSnoc(parts[1..], last);
      assert parts[0] + "/" + (Join(parts[1..]) + "/" + last) == parts[0] + "/" + Join(parts[1..]) + "/" + last;
    }
  }

  /** A normal path below another is that path, a slash and its name. */
  lemma ParentAndName(path: string) returns (parent: string, name: string)
    requires path != "" && Normal(path) && |Split(path)| >= 2
    ensures path == parent + "/" + name
    ensures ParentPath(path) == Some(parent) && FileName(path) == name
    ensures parent != "" && (parent[|parent| - 1] != '/' <==> NoGapBeforeName(path))
  {
    hide TrimStart, TrimEnd, ParentPath, FileName, Split, Join;
    NormalParts(path);
    JoinOfSplit(path);
    var parts := Split(path);
    var front := parts[..|parts| - 1];
    name := parts[|parts| - 1];
    parent := Join(front);
    assert front + [name] == parts;
    JoinSnoc(front, name);
    SplitSlashFree(path);
    SplitOfJoin(front);
    assert front[0] == parts[0] != "";
    SplitEnds(parent);
  }

  /** Joining the parent and the name gives a normal path back exactly when no empty component
      precedes the name: the parent of such a path ends in slashes, which joining trims. */
  lemma SplitThenJoinIff(path: string)
    requires path != "" && Normal(path)
    ensures JoinPath(ParentPath(path).value, FileName(path)) == path <==> NoGapBeforeName(path)
  {
    if |Split(path)| >= 2 {
      var parent, name := ParentAndName(path);
      TrimEndKeeps(parent);
      if parent[|parent| - 1] == '/' {
        assert |TrimEnd(parent)| < |parent|;
      }
    } else {
      NormalParts(path);
      JoinOfSplit(path);
    }
  }

  // ---------------------------------------------------------------- depth

  function NonEmpty(parts: seq<string>): nat {
    if parts == [] then 0 else (if parts[0] == "" then 0 else 1) + NonEmpty(parts[1..])
  }

  lemma {:induction false} NonEmptyAppend(a: seq<string>, b: seq<string>)
    ensures NonEmpty(a + b) == NonEmpty(a) + NonEmpty(b)
  {
    if a == [] {
      assert a + b == b;
    } else {
      assert (a + b)[1..] == a[1..] + b;
      NonEmptyAppend(a[1..], b);
    }
  }

  lemma {:induction false} TrimStartComponents(s: string)
    ensures NonEmpty(Split(TrimStart(s))) == NonEmpty(Split(s))
  {
    if s != "" && s[0] == '/' {
      TrimStartComponents(s[1..]);
      assert ([""] + Split(s[1..]))[1..] == Split(s[1..]);
    }
  }

  lemma {:induction false} TrimEndComponents(s: string)
    ensures NonEmpty(Split(TrimEnd(s))) == NonEmpty(Split(s))
  {
    if s != "" && s[|s| - 1] == '/' {
      var front := s[..|s| - 1];
      TrimEndComponents(front);
      assert s == front + "/" + "";
      SplitAround(front, "");
      NonEmptyAppend(Split(front), [""]);
    }
  }

  /** The parent of a normal path has one component fewer. */
  lemma ParentOfNormal(n: string)
    requires n != "" && Normal(n)
    ensures var parent := ParentPath(n).value;
            NonEmpty(Split(parent)) + 1 == NonEmpty(Split(n)) && |parent| < |n|
  {
    hide Split, Join, ParentPath, FileName, Normal;
    NormalParts(n);
    SplitSlashFree(n);
    JoinOfSplit(n);
    var parts := Split(n);
    var front, name := parts[..|parts| - 1], parts[|parts| - 1];
    assert front + [name] == parts;
    NonEmptyAppend(front, [name]);
    if front == [] {
      SplitWhole("");
    } else {
      SplitOfJoin(front);
      JoinSnoc(front, name);
    }
  }

  /** The parent of any path has one non-empty component fewer. */
  lemma ParentDropsOne(path: string)
    requires Normalize(path) != ""
    ensures var parent := ParentPath(path).value;
            && NonEmpty(Split(parent)) + 1 == NonEmpty(Split(path))
            && |Normalize(parent)| < |Normalize(path)|
  {
    var n := Normalize(path);
    NormalizeIsNormal(path);
    NormalizeIsNormal(n);
    TrimStartComponents(path);
    TrimEndComponents(TrimStart(path));
    ParentOfNormal(n);
    NormalizeIsNormal(ParentPath(n).value);
  }

  /** How many times `ParentPath` applies before the root. */
  function StepsToRoot(path: string): nat
    decreases |Normalize(path)|
  {
    if Normalize(path) == "" then 0
    else
      ParentDropsOne(path);
      1 + StepsToRoot(ParentPath(path).value)
  }

  /** Climbing from any path reaches the root in exactly as many steps as it has non-empty components. */
  lemma {:induction false} StepsCountComponents(path: string)
    ensures StepsToRoot(path) == NonEmpty(Split(path))
    decreases |Normalize(path)|
  {
    TrimStartComponents(path);
    TrimEndComponents(TrimStart(path));
    if Normalize(path) != "" {
      ParentDropsOne(path);
      StepsCountComponents(ParentPath(path).value);
    }
  }

  // ---------------------------------------------------------------- listings

  lemma {:induction false} FirstBeforeSlashes(s: string)
    requires '/' !in TrimEnd(s)
    ensures Split(s)[0] == TrimEnd(s)
  {
    if s != "" && s[|s| - 1] == '/' {
      var front := s[..|s| - 1];
      FirstBeforeSlashes(front);
      assert s == front + "/" + "";
      SplitAround(front, "");
    } else {
      SplitWhole(s);
    }
  }

  /** A path is a direct child exactly when the directory name extracted from it is all of it, up to
      slashes at its end. */
  lemma DirectChildIff(path: string, prefix: string)
    requires prefix <= path
    ensures IsDirectChild(path, prefix)
            <==> ExtractDirName(path, prefix) == Some(TrimEnd(TrimStart(path[|prefix|..])))
  {
    var relative := TrimStart(path[|prefix|..]);
    TrimStartKeeps(path[|prefix|..]);
    TrimEndKeeps(relative);
    SplitSlashFree(relative);
    if '/' !in TrimEnd(relative) { FirstBeforeSlashes(relative); }
  }
}
