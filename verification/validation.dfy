/**
  Command-line alias parsing and repository discovery (src/validation.rs).
  Discovery walks an abstract directory tree instead of the filesystem.
 */
module Validation {
  import opened Wrappers

  // ---------------------------------------------------------------------------
  // Splitting on "::"

  /** A "::" starts at offset `k` of `s`. */
  predicate SepAt(s: string, k: int) {
    0 <= k && k + 1 < |s| && s[k] == ':' && s[k + 1] == ':'
  }

  /** `s` contains no "::". */
  predicate NoSep(s: string) {
    forall k :: 0 <= k < |s| - 1 ==> !(s[k] == ':' && s[k + 1] == ':')
  }

  /** The parts glued back together with "::" between them. */
  function Join(parts: seq<string>): string
    requires |parts| >= 1
  {
    if |parts| == 1 then parts[0] else parts[0] + "::" + Join(parts[1..])
  }

  /**
    `str::split("::")`: cut at every "::", scanning left to right, so that
    ":::" splits into "" and ":".
   */
  function Split(s: string): (parts: seq<string>)
    ensures |parts| >= 1
    decreases |s|
  {
    if |s| < 2 then [s]
    else if s[0] == ':' && s[1] == ':' then [""] + Split(s[2..])
    else
      var rest := Split(s[1..]);
      [[s[0]] + rest[0]] + rest[1..]
  }

  /**
    The parts are what `split` promises: glued back with "::" they give `s`,
    none contains "::", and every cut is at the leftmost "::" available (no
    part but the last ends in ':').
   */
  ghost predicate SplitsInto(s: string, parts: seq<string>) {
    && |parts| >= 1
    && Join(parts) == s
    && (forall i :: 0 <= i < |parts| ==> NoSep(parts[i]))
    && (forall i :: 0 <= i < |parts| - 1 ==> parts[i] == [] || parts[i][|parts[i]| - 1] != ':')
  }

  lemma {:induction false} SplitSound(s: string)
    ensures SplitsInto(s, Split(s))
    ensures Split(s)[0] <= s
    ensures |Split(s)| > 1 ==> SepAt(s, |Split(s)[0]|)
    decreases |s|
  {
    if |s| < 2 {
    } else if s[0] == ':' && s[1] == ':' {
      SplitSound(s[2..]);
      SplitSoundAtSep(s, Split(s[2..]));
    } else {
      SplitSound(s[1..]);
      SplitSoundExtend(s, Split(s[1..]));
    }
  }

  lemma SplitSoundAtSep(s: string, rest: seq<string>)
    requires |s| >= 2 && s[0] == ':' && s[1] == ':'
    requires SplitsInto(s[2..], rest)
    ensures SplitsInto(s, [""] + rest)
  {
    var parts := [""] + rest;
    assert s == "::" + s[2..];
    assert parts[1..] == rest;
    assert Join(parts) == s;
    assert forall i :: 1 <= i < |parts| ==> parts[i] == rest[i - 1];
  }

  lemma SplitSoundExtend(s: string, rest: seq<string>)
    requires |s| >= 2 && !(s[0] == ':' && s[1] == ':')
    requires SplitsInto(s[1..], rest)
    requires rest[0] <= s[1..]
    requires |rest| > 1 ==> SepAt(s[1..], |rest[0]|)
    ensures SplitsInto(s, [[s[0]] + rest[0]] + rest[1..])
    ensures [s[0]] + rest[0] <= s
    ensures |rest| > 1 ==> SepAt(s, |rest[0]| + 1)
  {
    var first := [s[0]] + rest[0];
    var parts := [first] + rest[1..];
    assert s == [s[0]] + s[1..];
    assert rest[0] != [] ==> rest[0][0] == s[1];
    FirstPartNoSep(s[0], rest[0]);
    JoinExtend(s[0], rest);
    assert forall i :: 1 <= i < |parts| ==> parts[i] == rest[i];
    assert |rest| > 1 && rest[0] == [] ==> s[1] == ':';
  }

  lemma JoinExtend(c: char, rest: seq<string>)
    requires |rest| >= 1
    ensures Join([[c] + rest[0]] + rest[1..]) == [c] + Join(rest)
  {
    var parts := [[c] + rest[0]] + rest[1..];
    if |rest| > 1 {
      assert parts[1..] == rest[1..];
    }
  }

  lemma FirstPartNoSep(c: char, t: string)
    requires NoSep(t)
    requires !(c == ':' && t != [] && t[0] == ':')
    ensures NoSep([c] + t)
  {
    var first := [c] + t;
    forall k | 0 <= k < |first| - 1
      ensures !(first[k] == ':' && first[k + 1] == ':')
    {
      if k > 0 {
        assert first[k] == t[k - 1] && first[k + 1] == t[k];
      }
    }
  }

  /** A string without "::" is not cut at all. */
  lemma {:induction false} SplitWhole(s: string)
    requires NoSep(s)
    ensures Split(s) == [s]
    decreases |s|
  {
    if |s| >= 2 {
      SplitWhole(s[1..]);
      assert [s[0]] + s[1..] == s;
    }
  }

  /** A first part that `split` could have produced is cut off exactly. */
  lemma {:induction false} SplitAfter(x: string, y: string)
    requires NoSep(x)
    requires x == [] || x[|x| - 1] != ':'
    ensures Split(x + "::" + y) == [x] + Split(y)
    decreases |x|
  {
    var s := x + "::" + y;
    if x == [] {
      assert s == "::" + y;
      assert s[2..] == y;
    } else {
      var x' := x[1..];
      assert s[1..] == x' + "::" + y;
      assert x == [x[0]] + x';
      SplitAfter(x', y);
    }
  }

  /** `split` inverts `Join` on every list of parts it could have produced. */
  lemma {:induction false} SplitJoin(parts: seq<string>)
    requires |parts| >= 1
    requires forall i :: 0 <= i < |parts| ==> NoSep(parts[i])
    requires forall i :: 0 <= i < |parts| - 1 ==> parts[i] == [] || parts[i][|parts[i]| - 1] != ':'
    ensures Split(Join(parts)) == parts
    decreases |parts|
  {
    if |parts| == 1 {
      SplitWhole(parts[0]);
    } else {
      SplitJoin(parts[1..]);
      SplitAfter(parts[0], Join(parts[1..]));
      assert parts == [parts[0]] + parts[1..];
    }
  }

  /** Hence `Split(s)` is the one list of parts satisfying `SplitsInto(s, _)`. */
  lemma SplitUnique(s: string, parts: seq<string>)
    requires SplitsInto(s, parts)
    ensures parts == Split(s)
  {
    SplitJoin(parts);
  }

  // ---------------------------------------------------------------------------
  // Aliases

  /** An alias splits into exactly a git username and its replacement. */
  predicate IsAlias(a: string) {
    |Split(a)| == 2
  }

  function AliasKey(a: string): string {
    Split(a)[0]
  }

  function AliasValue(a: string): string {
    var parts := Split(a);
    if |parts| >= 2 then parts[1] else ""
  }

  /** Every entry of `aliases` is well-formed. */
  predicate AllAliases(aliases: seq<string>) {
    forall i :: 0 <= i < |aliases| ==> IsAlias(aliases[i])
  }

  /** No later alias in `aliases` has the same key as `aliases[i]`. */
  ghost predicate LastWithKey(aliases: seq<string>, i: int)
    requires 0 <= i < |aliases|
  {
    forall j :: i < j < |aliases| ==> AliasKey(aliases[j]) != AliasKey(aliases[i])
  }

  /** The usernames of the aliases, in order. */
  function Keys(aliases: seq<string>): (ks: seq<string>)
    ensures |ks| == |aliases|
    ensures forall i :: 0 <= i < |aliases| ==> ks[i] == AliasKey(aliases[i])
  {
    if aliases == [] then [] else [AliasKey(aliases[0])] + Keys(aliases[1..])
  }

  /** The replacements of the aliases, in order. */
  function Values(aliases: seq<string>): (vs: seq<string>)
    ensures |vs| == |aliases|
    ensures forall i :: 0 <= i < |aliases| ==> vs[i] == AliasValue(aliases[i])
  {
    if aliases == [] then [] else [AliasValue(aliases[0])] + Values(aliases[1..])
  }

  /** The map built by inserting the first `n` key/value pairs in turn. */
  function InsertAll(ks: seq<string>, vs: seq<string>, n: int): map<string, string>
    requires 0 <= n <= |ks| == |vs|
    decreases n
  {
    if n == 0 then map[]
    else InsertAll(ks, vs, n - 1)[ks[n - 1] := vs[n - 1]]
  }

  /** A key is in the built map iff one of the first `n` pairs has it. */
  lemma {:induction false} InsertAllKeys(ks: seq<string>, vs: seq<string>, n: int, k: string)
    requires 0 <= n <= |ks| == |vs|
    ensures k in InsertAll(ks, vs, n) <==> k in ks[..n]
    decreases n
  {
    if n > 0 {
      InsertAllKeys(ks, vs, n - 1, k);
      assert ks[..n] == ks[..n - 1] + [ks[n - 1]];
    }
  }

  /** A pair that no later pair overrides keeps its value in the built map. */
  lemma {:induction false} InsertAllLast(ks: seq<string>, vs: seq<string>, n: int, i: int)
    requires 0 <= i < n <= |ks| == |vs|
    requires forall j :: i < j < n ==> ks[j] != ks[i]
    ensures ks[i] in InsertAll(ks, vs, n) && InsertAll(ks, vs, n)[ks[i]] == vs[i]
    decreases n
  {
    if i < n - 1 {
      InsertAllLast(ks, vs, n - 1, i);
    }
  }

  /** Every alias's username, and nothing else, is a key of the map all aliases build. */
  lemma AliasKeysBuilt(aliases: seq<string>)
    ensures var m := BuildAliases(aliases, |aliases|);
      forall k :: k in m <==> exists i :: 0 <= i < |aliases| && AliasKey(aliases[i]) == k
  {
    var ks, vs := Keys(aliases), Values(aliases);
    BuildIsInsertAll(aliases, |aliases|);
    var m := InsertAll(ks, vs, |aliases|);
    assert ks[..|aliases|] == ks;
    forall k
      ensures k in m <==> exists i :: 0 <= i < |aliases| && AliasKey(aliases[i]) == k
    {
      InsertAllKeys(ks, vs, |aliases|, k);
      if k in ks {
        var i :| 0 <= i < |ks| && ks[i] == k;
        assert AliasKey(aliases[i]) == k;
      }
      if exists i :: 0 <= i < |aliases| && AliasKey(aliases[i]) == k {
        var i :| 0 <= i < |aliases| && AliasKey(aliases[i]) == k;
        assert ks[i] == k;
      }
    }
  }

  /** In the map all aliases build, each username maps to the replacement of its last alias. */
  lemma AliasLastWins(aliases: seq<string>)
    ensures var m := BuildAliases(aliases, |aliases|);
      forall i :: 0 <= i < |aliases| && LastWithKey(aliases, i) ==>
        AliasKey(aliases[i]) in m && m[AliasKey(aliases[i])] == AliasValue(aliases[i])
  {
    var ks, vs := Keys(aliases), Values(aliases);
    BuildIsInsertAll(aliases, |aliases|);
    forall i | 0 <= i < |aliases| && LastWithKey(aliases, i)
      ensures ks[i] in InsertAll(ks, vs, |aliases|) && InsertAll(ks, vs, |aliases|)[ks[i]] == vs[i]
    {
      InsertAllLast(ks, vs, |aliases|, i);
    }
  }

  /** The map `validate_aliases` builds from the first `n` aliases, inserting each in turn. */
  function BuildAliases(aliases: seq<string>, n: int): map<string, string>
    requires 0 <= n <= |aliases|
    decreases n
  {
    if n == 0 then map[]
    else BuildAliases(aliases, n - 1)[AliasKey(aliases[n - 1]) := AliasValue(aliases[n - 1])]
  }

  lemma {:induction false} BuildIsInsertAll(aliases: seq<string>, n: int)
    requires 0 <= n <= |aliases|
    ensures BuildAliases(aliases, n) == InsertAll(Keys(aliases), Values(aliases), n)
    decreases n
  {
    if n > 0 {
      BuildIsInsertAll(aliases, n - 1);
    }
  }

  /**
    The loop of `validate_aliases`: insert each alias in turn, stopping at the
    first that is not `<GIT_USERNAME>::<GOURCE_USERNAME>`.
   */
  method InsertAliases(aliases: seq<string>) returns (ok: bool, m: map<string, string>)
    ensures ok <==> AllAliases(aliases)
    ensures ok ==> m == BuildAliases(aliases, |aliases|)
  {
    m := map[];
    var n := 0;
    while n < |aliases|
      invariant 0 <= n <= |aliases|
      invariant forall i :: 0 <= i < n ==> IsAlias(aliases[i])
      invariant m == BuildAliases(aliases, n)
    {
      var parts := Split(aliases[n]);
      if |parts| != 2 {
        return false, m;
      }
      m := m[parts[0] := parts[1]];
      n := n + 1;
    }
    return true, m;
  }

  /**
    `validate_aliases`: every alias must be `<GIT_USERNAME>::<GOURCE_USERNAME>`;
    a later alias for the same username replaces an earlier one.
   */
  method ValidateAliases(aliases: seq<string>) returns (r: Result<map<string, string>, Error>)
    ensures r.Failure? <==> exists i :: 0 <= i < |aliases| && !IsAlias(aliases[i])
    ensures r.Failure? ==> r.error == InvalidAlias
    ensures r.Success? ==> forall k ::
      k in r.value <==> exists i :: 0 <= i < |aliases| && AliasKey(aliases[i]) == k
    ensures r.Success? ==> forall i :: 0 <= i < |aliases| && LastWithKey(aliases, i) ==>
      AliasKey(aliases[i]) in r.value && r.value[AliasKey(aliases[i])] == AliasValue(aliases[i])
  {
    var ok, m := InsertAliases(aliases);
    if !ok {
      return Failure(InvalidAlias);
    }
    AliasKeysBuilt(aliases);
    AliasLastWins(aliases);
    return Success(m);
  }

  /** The edge cases of the alias syntax. */
  lemma AliasExamples()
    ensures !IsAlias("a") && !IsAlias("a::b::c")
    ensures IsAlias("a::") && AliasKey("a::") == "a" && AliasValue("a::") == ""
    ensures IsAlias("a:::b") && AliasKey("a:::b") == "a" && AliasValue("a:::b") == ":b"
  {
    SplitWhole("a");
    assert Join(["a", "b", "c"]) == "a::b::c";
    SplitJoin(["a", "b", "c"]);
    assert Join(["a", ""]) == "a::";
    SplitJoin(["a", ""]);
    assert Join(["a", ":b"]) == "a:::b";
    SplitJoin(["a", ":b"]);
  }

  // ---------------------------------------------------------------------------
  // Repository discovery

  /** A directory entry's file name, which may not be valid UTF-8. */
  datatype Name = Utf8(text: string) | NonUtf8

  /** A directory tree as `read_dir` would list it, entries in listing order. */
  datatype Node =
    | File(name: Name)                      // any entry that is not a directory, symlinks included
    | Dir(name: Name, children: seq<Node>)
    | Locked(name: Name)                    // a directory whose listing cannot be read

  /** A path as its components, starting from the walked root. */
  type Path = seq<string>

  const GIT_DIR: string := ".git"

  /** The includes/excludes rule: an empty list imposes nothing. */
  predicate Skipped(name: string, includes: seq<string>, excludes: seq<string>) {
    || (|excludes| > 0 && name in excludes)
    || (|includes| > 0 && name !in includes)
  }

  /** `discover_repositories(root, …)` where `dir` is what lives at `root`. */
  function Discover(root: Path, dir: Node, recursive: bool, includes: seq<string>, excludes: seq<string>)
    : Result<seq<Path>, Error>
    decreases dir, 1
  {
    if dir.Dir? then Scan(root, dir, 0, recursive, includes, excludes)
    else Failure(ReadDirFailed)
  }

  /** Results of consecutive listings are concatenated; the first failure wins. */
  function Concat(a: Result<seq<Path>, Error>, b: Result<seq<Path>, Error>): (r: Result<seq<Path>, Error>)
    ensures r.Success? <==> a.Success? && b.Success?
    ensures r.Success? ==> r.value == a.value + b.value
    ensures a.Failure? ==> r == a
  {
    match a
    case Failure(_) => a
    case Success(x) =>
      match b
      case Failure(e) => Failure(e)
      case Success(y) => Success(x + y)
  }

  /** The loop over `dir`'s entries from the `i`-th on. */
  function Scan(root: Path, dir: Node, i: nat, recursive: bool, includes: seq<string>, excludes: seq<string>)
    : Result<seq<Path>, Error>
    requires dir.Dir? && i <= |dir.children|
    decreases dir, 0, |dir.children| - i
  {
    if i == |dir.children| then Success([])
    else Concat(Visit(root, dir.children[i], recursive, includes, excludes),
                Scan(root, dir, i + 1, recursive, includes, excludes))
  }

  /** One pass of the loop: what the entry `entry` of the directory at `root` adds. */
  function Visit(root: Path, entry: Node, recursive: bool, includes: seq<string>, excludes: seq<string>)
    : Result<seq<Path>, Error>
    decreases entry, 2
  {
    if entry.File? then Success([])
    else if entry.name.NonUtf8? then Failure(UnreadableName)
    else
      var n := entry.name.text;
      if Skipped(n, includes, excludes) then Success([])
      else if n == GIT_DIR then Success([root])
      else if recursive then Discover(root + [n], entry, recursive, includes, excludes)
      else Success([])
  }

  /**
    Independent description of a discovered repository: the directory reached
    from `dir` by the names `q` holds a `.git` directory the filter lets
    through, and every directory on the way passes the filter, is not itself
    named `.git`, and is entered only in recursive mode.
   */
  ghost predicate HasRepoAt(dir: Node, q: Path, recursive: bool, includes: seq<string>, excludes: seq<string>)
    decreases |q|
  {
    && dir.Dir?
    && if q == [] then
         && !Skipped(GIT_DIR, includes, excludes)
         && exists j :: 0 <= j < |dir.children| && !dir.children[j].File? && dir.children[j].name == Utf8(GIT_DIR)
       else
         && recursive && q[0] != GIT_DIR && !Skipped(q[0], includes, excludes)
         && exists j :: 0 <= j < |dir.children| && dir.children[j].Dir? && dir.children[j].name == Utf8(q[0])
              && HasRepoAt(dir.children[j], q[1..], recursive, includes, excludes)
  }

  /** `p` lies below `root` and names a repository of `dir`. */
  ghost predicate Reports(root: Path, dir: Node, p: Path, recursive: bool, includes: seq<string>, excludes: seq<string>) {
    |root| <= |p| && p[..|root|] == root && HasRepoAt(dir, p[|root|..], recursive, includes, excludes)
  }

  /** Entry `e` of the directory at `root` contributes `p`. */
  ghost predicate Contributes(root: Path, e: Node, p: Path, recursive: bool, includes: seq<string>, excludes: seq<string>) {
    && !e.File? && e.name.Utf8? && !Skipped(e.name.text, includes, excludes)
    && if e.name.text == GIT_DIR then p == root
       else recursive && e.Dir? && Reports(root + [e.name.text], e, p, recursive, includes, excludes)
  }

  lemma {:induction false} ScanFinds(root: Path, dir: Node, i: nat, recursive: bool,
                                     includes: seq<string>, excludes: seq<string>, p: Path)
    requires dir.Dir? && i <= |dir.children|
    requires Scan(root, dir, i, recursive, includes, excludes).Success?
    ensures p in Scan(root, dir, i, recursive, includes, excludes).value <==>
      exists j :: i <= j < |dir.children| && Contributes(root, dir.children[j], p, recursive, includes, excludes)
    decreases dir, 0, |dir.children| - i
  {
    if i < |dir.children| {
      var e := dir.children[i];
      ScanFinds(root, dir, i + 1, recursive, includes, excludes, p);
      if !e.File? && e.name.Utf8? && !Skipped(e.name.text, includes, excludes)
         && e.name.text != GIT_DIR && recursive {
        var sub := root + [e.name.text];
        DiscoverFinds(sub, e, recursive, includes, excludes, p);
      }
    }
  }

  /**
    Discovery is exact: on success it returns precisely the paths below `root`
    that name a repository in the sense of `HasRepoAt`.
   */
  lemma {:induction false} DiscoverFinds(root: Path, dir: Node, recursive: bool,
                                         includes: seq<string>, excludes: seq<string>, p: Path)
    requires Discover(root, dir, recursive, includes, excludes).Success?
    ensures p in Discover(root, dir, recursive, includes, excludes).value <==>
      Reports(root, dir, p, recursive, includes, excludes)
    decreases dir, 1
  {
    ScanFinds(root, dir, 0, recursive, includes, excludes, p);
    var cs := dir.children;
    if |root| <= |p| && p[..|root|] == root {
      var q := p[|root|..];
      if q != [] {
        forall j | 0 <= j < |cs|
          ensures Contributes(root, cs[j], p, recursive, includes, excludes) <==>
            (&& recursive && q[0] != GIT_DIR && !Skipped(q[0], includes, excludes)
             && cs[j].Dir? && cs[j].name == Utf8(q[0])
             && HasRepoAt(cs[j], q[1..], recursive, includes, excludes))
        {
          var e := cs[j];
          if !e.File? && e.name.Utf8? {
            var sub := root + [e.name.text];
            if |sub| <= |p| && p[..|sub|] == sub {
              assert p[|sub|..] == q[1..];
              assert q[0] == p[|root|];
            }
            if e.name == Utf8(q[0]) {
              assert p[..|sub|] == sub;
              assert p[|sub|..] == q[1..];
            }
          }
        }
      } else {
        forall j | 0 <= j < |cs|
          ensures Contributes(root, cs[j], p, recursive, includes, excludes) <==>
            (!Skipped(GIT_DIR, includes, excludes) && !cs[j].File? && cs[j].name == Utf8(GIT_DIR))
        {
        }
      }
    } else {
      forall j | 0 <= j < |cs|
        ensures !Contributes(root, cs[j], p, recursive, includes, excludes)
      {
        var e := cs[j];
        if !e.File? && e.name.Utf8? && e.name.text != GIT_DIR {
          var sub := root + [e.name.text];
          assert sub[..|root|] == root;
          assert |sub| <= |p| ==> p[..|root|] == p[..|sub|][..|root|];
        }
      }
    }
  }

  /** Without `recursive`, the only repository that can be found is the root itself. */
  lemma NonRecursiveFindsOnlyRoot(root: Path, dir: Node, includes: seq<string>, excludes: seq<string>)
    requires Discover(root, dir, false, includes, excludes).Success?
    ensures forall p :: p in Discover(root, dir, false, includes, excludes).value ==> p == root
  {
    forall p | p in Discover(root, dir, false, includes, excludes).value
      ensures p == root
    {
      DiscoverFinds(root, dir, false, includes, excludes, p);
      assert p == p[..|root|] + p[|root|..];
    }
  }

  lemma {:induction false} RepoNeedsGitAllowed(dir: Node, q: Path, recursive: bool,
                                               includes: seq<string>, excludes: seq<string>)
    requires HasRepoAt(dir, q, recursive, includes, excludes)
    ensures !Skipped(GIT_DIR, includes, excludes)
    decreases |q|
  {
    if q != [] {
      var j :| 0 <= j < |dir.children| && dir.children[j].Dir? && dir.children[j].name == Utf8(q[0])
              && HasRepoAt(dir.children[j], q[1..], recursive, includes, excludes);
      RepoNeedsGitAllowed(dir.children[j], q[1..], recursive, includes, excludes);
    }
  }

  /**
    The includes/excludes filter applies to the `.git` entry too: excluding
    `.git`, or including names without it, finds no repository at all.
   */
  lemma FilteredGitFindsNothing(root: Path, dir: Node, recursive: bool, includes: seq<string>, excludes: seq<string>)
    requires Skipped(GIT_DIR, includes, excludes)
    requires Discover(root, dir, recursive, includes, excludes).Success?
    ensures Discover(root, dir, recursive, includes, excludes).value == []
  {
    var found := Discover(root, dir, recursive, includes, excludes).value;
    if found != [] {
      DiscoverFinds(root, dir, recursive, includes, excludes, found[0]);
      RepoNeedsGitAllowed(dir, found[0][|root|..], recursive, includes, excludes);
    }
  }

  /**
    `.git` is never entered: what a `.git` directory holds, or whether it can
    be listed at all, does not change the outcome.
   */
  lemma {:induction false} GitContentsIgnored(root: Path, dir: Node, i: nat, j: nat, other: Node,
                                              recursive: bool, includes: seq<string>, excludes: seq<string>)
    requires dir.Dir? && i <= |dir.children| && j < |dir.children|
    requires !dir.children[j].File? && dir.children[j].name == Utf8(GIT_DIR)
    requires !other.File? && other.name == Utf8(GIT_DIR)
    ensures Scan(root, dir, i, recursive, includes, excludes)
         == Scan(root, Dir(dir.name, dir.children[j := other]), i, recursive, includes, excludes)
    decreases |dir.children| - i
  {
    if i < |dir.children| {
      GitContentsIgnored(root, dir, i + 1, j, other, recursive, includes, excludes);
    }
  }
  /** `e` is a directory entry named `.git`. */
  predicate NamedGit(e: Node) {
    !e.File? && e.name == Utf8(GIT_DIR)
  }

  /** At most one entry of `dir` is a directory named `.git`, as on any real filesystem. */
  predicate AtMostOneGit(dir: Node)
    requires dir.Dir?
  {
    forall j, k :: 0 <= j < k < |dir.children| ==> !(NamedGit(dir.children[j]) && NamedGit(dir.children[k]))
  }

  lemma {:induction false} NonRecursiveScan(root: Path, dir: Node, i: nat, includes: seq<string>, excludes: seq<string>)
    requires dir.Dir? && i <= |dir.children| && AtMostOneGit(dir)
    requires Scan(root, dir, i, false, includes, excludes).Success?
    ensures Scan(root, dir, i, false, includes, excludes).value ==
      if !Skipped(GIT_DIR, includes, excludes) && exists j :: i <= j < |dir.children| && NamedGit(dir.children[j])
      then [root] else []
    decreases |dir.children| - i
  {
    if i < |dir.children| {
      NonRecursiveScan(root, dir, i + 1, includes, excludes);
      if NamedGit(dir.children[i]) {
        assert forall j :: i < j < |dir.children| ==> !NamedGit(dir.children[j]);
      }
    }
  }

  /**
    Without `recursive`, discovery yields `[root]` when the root directly holds
    a `.git` directory the filter lets through, and nothing otherwise.
   */
  lemma NonRecursiveRootOrNothing(root: Path, dir: Node, includes: seq<string>, excludes: seq<string>)
    requires dir.Dir? && AtMostOneGit(dir)
    requires Discover(root, dir, false, includes, excludes).Success?
    ensures Discover(root, dir, false, includes, excludes).value ==
      if !Skipped(GIT_DIR, includes, excludes) && exists j :: 0 <= j < |dir.children| && NamedGit(dir.children[j])
      then [root] else []
  {
    NonRecursiveScan(root, dir, 0, includes, excludes);
  }

  lemma ConcatAssociative(a: Result<seq<Path>, Error>, b: Result<seq<Path>, Error>, c: Result<seq<Path>, Error>)
    ensures Concat(a, Concat(b, c)) == Concat(Concat(a, b), c)
  {
    if a.Success? && b.Success? && c.Success? {
      assert a.value + (b.value + c.value) == (a.value + b.value) + c.value;
    }
  }

  lemma {:induction false} ScanShift(root: Path, name: Name, before: seq<Node>, after: seq<Node>, k: nat,
                                     recursive: bool, includes: seq<string>, excludes: seq<string>)
    requires k <= |after|
    ensures Scan(root, Dir(name, before + after), |before| + k, recursive, includes, excludes)
         == Scan(root, Dir(name, after), k, recursive, includes, excludes)
    decreases |after| - k
  {
    if k < |after| {
      ScanShift(root, name, before, after, k + 1, recursive, includes, excludes);
      assert (before + after)[|before| + k] == after[k];
    }
  }

  /**
    Entries are handled in listing order: scanning two runs of entries one
    after the other is scanning each and concatenating, so repositories come
    out depth-first in entry order.
   */
  lemma {:induction false} ScanAppend(root: Path, name: Name, first: seq<Node>, second: seq<Node>, i: nat,
                                      recursive: bool, includes: seq<string>, excludes: seq<string>)
    requires i <= |first|
    ensures Scan(root, Dir(name, first + second), i, recursive, includes, excludes)
         == Concat(Scan(root, Dir(name, first), i, recursive, includes, excludes),
                   Scan(root, Dir(name, second), 0, recursive, includes, excludes))
    decreases |first| - i
  {
    if i == |first| {
      ScanShift(root, name, first, second, 0, recursive, includes, excludes);
      var rest := Scan(root, Dir(name, second), 0, recursive, includes, excludes);
      assert rest.Success? ==> [] + rest.value == rest.value;
    } else {
      ScanAppend(root, name, first, second, i + 1, recursive, includes, excludes);
      assert (first + second)[i] == first[i];
      ConcatAssociative(Visit(root, first[i], recursive, includes, excludes),
                        Scan(root, Dir(name, first), i + 1, recursive, includes, excludes),
                        Scan(root, Dir(name, second), 0, recursive, includes, excludes));
    }
  }
}
