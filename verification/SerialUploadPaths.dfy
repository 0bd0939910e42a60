/** Where the paths of an accepted upload lead once their components are followed. */
module SerialUploadPaths {
  import opened Results
  import opened SerialUpload
  import opened SerialUploadProofs
  import opened SerialUploadTransfer
  import opened SerialUploadJoin

  /** Following the components of a path: empty ones and `.` stay, `..` goes up where there is an up. */
  function Follow(parts: seq<string>, at: seq<string>): seq<string>
    decreases |parts|
  {
    if parts == [] then at
    else if parts[0] == "" || parts[0] == "." then Follow(parts[1..], at)
    else if parts[0] == ".." then Follow(parts[1..], if at == [] then [] else at[..|at| - 1])
    else Follow(parts[1..], at + [parts[0]])
  }

  /** The place an absolute path names. */
  function Resolved(path: string): seq<string> { Follow(Components(path), []) }

  predicate SlashFree(s: string) { forall i :: 0 <= i < |s| ==> s[i] != '/' }

  // ---------- components ----------

  lemma {:induction false} OneComponent(s: string)
    requires SlashFree(s)
    ensures Components(s) == [s]
  {
    if s != "" {
      OneComponent(s[1..]);
      assert [s[0]] + s[1..] == s;
    }
  }

  /** A slash separates the components before it from those behind it. */
  lemma {:induction false} ComponentsJoin(a: string, b: string)
    ensures Components(a + "/" + b) == Components(a) + Components(b)
  {
    hide Components;
    var whole := a + "/" + b;
    NoComponents();
    ComponentsUnfold(whole);
    if a == "" {
      assert whole[1..] == b && whole[0] == '/';
    } else {
      assert whole[1..] == a[1..] + "/" + b && whole[0] == a[0];
      ComponentsUnfold(a);
      ComponentsJoin(a[1..], b);
      FirstLonger(a[0], Components(a[1..]), Components(b));
      assert [""] + Components(a[1..]) + Components(b) == [""] + (Components(a[1..]) + Components(b));
    }
  }

  lemma NoComponents()
    ensures Components("") == [""]
  {
  }

  lemma ComponentsUnfold(path: string)
    requires path != ""
    ensures var rest := Components(path[1..]);
            Components(path) == if path[0] == '/' then [""] + rest else [[path[0]] + rest[0]] + rest[1..]
  {
  }

  lemma FirstLonger(c: char, a: seq<string>, b: seq<string>)
    requires |a| > 0
    ensures [[c] + (a + b)[0]] + (a + b)[1..] == [[c] + a[0]] + a[1..] + b
  {
    assert (a + b)[0] == a[0] && (a + b)[1..] == a[1..] + b;
  }

  /** The components are the texts between the slashes: joined by slashes they give the path, and none has a
      slash of its own. */
  function Joined(parts: seq<string>): string
    requires parts != []
  {
    if |parts| == 1 then parts[0] else parts[0] + "/" + Joined(parts[1..])
  }

  lemma {:induction false} ComponentsAre(path: string)
    ensures Joined(Components(path)) == path && forall i :: 0 <= i < |Components(path)| ==> SlashFree(Components(path)[i])
  {
    if path != "" {
      ComponentsAre(path[1..]);
      var rest := Components(path[1..]);
      if path[0] != '/' {
        var parts := [[path[0]] + rest[0]] + rest[1..];
        assert parts[1..] == rest[1..];
      }
    }
  }

  // ---------- following ----------

  lemma {:induction false} FollowConcat(a: seq<string>, b: seq<string>, at: seq<string>)
    ensures Follow(a + b, at) == Follow(b, Follow(a, at))
    decreases |a|
  {
    if a == [] {
      assert a + b == b;
    } else {
      assert (a + b)[1..] == a[1..] + b;
      FollowConcat(a[1..], b,
                   if a[0] == "" || a[0] == "." then at
                   else if a[0] == ".." then (if at == [] then [] else at[..|at| - 1])
                   else at + [a[0]]);
    }
  }

  predicate Stays(part: string) { part == "" || part == "." }

  /** Without `..` one only goes down, by each component that is a name. */
  lemma {:induction false} FollowDown(parts: seq<string>, at: seq<string>)
    requires ".." !in parts
    ensures at <= Follow(parts, at)
    ensures Follow(parts, at) == at <==> forall i :: 0 <= i < |parts| ==> Stays(parts[i])
    decreases |parts|
  {
    if parts != [] {
      FollowDown(parts[1..], if Stays(parts[0]) then at else at + [parts[0]]);
      assert parts == [parts[0]] + parts[1..];
    }
  }

  // ---------- the staging roots ----------

  const DATA_PLACE: seq<string> := ["private", "var", ".dvm-data-seed"]
  const USER_PLACE: seq<string> := ["private", "var", "hardware", ".dvm-data-seed"]

  function Place(root: string): seq<string>
    requires root == DATA_ROOT || root == USER_ROOT
  {
    if root == DATA_ROOT then DATA_PLACE else USER_PLACE
  }

  lemma SlashNames()
    ensures SlashFree("") && SlashFree("private") && SlashFree("var") && SlashFree("hardware") && SlashFree(".dvm-data-seed")
  {
  }

  const VAR := "/private/var"

  lemma VarParts()
    ensures Components(VAR) == ["", "private", "var"]
  {
    hide Components;
    SlashNames();
    OneComponent("");
    OneComponent("private");
    OneComponent("var");
    ComponentsJoin("", "private");
    ComponentsJoin("" + "/" + "private", "var");
    assert VAR == "" + "/" + "private" + "/" + "var";
  }

  /** The components of a path two levels below another. */
  lemma TwoBelow(path: string, name: string, rest: string)
    requires SlashFree(name)
    ensures Components(path + "/" + name + "/" + rest) == Components(path) + [name] + Components(rest)
  {
    hide Components;
    OneComponent(name);
    ComponentsJoin(path, name);
    ComponentsJoin(path + "/" + name, rest);
  }

  lemma DataParts(rest: string)
    ensures Components(DATA_ROOT + rest) == ["", "private", "var", ".dvm-data-seed"] + Components(rest)
  {
    hide Components;
    SlashNames();
    VarParts();
    TwoBelow(VAR, ".dvm-data-seed", rest);
    assert DATA_ROOT == VAR + "/" + ".dvm-data-seed" + "/";
  }

  lemma UserParts(rest: string)
    ensures Components(USER_ROOT + rest) == ["", "private", "var", "hardware", ".dvm-data-seed"] + Components(rest)
  {
    hide Components;
    SlashNames();
    VarParts();
    var hardware := VAR + "/" + "hardware";
    OneComponent("hardware");
    ComponentsJoin(VAR, "hardware");
    TwoBelow(hardware, ".dvm-data-seed", rest);
    assert USER_ROOT == hardware + "/" + ".dvm-data-seed" + "/";
  }

  lemma FollowDataPlace()
    ensures Follow(["", "private", "var", ".dvm-data-seed"], []) == DATA_PLACE
  {
  }

  lemma FollowUserPlace()
    ensures Follow(["", "private", "var", "hardware", ".dvm-data-seed"], []) == USER_PLACE
  {
  }

  /** A path below a staging root by its text is followed from that root on. */
  lemma ResolvedFrom(root: string, rest: string)
    requires root == DATA_ROOT || root == USER_ROOT
    ensures Resolved(root + rest) == Follow(Components(rest), Place(root))
    ensures ".." in Components(rest) <==> ".." in Components(root + rest)
  {
    hide Components, Follow;
    if root == DATA_ROOT {
      DataParts(rest);
      FollowDataPlace();
      FollowConcat(["", "private", "var", ".dvm-data-seed"], Components(rest), []);
    } else {
      UserParts(rest);
      FollowUserPlace();
      FollowConcat(["", "private", "var", "hardware", ".dvm-data-seed"], Components(rest), []);
    }
  }

  /** An accepted path names a place at or below its staging root; the root itself exactly when nothing
      behind the root's text is a name. */
  lemma SafeStaysBelow(path: string) returns (root: string)
    requires Safe(path)
    ensures (root == DATA_ROOT || root == USER_ROOT) && root <= path && Place(root) <= Resolved(path)
    ensures var parts := Components(path[|root|..]);
            Resolved(path) == Place(root) <==> forall i :: 0 <= i < |parts| ==> Stays(parts[i])
  {
    hide Components, Follow;
    root := if DATA_ROOT <= path then DATA_ROOT else USER_ROOT;
    var rest := path[|root|..];
    assert path == root + rest;
    ResolvedFrom(root, rest);
    FollowDown(Components(rest), Place(root));
  }

  // ---------- the part files ----------

  predicate Digits(s: string) { s != "" && forall i :: 0 <= i < |s| ==> '0' <= s[i] <= '9' }

  lemma SixAreDigits(n: nat)
    ensures Digits(SixDigits(n))
  {
    DecimalDigits(n);
    hide Decimal;
  }

  lemma DigitsAreAName(s: string)
    requires Digits(s)
    ensures SlashFree(s) && !Stays(s) && s != ".."
  {
    assert '0' <= s[0] <= '9';
  }

  /** The directory of a path below a root is the path up to one of its slashes. */
  lemma DirnameSplits(remote: string, root: string) returns (rest: string)
    requires (root == DATA_ROOT || root == USER_ROOT) && root <= remote
    ensures remote == Dirname(remote) + "/" + rest
  {
    var r := |root|;
    assert remote[r - 1] == '/' && remote[r - 2] != '/';
    LastSlashAtLeast(remote, r);
    var head := remote[..LastSlash(remote)];
    StripKeeps(head, r - 1);
    StripsSlash(head);
    var dir := StripSlashes(head);
    rest := remote[|dir| + 1..];
    SplitAt(remote, head, dir);
    NotEmpty(dir, r - 1);
  }

  lemma SplitAt(remote: string, head: string, dir: string)
    requires head <= remote && dir <= head && |dir| < |head| && head[|dir|] == '/'
    ensures remote == dir + "/" + remote[|dir| + 1..]
  {
    var n := |dir|;
    assert remote[..n] == dir && remote[n] == '/';
    assert remote == remote[..n] + [remote[n]] + remote[n + 1..];
  }

  lemma NotEmpty(dir: string, k: nat)
    requires |dir| >= k > 0
    ensures dir != ""
  {
  }

  lemma {:induction false} StripsSlash(s: string)
    requires s != "" && s[|s| - 1] == '/'
    ensures |StripSlashes(s)| < |s| && s[|StripSlashes(s)|] == '/'
  {
    var t := s[..|s| - 1];
    if t != "" && t[|t| - 1] == '/' { StripsSlash(t); }
  }

  lemma PartComponents(remote: string, n: nat, root: string)
    requires Safe(remote) && (root == DATA_ROOT || root == USER_ROOT) && root <= remote
    ensures var parts := Components(PartPath(PartDir(remote), n));
            ".." !in parts && parts[|parts| - 1] == SixDigits(n)
  {
    var rest := DirnameSplits(remote, root);
    hide Components, SixDigits, Dirname;
    ComponentsJoin(Dirname(remote), rest);
    NoUpInside(Dirname(remote), rest);
    SixAreDigits(n);
    PartsOfPart(Dirname(remote), SixDigits(n));
    assert PartDir(remote) == Dirname(remote) + "/.upload-parts";
  }

  lemma NoUpInside(dir: string, rest: string)
    requires ".." !in Components(dir + "/" + rest)
    ensures ".." !in Components(dir)
  {
    hide Components;
    ComponentsJoin(dir, rest);
  }

  lemma PartsOfPart(dir: string, name: string)
    requires ".." !in Components(dir) && Digits(name)
    ensures var parts := Components(dir + "/.upload-parts" + "/" + name); ".." !in parts && parts[|parts| - 1] == name
  {
    hide Components;
    var inside := dir + "/" + ".upload-parts";
    assert inside == dir + "/.upload-parts";
    ComponentsJoin(dir, ".upload-parts");
    ComponentsJoin(inside, name);
    DigitsAreAName(name);
    OneComponent(name);
    NoSlashInParts();
    OneComponent(".upload-parts");
  }

  lemma NoSlashInParts()
    ensures SlashFree(".upload-parts") && ".upload-parts" != ".."
  {
  }

  /** Every part file of an accepted upload lies strictly below the staging root its path names. */
  lemma PartsStayBelow(remote: string, n: nat) returns (root: string)
    requires Safe(remote)
    ensures (root == DATA_ROOT || root == USER_ROOT) && root <= remote
    ensures Place(root) < Resolved(PartPath(PartDir(remote), n))
  {
    hide Components, Follow, SixDigits, Dirname, Stays;
    root := if DATA_ROOT <= remote then DATA_ROOT else USER_ROOT;
    PartsStayInStaging(remote, n, root);
    var path := PartPath(PartDir(remote), n);
    var rest := path[|root|..];
    assert path == root + rest;
    PartComponents(remote, n, root);
    SixAreDigits(n);
    StrictlyBelow(root, rest, SixDigits(n));
  }

  lemma StrictlyBelow(root: string, rest: string, name: string)
    requires root == DATA_ROOT || root == USER_ROOT
    requires ".." !in Components(root + rest) && Components(root + rest)[|Components(root + rest)| - 1] == name && Digits(name)
    ensures Place(root) < Resolved(root + rest)
  {
    hide Components, Follow;
    ResolvedFrom(root, rest);
    FollowDown(Components(rest), Place(root));
    LastOf(root, rest);
    DigitsAreAName(name);
  }

  lemma LastOf(root: string, rest: string)
    requires root == DATA_ROOT || root == USER_ROOT
    ensures var whole, tail := Components(root + rest), Components(rest); whole[|whole| - 1] == tail[|tail| - 1]
  {
    hide Components;
    if root == DATA_ROOT { DataParts(rest); } else { UserParts(rest); }
  }

  // ---------- what is refused ----------

  /** Below a root, exactly the root itself and the paths with a `..` component are refused. */
  lemma RefusedIff(root: string, rest: string)
    requires root == DATA_ROOT || root == USER_ROOT
    ensures !Safe(root + rest) <==> rest == "" || ".." in Components(rest)
  {
    hide Components, Follow;
    ResolvedFrom(root, rest);
    RootsApart(rest);
  }

  lemma RootsApart(rest: string)
    ensures !(USER_ROOT <= DATA_ROOT + rest) && !(DATA_ROOT <= USER_ROOT + rest)
  {
    assert DATA_ROOT[13] == '.' && USER_ROOT[13] == 'h';
    assert (DATA_ROOT + rest)[13] == '.' && (USER_ROOT + rest)[13] == 'h';
  }

  /** Such a path may lead out: one `..` already leaves the root for its neighbours. */
  lemma UpLeaves(root: string, name: string)
    requires root == DATA_ROOT || root == USER_ROOT
    requires SlashFree(name) && !Stays(name) && name != ".." && name != ".dvm-data-seed"
    ensures !Safe(root + "../" + name) && !(Place(root) <= Resolved(root + "../" + name))
  {
    hide Components;
    var rest := "../" + name;
    assert root + "../" + name == root + rest && rest == ".." + "/" + name;
    ComponentsJoin("..", name);
    OneComponent("..");
    OneComponent(name);
    RefusedIff(root, rest);
    ResolvedFrom(root, rest);
    UpAndDown(Place(root), name);
  }

  lemma UpAndDown(at: seq<string>, name: string)
    requires at != [] && !Stays(name) && name != ".." && name != at[|at| - 1]
    ensures !(at <= Follow([".."] + [name], at))
  {
    var parts := [".."] + [name];
    assert parts[1..] == [name] && [name][1..] == [];
    var up := at[..|at| - 1];
    assert Follow([name], up) == up + [name];
    assert Follow(parts, at) == up + [name];
    assert (up + [name])[|at| - 1] == name;
  }
}
