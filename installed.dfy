/** What a successful install reports: the `returncode == 0` branch of `handle_install_request`,
    which turns the paths the install created into a sorted list of `"name version"` entries, one
    per `.dist-info` directory. */
module Installed {
  import opened Wrappers
  import opened PyText

  const DistInfoSuffix := ".dist-info"

  /** An install summary fails only when a `.dist-info` name has no `-` between name and
      version: unpacking the result of `rsplit("-", 1)` then raises. */
  datatype SummaryError = NoVersionSeparator(path: string)

  /** `path.endswith(".dist-info")`. */
  predicate IsDistInfo(path: string) {
    EndsWith(path, DistInfoSuffix)
  }

  /** `os.path.basename(path)[:-len(".dist-info")]`. */
  function DistInfoStem(path: string): string {
    Slice(Basename(path), 0, -|DistInfoSuffix|)
  }

  /** For a `.dist-info` path the stem is its basename without the suffix. */
  lemma DistInfoStemShape(path: string)
    requires IsDistInfo(path)
    ensures Basename(path) == DistInfoStem(path) + DistInfoSuffix
    ensures '/' !in DistInfoStem(path)
  {
    var b := Basename(path);
    BasenameKeepsSuffix(path, DistInfoSuffix);
    SuffixRemoved(b, DistInfoSuffix);
  }

  /** A text ending in `suffix` is its slice `[:-len(suffix)]` followed by `suffix`, and the
      slice holds no `/` when the text holds none. */
  lemma SuffixRemoved(b: string, suffix: string)
    requires EndsWith(b, suffix) && '/' !in b && |suffix| > 0
    ensures Slice(b, 0, -|suffix|) + suffix == b
    ensures '/' !in Slice(b, 0, -|suffix|)
  {
    var stem := b[..|b| - |suffix|];
    assert Slice(b, 0, -|suffix|) == stem;
    assert b == stem + suffix;
    assert forall k | 0 <= k < |stem| :: stem[k] == b[k];
  }

  /** The entry one `.dist-info` path contributes: name and version split at the last `-` of
      the stem and joined by a space. */
  function EntryOf(path: string): Result<string, SummaryError> {
    var pieces := RSplitOnce(DistInfoStem(path), '-');
    if |pieces| != 2 then Failure(NoVersionSeparator(path)) else Success(Join(pieces, ' '))
  }

  /** An entry names the directory it came from: the basename is `name-version.dist-info` with no
      `-` in the version, and the entry is `name version`. One fails exactly when the stem has no
      `-`. */
  lemma EntryShape(path: string)
    requires IsDistInfo(path)
    ensures EntryOf(path).Success? <==> '-' in DistInfoStem(path)
    ensures EntryOf(path).Success? ==>
              var pieces := RSplitOnce(DistInfoStem(path), '-');
              && Basename(path) == pieces[0] + "-" + pieces[1] + DistInfoSuffix
              && '-' !in pieces[1]
              && EntryOf(path).value == pieces[0] + " " + pieces[1]
  {
    DistInfoStemShape(path);
    RSplitOnceJoin(DistInfoStem(path), '-');
    var pieces := RSplitOnce(DistInfoStem(path), '-');
    if |pieces| == 2 {
      assert Join(pieces, ' ') == pieces[0] + [' '] + pieces[1];
    }
  }

  /** A `.dist-info` directory named after a distribution and a version without `-` reports that
      name and version. */
  lemma EntryOfDistribution(prefix: string, name: string, version: string)
    requires prefix == [] || prefix[|prefix| - 1] == '/'
    requires '/' !in name && '/' !in version && '-' !in version
    ensures EntryOf(prefix + name + "-" + version + DistInfoSuffix) == Success(name + " " + version)
  {
    BasenameOfDistribution(prefix, name, version);
    EntryOfBasename(prefix + name + "-" + version + DistInfoSuffix, name + "-" + version);
    LastSeparator(name, version);
  }

  /** The basename of such a directory is `name-version.dist-info`. */
  lemma BasenameOfDistribution(prefix: string, name: string, version: string)
    requires prefix == [] || prefix[|prefix| - 1] == '/'
    requires '/' !in name && '/' !in version
    ensures Basename(prefix + name + "-" + version + DistInfoSuffix) == name + "-" + version + DistInfoSuffix
  {
    var b := name + "-" + version + DistInfoSuffix;
    assert '/' !in b by {
      ConcatAvoids(name, "-", '/');
      ConcatAvoids(name + "-", version, '/');
      ConcatAvoids(name + "-" + version, DistInfoSuffix, '/');
    }
    assert prefix + name + "-" + version + DistInfoSuffix == prefix + b;
    BasenameOfLast(prefix, b);
  }

  /** A path whose basename is `stem.dist-info` has the entry `rsplit` makes of the stem. */
  lemma EntryOfBasename(path: string, stem: string)
    requires Basename(path) == stem + DistInfoSuffix
    ensures var pieces := RSplitOnce(stem, '-');
            EntryOf(path) == if |pieces| != 2 then Failure(NoVersionSeparator(path))
                             else Success(pieces[0] + " " + pieces[1])
  {
    var b := stem + DistInfoSuffix;
    assert b[..|b| - 10] == stem;
    assert DistInfoStem(path) == stem;
    var pieces := RSplitOnce(stem, '-');
    if |pieces| == 2 {
      assert Join(pieces, ' ') == pieces[0] + " " + pieces[1];
    }
  }

  /** `rsplit("-", 1)` separates a version without `-` from the name before it. */
  lemma LastSeparator(name: string, version: string)
    requires '-' !in version
    ensures RSplitOnce(name + "-" + version, '-') == [name, version]
  {
    var stem := name + "-" + version;
    assert stem[|name|] == '-';
    var i := LastIndex(stem, '-');
    assert i == |name| by {
      assert forall k | |name| < k < |stem| :: stem[k] == version[k - |name| - 1];
    }
    assert stem[..i] == name && stem[i + 1..] == version;
  }

  /** The basename of `prefix + b`, where the prefix is empty or ends in `/` and `b` has no `/`,
      is `b`. */
  lemma BasenameOfLast(prefix: string, b: string)
    requires prefix == [] || prefix[|prefix| - 1] == '/'
    requires '/' !in b
    ensures Basename(prefix + b) == b
  {
    var path := prefix + b;
    if prefix != [] {
      assert path[|prefix| - 1] == '/';
      var i := LastIndex(path, '/');
      assert i == |prefix| - 1 by {
        assert forall k | |prefix| <= k < |path| :: path[k] == b[k - |prefix|];
      }
      assert path[i + 1..] == b;
    } else {
      assert path == b;
    }
  }

  /** The `for` loop over the created paths, before the sort: the entries of the `.dist-info`
      paths in order, or the failure of the first one without a version separator. */
  function Entries(files: seq<string>): Result<seq<string>, SummaryError> {
    Collect(files, EntryOf)
  }

  /** The entries `entry` gives for the `.dist-info` paths among `files`, in order, or the
      failure of the first that fails. */
  function Collect(files: seq<string>, entry: string -> Result<string, SummaryError>): Result<seq<string>, SummaryError>
    decreases |files|
  {
    if files == [] then Success([])
    else
      var path := files[|files| - 1];
      match Collect(files[..|files| - 1], entry)
      case Failure(e) => Failure(e)
      case Success(entries) =>
        if !IsDistInfo(path) then Success(entries)
        else
          match entry(path)
          case Failure(e) => Failure(e)
          case Success(x) => Success(entries + [x])
  }

  /** The summary: the entries, sorted. */
  function InstallSummary(files: seq<string>): Result<seq<string>, SummaryError> {
    match Entries(files)
    case Failure(e) => Failure(e)
    case Success(entries) => Success(SortStrings(entries))
  }

  /** The summary as the harness builds it: append an entry per `.dist-info` path, then sort. */
  method SummariseInstall(files: seq<string>) returns (r: Result<seq<string>, SummaryError>)
    ensures r == InstallSummary(files)
  {
    var install: seq<string> := [];
    var i := 0;
    while i < |files|
      invariant 0 <= i <= |files|
      invariant Entries(files[..i]) == Success(install)
    {
      var path := files[i];
      EntriesStep(files, i);
      if EndsWith(path, DistInfoSuffix) {
        var entry := EntryOfPath(path);
        if entry.Failure? {
          CollectFailurePersists(files, EntryOf, i + 1);
          return Failure(entry.error);
        }
        install := install + [entry.value];
      }
      i := i + 1;
    }
    assert files[..i] == files;
    install := SortStrings(install);
    return Success(install);
  }

  /** The body of that loop for a `.dist-info` path: the stem is split at its last `-`, and
      unpacking the pieces into name and version raises unless there are two. */
  method EntryOfPath(path: string) returns (r: Result<string, SummaryError>)
    ensures r == EntryOf(path)
  {
    var pieces := RSplitOnce(Slice(Basename(path), 0, -|DistInfoSuffix|), '-');
    if |pieces| != 2 {
      return Failure(NoVersionSeparator(path));
    }
    var name, version := pieces[0], pieces[1];
    assert pieces == [name, version];
    return Success(Join([name, version], ' '));
  }

  /** One more path extends the entries by the entry of that path when it is a `.dist-info`
      path, and leaves them alone otherwise. */
  lemma EntriesStep(files: seq<string>, i: nat)
    requires i < |files|
    ensures var before := Entries(files[..i]);
            var after := Entries(files[..i + 1]);
            && (before.Failure? ==> after == before)
            && (before.Success? && !IsDistInfo(files[i]) ==> after == before)
            && (before.Success? && IsDistInfo(files[i]) && EntryOf(files[i]).Failure? ==>
                  after == Failure(EntryOf(files[i]).error))
            && (before.Success? && IsDistInfo(files[i]) && EntryOf(files[i]).Success? ==>
                  after == Success(before.value + [EntryOf(files[i]).value]))
  {
    assert files[..i + 1][..i] == files[..i];
  }

  /** Once a prefix of the paths fails, the whole list fails the same way. */
  lemma {:induction false} CollectFailurePersists(files: seq<string>, entry: string -> Result<string, SummaryError>, i: nat)
    requires i <= |files| && Collect(files[..i], entry).Failure?
    ensures Collect(files, entry) == Collect(files[..i], entry)
    decreases |files| - i
  {
    if i < |files| {
      assert files[..i + 1][..i] == files[..i];
      CollectFailurePersists(files, entry, i + 1);
    } else {
      assert files[..i] == files;
    }
  }

  /** The `.dist-info` paths among the created paths, in order. */
  function DistInfoPaths(files: seq<string>): (r: seq<string>)
    ensures forall k | 0 <= k < |r| :: IsDistInfo(r[k])
    ensures |r| <= |files|
    decreases |files|
  {
    if files == [] then []
    else
      var rest := DistInfoPaths(files[..|files| - 1]);
      if IsDistInfo(files[|files| - 1]) then rest + [files[|files| - 1]] else rest
  }

  /** The entries succeed exactly when every `.dist-info` path has a version separator; then
      there is one entry per `.dist-info` path, in order, and no other. */
  lemma EntriesContents(files: seq<string>)
    ensures Entries(files).Success? <==>
              forall k | 0 <= k < |DistInfoPaths(files)| :: EntryOf(DistInfoPaths(files)[k]).Success?
    ensures Entries(files).Success? ==>
              && |Entries(files).value| == |DistInfoPaths(files)|
              && forall k | 0 <= k < |DistInfoPaths(files)| ::
                   Entries(files).value[k] == EntryOf(DistInfoPaths(files)[k]).value
  {
    CollectContents(files, EntryOf);
  }

  /** `Collect` succeeds exactly when `entry` succeeds on every `.dist-info` path, and then
      holds their entries in order. */
  lemma CollectContents(files: seq<string>, entry: string -> Result<string, SummaryError>)
    ensures Collect(files, entry).Success? <==>
              forall k | 0 <= k < |DistInfoPaths(files)| :: entry(DistInfoPaths(files)[k]).Success?
    ensures Collect(files, entry).Success? ==>
              && |Collect(files, entry).value| == |DistInfoPaths(files)|
              && forall k | 0 <= k < |DistInfoPaths(files)| ::
                   Collect(files, entry).value[k] == entry(DistInfoPaths(files)[k]).value
  {
    CollectSucceedsIff(files, entry);
    if Collect(files, entry).Success? {
      CollectValues(files, entry);
    }
  }

  /** The last path of a list is a `.dist-info` path of it when it ends in `.dist-info`, after
      those of the paths before it. */
  lemma DistInfoPathsOfLast(files: seq<string>)
    requires files != []
    ensures var ps := DistInfoPaths(files);
            var rest := DistInfoPaths(files[..|files| - 1]);
            && (IsDistInfo(files[|files| - 1]) ==>
                  |ps| == |rest| + 1 && ps[|rest|] == files[|files| - 1]
                  && forall k | 0 <= k < |rest| :: ps[k] == rest[k])
            && (!IsDistInfo(files[|files| - 1]) ==> ps == rest)
  {
  }

  lemma {:induction false} CollectSucceedsIff(files: seq<string>, entry: string -> Result<string, SummaryError>)
    ensures Collect(files, entry).Success? <==>
              forall k | 0 <= k < |DistInfoPaths(files)| :: entry(DistInfoPaths(files)[k]).Success?
    decreases |files|
  {
    if files != [] {
      var init := files[..|files| - 1];
      CollectSucceedsIff(init, entry);
      DistInfoPathsOfLast(files);
      var rest := DistInfoPaths(init);
      var ps := DistInfoPaths(files);
      var path := files[|files| - 1];
      if IsDistInfo(path) {
        if Collect(init, entry).Failure? {
          var k :| 0 <= k < |rest| && entry(rest[k]).Failure?;
          assert entry(ps[k]).Failure?;
        } else if entry(path).Failure? {
          assert entry(ps[|rest|]).Failure?;
        } else {
          forall k | 0 <= k < |ps|
            ensures entry(ps[k]).Success?
          {
            if k < |rest| {
              assert ps[k] == rest[k];
            }
          }
        }
      }
    }
  }

  lemma {:induction false} CollectValues(files: seq<string>, entry: string -> Result<string, SummaryError>)
    requires Collect(files, entry).Success?
    ensures |Collect(files, entry).value| == |DistInfoPaths(files)|
    ensures forall k | 0 <= k < |DistInfoPaths(files)| ::
              && entry(DistInfoPaths(files)[k]).Success?
              && Collect(files, entry).value[k] == entry(DistInfoPaths(files)[k]).value
    decreases |files|
  {
    if files != [] {
      var init := files[..|files| - 1];
      CollectValues(init, entry);
      DistInfoPathsOfLast(files);
      var rest := DistInfoPaths(init);
      var ps := DistInfoPaths(files);
      var path := files[|files| - 1];
      if IsDistInfo(path) {
        var before := Collect(init, entry).value;
        var es := Collect(files, entry).value;
        assert es == before + [entry(path).value];
        forall k | 0 <= k < |ps|
          ensures entry(ps[k]).Success? && es[k] == entry(ps[k]).value
        {
          if k < |rest| {
            assert es[k] == before[k] && ps[k] == rest[k];
          }
        }
      }
    }
  }

  /** A path is a `.dist-info` path of the list exactly when it is one of the created paths and
      ends in `.dist-info`. */
  lemma {:induction false} DistInfoPathsMembers(files: seq<string>, path: string)
    ensures path in DistInfoPaths(files) <==> path in files && IsDistInfo(path)
    decreases |files|
  {
    if files != [] {
      var init := files[..|files| - 1];
      DistInfoPathsMembers(init, path);
      assert files == init + [files[|files| - 1]];
    }
  }

  /** The order of the strings that `list.sort()` produces: Python compares strings code point by
      code point, and a proper prefix comes first. */
  predicate StrLt(a: string, b: string)
    decreases |a|
  {
    if a == [] then b != []
    else if b == [] then false
    else if a[0] != b[0] then a[0] < b[0]
    else StrLt(a[1..], b[1..])
  }

  predicate StrLe(a: string, b: string) {
    a == b || StrLt(a, b)
  }

  /** The order is irreflexive. */
  lemma {:induction false} StrLtIrreflexive(a: string)
    ensures !StrLt(a, a)
    decreases |a|
  {
    if a != [] {
      StrLtIrreflexive(a[1..]);
    }
  }

  /** The order is asymmetric. */
  lemma {:induction false} StrLtAsymmetric(a: string, b: string)
    ensures !(StrLt(a, b) && StrLt(b, a))
    decreases |a|
  {
    if a != [] && b != [] && a[0] == b[0] {
      StrLtAsymmetric(a[1..], b[1..]);
    }
  }

  /** Any two different strings are ordered one way or the other. */
  lemma {:induction false} StrLtTotal(a: string, b: string)
    ensures a == b || StrLt(a, b) || StrLt(b, a)
    decreases |a|
  {
    if a != [] && b != [] && a[0] == b[0] {
      StrLtTotal(a[1..], b[1..]);
      if a[1..] == b[1..] {
        assert a == [a[0]] + a[1..] && b == [b[0]] + b[1..];
      }
    }
  }

  /** The order is transitive. */
  lemma {:induction false} StrLtTransitive(a: string, b: string, c: string)
    requires StrLt(a, b) && StrLt(b, c)
    ensures StrLt(a, c)
    decreases |a|
  {
    if a != [] && a[0] == b[0] && b[0] == c[0] {
      StrLtTransitive(a[1..], b[1..], c[1..]);
    }
  }

  predicate Sorted(xs: seq<string>) {
    forall i, j | 0 <= i < j < |xs| :: StrLe(xs[i], xs[j])
  }

  /** `x` placed before the first element it does not exceed. */
  function Insert(x: string, xs: seq<string>): (r: seq<string>)
    ensures multiset(r) == multiset(xs) + multiset{x}
    ensures |r| == |xs| + 1
    decreases |xs|
  {
    if xs == [] || StrLe(x, xs[0]) then [x] + xs
    else
      assert xs == [xs[0]] + xs[1..];
      [xs[0]] + Insert(x, xs[1..])
  }

  /** Inserting into a sorted list keeps it sorted. */
  lemma {:induction false} InsertSorted(x: string, xs: seq<string>)
    requires Sorted(xs)
    ensures Sorted(Insert(x, xs))
    decreases |xs|
  {
    if xs == [] || StrLe(x, xs[0]) {
      forall k | 0 <= k < |xs|
        ensures StrLe(x, xs[k])
      {
        if x != xs[0] && xs[0] != xs[k] {
          StrLtTransitive(x, xs[0], xs[k]);
        }
      }
      SortedCons(x, xs);
    } else {
      StrLtTotal(x, xs[0]);
      SortedTail(xs);
      InsertSorted(x, xs[1..]);
      var r := Insert(x, xs[1..]);
      forall k | 0 <= k < |r|
        ensures StrLe(xs[0], r[k])
      {
        assert r[k] in multiset(r);
        if r[k] != x {
          assert r[k] in multiset(xs[1..]);
          var m :| 0 <= m < |xs[1..]| && xs[1..][m] == r[k];
          assert xs[1..][m] == xs[m + 1];
        }
      }
      SortedCons(xs[0], r);
    }
  }

  /** A list stays sorted with an element in front that comes before all of it. */
  lemma SortedCons(x: string, xs: seq<string>)
    requires Sorted(xs)
    requires forall k | 0 <= k < |xs| :: StrLe(x, xs[k])
    ensures Sorted([x] + xs)
  {
    var r := [x] + xs;
    forall i, j | 0 <= i < j < |r|
      ensures StrLe(r[i], r[j])
    {
      assert r[j] == xs[j - 1];
      if i > 0 {
        assert r[i] == xs[i - 1];
      }
    }
  }

  /** `list.sort()`: insertion of each element into the sorted rest. */
  function SortStrings(xs: seq<string>): (r: seq<string>)
    ensures multiset(r) == multiset(xs)
    ensures |r| == |xs|
    decreases |xs|
  {
    if xs == [] then []
    else
      assert xs == [xs[0]] + xs[1..];
      Insert(xs[0], SortStrings(xs[1..]))
  }

  /** The sorted list is sorted. */
  lemma {:induction false} SortStringsSorted(xs: seq<string>)
    ensures Sorted(SortStrings(xs))
    decreases |xs|
  {
    if xs != [] {
      SortStringsSorted(xs[1..]);
      InsertSorted(xs[0], SortStrings(xs[1..]));
    }
  }

  /** The head of a sorted list comes before every element of it. */
  lemma SortedHead(xs: seq<string>, x: string)
    requires Sorted(xs) && x in xs
    ensures StrLe(xs[0], x)
  {
    var i :| 0 <= i < |xs| && xs[i] == x;
    if i > 0 {
      assert StrLe(xs[0], xs[i]);
    }
  }

  /** The tail of a sorted list is sorted. */
  lemma SortedTail(xs: seq<string>)
    requires Sorted(xs) && xs != []
    ensures Sorted(xs[1..])
  {
    forall i, j | 0 <= i < j < |xs| - 1
      ensures StrLe(xs[1..][i], xs[1..][j])
    {
      assert xs[1..][i] == xs[i + 1] && xs[1..][j] == xs[j + 1];
    }
  }

  /** Two sorted lists with the same elements are equal: the sort does not depend on the order the
      entries arrived in. */
  lemma {:induction false} SortedUnique(a: seq<string>, b: seq<string>)
    requires Sorted(a) && Sorted(b) && multiset(a) == multiset(b)
    ensures a == b
    decreases |a|
  {
    assert |b| == |a| by {
      assert |multiset(a)| == |a| && |multiset(b)| == |b|;
    }
    if a != [] {
      assert a[0] == b[0] by {
        assert a[0] in multiset(b) && b[0] in multiset(a);
        SortedHead(b, a[0]);
        SortedHead(a, b[0]);
        StrLtAsymmetric(a[0], b[0]);
      }
      assert multiset(a[1..]) == multiset(b[1..]) by {
        MultisetTail(a);
        MultisetTail(b);
      }
      SortedTail(a);
      SortedTail(b);
      SortedUnique(a[1..], b[1..]);
      assert a == [a[0]] + a[1..] && b == [b[0]] + b[1..];
    }
  }

  /** The rest of a list holds its elements but the first. */
  lemma MultisetTail(a: seq<string>)
    requires a != []
    ensures multiset(a[1..]) == multiset(a) - multiset{a[0]}
  {
    assert a == [a[0]] + a[1..];
  }

  /** The summary of a successful install: sorted, one entry per `.dist-info` path, and exactly
      the entries those paths give. */
  lemma InstallSummaryContents(files: seq<string>)
    ensures InstallSummary(files).Success? <==> Entries(files).Success?
    ensures InstallSummary(files).Success? ==>
              && Sorted(InstallSummary(files).value)
              && multiset(InstallSummary(files).value) == multiset(Entries(files).value)
              && |InstallSummary(files).value| == |DistInfoPaths(files)|
  {
    EntriesContents(files);
    if Entries(files).Success? {
      SortStringsSorted(Entries(files).value);
    }
  }

  /** Every `.dist-info` path has its entry in the summary, and every entry of the summary comes
      from one. */
  lemma InstallSummaryMembers(files: seq<string>)
    requires InstallSummary(files).Success?
    ensures forall k | 0 <= k < |files| && IsDistInfo(files[k]) ::
              EntryOf(files[k]).Success? && EntryOf(files[k]).value in InstallSummary(files).value
    ensures forall x | x in InstallSummary(files).value ::
              exists k | 0 <= k < |files| :: IsDistInfo(files[k]) && EntryOf(files[k]) == Success(x)
  {
    InstallSummaryContents(files);
    CollectMembers(files, EntryOf);
    var entries := Entries(files).value;
    var summary := InstallSummary(files).value;
    forall x
      ensures x in summary <==> x in entries
    {
      assert x in summary <==> x in multiset(summary);
      assert x in entries <==> x in multiset(entries);
    }
  }

  /** The entries `Collect` gathers are those of the `.dist-info` paths, and only those. */
  lemma CollectMembers(files: seq<string>, entry: string -> Result<string, SummaryError>)
    requires Collect(files, entry).Success?
    ensures forall k | 0 <= k < |files| && IsDistInfo(files[k]) ::
              entry(files[k]).Success? && entry(files[k]).value in Collect(files, entry).value
    ensures forall x | x in Collect(files, entry).value ::
              exists k | 0 <= k < |files| :: IsDistInfo(files[k]) && entry(files[k]) == Success(x)
  {
    CollectValues(files, entry);
    var paths := DistInfoPaths(files);
    var entries := Collect(files, entry).value;
    forall k | 0 <= k < |files| && IsDistInfo(files[k])
      ensures entry(files[k]).Success? && entry(files[k]).value in entries
    {
      DistInfoPathsMembers(files, files[k]);
      var m :| 0 <= m < |paths| && paths[m] == files[k];
      assert entries[m] == entry(files[k]).value;
    }
    forall x | x in entries
      ensures exists k | 0 <= k < |files| :: IsDistInfo(files[k]) && entry(files[k]) == Success(x)
    {
      var m :| 0 <= m < |entries| && entries[m] == x;
      DistInfoPathsMembers(files, paths[m]);
      var k :| 0 <= k < |files| && files[k] == paths[m];
      assert IsDistInfo(files[k]) && entry(files[k]) == Success(x);
    }
  }
}
