/** One run of `test_yaml_based` on a generated case: the package list is checked, then each
    request is paired with the transaction expected of it, dispatched to the install handler and
    its effect compared. The `pip` process is an oracle: `run(j, requirement)` is what the install
    for the `j`-th request reports. */
module CaseRunner {
  import opened Wrappers
  import opened Values
  import opened SpecParser
  import opened Installed
  import opened PyText
  import Scan

  const AvailableKey := "available"
  const RequestKey := "request"
  const TransactionKey := "transaction"
  const InstallKey := "install"
  const ConflictWord := "conflicting"

  /** What the install process reports: on exit status 0 the paths it created, otherwise its
      error output. */
  datatype InstallerRun =
    | ZeroExit(filesCreated: seq<string>)
    | NonZeroExit(stderr: string)

  /** Why a case fails: each is an assertion of the test, or an exception of the code it calls. */
  datatype CaseFailure =
    | NotAList(key: string)
    | CountMismatch(requests: nat, transactions: nat)
    | PackageUnparsable(index: nat, parseError: ParseError)
    | PackageNotMapping(index: nat)
    | RequestNotMapping(index: nat)
    | NotOneAction(index: nat, count: nat)
    | UnsupportedAction(index: nat, action: string)
    | RequirementNotString(index: nat)
    | SummaryFailed(index: nat, summaryError: SummaryError)
    | ConflictScanRaised(index: nat)
    | UnexpectedEffect(index: nat, effect: Value)

  datatype Verdict = Passed | Failed(failure: CaseFailure)

  /** `case.get(key, [])`, read as a list. */
  function ListField(fields: map<string, Value>, key: string): Option<seq<Value>> {
    if key !in fields then Some([])
    else if fields[key].List? then Some(fields[key].items)
    else None
  }

  /** The entries of the summary as the strings of the `install` list. */
  function Strs(entries: seq<string>): (r: seq<Value>)
    ensures |r| == |entries|
  {
    seq(|entries|, k requires 0 <= k < |entries| => Str(entries[k]))
  }

  /** `"conflicting" in stderr.lower()`. */
  predicate MentionsConflict(stderr: string) {
    Contains(Lower(stderr), ConflictWord)
  }

  /** What the install handler returns once `_result_object` is deleted, or why it raised. A
      failed install whose error output mentions a conflict reaches the call that scans the last
      line of that output, and that call raises: it is handed the compiled pattern where the text
      to search belongs. */
  function InstallEffect(requirement: Value, j: nat, run: (nat, string) -> InstallerRun): Result<Value, CaseFailure> {
    if !requirement.Str? then Failure(RequirementNotString(j))
    else
      match run(j, requirement.s)
      case ZeroExit(files) =>
        (match InstallSummary(files)
         case Failure(e) => Failure(SummaryFailed(j, e))
         case Success(entries) => Success(Dict(map[InstallKey := List(Strs(entries))])))
      case NonZeroExit(stderr) =>
        if MentionsConflict(stderr) then Failure(ConflictScanRaised(j)) else Success(Dict(map[]))
  }

  /** The install handler. */
  method HandleInstallRequest(requirement: Value, j: nat, run: (nat, string) -> InstallerRun)
    returns (r: Result<Value, CaseFailure>)
    ensures r == InstallEffect(requirement, j, run)
  {
    if !requirement.Str? {
      return Failure(RequirementNotString(j));
    }
    var result := run(j, requirement.s);
    match result
    case ZeroExit(files) =>
      var install := SummariseInstall(files);
      if install.Failure? {
        return Failure(SummaryFailed(j, install.error));
      }
      return Success(Dict(map[InstallKey := List(Strs(install.value))]));
    case NonZeroExit(stderr) =>
      if MentionsConflict(stderr) {
        return Failure(ConflictScanRaised(j));
      }
      return Success(Dict(map[]));
  }

  /** A mapping with one key has no other. */
  lemma SingleKey(m: map<string, Value>, a: string)
    requires |m| == 1 && a in m
    ensures forall b | b in m :: b == a
  {
    var others := m.Keys - {a};
    assert m.Keys == others + {a};
    assert |others| == 0;
    forall b | b in m
      ensures b == a
    {
      assert b !in others;
    }
  }

  /** `list(request.keys())[0]` of a request with exactly one key. */
  function OnlyKey(m: map<string, Value>): (k: string)
    requires |m| == 1
    ensures k in m && forall b | b in m :: b == k
  {
    assert exists a :: a in m by {
      assert m.Keys != {};
    }
    var a :| a in m;
    SingleKey(m, a);
    a
  }

  /** Why a package of the `available` list is refused: a string that does not parse, or a value
      that is neither a string nor a mapping. */
  function PackageFault(package: Value, i: nat): Option<CaseFailure> {
    match package
    case Str(s) =>
      (match ParsePackageSpec(s)
       case Failure(e) => Some(PackageUnparsable(i, e))
       case Success(_) => None)
    case Dict(_) => None
    case _ => Some(PackageNotMapping(i))
  }

  /** The fault of the `i`-th package. */
  function PackageFaultAt(available: seq<Value>, i: nat): Option<CaseFailure> {
    if i < |available| then PackageFault(available[i], i) else None
  }

  function PackageFaults(available: seq<Value>): nat -> Option<CaseFailure> {
    (i: nat) => PackageFaultAt(available, i)
  }

  /** The first refused package from index `from` on. */
  function PackagesFault(available: seq<Value>, from: nat): Option<CaseFailure>
    requires from <= |available|
  {
    Scan.FirstFault(|available|, from, PackageFaults(available))
  }

  /** Why the `j`-th request fails against the transaction expected of it. */
  function RequestFault(request: Value, expected: Value, j: nat, run: (nat, string) -> InstallerRun): Option<CaseFailure> {
    if !request.Dict? then Some(RequestNotMapping(j))
    else if |request.entries| != 1 then Some(NotOneAction(j, |request.entries|))
    else if InstallKey !in request.entries then Some(UnsupportedAction(j, OnlyKey(request.entries)))
    else
      match InstallEffect(request.entries[InstallKey], j, run)
      case Failure(f) => Some(f)
      case Success(effect) => if effect == expected then None else Some(UnexpectedEffect(j, effect))
  }

  /** The fault of the `j`-th request. */
  function RequestFaultAt(requests: seq<Value>, transaction: seq<Value>, run: (nat, string) -> InstallerRun, j: nat): Option<CaseFailure> {
    if j < |requests| && j < |transaction| then RequestFault(requests[j], transaction[j], j, run) else None
  }

  function RequestFaults(requests: seq<Value>, transaction: seq<Value>, run: (nat, string) -> InstallerRun): nat -> Option<CaseFailure> {
    (j: nat) => RequestFaultAt(requests, transaction, run, j)
  }

  /** The first failing request from index `from` on. */
  function RequestsFault(requests: seq<Value>, transaction: seq<Value>, run: (nat, string) -> InstallerRun, from: nat): Option<CaseFailure>
    requires |requests| == |transaction| && from <= |requests|
  {
    Scan.FirstFault(|requests|, from, RequestFaults(requests, transaction, run))
  }

  /** The verdict of `test_yaml_based` on a case. */
  function CaseVerdict(fields: map<string, Value>, run: (nat, string) -> InstallerRun): Verdict {
    var requests := ListField(fields, RequestKey);
    var transaction := ListField(fields, TransactionKey);
    var available := ListField(fields, AvailableKey);
    if requests.None? then Failed(NotAList(RequestKey))
    else if transaction.None? then Failed(NotAList(TransactionKey))
    else if |requests.value| != |transaction.value| then
      Failed(CountMismatch(|requests.value|, |transaction.value|))
    else if available.None? then Failed(NotAList(AvailableKey))
    else
      match PackagesFault(available.value, 0)
      case Some(f) => Failed(f)
      case None =>
        match RequestsFault(requests.value, transaction.value, run, 0)
        case Some(f) => Failed(f)
        case None => Passed
  }

  /** The test body. */
  method RunCase(fields: map<string, Value>, run: (nat, string) -> InstallerRun) returns (v: Verdict)
    ensures v == CaseVerdict(fields, run)
  {
    var requests := ListField(fields, RequestKey);
    var transaction := ListField(fields, TransactionKey);
    var available := ListField(fields, AvailableKey);
    if requests.None? {
      return Failed(NotAList(RequestKey));
    }
    if transaction.None? {
      return Failed(NotAList(TransactionKey));
    }
    if |requests.value| != |transaction.value| {
      return Failed(CountMismatch(|requests.value|, |transaction.value|));
    }
    if available.None? {
      return Failed(NotAList(AvailableKey));
    }
    var fault := CheckPackages(available.value);
    if fault.Some? {
      return Failed(fault.value);
    }
    fault := CheckRequests(requests.value, transaction.value, run);
    if fault.Some? {
      return Failed(fault.value);
    }
    return Passed;
  }

  /** The loop over the available packages. */
  method CheckPackages(available: seq<Value>) returns (fault: Option<CaseFailure>)
    ensures fault == PackagesFault(available, 0)
  {
    var i := 0;
    while i < |available|
      invariant 0 <= i <= |available|
      invariant PackagesFault(available, 0) == PackagesFault(available, i)
    {
      var f := CheckPackage(available[i], i);
      if f.Some? {
        return f;
      }
      i := i + 1;
    }
    return None;
  }

  /** The body of that loop: a string package is parsed, and any package must then be a
      mapping. */
  method CheckPackage(package: Value, i: nat) returns (fault: Option<CaseFailure>)
    ensures fault == PackageFault(package, i)
  {
    if package.Str? {
      var parsed := ConvertToDict(package.s);
      if parsed.Failure? {
        return Some(PackageUnparsable(i, parsed.error));
      }
    } else if !package.Dict? {
      return Some(PackageNotMapping(i));
    }
    return None;
  }

  /** The loop over the requests zipped with the transactions. */
  method CheckRequests(requests: seq<Value>, transaction: seq<Value>, run: (nat, string) -> InstallerRun)
    returns (fault: Option<CaseFailure>)
    requires |requests| == |transaction|
    ensures fault == RequestsFault(requests, transaction, run, 0)
  {
    var j := 0;
    while j < |requests|
      invariant 0 <= j <= |requests|
      invariant RequestsFault(requests, transaction, run, 0) == RequestsFault(requests, transaction, run, j)
    {
      var request, expected := requests[j], transaction[j];
      if !request.Dict? {
        return Some(RequestNotMapping(j));
      }
      if |request.entries| != 1 {
        return Some(NotOneAction(j, |request.entries|));
      }
      var action :| action in request.entries;
      SingleKey(request.entries, action);
      if action != InstallKey {
        return Some(UnsupportedAction(j, action));
      }
      var effect := HandleInstallRequest(request.entries[action], j, run);
      if effect.Failure? {
        return Some(effect.error);
      }
      if effect.value != expected {
        return Some(UnexpectedEffect(j, effect.value));
      }
      j := j + 1;
    }
    return None;
  }

  /** The first refused package is the fault of the scan: no package before it is refused. */
  lemma PackagesFaultIsFirst(available: seq<Value>, from: nat)
    requires from <= |available|
    ensures PackagesFault(available, from).None? <==>
              forall i | from <= i < |available| :: PackageFault(available[i], i).None?
    ensures PackagesFault(available, from).Some? ==>
              exists i | from <= i < |available| ::
                && PackageFault(available[i], i) == PackagesFault(available, from)
                && forall h | from <= h < i :: PackageFault(available[h], h).None?
  {
    Scan.FirstFaultIsFirst(|available|, from, PackageFaults(available));
    forall i | from <= i < |available|
      ensures PackageFaults(available)(i) == PackageFault(available[i], i)
    {
    }
  }

  /** The first failing request is the fault of the loop: every request before it has the effect
      expected of it. */
  lemma RequestsFaultIsFirst(requests: seq<Value>, transaction: seq<Value>, run: (nat, string) -> InstallerRun, from: nat)
    requires |requests| == |transaction| && from <= |requests|
    ensures RequestsFault(requests, transaction, run, from).None? <==>
              forall j | from <= j < |requests| :: RequestFault(requests[j], transaction[j], j, run).None?
    ensures RequestsFault(requests, transaction, run, from).Some? ==>
              exists j | from <= j < |requests| ::
                && RequestFault(requests[j], transaction[j], j, run) == RequestsFault(requests, transaction, run, from)
                && forall h | from <= h < j :: RequestFault(requests[h], transaction[h], h, run).None?
  {
    Scan.FirstFaultIsFirst(|requests|, from, RequestFaults(requests, transaction, run));
    forall j | from <= j < |requests|
      ensures RequestFaults(requests, transaction, run)(j) == RequestFault(requests[j], transaction[j], j, run)
    {
    }
  }

  /** A request passes exactly when it maps only `install` to a requirement string and the
      install's effect is the transaction expected of it. */
  lemma RequestPassesIff(request: Value, expected: Value, j: nat, run: (nat, string) -> InstallerRun)
    ensures RequestFault(request, expected, j, run).None? <==>
              && request.Dict? && request.entries.Keys == {InstallKey}
              && request.entries[InstallKey].Str?
              && InstallEffect(request.entries[InstallKey], j, run) == Success(expected)
  {
    if request.Dict? && request.entries.Keys == {InstallKey} {
      assert |request.entries| == |request.entries.Keys| == 1;
    }
    if request.Dict? && |request.entries| == 1 && InstallKey in request.entries {
      SingleKey(request.entries, InstallKey);
      assert request.entries.Keys == {InstallKey};
    }
  }

  /** A request that is not a mapping with exactly one key, or whose one key is not `install`, is
      refused, whatever the install would have done. */
  lemma RequestShapeRejected(request: Value, expected: Value, j: nat, run: (nat, string) -> InstallerRun)
    ensures !request.Dict? ==> RequestFault(request, expected, j, run) == Some(RequestNotMapping(j))
    ensures request.Dict? && |request.entries| != 1 ==>
              RequestFault(request, expected, j, run) == Some(NotOneAction(j, |request.entries|))
    ensures request.Dict? && |request.entries| == 1 && InstallKey !in request.entries ==>
              exists action | action in request.entries ::
                action != InstallKey && RequestFault(request, expected, j, run) == Some(UnsupportedAction(j, action))
  {
    if request.Dict? && |request.entries| == 1 && InstallKey !in request.entries {
      var action := OnlyKey(request.entries);
      assert action in request.entries;
    }
  }

  /** A case passes exactly when its three lists are lists of equal length, every package is a
      mapping or a string that parses, and every request maps only `install` to a requirement
      whose install has the effect its transaction expects. */
  lemma CasePassesIff(fields: map<string, Value>, run: (nat, string) -> InstallerRun)
    ensures CaseVerdict(fields, run) == Passed <==>
              && ListField(fields, RequestKey).Some?
              && ListField(fields, TransactionKey).Some?
              && ListField(fields, AvailableKey).Some?
              && var requests := ListField(fields, RequestKey).value;
                 var transaction := ListField(fields, TransactionKey).value;
                 var available := ListField(fields, AvailableKey).value;
                 && |requests| == |transaction|
                 && (forall i | 0 <= i < |available| ::
                       available[i].Dict? || (available[i].Str? && ParsePackageSpec(available[i].s).Success?))
                 && (forall j | 0 <= j < |requests| ::
                       && requests[j].Dict? && requests[j].entries.Keys == {InstallKey}
                       && requests[j].entries[InstallKey].Str?
                       && InstallEffect(requests[j].entries[InstallKey], j, run) == Success(transaction[j]))
  {
    var requests := ListField(fields, RequestKey);
    var transaction := ListField(fields, TransactionKey);
    var available := ListField(fields, AvailableKey);
    if requests.Some? && transaction.Some? && available.Some? && |requests.value| == |transaction.value| {
      PackagesFaultIsFirst(available.value, 0);
      RequestsFaultIsFirst(requests.value, transaction.value, run, 0);
      forall i | 0 <= i < |available.value|
        ensures PackageFault(available.value[i], i).None? <==>
                  available.value[i].Dict? || (available.value[i].Str? && ParsePackageSpec(available.value[i].s).Success?)
      {
      }
      forall j | 0 <= j < |requests.value|
        ensures RequestFault(requests.value[j], transaction.value[j], j, run).None? <==>
                  && requests.value[j].Dict? && requests.value[j].entries.Keys == {InstallKey}
                  && requests.value[j].entries[InstallKey].Str?
                  && InstallEffect(requests.value[j].entries[InstallKey], j, run) == Success(transaction.value[j])
      {
        RequestPassesIff(requests.value[j], transaction.value[j], j, run);
      }
    }
  }

  /** Request and transaction lists of different lengths fail the case before any package is
      looked at or any install is run. */
  lemma CountMismatchRejected(fields: map<string, Value>, run: (nat, string) -> InstallerRun)
    requires ListField(fields, RequestKey).Some? && ListField(fields, TransactionKey).Some?
    requires |ListField(fields, RequestKey).value| != |ListField(fields, TransactionKey).value|
    ensures CaseVerdict(fields, run) ==
              Failed(CountMismatch(|ListField(fields, RequestKey).value|, |ListField(fields, TransactionKey).value|))
  {
  }

  /** A case with a request that is not a single `install` action never passes. */
  lemma BadRequestRejected(fields: map<string, Value>, run: (nat, string) -> InstallerRun, j: nat)
    requires ListField(fields, RequestKey).Some?
    requires j < |ListField(fields, RequestKey).value|
    requires var request := ListField(fields, RequestKey).value[j];
             !request.Dict? || |request.entries| != 1 || InstallKey !in request.entries
    ensures CaseVerdict(fields, run).Failed?
  {
    CasePassesIff(fields, run);
  }

  /** On exit status 0 the effect is the single `install` entry holding the sorted summary: one
      string per `.dist-info` path created. */
  lemma InstallEffectOfZeroExit(requirement: string, j: nat, run: (nat, string) -> InstallerRun)
    requires run(j, requirement).ZeroExit?
    requires InstallSummary(run(j, requirement).filesCreated).Success?
    ensures var summary := InstallSummary(run(j, requirement).filesCreated).value;
            && InstallEffect(Str(requirement), j, run).Success?
            && InstallEffect(Str(requirement), j, run).value.Dict?
            && InstallEffect(Str(requirement), j, run).value.entries.Keys == {InstallKey}
            && InstallEffect(Str(requirement), j, run).value.entries[InstallKey] == List(Strs(summary))
            && Sorted(summary)
            && |summary| == |DistInfoPaths(run(j, requirement).filesCreated)|
  {
    InstallSummaryContents(run(j, requirement).filesCreated);
  }

  /** A failed install leaves the effect empty unless its error output mentions a conflict, in
      any letter case and anywhere in the text; then the handler raises. So a failed install can
      only pass a request whose transaction expects `{}`. */
  lemma InstallEffectOfNonZeroExit(requirement: string, j: nat, run: (nat, string) -> InstallerRun, i: nat)
    requires run(j, requirement).NonZeroExit?
    ensures var stderr := run(j, requirement).stderr;
      i + |ConflictWord| <= |stderr| && Lower(stderr[i..i + |ConflictWord|]) == ConflictWord ==>
        InstallEffect(Str(requirement), j, run) == Failure(ConflictScanRaised(j))
    ensures InstallEffect(Str(requirement), j, run).Success? ==>
              InstallEffect(Str(requirement), j, run) == Success(Dict(map[]))
    ensures !MentionsConflict(run(j, requirement).stderr) ==>
              InstallEffect(Str(requirement), j, run) == Success(Dict(map[]))
  {
    var stderr := run(j, requirement).stderr;
    if i + |ConflictWord| <= |stderr| && Lower(stderr[i..i + |ConflictWord|]) == ConflictWord {
      LowerSlice(stderr, i, i + |ConflictWord|);
      ContainsAt(Lower(stderr), ConflictWord, i);
    }
  }
}
