/** The compact package notation of the fixtures, `"name version; depends a, b"`, and the record
    `convert_to_dict` builds from it. */
module SpecParser {
  import opened Wrappers
  import opened PyText
  import Scan

  /** The keyword arguments handed to the wheel builder. `extras` maps an extra's name to its
      requirements; the compact notation never fills it. */
  datatype PackageSpec = PackageSpec(
    name: string,
    version: string,
    depends: seq<string>,
    extras: map<string, seq<string>>)

  /** The exceptions `convert_to_dict` raises. */
  datatype ParseError =
    | HeaderFieldCount(found: nat)          // `name, version = ...` unpacks other than two fields
    | ClauseWithoutArgument(clause: string) // `verb, args_str = ...` finds a single field
    | UnknownVerb(verb: string)             // the assertion on the verb

  const DependsVerb := "depends"

  /** `stripping_split`: strip the text, split it on `sep` (at most `count` times when a count is
      given) and strip every piece. */
  function StrippingSplit(s: string, sep: char, count: Option<nat>): (r: seq<string>)
    ensures |r| >= 1
    ensures count.Some? ==> |r| <= count.value + 1
    ensures forall k | 0 <= k < |r| :: NoEdgeSpace(r[k])
  {
    StripEach(Pieces(Strip(s), sep, count))
  }

  /** `t.split(sep)`, or `t.split(sep, count)` when a count is given. */
  function Pieces(t: string, sep: char, count: Option<nat>): (r: seq<string>)
    ensures |r| >= 1
    ensures count.Some? ==> |r| <= count.value + 1
  {
    if count.None? then Split(t, sep) else SplitMax(t, sep, count.value)
  }

  /** `[x.strip() for x in pieces]`. */
  function StripEach(pieces: seq<string>): (r: seq<string>)
    ensures |r| == |pieces|
    ensures forall k {:trigger r[k]} | 0 <= k < |r| :: r[k] == Strip(pieces[k])
    ensures forall k | 0 <= k < |r| :: NoEdgeSpace(r[k])
  {
    if pieces == [] then [] else [Strip(pieces[0])] + StripEach(pieces[1..])
  }

  /** The stripped `;`-separated parts of a compact spec. */
  function Parts(s: string): (r: seq<string>)
    ensures |r| >= 1
  {
    StrippingSplit(s, ';', None)
  }

  /** The space-separated fields of the first part: name and version when there are two. */
  function HeaderFields(s: string): seq<string> {
    StrippingSplit(Parts(s)[0], ' ', None)
  }

  /** The parts after the first: the clauses. */
  function Clauses(s: string): seq<string> {
    Parts(s)[1..]
  }

  /** What one clause raises, if anything. */
  function ClauseFault(clause: string): Option<ParseError> {
    var words := StrippingSplit(clause, ' ', Some(1));
    if |words| != 2 then Some(ClauseWithoutArgument(clause))
    else if words[0] != DependsVerb then Some(UnknownVerb(words[0]))
    else None
  }

  predicate IsBadClause(clause: string) {
    ClauseFault(clause).Some?
  }

  /** The dependency list an accepted clause assigns: its argument text split on `,`. */
  function ClauseArguments(clause: string): seq<string>
    requires !IsBadClause(clause)
  {
    StrippingSplit(StrippingSplit(clause, ' ', Some(1))[1], ',', None)
  }

  /** One pass of the `for` loop over the clauses: the fault the clause raises, else the list it
      assigns to `depends`. */
  function ReadClause(clause: string): Result<seq<string>, ParseError> {
    if IsBadClause(clause) then Failure(ClauseFault(clause).value) else Success(ClauseArguments(clause))
  }

  /** The `for` loop over the clauses: the fault of the first faulty clause, else the argument
      list of the last clause (none when there are no clauses). */
  function ReadClauses(clauses: seq<string>): Result<seq<string>, ParseError> {
    Scan.ReadEach(clauses, 0, [], ReadClause)
  }

  /** `convert_to_dict(s)`: the header fault, else the fault of the first faulty clause, else the
      record of the two header fields and the last clause's arguments. */
  function ParsePackageSpec(s: string): Result<PackageSpec, ParseError> {
    var fields := HeaderFields(s);
    if |fields| != 2 then
      Failure(HeaderFieldCount(|fields|))
    else
      match ReadClauses(Clauses(s))
      case Failure(e) => Failure(e)
      case Success(depends) => Success(PackageSpec(fields[0], fields[1], depends, map[]))
  }

  /** `convert_to_dict`: the header is unpacked, then the clauses are read in order. */
  method ConvertToDict(s: string) returns (r: Result<PackageSpec, ParseError>)
    ensures r == ParsePackageSpec(s)
  {
    var parts := StrippingSplit(s, ';', None);
    var fields := StrippingSplit(parts[0], ' ', None);
    if |fields| != 2 {
      return Failure(HeaderFieldCount(|fields|));
    }
    var name, version := fields[0], fields[1];
    var read := ApplyClauses(parts[1..]);
    match read
    case Failure(e) => return Failure(e);
    case Success(depends) => return Success(PackageSpec(name, version, depends, map[]));
  }

  /** The loop of `convert_to_dict`: each clause is split into verb and arguments, the first bad
      clause raises, and each accepted clause assigns `depends`. */
  method ApplyClauses(clauses: seq<string>) returns (r: Result<seq<string>, ParseError>)
    ensures r == ReadClauses(clauses)
  {
    var depends: seq<string> := [];
    var i := 0;
    while i < |clauses|
      invariant 0 <= i <= |clauses|
      invariant Scan.ReadEach(clauses, i, depends, ReadClause) == ReadClauses(clauses)
    {
      var read := ApplyClause(clauses[i]);
      assert read == ReadClause(clauses[i]);
      if read.Failure? {
        return Failure(read.error);
      }
      depends := read.value;
      i := i + 1;
    }
    return Success(depends);
  }

  /** The body of that loop: the clause is split into verb and argument text, an unknown verb or
      a missing argument raises, and the arguments are split on `,`. */
  method ApplyClause(clause: string) returns (r: Result<seq<string>, ParseError>)
    ensures r.Failure? <==> IsBadClause(clause)
    ensures r.Failure? ==> ClauseFault(clause) == Some(r.error)
    ensures r.Success? ==> r.value == ClauseArguments(clause)
  {
    var words := StrippingSplit(clause, ' ', Some(1));
    if |words| != 2 {
      return Failure(ClauseWithoutArgument(clause));
    }
    var verb, argsText := words[0], words[1];
    if verb != DependsVerb {
      return Failure(UnknownVerb(verb));
    }
    return Success(StrippingSplit(argsText, ',', None));
  }

  /** A clause reads through exactly when it is accepted. */
  lemma ReadClauseFails(clauses: seq<string>)
    ensures forall j | 0 <= j < |clauses| :: IsBadClause(clauses[j]) <==> ReadClause(clauses[j]).Failure?
  {
  }

  /** With every clause accepted, the clauses yield the arguments of the last one. */
  lemma ReadClausesAccepted(clauses: seq<string>)
    requires forall j | 0 <= j < |clauses| :: !IsBadClause(clauses[j])
    ensures clauses == [] ==> ReadClauses(clauses) == Success([])
    ensures clauses != [] ==> ReadClauses(clauses) == Success(ClauseArguments(clauses[|clauses| - 1]))
  {
    ReadClauseFails(clauses);
    Scan.ReadEachAccepted(clauses, 0, [], ReadClause);
  }

  /** A single accepted clause yields its arguments. */
  lemma ReadSingleClause(clause: string)
    requires !IsBadClause(clause)
    ensures ReadClauses([clause]) == Success(ClauseArguments(clause))
  {
    ReadClausesAccepted([clause]);
  }

  /** The clauses are read through exactly when none of them is faulty. */
  lemma ReadClausesSucceedsIff(clauses: seq<string>)
    ensures ReadClauses(clauses).Success? <==> forall k | 0 <= k < |clauses| :: !IsBadClause(clauses[k])
  {
    ReadClauseFails(clauses);
    Scan.ReadEachSucceedsIff(clauses, 0, [], ReadClause);
  }

  /** A failed read reports the fault of a faulty clause all of whose predecessors are accepted. */
  lemma ReadClausesFailure(clauses: seq<string>)
    requires ReadClauses(clauses).Failure?
    ensures var k := Scan.FirstWhere(clauses, IsBadClause, 0);
      && k < |clauses| && ClauseFault(clauses[k]) == Some(ReadClauses(clauses).error)
      && forall j | 0 <= j < k :: ClauseFault(clauses[j]).None?
  {
    ReadClauseFails(clauses);
    Scan.ReadEachFailure(clauses, 0, [], ReadClause, IsBadClause);
  }

  /** The parse succeeds exactly when the header has two fields and no clause is faulty. */
  lemma ParseSucceedsIff(s: string)
    ensures ParsePackageSpec(s).Success? <==>
              |HeaderFields(s)| == 2 && forall k | 0 <= k < |Clauses(s)| :: !IsBadClause(Clauses(s)[k])
  {
    ReadClausesSucceedsIff(Clauses(s));
  }

  /** A failed parse reports the header fault, or else the fault of a clause all of whose
      predecessors are accepted. */
  lemma ParseFailureIsFirstFault(s: string)
    requires ParsePackageSpec(s).Failure?
    ensures |HeaderFields(s)| != 2 ==> ParsePackageSpec(s).error == HeaderFieldCount(|HeaderFields(s)|)
    ensures |HeaderFields(s)| == 2 ==>
              var k := Scan.FirstWhere(Clauses(s), IsBadClause, 0);
              k < |Clauses(s)| && ClauseFault(Clauses(s)[k]) == Some(ParsePackageSpec(s).error)
              && forall j | 0 <= j < k :: ClauseFault(Clauses(s)[j]).None?
  {
    if |HeaderFields(s)| == 2 {
      ReadClausesFailure(Clauses(s));
    }
  }

  /** An accepted spec always has an empty `extras`, and an empty `depends` unless it has a
      clause; with clauses, the last clause decides `depends`. */
  lemma ParsedRecord(s: string)
    requires ParsePackageSpec(s).Success?
    ensures ParsePackageSpec(s).value.extras == map[]
    ensures ParsePackageSpec(s).value.name == HeaderFields(s)[0]
    ensures ParsePackageSpec(s).value.version == HeaderFields(s)[1]
    ensures forall k | 0 <= k < |Clauses(s)| :: !IsBadClause(Clauses(s)[k])
    ensures Clauses(s) == [] ==> ParsePackageSpec(s).value.depends == []
    ensures Clauses(s) != [] ==>
              ParsePackageSpec(s).value.depends == ClauseArguments(Clauses(s)[|Clauses(s)| - 1])
  {
    ReadClausesSucceedsIff(Clauses(s));
    ReadClausesAccepted(Clauses(s));
  }

  /** The header yields one more field than it has spaces: tabs do not separate, and each extra
      space adds a field. */
  lemma HeaderFieldsCountSpaces(s: string)
    ensures |HeaderFields(s)| == Occurrences(Parts(s)[0], ' ') + 1
  {
    StripUnchanged(Parts(s)[0]);
    SplitLength(Parts(s)[0], ' ');
  }

  /** So the parse needs exactly one space in the header. */
  lemma HeaderNeedsOneSpace(s: string)
    ensures Occurrences(Parts(s)[0], ' ') != 1 ==>
              ParsePackageSpec(s) == Failure(HeaderFieldCount(Occurrences(Parts(s)[0], ' ') + 1))
    ensures ParsePackageSpec(s).Success? ==> Occurrences(Parts(s)[0], ' ') == 1
  {
    HeaderFieldsCountSpaces(s);
  }

  /** Two spaces anywhere in the header, a doubled space included, make the parse fail. */
  lemma TwoSpacesInHeaderFail(s: string, j: nat, k: nat)
    requires j < k < |Parts(s)[0]| && Parts(s)[0][j] == ' ' && Parts(s)[0][k] == ' '
    ensures ParsePackageSpec(s).Failure? && ParsePackageSpec(s).error.HeaderFieldCount?
    ensures ParsePackageSpec(s).error.found >= 3
  {
    TwoSpacesInHeaderFields(s, j, k);
    HeaderFault(s);
  }

  /** Two spaces in the header give at least three fields. */
  lemma TwoSpacesInHeaderFields(s: string, j: nat, k: nat)
    requires j < k < |Parts(s)[0]| && Parts(s)[0][j] == ' ' && Parts(s)[0][k] == ' '
    ensures |HeaderFields(s)| >= 3
  {
    var h := Parts(s)[0];
    StripUnchanged(h);
    SplitTwoSeparators(h, ' ', j, k);
  }

  /** A header without exactly two fields is the fault reported, whatever the clauses. */
  lemma HeaderFault(s: string)
    requires |HeaderFields(s)| != 2
    ensures ParsePackageSpec(s) == Failure(HeaderFieldCount(|HeaderFields(s)|))
  {
  }

  /** The text before the first space of a stripped clause, stripped: its verb. */
  function ClauseVerb(clause: string): string
    requires ' ' in Strip(clause)
  {
    var t := Strip(clause);
    Strip(t[..FirstIndex(t, ' ')])
  }

  /** The text after the first space of a stripped clause: its argument text. */
  function ClauseArgumentText(clause: string): string
    requires ' ' in Strip(clause)
  {
    var t := Strip(clause);
    t[FirstIndex(t, ' ') + 1..]
  }

  /** Stripping the text first changes nothing: `stripping_split` strips it anyway. */
  lemma StrippingSplitOfStripped(s: string, sep: char, count: Option<nat>)
    ensures StrippingSplit(Strip(s), sep, count) == StrippingSplit(s, sep, count)
  {
    StripIdempotent(s);
  }

  /** `stripping_split(clause, " ", 1)`: the stripped verb and argument text when the stripped
      clause has a space, else the stripped clause alone. */
  lemma ClauseWords(clause: string)
    ensures ' ' in Strip(clause) ==>
              var words := StrippingSplit(clause, ' ', Some(1));
              |words| == 2 && words[0] == ClauseVerb(clause) && words[1] == Strip(ClauseArgumentText(clause))
    ensures ' ' !in Strip(clause) ==>
              var words := StrippingSplit(clause, ' ', Some(1));
              |words| == 1 && words[0] == Strip(clause)
  {
    var t := Strip(clause);
    SplitOnce(t, ' ');
    StripIdempotent(clause);
  }

  /** How a clause is judged: it needs a space once stripped; the verb before the first space must
      be `depends`; the items are the text after that space, split on `,` and stripped. */
  lemma ClauseVerdict(clause: string)
    ensures ' ' !in Strip(clause) ==> ClauseFault(clause) == Some(ClauseWithoutArgument(clause))
    ensures ' ' in Strip(clause) && ClauseVerb(clause) != DependsVerb ==>
              ClauseFault(clause) == Some(UnknownVerb(ClauseVerb(clause)))
    ensures ' ' in Strip(clause) && ClauseVerb(clause) == DependsVerb ==>
              ClauseFault(clause).None?
              && ClauseArguments(clause) == StrippingSplit(ClauseArgumentText(clause), ',', None)
  {
    ClauseWords(clause);
    if ' ' in Strip(clause) {
      StrippingSplitOfStripped(ClauseArgumentText(clause), ',', None);
    }
  }

  /** What an accepted spec's name and version look like: non-empty, without spaces or `;`, and
      without whitespace at either end. */
  lemma ParsedNameVersion(s: string)
    requires ParsePackageSpec(s).Success?
    ensures var p := ParsePackageSpec(s).value;
      && p.name != "" && p.version != ""
      && ' ' !in p.name && ' ' !in p.version && ';' !in p.name && ';' !in p.version
      && NoEdgeSpace(p.name) && NoEdgeSpace(p.version)
  {
    ParsedRecord(s);
    StripChars(Split(Strip(s), ';')[0], ';');
    HeaderPair(Parts(s)[0]);
  }

  /** The two space-separated fields of a stripped, `;`-free header: non-empty, free of spaces and
      of `;`, and without whitespace at either end. */
  lemma HeaderPair(h: string)
    requires NoEdgeSpace(h) && ';' !in h && |StrippingSplit(h, ' ', None)| == 2
    ensures var f := StrippingSplit(h, ' ', None);
      && f[0] != "" && f[1] != ""
      && ' ' !in f[0] && ' ' !in f[1] && ';' !in f[0] && ';' !in f[1]
  {
    StripUnchanged(h);
    var pieces := Split(h, ' ');
    JoinSplit(h, ' ');
    var x, y := pieces[0], pieces[1];
    assert pieces[1..] == [y];
    assert h == x + [' '] + y;
    assert x != [] && x[0] == h[0];
    assert y != [] && y[|y| - 1] == h[|h| - 1];
    StripEmptyIff(x);
    StripEmptyIff(y);
    StripChars(x, ' ');
    StripChars(x, ';');
    StripChars(y, ' ');
    StripChars(y, ';');
  }
}
