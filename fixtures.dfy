/** The body of `generate_yaml_tests` for one fixture file: the fixture's cases are overlaid on its
    `base` mapping, named after the file, and stripped of their `skip` flag; and `id_func`, which
    names each generated case in the test report. */
module Fixtures {
  import opened Wrappers
  import opened PyText
  import opened Values
  import Scan

  const NameKey := ":name:"
  const SkipKey := "skip"
  const CasesKey := "cases"
  const BaseKey := "base"

  /** One generated test case: its mapping, and whether its `skip` flag marked it as an expected
      failure. */
  datatype GeneratedCase = GeneratedCase(fields: map<string, Value>, xfail: bool)

  /** The ways reading a fixture's cases fails. */
  datatype FixtureError =
    | MissingCases             // the assertion that the fixture has `cases`
    | CasesNotList             // `cases` is not a list of templates
    | BaseNotMapping           // `base` cannot be copied and updated as a mapping
    | TemplateNotMapping(index: nat)  // the template at `index` cannot update a mapping

  /** `str(yml_file)[len(str(directory)) + 1:-4]`: the fixture's path without the directory, the
      separator after it and the four-character extension. */
  function BaseName(directory: string, path: string): (r: string)
    ensures |r| <= |path|
  {
    Slice(path, |directory| + 1, -4)
  }

  /** The path of a fixture under the directory is `directory/relative.ext` with a four-character
      extension: its base name is `relative`. */
  lemma BaseNameOfFixture(directory: string, relative: string, ext: string)
    requires |ext| == 4
    ensures BaseName(directory, directory + "/" + relative + ext) == relative
  {
    var path := directory + "/" + relative + ext;
    var a := |directory| + 1;
    assert path[a..|path| - 4] == relative;
  }

  /** A path longer than the directory, separator and extension loses exactly those; a shorter one
      leaves an empty base name. */
  lemma BaseNameLength(directory: string, path: string)
    ensures |path| >= |directory| + 5 ==>
              BaseName(directory, path) == path[|directory| + 1..|path| - 4]
    ensures |path| <= |directory| + 5 ==> BaseName(directory, path) == ""
  {
  }

  /** `case[":name:"] = base_name`, followed by `+= "-" + str(i)` when the fixture has more than
      one case. */
  function CaseName(baseName: string, i: nat, count: nat): string {
    if count > 1 then baseName + "-" + DecimalString(i) else baseName
  }

  /** The index is appended exactly when there are several cases. */
  lemma CaseNameSuffix(baseName: string, i: nat, count: nat)
    ensures count <= 1 ==> CaseName(baseName, i, count) == baseName
    ensures count > 1 ==>
              var n := CaseName(baseName, i, count);
              && |n| > |baseName| + 1 && n[..|baseName|] == baseName && n[|baseName|] == '-'
              && n[|baseName| + 1..] == DecimalString(i)
              && DecimalValue(n[|baseName| + 1..]) == i
  {
    if count > 1 {
      var d := DecimalString(i);
      var n := CaseName(baseName, i, count);
      assert n == baseName + ("-" + d);
      SuffixedName(baseName, d);
      DecimalRoundTrip(i);
    }
  }

  /** `baseName + "-" + d` is `baseName`, then `-`, then `d`. */
  lemma SuffixedName(baseName: string, d: string)
    ensures var n := baseName + ("-" + d);
            && |n| == |baseName| + 1 + |d| && n[..|baseName|] == baseName && n[|baseName|] == '-'
            && n[|baseName| + 1..] == d
  {
  }

  /** The cases of one fixture get different names when there are several of them. */
  lemma CaseNamesDistinct(baseName: string, i: nat, j: nat, count: nat)
    requires count > 1 && i != j
    ensures CaseName(baseName, i, count) != CaseName(baseName, j, count)
  {
    CaseNameSuffix(baseName, i, count);
    CaseNameSuffix(baseName, j, count);
  }

  /** One case: `base.copy()` updated with the template, its `:name:` set, and `skip` popped; the
      popped value, or `False` when there was none, decides the expected-failure mark. The copy
      is made first and `:name:` set before `skip` is popped, so a template's `:name:` is always
      overwritten and a `skip` from `base` counts as well. */
  function MergedCase(base: map<string, Value>, template: map<string, Value>, name: string): GeneratedCase {
    var merged := (base + template)[NameKey := Str(name)];
    var skip := if SkipKey in merged then merged[SkipKey] else Bool(false);
    GeneratedCase(merged - {SkipKey}, Truthy(skip))
  }

  /** What a merged case holds, key by key: its name, then every template key over every `base`
      key, and no `skip`; it is an expected failure exactly when the template's `skip`, or else
      the base's, is truthy. */
  lemma MergedCaseFields(base: map<string, Value>, template: map<string, Value>, name: string)
    ensures var c := MergedCase(base, template, name);
      && c.fields.Keys == (base.Keys + template.Keys + {NameKey}) - {SkipKey}
      && c.fields[NameKey] == Str(name)
      && SkipKey !in c.fields
      && (forall k | k in template && k != NameKey && k != SkipKey :: c.fields[k] == template[k])
      && (forall k | k in base && k !in template && k != NameKey && k != SkipKey :: c.fields[k] == base[k])
      && (c.xfail <==>
            if SkipKey in template then Truthy(template[SkipKey])
            else SkipKey in base && Truthy(base[SkipKey]))
  {
  }

  /** An element that cannot be used as a template. */
  predicate NotMapping(v: Value) {
    !v.Dict?
  }

  /** `data.get("base", {})`. */
  function Base(data: map<string, Value>): Value {
    if BaseKey in data then data[BaseKey] else Dict(map[])
  }

  /** The cases `generate_yaml_tests` yields for one fixture file read into `data`, or the
      failure that stops it. `base` is only touched once there is a case to build. */
  function FixtureCases(directory: string, path: string, data: map<string, Value>): Result<seq<GeneratedCase>, FixtureError> {
    if CasesKey !in data then
      Failure(MissingCases)
    else if !data[CasesKey].List? then
      Failure(CasesNotList)
    else
      var templates := data[CasesKey].items;
      if templates == [] then
        Success([])
      else if !Base(data).Dict? then
        Failure(BaseNotMapping)
      else
        var k := Scan.FirstWhere(templates, NotMapping, 0);
        if k < |templates| then
          Failure(TemplateNotMapping(k))
        else
          var baseName := BaseName(directory, path);
          Success(seq(|templates|, i requires 0 <= i < |templates| =>
            MergedCase(Base(data).entries, templates[i].entries, CaseName(baseName, i, |templates|))))
  }

  /** The loop of `generate_yaml_tests` over one fixture's cases: copy, update, name, pop. */
  method GenerateCases(directory: string, path: string, data: map<string, Value>) returns (r: Result<seq<GeneratedCase>, FixtureError>)
    ensures r == FixtureCases(directory, path, data)
  {
    if CasesKey !in data {
      return Failure(MissingCases);
    }
    var baseName := Slice(path, |directory| + 1, -4);
    var base := if BaseKey in data then data[BaseKey] else Dict(map[]);
    if !data[CasesKey].List? {
      return Failure(CasesNotList);
    }
    var cases := data[CasesKey].items;
    var generated: seq<GeneratedCase> := [];
    var i := 0;
    while i < |cases|
      invariant 0 <= i <= |cases|
      invariant i > 0 ==> base.Dict?
      invariant forall j | 0 <= j < i :: !NotMapping(cases[j])
      invariant |generated| == i
      invariant forall j | 0 <= j < i ::
                  generated[j] == MergedCase(base.entries, cases[j].entries, CaseName(baseName, j, |cases|))
    {
      if !base.Dict? {
        return Failure(BaseNotMapping);
      }
      if !cases[i].Dict? {
        FirstTemplateAt(cases, i);
        return Failure(TemplateNotMapping(i));
      }
      var merged := MergeCase(base.entries, cases[i].entries, baseName, i, |cases|);
      generated := generated + [merged];
      Scan.NoneBeforeNext(cases, NotMapping, i);
      i := i + 1;
    }
    Scan.FirstWhereNone(cases, NotMapping);
    if cases != [] {
      assert base == Base(data) && baseName == BaseName(directory, path);
      assert generated == seq(|cases|, j requires 0 <= j < |cases| =>
        MergedCase(Base(data).entries, cases[j].entries, CaseName(BaseName(directory, path), j, |cases|)));
    }
    return Success(generated);
  }

  /** The body of that loop: `base.copy()`, `update`, the name and its index, and the `skip`
      pop. */
  method MergeCase(base: map<string, Value>, template: map<string, Value>, baseName: string, i: nat, count: nat)
    returns (c: GeneratedCase)
    ensures c == MergedCase(base, template, CaseName(baseName, i, count))
  {
    var merged := base;
    merged := merged + template;
    merged := merged[NameKey := Str(baseName)];
    if count > 1 {
      merged := merged[NameKey := Str(merged[NameKey].s + "-" + DecimalString(i))];
    }
    var skip := if SkipKey in merged then merged[SkipKey] else Bool(false);
    merged := merged - {SkipKey};
    return GeneratedCase(merged, Truthy(skip));
  }

  /** The first template that is not a mapping is the one `FirstWhere` finds. */
  lemma FirstTemplateAt(templates: seq<Value>, i: nat)
    requires i < |templates| && NotMapping(templates[i])
    requires forall j | 0 <= j < i :: !NotMapping(templates[j])
    ensures Scan.FirstWhere(templates, NotMapping, 0) == i
  {
  }

  /** Reading a fixture succeeds exactly when it has a list of `cases` that is empty, or that
      consists of mappings while `base` is a mapping or absent. */
  lemma FixtureCasesOkIff(directory: string, path: string, data: map<string, Value>)
    ensures FixtureCases(directory, path, data).Success? <==>
              && CasesKey in data && data[CasesKey].List?
              && (data[CasesKey].items != [] ==>
                    && Base(data).Dict?
                    && forall j | 0 <= j < |data[CasesKey].items| :: data[CasesKey].items[j].Dict?)
  {
    if CasesKey in data && data[CasesKey].List? {
      Scan.FirstWhereNone(data[CasesKey].items, NotMapping);
    }
  }

  /** A fixture read without failure yields one case per template, in order; each is its template
      merged over `base` and named after the file, and the names are pairwise different. */
  lemma FixtureCasesContents(directory: string, path: string, data: map<string, Value>)
    requires FixtureCases(directory, path, data).Success?
    ensures var cases := FixtureCases(directory, path, data).value;
      && |cases| == |data[CasesKey].items|
      && (forall i | 0 <= i < |cases| ::
            cases[i] == MergedCase(Base(data).entries, data[CasesKey].items[i].entries,
                                   CaseName(BaseName(directory, path), i, |cases|)))
      && (forall i | 0 <= i < |cases| ::
            cases[i].fields[NameKey] == Str(CaseName(BaseName(directory, path), i, |cases|)))
      && forall i, j | 0 <= i < j < |cases| :: cases[i].fields[NameKey] != cases[j].fields[NameKey]
  {
    var cases := FixtureCases(directory, path, data).value;
    var baseName := BaseName(directory, path);
    forall i | 0 <= i < |cases|
      ensures cases[i].fields[NameKey] == Str(CaseName(baseName, i, |cases|))
    {
      MergedCaseFields(Base(data).entries, data[CasesKey].items[i].entries, CaseName(baseName, i, |cases|));
    }
    forall i, j | 0 <= i < j < |cases|
      ensures cases[i].fields[NameKey] != cases[j].fields[NameKey]
    {
      CaseNamesDistinct(baseName, i, j, |cases|);
    }
  }

  /** `id_func`'s shortening of a long text: its first 20 characters, `...` and its last 2. */
  function Truncate(text: string): (r: string)
    ensures |r| <= 25
  {
    if |text| > 25 then Slice(text, 0, 20) + "..." + Slice(text, -2, |text|) else text
  }

  /** A text of at most 25 characters is kept; a longer one becomes exactly 25 characters that
      keep its first 20 and its last 2. */
  lemma TruncateShape(text: string)
    ensures |text| <= 25 ==> Truncate(text) == text
    ensures |text| > 25 ==>
              var r := Truncate(text);
              |r| == 25 && r[..20] == text[..20] && r[20..23] == "..." && r[23..] == text[|text| - 2..]
  {
  }

  /** Shortening a shortened text changes nothing. */
  lemma TruncateIdempotent(text: string)
    ensures Truncate(Truncate(text)) == Truncate(text)
  {
  }

  /** `id_func(param)`: the `:name:` of a mapping that has one; otherwise the text form of the
      parameter, shortened. The text form, `str(param)`, is supplied by the caller. */
  function IdFunc(param: Value, text: string): Value {
    if param.Dict? && NameKey in param.entries then param.entries[NameKey] else Str(Truncate(text))
  }

  /** Every generated case is reported under its own name, and every other parameter under a text
      of at most 25 characters. */
  lemma IdFuncNames(param: Value, text: string)
    ensures param.Dict? && NameKey in param.entries ==> IdFunc(param, text) == param.entries[NameKey]
    ensures !(param.Dict? && NameKey in param.entries) ==>
              IdFunc(param, text).Str? && |IdFunc(param, text).s| <= 25
    ensures !(param.Dict? && NameKey in param.entries) && |text| <= 25 ==> IdFunc(param, text) == Str(text)
  {
  }

  /** The report names of a fixture's cases are their generated names. */
  lemma IdFuncOfGeneratedCase(c: GeneratedCase, baseName: string, i: nat, count: nat, text: string)
    requires NameKey in c.fields && c.fields[NameKey] == Str(CaseName(baseName, i, count))
    ensures IdFunc(Dict(c.fields), text) == Str(CaseName(baseName, i, count))
  {
  }
}
