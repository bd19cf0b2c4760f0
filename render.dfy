/** The compact notation written back from a record, and the round trip through
    `convert_to_dict`. */
module SpecRender {
  import opened Wrappers
  import opened PyText
  import opened SpecParser

  /** The items of a dependency list as they stand between the commas of `"a, b, c"`: every item
      after the first follows a space. */
  function DependsItems(depends: seq<string>): (r: seq<string>)
    ensures |r| == |depends|
  {
    seq(|depends|, k requires 0 <= k < |depends| => if k == 0 then depends[k] else [' '] + depends[k])
  }

  /** The dependency list as the fixtures write it: items joined by `", "`. */
  function DependsText(depends: seq<string>): string {
    Join(DependsItems(depends), ',')
  }

  /** The compact notation of a record: `"name version"`, followed by `"; depends a, b"` when it
      has dependencies. */
  function Render(p: PackageSpec): string {
    p.name + " " + p.version + (if p.depends == [] then "" else "; depends " + DependsText(p.depends))
  }

  /** A field the compact notation can carry: non-empty, no whitespace at either end, none of the
      given delimiters. */
  predicate Carried(t: string, delimiters: set<char>) {
    t != "" && NoEdgeSpace(t) && forall c | c in delimiters :: c !in t
  }

  /** The records the compact notation can express. */
  predicate Renderable(p: PackageSpec) {
    && Carried(p.name, {' ', ';'})
    && Carried(p.version, {' ', ';'})
    && (forall k | 0 <= k < |p.depends| :: Carried(p.depends[k], {',', ';'}))
    && p.extras == map[]
  }

  /** Every record the notation can express comes back unchanged from `convert_to_dict`. */
  lemma RenderParses(p: PackageSpec)
    requires Renderable(p)
    ensures ParsePackageSpec(Render(p)) == Success(p)
  {
    RenderedHeader(p);
    RenderedClauses(p);
  }

  /** The header of a rendered record holds its name and version. */
  lemma RenderedHeader(p: PackageSpec)
    requires Renderable(p)
    ensures HeaderFields(Render(p)) == [p.name, p.version]
  {
    PartsOfRender(p);
    HeaderFieldsOfPair(p.name, p.version);
  }

  /** The clauses of a rendered record yield its dependency list. */
  lemma RenderedClauses(p: PackageSpec)
    requires Renderable(p)
    ensures ReadClauses(Clauses(Render(p))) == Success(p.depends)
  {
    if p.depends == [] {
      assert Clauses(Render(p)) == [] by {
        PartsOfRender(p);
      }
      ReadClausesAccepted([]);
    } else {
      RenderedDependsClause(p);
    }
  }

  /** A rendered record with dependencies has the one clause `depends ...`, which yields them. */
  lemma RenderedDependsClause(p: PackageSpec)
    requires Renderable(p) && p.depends != []
    ensures ReadClauses(Clauses(Render(p))) == Success(p.depends)
  {
    var c := "depends " + DependsText(p.depends);
    assert Clauses(Render(p)) == [c] by {
      PartsOfRender(p);
    }
    DependsClause(p.depends);
    ReadSingleClause(c);
  }

  /** The `;`-separated parts of a rendered record: the header, then the `depends` clause when
      there are dependencies. */
  lemma PartsOfRender(p: PackageSpec)
    requires Renderable(p)
    ensures Parts(Render(p))[0] == p.name + " " + p.version
    ensures p.depends == [] ==> |Parts(Render(p))| == 1
    ensures p.depends != [] ==>
              |Parts(Render(p))| == 2 && Parts(Render(p))[1] == "depends " + DependsText(p.depends)
  {
    var a := p.name + " " + p.version;
    assert a != [] && NoEdgeSpace(a) && ';' !in a by {
      assert Carried(p.name, {' ', ';'}) && Carried(p.version, {' ', ';'});
    }
    if p.depends == [] {
      assert Render(p) == a;
      assert Split(Strip(a), ';') == [a] by {
        StripUnchanged(a);
      }
    } else {
      var t := DependsText(p.depends);
      assert t != [] && NoEdgeSpace(t) && ';' !in t by {
        DependsTextShape(p.depends);
      }
      assert Render(p) == a + "; depends " + t;
      HeaderAndClause(a, t);
    }
  }

  /** `a; depends t` splits on `;` into `a` and `depends t` when neither holds a `;` and neither
      has whitespace at its ends. */
  lemma HeaderAndClause(a: string, t: string)
    requires a != [] && NoEdgeSpace(a) && ';' !in a
    requires t != [] && NoEdgeSpace(t) && ';' !in t
    ensures var parts := StrippingSplit(a + "; depends " + t, ';', None);
      |parts| == 2 && parts[0] == a && parts[1] == "depends " + t
  {
    var r := a + "; depends " + t;
    var b := " depends " + t;
    var c := "depends " + t;
    assert Pieces(Strip(r), ';', None) == [a, b] by {
      RenderedSplit(a, t);
      RenderedStrip(a, t);
    }
    assert Strip(b) == c by {
      assert b == [' '] + c;
      assert c[|c| - 1] == t[|t| - 1];
      StripSpacePrefix(c);
    }
    StripUnchanged(a);
  }

  /** `a; depends t` is `a` and ` depends t` joined by `;`. */
  lemma RenderedSplit(a: string, t: string)
    requires ';' !in a && ';' !in t
    ensures Split(a + "; depends " + t, ';') == [a, " depends " + t]
  {
    var b := " depends " + t;
    assert ';' !in b by {
      ConcatAvoids(" depends ", t, ';');
    }
    assert Join([a, b], ';') == a + "; depends " + t by {
      JoinCons(a, [b], ';');
      assert [a] + [b] == [a, b];
    }
    SplitJoin([a, b], ';');
  }

  /** `a; depends t` has no whitespace at its ends when `a` and `t` have none. */
  lemma RenderedStrip(a: string, t: string)
    requires a != [] && NoEdgeSpace(a)
    requires t != [] && NoEdgeSpace(t)
    ensures Strip(a + "; depends " + t) == a + "; depends " + t
  {
    var r := a + "; depends " + t;
    assert r[0] == a[0] && r[|r| - 1] == t[|t| - 1];
    StripUnchanged(r);
  }

  /** A header of two carried fields splits into exactly those fields. */
  lemma HeaderFieldsOfPair(name: string, version: string)
    requires Carried(name, {' ', ';'}) && Carried(version, {' ', ';'})
    ensures var f := StrippingSplit(name + " " + version, ' ', None);
      |f| == 2 && f[0] == name && f[1] == version
  {
    var a := name + " " + version;
    assert NoEdgeSpace(a);
    StripUnchanged(a);
    assert Join([name, version], ' ') == a;
    SplitJoin([name, version], ' ');
    StripUnchanged(name);
    StripUnchanged(version);
  }

  /** The text of a non-empty dependency list is free of `;`, has no whitespace at its ends, and
      splits on `,` into its items. */
  lemma DependsTextShape(depends: seq<string>)
    requires depends != []
    requires forall k | 0 <= k < |depends| :: Carried(depends[k], {',', ';'})
    ensures DependsText(depends) != [] && NoEdgeSpace(DependsText(depends))
    ensures ';' !in DependsText(depends)
    ensures Split(DependsText(depends), ',') == DependsItems(depends)
  {
    var items := DependsItems(depends);
    var t := DependsText(depends);
    forall k | 0 <= k < |items|
      ensures ',' !in items[k] && ';' !in items[k]
    {
      assert Carried(depends[k], {',', ';'});
    }
    JoinAvoids(items, ',', ';');
    SplitJoin(items, ',');
    DependsTextEdges(depends);
  }

  /** The text of a non-empty list of non-empty items without edge whitespace has no edge
      whitespace either: it starts with the first item and ends with the last. */
  lemma DependsTextEdges(depends: seq<string>)
    requires depends != []
    requires forall k | 0 <= k < |depends| :: depends[k] != [] && NoEdgeSpace(depends[k])
    ensures DependsText(depends) != [] && NoEdgeSpace(DependsText(depends))
  {
    var items := DependsItems(depends);
    var t := DependsText(depends);
    var n := |depends| - 1;
    var last := depends[n];
    assert items[0] == depends[0];
    assert items[n] != [] && items[n][|items[n]| - 1] == last[|last| - 1] by {
      if n > 0 {
        assert items[n] == [' '] + last;
      }
    }
    assert t != [] && t[0] == depends[0][0] && t[|t| - 1] == last[|last| - 1] by {
      JoinEdges(items, ',');
      var m := |items[n]|;
      assert t[|t| - m..] == items[n];
      assert t[|t| - 1] == items[n][m - 1];
    }
  }

  /** Stripping the items gives back the dependency list. */
  lemma StripItems(depends: seq<string>)
    requires forall k | 0 <= k < |depends| :: Carried(depends[k], {',', ';'})
    ensures StripEach(DependsItems(depends)) == depends
  {
    var items := DependsItems(depends);
    forall k | 0 <= k < |depends|
      ensures StripEach(items)[k] == depends[k]
    {
      assert Carried(depends[k], {',', ';'});
      if k == 0 {
        StripUnchanged(depends[k]);
      } else {
        StripSpacePrefix(depends[k]);
      }
    }
  }

  /** The `depends` clause of a rendered record is accepted and yields the list back. */
  lemma DependsClause(depends: seq<string>)
    requires depends != []
    requires forall k | 0 <= k < |depends| :: Carried(depends[k], {',', ';'})
    ensures !IsBadClause("depends " + DependsText(depends))
    ensures ClauseArguments("depends " + DependsText(depends)) == depends
  {
    var t := DependsText(depends);
    var c := "depends " + t;
    assert t != [] && NoEdgeSpace(t) && Split(t, ',') == DependsItems(depends) by {
      DependsTextShape(depends);
    }
    DependsClauseWords(t);
    ClauseVerdict(c);
    assert StrippingSplit(t, ',', None) == depends by {
      StripUnchanged(t);
      StripItems(depends);
    }
  }

  /** `depends t` has the verb `depends` and the argument text `t`. */
  lemma DependsClauseWords(t: string)
    requires t != [] && NoEdgeSpace(t)
    ensures var c := "depends " + t;
            ' ' in Strip(c) && ClauseVerb(c) == DependsVerb && ClauseArgumentText(c) == t
  {
    var c := "depends " + t;
    assert Strip(c) == c by {
      assert NoEdgeSpace(c);
      StripUnchanged(c);
    }
    assert c[7] == ' ';
    assert FirstIndex(c, ' ') == 7;
    assert c[..7] == DependsVerb;
    StripUnchanged(DependsVerb);
    assert c[8..] == t;
  }
}
