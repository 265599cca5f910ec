/** `every_code_is_reachable_or_declared`: two lists of excuses against what the sources construct. */
module Catalogues {
  import opened Text
  import Searches

  /** An error of the catalogue: its code, and the name of its variant. */
  datatype CatalogueError = CatalogueError(code: string, variant: string)

  /** Some site outside the catalogue builds the variant. */
  ghost predicate Constructed(sources: string, variant: string, identifier: char -> bool) {
    var b := Searches.Boundary(true, false, identifier);
    || Searches.OccursLegally(sources, Searches.CallNeedle(variant), b)
    || Searches.OccursLegally(sources, Searches.StructNeedle(variant), b)
  }

  method Produced(sources: string, variant: string, identifier: char -> bool) returns (produced: bool)
    requires '(' !in variant && '{' !in variant
    ensures produced <==> Constructed(sources, variant, identifier)
  {
    Searches.ConstructorSearchIsExact(sources, variant, identifier);
    produced := Searches.Constructs(sources, Searches.CallNeedle(variant), identifier);
    if !produced {
      produced := Searches.Constructs(sources, Searches.StructNeedle(variant), identifier);
    }
  }

  function CodesOf(list: seq<(string, string)>): set<string> {
    set entry | entry in list :: entry.0
  }

  function CatalogueCodes(errors: seq<CatalogueError>): set<string> {
    set error | error in errors :: error.code
  }

  /** One error against the lists, given whether anything constructs it. */
  predicate Consistent(error: CatalogueError, constructed: bool, declared: set<string>, mapped: set<string>) {
    if error.code in mapped then constructed else constructed <==> error.code !in declared
  }

  ghost predicate ErrorIsConsistent(error: CatalogueError, sources: string, identifier: char -> bool,
                                    declared: set<string>, mapped: set<string>)
  {
    Consistent(error, Constructed(sources, error.variant, identifier), declared, mapped)
  }

  /** What the check tests, in its own three parts. */
  ghost predicate Accepted(errors: seq<CatalogueError>, sources: string, identifier: char -> bool,
                           declared: set<string>, mapped: set<string>)
  {
    && declared + mapped <= CatalogueCodes(errors)
    && declared !! mapped
    && forall k | 0 <= k < |errors| :: ErrorIsConsistent(errors[k], sources, identifier, declared, mapped)
  }

  /** No error of that code is constructed; every one is. */
  ghost predicate NeverConstructed(errors: seq<CatalogueError>, sources: string, identifier: char -> bool,
                                   code: string)
  {
    && code in CatalogueCodes(errors)
    && forall error | error in errors && error.code == code :: !Constructed(sources, error.variant, identifier)
  }

  ghost predicate AlwaysConstructed(errors: seq<CatalogueError>, sources: string, identifier: char -> bool,
                                    code: string)
  {
    && code in CatalogueCodes(errors)
    && forall error | error in errors && error.code == code :: Constructed(sources, error.variant, identifier)
  }

  /**
   * What passing is worth: every code is constructed or not as a whole, `UNREACHABLE` is exactly
   * the codes nothing constructs, and `MAPPED_BUT_UNREACHABLE` holds only codes something does.
   */
  ghost predicate Exact(errors: seq<CatalogueError>, sources: string, identifier: char -> bool,
                        declared: set<string>, mapped: set<string>)
  {
    && (forall code | code in CatalogueCodes(errors) ::
          NeverConstructed(errors, sources, identifier, code) || AlwaysConstructed(errors, sources, identifier, code))
    && (forall code :: code in declared <==> NeverConstructed(errors, sources, identifier, code))
    && (forall code | code in mapped :: AlwaysConstructed(errors, sources, identifier, code))
  }

  lemma CodeHasError(errors: seq<CatalogueError>, code: string) returns (error: CatalogueError)
    requires code in CatalogueCodes(errors)
    ensures error in errors && error.code == code
  {
    error :| error in errors && error.code == code;
  }

  /** All the errors of one code, against the lists. */
  lemma AcceptedCode(errors: seq<CatalogueError>, sources: string, identifier: char -> bool,
                     declared: set<string>, mapped: set<string>, code: string)
    requires Accepted(errors, sources, identifier, declared, mapped) && code in CatalogueCodes(errors)
    ensures if code in declared then NeverConstructed(errors, sources, identifier, code)
            else AlwaysConstructed(errors, sources, identifier, code)
    ensures !(&& NeverConstructed(errors, sources, identifier, code)
              && AlwaysConstructed(errors, sources, identifier, code))
  {
    var one := CodeHasError(errors, code);
    forall error | error in errors && error.code == code
      ensures Constructed(sources, error.variant, identifier) <==> code !in declared
    {
      var k :| 0 <= k < |errors| && errors[k] == error;
      assert ErrorIsConsistent(errors[k], sources, identifier, declared, mapped);
    }
  }

  /** The two lists of an exact catalogue are disjoint, so the check that they are never fails alone. */
  lemma ExactListsAreDisjoint(errors: seq<CatalogueError>, sources: string, identifier: char -> bool,
                              declared: set<string>, mapped: set<string>)
    requires Exact(errors, sources, identifier, declared, mapped)
    ensures declared !! mapped
  {
    forall code | code in declared ensures code !in mapped {
      var error := CodeHasError(errors, code);
    }
  }

  /** The four loops pass exactly when the catalogue is exact. */
  lemma AcceptedMeansExact(errors: seq<CatalogueError>, sources: string, identifier: char -> bool,
                           declared: set<string>, mapped: set<string>)
    ensures Accepted(errors, sources, identifier, declared, mapped)
            <==> Exact(errors, sources, identifier, declared, mapped)
  {
    if Accepted(errors, sources, identifier, declared, mapped) {
      forall code | code in CatalogueCodes(errors)
        ensures code in declared <==> NeverConstructed(errors, sources, identifier, code)
        ensures code !in declared <==> AlwaysConstructed(errors, sources, identifier, code)
      {
        AcceptedCode(errors, sources, identifier, declared, mapped, code);
      }
    }
    if Exact(errors, sources, identifier, declared, mapped) {
      ExactListsAreDisjoint(errors, sources, identifier, declared, mapped);
      forall k | 0 <= k < |errors| ensures ErrorIsConsistent(errors[k], sources, identifier, declared, mapped) {
        assert errors[k] in errors && errors[k].code in CatalogueCodes(errors);
      }
    }
  }

  /** Every code of the catalogue is constructed, or on one of the two lists: the right one. */
  method EveryCodeIsReachableOrDeclared(errors: seq<CatalogueError>, sources: string, identifier: char -> bool,
                                        unreachable: seq<(string, string)>, mappedBut: seq<(string, string)>)
    returns (ok: bool)
    requires forall error | error in errors :: '(' !in error.variant && '{' !in error.variant
    ensures ok <==> Exact(errors, sources, identifier, CodesOf(unreachable), CodesOf(mappedBut))
  {
    var declared, mapped := CodesOf(unreachable), CodesOf(mappedBut);
    var codes := CatalogueCodes(errors);
    ok := true;
    var entries := unreachable + mappedBut;
    for k := 0 to |entries|
      invariant ok <==> forall j | 0 <= j < k :: entries[j].0 in codes
    {
      if entries[k].0 !in codes {
        ok := false;
      }
    }
    EntriesAreListed(unreachable, mappedBut, codes);
    if declared * mapped != {} {
      ok := false;
    }
    assert declared !! mapped <==> declared * mapped == {} by {
      forall code | declared * mapped == {} && code in declared ensures code !in mapped {
        assert code !in declared * mapped;
      }
    }
    ghost var listsOk := ok;
    for k := 0 to |errors|
      invariant ok <==> listsOk && forall j | 0 <= j < k ::
                          ErrorIsConsistent(errors[j], sources, identifier, declared, mapped)
    {
      var error := errors[k];
      var produced := Produced(sources, error.variant, identifier);
      assert ErrorIsConsistent(error, sources, identifier, declared, mapped)
             == Consistent(error, produced, declared, mapped);
      if error.code in mapped {
        if !produced {
          ok := false;
        }
        continue;
      }
      match (produced, error.code in declared) {
        case (false, false) => ok := false;
        case (true, true) => ok := false;
        case _ =>
      }
    }
    AcceptedMeansExact(errors, sources, identifier, declared, mapped);
  }

  lemma EntriesAreListed(unreachable: seq<(string, string)>, mappedBut: seq<(string, string)>, codes: set<string>)
    ensures var entries := unreachable + mappedBut;
            (forall j | 0 <= j < |entries| :: entries[j].0 in codes)
            <==> CodesOf(unreachable) + CodesOf(mappedBut) <= codes
  {
    var entries := unreachable + mappedBut;
    forall entry ensures entry in entries <==> entry in unreachable || entry in mappedBut {}
    if CodesOf(unreachable) + CodesOf(mappedBut) <= codes {
      forall j | 0 <= j < |entries| ensures entries[j].0 in codes {
        assert entries[j] in entries;
      }
    }
  }

  /** What follows `Error::` and the variant, in a text that builds it: what precedes is no part of a name. */
  ghost predicate Builds(sources: string, before: string, variant: string, opening: string, after: string,
                         identifier: char -> bool)
  {
    && (opening == "(" || opening == " {")
    && sources == before + ("Error::" + variant + opening) + after
    && (before == "" || !identifier(before[|before| - 1]))
  }

  /** A variant is constructed, on the text of the sources. */
  lemma ConstructedExactlyWhen(sources: string, variant: string, identifier: char -> bool)
    ensures Constructed(sources, variant, identifier)
            <==> exists before, opening, after :: Builds(sources, before, variant, opening, after, identifier)
  {
    BuiltWith(sources, variant, "(", identifier);
    BuiltWith(sources, variant, " {", identifier);
  }

  lemma BuiltWith(sources: string, variant: string, opening: string, identifier: char -> bool)
    requires opening == "(" || opening == " {"
    ensures Searches.OccursLegally(sources, "Error::" + variant + opening, Searches.Boundary(true, false, identifier))
            <==> exists before, after :: Builds(sources, before, variant, opening, after, identifier)
  {
    var b, needle := Searches.Boundary(true, false, identifier), "Error::" + variant + opening;
    Searches.LegalIsStanding(sources, needle, b);
    forall before, after
      ensures Searches.StandsIn(sources, before, needle, after, b)
              <==> Builds(sources, before, variant, opening, after, identifier) {}
  }
}
