/** The type-consistency checks of the PDDL object model: a scanner that finds
    the first term carrying an undeclared type tag, the checkers for a
    domain's constants and for atomic expressions built on it, and the guard
    that tells whether a word is a reserved PDDL keyword.

    Every routine is a pure function of its arguments. A raised
    `PDDLValidationError` becomes `Fail` of an `Outcome`, Python's `None`
    becomes `Option.None`, and a collection becomes a `seq` in the order in
    which Python iterates over it. */
module Validation {
  import opened Wrappers
  import opened StringOrder

  /** A type tag of a term; `None` is the "no type" sentinel. */
  type Tag = Option<string>

  /** A constant or variable: its name and its set of type tags. */
  datatype Term = Term(name: string, typeTags: set<Tag>)

  /** An atomic expression (a predicate or a literal): its name and its terms. */
  datatype Atom = Atom(name: string, terms: seq<Term>)

  /** The pair the scanner reports: a term and one of its undeclared tags. */
  datatype Violation = Violation(term: Term, tag: string)

  /** `PDDLValidationError` with the data its message is built from. */
  datatype ValidationError =
    | ConstantTypeNotDeclared(tag: string, constant: Term, allTypes: set<string>)
    | TermTypeNotDeclared(tag: string, term: Term, atom: Atom, allTypes: set<string>)

  /** What the scanner, as written, can end in: nothing found, a violation,
      or the `TypeError` that `sorted` raises on a term's tags. */
  datatype ScanOutcome =
    | Consistent
    | Inconsistent(violation: Violation)
    | SortTypeError(term: Term)

  // ---------------------------------------------------------------------------
  // Specification: which tags and terms are in violation

  /** The test made on each visited tag: a real tag missing from the declared types. */
  predicate Undeclared(g: Tag, allTypes: set<string>)
  {
    g.Some? && g.value !in allTypes
  }

  /** Every tag of `t` other than `None` is a declared type. */
  predicate WellTyped(t: Term, allTypes: set<string>)
  {
    forall g :: g in t.typeTags ==> !Undeclared(g, allTypes)
  }

  predicate AllWellTyped(ts: seq<Term>, allTypes: set<string>)
  {
    forall i :: 0 <= i < |ts| ==> WellTyped(ts[i], allTypes)
  }

  /** The undeclared tags of `t`, without the `None` sentinel. */
  function UndeclaredTags(t: Term, allTypes: set<string>): (bad: set<string>)
    ensures forall x :: x in bad <==> Some(x) in t.typeTags && x !in allTypes
    ensures bad == {} <==> WellTyped(t, allTypes)
  {
    var bad := set g | g in t.typeTags && Undeclared(g, allTypes) :: g.value;
    assert forall x :: Some(x) in t.typeTags && x !in allTypes ==> x in bad by {
      forall x | Some(x) in t.typeTags && x !in allTypes
        ensures x in bad
      {
        assert Undeclared(Some(x), allTypes);
      }
    }
    bad
  }

  /** `ts[i]` is the earliest term of `ts` that is not well typed. */
  predicate IsFirstIllTyped(ts: seq<Term>, i: int, allTypes: set<string>)
  {
    0 <= i < |ts| && !WellTyped(ts[i], allTypes) && AllWellTyped(ts[..i], allTypes)
  }

  /** `objs[k]` is the earliest atom holding a term that is not well typed. */
  predicate IsFirstIllTypedAtom(objs: seq<Atom>, k: int, allTypes: set<string>)
  {
    && 0 <= k < |objs|
    && !AllWellTyped(objs[k].terms, allTypes)
    && forall j :: 0 <= j < k ==> AllWellTyped(objs[j].terms, allTypes)
  }

  lemma FirstIllTypedUnique(ts: seq<Term>, i: int, i': int, allTypes: set<string>)
    requires IsFirstIllTyped(ts, i, allTypes) && IsFirstIllTyped(ts, i', allTypes)
    ensures i == i'
  {
  }

  lemma AllWellTypedCons(ts: seq<Term>, allTypes: set<string>)
    requires ts != []
    ensures AllWellTyped(ts, allTypes) <==> WellTyped(ts[0], allTypes) && AllWellTyped(ts[1..], allTypes)
  {
    assert forall i :: 0 < i < |ts| ==> ts[i] == ts[1..][i - 1];
  }

  lemma FirstIllTypedCons(ts: seq<Term>, i: int, allTypes: set<string>)
    requires ts != [] && WellTyped(ts[0], allTypes) && IsFirstIllTyped(ts[1..], i, allTypes)
    ensures IsFirstIllTyped(ts, i + 1, allTypes)
  {
    assert ts[..i + 1] == [ts[0]] + ts[1..][..i];
    AllWellTypedCons(ts[..i + 1], allTypes);
  }

  // ---------------------------------------------------------------------------
  // The scanner's inner loop

  /** The inner loop of the scanner over tags already in visiting order: the
      first tag that is neither `None` nor declared. */
  function FirstUndeclared(tags: seq<Tag>, allTypes: set<string>): (r: Option<string>)
    ensures r.None? <==> forall i :: 0 <= i < |tags| ==> !Undeclared(tags[i], allTypes)
    ensures r.Some? ==> exists i :: && 0 <= i < |tags| && tags[i] == Some(r.value)
                                  && r.value !in allTypes
                                  && forall j :: 0 <= j < i ==> !Undeclared(tags[j], allTypes)
  {
    if tags == [] then None
    else if Undeclared(tags[0], allTypes) then Some(tags[0].value)
    else
      var r := FirstUndeclared(tags[1..], allTypes);
      assert r.Some? ==> exists i :: && 0 <= i < |tags| && tags[i] == Some(r.value)
                                   && r.value !in allTypes
                                   && forall j :: 0 <= j < i ==> !Undeclared(tags[j], allTypes) by {
        if r.Some? {
          var i :| && 0 <= i < |tags[1..]| && tags[1..][i] == Some(r.value)
                   && r.value !in allTypes
                   && forall j :: 0 <= j < i ==> !Undeclared(tags[1..][j], allTypes);
          assert forall j :: 0 <= j < i + 1 ==> !Undeclared(tags[j], allTypes) by {
            forall j | 0 <= j < i + 1
              ensures !Undeclared(tags[j], allTypes)
            {
              if j > 0 {
                assert tags[j] == tags[1..][j - 1];
              }
            }
          }
        }
      }
      r
  }

  /** The names of the real tags of a tag set. */
  function NamedTags(tags: set<Tag>): (names: set<string>)
    ensures forall x :: x in names <==> Some(x) in tags
  {
    set g | g in tags && g.Some? :: g.value
  }

  /** Each name as a tag. */
  function AsTags(xs: seq<string>): (tags: seq<Tag>)
    ensures |tags| == |xs|
    ensures forall i :: 0 <= i < |xs| ==> tags[i] == Some(xs[i])
  {
    seq(|xs|, i requires 0 <= i < |xs| => Some(xs[i]))
  }

  // ---------------------------------------------------------------------------
  // The scanner as written: `sorted` over a set that may hold `None`

  /** `sorted` can order the tag set: it does not hold `None` beside another tag. */
  predicate Sortable(tags: set<Tag>)
  {
    !(None in tags && |tags| > 1)
  }

  /** Strictly increasing real tags; a lone `None` is trivially ascending. */
  predicate TagsAscending(tags: seq<Tag>)
  {
    forall i, j :: 0 <= i < j < |tags| ==>
      tags[i].Some? && tags[j].Some? && Below(tags[i].value, tags[j].value)
  }

  /** Python's `sorted(type_tags)`. `None` and a string cannot be compared, so
      a set holding `None` beside any other tag raises `TypeError` (`None`
      here); otherwise the tags come back in ascending order. */
  function SortedTags(tags: set<Tag>): (r: Option<seq<Tag>>)
    ensures r.None? <==> !Sortable(tags)
    ensures r.Some? ==> forall g :: g in r.value <==> g in tags
    ensures r.Some? ==> |r.value| == |tags| && TagsAscending(r.value)
  {
    if None in tags then
      if |tags| == 1 then
        LoneNone(tags);
        Some([None])
      else None
    else
      var names := SortSet(NamedTags(tags));
      var sorted := AsTags(names);
      assert forall g :: g in tags ==> g in sorted by {
        forall g | g in tags
          ensures g in sorted
        {
          var k :| 0 <= k < |names| && names[k] == g.value;
          assert sorted[k] == g;
        }
      }
      NamedTagsSize(tags);
      Some(sorted)
  }

  lemma LoneNone(tags: set<Tag>)
    requires None in tags && |tags| <= 1
    ensures tags == {None}
  {
    assert |tags - {None}| == 0;
  }

  /** Without `None`, a tag set has as many real tags as names. */
  lemma {:induction false} NamedTagsSize(tags: set<Tag>)
    requires None !in tags
    ensures |NamedTags(tags)| == |tags|
    decreases |tags|
  {
    if tags != {} {
      var g :| g in tags;
      var rest := tags - {g};
      NamedTagsSize(rest);
      assert NamedTags(tags) == NamedTags(rest) + {g.value};
      assert g.value !in NamedTags(rest);
    }
  }

  /** The as-written scan moves past `t`: `sorted` accepts its tags and all
      its real tags are declared. */
  predicate Passes(t: Term, allTypes: set<string>)
  {
    Sortable(t.typeTags) && WellTyped(t, allTypes)
  }

  /** `ts[i]` is the earliest term at which the as-written scan stops. */
  predicate IsFirstStop(ts: seq<Term>, i: int, allTypes: set<string>)
  {
    0 <= i < |ts| && !Passes(ts[i], allTypes) && forall j :: 0 <= j < i ==> Passes(ts[j], allTypes)
  }

  lemma FirstStopCons(ts: seq<Term>, i: int, allTypes: set<string>)
    requires ts != [] && Passes(ts[0], allTypes) && IsFirstStop(ts[1..], i, allTypes)
    ensures IsFirstStop(ts, i + 1, allTypes)
  {
    forall j | 0 < j < i + 1
      ensures Passes(ts[j], allTypes)
    {
      assert ts[j] == ts[1..][j - 1];
    }
  }

  /** On a term whose tags `sorted` accepts, the as-written inner loop picks
      the same tag as the corrected one: the least undeclared tag. */
  lemma SortedScanIsTermViolation(t: Term, allTypes: set<string>)
    requires Sortable(t.typeTags)
    ensures FirstUndeclared(SortedTags(t.typeTags).value, allTypes) == TermViolation(t, allTypes)
  {
    var tags := t.typeTags;
    if None in tags {
      LoneNone(tags);
      assert SortedTags(tags).value == [None];
      assert NamedTags(tags) == {};
      assert FirstUndeclared([None], allTypes) == None;
    }
  }

  /** `_find_inconsistencies_in_typed_terms` as written, over a present
      collection: it runs until the first term whose tags `sorted` rejects
      (`TypeError`) or that has an undeclared tag, and reports that term. */
  function ScanTermsAsWritten(ts: seq<Term>, allTypes: set<string>): (r: ScanOutcome)
    ensures r.Consistent? <==> forall i :: 0 <= i < |ts| ==> Passes(ts[i], allTypes)
    ensures r.SortTypeError? ==> exists i :: && IsFirstStop(ts, i, allTypes) && ts[i] == r.term
                                             && !Sortable(r.term.typeTags)
    ensures r.Inconsistent? ==> exists i :: && IsFirstStop(ts, i, allTypes) && ts[i] == r.violation.term
                                            && Sortable(r.violation.term.typeTags)
    ensures r.Inconsistent? ==> IsLeast(r.violation.tag, UndeclaredTags(r.violation.term, allTypes))
  {
    if ts == [] then Consistent
    else
      match SortedTags(ts[0].typeTags)
      case None =>
        assert IsFirstStop(ts, 0, allTypes);
        SortTypeError(ts[0])
      case Some(sorted) =>
        SortedScanIsTermViolation(ts[0], allTypes);
        match FirstUndeclared(sorted, allTypes)
        case Some(g) =>
          assert IsFirstStop(ts, 0, allTypes);
          Inconsistent(Violation(ts[0], g))
        case None =>
          var r := ScanTermsAsWritten(ts[1..], allTypes);
          assert Passes(ts[0], allTypes);
          assert r.Consistent? <==> forall i :: 0 <= i < |ts| ==> Passes(ts[i], allTypes) by {
            assert forall i :: 0 < i < |ts| ==> ts[i] == ts[1..][i - 1];
          }
          assert !r.Consistent? ==> exists i :: IsFirstStop(ts, i, allTypes) && ts[i] == ts[1..][i - 1] by {
            if !r.Consistent? {
              var i :| IsFirstStop(ts[1..], i, allTypes);
              FirstStopCons(ts, i, allTypes);
              assert ts[i + 1] == ts[1..][i];
            }
          }
          r
  }

  function FindInconsistenciesInTypedTermsAsWritten(terms: Option<seq<Term>>, allTypes: set<string>): (r: ScanOutcome)
    ensures terms.None? ==> r.Consistent?
    ensures r.Consistent? <==> terms.None? || forall i :: 0 <= i < |terms.value| ==> Passes(terms.value[i], allTypes)
    ensures r.SortTypeError? ==> exists i :: && IsFirstStop(terms.value, i, allTypes)
                                             && terms.value[i] == r.term && !Sortable(r.term.typeTags)
    ensures r.Inconsistent? ==> && (exists i :: IsFirstStop(terms.value, i, allTypes) && terms.value[i] == r.violation.term)
                                && IsLeast(r.violation.tag, UndeclaredTags(r.violation.term, allTypes))
  {
    match terms
    case None => Consistent
    case Some(ts) => ScanTermsAsWritten(ts, allTypes)
  }

  // ---------------------------------------------------------------------------
  // The scanner with the defect corrected: the `None` tags are set aside
  // before the real tags are sorted, so `sorted` only compares strings.

  /** The least undeclared tag of one term, or `None` when it is well typed. */
  function TermViolation(t: Term, allTypes: set<string>): (r: Option<string>)
    ensures r.None? <==> WellTyped(t, allTypes)
    ensures r.Some? ==> IsLeast(r.value, UndeclaredTags(t, allTypes))
  {
    var names := SortSet(NamedTags(t.typeTags));
    var r := FirstUndeclared(AsTags(names), allTypes);
    assert r.None? ==> WellTyped(t, allTypes) by {
      if r.None? {
        forall g | g in t.typeTags && g.Some?
          ensures g.value in allTypes
        {
          var k :| 0 <= k < |names| && names[k] == g.value;
          assert AsTags(names)[k] == g;
        }
      }
    }
    assert r.Some? ==> IsLeast(r.value, UndeclaredTags(t, allTypes)) by {
      if r.Some? {
        var i :| && 0 <= i < |names| && AsTags(names)[i] == Some(r.value)
                 && r.value !in allTypes
                 && forall j :: 0 <= j < i ==> !Undeclared(AsTags(names)[j], allTypes);
        var bad := UndeclaredTags(t, allTypes);
        assert forall j :: 0 <= j < i ==> names[j] !in bad by {
          forall j | 0 <= j < i
            ensures names[j] !in bad
          {
            assert !Undeclared(AsTags(names)[j], allTypes);
          }
        }
        AscendingFirstIsLeast(names, i, bad);
      }
    }
    r
  }

  /** The scan over a present collection: the earliest term that is not well
      typed, paired with its least undeclared tag. */
  function ScanTerms(ts: seq<Term>, allTypes: set<string>): (r: Option<Violation>)
    ensures r.None? <==> AllWellTyped(ts, allTypes)
    ensures r.Some? ==> exists i :: IsFirstIllTyped(ts, i, allTypes) && ts[i] == r.value.term
    ensures r.Some? ==> IsLeast(r.value.tag, UndeclaredTags(r.value.term, allTypes))
  {
    if ts == [] then None
    else
      match TermViolation(ts[0], allTypes)
      case Some(g) =>
        assert IsFirstIllTyped(ts, 0, allTypes);
        Some(Violation(ts[0], g))
      case None =>
        var r := ScanTerms(ts[1..], allTypes);
        AllWellTypedCons(ts, allTypes);
        assert r.Some? ==> exists i :: IsFirstIllTyped(ts, i, allTypes) && ts[i] == r.value.term by {
          if r.Some? {
            var i :| IsFirstIllTyped(ts[1..], i, allTypes) && ts[1..][i] == r.value.term;
            FirstIllTypedCons(ts, i, allTypes);
          }
        }
        r
  }

  /** `_find_inconsistencies_in_typed_terms`, corrected: `None` when the
      collection is absent or every real tag is declared, otherwise the
      earliest offending term with its lexicographically least undeclared tag. */
  function FindInconsistenciesInTypedTerms(terms: Option<seq<Term>>, allTypes: set<string>): (r: Option<Violation>)
    ensures terms.None? ==> r.None?
    ensures r.None? <==> terms.None? || AllWellTyped(terms.value, allTypes)
    ensures r.Some? ==> && terms.Some? && r.value.term in terms.value
                        && Some(r.value.tag) in r.value.term.typeTags
                        && r.value.tag !in allTypes
    ensures r.Some? ==> exists i :: IsFirstIllTyped(terms.value, i, allTypes) && terms.value[i] == r.value.term
    ensures r.Some? ==> IsLeast(r.value.tag, UndeclaredTags(r.value.term, allTypes))
  {
    match terms
    case None => None
    case Some(ts) =>
      var r := ScanTerms(ts, allTypes);
      assert r.Some? ==> r.value.term in ts by {
        if r.Some? {
          var i :| IsFirstIllTyped(ts, i, allTypes) && ts[i] == r.value.term;
        }
      }
      r
  }

  // ---------------------------------------------------------------------------
  // Properties of the scanner

  /** The scan is fully determined by its specification: the earliest
      ill-typed term and that term's least undeclared tag. */
  lemma ScanMatchesSpecification(ts: seq<Term>, i: int, g: string, allTypes: set<string>)
    requires IsFirstIllTyped(ts, i, allTypes)
    requires IsLeast(g, UndeclaredTags(ts[i], allTypes))
    ensures FindInconsistenciesInTypedTerms(Some(ts), allTypes) == Some(Violation(ts[i], g))
  {
    var r := FindInconsistenciesInTypedTerms(Some(ts), allTypes);
    assert !AllWellTyped(ts, allTypes);
    var i' :| IsFirstIllTyped(ts, i', allTypes) && ts[i'] == r.value.term;
    FirstIllTypedUnique(ts, i, i', allTypes);
    LeastUnique(UndeclaredTags(ts[i], allTypes));
  }

  /** The reported tag depends only on which tags are undeclared, not on the
      declared or `None` tags beside them, nor on how the set is stored. */
  lemma TagChoiceDependsOnlyOnUndeclared(t: Term, t': Term, allTypes: set<string>)
    requires UndeclaredTags(t, allTypes) == UndeclaredTags(t', allTypes)
    ensures TermViolation(t, allTypes) == TermViolation(t', allTypes)
  {
    LeastUnique(UndeclaredTags(t, allTypes));
  }

  /** A collection of terms whose only tag is `None` never violates, whatever
      types are declared. */
  lemma UntypedTermsNeverViolate(ts: seq<Term>, allTypes: set<string>)
    requires forall i :: 0 <= i < |ts| ==> ts[i].typeTags <= {None}
    ensures FindInconsistenciesInTypedTerms(Some(ts), allTypes) == None
  {
    assert AllWellTyped(ts, allTypes) by {
      forall i, g | 0 <= i < |ts| && g in ts[i].typeTags
        ensures !Undeclared(g, allTypes)
      {
        assert g in {None};
      }
    }
  }

  /** Whenever no term's tag set mixes `None` with other tags, the scanner as
      written and the corrected one give the same answer. */
  lemma {:induction false} AsWrittenAgreesWhenSortable(ts: seq<Term>, allTypes: set<string>)
    requires forall i :: 0 <= i < |ts| ==> Sortable(ts[i].typeTags)
    ensures ScanTermsAsWritten(ts, allTypes) ==
            match ScanTerms(ts, allTypes)
            case None => Consistent
            case Some(v) => Inconsistent(v)
  {
    if ts != [] {
      SortedScanIsTermViolation(ts[0], allTypes);
      AsWrittenAgreesWhenSortable(ts[1..], allTypes);
    }
  }

  /** The input that shows the defect: a constant tagged with both `None` and
      a declared type. As written the scan raises `TypeError` from `sorted`;
      the corrected scan finds nothing wrong. */
  lemma SortTypeErrorOnMixedTags()
    ensures var c := Term("c", {None, Some("block")});
            && FindInconsistenciesInTypedTermsAsWritten(Some([c]), {"block"}) == SortTypeError(c)
            && FindInconsistenciesInTypedTerms(Some([c]), {"block"}) == None
  {
    var c := Term("c", {None, Some("block")});
    assert Some("block") != None;
    assert |c.typeTags| == 2;
    assert WellTyped(c, {"block"});
    assert AllWellTyped([c], {"block"});
  }

  // ---------------------------------------------------------------------------
  // The checkers

  /** `_check_constant_types`: fails exactly when some constant has an
      undeclared tag, and then reports the earliest such constant with its
      least undeclared tag. */
  function CheckConstantTypes(constants: Option<seq<Term>>, allTypes: set<string>): (r: Outcome<ValidationError>)
    ensures constants.None? ==> r.Pass?
    ensures r.Pass? <==> constants.None? || AllWellTyped(constants.value, allTypes)
    ensures r.Fail? ==> && r.error.ConstantTypeNotDeclared?
                        && r.error.allTypes == allTypes
                        && IsLeast(r.error.tag, UndeclaredTags(r.error.constant, allTypes))
                        && exists i :: IsFirstIllTyped(constants.value, i, allTypes)
                                       && constants.value[i] == r.error.constant
  {
    match FindInconsistenciesInTypedTerms(constants, allTypes)
    case None => Pass
    case Some(Violation(constant, tag)) => Fail(ConstantTypeNotDeclared(tag, constant, allTypes))
  }

  /** The loop of `_check_types_in_has_terms_objects` over a present collection. */
  function CheckAtoms(objs: seq<Atom>, allTypes: set<string>): (r: Outcome<ValidationError>)
    ensures r.Pass? <==> forall k :: 0 <= k < |objs| ==> AllWellTyped(objs[k].terms, allTypes)
    ensures r.Fail? ==> && r.error.TermTypeNotDeclared?
                        && r.error.allTypes == allTypes
                        && exists k :: && IsFirstIllTypedAtom(objs, k, allTypes)
                                       && r.error.atom == objs[k]
                                       && FindInconsistenciesInTypedTerms(Some(objs[k].terms), allTypes)
                                          == Some(Violation(r.error.term, r.error.tag))
  {
    if objs == [] then Pass
    else
      match FindInconsistenciesInTypedTerms(Some(objs[0].terms), allTypes)
      case Some(Violation(term, tag)) =>
        assert IsFirstIllTypedAtom(objs, 0, allTypes);
        Fail(TermTypeNotDeclared(tag, term, objs[0], allTypes))
      case None =>
        var r := CheckAtoms(objs[1..], allTypes);
        assert r.Pass? ==> forall k :: 0 <= k < |objs| ==> AllWellTyped(objs[k].terms, allTypes) by {
          if r.Pass? {
            forall k | 0 <= k < |objs|
              ensures AllWellTyped(objs[k].terms, allTypes)
            {
              if k > 0 {
                assert objs[k] == objs[1..][k - 1];
              }
            }
          }
        }
        assert r.Fail? ==> exists k :: && IsFirstIllTypedAtom(objs, k, allTypes)
                                       && r.error.atom == objs[k]
                                       && FindInconsistenciesInTypedTerms(Some(objs[k].terms), allTypes)
                                          == Some(Violation(r.error.term, r.error.tag)) by {
          if r.Fail? {
            var k :| && IsFirstIllTypedAtom(objs[1..], k, allTypes)
                     && r.error.atom == objs[1..][k]
                     && FindInconsistenciesInTypedTerms(Some(objs[1..][k].terms), allTypes)
                        == Some(Violation(r.error.term, r.error.tag));
            assert IsFirstIllTypedAtom(objs, k + 1, allTypes) by {
              forall j | 0 <= j < k + 1
                ensures AllWellTyped(objs[j].terms, allTypes)
              {
                if j > 0 {
                  assert objs[j] == objs[1..][j - 1];
                }
              }
            }
          }
        }
        r
  }

  /** `_check_types_in_has_terms_objects`: passes on an absent collection;
      otherwise fails exactly when some atom holds a term with an undeclared
      tag, reporting the earliest such atom and the scanner's pair for its
      terms. */
  function CheckTypesInHasTermsObjects(hasTermsObjects: Option<seq<Atom>>, allTypes: set<string>): (r: Outcome<ValidationError>)
    ensures hasTermsObjects.None? ==> r.Pass?
    ensures r.Pass? <==> || hasTermsObjects.None?
                         || forall k :: 0 <= k < |hasTermsObjects.value| ==>
                              AllWellTyped(hasTermsObjects.value[k].terms, allTypes)
    ensures r.Fail? ==> && r.error.TermTypeNotDeclared?
                        && r.error.allTypes == allTypes
                        && exists k :: && IsFirstIllTypedAtom(hasTermsObjects.value, k, allTypes)
                                       && r.error.atom == hasTermsObjects.value[k]
                                       && FindInconsistenciesInTypedTerms(Some(r.error.atom.terms), allTypes)
                                          == Some(Violation(r.error.term, r.error.tag))
  {
    match hasTermsObjects
    case None => Pass
    case Some(objs) => CheckAtoms(objs, allTypes)
  }

  /** The reported term of a failed atom check is the earliest ill-typed term
      of the reported atom, and the reported tag is that term's least
      undeclared tag. */
  lemma AtomFailureLocatesTerm(objs: seq<Atom>, allTypes: set<string>)
    requires CheckTypesInHasTermsObjects(Some(objs), allTypes).Fail?
    ensures var e := CheckTypesInHasTermsObjects(Some(objs), allTypes).error;
            && e.TermTypeNotDeclared?
            && e.atom in objs
            && IsLeast(e.tag, UndeclaredTags(e.term, allTypes))
            && exists i :: IsFirstIllTyped(e.atom.terms, i, allTypes) && e.atom.terms[i] == e.term
  {
    var e := CheckTypesInHasTermsObjects(Some(objs), allTypes).error;
    var k :| && IsFirstIllTypedAtom(objs, k, allTypes)
             && e.atom == objs[k]
             && FindInconsistenciesInTypedTerms(Some(e.atom.terms), allTypes)
                == Some(Violation(e.term, e.tag));
  }

  // ---------------------------------------------------------------------------
  // The keyword guard

  /** `ensure_set`: an absent set is the empty set. */
  function EnsureSet(s: Option<set<string>>): set<string>
  {
    match s
    case None => {}
    case Some(xs) => xs
  }

  /** `_is_a_keyword`, with the reserved-symbol table `ALL_SYMBOLS` passed as
      `symbols`: the word is reserved and not exempted. */
  function IsAKeyword(word: string, ignore: Option<set<string>>, symbols: set<string>): (r: bool)
    ensures r <==> word in symbols && (ignore.None? || word !in ignore.value)
  {
    word !in EnsureSet(ignore) && word in symbols
  }

  /** Exempting a word always clears it, reserved or not. */
  lemma IgnoringWordClearsIt(word: string, symbols: set<string>)
    ensures !IsAKeyword(word, Some({word}), symbols)
  {
  }

  /** Widening the exemption set can only turn keywords into non-keywords;
      `None` behaves as the empty exemption set. */
  lemma KeywordAntitoneInIgnore(word: string, ignore: set<string>, ignore': set<string>, symbols: set<string>)
    requires ignore <= ignore'
    ensures IsAKeyword(word, Some(ignore'), symbols) ==> IsAKeyword(word, Some(ignore), symbols)
    ensures IsAKeyword(word, None, symbols) == IsAKeyword(word, Some({}), symbols)
  {
  }
}
