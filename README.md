# PDDL type-consistency validation, modelled in Dafny

This project models the validation kernel of the `pddl` Python library
(`pddl/_validation.py`). The kernel has four stateless routines:

- `_find_inconsistencies_in_typed_terms` is the scanner. It walks a collection of terms in order, visits each term's type tags in sorted order, skips the `None` ("no type") tag, and returns the first `(term, tag)` whose tag is not a declared type.
- `_check_constant_types` runs the scanner over a domain's constants and raises `PDDLValidationError` on a hit.
- `_check_types_in_has_terms_objects` runs the scanner over the terms of each atomic expression. It raises on the first hit across the whole collection.
- `_is_a_keyword` tells whether a word is a reserved PDDL symbol that is not exempted.

Files:

- `wrappers.dfy` (module `Wrappers`): `Option` stands for Python's `None`. `Outcome` (`Pass`/`Fail`) stands for returning normally or raising.
- `string_order.dfy` (module `StringOrder`): Python's `<` on `str`, which compares code point by code point and puts a proper prefix first. It also holds `sorted` of a finite set of strings (`SortSet`), proved ascending, duplicate-free and holding exactly the set's elements.
- `validation.dfy` (module `Validation`): the data model and the four routines.
  - A `Term` has a name and a `set` of tags; a `Tag` is `Option<string>`.
  - An `Atom` has a name and a `seq<Term>`.
  - `ValidationError` carries the offending tag, the term or constant, the atom (for the atom checker) and the declared types.
  - The scanner is modelled twice. The "as written" version reproduces Python's `sorted` exactly (see Findings). The corrected version is the one the checkers use.

Python collections become `seq`s in the order Python iterates over them. The
reserved-symbol table `ALL_SYMBOLS` is passed to `IsAKeyword` as the parameter
`symbols`, because `pddl/parser/symbols` is not part of this model.

The `type_tag is not None` test at `pddl/_validation.py:38` shows that the
scanner is meant to skip `None` tags. But `sorted` at line 37 runs on the whole
tag set first, and it raises `TypeError` on a set that mixes `None` with a
string. The model follows the code in `FindInconsistenciesInTypedTermsAsWritten`
and records the defect under Findings.

## Model

| member | source | states |
|---|---|---|
| StringOrder.BelowTotal | pddl/_validation.py:37 | any two distinct strings are ordered one way or the other, so `sorted` never fails on a set of strings |
| StringOrder.BelowTransitive | pddl/_validation.py:37 | string order is transitive, which makes a least element and a sorted order exist |
| StringOrder.SortSet | pddl/_validation.py:37 | `sorted` of a set of strings is strictly ascending, has the set's size and holds exactly the set's elements |
| StringOrder.Least | pddl/_validation.py:37 | returns the least element of a non-empty set of strings |
| StringOrder.LeastUnique | pddl/_validation.py:37 | a set of strings has at most one least element, so the smallest tag reported is well defined |
| StringOrder.AscendingFirstIsLeast | pddl/_validation.py:37-39 | in an ascending sequence, the first element in a set is that set's least element |
| Validation.UndeclaredTags | pddl/_validation.py:38 | the undeclared tags of a term are exactly its non-`None` tags outside the declared types; the set is empty iff the term is well typed |
| Validation.FirstUndeclared | pddl/_validation.py:37-39 | the inner loop returns nothing iff no visited tag is undeclared; otherwise it returns an undeclared, non-`None` tag that is preceded only by acceptable tags |
| Validation.SortedTags | pddl/_validation.py:37 | `sorted(type_tags)` raises exactly when the set holds `None` and at least one other tag; otherwise it returns each tag of the set exactly once, real tags in ascending order |
| Validation.ScanTermsAsWritten | pddl/_validation.py:36-40 | the scan as written is consistent iff every term has sortable tags and only declared real tags; otherwise it stops at the earliest term that fails either test. It reports a sort error if that term mixes `None` with other tags, and otherwise the term with its least undeclared tag |
| Validation.SortedScanIsTermViolation | pddl/_validation.py:37-39 | on a term whose tags `sorted` accepts, the as-written inner loop reports the same tag as the corrected one |
| Validation.FindInconsistenciesInTypedTermsAsWritten | pddl/_validation.py:34-40 | absent input is consistent for any declared types. A present collection is consistent iff every term has sortable tags and only declared real tags. Otherwise the earliest such failing term is reported, either as a sort error or with its least undeclared tag |
| Validation.TermViolation | pddl/_validation.py:37-39 | for one term: nothing iff the term is well typed, otherwise its lexicographically least undeclared tag |
| Validation.ScanTerms | pddl/_validation.py:36-40 | over a present collection: nothing iff all terms are well typed; otherwise the earliest ill-typed term with its least undeclared tag |
| Validation.FindInconsistenciesInTypedTerms | pddl/_validation.py:34-40 | absent input gives `None`; `None` iff every non-`None` tag is declared; a hit `(t, g)` has `t` in the input and `g` among `t`'s tags, not `None` and not declared; `t` is the earliest ill-typed term and `g` its least undeclared tag |
| Validation.ScanMatchesSpecification | pddl/_validation.py:36-39 | the scan's answer is fully determined by the first ill-typed term and that term's least undeclared tag |
| Validation.TagChoiceDependsOnlyOnUndeclared | pddl/_validation.py:37 | two terms with the same undeclared tags get the same reported tag, however their tag sets are stored and whatever declared or `None` tags they also carry |
| Validation.UntypedTermsNeverViolate | pddl/_validation.py:38 | terms whose only tag is `None` never cause a violation, for any declared types |
| Validation.AsWrittenAgreesWhenSortable | pddl/_validation.py:36-40 | when no term mixes `None` with other tags, the as-written scan and the corrected scan give the same result |
| Validation.SortTypeErrorOnMixedTags | pddl/_validation.py:37 | a constant tagged `{None, "block"}` with `"block"` declared makes the as-written scan raise from `sorted`; the corrected scan finds nothing |
| Validation.CheckConstantTypes | pddl/_validation.py:43-51 | absent constants pass; the check fails iff some constant has an undeclared non-`None` tag; the error names the earliest such constant, its least undeclared tag and the declared types |
| Validation.CheckAtoms | pddl/_validation.py:62-69 | over a present collection: passes iff every atom's terms are well typed; on failure it names the earliest offending atom and the scanner's pair for that atom's terms |
| Validation.CheckTypesInHasTermsObjects | pddl/_validation.py:54-69 | absent input passes; otherwise fails iff some atom holds a term with an undeclared non-`None` tag; the error names the earliest such atom, the scanner's `(term, tag)` on its terms and the declared types |
| Validation.AtomFailureLocatesTerm | pddl/_validation.py:62-69 | on failure, the reported atom is in the input, the reported term is that atom's earliest ill-typed term, and the tag is that term's least undeclared tag |
| Validation.IsAKeyword | pddl/_validation.py:72-75 | true iff the word is a reserved symbol and is not in the exemption set; an absent exemption set exempts nothing |
| Validation.IgnoringWordClearsIt | pddl/_validation.py:75 | with `ignore = {w}` the guard is false for `w`, reserved or not |
| Validation.KeywordAntitoneInIgnore | pddl/_validation.py:74-75 | enlarging the exemption set can only turn keywords into non-keywords; `None` behaves as `{}` |

## Left out

- The exact text of the error messages (the f-strings with `repr` of the tag, term, atom and type set) is left out. `ValidationError` carries the same data as values.
- The contents of `ALL_SYMBOLS` are left out. `pddl/parser/symbols` is not part of this model, so the table is the parameter `symbols`.
- The internals of `ensure_set` are reduced to the helper `EnsureSet`, which maps an absent set to `{}`; what this means for the guard is stated on `IsAKeyword`. The internals of `name`, `Constant`, `Predicate` and `Term` are left out. A constant is a `Term`; an atomic expression is an `Atom` holding its terms.
- How names are normalised (`name`) is left out. Tags are plain strings.
- Exception propagation is not modelled. A raise becomes `Fail` or `SortTypeError`.
- Concurrency is not modelled. The code is single-threaded and read-only.
- The iteration order of unordered Python collections (for example a `frozenset` of constants) is not modelled. The model takes the collection in the order in which it is iterated, as a `seq`.
- Idempotence of the checkers is not stated as a lemma. The checkers are Dafny functions, so equal inputs give equal results by construction.
- The checkers as written would also let the `TypeError` of the as-written scan escape. The modelled checkers use the corrected scan; `SortTypeErrorOnMixedTags` documents the defect.
- `tests/test_function.py` is not modelled. It only exercises getters of `Function`, whose source is not part of this model.

## Findings

| source | as written | input that shows it | evidently intended | confidence | as-written member | corrected member |
|---|---|---|---|---|---|---|
| pddl/_validation.py:37-38 | `sorted(term.type_tags)` runs before the `type_tag is not None` test. Python 3 cannot order `None` against a `str`, so a tag set holding `None` and any real tag raises `TypeError` | a constant `c` tagged `{None, "block"}` with declared types `{"block"}` | skip `None` tags and check the real ones; for this input, report no inconsistency | not executed; certain for this input, but whether the library's `Term` constructor can produce such a tag set is not part of this model | Validation.SortTypeErrorOnMixedTags | Validation.FindInconsistenciesInTypedTerms |
