/**
 `filterErrors` (src/validator.ts:124-150), `generateViolations`
 (src/validator.ts:93-109) and `validate` (src/validator.ts:77-91).

 The stages run in the source's order on one deletion-flag array: extraction
 of the `errorMessage` originals, the sibling map, `oneOf`, `anyOf`, then the
 structural keywords `allOf`, `if`, `then` and `else`. The unflagged errors are
 kept in order; when none is left, the first error of the extracted list is.
 */
module Filter {
  import opened Wrappers
  import opened ErrorModel
  import opened ErrorMessage
  import opened Siblings
  import opened Branching
  import opened Violations

  /** The keywords `filterErrors` deletes outright (lines 136-139). */
  predicate Structural(e: Error)
  {
    e.keyword == AllOf || e.keyword == If || e.keyword == Then || e.keyword == Else
  }

  /** The errors of `s` whose flag in `d` is not set, in order: `filter(e => !e.params.__filter.delete)`. */
  function Unflagged(s: seq<Error>, d: seq<bool>): (r: seq<Error>)
    requires |d| == |s|
    ensures |r| <= |s|
    ensures forall x :: x in r ==> exists p :: 0 <= p < |s| && !d[p] && s[p] == x
    ensures r == [] <==> forall p :: 0 <= p < |s| ==> d[p]
  {
    if s == [] then []
    else
      var n := |s| - 1;
      var init := Unflagged(s[..n], d[..n]);
      assert forall p :: 0 <= p < n ==> s[..n][p] == s[p] && d[..n][p] == d[p];
      init + (if d[n] then [] else [s[n]])
  }

  /** Filtering a concatenation filters each part and keeps them in order. */
  lemma {:induction false} UnflaggedAppend(a: seq<Error>, da: seq<bool>, b: seq<Error>, db: seq<bool>)
    requires |da| == |a| && |db| == |b|
    ensures Unflagged(a + b, da + db) == Unflagged(a, da) + Unflagged(b, db)
    decreases |b|
  {
    if b == [] {
      assert a + b == a && da + db == da;
    } else {
      var m := |b| - 1;
      var k := |a| + m;
      var last := if db[m] then [] else [b[m]];
      calc {
        Unflagged(a + b, da + db);
        { UnflaggedLast(a + b, da + db); assert (a + b)[k] == b[m] && (da + db)[k] == db[m]; }
        Unflagged((a + b)[..k], (da + db)[..k]) + last;
        { assert (a + b)[..k] == a + b[..m] && (da + db)[..k] == da + db[..m]; }
        Unflagged(a + b[..m], da + db[..m]) + last;
        { UnflaggedAppend(a, da, b[..m], db[..m]); }
        Unflagged(a, da) + Unflagged(b[..m], db[..m]) + last;
        { UnflaggedLast(b, db); }
        Unflagged(a, da) + Unflagged(b, db);
      }
    }
  }

  /**
   Each position is kept or dropped in place: the errors before it, then the
   error itself unless it is flagged, then the errors after it.
   */
  lemma UnflaggedAt(s: seq<Error>, d: seq<bool>, p: nat)
    requires |d| == |s| && p < |s|
    ensures Unflagged(s, d) == Unflagged(s[..p], d[..p]) + (if d[p] then [] else [s[p]]) + Unflagged(s[p + 1..], d[p + 1..])
  {
    assert s == s[..p] + [s[p]] + s[p + 1..];
    assert d == d[..p] + [d[p]] + d[p + 1..];
    UnflaggedAppend(s[..p] + [s[p]], d[..p] + [d[p]], s[p + 1..], d[p + 1..]);
    UnflaggedAppend(s[..p], d[..p], [s[p]], [d[p]]);
    UnflaggedLast([s[p]], [d[p]]);
  }

  lemma UnflaggedLast(s: seq<Error>, d: seq<bool>)
    requires |d| == |s| > 0
    ensures Unflagged(s, d) == Unflagged(s[..|s| - 1], d[..|s| - 1]) + (if d[|s| - 1] then [] else [s[|s| - 1]])
  {
  }

  /** Whether the pass leaves position `p` of the extracted list flagged for deletion. */
  predicate Flagged(errors: seq<Error>, p: nat)
    requires p < |Extracted(errors)|
  {
    var ext := Extracted(errors);
    var siblings := SiblingMap(ext);
    ExtractedFlags(errors)[p]
    || DroppedFor(ext, OneOf, siblings, p)
    || DroppedFor(ext, AnyOf, siblings, p)
    || Structural(ext[p])
  }

  /** The deletion flags of the whole extracted list once every stage has run. */
  function FlagsOf(errors: seq<Error>): (d: seq<bool>)
    ensures |d| == |Extracted(errors)|
  {
    var n := |Extracted(errors)|;
    seq(n, p requires 0 <= p < n => Flagged(errors, p))
  }

  /** What `filterErrors(errors)` returns; `None` where it throws. */
  function Reduced(errors: seq<Error>): Option<seq<Error>>
  {
    var ext := Extracted(errors);
    var kept := Unflagged(ext, FlagsOf(errors));
    if kept != [] then Some(kept)
    else if ext == [] then None
    else Some([ext[0]])
  }

  /** The flags the stages leave behind are `FlagsOf(errors)`. */
  lemma StagesComputeFlags(errors: seq<Error>, ext: seq<Error>, flags: seq<bool>, siblings: map<string, seq<string>>, d: seq<bool>)
    requires ext == Extracted(errors) && flags == ExtractedFlags(errors) && siblings == SiblingMap(ext)
    requires |d| == |ext|
    requires forall p :: 0 <= p < |ext| ==>
               d[p] == (flags[p] || DroppedFor(ext, OneOf, siblings, p) || DroppedFor(ext, AnyOf, siblings, p) ||
                        ext[p].keyword == AllOf || ext[p].keyword == If || ext[p].keyword == Then || ext[p].keyword == Else)
    ensures d == FlagsOf(errors)
  {
    forall p | 0 <= p < |ext|
      ensures d[p] == FlagsOf(errors)[p]
    {
      assert FlagsOf(errors)[p] == Flagged(errors, p);
    }
  }

  /** `filterErrors(errors)` (lines 124-150); `None` stands for the exception it throws on an empty list. */
  method FilterErrors(errors: seq<Error>) returns (r: Option<seq<Error>>)
    ensures r == Reduced(errors)
  {
    var filteredErrors, flags := ExtractErrorMessageKeyword(errors);
    var siblings := GetSiblings(filteredErrors);
    var deleted := new bool[|filteredErrors|](p requires 0 <= p < |filteredErrors| => flags[p]);
    ApplyOneOfOrAnyOf(filteredErrors, OneOf, siblings, deleted);
    ApplyOneOfOrAnyOf(filteredErrors, AnyOf, siblings, deleted);
    DeleteErrorsForKey(filteredErrors, AllOf, deleted);
    DeleteErrorsForKey(filteredErrors, If, deleted);
    DeleteErrorsForKey(filteredErrors, Then, deleted);
    DeleteErrorsForKey(filteredErrors, Else, deleted);
    StagesComputeFlags(errors, filteredErrors, flags, siblings, deleted[..]);

    var remainingErrors := Unflagged(filteredErrors, deleted[..]);
    if |remainingErrors| == 0 {
      if |filteredErrors| == 0 {
        // `filteredErrors[0]` is undefined, and deleting its `__filter` throws.
        return None;
      }
      remainingErrors := [filteredErrors[0]];
    }
    return Some(remainingErrors);
  }

  /** The list `generateViolations` maps: the filtered list, or the input when filtering throws. */
  function Filtered(errors: seq<Error>): seq<Error>
  {
    match Reduced(errors)
    case Some(kept) => kept
    case None => errors
  }

  /** `generateViolations(errors)` (lines 93-109). */
  method GenerateViolations(errors: seq<Error>) returns (violations: seq<Violation>)
    ensures |violations| == |Filtered(errors)|
    ensures forall i :: 0 <= i < |violations| ==>
              var e := Filtered(errors)[i];
              && violations[i].path == PathOf(e.instancePath)
              && violations[i].message == e.message
              && violations[i].context == Context(e.params, e.propertyName, e.schema, e.parentSchema, e.data)
  {
    var filteredErrors := errors;
    var r := FilterErrors(errors);
    if r.Some? {
      filteredErrors := r.value;
    }
    violations := seq(|filteredErrors|, i requires 0 <= i < |filteredErrors| => ToViolation(filteredErrors[i]));
  }

  /**
   `validate(schema, data, validate)` (lines 77-91) once the compiled
   validator has run: `isValid` is its verdict and `errors` what it reported.
   */
  method Validate(isValid: bool, errors: seq<Error>) returns (violations: seq<Violation>)
    ensures isValid ==> violations == []
    ensures !isValid ==> |violations| == |Filtered(errors)|
    ensures !isValid ==> forall i :: 0 <= i < |violations| ==> violations[i] == ToViolation(Filtered(errors)[i])
    ensures violations == [] <==> isValid || errors == []
  {
    if !isValid {
      violations := GenerateViolations(errors);
      ReducedNonEmpty(errors);
      return;
    }
    return [];
  }

  // ---------------------------------------------------------------------------
  // Properties
  // ---------------------------------------------------------------------------

  /** `filterErrors` throws exactly on an empty list, and otherwise never returns an empty one. */
  lemma ReducedNonEmpty(errors: seq<Error>)
    ensures Reduced(errors).None? <==> errors == []
    ensures Reduced(errors).Some? ==> |Reduced(errors).value| >= 1
    ensures |Filtered(errors)| == 0 <==> errors == []
  {
    assert |Extracted(errors)| >= |errors|;
  }

  /** Outside the fallback, the result is exactly the unflagged errors of the extracted list, in order. */
  lemma ReducedIsUnflagged(errors: seq<Error>)
    requires exists p :: 0 <= p < |Extracted(errors)| && !Flagged(errors, p)
    ensures Reduced(errors) == Some(Unflagged(Extracted(errors), FlagsOf(errors)))
  {
    var p :| 0 <= p < |Extracted(errors)| && !Flagged(errors, p);
    assert !FlagsOf(errors)[p];
  }

  /** When every error is flagged, the result is the first error of the extracted list alone. */
  lemma FallbackIsFirst(errors: seq<Error>)
    requires errors != []
    requires forall p :: 0 <= p < |Extracted(errors)| ==> Flagged(errors, p)
    ensures Reduced(errors) == Some([Extracted(errors)[0]])
  {
    assert |Extracted(errors)| >= |errors| > 0;
    forall p | 0 <= p < |Extracted(errors)|
      ensures FlagsOf(errors)[p]
    {
      assert Flagged(errors, p);
    }
  }

  /**
   Outside the fallback no surviving error has a branching or structural
   keyword, and none sits where extraction put an overridden original.
   */
  lemma NoStructuralSurvivors(errors: seq<Error>, x: Error)
    requires Unflagged(Extracted(errors), FlagsOf(errors)) != []
    requires Reduced(errors).Some? && x in Reduced(errors).value
    ensures x.keyword !in {OneOf, AnyOf, AllOf, If, Then, Else}
    ensures exists p :: 0 <= p < |Extracted(errors)| && Extracted(errors)[p] == x && !ExtractedFlags(errors)[p]
  {
    var ext := Extracted(errors);
    var p :| 0 <= p < |ext| && !FlagsOf(errors)[p] && ext[p] == x;
    assert !Flagged(errors, p);
  }

  /**
   Nothing is invented: every error `filterErrors` returns is an input error,
   an input `errorMessage` error stripped of `params.errors`, or one of its originals.
   */
  lemma ReducedFromInput(errors: seq<Error>, x: Error)
    requires Reduced(errors).Some? && x in Reduced(errors).value
    ensures x in errors || exists i :: 0 <= i < |errors| && HasOriginals(errors[i]) &&
                                       (x == Stripped(errors[i]) || x in errors[i].params.errors.value)
  {
    var ext := Extracted(errors);
    if Unflagged(ext, FlagsOf(errors)) != [] {
      var p :| 0 <= p < |ext| && ext[p] == x;
    } else {
      assert x == ext[0];
    }
    ExtractedFromInput(errors, x);
  }

  /** A violation's path never contains a separator. */
  lemma ViolationPath(errors: seq<Error>, i: nat)
    requires i < |Filtered(errors)|
    ensures NoSeparator(ToViolation(Filtered(errors)[i]).path)
  {
    PathHasNoSeparator(Filtered(errors)[i].instancePath);
  }
}
