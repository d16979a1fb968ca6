/**
 `extractErrorMessageKeyword` (src/validator.ts:152-172): every `errorMessage`
 error that carries `params.errors` gives that list up; the originals are
 spliced back in just before it, each flagged for deletion. The filter's
 per-error `__filter.delete` scratch is returned as a list of flags parallel to
 the list of errors.
 */
module ErrorMessage {
  import opened Wrappers
  import opened ErrorModel

  /** An `errorMessage` error whose `params.errors` is present (an empty list is present too). */
  predicate HasOriginals(e: Error)
  {
    e.keyword == ErrorMessageKeyword && e.params.errors.Some?
  }

  /** The error with `params.errors` deleted. */
  function Stripped(e: Error): Error
  {
    e.(params := e.params.(errors := None))
  }

  /** What one input error becomes in the output list. */
  function Expand(e: Error): seq<Error>
  {
    if HasOriginals(e) then e.params.errors.value + [Stripped(e)] else [e]
  }

  /** The deletion flags of `Expand(e)`: the originals are flagged, the error itself is not. */
  function ExpandFlags(e: Error): (f: seq<bool>)
    ensures |f| == |Expand(e)| == 1 + (if HasOriginals(e) then |e.params.errors.value| else 0)
  {
    if HasOriginals(e) then seq(|e.params.errors.value|, _ => true) + [false] else [false]
  }

  /** How many originals the `errorMessage` errors of `errors` replace. */
  function ReplacedCount(errors: seq<Error>): nat
  {
    if errors == [] then 0
    else
      var e := errors[|errors| - 1];
      ReplacedCount(errors[..|errors| - 1]) + (if HasOriginals(e) then |e.params.errors.value| else 0)
  }

  /** The list `extractErrorMessageKeyword` returns. */
  function Extracted(errors: seq<Error>): (r: seq<Error>)
    ensures |r| == |errors| + ReplacedCount(errors)
  {
    if errors == [] then [] else Extracted(errors[..|errors| - 1]) + Expand(errors[|errors| - 1])
  }

  /** The `__filter.delete` flags of `Extracted(errors)` after extraction. */
  function ExtractedFlags(errors: seq<Error>): (f: seq<bool>)
    ensures |f| == |errors| + ReplacedCount(errors)
  {
    if errors == [] then [] else ExtractedFlags(errors[..|errors| - 1]) + ExpandFlags(errors[|errors| - 1])
  }

  method ExtractErrorMessageKeyword(errors: seq<Error>) returns (allErrors: seq<Error>, deleted: seq<bool>)
    ensures allErrors == Extracted(errors)
    ensures deleted == ExtractedFlags(errors)
  {
    allErrors, deleted := [], [];
    for i := 0 to |errors|
      invariant allErrors == Extracted(errors[..i])
      invariant deleted == ExtractedFlags(errors[..i])
    {
      assert errors[..i + 1][..i] == errors[..i];
      var error := errors[i];
      if error.keyword == ErrorMessageKeyword {
        if error.params.errors.Some? {
          var originalErrors := error.params.errors.value;
          error := error.(params := error.params.(errors := None));
          allErrors := allErrors + originalErrors;
          deleted := deleted + seq(|originalErrors|, _ => true);
        }
      }
      allErrors := allErrors + [error];
      deleted := deleted + [false];
    }
    assert errors[..|errors|] == errors;
  }

  // ---------------------------------------------------------------------------
  // Properties
  // ---------------------------------------------------------------------------

  lemma {:induction false} ExtractedAppend(a: seq<Error>, b: seq<Error>)
    ensures Extracted(a + b) == Extracted(a) + Extracted(b)
  {
    if b == [] {
      assert a + b == a;
    } else {
      var b' := b[..|b| - 1];
      var last := b[|b| - 1];
      assert (a + b)[..|a + b| - 1] == a + b';
      assert (a + b)[|a + b| - 1] == last;
      ExtractedAppend(a, b');
      calc {
        Extracted(a + b);
        Extracted(a + b') + Expand(last);
        (Extracted(a) + Extracted(b')) + Expand(last);
        Extracted(a) + (Extracted(b') + Expand(last));
        Extracted(a) + Extracted(b);
      }
    }
  }

  lemma {:induction false} ExtractedFlagsAppend(a: seq<Error>, b: seq<Error>)
    ensures ExtractedFlags(a + b) == ExtractedFlags(a) + ExtractedFlags(b)
  {
    if b == [] {
      assert a + b == a;
    } else {
      var b' := b[..|b| - 1];
      var last := b[|b| - 1];
      assert (a + b)[..|a + b| - 1] == a + b';
      assert (a + b)[|a + b| - 1] == last;
      ExtractedFlagsAppend(a, b');
      calc {
        ExtractedFlags(a + b);
        ExtractedFlags(a + b') + ExpandFlags(last);
        (ExtractedFlags(a) + ExtractedFlags(b')) + ExpandFlags(last);
        ExtractedFlags(a) + (ExtractedFlags(b') + ExpandFlags(last));
        ExtractedFlags(a) + ExtractedFlags(b);
      }
    }
  }

  /** The output splits around the contribution of any one input error. */
  lemma ExtractedSnoc(errors: seq<Error>, i: nat)
    requires 0 < i <= |errors|
    ensures Extracted(errors[..i]) == Extracted(errors[..i - 1]) + Expand(errors[i - 1])
    ensures ExtractedFlags(errors[..i]) == ExtractedFlags(errors[..i - 1]) + ExpandFlags(errors[i - 1])
  {
    var pre := errors[..i];
    assert pre[..|pre| - 1] == errors[..i - 1];
  }

  lemma ExtractedCut(errors: seq<Error>, i: nat)
    requires i <= |errors|
    ensures Extracted(errors) == Extracted(errors[..i]) + Extracted(errors[i..])
    ensures ExtractedFlags(errors) == ExtractedFlags(errors[..i]) + ExtractedFlags(errors[i..])
  {
    assert errors == errors[..i] + errors[i..];
    ExtractedAppend(errors[..i], errors[i..]);
    ExtractedFlagsAppend(errors[..i], errors[i..]);
  }

  /** The output splits around the contribution of any one input error. */
  lemma ExtractedSplit(errors: seq<Error>, i: nat)
    requires i < |errors|
    ensures Extracted(errors) == Extracted(errors[..i]) + Expand(errors[i]) + Extracted(errors[i + 1..])
    ensures ExtractedFlags(errors) == ExtractedFlags(errors[..i]) + ExpandFlags(errors[i]) + ExtractedFlags(errors[i + 1..])
  {
    ExtractedCut(errors, i + 1);
    ExtractedSnoc(errors, i + 1);
  }

  /** Where the (possibly stripped) input error `errors[i]` lands in the output. */
  function Position(errors: seq<Error>, i: nat): nat
    requires i < |errors|
  {
    |errors[..i]| + ReplacedCount(errors[..i]) + |Expand(errors[i])| - 1
  }

  /**
   Each input error keeps its place in the output, unflagged; an
   `errorMessage` error with `params.errors` has lost that list.
   */
  lemma ExtractedPlacement(errors: seq<Error>, i: nat)
    requires i < |errors|
    ensures Position(errors, i) < |Extracted(errors)|
    ensures Extracted(errors)[Position(errors, i)] == (if HasOriginals(errors[i]) then Stripped(errors[i]) else errors[i])
    ensures Extracted(errors)[Position(errors, i)].keyword == ErrorMessageKeyword ==>
      Extracted(errors)[Position(errors, i)].params.errors == None
    ensures !ExtractedFlags(errors)[Position(errors, i)]
  {
    ExtractedSplit(errors, i);
    var head, x := Extracted(errors[..i]), Expand(errors[i]);
    var p := Position(errors, i);
    assert Extracted(errors)[p] == x[|x| - 1];
    assert ExtractedFlags(errors)[p] == ExpandFlags(errors[i])[|x| - 1];
  }

  /**
   An `errorMessage` error with `params.errors` is immediately preceded by
   exactly those originals, all flagged for deletion.
   */
  lemma ExtractedOriginals(errors: seq<Error>, i: nat)
    requires i < |errors| && HasOriginals(errors[i])
    ensures var os := errors[i].params.errors.value;
            var p := Position(errors, i);
            |os| <= p < |Extracted(errors)| && Extracted(errors)[p - |os|..p] == os &&
            forall q :: p - |os| <= q < p ==> ExtractedFlags(errors)[q]
  {
    OriginalsInPlace(errors, i);
    OriginalsFlagged(errors, i);
  }

  lemma OriginalsInPlace(errors: seq<Error>, i: nat)
    requires i < |errors| && HasOriginals(errors[i])
    ensures var os := errors[i].params.errors.value;
            var p := Position(errors, i);
            |os| <= p < |Extracted(errors)| && Extracted(errors)[p - |os|..p] == os
  {
    ExtractedSplit(errors, i);
    var os := errors[i].params.errors.value;
    var head := Extracted(errors[..i]);
    var p := Position(errors, i);
    var rest := [Stripped(errors[i])] + Extracted(errors[i + 1..]);
    assert Extracted(errors) == head + os + rest;
    assert p == |head| + |os|;
    SliceMiddle(head, os, rest);
  }

  lemma SliceMiddle<T>(a: seq<T>, b: seq<T>, c: seq<T>)
    ensures (a + b + c)[|a|..|a| + |b|] == b
  {
  }

  lemma OriginalsFlagged(errors: seq<Error>, i: nat)
    requires i < |errors| && HasOriginals(errors[i])
    ensures var os := errors[i].params.errors.value;
            var p := Position(errors, i);
            |os| <= p < |Extracted(errors)| &&
            forall q :: p - |os| <= q < p ==> ExtractedFlags(errors)[q]
  {
    ExtractedSplit(errors, i);
    var os := errors[i].params.errors.value;
    var head := ExtractedFlags(errors[..i]);
    var p := Position(errors, i);
    forall q | p - |os| <= q < p ensures ExtractedFlags(errors)[q] {
      assert ExtractedFlags(errors)[q] == ExpandFlags(errors[i])[q - |head|];
    }
  }

  /** Positions are strictly increasing: extraction preserves the input order. */
  lemma ExtractedOrder(errors: seq<Error>, i: nat, j: nat)
    requires i < j < |errors|
    ensures Position(errors, i) < Position(errors, j)
  {
    ExtractedSplit(errors[..j], i);
    assert errors[..j][..i] == errors[..i];
  }

  /**
   Nothing is invented: every output error is an input error, an input
   `errorMessage` error stripped of `params.errors`, or one of its originals.
   */
  lemma {:induction false} ExtractedFromInput(errors: seq<Error>, x: Error)
    requires x in Extracted(errors)
    ensures x in errors || exists i :: 0 <= i < |errors| && HasOriginals(errors[i]) &&
                                       (x == Stripped(errors[i]) || x in errors[i].params.errors.value)
  {
    var init := errors[..|errors| - 1];
    var e := errors[|errors| - 1];
    if x in Extracted(init) {
      ExtractedFromInput(init, x);
      if x in init {
        assert x in errors;
      } else {
        var i :| 0 <= i < |init| && HasOriginals(init[i])
          && (x == Stripped(init[i]) || x in init[i].params.errors.value);
        assert errors[i] == init[i];
      }
    } else {
      assert x in Expand(e);
    }
  }
}
