/**
 `getSiblings` (src/validator.ts:174-199). For every error other than an
 `errorMessage` error, with schema path `sp`, it records the schema paths of the
 other non-`errorMessage` errors that start with `sp`'s parent (the part of
 `sp` before its last `/`) but not with `sp` itself. Both tests are plain string
 prefix tests, not comparisons of path segments.
 */
module Siblings {
  import opened ErrorModel
  import opened JsString

  predicate Counted(e: Error) { e.keyword != ErrorMessageKeyword }

  /** `sp.substring(0, sp.lastIndexOf("/"))`. */
  function Parent(sp: string): string
  {
    Substring(sp, 0, LastIndexOf(sp, '/'))
  }

  /** `other` is recorded as a sibling of `sp`. */
  predicate IsSibling(sp: string, other: string)
  {
    !(sp <= other) && Parent(sp) <= other
  }

  /** The paths one pass of the inner loop records under `sp`, in order. */
  function SiblingsOf(errors: seq<Error>, sp: string): (r: seq<string>)
    ensures forall x :: x in r <==>
      exists j :: 0 <= j < |errors| && Counted(errors[j]) && IsSibling(sp, errors[j].schemaPath) && errors[j].schemaPath == x
  {
    if errors == [] then []
    else
      var init, e := errors[..|errors| - 1], errors[|errors| - 1];
      var r := SiblingsOf(init, sp) + (if Counted(e) && IsSibling(sp, e.schemaPath) then [e.schemaPath] else []);
      assert forall j :: 0 <= j < |init| ==> init[j] == errors[j];
      r
  }

  function Lookup(m: map<string, seq<string>>, k: string): seq<string>
  {
    if k in m then m[k] else []
  }

  /** `m` after `found` was pushed, one path at a time, onto the entry for `sp`. */
  function Record(m: map<string, seq<string>>, sp: string, found: seq<string>): map<string, seq<string>>
  {
    if found == [] then m else m[sp := Lookup(m, sp) + found]
  }

  /** The dictionary after the outer loop has visited the first `n` errors. */
  function SiblingMapUpTo(errors: seq<Error>, n: nat): map<string, seq<string>>
    requires n <= |errors|
  {
    if n == 0 then map[]
    else
      var m, e := SiblingMapUpTo(errors, n - 1), errors[n - 1];
      if Counted(e) then Record(m, e.schemaPath, SiblingsOf(errors, e.schemaPath)) else m
  }

  /** The dictionary `getSiblings` returns. */
  function SiblingMap(errors: seq<Error>): map<string, seq<string>>
  {
    SiblingMapUpTo(errors, |errors|)
  }

  /** A group path has siblings when its entry exists and is non-empty (line 231). */
  predicate HasSiblings(siblings: map<string, seq<string>>, sp: string)
  {
    sp in siblings && |siblings[sp]| > 0
  }

  method GetSiblings(errors: seq<Error>) returns (siblings: map<string, seq<string>>)
    ensures siblings == SiblingMap(errors)
  {
    siblings := map[];
    for i := 0 to |errors|
      invariant siblings == SiblingMapUpTo(errors, i)
    {
      var error := errors[i];
      if error.keyword != ErrorMessageKeyword {
        var schemaPath := error.schemaPath;
        var parentSchemaPath := Substring(schemaPath, 0, LastIndexOf(schemaPath, '/'));
        siblings := PushSiblings(errors, schemaPath, parentSchemaPath, siblings);
      }
    }
  }

  /** Lines 183-195: the inner `forEach`, which pushes every sibling of `schemaPath` onto its entry. */
  method PushSiblings(errors: seq<Error>, schemaPath: string, parentSchemaPath: string, siblings: map<string, seq<string>>)
    returns (siblings': map<string, seq<string>>)
    requires parentSchemaPath == Parent(schemaPath)
    ensures siblings' == Record(siblings, schemaPath, SiblingsOf(errors, schemaPath))
  {
    siblings' := siblings;
    for j := 0 to |errors|
      invariant siblings' == Record(siblings, schemaPath, SiblingsOf(errors[..j], schemaPath))
    {
      SiblingsOfSnoc(errors, j, schemaPath);
      ghost var found := SiblingsOf(errors[..j], schemaPath);
      var other := errors[j];
      if other.keyword != ErrorMessageKeyword && !(schemaPath <= other.schemaPath) && parentSchemaPath <= other.schemaPath {
        RecordSnoc(siblings, schemaPath, found, other.schemaPath);
        if schemaPath !in siblings' {
          siblings' := siblings'[schemaPath := []];
        }
        siblings' := siblings'[schemaPath := siblings'[schemaPath] + [other.schemaPath]];
      } else {
        assert found + [] == found;
      }
    }
    assert errors[..|errors|] == errors;
  }

  lemma SiblingsOfSnoc(errors: seq<Error>, j: nat, sp: string)
    requires j < |errors|
    ensures SiblingsOf(errors[..j + 1], sp) == SiblingsOf(errors[..j], sp) +
      (if Counted(errors[j]) && IsSibling(sp, errors[j].schemaPath) then [errors[j].schemaPath] else [])
  {
    assert errors[..j + 1][..j] == errors[..j];
  }

  lemma RecordSnoc(m: map<string, seq<string>>, sp: string, found: seq<string>, x: string)
    ensures Record(m, sp, found + [x]) == Record(m, sp, found)[sp := Lookup(Record(m, sp, found), sp) + [x]]
  {
    if found != [] {
      assert Lookup(m, sp) + found + [x] == Lookup(m, sp) + (found + [x]);
    } else {
      assert found + [x] == [x];
    }
  }

  // ---------------------------------------------------------------------------
  // Properties
  // ---------------------------------------------------------------------------

  /** `Parent(sp)` is `sp` cut just before its last `/`, or `""` when it has none. */
  lemma ParentCut(sp: string)
    ensures Parent(sp) <= sp
    ensures LastIndexOf(sp, '/') >= 0 ==>
              |Parent(sp)| < |sp| && sp[|Parent(sp)|] == '/' && forall m :: |Parent(sp)| < m < |sp| ==> sp[m] != '/'
    ensures LastIndexOf(sp, '/') < 0 ==>
              Parent(sp) == "" && forall m :: 0 <= m < |sp| ==> sp[m] != '/'
  {
    var k := LastIndexOf(sp, '/');
    if k >= 0 {
      SubstringSlice(sp, 0, k);
    } else {
      SubstringNegativeEnd(sp, 0, k);
    }
  }

  /**
   Every recorded entry is a sibling of its key, taken from a non-`errorMessage`
   error; every key is the path of a non-`errorMessage` error, with at least one
   entry; and a key is never recorded under itself.
   */
  lemma {:induction false} SiblingEntries(errors: seq<Error>, n: nat)
    requires n <= |errors|
    ensures forall sp :: sp in SiblingMapUpTo(errors, n) ==>
      |SiblingMapUpTo(errors, n)[sp]| > 0 &&
      (exists i :: 0 <= i < n && Counted(errors[i]) && errors[i].schemaPath == sp) &&
      sp !in SiblingMapUpTo(errors, n)[sp] &&
      forall x :: x in SiblingMapUpTo(errors, n)[sp] ==> x in SiblingsOf(errors, sp)
  {
    if n > 0 {
      SiblingEntries(errors, n - 1);
      var m := SiblingMapUpTo(errors, n - 1);
      var e := errors[n - 1];
      forall sp | sp in SiblingMapUpTo(errors, n)
        ensures |SiblingMapUpTo(errors, n)[sp]| > 0
        ensures exists i :: 0 <= i < n && Counted(errors[i]) && errors[i].schemaPath == sp
        ensures sp !in SiblingMapUpTo(errors, n)[sp]
        ensures forall x :: x in SiblingMapUpTo(errors, n)[sp] ==> x in SiblingsOf(errors, sp)
      {
        if sp in m && !(Counted(e) && sp == e.schemaPath && SiblingsOf(errors, sp) != []) {
          assert SiblingMapUpTo(errors, n)[sp] == m[sp];
        } else {
          assert SiblingMapUpTo(errors, n)[sp] == Lookup(m, sp) + SiblingsOf(errors, sp);
          assert sp !in SiblingsOf(errors, sp);
        }
      }
    }
  }

  /**
   An error's path has a non-empty entry exactly when some other
   non-`errorMessage` error is its sibling (the test of line 231).
   */
  lemma SiblingsIff(errors: seq<Error>, i: nat)
    requires i < |errors| && Counted(errors[i])
    ensures HasSiblings(SiblingMap(errors), errors[i].schemaPath) <==>
      exists j :: 0 <= j < |errors| && Counted(errors[j]) && IsSibling(errors[i].schemaPath, errors[j].schemaPath)
  {
    var sp := errors[i].schemaPath;
    SiblingKeys(errors, |errors|, sp);
    SiblingEntries(errors, |errors|);
    if HasSiblings(SiblingMap(errors), sp) {
      var x := SiblingsOf(errors, sp)[0];
      assert x in SiblingsOf(errors, sp);
    }
    if exists j :: 0 <= j < |errors| && Counted(errors[j]) && IsSibling(sp, errors[j].schemaPath) {
      var j :| 0 <= j < |errors| && Counted(errors[j]) && IsSibling(sp, errors[j].schemaPath);
      assert errors[j].schemaPath in SiblingsOf(errors, sp);
    }
  }

  lemma {:induction false} SiblingKeys(errors: seq<Error>, n: nat, sp: string)
    requires n <= |errors|
    ensures sp in SiblingMapUpTo(errors, n) <==>
      SiblingsOf(errors, sp) != [] && exists i :: 0 <= i < n && Counted(errors[i]) && errors[i].schemaPath == sp
  {
    if n > 0 {
      SiblingKeys(errors, n - 1, sp);
    }
  }

  /**
   The test is on strings, not on path segments: a failure under property `ab`
   counts as a sibling of a `oneOf` under property `a`.
   */
  lemma SiblingPrefixCollision()
    ensures IsSibling("#/a/oneOf", "#/ab/type")
  {
    var sp := "#/a/oneOf";
    assert sp[3] == '/';
    assert LastIndexOf(sp, '/') == 3;
    SubstringSlice(sp, 0, 3);
  }
}
