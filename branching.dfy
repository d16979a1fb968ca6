/**
 `deleteErrorsForKey` (src/validator.ts:280-289) and `applyOneOfOrAnyOf`
 (src/validator.ts:201-278).

 For a branching keyword `kind` (`oneOf` or `anyOf`) every `kind` error is
 flagged. Each distinct `kind` schema path `t` then forms a group: the errors
 whose schema path strictly extends `t` as a string (nested groups share their
 errors). A group whose path has siblings is flagged whole. Otherwise its
 errors are split into branches by the path segment after `t`, each branch is
 scored by the number of distinct path segments after the branch, and every
 branch but the first with the lowest score (in `Object.keys` order) is flagged.

 Error records never change; the `__filter.delete` scratch is the array
 `deleted`, parallel to the errors, whose entries only ever go from false to true.
 */
module Branching {
  import opened ErrorModel
  import opened JsString
  import opened JsCollections
  import opened Siblings

  // ---------------------------------------------------------------------------
  // deleteErrorsForKey
  // ---------------------------------------------------------------------------

  method DeleteErrorsForKey(errors: seq<Error>, key: string, deleted: array<bool>)
    requires deleted.Length == |errors|
    requires key in {AllOf, If, Then, Else, AnyOf, OneOf}
    modifies deleted
    ensures forall p :: 0 <= p < |errors| ==> deleted[p] == (old(deleted[p]) || errors[p].keyword == key)
  {
    for p := 0 to |errors|
      invariant forall q :: 0 <= q < |errors| ==> deleted[q] == (old(deleted[q]) || (q < p && errors[q].keyword == key))
    {
      if errors[p].keyword == key {
        deleted[p] := true;
      }
    }
  }

  // ---------------------------------------------------------------------------
  // The groups of one branching keyword
  // ---------------------------------------------------------------------------

  /** The schema paths of the `kind` errors, in order (lines 208-210, before `uniq`). */
  function KindPaths(errors: seq<Error>, kind: string): (r: seq<string>)
    ensures forall x :: x in r <==> exists p :: 0 <= p < |errors| && errors[p].keyword == kind && errors[p].schemaPath == x
  {
    if errors == [] then []
    else
      var init, e := errors[..|errors| - 1], errors[|errors| - 1];
      assert forall p :: 0 <= p < |init| ==> init[p] == errors[p];
      KindPaths(init, kind) + (if e.keyword == kind then [e.schemaPath] else [])
  }

  /** `typeSchemaPaths`: each `kind` path once, in order of first occurrence. */
  function TypeSchemaPaths(errors: seq<Error>, kind: string): seq<string>
  {
    Dedup(KindPaths(errors, kind))
  }

  /** The error with schema path `sp` belongs to the group of `t` (line 216). */
  predicate InGroup(t: string, sp: string)
  {
    sp != t && t <= sp
  }

  predicate ValidPositions(ps: seq<nat>, n: nat)
  {
    forall j :: 0 <= j < |ps| ==> ps[j] < n
  }

  /** The positions, below `n` and in order, of the errors in the group of `t`. */
  function Members(errors: seq<Error>, t: string, n: nat): (ms: seq<nat>)
    requires n <= |errors|
    ensures forall p: nat :: p in ms <==> p < n && InGroup(t, errors[p].schemaPath)
    ensures ValidPositions(ms, n)
  {
    if n == 0 then [] else Members(errors, t, n - 1) + (if InGroup(t, errors[n - 1].schemaPath) then [n - 1] else [])
  }

  /**
   Members are listed in ascending position, the order in which lines 214-227
   push them; this is the order in which their branch keys are first inserted.
   */
  lemma {:induction false} MembersAscending(errors: seq<Error>, t: string, n: nat)
    requires n <= |errors|
    ensures forall i, j :: 0 <= i < j < |Members(errors, t, n)| ==> Members(errors, t, n)[i] < Members(errors, t, n)[j]
  {
    if n > 0 {
      MembersAscending(errors, t, n - 1);
      var init := Members(errors, t, n - 1);
      var ms := Members(errors, t, n);
      assert ms == init + (if InGroup(t, errors[n - 1].schemaPath) then [n - 1] else []);
      forall i, j | 0 <= i < j < |ms| ensures ms[i] < ms[j] {
        if j >= |init| {
          assert ms[j] == n - 1 && ms[i] == init[i];
          assert ValidPositions(init, n - 1);
          assert init[i] < n - 1;
        } else {
          assert ms[i] == init[i] && ms[j] == init[j];
          assert init[i] < init[j];
        }
      }
    }
  }

  /** The group of `t`: `typeSchemaPathToErrorsMap[t]`. */
  function Group(errors: seq<Error>, t: string): (ms: seq<nat>)
    ensures forall p: nat :: p in ms <==> p < |errors| && InGroup(t, errors[p].schemaPath)
    ensures ValidPositions(ms, |errors|)
  {
    Members(errors, t, |errors|)
  }

  /** `sp.substring(t.length + 1, sp.indexOf("/", t.length + 1))`: the branch of `sp` in the group of `t` (lines 238-241). */
  function BranchKey(t: string, sp: string): string
  {
    Substring(sp, |t| + 1, IndexOf(sp, '/', |t| + 1))
  }

  /** The path segment after `t/key/` (lines 249-255). */
  function Segment(t: string, key: string, sp: string): string
  {
    var w := |t + "/" + key + "/"|;
    Substring(sp, w, IndexOf(sp, '/', w))
  }

  /** The branch keys of the errors at positions `ps`, in order. */
  function BranchKeys(errors: seq<Error>, t: string, ps: seq<nat>): (r: seq<string>)
    requires ValidPositions(ps, |errors|)
    ensures |r| == |ps|
  {
    seq(|ps|, j requires 0 <= j < |ps| => BranchKey(t, errors[ps[j]].schemaPath))
  }

  /** The positions among `ps` whose branch key is `key`: `typeErrorsByIndex[key]`. */
  function BranchPositions(errors: seq<Error>, t: string, ps: seq<nat>, key: string): (r: seq<nat>)
    requires ValidPositions(ps, |errors|)
    ensures forall p: nat :: p in r <==> p in ps && BranchKey(t, errors[p].schemaPath) == key
    ensures ValidPositions(r, |errors|)
  {
    if ps == [] then []
    else
      var init, p := ps[..|ps| - 1], ps[|ps| - 1];
      assert forall q :: q in ps <==> q in init || q == p by {
        assert ps == init + [p];
      }
      BranchPositions(errors, t, init, key) + (if BranchKey(t, errors[p].schemaPath) == key then [p] else [])
  }

  /** The segments of the errors at positions `ps` in branch `key`, in order. */
  function Segments(errors: seq<Error>, t: string, key: string, ps: seq<nat>): (r: seq<string>)
    requires ValidPositions(ps, |errors|)
    ensures |r| == |ps|
  {
    seq(|ps|, j requires 0 <= j < |ps| => Segment(t, key, errors[ps[j]].schemaPath))
  }

  /** A branch's score: how many distinct segments its errors fail on. */
  function SegmentCount(errors: seq<Error>, t: string, ms: seq<nat>, key: string): nat
    requires ValidPositions(ms, |errors|)
  {
    |Dedup(Segments(errors, t, key, BranchPositions(errors, t, ms, key)))|
  }

  /** The group's branch keys, in the order `Object.keys` lists them. */
  function BranchOrder(errors: seq<Error>, t: string, ms: seq<nat>): seq<string>
    requires ValidPositions(ms, |errors|)
  {
    ObjectKeys(Dedup(BranchKeys(errors, t, ms)))
  }

  function Counts(errors: seq<Error>, t: string, ms: seq<nat>, keys: seq<string>): (cs: seq<nat>)
    requires ValidPositions(ms, |errors|)
    ensures |cs| == |keys|
  {
    seq(|keys|, j requires 0 <= j < |keys| => SegmentCount(errors, t, ms, keys[j]))
  }

  /** The running minimum over the first `n` scores, replaced only on a strictly smaller one. */
  function FirstMinimum(cs: seq<nat>, n: nat): (k: nat)
    requires 1 <= n <= |cs|
    ensures k < n
  {
    if n == 1 then 0
    else
      var b := FirstMinimum(cs, n - 1);
      if cs[n - 1] < cs[b] then n - 1 else b
  }

  /** The branch a group without siblings keeps. */
  function KeptBranch(errors: seq<Error>, t: string): string
  {
    var ms := Group(errors, t);
    var keys := BranchOrder(errors, t, ms);
    if keys == [] then "" else keys[FirstMinimum(Counts(errors, t, ms, keys), |keys|)]
  }

  /** The group of `t` flags the error at position `p`. */
  predicate DroppedInGroup(errors: seq<Error>, siblings: map<string, seq<string>>, t: string, p: nat)
    requires p < |errors|
  {
    InGroup(t, errors[p].schemaPath)
    && (HasSiblings(siblings, t) || BranchKey(t, errors[p].schemaPath) != KeptBranch(errors, t))
  }

  /** `applyOneOfOrAnyOf(errors, kind, siblings)` flags the error at position `p`. */
  predicate DroppedFor(errors: seq<Error>, kind: string, siblings: map<string, seq<string>>, p: nat)
    requires p < |errors|
  {
    errors[p].keyword == kind
    || exists t :: t in TypeSchemaPaths(errors, kind) && DroppedInGroup(errors, siblings, t, p)
  }

  // ---------------------------------------------------------------------------
  // applyOneOfOrAnyOf, step by step
  // ---------------------------------------------------------------------------

  /** The dictionary entry for `t` holds the group of `t` among the first `n` errors. */
  predicate GroupEntry(groups: map<string, seq<nat>>, errors: seq<Error>, t: string, n: nat)
    requires n <= |errors|
  {
    (t in groups <==> Members(errors, t, n) != [])
    && (t in groups ==> groups[t] == Members(errors, t, n))
  }

  /** One pass of the inner loop of lines 215-226 moves the entry of `typeSchemaPaths[g]` on to `i + 1` and leaves the others alone. */
  lemma GroupStep(errors: seq<Error>, typeSchemaPaths: seq<string>, g: nat, i: nat,
                  before: map<string, seq<nat>>, after: map<string, seq<nat>>)
    requires NoDuplicates(typeSchemaPaths) && g < |typeSchemaPaths| && i < |errors|
    requires forall h :: 0 <= h < g ==> GroupEntry(before, errors, typeSchemaPaths[h], i + 1)
    requires forall h :: g <= h < |typeSchemaPaths| ==> GroupEntry(before, errors, typeSchemaPaths[h], i)
    requires forall u :: u != typeSchemaPaths[g] ==> (u in after <==> u in before) && (u in after ==> after[u] == before[u])
    requires var t := typeSchemaPaths[g];
             if InGroup(t, errors[i].schemaPath)
             then t in after && after[t] == (if t in before then before[t] else []) + [i]
             else (t in after <==> t in before) && (t in after ==> after[t] == before[t])
    ensures forall h :: 0 <= h <= g ==> GroupEntry(after, errors, typeSchemaPaths[h], i + 1)
    ensures forall h :: g < h < |typeSchemaPaths| ==> GroupEntry(after, errors, typeSchemaPaths[h], i)
  {
    var t := typeSchemaPaths[g];
    assert Members(errors, t, i + 1) == Members(errors, t, i) + (if InGroup(t, errors[i].schemaPath) then [i] else []);
    assert GroupEntry(after, errors, t, i + 1);
    forall h | 0 <= h < |typeSchemaPaths| && h != g
      ensures typeSchemaPaths[h] in after <==> typeSchemaPaths[h] in before
      ensures typeSchemaPaths[h] in after ==> after[typeSchemaPaths[h]] == before[typeSchemaPaths[h]]
    {
      assert typeSchemaPaths[h] != t;
    }
  }

  /** Lines 215-226: the inner `forEach`, which files the error at position `i` under every path it strictly extends. */
  method AddToGroups(errors: seq<Error>, i: nat, typeSchemaPaths: seq<string>, groups: map<string, seq<nat>>)
    returns (groups': map<string, seq<nat>>)
    requires NoDuplicates(typeSchemaPaths) && i < |errors|
    requires forall t :: t in groups ==> t in typeSchemaPaths
    requires forall h :: 0 <= h < |typeSchemaPaths| ==> GroupEntry(groups, errors, typeSchemaPaths[h], i)
    ensures forall t :: t in groups' ==> t in typeSchemaPaths
    ensures forall h :: 0 <= h < |typeSchemaPaths| ==> GroupEntry(groups', errors, typeSchemaPaths[h], i + 1)
  {
    var error := errors[i];
    groups' := groups;
    for g := 0 to |typeSchemaPaths|
      invariant forall t :: t in groups' ==> t in typeSchemaPaths
      invariant forall h :: 0 <= h < g ==> GroupEntry(groups', errors, typeSchemaPaths[h], i + 1)
      invariant forall h :: g <= h < |typeSchemaPaths| ==> GroupEntry(groups', errors, typeSchemaPaths[h], i)
    {
      var typeSp := typeSchemaPaths[g];
      ghost var before := groups';
      if error.schemaPath != typeSp && typeSp <= error.schemaPath {
        if typeSp !in groups' {
          groups' := groups'[typeSp := []];
        }
        groups' := groups'[typeSp := groups'[typeSp] + [i]];
      }
      GroupStep(errors, typeSchemaPaths, g, i, before, groups');
    }
  }

  /** Lines 212-227: the dictionary from each `kind` path to the positions of its group. */
  method GroupByTypePath(errors: seq<Error>, typeSchemaPaths: seq<string>) returns (groups: map<string, seq<nat>>)
    requires NoDuplicates(typeSchemaPaths)
    ensures forall t :: t in groups <==> t in typeSchemaPaths && Group(errors, t) != []
    ensures forall t :: t in groups ==> groups[t] == Group(errors, t)
  {
    groups := map[];
    for i := 0 to |errors|
      invariant forall t :: t in groups ==> t in typeSchemaPaths
      invariant forall h :: 0 <= h < |typeSchemaPaths| ==> GroupEntry(groups, errors, typeSchemaPaths[h], i)
    {
      groups := AddToGroups(errors, i, typeSchemaPaths, groups);
    }
  }

  lemma BranchKeysSnoc(errors: seq<Error>, t: string, ps: seq<nat>, p: nat)
    requires ValidPositions(ps, |errors|) && p < |errors|
    ensures ValidPositions(ps + [p], |errors|)
    ensures BranchKeys(errors, t, ps + [p]) == BranchKeys(errors, t, ps) + [BranchKey(t, errors[p].schemaPath)]
  {
  }

  lemma BranchPositionsSnoc(errors: seq<Error>, t: string, ps: seq<nat>, p: nat, key: string)
    requires ValidPositions(ps, |errors|) && p < |errors|
    ensures ValidPositions(ps + [p], |errors|)
    ensures BranchPositions(errors, t, ps + [p], key)
         == BranchPositions(errors, t, ps, key) + (if BranchKey(t, errors[p].schemaPath) == key then [p] else [])
  {
    assert (ps + [p])[..|ps|] == ps;
  }

  /** A key no position in `ps` has owns no positions. */
  lemma BranchPositionsEmpty(errors: seq<Error>, t: string, ps: seq<nat>, key: string)
    requires ValidPositions(ps, |errors|)
    requires forall j :: 0 <= j < |ps| ==> BranchKey(t, errors[ps[j]].schemaPath) != key
    ensures BranchPositions(errors, t, ps, key) == []
  {
  }

  /** `typeErrorsByIndex` and its key order hold the positions `ps`, branch by branch. */
  ghost predicate Indexed(errors: seq<Error>, t: string, ps: seq<nat>, byIndex: map<string, seq<nat>>, inserted: seq<string>)
    requires ValidPositions(ps, |errors|)
  {
    && inserted == Dedup(BranchKeys(errors, t, ps))
    && (forall k :: k in byIndex <==> k in inserted)
    && (forall k :: k in byIndex ==> byIndex[k] == BranchPositions(errors, t, ps, k))
  }

  /** Adding the error at position `p` to its branch keeps `typeErrorsByIndex` and its key order in step with the functions. */
  lemma IndexStep(errors: seq<Error>, t: string, ps: seq<nat>, p: nat, ps': seq<nat>,
                  before: map<string, seq<nat>>, inserted: seq<string>,
                  after: map<string, seq<nat>>, inserted': seq<string>)
    requires ValidPositions(ps, |errors|) && p < |errors| && ps' == ps + [p]
    requires Indexed(errors, t, ps, before, inserted)
    requires var key := BranchKey(t, errors[p].schemaPath);
             && inserted' == (if key in before then inserted else inserted + [key])
             && after == before[key := (if key in before then before[key] else []) + [p]]
    ensures ValidPositions(ps', |errors|)
    ensures Indexed(errors, t, ps', after, inserted')
  {
    var key := BranchKey(t, errors[p].schemaPath);
    BranchKeysSnoc(errors, t, ps, p);
    DedupSnoc(BranchKeys(errors, t, ps), key);
    if key !in before {
      forall j | 0 <= j < |ps|
        ensures BranchKey(t, errors[ps[j]].schemaPath) != key
      {
        assert BranchKeys(errors, t, ps)[j] == BranchKey(t, errors[ps[j]].schemaPath);
      }
      BranchPositionsEmpty(errors, t, ps, key);
    }
    forall k | k in after
      ensures after[k] == BranchPositions(errors, t, ps', k)
    {
      BranchPositionsSnoc(errors, t, ps, p, k);
    }
  }

  lemma SliceSnoc(ms: seq<nat>, j: nat)
    requires j < |ms|
    ensures ms[..j + 1] == ms[..j] + [ms[j]]
  {
  }

  lemma ValidPrefix(ms: seq<nat>, j: nat, n: nat)
    requires j <= |ms| && ValidPositions(ms, n)
    ensures ValidPositions(ms[..j], n)
  {
  }

  /** Lines 237-246: the `forEach` callback, which files the member at `ms[j]` under its branch key. */
  method AddToBranch(errors: seq<Error>, t: string, ms: seq<nat>, j: nat,
                     byIndex: map<string, seq<nat>>, inserted: seq<string>)
    returns (byIndex': map<string, seq<nat>>, inserted': seq<string>)
    requires ValidPositions(ms, |errors|) && j < |ms|
    requires ValidPositions(ms[..j], |errors|) && Indexed(errors, t, ms[..j], byIndex, inserted)
    ensures ValidPositions(ms[..j + 1], |errors|) && Indexed(errors, t, ms[..j + 1], byIndex', inserted')
  {
    var p := ms[j];
    SliceSnoc(ms, j);
    var index := Substring(errors[p].schemaPath, |t| + 1, IndexOf(errors[p].schemaPath, '/', |t| + 1));
    byIndex', inserted' := byIndex, inserted;
    if index !in byIndex' {
      byIndex' := byIndex'[index := []];
      inserted' := inserted' + [index];
    }
    byIndex' := byIndex'[index := byIndex'[index] + [p]];
    IndexStep(errors, t, ms[..j], p, ms[..j + 1], byIndex, inserted, byIndex', inserted');
  }

  /** Lines 236-246: the group's positions by branch key, and the order the keys were inserted in. */
  method IndexBranches(errors: seq<Error>, t: string, ms: seq<nat>)
    returns (byIndex: map<string, seq<nat>>, inserted: seq<string>)
    requires ValidPositions(ms, |errors|)
    ensures inserted == Dedup(BranchKeys(errors, t, ms))
    ensures forall k :: k in byIndex <==> k in inserted
    ensures forall k :: k in byIndex ==> byIndex[k] == BranchPositions(errors, t, ms, k)
  {
    byIndex, inserted := map[], [];
    ValidPrefix(ms, 0, |errors|);
    for j := 0 to |ms|
      invariant ValidPositions(ms[..j], |errors|)
      invariant Indexed(errors, t, ms[..j], byIndex, inserted)
    {
      byIndex, inserted := AddToBranch(errors, t, ms, j, byIndex, inserted);
    }
    assert ms[..|ms|] == ms;
  }

  /** Lines 247-258: for each branch, its distinct segments (`uniq` of the mapped paths). */
  method DistinctSegments(errors: seq<Error>, t: string, ms: seq<nat>, byIndex: map<string, seq<nat>>, keys: seq<string>)
    returns (pathsByIndex: map<string, seq<string>>)
    requires ValidPositions(ms, |errors|)
    requires forall k :: k in keys ==> k in byIndex && byIndex[k] == BranchPositions(errors, t, ms, k)
    ensures forall k :: k in pathsByIndex <==> k in keys
    ensures forall k :: k in pathsByIndex ==> |pathsByIndex[k]| == SegmentCount(errors, t, ms, k)
  {
    pathsByIndex := map[];
    for j := 0 to |keys|
      invariant forall k :: k in pathsByIndex <==> k in keys[..j]
      invariant forall k :: k in pathsByIndex ==> |pathsByIndex[k]| == SegmentCount(errors, t, ms, k)
    {
      var index := keys[j];
      assert keys[..j + 1] == keys[..j] + [index];
      pathsByIndex := pathsByIndex[index := Dedup(Segments(errors, t, index, byIndex[index]))];
    }
    assert keys[..|keys|] == keys;
  }

  /** Each key's score as recorded in the dictionary. */
  function Scores(keys: seq<string>, pathsByIndex: map<string, seq<string>>): (cs: seq<nat>)
    ensures |cs| == |keys|
  {
    seq(|keys|, j requires 0 <= j < |keys| => if keys[j] in pathsByIndex then |pathsByIndex[keys[j]]| else 0)
  }

  /** Lines 259-268: the running minimum, replaced only on a strictly smaller score. */
  method SelectBranch(allIndexes: seq<string>, pathsByIndex: map<string, seq<string>>)
    returns (indexWithMinimumErrors: string)
    requires |allIndexes| > 0
    requires forall k :: k in allIndexes ==> k in pathsByIndex
    ensures indexWithMinimumErrors == allIndexes[FirstMinimum(Scores(allIndexes, pathsByIndex), |allIndexes|)]
  {
    ghost var cs := Scores(allIndexes, pathsByIndex);
    indexWithMinimumErrors := allIndexes[0];
    ghost var best := 0;
    for j := 0 to |allIndexes|
      invariant best == FirstMinimum(cs, if j == 0 then 1 else j)
      invariant indexWithMinimumErrors == allIndexes[best]
    {
      var i := allIndexes[j];
      if |pathsByIndex[i]| < |pathsByIndex[indexWithMinimumErrors]| {
        indexWithMinimumErrors := i;
        best := j;
      }
    }
  }

  /** The error with schema path `sp` lies in one of the branches `keys` other than `kept`. */
  predicate Other(t: string, sp: string, keys: seq<string>, kept: string)
  {
    BranchKey(t, sp) in keys && BranchKey(t, sp) != kept
  }

  /** Lines 269-275: flag every error of every branch but the kept one. */
  method DeleteOtherBranches(errors: seq<Error>, t: string, ms: seq<nat>, allIndexes: seq<string>,
                             byIndex: map<string, seq<nat>>, kept: string, deleted: array<bool>)
    requires deleted.Length == |errors|
    requires ValidPositions(ms, |errors|)
    requires forall k :: k in allIndexes ==> k in byIndex && byIndex[k] == BranchPositions(errors, t, ms, k)
    modifies deleted
    ensures forall p :: 0 <= p < |errors| ==>
              deleted[p] == (old(deleted[p]) || (p in ms && Other(t, errors[p].schemaPath, allIndexes, kept)))
  {
    for j := 0 to |allIndexes|
      invariant forall p :: 0 <= p < |errors| ==>
                  deleted[p] == (old(deleted[p]) || (p in ms && Other(t, errors[p].schemaPath, allIndexes[..j], kept)))
    {
      var i := allIndexes[j];
      assert allIndexes[..j + 1] == allIndexes[..j] + [i];
      if i != kept {
        var branch := byIndex[i];
        for q := 0 to |branch|
          invariant forall p :: 0 <= p < |errors| ==>
                      deleted[p] == (old(deleted[p]) || (p in ms && Other(t, errors[p].schemaPath, allIndexes[..j], kept)) || p in branch[..q])
        {
          assert branch[..q + 1] == branch[..q] + [branch[q]];
          deleted[branch[q]] := true;
        }
        assert branch[..|branch|] == branch;
      }
    }
    assert allIndexes[..|allIndexes|] == allIndexes;
  }

  /** Every member's branch key is among the keys `Object.keys` lists for the group. */
  lemma BranchKeyListed(errors: seq<Error>, t: string, ms: seq<nat>, p: nat)
    requires ValidPositions(ms, |errors|) && p in ms
    ensures BranchKey(t, errors[p].schemaPath) in BranchOrder(errors, t, ms)
  {
    var j :| 0 <= j < |ms| && ms[j] == p;
    var bks := BranchKeys(errors, t, ms);
    assert bks[j] == BranchKey(t, errors[p].schemaPath);
    assert bks[j] in Dedup(bks);
    ObjectKeysElements(Dedup(bks));
  }

  /** Lines 231-234: a group whose path has siblings is flagged whole. */
  method DeleteGroup(ms: seq<nat>, deleted: array<bool>)
    requires ValidPositions(ms, deleted.Length)
    modifies deleted
    ensures forall p :: 0 <= p < deleted.Length ==> deleted[p] == (old(deleted[p]) || p in ms)
  {
    for q := 0 to |ms|
      invariant forall p :: 0 <= p < deleted.Length ==> deleted[p] == (old(deleted[p]) || p in ms[..q])
    {
      assert ms[..q + 1] == ms[..q] + [ms[q]];
      deleted[ms[q]] := true;
    }
    assert ms[..|ms|] == ms;
  }

  /** The key order and scores the method computes are those `KeptBranch` is defined by. */
  lemma KeptBranchComputed(errors: seq<Error>, t: string, ms: seq<nat>, inserted: seq<string>,
                           pathsByIndex: map<string, seq<string>>)
    requires ms == Group(errors, t) && ms != []
    requires inserted == Dedup(BranchKeys(errors, t, ms))
    requires forall k :: k in pathsByIndex <==> k in ObjectKeys(inserted)
    requires forall k :: k in pathsByIndex ==> |pathsByIndex[k]| == SegmentCount(errors, t, ms, k)
    ensures ObjectKeys(ObjectKeys(inserted)) == BranchOrder(errors, t, ms) != []
    ensures forall k :: k in BranchOrder(errors, t, ms) ==> k in pathsByIndex
    ensures Scores(BranchOrder(errors, t, ms), pathsByIndex) == Counts(errors, t, ms, BranchOrder(errors, t, ms))
    ensures KeptBranch(errors, t) == BranchOrder(errors, t, ms)[FirstMinimum(Scores(BranchOrder(errors, t, ms), pathsByIndex), |BranchOrder(errors, t, ms)|)]
  {
    ObjectKeysIdempotent(inserted);
    BranchKeyListed(errors, t, ms, ms[0]);
    var order := BranchOrder(errors, t, ms);
    assert Scores(order, pathsByIndex) == Counts(errors, t, ms, order);
  }

  lemma MembersListed(errors: seq<Error>, t: string, ms: seq<nat>)
    requires ValidPositions(ms, |errors|)
    ensures forall p :: p in ms ==> BranchKey(t, errors[p].schemaPath) in BranchOrder(errors, t, ms)
  {
    forall p | p in ms
      ensures BranchKey(t, errors[p].schemaPath) in BranchOrder(errors, t, ms)
    {
      BranchKeyListed(errors, t, ms, p);
    }
  }

  /** Lines 235-276: a group without siblings keeps only the branch with the fewest distinct segments. */
  method DeleteLosingBranches(errors: seq<Error>, t: string, ms: seq<nat>, deleted: array<bool>)
    requires deleted.Length == |errors|
    requires ms == Group(errors, t) && ms != []
    modifies deleted
    ensures forall p :: 0 <= p < |errors| ==>
              deleted[p] == (old(deleted[p]) || (p in ms && BranchKey(t, errors[p].schemaPath) != KeptBranch(errors, t)))
  {
    var byIndex, inserted := IndexBranches(errors, t, ms);
    var keys := ObjectKeys(inserted);
    ObjectKeysElements(inserted);
    var pathsByIndex := DistinctSegments(errors, t, ms, byIndex, keys);
    var allIndexes := ObjectKeys(keys);
    KeptBranchComputed(errors, t, ms, inserted, pathsByIndex);
    MembersListed(errors, t, ms);
    var kept := SelectBranch(allIndexes, pathsByIndex);
    DeleteOtherBranches(errors, t, ms, allIndexes, byIndex, kept, deleted);
  }

  /** Lines 229-277: the handling of one group, with its siblings or by its branches. */
  method ApplyGroup(errors: seq<Error>, t: string, ms: seq<nat>, siblings: map<string, seq<string>>, deleted: array<bool>)
    requires deleted.Length == |errors|
    requires ms == Group(errors, t) && ms != []
    modifies deleted
    ensures forall p :: 0 <= p < |errors| ==> deleted[p] == (old(deleted[p]) || DroppedInGroup(errors, siblings, t, p))
  {
    if t in siblings && |siblings[t]| > 0 {
      DeleteGroup(ms, deleted);
    } else {
      DeleteLosingBranches(errors, t, ms, deleted);
    }
  }

  /** Some path among the first `g` of `ts` has a group that flags position `p`. */
  predicate DroppedByFirst(errors: seq<Error>, siblings: map<string, seq<string>>, ts: seq<string>, g: nat, p: nat)
    requires g <= |ts| && p < |errors|
  {
    exists t :: t in ts[..g] && DroppedInGroup(errors, siblings, t, p)
  }

  lemma DroppedByPrefix(errors: seq<Error>, siblings: map<string, seq<string>>, ts: seq<string>, g: nat, p: nat)
    requires g < |ts| && p < |errors|
    ensures DroppedByFirst(errors, siblings, ts, g + 1, p)
        <==> DroppedByFirst(errors, siblings, ts, g, p) || DroppedInGroup(errors, siblings, ts[g], p)
  {
    assert ts[..g + 1] == ts[..g] + [ts[g]];
  }

  /** `applyOneOfOrAnyOf(errors, type, siblings)` (lines 201-278). */
  method ApplyOneOfOrAnyOf(errors: seq<Error>, kind: string, siblings: map<string, seq<string>>, deleted: array<bool>)
    requires deleted.Length == |errors|
    requires kind == OneOf || kind == AnyOf
    modifies deleted
    ensures forall p :: 0 <= p < |errors| ==> deleted[p] == (old(deleted[p]) || DroppedFor(errors, kind, siblings, p))
  {
    DeleteErrorsForKey(errors, kind, deleted);
    var typeSchemaPaths := TypeSchemaPaths(errors, kind);
    var groups := GroupByTypePath(errors, typeSchemaPaths);
    for g := 0 to |typeSchemaPaths|
      invariant forall p :: 0 <= p < |errors| ==>
                  deleted[p] == (old(deleted[p]) || errors[p].keyword == kind || DroppedByFirst(errors, siblings, typeSchemaPaths, g, p))
    {
      var typeSp := typeSchemaPaths[g];
      if typeSp in groups {
        ApplyGroup(errors, typeSp, groups[typeSp], siblings, deleted);
      } else {
        assert forall p :: 0 <= p < |errors| ==> !DroppedInGroup(errors, siblings, typeSp, p);
      }
      forall p | 0 <= p < |errors| {
        DroppedByPrefix(errors, siblings, typeSchemaPaths, g, p);
      }
    }
    assert typeSchemaPaths[..|typeSchemaPaths|] == typeSchemaPaths;
  }

  // ---------------------------------------------------------------------------
  // What the selection promises
  // ---------------------------------------------------------------------------

  /** The running minimum is a least score, and every score before it is strictly larger. */
  lemma {:induction false} FirstMinimumIsLeast(cs: seq<nat>, n: nat)
    requires 1 <= n <= |cs|
    ensures forall j :: 0 <= j < n ==> cs[FirstMinimum(cs, n)] <= cs[j]
    ensures forall j :: 0 <= j < FirstMinimum(cs, n) ==> cs[FirstMinimum(cs, n)] < cs[j]
  {
    if n > 1 {
      FirstMinimumIsLeast(cs, n - 1);
    }
  }

  /** The branches `Object.keys` lists for a group are exactly the branches of its members. */
  lemma BranchOrderCoversGroup(errors: seq<Error>, t: string, ms: seq<nat>)
    requires ValidPositions(ms, |errors|)
    ensures forall k :: k in BranchOrder(errors, t, ms) <==> exists p :: p in ms && BranchKey(t, errors[p].schemaPath) == k
  {
    var bks := BranchKeys(errors, t, ms);
    ObjectKeysElements(Dedup(bks));
    forall k | k in BranchOrder(errors, t, ms)
      ensures exists p :: p in ms && BranchKey(t, errors[p].schemaPath) == k
    {
      var j :| 0 <= j < |bks| && bks[j] == k;
      assert ms[j] in ms;
    }
    MembersListed(errors, t, ms);
  }

  /** The kept branch is the branch of some member of the group. */
  lemma KeptBranchIsMember(errors: seq<Error>, t: string)
    requires Group(errors, t) != []
    ensures exists p :: p in Group(errors, t) && BranchKey(t, errors[p].schemaPath) == KeptBranch(errors, t)
  {
    var ms := Group(errors, t);
    var order := BranchOrder(errors, t, ms);
    BranchKeyListed(errors, t, ms, ms[0]);
    var i := FirstMinimum(Counts(errors, t, ms, order), |order|);
    assert KeptBranch(errors, t) == order[i] && order[i] in order;
    BranchOrderCoversGroup(errors, t, ms);
  }

  /**
   The kept branch is a branch of the group, no branch has fewer distinct
   segments, and every branch listed before it has strictly more.
   */
  lemma KeptBranchIsFewestSegments(errors: seq<Error>, t: string)
    requires Group(errors, t) != []
    ensures var ms := Group(errors, t);
            var order := BranchOrder(errors, t, ms);
            var kept := KeptBranch(errors, t);
            && (exists p :: p in ms && BranchKey(t, errors[p].schemaPath) == kept)
            && (forall k :: k in order ==> SegmentCount(errors, t, ms, kept) <= SegmentCount(errors, t, ms, k))
            && (exists i :: 0 <= i < |order| && order[i] == kept &&
                  forall j :: 0 <= j < i ==> SegmentCount(errors, t, ms, kept) < SegmentCount(errors, t, ms, order[j]))
  {
    KeptBranchIsMember(errors, t);
    var ms := Group(errors, t);
    var order := BranchOrder(errors, t, ms);
    BranchKeyListed(errors, t, ms, ms[0]);
    var cs := Counts(errors, t, ms, order);
    var i := FirstMinimum(cs, |order|);
    assert KeptBranch(errors, t) == order[i];
    FirstMinimumIsLeast(cs, |order|);
    forall k | k in order
      ensures SegmentCount(errors, t, ms, order[i]) <= SegmentCount(errors, t, ms, k)
    {
      var j :| 0 <= j < |order| && order[j] == k;
      assert cs[j] == SegmentCount(errors, t, ms, k);
    }
    forall j | 0 <= j < i
      ensures SegmentCount(errors, t, ms, order[i]) < SegmentCount(errors, t, ms, order[j])
    {
      assert cs[j] == SegmentCount(errors, t, ms, order[j]);
    }
  }

  /**
   In a group without siblings exactly one branch survives: some member stays,
   and all members that stay are in the same branch.
   */
  lemma OneBranchSurvives(errors: seq<Error>, siblings: map<string, seq<string>>, t: string)
    requires Group(errors, t) != [] && !HasSiblings(siblings, t)
    ensures exists p :: 0 <= p < |errors| && InGroup(t, errors[p].schemaPath) && !DroppedInGroup(errors, siblings, t, p)
    ensures forall p, q :: 0 <= p < |errors| && 0 <= q < |errors| &&
                           InGroup(t, errors[p].schemaPath) && !DroppedInGroup(errors, siblings, t, p) &&
                           InGroup(t, errors[q].schemaPath) && !DroppedInGroup(errors, siblings, t, q) ==>
                           BranchKey(t, errors[p].schemaPath) == BranchKey(t, errors[q].schemaPath)
  {
    KeptBranchIsFewestSegments(errors, t);
    var p :| p in Group(errors, t) && BranchKey(t, errors[p].schemaPath) == KeptBranch(errors, t);
    assert !DroppedInGroup(errors, siblings, t, p);
  }

  /**
   When every branch key is an array index (the usual `oneOf/0`, `oneOf/1`, ...),
   a tie on the score goes to the numerically lowest branch.
   */
  lemma TieGoesToLowestIndex(errors: seq<Error>, t: string, k: string)
    requires Group(errors, t) != []
    requires forall b :: b in BranchOrder(errors, t, Group(errors, t)) ==> IsArrayIndex(b)
    requires k in BranchOrder(errors, t, Group(errors, t))
    requires SegmentCount(errors, t, Group(errors, t), k) == SegmentCount(errors, t, Group(errors, t), KeptBranch(errors, t))
    ensures DecimalValue(KeptBranch(errors, t)) <= DecimalValue(k)
  {
    var ms := Group(errors, t);
    var order := BranchOrder(errors, t, ms);
    var cs := Counts(errors, t, ms, order);
    var j :| 0 <= j < |order| && order[j] == k;
    var i := FirstMinimum(cs, |order|);
    assert KeptBranch(errors, t) == order[i];
    assert cs[i] == cs[j];
    TieAt(cs, order, i, j, Dedup(BranchKeys(errors, t, ms)));
  }

  /** Among the `Object.keys` of `inserted`, the first least score is at an index no larger than any tied array-index key. */
  lemma TieAt(cs: seq<nat>, order: seq<string>, i: nat, j: nat, inserted: seq<string>)
    requires 1 <= |order| == |cs| && j < |order|
    requires i == FirstMinimum(cs, |order|) && cs[i] == cs[j]
    requires order == ObjectKeys(inserted) && IsArrayIndex(order[j])
    ensures DecimalValue(order[i]) <= DecimalValue(order[j])
  {
    FirstMinimumIsLeast(cs, |order|);
    if j < i {
      assert false;
    } else if i < j {
      ObjectKeysOrderAt(inserted, i, j);
    }
  }

  lemma ObjectKeysOrderAt(inserted: seq<string>, i: nat, j: nat)
    requires i < j < |ObjectKeys(inserted)| && IsArrayIndex(ObjectKeys(inserted)[j])
    ensures DecimalValue(ObjectKeys(inserted)[i]) <= DecimalValue(ObjectKeys(inserted)[j])
  {
    ObjectKeysOrder(inserted);
  }
}
