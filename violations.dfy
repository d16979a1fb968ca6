/**
 Turning one error into a violation: the instance path becomes the dot-joined
 list of its tokens, the maximal runs of characters other than `/` and `\`
 (the regular expression `/([^\\/])+/g`); the message is kept; the remaining
 fields other than the keyword and the schema path become the context.
 */
module Violations {
  import opened ErrorModel

  predicate IsSeparator(c: char) { c == '/' || c == '\\' }

  predicate NoSeparator(s: string) { forall i :: 0 <= i < |s| ==> !IsSeparator(s[i]) }

  /** The leading run of non-separator characters of `s`. */
  function LeadingRun(s: string): (r: string)
    ensures r <= s && NoSeparator(r)
    ensures |r| < |s| ==> IsSeparator(s[|r|])
  {
    if s == [] || IsSeparator(s[0]) then [] else [s[0]] + LeadingRun(s[1..])
  }

  /** `s` with every separator removed. */
  function WithoutSeparators(s: string): string
  {
    if s == [] then [] else (if IsSeparator(s[0]) then [] else [s[0]]) + WithoutSeparators(s[1..])
  }

  function Concat(ts: seq<string>): string
  {
    if ts == [] then [] else ts[0] + Concat(ts[1..])
  }

  /**
   The matches of `/([^\\/])+/g` in `s`: non-empty, separator-free runs that
   together hold every non-separator character of `s`, in order.
   */
  function Tokens(s: string): (ts: seq<string>)
    ensures forall j :: 0 <= j < |ts| ==> |ts[j]| > 0 && NoSeparator(ts[j])
    ensures Concat(ts) == WithoutSeparators(s)
    decreases |s|
  {
    if s == [] then []
    else if IsSeparator(s[0]) then Tokens(s[1..])
    else
      var run := LeadingRun(s);
      assert s == run + s[|run|..];
      WithoutSeparatorsAppend(run, s[|run|..]);
      [run] + Tokens(s[|run|..])
  }

  lemma {:induction false} WithoutSeparatorsAppend(a: string, b: string)
    requires NoSeparator(a)
    ensures WithoutSeparators(a + b) == a + WithoutSeparators(b)
  {
    if a != [] {
      assert (a + b)[1..] == a[1..] + b;
      WithoutSeparatorsAppend(a[1..], b);
    } else {
      assert a + b == b;
    }
  }

  /** A separator-free, non-empty string is a single token. */
  lemma TokensOfRun(s: string)
    requires |s| > 0 && NoSeparator(s)
    ensures Tokens(s) == [s]
  {
    assert s + [] == s;
    LeadingRunOf(s, []);
    assert s[|s|..] == [];
  }

  /**
   A separator ends a token: the tokens of `a`, a separator and `b` are the
   tokens of `a` followed by those of `b`, so no token spans a separator.
   */
  lemma {:induction false} TokensSplit(a: string, c: char, b: string)
    requires IsSeparator(c)
    ensures Tokens(a + [c] + b) == Tokens(a) + Tokens(b)
    decreases |a|
  {
    var s := a + [c] + b;
    if a == [] {
      assert s[1..] == b;
    } else if IsSeparator(a[0]) {
      assert s[1..] == a[1..] + [c] + b;
      TokensSplit(a[1..], c, b);
    } else {
      LeadingRunSplit(a, c, b);
      var run := LeadingRun(a);
      assert s[|run|..] == a[|run|..] + [c] + b;
      TokensSplit(a[|run|..], c, b);
    }
  }

  lemma {:induction false} LeadingRunSplit(a: string, c: char, b: string)
    requires IsSeparator(c)
    ensures LeadingRun(a + [c] + b) == LeadingRun(a)
  {
    var s := a + [c] + b;
    if a != [] && !IsSeparator(a[0]) {
      assert s[1..] == a[1..] + [c] + b;
      LeadingRunSplit(a[1..], c, b);
    }
  }

  /** `ts.join(".")`. */
  function JoinDot(ts: seq<string>): string
  {
    if ts == [] then "" else if |ts| == 1 then ts[0] else ts[0] + "." + JoinDot(ts[1..])
  }

  /** A violation's `path` (src/validator.ts:104). */
  function PathOf(instancePath: string): string
  {
    JoinDot(Tokens(instancePath))
  }

  /** The instance path `/t0/t1/...` Ajv writes for the tokens `t0, t1, ...`. */
  function SlashJoin(ts: seq<string>): string
  {
    if ts == [] then "" else "/" + ts[0] + SlashJoin(ts[1..])
  }

  /**
   For an instance path made of non-empty, separator-free tokens, the violation
   path is those tokens joined by dots; the root path `""` gives `""`.
   */
  lemma PathOfTokens(ts: seq<string>)
    requires forall j :: 0 <= j < |ts| ==> |ts[j]| > 0 && NoSeparator(ts[j])
    ensures Tokens(SlashJoin(ts)) == ts
    ensures PathOf(SlashJoin(ts)) == JoinDot(ts)
  {
    TokensOfJoinedPath(ts);
  }

  lemma {:induction false} TokensOfJoinedPath(ts: seq<string>)
    requires forall j :: 0 <= j < |ts| ==> |ts[j]| > 0 && NoSeparator(ts[j])
    ensures Tokens(SlashJoin(ts)) == ts
  {
    if ts != [] {
      var rest := SlashJoin(ts[1..]);
      var s := SlashJoin(ts);
      var u := ts[0] + rest;
      assert s == "/" + u;
      assert s[1..] == u;
      assert Tokens(s) == Tokens(u);
      LeadingRunOf(ts[0], rest);
      assert u[|ts[0]|..] == rest;
      assert Tokens(u) == [ts[0]] + Tokens(rest);
      TokensOfJoinedPath(ts[1..]);
    }
  }

  lemma {:induction false} LeadingRunOf(t: string, rest: string)
    requires |t| > 0 && NoSeparator(t)
    requires rest == [] || IsSeparator(rest[0])
    ensures LeadingRun(t + rest) == t
  {
    var r := LeadingRun(t + rest);
    assert (t + rest)[..|t|] == t;
  }

  /** A violation path never contains `/` or `\`. */
  lemma PathHasNoSeparator(instancePath: string)
    ensures NoSeparator(PathOf(instancePath))
  {
    JoinDotNoSeparator(Tokens(instancePath));
  }

  lemma {:induction false} JoinDotNoSeparator(ts: seq<string>)
    requires forall j :: 0 <= j < |ts| ==> NoSeparator(ts[j])
    ensures NoSeparator(JoinDot(ts))
  {
    if |ts| > 1 {
      JoinDotNoSeparator(ts[1..]);
      var tail := JoinDot(ts[1..]);
      forall i | 0 <= i < |ts[0] + "." + tail| ensures !IsSeparator((ts[0] + "." + tail)[i]) {
        if i < |ts[0]| {
          assert (ts[0] + "." + tail)[i] == ts[0][i];
        } else if i > |ts[0]| {
          assert (ts[0] + "." + tail)[i] == tail[i - |ts[0]| - 1];
        }
      }
    }
  }

  /** The shape `generateViolations` gives one error (src/validator.ts:103-107). */
  function ToViolation(e: Error): Violation
  {
    Violation(PathOf(e.instancePath), e.message,
      Context(e.params, e.propertyName, e.schema, e.parentSchema, e.data))
  }
}
