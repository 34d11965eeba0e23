/**
 * The commit-header matcher built by `getConventionalRegex`:
 *
 *   ^(t1|…|tn)(\((s1|…|sk | .*)\)){1 or 0,1}:\s
 *
 * `Matches` states what the regular expression accepts, as an existential over
 * the ways a backtracking engine may split the message; `Test` is a hand-rolled
 * matcher that decides it by scanning, and its contract proves the two agree.
 * Keywords are taken to be plain identifiers: the model does not give regex
 * metacharacters inside them any meaning.
 */
module Header {
  import opened Strings

  /** The alternatives of the group `(t1|…|tn)`. Since `[].join("|")` is "", the
      group built from an empty list is `()`, a single empty alternative. */
  function TypeAlternatives(types: seq<string>): (alts: seq<string>)
    ensures |alts| >= 1
    ensures forall t | t in types :: t in alts
    ensures forall t | t in alts :: t in types || (types == [] && t == "")
  {
    if types == [] then [""] else types
  }

  /** No scope list, or an empty one: the scope text is `.*`. */
  predicate Unconstrained(scopes: Option<seq<string>>) {
    scopes.None? || scopes.value == []
  }

  /** The text between the parentheses, against `(s1|…|sk)` or against `.*`. */
  predicate ScopeTextOk(inner: string, scopes: Option<seq<string>>) {
    if Unconstrained(scopes) then NoLineTerminator(inner) else inner in scopes.value
  }

  /** `:\s` starting at index `i`. */
  predicate SeparatorAt(msg: string, i: nat) {
    i + 1 < |msg| && msg[i] == ':' && IsWs(msg[i + 1])
  }

  /** `\((…)\)` occupies `msg[i..j]`. */
  predicate ScopeSegment(msg: string, i: nat, j: nat, scopes: Option<seq<string>>) {
    i + 2 <= j <= |msg| && msg[i] == '(' && msg[j - 1] == ')' && ScopeTextOk(msg[i + 1..j - 1], scopes)
  }

  /** What the pattern demands after a type that ends at index `i`: the scope group
      (once, or at most once unless `forceScope`), then the separator. */
  predicate AfterType(msg: string, i: nat, scopes: Option<seq<string>>, forceScope: bool) {
    || (!forceScope && SeparatorAt(msg, i))
    || exists j | i + 2 <= j <= |msg| :: ScopeSegment(msg, i, j, scopes) && SeparatorAt(msg, j)
  }

  /** `getConventionalRegex({types, scopes, forceScope}).test(msg)`: anchored at index 0,
      not anchored at the end. `forceScope` stands for `config.forceScope === true`. */
  predicate Matches(msg: string, types: seq<string>, scopes: Option<seq<string>>, forceScope: bool) {
    exists t | t in TypeAlternatives(types) :: IsPrefix(t, msg) && AfterType(msg, |t|, scopes, forceScope)
  }

  // ---------------------------------------------------------------------------
  // A matcher that decides `Matches` by scanning.

  /** The `.*` scope text starts at `k` and the closing parenthesis sits at `j - 1`,
      followed by the separator. */
  predicate ClosesAt(msg: string, k: nat, j: nat) {
    k < j <= |msg| && msg[j - 1] == ')' && NoLineTerminator(msg[k..j - 1]) && SeparatorAt(msg, j)
  }

  /** The `.*` scope text starting at `k` can be closed somewhere. */
  predicate CloseExists(msg: string, k: nat) {
    exists j | k < j <= |msg| :: ClosesAt(msg, k, j)
  }

  /** Tries every end for `.*`, from `k` up to the first line terminator. */
  function CloseFrom(msg: string, k: nat): (r: bool)
    requires k <= |msg|
    ensures r == CloseExists(msg, k)
    decreases |msg| - k
  {
    if k == |msg| then false
    else if IsLineTerminator(msg[k]) then
      assert forall j | k < j <= |msg| :: !ClosesAt(msg, k, j);
      false
    else
      var later := CloseFrom(msg, k + 1);
      CloseStep(msg, k);
      ClosesAt(msg, k, k + 1) || later
  }

  /** One step of the scan: past a character that is not a line terminator, `.*` may
      end right here or anywhere the scan from the next index finds. */
  lemma CloseStep(msg: string, k: nat)
    requires k < |msg| && !IsLineTerminator(msg[k])
    ensures CloseExists(msg, k) <==> ClosesAt(msg, k, k + 1) || CloseExists(msg, k + 1)
  {
    forall j | k + 1 < j <= |msg| ensures ClosesAt(msg, k, j) == ClosesAt(msg, k + 1, j) {
      NoLineTerminatorCons(msg[k..j - 1]);
      assert msg[k..j - 1][1..] == msg[k + 1..j - 1];
    }
    if CloseExists(msg, k) {
      var j :| k < j <= |msg| && ClosesAt(msg, k, j);
      assert j == k + 1 || ClosesAt(msg, k + 1, j);
    }
    if CloseExists(msg, k + 1) {
      var j :| k + 1 < j <= |msg| && ClosesAt(msg, k + 1, j);
      assert ClosesAt(msg, k, j);
    }
  }

  /** The listed scope `s` starts at `k`, is closed by `)` and followed by the separator. */
  predicate ScopeClosesAt(msg: string, k: nat, s: string) {
    k + |s| < |msg| && msg[k..k + |s|] == s && msg[k + |s|] == ')' && SeparatorAt(msg, k + |s| + 1)
  }

  /** Tries the listed scopes in turn. */
  function AnyScopeFrom(msg: string, k: nat, scopes: seq<string>): (r: bool)
    ensures r <==> exists s | s in scopes :: ScopeClosesAt(msg, k, s)
    decreases |scopes|
  {
    if scopes == [] then false
    else
      var later := AnyScopeFrom(msg, k, scopes[1..]);
      assert forall s | s in scopes :: s == scopes[0] || s in scopes[1..];
      ScopeClosesAt(msg, k, scopes[0]) || later
  }

  /** Decides `AfterType`. */
  function TestAfterType(msg: string, i: nat, scopes: Option<seq<string>>, forceScope: bool): (r: bool)
    requires i <= |msg|
    ensures r == AfterType(msg, i, scopes, forceScope)
  {
    var bare := !forceScope && SeparatorAt(msg, i);
    if i < |msg| && msg[i] == '(' then
      if Unconstrained(scopes) then
        var closed := CloseFrom(msg, i + 1);
        assert forall j | i + 2 <= j <= |msg| ::
            (ScopeSegment(msg, i, j, scopes) && SeparatorAt(msg, j)) == ClosesAt(msg, i + 1, j);
        bare || closed
      else
        var closed := AnyScopeFrom(msg, i + 1, scopes.value);
        ScopedAfterType(msg, i, scopes.value);
        bare || closed
    else
      bare
  }

  /** With listed scopes, a scope segment from `i` followed by the separator is exactly
      one listed scope closing after `i + 1`. */
  lemma ScopedAfterType(msg: string, i: nat, scopes: seq<string>)
    requires i < |msg| && msg[i] == '(' && scopes != []
    ensures (exists j | i + 2 <= j <= |msg| :: ScopeSegment(msg, i, j, Some(scopes)) && SeparatorAt(msg, j))
        <==> (exists s | s in scopes :: ScopeClosesAt(msg, i + 1, s))
  {
    if j :| i + 2 <= j <= |msg| && ScopeSegment(msg, i, j, Some(scopes)) && SeparatorAt(msg, j) {
      var s := msg[i + 1..j - 1];
      assert ScopeClosesAt(msg, i + 1, s);
    }
    if s :| s in scopes && ScopeClosesAt(msg, i + 1, s) {
      var j := i + |s| + 2;
      assert ScopeSegment(msg, i, j, Some(scopes)) && SeparatorAt(msg, j);
    }
  }

  /** Tries the type alternatives in turn. */
  function AnyTypeFrom(msg: string, alts: seq<string>, scopes: Option<seq<string>>, forceScope: bool): (r: bool)
    ensures r <==> exists t | t in alts :: IsPrefix(t, msg) && AfterType(msg, |t|, scopes, forceScope)
    decreases |alts|
  {
    if alts == [] then false
    else
      var t := alts[0];
      var here := IsPrefix(t, msg) && TestAfterType(msg, |t|, scopes, forceScope);
      var later := AnyTypeFrom(msg, alts[1..], scopes, forceScope);
      assert forall u | u in alts :: u == t || u in alts[1..];
      here || later
  }

  /** The hand-rolled matcher: decides exactly what the regular expression accepts. */
  function Test(msg: string, types: seq<string>, scopes: Option<seq<string>>, forceScope: bool): (r: bool)
    ensures r == Matches(msg, types, scopes, forceScope)
  {
    AnyTypeFrom(msg, TypeAlternatives(types), scopes, forceScope)
  }
}
