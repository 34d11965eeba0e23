/**
 * What the header pattern accepts and rejects, stated over `Matches`.
 */
module HeaderProperties {
  import opened Strings
  import opened Header

  /** A keyword free of the characters the pattern gives a meaning right after a
      type or inside a scope: `(`, `)` and `:`. */
  predicate Plain(w: string) {
    forall k | 0 <= k < |w| :: w[k] != '(' && w[k] != ')' && w[k] != ':'
  }

  /** `<type>:<ws><description>`, no scope. */
  function BareHeader(t: string, c: char, d: string): string {
    t + [':', c] + d
  }

  /** `<type>(<scope>):<ws><description>`. */
  function ScopedHeader(t: string, s: string, c: char, d: string): string {
    t + "(" + s + ")" + [':', c] + d
  }

  // ---------------------------------------------------------------------------
  // Type, separator, anchoring

  /** Any listed type followed by `:` and one whitespace character is accepted,
      whatever the description, unless a scope is forced. */
  lemma BareHeaderAccepted(t: string, c: char, d: string, types: seq<string>, scopes: Option<seq<string>>)
    requires t in types && IsWs(c)
    ensures Matches(BareHeader(t, c, d), types, scopes, false)
  {
    var msg := BareHeader(t, c, d);
    assert msg[..|t|] == t;
    assert msg[|t|] == ':' && msg[|t| + 1] == c;
    assert IsPrefix(t, msg) && AfterType(msg, |t|, scopes, false);
  }

  /** The pattern has no end anchor: whatever follows an accepted header is never looked at. */
  lemma TrailingTextIgnored(msg: string, rest: string, types: seq<string>, scopes: Option<seq<string>>, forceScope: bool)
    requires Matches(msg, types, scopes, forceScope)
    ensures Matches(msg + rest, types, scopes, forceScope)
  {
    var t :| t in TypeAlternatives(types) && IsPrefix(t, msg) && AfterType(msg, |t|, scopes, forceScope);
    var longer := msg + rest;
    assert longer[..|msg|] == msg;
    assert longer[..|t|] == msg[..|t|];
    if !forceScope && SeparatorAt(msg, |t|) {
      assert SeparatorAt(longer, |t|);
    } else {
      var j :| |t| + 2 <= j <= |msg| && ScopeSegment(msg, |t|, j, scopes) && SeparatorAt(msg, j);
      assert longer[|t| + 1..j - 1] == msg[|t| + 1..j - 1];
      assert ScopeSegment(longer, |t|, j, scopes) && SeparatorAt(longer, j);
    }
    assert IsPrefix(t, longer) && AfterType(longer, |t|, scopes, forceScope);
  }

  /** A message is rejected when no type alternative starts it and is followed by `:` or `(`. */
  lemma RejectedWithoutTypePrefix(msg: string, types: seq<string>, scopes: Option<seq<string>>, forceScope: bool)
    requires forall t | t in TypeAlternatives(types) && IsPrefix(t, msg) ::
      |t| == |msg| || (msg[|t|] != ':' && msg[|t|] != '(')
    ensures !Matches(msg, types, scopes, forceScope)
  {
  }

  /** With plain keywords, an accepted bare header `t:<ws>…` names a listed type exactly:
      no prefix or extension of a listed type passes. */
  lemma BareHeaderTypeListed(t: string, c: char, d: string, types: seq<string>, scopes: Option<seq<string>>, forceScope: bool)
    requires Plain(t) && (forall u | u in types :: Plain(u))
    requires Matches(BareHeader(t, c, d), types, scopes, forceScope)
    ensures t in TypeAlternatives(types)
  {
    var msg := BareHeader(t, c, d);
    var u :| u in TypeAlternatives(types) && IsPrefix(u, msg) && AfterType(msg, |u|, scopes, forceScope);
    assert Plain(u);
    assert IsPrefix(t, msg) && msg[|t|] == ':' by {
      assert msg[..|t|] == t;
    }
    assert |u| < |msg| && (msg[|u|] == ':' || msg[|u|] == '(');
    TypeEndsAtDelimiter(msg, t, u);
  }

  /** With plain keywords, a bare header `t:<ws>…` is accepted iff `t` is one of the
      type alternatives, exactly (case-sensitively, no prefix, no extension). */
  lemma BareHeaderExact(t: string, c: char, d: string, types: seq<string>, scopes: Option<seq<string>>)
    requires Plain(t) && (forall u | u in types :: Plain(u)) && IsWs(c)
    ensures Matches(BareHeader(t, c, d), types, scopes, false) <==> t in TypeAlternatives(types)
  {
    if t in TypeAlternatives(types) {
      BareHeaderAccepted(t, c, d, TypeAlternatives(types), scopes);
    }
    if Matches(BareHeader(t, c, d), types, scopes, false) {
      BareHeaderTypeListed(t, c, d, types, scopes, false);
    }
  }

  /** `p` is not a prefix of `s` when they differ at some index both have. */
  lemma NotPrefixAt(p: string, s: string, k: nat)
    requires k < |p| && k < |s| && p[k] != s[k]
    ensures !IsPrefix(p, s)
  {
  }

  /** The repository's rejection test: messages that start with no listed type are refused. */
  lemma UntypedMessagesRejected()
    ensures !Matches("update README", ["feat", "fix", "chore"], None, false)
    ensures !Matches("add new feature", ["feat", "fix", "chore"], None, false)
  {
    UpdateReadmeRejected();
    AddNewFeatureRejected();
  }

  lemma UpdateReadmeRejected()
    ensures !Matches("update README", ["feat", "fix", "chore"], None, false)
  {
    NotPrefixAt("feat", "update README", 0);
    NotPrefixAt("fix", "update README", 0);
    NotPrefixAt("chore", "update README", 0);
    RejectedWithoutTypePrefix("update README", ["feat", "fix", "chore"], None, false);
  }

  lemma AddNewFeatureRejected()
    ensures !Matches("add new feature", ["feat", "fix", "chore"], None, false)
  {
    NotPrefixAt("feat", "add new feature", 0);
    NotPrefixAt("fix", "add new feature", 0);
    NotPrefixAt("chore", "add new feature", 0);
    RejectedWithoutTypePrefix("add new feature", ["feat", "fix", "chore"], None, false);
  }

  /** The repository's rejection test: a listed type not followed by `:` is refused. */
  lemma TypeWithoutColonRejected()
    ensures !Matches("fix bug", ["feat", "fix", "chore"], None, false)
  {
    NotPrefixAt("feat", "fix bug", 1);
    NotPrefixAt("chore", "fix bug", 0);
    assert "fix bug"[3] == ' ';
    RejectedWithoutTypePrefix("fix bug", ["feat", "fix", "chore"], None, false);
  }

  /** Types match case-sensitively. */
  lemma CapitalisedTypeRejected()
    ensures !Matches("Feat: x", ["feat", "fix", "chore"], None, false)
  {
    NotPrefixAt("feat", "Feat: x", 0);
    NotPrefixAt("fix", "Feat: x", 0);
    NotPrefixAt("chore", "Feat: x", 0);
    RejectedWithoutTypePrefix("Feat: x", ["feat", "fix", "chore"], None, false);
  }

  /** The separator is `:` and any one whitespace or line terminator, not only a space. */
  lemma TabSeparatorAccepted()
    ensures Matches("feat:\tx", ["feat"], None, false)
  {
    assert BareHeader("feat", '\t', "x") == "feat:\tx";
    BareHeaderAccepted("feat", '\t', "x", ["feat"], None);
  }

  /** Without whitespace after the colon the header is refused. */
  lemma MissingSeparatorRejected()
    ensures !Matches("feat:x", ["feat"], None, false)
    ensures !Matches("feat:", ["feat"], None, false)
  {
    assert TypeAlternatives(["feat"]) == ["feat"];
    assert !IsWs('x');
    assert !AfterType("feat:x", 4, None, false);
    assert !AfterType("feat:", 4, None, false);
  }

  /** An empty type list makes the group `()`, which matches the empty type. */
  lemma EmptyTypeListMatchesEmptyType()
    ensures Matches(": x", [], None, false)
    ensures Matches("(wip): x", [], None, false)
    ensures !Matches(": x", ["feat"], None, false)
  {
    EmptyTypeBareHeader();
    EmptyTypeScopedHeader();
    NotPrefixAt("feat", ": x", 0);
  }

  lemma EmptyTypeBareHeader()
    ensures Matches(": x", [], None, false)
  {
    assert BareHeader("", ' ', "x") == ": x";
    BareHeaderAccepted("", ' ', "x", [""], None);
  }

  lemma EmptyTypeScopedHeader()
    ensures Matches("(wip): x", [], None, false)
  {
    assert ScopedHeader("", "wip", ' ', "x") == "(wip): x";
    UnconstrainedScopeAccepted("", "wip", ' ', "x", [""], None, false);
  }

  // ---------------------------------------------------------------------------
  // Scopes

  /** A listed scope in parentheses after a listed type is accepted, forced or not. */
  lemma ListedScopeAccepted(t: string, s: string, c: char, d: string, types: seq<string>, scopes: seq<string>, forceScope: bool)
    requires t in types && s in scopes && IsWs(c)
    ensures Matches(ScopedHeader(t, s, c, d), types, Some(scopes), forceScope)
  {
    var msg := ScopedHeader(t, s, c, d);
    var j := |t| + |s| + 2;
    assert msg[..|t|] == t;
    assert msg[|t| + 1..j - 1] == s;
    assert msg[|t|] == '(' && msg[j - 1] == ')' && msg[j] == ':' && msg[j + 1] == c;
    assert ScopeSegment(msg, |t|, j, Some(scopes)) && SeparatorAt(msg, j);
    assert IsPrefix(t, msg) && AfterType(msg, |t|, Some(scopes), forceScope);
  }

  /** With no scope list, or an empty one, any parenthesised text free of line terminators
      is accepted as a scope: empty text, and text holding parentheses, too. */
  lemma UnconstrainedScopeAccepted(t: string, s: string, c: char, d: string, types: seq<string>, scopes: Option<seq<string>>, forceScope: bool)
    requires t in types && Unconstrained(scopes) && NoLineTerminator(s) && IsWs(c)
    ensures Matches(ScopedHeader(t, s, c, d), types, scopes, forceScope)
  {
    var msg := ScopedHeader(t, s, c, d);
    var j := |t| + |s| + 2;
    assert msg[..|t|] == t;
    assert msg[|t| + 1..j - 1] == s;
    assert msg[|t|] == '(' && msg[j - 1] == ')' && msg[j] == ':' && msg[j + 1] == c;
    assert ScopeSegment(msg, |t|, j, scopes) && SeparatorAt(msg, j);
    assert IsPrefix(t, msg) && AfterType(msg, |t|, scopes, forceScope);
  }

  /** A plain type that starts a message holds none of the characters that may follow a type. */
  lemma PlainPrefixHasNoDelimiter(msg: string, t: string)
    requires Plain(t) && IsPrefix(t, msg)
    ensures forall k | 0 <= k < |t| :: msg[k] != ':' && msg[k] != '('
  {
    forall k | 0 <= k < |t| ensures msg[k] == t[k] {
      assert msg[..|t|][k] == msg[k];
    }
  }

  /** With plain keywords, two types that both start a message and are both followed by
      what the pattern needs next (`:` or `(`) are the same type. */
  lemma TypeEndsAtDelimiter(msg: string, t: string, u: string)
    requires Plain(t) && Plain(u) && IsPrefix(t, msg) && IsPrefix(u, msg)
    requires |t| < |msg| && (msg[|t|] == ':' || msg[|t|] == '(')
    requires |u| < |msg| && (msg[|u|] == ':' || msg[|u|] == '(')
    ensures u == t
  {
    PlainPrefixHasNoDelimiter(msg, t);
    PlainPrefixHasNoDelimiter(msg, u);
    assert |u| == |t|;
    assert u == msg[..|u|];
  }

  /** The scope group occupies `msg[i..j]`, the separator follows it, and the scope text
      it accepted starts with the text `s` and the `)` after it. */
  predicate ScopeParsedAt(msg: string, i: nat, j: nat, s: string, scopes: Option<seq<string>>) {
    ScopeSegment(msg, i, j, scopes) && SeparatorAt(msg, j) && IsPrefix(s + ")", msg[i + 1..j - 1] + ")")
  }

  /** Reading a scoped header back, given plain keywords: the type that matched is `t`
      itself, since the scope group starts right after it, and the scope text the pattern
      accepted is `s`, or `s` followed by `)` and more (only the unconstrained `.*` can take
      that second way). */
  lemma ScopedHeaderParse(t: string, s: string, c: char, d: string, types: seq<string>, scopes: Option<seq<string>>, forceScope: bool)
    requires t in types && (forall u | u in types :: Plain(u)) && Plain(s)
    requires Matches(ScopedHeader(t, s, c, d), types, scopes, forceScope)
    ensures exists j :: ScopeParsedAt(ScopedHeader(t, s, c, d), |t|, j, s, scopes)
  {
    var msg := ScopedHeader(t, s, c, d);
    ScopedHeaderLayout(t, s, c, d);
    var j := ScopeSegmentAfter(msg, t, types, scopes, forceScope);
    ScopeClosesAfter(msg, |t|, s, j);
    ScopeTextPrefix(msg, |t| + 1, s, j - 1);
    assert ScopeParsedAt(msg, |t|, j, s, scopes);
  }

  /** Where the parts of `t(s):<c>d` sit. */
  lemma ScopedHeaderLayout(t: string, s: string, c: char, d: string)
    ensures var msg := ScopedHeader(t, s, c, d);
      && |msg| == |t| + |s| + 4 + |d|
      && msg[..|t|] == t && msg[|t|] == '('
      && msg[|t| + 1..|t| + |s| + 1] == s && msg[|t| + |s| + 1] == ')'
      && msg[|t| + |s| + 2] == ':' && msg[|t| + |s| + 3] == c
  {
    var msg := ScopedHeader(t, s, c, d);
    assert msg == t + (['('] + s + [')', ':', c] + d);
  }

  /** With plain keywords, a message `t(…` that the pattern accepts has its scope
      segment right after `t`, followed by the separator. */
  lemma ScopeSegmentAfter(msg: string, t: string, types: seq<string>, scopes: Option<seq<string>>, forceScope: bool)
      returns (j: nat)
    requires t in types && (forall u | u in types :: Plain(u))
    requires |t| < |msg| && msg[..|t|] == t && msg[|t|] == '('
    requires Matches(msg, types, scopes, forceScope)
    ensures |t| + 2 <= j <= |msg| && ScopeSegment(msg, |t|, j, scopes) && SeparatorAt(msg, j)
  {
    var u :| u in TypeAlternatives(types) && IsPrefix(u, msg) && AfterType(msg, |u|, scopes, forceScope);
    assert Plain(u) by {
      assert u in types;
    }
    assert |u| < |msg| && (msg[|u|] == ':' || msg[|u|] == '(');
    TypeEndsAtDelimiter(msg, t, u);
    assert !SeparatorAt(msg, |t|);
    j :| |t| + 2 <= j <= |msg| && ScopeSegment(msg, |t|, j, scopes) && SeparatorAt(msg, j);
  }

  /** The text from `k` to a closing parenthesis at `e`, with its `)`, starts with the
      text `s` written from `k` and the `)` after it. */
  lemma ScopeTextPrefix(msg: string, k: nat, s: string, e: nat)
    requires k + |s| < |msg| && msg[k..k + |s|] == s && msg[k + |s|] == ')'
    requires k + |s| <= e < |msg| && msg[e] == ')'
    ensures IsPrefix(s + ")", msg[k..e] + ")")
  {
    var inner := msg[k..e];
    if k + |s| < e {
      assert (inner + ")")[..|s| + 1] == msg[k..k + |s| + 1];
    } else {
      assert inner == s;
    }
  }

  /** A plain scope `s` written after `(` at `i` holds no `)`, so a scope segment from `i`
      cannot close inside it. */
  lemma ScopeClosesAfter(msg: string, i: nat, s: string, j: nat)
    requires Plain(s) && i + |s| + 1 <= |msg| && msg[i + 1..i + |s| + 1] == s
    requires i + 2 <= j <= |msg| && msg[j - 1] == ')'
    ensures j - 1 >= i + |s| + 1
  {
  }

  /** With listed scopes (and plain keywords), `t(s): …` is accepted iff `s` is one of
      them exactly: neither a prefix nor an extension of a listed scope passes. */
  lemma ListedScopeExact(t: string, s: string, c: char, d: string, types: seq<string>, scopes: seq<string>, forceScope: bool)
    requires t in types && (forall u | u in types :: Plain(u))
    requires scopes != [] && (forall u | u in scopes :: Plain(u))
    requires Plain(s) && IsWs(c)
    ensures Matches(ScopedHeader(t, s, c, d), types, Some(scopes), forceScope) <==> s in scopes
  {
    if s in scopes {
      ListedScopeAccepted(t, s, c, d, types, scopes, forceScope);
    }
    if Matches(ScopedHeader(t, s, c, d), types, Some(scopes), forceScope) {
      AcceptedScopeIsListed(t, s, c, d, types, scopes, forceScope);
    }
  }

  /** The "only if" half of `ListedScopeExact`. */
  lemma AcceptedScopeIsListed(t: string, s: string, c: char, d: string, types: seq<string>, scopes: seq<string>, forceScope: bool)
    requires t in types && (forall u | u in types :: Plain(u))
    requires scopes != [] && (forall u | u in scopes :: Plain(u)) && Plain(s)
    requires Matches(ScopedHeader(t, s, c, d), types, Some(scopes), forceScope)
    ensures s in scopes
  {
    var msg := ScopedHeader(t, s, c, d);
    ScopedHeaderParse(t, s, c, d, types, Some(scopes), forceScope);
    var j :| ScopeParsedAt(msg, |t|, j, s, Some(scopes));
    var inner := msg[|t| + 1..j - 1];
    assert ScopeTextOk(inner, Some(scopes)) && IsPrefix(s + ")", inner + ")");
    assert Plain(inner);
    assert inner == s by {
      assert |inner| == |s| by {
        assert (inner + ")")[|s|] == ')';
        assert (inner + ")")[|inner|] == ')';
      }
      assert inner == (inner + ")")[..|s|];
    }
  }

  /** Without a scope list the scope text is `.*`: an accepted (plain) scope holds no
      line terminator. */
  lemma AcceptedScopeHasNoLineTerminator(t: string, s: string, c: char, d: string, types: seq<string>, scopes: Option<seq<string>>, forceScope: bool)
    requires t in types && (forall u | u in types :: Plain(u))
    requires Unconstrained(scopes) && Plain(s)
    requires Matches(ScopedHeader(t, s, c, d), types, scopes, forceScope)
    ensures NoLineTerminator(s)
  {
    var msg := ScopedHeader(t, s, c, d);
    ScopedHeaderParse(t, s, c, d, types, scopes, forceScope);
    var j :| ScopeParsedAt(msg, |t|, j, s, scopes);
    var inner := msg[|t| + 1..j - 1];
    assert ScopeTextOk(inner, scopes) && IsPrefix(s + ")", inner + ")");
    forall k | 0 <= k < |s| ensures !IsLineTerminator(s[k]) {
      assert s[k] == (inner + ")")[k];
    }
  }

  /** With plain keywords, an accepted scoped header `t(…` names a type alternative
      exactly, as a bare header does. */
  lemma ScopedHeaderTypeListed(t: string, s: string, c: char, d: string, types: seq<string>, scopes: Option<seq<string>>, forceScope: bool)
    requires Plain(t) && (forall u | u in types :: Plain(u))
    requires Matches(ScopedHeader(t, s, c, d), types, scopes, forceScope)
    ensures t in TypeAlternatives(types)
  {
    var msg := ScopedHeader(t, s, c, d);
    ScopedHeaderLayout(t, s, c, d);
    var u :| u in TypeAlternatives(types) && IsPrefix(u, msg) && AfterType(msg, |u|, scopes, forceScope);
    assert Plain(u);
    assert IsPrefix(t, msg) && msg[|t|] == '(';
    assert |u| < |msg| && (msg[|u|] == ':' || msg[|u|] == '(');
    TypeEndsAtDelimiter(msg, t, u);
  }

  /** Under `.*` a scope holding a line terminator is rejected, whatever the (plain,
      non-empty) type list and the force flag. */
  lemma UnconstrainedScopeStopsAtLineTerminator(t: string, s: string, c: char, d: string, types: seq<string>, scopes: Option<seq<string>>, forceScope: bool)
    requires types != [] && Plain(t) && (forall u | u in types :: Plain(u))
    requires Unconstrained(scopes) && Plain(s) && !NoLineTerminator(s)
    ensures !Matches(ScopedHeader(t, s, c, d), types, scopes, forceScope)
  {
    if Matches(ScopedHeader(t, s, c, d), types, scopes, forceScope) {
      ScopedHeaderTypeListed(t, s, c, d, types, scopes, forceScope);
      AcceptedScopeHasNoLineTerminator(t, s, c, d, types, scopes, forceScope);
    }
  }

  /** An absent scope list and an empty one mean the same: unconstrained `.*`. */
  lemma AbsentScopesAsEmpty(msg: string, types: seq<string>, forceScope: bool)
    ensures Matches(msg, types, None, forceScope) == Matches(msg, types, Some([]), forceScope)
  {
  }

  /** The unconstrained scope of the repository's acceptance test. */
  lemma UnconstrainedScopeExample()
    ensures Matches("fix(scope): fix a bug", ["feat", "fix", "chore"], None, false)
  {
    assert ScopedHeader("fix", "scope", ' ', "fix a bug") == "fix(scope): fix a bug";
    UnconstrainedScopeAccepted("fix", "scope", ' ', "fix a bug", ["feat", "fix", "chore"], None, false);
  }

  /** `.*` backtracks over parentheses: `(a)(b)` is one scope `a)(b`. */
  lemma ParenthesesInsideScope()
    ensures Matches("feat(a)(b): x", ["feat"], None, false)
  {
    assert ScopedHeader("feat", "a)(b", ' ', "x") == "feat(a)(b): x";
    UnconstrainedScopeAccepted("feat", "a)(b", ' ', "x", ["feat"], None, false);
  }

  /** An empty scope list behaves as none: `()` passes even with the scope forced. */
  lemma EmptyScopeAccepted()
    ensures Matches("feat(): x", ["feat"], Some([]), true)
  {
    assert ScopedHeader("feat", "", ' ', "x") == "feat(): x";
    UnconstrainedScopeAccepted("feat", "", ' ', "x", ["feat"], Some([]), true);
  }

  /** `.*` stops at a line terminator. */
  lemma LineTerminatorScopeRejected()
    ensures !Matches("feat(a\nb): x", ["feat"], None, false)
  {
    assert Plain("feat") && Plain("a\nb");
    assert IsLineTerminator("a\nb"[1]);
    assert ScopedHeader("feat", "a\nb", ' ', "x") == "feat(a\nb): x";
    if Matches("feat(a\nb): x", ["feat"], None, false) {
      AcceptedScopeHasNoLineTerminator("feat", "a\nb", ' ', "x", ["feat"], None, false);
    }
  }

  // ---------------------------------------------------------------------------
  // forceScope

  /** Forcing the scope only removes messages: `{1}` accepts a subset of what `{0,1}` accepts. */
  lemma ForceScopeMonotone(msg: string, types: seq<string>, scopes: Option<seq<string>>)
    requires Matches(msg, types, scopes, true)
    ensures Matches(msg, types, scopes, false)
  {
    var t :| t in TypeAlternatives(types) && IsPrefix(t, msg) && AfterType(msg, |t|, scopes, true);
    assert AfterType(msg, |t|, scopes, false);
  }

  /** With the scope forced, an accepted message has `(` right after its type. */
  lemma ForcedScopeNeedsParenthesis(msg: string, types: seq<string>, scopes: Option<seq<string>>)
    requires Matches(msg, types, scopes, true)
    ensures exists t | t in TypeAlternatives(types) :: IsPrefix(t, msg) && |t| < |msg| && msg[|t|] == '('
  {
    var t :| t in TypeAlternatives(types) && IsPrefix(t, msg) && AfterType(msg, |t|, scopes, true);
    var j :| |t| + 2 <= j <= |msg| && ScopeSegment(msg, |t|, j, scopes) && SeparatorAt(msg, j);
    assert |t| < |msg| && msg[|t|] == '(';
  }

  /** With the scope forced, a message with no `(` right after any type that starts it
      is refused. */
  lemma ForcedScopeRejectsBareHeader(msg: string, types: seq<string>, scopes: Option<seq<string>>)
    requires forall t | t in TypeAlternatives(types) && IsPrefix(t, msg) :: |t| == |msg| || msg[|t|] != '('
    ensures !Matches(msg, types, scopes, true)
  {
    if Matches(msg, types, scopes, true) {
      ForcedScopeNeedsParenthesis(msg, types, scopes);
    }
  }

  /** With the scope list `core` forced, `feat(core)` passes. */
  lemma ForcedListedScopeAccepted()
    ensures Matches("feat(core): x", ["feat", "fix"], Some(["core"]), true)
  {
    assert ScopedHeader("feat", "core", ' ', "x") == "feat(core): x";
    ListedScopeAccepted("feat", "core", ' ', "x", ["feat", "fix"], ["core"], true);
  }

  /** With the scope list `core` forced, `feat(ui)` is refused. */
  lemma ForcedUnlistedScopeRejected()
    ensures !Matches("feat(ui): x", ["feat", "fix"], Some(["core"]), true)
  {
    assert Plain("feat") && Plain("fix") && Plain("core") && Plain("ui");
    assert ScopedHeader("feat", "ui", ' ', "x") == "feat(ui): x";
    ListedScopeExact("feat", "ui", ' ', "x", ["feat", "fix"], ["core"], true);
  }

  /** With the scope forced, a header without one is refused. */
  lemma ForcedScopeMissingRejected()
    ensures !Matches("feat: x", ["feat", "fix"], Some(["core"]), true)
  {
    NotPrefixAt("fix", "feat: x", 1);
    assert "feat: x"[4] == ':';
    ForcedScopeRejectsBareHeader("feat: x", ["feat", "fix"], Some(["core"]));
  }

  /** Scope list `a`, `b`, optional: `feat(a)` passes. */
  lemma OptionalListedScopeAccepted()
    ensures Matches("feat(a): x", ["feat"], Some(["a", "b"]), false)
  {
    assert ScopedHeader("feat", "a", ' ', "x") == "feat(a): x";
    ListedScopeAccepted("feat", "a", ' ', "x", ["feat"], ["a", "b"], false);
  }

  /** Scope list `a`, `b`, optional: a header without a scope passes. */
  lemma OptionalScopeOmitted()
    ensures Matches("feat: x", ["feat"], Some(["a", "b"]), false)
  {
    assert BareHeader("feat", ' ', "x") == "feat: x";
    BareHeaderAccepted("feat", ' ', "x", ["feat"], Some(["a", "b"]));
  }

  /** Scope list `a`, `b`, optional: `feat(c)` is refused. */
  lemma OptionalUnlistedScopeRejected()
    ensures !Matches("feat(c): x", ["feat"], Some(["a", "b"]), false)
  {
    assert Plain("feat") && Plain("a") && Plain("b") && Plain("c");
    assert ScopedHeader("feat", "c", ' ', "x") == "feat(c): x";
    ListedScopeExact("feat", "c", ' ', "x", ["feat"], ["a", "b"], false);
  }

  // ---------------------------------------------------------------------------
  // Combining keyword groups

  /** The pattern over the concatenation of two non-empty type lists accepts exactly what
      the pattern over either list accepts. */
  lemma UnionIsDisjunction(msg: string, a: seq<string>, b: seq<string>, scopes: Option<seq<string>>, forceScope: bool)
    requires a != [] && b != []
    ensures Matches(msg, a + b, scopes, forceScope)
        <==> Matches(msg, a, scopes, forceScope) || Matches(msg, b, scopes, forceScope)
  {
    assert TypeAlternatives(a + b) == a + b;
    assert forall t :: t in a + b <==> t in a || t in b;
  }

  /** Why the groups must be non-empty: the empty list is not neutral for concatenation,
      since alone it stands for the empty type. */
  lemma EmptyGroupNotNeutral()
    ensures Matches(": x", [] + ["feat"], None, false) != (Matches(": x", [], None, false) || Matches(": x", ["feat"], None, false))
  {
    EmptyTypeListMatchesEmptyType();
    assert [] + ["feat"] == ["feat"];
  }

  /** Dropping the scope list and the force flag only widens acceptance, provided no listed
      scope holds a line terminator (which `.*` would refuse). */
  lemma DropScopeConstraint(msg: string, types: seq<string>, scopes: Option<seq<string>>, forceScope: bool)
    requires Matches(msg, types, scopes, forceScope)
    requires scopes.Some? ==> forall s | s in scopes.value :: NoLineTerminator(s)
    ensures Matches(msg, types, None, false)
  {
    var t :| t in TypeAlternatives(types) && IsPrefix(t, msg) && AfterType(msg, |t|, scopes, forceScope);
    if !forceScope && SeparatorAt(msg, |t|) {
    } else {
      var j :| |t| + 2 <= j <= |msg| && ScopeSegment(msg, |t|, j, scopes) && SeparatorAt(msg, j);
      assert ScopeSegment(msg, |t|, j, None);
    }
    assert AfterType(msg, |t|, None, false);
  }
}
