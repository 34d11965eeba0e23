/**
 * Properties of the decision `run` makes: keyword parsing, and that a message passing
 * the conformance check is always classified.
 */
module ActionProperties {
  import opened Strings
  import opened Header
  import opened HeaderProperties
  import opened Bump
  import opened BumpProperties
  import opened Action

  // ---------------------------------------------------------------------------
  // Keyword parsing

  /** Parsing a keyword input gives back the keywords it was written from, when they hold
      no comma and no surrounding whitespace; empty keywords are kept. */
  lemma KeywordsRoundTrip(ks: seq<string>)
    requires |ks| >= 1
    requires forall k | k in ks :: ',' !in k && Trim(k) == k
    ensures Keywords(Join(ks, ',')) == ks
  {
    SplitJoin(ks, ',');
  }

  /** The empty input gives the defaults; any other input gives one keyword per piece,
      whatever the defaults are. */
  lemma ParseKeywordsDefaults(input: string, defaults: seq<string>, others: seq<string>)
    ensures input == "" ==> ParseKeywords(input, defaults) == defaults
    ensures input != "" ==> |ParseKeywords(input, defaults)| == |Split(input, ',')|
    ensures input != "" ==> ParseKeywords(input, defaults) == ParseKeywords(input, others)
  {
  }

  /** Every parsed scope of an input free of line terminators is free of them too. */
  lemma KeywordsKeepNoLineTerminator(input: string)
    requires NoLineTerminator(input)
    ensures forall s | s in Keywords(input) :: NoLineTerminator(s)
  {
    var pieces := Split(input, ',');
    SplitKeepsNoLineTerminator(input, ',');
    forall k | 0 <= k < |pieces| ensures NoLineTerminator(Keywords(input)[k]) {
      assert pieces[k] in pieces;
      TrimKeepsNoLineTerminator(pieces[k]);
    }
  }

  // ---------------------------------------------------------------------------
  // Conformance, then classification

  /** A message that passes the conformance check is classified: `getBumpType` cannot throw
      after it, given non-empty groups and scopes free of line terminators. */
  lemma ConformingMessageClassified(message: string, c: Config)
    requires c.major != [] && c.minor != [] && c.patch != []
    requires c.scopes.Some? ==> forall s | s in c.scopes.value :: NoLineTerminator(s)
    ensures Decide(message, c).Output? || Decide(message, c) == Failed(NotConventional(message))
  {
    if Matches(message, AllTypes(c), c.scopes, c.forceScope) {
      UnionIsDisjunction(message, c.major + c.minor, c.patch, c.scopes, c.forceScope);
      UnionIsDisjunction(message, c.major, c.minor, c.scopes, c.forceScope);
      var b :| Matches(message, Group(b, c.major, c.minor, c.patch), c.scopes, c.forceScope) by {
        if Matches(message, c.major, c.scopes, c.forceScope) {
          assert Group(Major, c.major, c.minor, c.patch) == c.major;
        } else if Matches(message, c.minor, c.scopes, c.forceScope) {
          assert Group(Minor, c.major, c.minor, c.patch) == c.minor;
        } else {
          assert Group(Patch, c.major, c.minor, c.patch) == c.patch;
        }
      }
      DropScopeConstraint(message, Group(b, c.major, c.minor, c.patch), c.scopes, c.forceScope);
      AcceptedMessageClassified(message, c.major, c.minor, c.patch, b);
    }
  }

  /** `run` never reports "no matching bump type" unless the scope input holds a line
      terminator: whatever passes its conformance check is classified. */
  lemma RunConformingIsClassified(inputs: Inputs)
    requires NoLineTerminator(inputs.keywordsScope)
    ensures Run(inputs).Output? || Run(inputs) == Failed(NotConventional(inputs.message))
  {
    var c := ParseConfig(inputs);
    if c.scopes.Some? {
      KeywordsKeepNoLineTerminator(inputs.keywordsScope);
    }
    ConformingMessageClassified(inputs.message, c);
  }

  /** The exception `ConformingMessageClassified` leaves: a listed scope holding a line
      terminator passes the conformance check, but the `.*` scope of `getBumpType`'s
      patterns cannot cross it, so a header with that scope has no bump type. */
  lemma ListedLineTerminatorScopeUnclassified(t: string, s: string, d: string, c: Config)
    requires c.major != [] && c.minor != [] && c.patch != []
    requires forall u | u in AllTypes(c) :: Plain(u)
    requires t in AllTypes(c) && c.scopes.Some? && s in c.scopes.value
    requires Plain(s) && !NoLineTerminator(s)
    ensures Decide(ScopedHeader(t, s, ' ', d), c) == Failed(NoBumpType(ScopedHeader(t, s, ' ', d)))
  {
    var m := ScopedHeader(t, s, ' ', d);
    ListedScopeAccepted(t, s, ' ', d, AllTypes(c), c.scopes.value, c.forceScope);
    UnconstrainedScopeStopsAtLineTerminator(t, s, ' ', d, c.major, None, false);
    UnconstrainedScopeStopsAtLineTerminator(t, s, ' ', d, c.minor, None, false);
    UnconstrainedScopeStopsAtLineTerminator(t, s, ' ', d, c.patch, None, false);
    assert forall b :: !Accepts(m, b, c.major, c.minor, c.patch);
  }

  /** The concrete case: with the default groups and the scope list `a\nb`, the header
      `feat(a\nb): …` conforms but has no bump type. */
  lemma ScopeLineTerminatorUnclassified(d: string)
    ensures var m := ScopedHeader("feat", "a\nb", ' ', d);
      Decide(m, Config(DefaultMajor, DefaultMinor, DefaultPatch, Some(["a\nb"]), false))
        == Failed(NoBumpType(m))
  {
    var c := Config(DefaultMajor, DefaultMinor, DefaultPatch, Some(["a\nb"]), false);
    DefaultKeywordsPlain();
    assert AllTypes(c) == DefaultMajor + DefaultMinor + DefaultPatch;
    assert "feat" in AllTypes(c) by {
      assert AllTypes(c)[3] == "feat";
    }
    assert Plain("a\nb") && !NoLineTerminator("a\nb") by {
      assert IsLineTerminator("a\nb"[1]);
    }
    ListedLineTerminatorScopeUnclassified("feat", "a\nb", d, c);
  }

  /** With no inputs but the message, every setting takes its default. */
  lemma EmptyInputsGiveDefaults(message: string)
    ensures ParseConfig(Inputs(message, "", "", "", "", ""))
         == Config(DefaultMajor, DefaultMinor, DefaultPatch, None, false)
  {
  }

  lemma DefaultKeywordsPlain()
    ensures Plain("breaking") && Plain("ft") && Plain("docs")
    ensures forall u | u in DefaultMajor + DefaultMinor + DefaultPatch :: Plain(u)
  {
  }

  /** What `Decide` publishes once both checks are known. */
  lemma DecideOutput(message: string, c: Config, b: BumpType)
    requires Matches(message, AllTypes(c), c.scopes, c.forceScope)
    requires GetBumpType(message, c.major, c.minor, c.patch) == Bump(b)
    ensures Decide(message, c) == Output(b)
  {
  }

  /** A bare header whose type is a default keyword passes the default conformance check. */
  lemma DefaultConforms(t: string, d: string)
    requires t in DefaultMajor + DefaultMinor + DefaultPatch
    ensures Matches(t + ": " + d, DefaultMajor + DefaultMinor + DefaultPatch, None, false)
  {
    assert BareHeader(t, ' ', d) == t + ": " + d;
    BareHeaderAccepted(t, ' ', d, DefaultMajor + DefaultMinor + DefaultPatch, None);
  }

  /** With no inputs but the message, `run` publishes what `getBumpType` gives over the
      default groups for a bare header with a default keyword. */
  lemma DefaultRun(t: string, d: string, b: BumpType)
    requires t in DefaultMajor + DefaultMinor + DefaultPatch
    requires GetBumpType(t + ": " + d, DefaultMajor, DefaultMinor, DefaultPatch) == Bump(b)
    ensures Run(Inputs(t + ": " + d, "", "", "", "", "")) == Output(b)
  {
    var m := t + ": " + d;
    EmptyInputsGiveDefaults(m);
    var c := Config(DefaultMajor, DefaultMinor, DefaultPatch, None, false);
    DefaultConforms(t, d);
    assert AllTypes(c) == DefaultMajor + DefaultMinor + DefaultPatch;
    DecideOutput(m, c, b);
  }

  /** With the defaults, `breaking: …` is a major bump. */
  lemma DefaultBreakingIsMajor(d: string)
    ensures Run(Inputs("breaking: " + d, "", "", "", "", "")) == Output(Major)
  {
    DefaultKeywordsPlain();
    assert "breaking" in DefaultMajor;
    assert "breaking" + ": " + d == "breaking: " + d;
    BareHeaderBump("breaking", d, DefaultMajor, DefaultMinor, DefaultPatch, Major);
    DefaultRun("breaking", d, Major);
  }

  /** With the defaults, `ft: …` is a minor bump. */
  lemma DefaultFtIsMinor(d: string)
    ensures Run(Inputs("ft: " + d, "", "", "", "", "")) == Output(Minor)
  {
    DefaultKeywordsPlain();
    assert "ft" !in DefaultMajor && "ft" in DefaultMinor;
    assert "ft" + ": " + d == "ft: " + d;
    BareHeaderBump("ft", d, DefaultMajor, DefaultMinor, DefaultPatch, Minor);
    DefaultRun("ft", d, Minor);
  }

  /** With the defaults, `docs: …` is a patch bump. */
  lemma DefaultDocsIsPatch(d: string)
    ensures Run(Inputs("docs: " + d, "", "", "", "", "")) == Output(Patch)
  {
    DefaultKeywordsPlain();
    assert "docs" !in DefaultMajor && "docs" !in DefaultMinor && "docs" in DefaultPatch;
    assert "docs" + ": " + d == "docs: " + d;
    BareHeaderBump("docs", d, DefaultMajor, DefaultMinor, DefaultPatch, Patch);
    DefaultRun("docs", d, Patch);
  }

  lemma JoinEmptyLast(t: string)
    ensures Join([t, ""], ',') == t + ","
  {
    var ps := [t, ""];
    assert ps[1..] == [""];
    assert Join(ps, ',') == t + [','] + "";
  }

  /** A trailing comma leaves an empty last keyword. */
  lemma TrailingCommaKeywords(t: string)
    requires ',' !in t && Trim(t) == t
    ensures Keywords(t + ",") == [t, ""]
  {
    var ps := [t, ""];
    assert forall k | k in ps :: ',' !in k && Trim(k) == k;
    KeywordsRoundTrip(ps);
    JoinEmptyLast(t);
  }

  /** The configuration read from a major input `t,` and nothing else. */
  lemma TrailingCommaConfig(t: string, message: string)
    requires ',' !in t && Trim(t) == t
    ensures ParseConfig(Inputs(message, t + ",", "", "", "", ""))
         == Config([t, ""], DefaultMinor, DefaultPatch, None, false)
  {
    TrailingCommaKeywords(t);
  }

  /** The typeless header `": …"` passes any pattern whose types include the empty one. */
  lemma TypelessHeaderAccepted(d: string, types: seq<string>)
    requires "" in types
    ensures Matches(": " + d, types, None, false)
  {
    assert BareHeader("", ' ', d) == ": " + d;
    BareHeaderAccepted("", ' ', d, types, None);
  }

  /** A trailing comma in a keyword input adds the empty keyword, so a header with no type
      at all is classified: with the major input `t,`, `": …"` is a major bump. */
  lemma TrailingCommaAddsEmptyType(t: string, d: string)
    requires ',' !in t && Trim(t) == t
    ensures Run(Inputs(": " + d, t + ",", "", "", "", "")) == Output(Major)
  {
    var m := ": " + d;
    var major := [t, ""];
    var c := Config(major, DefaultMinor, DefaultPatch, None, false);
    TrailingCommaConfig(t, m);
    TypelessHeaderAccepted(d, AllTypes(c));
    TypelessHeaderAccepted(d, major);
    FirstMatchPriority(m, major, DefaultMinor, DefaultPatch);
    DecideOutput(m, c, Major);
  }
}
