/**
 * First-match priority of `getBumpType`, and the scenarios of the repository's tests.
 */
module BumpProperties {
  import opened Strings
  import opened Header
  import opened HeaderProperties
  import opened Bump

  /** The if/else-if chain, read off the contract: major whenever the major group accepts,
      minor only after major rejects, patch only after both reject. */
  lemma FirstMatchPriority(message: string, major: seq<string>, minor: seq<string>, patch: seq<string>)
    ensures Accepts(message, Major, major, minor, patch) ==> GetBumpType(message, major, minor, patch) == Bump(Major)
    ensures GetBumpType(message, major, minor, patch) == Bump(Minor)
        <==> !Accepts(message, Major, major, minor, patch) && Accepts(message, Minor, major, minor, patch)
    ensures GetBumpType(message, major, minor, patch) == Bump(Patch)
        <==> (!Accepts(message, Major, major, minor, patch) && !Accepts(message, Minor, major, minor, patch)
              && Accepts(message, Patch, major, minor, patch))
  {
  }

  /** The classification is determined by its contract: `Bump(b)` exactly when the group
      of `b` accepts and no group of a larger bump does. */
  lemma LargestAcceptingBump(message: string, major: seq<string>, minor: seq<string>, patch: seq<string>, b: BumpType)
    ensures GetBumpType(message, major, minor, patch) == Bump(b)
        <==> (Accepts(message, b, major, minor, patch)
              && forall c | Rank(c) > Rank(b) :: !Accepts(message, c, major, minor, patch))
  {
    var r := GetBumpType(message, major, minor, patch);
    if Accepts(message, b, major, minor, patch) && forall c | Rank(c) > Rank(b) :: !Accepts(message, c, major, minor, patch) {
      assert r.Bump?;
      assert Rank(r.bump) == Rank(b);
    }
  }

  /** A keyword listed both as major and as patch classifies as major. */
  lemma SharedKeywordPrefersMajor(t: string, d: string, major: seq<string>, minor: seq<string>, patch: seq<string>)
    requires t in major && t in patch
    ensures GetBumpType(t + ": " + d, major, minor, patch) == Bump(Major)
  {
    assert BareHeader(t, ' ', d) == t + ": " + d;
    BareHeaderAccepted(t, ' ', d, major, None);
  }

  /** A message that some group accepts is never refused. */
  lemma AcceptedMessageClassified(message: string, major: seq<string>, minor: seq<string>, patch: seq<string>, b: BumpType)
    requires Accepts(message, b, major, minor, patch)
    ensures GetBumpType(message, major, minor, patch).Bump?
    ensures Rank(GetBumpType(message, major, minor, patch).bump) >= Rank(b)
  {
  }

  /** With plain keywords, a bare header `t:<ws>…` is classified by the first group, in
      the order major, minor, patch, that lists `t`; it is refused when none does. */
  lemma BareHeaderClassified(t: string, c: char, d: string, major: seq<string>, minor: seq<string>, patch: seq<string>)
    requires Plain(t) && IsWs(c) && forall u | u in major + minor + patch :: Plain(u)
    ensures GetBumpType(BareHeader(t, c, d), major, minor, patch)
      == if t in TypeAlternatives(major) then Bump(Major)
         else if t in TypeAlternatives(minor) then Bump(Minor)
         else if t in TypeAlternatives(patch) then Bump(Patch)
         else NoMatch(BareHeader(t, c, d))
  {
    var m := BareHeader(t, c, d);
    assert forall u | u in major :: Plain(u);
    assert forall u | u in minor :: Plain(u);
    assert forall u | u in patch :: Plain(u);
    BareHeaderExact(t, c, d, major, None);
    BareHeaderExact(t, c, d, minor, None);
    BareHeaderExact(t, c, d, patch, None);
    FirstMatchPriority(m, major, minor, patch);
  }

  // ---------------------------------------------------------------------------
  // The scenarios of the repository's `getBumpType` tests, with its keyword groups,
  // for any description.

  const TestMajor: seq<string> := ["major", "breaking"]
  const TestMinor: seq<string> := ["minor", "feat"]
  const TestPatch: seq<string> := ["patch", "fix", "chore"]

  lemma TestKeywordsPlain()
    ensures Plain("breaking") && Plain("feat") && Plain("fix") && Plain("docs")
    ensures forall u | u in TestMajor + TestMinor + TestPatch :: Plain(u)
  {
  }

  /** With plain, non-empty groups, `t: …` is a `b` bump when the group of `b` lists `t`
      and no group of a larger bump does. */
  lemma BareHeaderBump(t: string, d: string, major: seq<string>, minor: seq<string>, patch: seq<string>, b: BumpType)
    requires Plain(t) && forall u | u in major + minor + patch :: Plain(u)
    requires major != [] && minor != [] && patch != []
    requires t in Group(b, major, minor, patch)
    requires forall c | Rank(c) > Rank(b) :: t !in Group(c, major, minor, patch)
    ensures GetBumpType(t + ": " + d, major, minor, patch) == Bump(b)
  {
    assert BareHeader(t, ' ', d) == t + ": " + d;
    BareHeaderClassified(t, ' ', d, major, minor, patch);
    assert Rank(Major) > Rank(b) ==> t !in major;
    assert Rank(Minor) > Rank(b) ==> t !in minor;
  }

  /** With plain, non-empty groups, `t: …` is refused when no group lists `t`. */
  lemma BareHeaderUnlisted(t: string, d: string, major: seq<string>, minor: seq<string>, patch: seq<string>)
    requires Plain(t) && forall u | u in major + minor + patch :: Plain(u)
    requires major != [] && minor != [] && patch != []
    requires t !in major && t !in minor && t !in patch
    ensures GetBumpType(t + ": " + d, major, minor, patch) == NoMatch(t + ": " + d)
  {
    assert BareHeader(t, ' ', d) == t + ": " + d;
    BareHeaderClassified(t, ' ', d, major, minor, patch);
  }

  lemma BreakingIsMajor(d: string)
    ensures GetBumpType("breaking: " + d, TestMajor, TestMinor, TestPatch) == Bump(Major)
  {
    TestKeywordsPlain();
    assert "breaking" in TestMajor;
    assert "breaking" + ": " + d == "breaking: " + d;
    BareHeaderBump("breaking", d, TestMajor, TestMinor, TestPatch, Major);
  }

  lemma FeatIsMinor(d: string)
    ensures GetBumpType("feat: " + d, TestMajor, TestMinor, TestPatch) == Bump(Minor)
  {
    TestKeywordsPlain();
    assert "feat" !in TestMajor && "feat" in TestMinor;
    assert "feat" + ": " + d == "feat: " + d;
    BareHeaderBump("feat", d, TestMajor, TestMinor, TestPatch, Minor);
  }

  lemma FixIsPatch(d: string)
    ensures GetBumpType("fix: " + d, TestMajor, TestMinor, TestPatch) == Bump(Patch)
  {
    TestKeywordsPlain();
    assert "fix" !in TestMajor && "fix" !in TestMinor && "fix" in TestPatch;
    assert "fix" + ": " + d == "fix: " + d;
    BareHeaderBump("fix", d, TestMajor, TestMinor, TestPatch, Patch);
  }

  lemma DocsHasNoBump(d: string)
    ensures GetBumpType("docs: " + d, TestMajor, TestMinor, TestPatch) == NoMatch("docs: " + d)
  {
    TestKeywordsPlain();
    assert "docs" !in TestMajor && "docs" !in TestMinor && "docs" !in TestPatch;
    assert "docs" + ": " + d == "docs: " + d;
    BareHeaderUnlisted("docs", d, TestMajor, TestMinor, TestPatch);
  }
}
