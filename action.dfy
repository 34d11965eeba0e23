/**
 * The decision `run` makes once its inputs are read: parse the keyword inputs (with
 * their defaults), check the message against the union of all keyword groups with the
 * scope settings, then classify it. Reading the inputs, logging and publishing the
 * output or the failure are left to the caller.
 */
module Action {
  import opened Strings
  import opened Header
  import opened Bump

  const DefaultMajor: seq<string> := ["major", "breaking"]
  const DefaultMinor: seq<string> := ["minor", "feat", "ft"]
  const DefaultPatch: seq<string> := ["patch", "fix", "chore", "docs"]

  /** The raw action inputs, as `getInput` hands them over ("" when not set). */
  datatype Inputs = Inputs(
    message: string,
    keywordsMajor: string,
    keywordsMinor: string,
    keywordsPatch: string,
    keywordsScope: string,
    forceScope: string)

  /** The parsed configuration; `scopes == None` stands for `undefined`. */
  datatype Config = Config(
    major: seq<string>,
    minor: seq<string>,
    patch: seq<string>,
    scopes: Option<seq<string>>,
    forceScope: bool)

  datatype Failure =
    | NotConventional(message: string)  // the message fails the union pattern
    | NoBumpType(message: string)       // `getBumpType` threw

  /** What `run` publishes: the `type` output, or a failure. */
  datatype Outcome = Output(bump: BumpType) | Failed(failure: Failure)

  /** The comma-separated pieces of `input`, each trimmed, in order, empty pieces kept. */
  function Keywords(input: string): (r: seq<string>)
    ensures |r| == |Split(input, ',')| >= 1
    ensures forall k | 0 <= k < |r| :: r[k] == Trim(Split(input, ',')[k])
  {
    var pieces := Split(input, ',');
    seq(|pieces|, k requires 0 <= k < |pieces| => Trim(pieces[k]))
  }

  /** A keyword input: the defaults when it is empty, its pieces otherwise. */
  function ParseKeywords(input: string, defaults: seq<string>): (r: seq<string>)
    ensures input == "" ==> r == defaults
    ensures input != "" ==> r == Keywords(input)
  {
    if input == "" then defaults else Keywords(input)
  }

  /** Reads the configuration: keyword groups with defaults, scopes absent when the input
      is empty, and the scope forced only by the exact string "true". */
  function ParseConfig(inputs: Inputs): (c: Config)
    ensures c.major == ParseKeywords(inputs.keywordsMajor, DefaultMajor)
    ensures c.minor == ParseKeywords(inputs.keywordsMinor, DefaultMinor)
    ensures c.patch == ParseKeywords(inputs.keywordsPatch, DefaultPatch)
    ensures c.major != [] && c.minor != [] && c.patch != []
    ensures c.scopes.None? <==> inputs.keywordsScope == ""
    ensures c.scopes.Some? ==> c.scopes.value == Keywords(inputs.keywordsScope)
    ensures c.forceScope <==> inputs.forceScope == "true"
  {
    Config(
      ParseKeywords(inputs.keywordsMajor, DefaultMajor),
      ParseKeywords(inputs.keywordsMinor, DefaultMinor),
      ParseKeywords(inputs.keywordsPatch, DefaultPatch),
      if inputs.keywordsScope == "" then None else Some(Keywords(inputs.keywordsScope)),
      inputs.forceScope == "true")
  }

  /** The union of the three groups, in the order `run` spreads them. */
  function AllTypes(c: Config): (r: seq<string>)
    ensures |r| == |c.major| + |c.minor| + |c.patch|
    ensures forall t :: t in r <==> t in c.major || t in c.minor || t in c.patch
  {
    c.major + c.minor + c.patch
  }

  /** Conformance, then classification. The message fails as non-conventional exactly when
      the union pattern (with scopes and the force flag) rejects it; otherwise the outcome
      is what `getBumpType` gives. */
  function Decide(message: string, c: Config): (r: Outcome)
    ensures r == Failed(NotConventional(message)) <==> !Matches(message, AllTypes(c), c.scopes, c.forceScope)
    ensures r.Failed? ==> r.failure.message == message
    ensures r.Output? ==> (Matches(message, AllTypes(c), c.scopes, c.forceScope)
                           && GetBumpType(message, c.major, c.minor, c.patch) == Bump(r.bump))
    ensures r == Failed(NoBumpType(message)) ==> GetBumpType(message, c.major, c.minor, c.patch).NoMatch?
  {
    if !Test(message, AllTypes(c), c.scopes, c.forceScope) then
      Failed(NotConventional(message))
    else
      match GetBumpType(message, c.major, c.minor, c.patch)
      case Bump(b) => Output(b)
      case NoMatch(m) => Failed(NoBumpType(m))
  }

  /** The whole pure part of `run`: the message fails as non-conventional exactly when
      the configured pattern rejects it, a failure always carries the message it was given,
      and an output is `getBumpType`'s bump over the parsed groups for a message that
      passed the configured pattern; it fails with no bump type only when `getBumpType`
      throws. */
  function Run(inputs: Inputs): (r: Outcome)
    ensures r == Failed(NotConventional(inputs.message))
            <==> !Matches(inputs.message, AllTypes(ParseConfig(inputs)), ParseConfig(inputs).scopes,
                          inputs.forceScope == "true")
    ensures r.Failed? ==> r.failure.message == inputs.message
    ensures r.Output? ==> Matches(inputs.message, AllTypes(ParseConfig(inputs)), ParseConfig(inputs).scopes,
                                  inputs.forceScope == "true")
    ensures r.Output? ==> GetBumpType(inputs.message, ParseConfig(inputs).major, ParseConfig(inputs).minor,
                                      ParseConfig(inputs).patch) == Bump(r.bump)
    ensures r == Failed(NoBumpType(inputs.message))
            ==> GetBumpType(inputs.message, ParseConfig(inputs).major, ParseConfig(inputs).minor,
                            ParseConfig(inputs).patch).NoMatch?
  {
    Decide(inputs.message, ParseConfig(inputs))
  }
}
