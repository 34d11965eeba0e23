/**
 * `getBumpType`: the semantic-version bump a commit header asks for, chosen by
 * which keyword group its type belongs to, major before minor before patch.
 */
module Bump {
  import opened Strings
  import opened Header

  datatype BumpType = Major | Minor | Patch

  /** The classification, or the error `getBumpType` throws, carrying the message. */
  datatype Result = Bump(bump: BumpType) | NoMatch(message: string)

  /** How large a bump is: a major bump outranks a minor one, which outranks a patch. */
  function Rank(b: BumpType): nat {
    match b
    case Major => 2
    case Minor => 1
    case Patch => 0
  }

  /** The keyword group that stands for `b`. */
  function Group(b: BumpType, major: seq<string>, minor: seq<string>, patch: seq<string>): seq<string> {
    match b
    case Major => major
    case Minor => minor
    case Patch => patch
  }

  /** The group of `b` accepts the message under the pattern `getBumpType` builds:
      no scope list and the scope optional. */
  predicate Accepts(message: string, b: BumpType, major: seq<string>, minor: seq<string>, patch: seq<string>) {
    Matches(message, Group(b, major, minor, patch), None, false)
  }

  /** Classifies `message`: the result is the largest bump whose group accepts the
      message, and the error exactly when no group accepts it. */
  function GetBumpType(message: string, major: seq<string>, minor: seq<string>, patch: seq<string>): (r: Result)
    ensures r.NoMatch? <==> forall b :: !Accepts(message, b, major, minor, patch)
    ensures r.NoMatch? ==> r.message == message
    ensures r.Bump? ==> Accepts(message, r.bump, major, minor, patch)
    ensures r.Bump? ==> forall b | Rank(b) > Rank(r.bump) :: !Accepts(message, b, major, minor, patch)
  {
    if Test(message, major, None, false) then
      assert Accepts(message, Major, major, minor, patch);
      Bump(Major)
    else if Test(message, minor, None, false) then
      assert Accepts(message, Minor, major, minor, patch);
      Bump(Minor)
    else if Test(message, patch, None, false) then
      assert Accepts(message, Patch, major, minor, patch);
      Bump(Patch)
    else
      NoMatch(message)
  }
}
