/**
 * The JavaScript string primitives the action relies on: the character
 * classes behind the regular-expression escapes `\s` and `.`, and
 * `String.prototype.split`, `Array.prototype.join` and
 * `String.prototype.trim` on strings modelled as `seq<char>`.
 */
module Strings {

  datatype Option<+T> = None | Some(value: T)

  /** ECMAScript LineTerminator: LF, CR, LINE SEPARATOR, PARAGRAPH SEPARATOR.
      These are exactly the characters the regex atom `.` refuses. */
  predicate IsLineTerminator(c: char) {
    c == '\n' || c == '\r' || c == '\U{2028}' || c == '\U{2029}'
  }

  /** ECMAScript WhiteSpace or LineTerminator: the class of the regex escape `\s`,
      and also the set of characters `String.prototype.trim` removes.
      WhiteSpace is TAB, VT, FF, ZWNBSP and every character of category Zs. */
  predicate IsWs(c: char) {
    || c == '\t' || c == '\U{B}' || c == '\U{C}' || c == '\U{FEFF}'
    || c == ' ' || c == '\U{A0}' || c == '\U{1680}' || ('\U{2000}' <= c <= '\U{200A}')
    || c == '\U{202F}' || c == '\U{205F}' || c == '\U{3000}'
    || IsLineTerminator(c)
  }

  predicate NoLineTerminator(s: string) {
    forall k | 0 <= k < |s| :: !IsLineTerminator(s[k])
  }

  /** A non-empty string is free of line terminators iff its head and its tail are. */
  lemma NoLineTerminatorCons(s: string)
    requires |s| > 0
    ensures NoLineTerminator(s) <==> !IsLineTerminator(s[0]) && NoLineTerminator(s[1..])
  {
    if !IsLineTerminator(s[0]) && NoLineTerminator(s[1..]) {
      forall k | 0 <= k < |s| ensures !IsLineTerminator(s[k]) {
        if k > 0 { assert s[k] == s[1..][k - 1]; }
      }
    }
  }

  predicate IsPrefix(p: string, s: string) {
    |p| <= |s| && s[..|p|] == p
  }

  /** `pieces.join(sep)`: the pieces with one separator between neighbours; `[].join` is "". */
  function Join(pieces: seq<string>, sep: char): (r: string)
    ensures |pieces| == 1 ==> r == pieces[0]
    decreases |pieces|
  {
    if |pieces| == 0 then ""
    else if |pieces| == 1 then pieces[0]
    else pieces[0] + [sep] + Join(pieces[1..], sep)
  }

  /** `s.split(sep)` for a one-character separator: the maximal separator-free runs of `s`,
      in order, empty runs included (so "" splits into [""] and "a,,b" into ["a", "", "b"]).
      The contract pins the result down: joining it back gives `s` (see also SplitJoin). */
  function Split(s: string, sep: char): (r: seq<string>)
    ensures |r| >= 1
    ensures Join(r, sep) == s
    ensures forall p | p in r :: sep !in p
    decreases |s|
  {
    if |s| == 0 then [""]
    else
      var rest := Split(s[1..], sep);
      if s[0] == sep then [""] + rest
      else [[s[0]] + rest[0]] + rest[1..]
  }

  /** Splitting undoes joining, whenever no piece contains the separator. */
  lemma {:induction false} SplitJoin(pieces: seq<string>, sep: char)
    requires |pieces| >= 1
    requires forall p | p in pieces :: sep !in p
    ensures Split(Join(pieces, sep), sep) == pieces
    decreases |pieces|, |pieces[0]|
  {
    var p0 := pieces[0];
    if |p0| == 0 {
      if |pieces| > 1 {
        var tail := pieces[1..];
        assert Join(pieces, sep) == [sep] + Join(tail, sep);
        assert ([sep] + Join(tail, sep))[1..] == Join(tail, sep);
        SplitJoin(tail, sep);
        assert pieces == [""] + tail;
      }
    } else {
      var shorter := [p0[1..]] + pieces[1..];
      forall p | p in shorter ensures sep !in p {
        if p == p0[1..] {
          assert forall x | x in p0[1..] :: x in p0;
        } else {
          assert p in pieces;
        }
      }
      assert shorter[1..] == pieces[1..];
      assert Join(pieces, sep) == [p0[0]] + Join(shorter, sep);
      assert ([p0[0]] + Join(shorter, sep))[1..] == Join(shorter, sep);
      assert p0[0] in p0;
      SplitJoin(shorter, sep);
      assert [p0[0]] + p0[1..] == p0;
      assert pieces == [p0] + pieces[1..];
    }
  }

  /** Every piece of a split is a run of characters of the input, so a property of all
      characters of the input holds of every piece. */
  lemma {:induction false} SplitKeepsNoLineTerminator(s: string, sep: char)
    requires NoLineTerminator(s)
    ensures forall p | p in Split(s, sep) :: NoLineTerminator(p)
    decreases |s|
  {
    if |s| > 0 {
      assert NoLineTerminator(s[1..]) by {
        forall k | 0 <= k < |s[1..]| ensures !IsLineTerminator(s[1..][k]) {
          assert s[1..][k] == s[k + 1];
        }
      }
      SplitKeepsNoLineTerminator(s[1..], sep);
      var rest := Split(s[1..], sep);
      if s[0] != sep {
        var head := [s[0]] + rest[0];
        assert rest[0] in rest;
        forall k | 0 <= k < |head| ensures !IsLineTerminator(head[k]) {
          if k > 0 { assert head[k] == rest[0][k - 1]; }
        }
      }
    }
  }

  /** Leading WhiteSpace/LineTerminator characters removed. */
  function TrimStart(s: string): (r: string)
    ensures |r| <= |s| && r == s[|s| - |r|..]
    ensures forall k | 0 <= k < |s| - |r| :: IsWs(s[k])
    ensures r == [] || !IsWs(r[0])
    decreases |s|
  {
    if |s| > 0 && IsWs(s[0]) then TrimStart(s[1..]) else s
  }

  /** Trailing WhiteSpace/LineTerminator characters removed. */
  function TrimEnd(s: string): (r: string)
    ensures |r| <= |s| && r == s[..|r|]
    ensures forall k | |r| <= k < |s| :: IsWs(s[k])
    ensures r == [] || !IsWs(r[|r| - 1])
    decreases |s|
  {
    if |s| > 0 && IsWs(s[|s| - 1]) then TrimEnd(s[..|s| - 1]) else s
  }

  /** `s.trim()`: the contiguous run of `s` left after removing whitespace at both ends;
      everything removed, at the start (the first `Lead(s)` characters) or at the end, is whitespace. */
  function Trim(s: string): (r: string)
    ensures Lead(s) + |r| <= |s| && r == s[Lead(s)..Lead(s) + |r|]
    ensures forall k | 0 <= k < Lead(s) :: IsWs(s[k])
    ensures forall k | Lead(s) + |r| <= k < |s| :: IsWs(s[k])
    ensures r == [] || (!IsWs(r[0]) && !IsWs(r[|r| - 1]))
  {
    TrimEnd(TrimStart(s))
  }

  /** How many characters `Trim` removes at the start. */
  function Lead(s: string): (n: nat)
    ensures n <= |s|
  {
    |s| - |TrimStart(s)|
  }

  /** Trimming is idempotent. */
  lemma TrimIdempotent(s: string)
    ensures Trim(Trim(s)) == Trim(s)
  {
  }

  /** Trimming cannot introduce a line terminator. */
  lemma TrimKeepsNoLineTerminator(s: string)
    requires NoLineTerminator(s)
    ensures NoLineTerminator(Trim(s))
  {
    var r, i := Trim(s), Lead(s);
    forall k | 0 <= k < |r| ensures !IsLineTerminator(r[k]) {
      assert r[k] == s[i + k];
    }
  }
}
