/**
 Recognition of the require directive `*require '<path>'*` inside one line of a fragment.

 The source compiles the regular expression `\*require '(.+)'\*` and asks the matcher for
 its first match in the line. Written as a string function this means:
 - the match starts at the leftmost position `i` where the ten-character opening marker
   `*require '` occurs AND a closing marker `'*` occurs at some `j >= i + 11` (the group
   `.+` needs at least one character);
 - the group `.+` is greedy, so among those closings the LAST one is taken, and the
   captured path `line[i + 10 .. j]` may itself contain quotes or `'*`.
 The regular expression's `.` is taken to match every character.
 */
module Directive {
  import opened Wrappers

  const Opening: string := "*require '"
  const Closing: string := "'*"

  /** The opening marker occurs at position `i`. */
  predicate OpensAt(line: string, i: int) {
    0 <= i && i + |Opening| <= |line| && line[i..i + |Opening|] == Opening
  }

  /** The closing marker occurs at position `j`. */
  predicate ClosesAt(line: string, j: int) {
    0 <= j && j + |Closing| <= |line| && line[j..j + |Closing|] == Closing
  }

  /** The pattern matches with its opening at `i` and its closing at `j` (non-empty group). */
  predicate MatchAt(line: string, i: int, j: int) {
    OpensAt(line, i) && i + |Opening| < j && ClosesAt(line, j)
  }

  ghost predicate Matches(line: string) {
    exists i, j :: MatchAt(line, i, j)
  }

  /** The greatest closing position in `[lo, hi)`, if any: the greedy group's end. */
  function LastClosing(line: string, lo: int, hi: int): (r: Option<int>)
    requires 0 <= lo
    ensures r.Some? ==> lo <= r.value < hi && ClosesAt(line, r.value)
    ensures r.Some? ==> forall j :: r.value < j < hi ==> !ClosesAt(line, j)
    ensures r.None? ==> forall j :: lo <= j < hi ==> !ClosesAt(line, j)
    decreases hi - lo
  {
    if hi <= lo then None
    else if ClosesAt(line, hi - 1) then Some(hi - 1)
    else LastClosing(line, lo, hi - 1)
  }

  /** The first match of the pattern that starts at or after position `i`. */
  function FindFrom(line: string, i: nat): (r: Option<string>)
    ensures r.None? <==> forall a, b :: i <= a ==> !MatchAt(line, a, b)
    ensures r.Some? ==> exists a, b ::
      && i <= a
      && CapturedAt(line, a, b, r.value)
      && (forall a', b' :: i <= a' < a ==> !MatchAt(line, a', b'))
    decreases |line| - i
  {
    if i >= |line| then None
    else if OpensAt(line, i) then
      match LastClosing(line, i + |Opening| + 1, |line|)
      case Some(j) =>
        var path := line[i + |Opening| .. j];
        assert CapturedAt(line, i, j, path);
        Some(path)
      case None => FindFrom(line, i + 1)
    else FindFrom(line, i + 1)
  }

  /**
   `path` is what the group captures when the leftmost match starts at `a` and greedily
   ends at `b`: no match starts before `a`, and no closing after `b` pairs with `a`.
   */
  ghost predicate CapturedAt(line: string, a: int, b: int, path: string) {
    && MatchAt(line, a, b)
    && path == line[a + |Opening| .. b]
    && (forall j :: b < j ==> !MatchAt(line, a, j))
  }

  /**
   The path captured by the first match of the directive pattern in `line`, or `None` when
   the line holds no directive.
   */
  function RequiredPath(line: string): (r: Option<string>)
    ensures r.None? <==> !Matches(line)
    ensures r.Some? ==> |r.value| >= 1
    ensures r.Some? ==> exists a, b ::
      && CapturedAt(line, a, b, r.value)
      && (forall a', b' :: a' < a ==> !MatchAt(line, a', b'))
  {
    FindFrom(line, 0)
  }

  /**
   Only the first opening marker of a line can start the match: if a later opening pairs
   with some closing, so does the first one, with the same closing.
   */
  lemma CaptureFollowsFirstOpening(line: string)
    requires RequiredPath(line).Some?
    ensures exists a, b ::
      && CapturedAt(line, a, b, RequiredPath(line).value)
      && (forall a' :: 0 <= a' < a ==> !OpensAt(line, a'))
  {
    var a, b :| CapturedAt(line, a, b, RequiredPath(line).value)
             && (forall a', b' :: a' < a ==> !MatchAt(line, a', b'));
    forall a' | 0 <= a' < a
      ensures !OpensAt(line, a')
    {
      assert !MatchAt(line, a', b);
    }
  }
}
