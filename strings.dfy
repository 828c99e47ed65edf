/**
 * The JavaScript string primitives the extension relies on, written out:
 * the `\s` character class, `toLowerCase`, `trim`, `startsWith`, `includes`,
 * `indexOf`, `split(/\s+/)` and `join(" ")`.
 *
 * Assumptions (stated, not proved about JavaScript): `\s` is the fixed set in
 * `IsSpace`, and `toLowerCase` only maps the ASCII letters A-Z.
 */
module Strings {

  /** The characters matched by JavaScript's `\s` (and removed by `trim`). U+200B is not among them. */
  predicate IsSpace(c: char) {
    c == ' ' || c == '\t' || c == '\n' || c == '\r' || c == '\U{000B}' || c == '\U{000C}'
    || c == '\U{00A0}' || c == '\U{1680}' || ('\U{2000}' <= c <= '\U{200A}')
    || c == '\U{2028}' || c == '\U{2029}' || c == '\U{202F}' || c == '\U{205F}'
    || c == '\U{3000}' || c == '\U{FEFF}'
  }

  predicate HasSpace(s: string) {
    exists k :: 0 <= k < |s| && IsSpace(s[k])
  }

  function LowerChar(c: char): char {
    if 'A' <= c <= 'Z' then (c as int + 32) as char else c
  }

  /** `toLowerCase`, restricted to ASCII. */
  function Lower(s: string): (r: string)
    ensures |r| == |s|
    ensures forall i :: 0 <= i < |s| ==> r[i] == LowerChar(s[i])
  {
    seq(|s|, i requires 0 <= i < |s| => LowerChar(s[i]))
  }

  lemma LowerIdempotent(s: string)
    ensures Lower(Lower(s)) == Lower(s)
  {
  }

  predicate StartsWith(s: string, p: string) {
    |p| <= |s| && s[..|p|] == p
  }

  /** `needle` occurs in `hay` starting at index `i`. */
  predicate OccursAt(hay: string, needle: string, i: int) {
    0 <= i && i + |needle| <= |hay| && hay[i..i + |needle|] == needle
  }

  /** `includes`: `needle` occurs somewhere in `hay`. */
  predicate Contains(hay: string, needle: string) {
    exists i | 0 <= i <= |hay| :: OccursAt(hay, needle, i)
  }

  lemma ContainsEmpty(hay: string)
    ensures Contains(hay, "")
  {
    assert OccursAt(hay, "", 0);
  }

  /** `indexOf(c)`, or `|s|` when `c` does not occur. */
  function IndexOf(s: string, c: char): (r: nat)
    ensures r <= |s|
    ensures r < |s| ==> s[r] == c
    ensures forall k :: 0 <= k < r ==> s[k] != c
  {
    if s == [] then 0 else if s[0] == c then 0 else 1 + IndexOf(s[1..], c)
  }

  /** The first index at or after `i` holding a space character, or `|s|`. */
  function SpaceFrom(s: string, i: nat): (r: nat)
    requires i <= |s|
    ensures i <= r <= |s|
    ensures r < |s| ==> IsSpace(s[r])
    ensures forall k :: i <= k < r ==> !IsSpace(s[k])
    decreases |s| - i
  {
    if i == |s| || IsSpace(s[i]) then i else SpaceFrom(s, i + 1)
  }

  /** The first index at or after `i` holding a non-space character, or `|s|`. */
  function NonSpaceFrom(s: string, i: nat): (r: nat)
    requires i <= |s|
    ensures i <= r <= |s|
    ensures r < |s| ==> !IsSpace(s[r])
    ensures forall k :: i <= k < r ==> IsSpace(s[k])
    decreases |s| - i
  {
    if i == |s| || !IsSpace(s[i]) then i else NonSpaceFrom(s, i + 1)
  }

  function TrimEnd(s: string): (r: string)
    ensures r <= s
    ensures r != [] ==> !IsSpace(r[|r| - 1])
    ensures forall k :: |r| <= k < |s| ==> IsSpace(s[k])
  {
    if s != [] && IsSpace(s[|s| - 1]) then TrimEnd(s[..|s| - 1]) else s
  }

  /** `trim`: the string without leading and trailing space characters. */
  function Trim(s: string): (r: string)
    ensures r != [] ==> !IsSpace(r[0]) && !IsSpace(r[|r| - 1])
    ensures Contains(s, r)
  {
    var i := NonSpaceFrom(s, 0);
    var r := TrimEnd(s[i..]);
    assert OccursAt(s, r, i);
    r
  }

  lemma TrimNoSpace(s: string)
    requires !HasSpace(s)
    ensures Trim(s) == s
  {
    assert NonSpaceFrom(s, 0) == 0;
    assert s[0..] == s;
  }

  lemma {:induction false} TrimEndSpaces(s: string, t: string)
    requires forall k :: 0 <= k < |t| ==> IsSpace(t[k])
    ensures TrimEnd(s + t) == TrimEnd(s)
    decreases |t|
  {
    if t != [] {
      assert (s + t)[..|s + t| - 1] == s + t[..|t| - 1];
      TrimEndSpaces(s, t[..|t| - 1]);
    } else {
      assert s + t == s;
    }
  }

  /** Trailing space characters do not change the trimmed value. */
  lemma TrimTrailingSpace(s: string, t: string)
    requires forall k :: 0 <= k < |t| ==> IsSpace(t[k])
    ensures Trim(s + t) == Trim(s)
  {
    var i := NonSpaceFrom(s, 0);
    if i < |s| {
      assert NonSpaceFrom(s + t, 0) == i by {
        assert forall k :: 0 <= k < i ==> (s + t)[k] == s[k];
        NonSpaceFromSame(s + t, i);
      }
      assert (s + t)[i..] == s[i..] + t;
      TrimEndSpaces(s[i..], t);
    } else {
      var j := NonSpaceFrom(s + t, 0);
      assert j == |s + t|;
      assert TrimEnd(s[i..]) == [];
    }
  }

  lemma NonSpaceFromSame(s: string, i: nat)
    requires i < |s| && !IsSpace(s[i])
    requires forall k :: 0 <= k < i ==> IsSpace(s[k])
    ensures NonSpaceFrom(s, 0) == i
  {
  }

  /**
   * `split(/\s+/)`: the pieces between maximal runs of space characters.
   * A leading run gives a first piece "" and a trailing run a last piece "".
   */
  function SplitWs(s: string): (ws: seq<string>)
    ensures |ws| >= 1
    decreases |s|
  {
    var i := SpaceFrom(s, 0);
    if i == |s| then [s] else [s[..i]] + SplitWs(s[NonSpaceFrom(s, i)..])
  }

  /** `join(" ")`. */
  function JoinSp(ws: seq<string>): string {
    if |ws| == 0 then "" else if |ws| == 1 then ws[0] else ws[0] + " " + JoinSp(ws[1..])
  }

  /** A string splits into more than one piece exactly when it contains a space character. */
  lemma SplitWsMany(s: string)
    ensures |SplitWs(s)| > 1 <==> HasSpace(s)
  {
    var i := SpaceFrom(s, 0);
    if i < |s| {
      assert IsSpace(s[i]);
    }
  }

  /** No piece of a split holds a space character, and every piece but the first and the last is non-empty. */
  lemma {:induction false} SplitWsPieces(s: string)
    ensures forall k :: 0 <= k < |SplitWs(s)| ==> !HasSpace(SplitWs(s)[k])
    ensures forall k :: 0 < k < |SplitWs(s)| - 1 ==> SplitWs(s)[k] != ""
    decreases |s|
  {
    var i := SpaceFrom(s, 0);
    if i < |s| {
      var j := NonSpaceFrom(s, i);
      var rest := s[j..];
      SplitWsPieces(rest);
      assert !HasSpace(s[..i]);
      if |SplitWs(rest)| > 1 {
        assert rest != [];
        var i' := SpaceFrom(rest, 0);
        assert i' > 0;
        assert SplitWs(rest)[0] == rest[..i'];
      }
    }
  }

  /** Splitting the space-joined words gives the words back, when no word holds a space and only the first and the last may be empty. */
  lemma {:induction false} SplitJoin(ws: seq<string>)
    requires |ws| >= 1
    requires forall k :: 0 <= k < |ws| ==> !HasSpace(ws[k])
    requires forall k :: 0 < k < |ws| - 1 ==> ws[k] != ""
    ensures SplitWs(JoinSp(ws)) == ws
    decreases |ws|
  {
    var w := ws[0];
    if |ws| == 1 {
      assert SpaceFrom(w, 0) == |w|;
    } else {
      var rest := ws[1..];
      var j := JoinSp(rest);
      SplitJoin(rest);
      var s := w + " " + j;
      assert s[|w|] == ' ';
      assert forall k :: 0 <= k < |w| ==> s[k] == w[k];
      assert SpaceFrom(s, 0) == |w|;
      if |rest| > 1 {
        assert rest[0] != "";
        assert j == rest[0] + " " + JoinSp(rest[1..]);
        assert j[0] == rest[0][0];
      } else {
        assert j == rest[0];
      }
      assert j != [] ==> s[|w| + 1] == j[0] && !IsSpace(j[0]) by {
        if j != [] {
          assert !HasSpace(rest[0]);
          if |rest| > 1 {
            assert j[0] == rest[0][0];
          }
        }
      }
      assert NonSpaceFrom(s, |w|) == |w| + 1;
      assert s[..|w|] == w;
      assert s[|w| + 1..] == j;
    }
  }

  /** Joining all pieces of a split but the last is shorter than the string, by at least the last piece and one separator. */
  lemma {:induction false} JoinPrefixShorter(s: string)
    requires |SplitWs(s)| > 1
    ensures |JoinSp(SplitWs(s)[..|SplitWs(s)| - 1])| + |SplitWs(s)[|SplitWs(s)| - 1]| < |s|
    decreases |s|
  {
    var ws := SplitWs(s);
    var i := SpaceFrom(s, 0);
    var j := NonSpaceFrom(s, i);
    var rest := s[j..];
    assert ws == [s[..i]] + SplitWs(rest);
    var rs := SplitWs(rest);
    if |rs| == 1 {
      assert ws[..|ws| - 1] == [s[..i]];
    } else {
      JoinPrefixShorter(rest);
      assert ws[..|ws| - 1] == [s[..i]] + rs[..|rs| - 1];
      assert ([s[..i]] + rs[..|rs| - 1])[1..] == rs[..|rs| - 1];
    }
  }
}
