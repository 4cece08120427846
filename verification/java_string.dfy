/**
  The few `java.lang.String` operations the launcher relies on, with the exact
  semantics of the Java library: `trim`, `replace` of one character by another,
  and `split` with a literal (non-empty) delimiter.
 */
module JavaString {

  /** `s` with every leading character `<= ' '` removed (first half of `String.trim`). */
  function TrimLeading(s: string): (r: string)
    ensures |r| <= |s| && r == s[|s| - |r|..]
    ensures forall k :: 0 <= k < |s| - |r| ==> s[k] <= ' '
    ensures r == [] || r[0] > ' '
    decreases |s|
  {
    if |s| > 0 && s[0] <= ' ' then TrimLeading(s[1..]) else s
  }

  /** `s` with every trailing character `<= ' '` removed (second half of `String.trim`). */
  function TrimTrailing(s: string): (r: string)
    ensures |r| <= |s| && r == s[..|r|]
    ensures forall k :: |r| <= k < |s| ==> s[k] <= ' '
    ensures r == [] || r[|r| - 1] > ' '
    decreases |s|
  {
    if |s| > 0 && s[|s| - 1] <= ' ' then TrimTrailing(s[..|s| - 1]) else s
  }

  /**
    Java's `String.trim`: the longest infix of `s` that neither starts nor ends
    with a character `<= ' '` once everything `<= ' '` around it is cut away.
   */
  function Trim(s: string): (r: string)
    ensures exists i, j :: 0 <= i <= j <= |s| && r == s[i..j]
                           && (forall k :: 0 <= k < i ==> s[k] <= ' ')
                           && (forall k :: j <= k < |s| ==> s[k] <= ' ')
    ensures r == [] || (r[0] > ' ' && r[|r| - 1] > ' ')
  {
    var a := TrimLeading(s);
    var r := TrimTrailing(a);
    var i := |s| - |a|;
    assert r == s[i..i + |r|];
    r
  }

  /** Trimming leaves nothing exactly when every character is `<= ' '`. */
  lemma TrimEmptyIff(s: string)
    ensures Trim(s) == [] <==> forall k :: 0 <= k < |s| ==> s[k] <= ' '
  {
    var a := TrimLeading(s);
    if a != [] {
      assert a[0] > ' ' && a[0] == s[|s| - |a|];
      assert TrimTrailing(a) != [];
    }
  }

  /**
    Replacing one character by another everywhere: every `from` becomes `to`,
    all else is kept. The launcher calls `String.replace(CharSequence, CharSequence)`
    with the one-character strings `"\\"` and `"/"`; with one-character target and
    replacement, non-overlapping left-to-right matching of the target is exactly
    a per-character replacement, so it agrees with `String.replace(char, char)`.
   */
  function ReplaceChar(s: string, from: char, to: char): (r: string)
    ensures |r| == |s|
    ensures forall i :: 0 <= i < |s| ==> r[i] == (if s[i] == from then to else s[i])
    ensures from != to ==> from !in r
  {
    if s == [] then [] else [if s[0] == from then to else s[0]] + ReplaceChar(s[1..], from, to)
  }

  /** Replacing characters works piece by piece. */
  lemma {:induction false} ReplaceCharConcat(a: string, b: string, from: char, to: char)
    ensures ReplaceChar(a + b, from, to) == ReplaceChar(a, from, to) + ReplaceChar(b, from, to)
    decreases |a|
  {
    if a != [] {
      assert (a + b)[1..] == a[1..] + b;
      ReplaceCharConcat(a[1..], b, from, to);
    }
  }

  /** `d` occurs in `s` as a contiguous substring, starting at some position of `s`. */
  predicate Contains(s: string, d: string)
    decreases |s|
  {
    d <= s || (|s| > 0 && Contains(s[1..], d))
  }

  /**
    No proper prefix of `d` is also a suffix of it, so two occurrences of `d`
    can never overlap. `" "` and `"; "` are border-free; `"aa"` is not.
   */
  predicate BorderFree(d: string)
  {
    forall j :: 0 < j < |d| ==> d[j..] != d[..|d| - j]
  }

  /** A string without the delimiter's first character does not contain the delimiter. */
  lemma {:induction false} FirstCharAbsent(s: string, d: string)
    requires |d| > 0 && d[0] !in s
    ensures !Contains(s, d)
    decreases |s|
  {
    if |s| > 0 {
      assert s[0] != d[0];
      FirstCharAbsent(s[1..], d);
    }
  }

  /** `s` ends with `d`. */
  predicate EndsWith(s: string, d: string)
  {
    |d| <= |s| && s[|s| - |d|..] == d
  }

  /**
    Every piece of `s` between the leftmost non-overlapping occurrences of `d`,
    including the (possibly empty) pieces before the first and after the last
    occurrence. This is the list Java's regex split builds before it decides
    what to return.
   */
  function Pieces(s: string, d: string): (r: seq<string>)
    requires |d| > 0
    ensures |r| >= 1
    ensures r[0] <= s
    ensures |r| == 1 ==> r[0] == s
    decreases |s|
  {
    if |s| == 0 then [""]
    else if d <= s then [""] + Pieces(s[|d|..], d)
    else
      var rest := Pieces(s[1..], d);
      [[s[0]] + rest[0]] + rest[1..]
  }

  /** No piece contains the delimiter, and there is more than one piece exactly when it occurs. */
  lemma {:induction false} PiecesAvoidDelimiter(s: string, d: string)
    requires |d| > 0
    ensures forall i :: 0 <= i < |Pieces(s, d)| ==> !Contains(Pieces(s, d)[i], d)
    ensures |Pieces(s, d)| == 1 <==> !Contains(s, d)
    decreases |s|
  {
    if |s| == 0 {
    } else if d <= s {
      PiecesAvoidDelimiter(s[|d|..], d);
    } else {
      PiecesAvoidDelimiter(s[1..], d);
      var rest := Pieces(s[1..], d);
      var first := [s[0]] + rest[0];
      assert first[1..] == rest[0];
      assert Pieces(s, d) == [first] + rest[1..];
    }
  }

  /** `p` without its trailing empty strings (all of them). */
  function DropTrailingEmpty(p: seq<string>): (r: seq<string>)
    ensures r <= p
    ensures r == [] || r[|r| - 1] != ""
    ensures forall i :: |r| <= i < |p| ==> p[i] == ""
  {
    if p == [] || p[|p| - 1] != "" then p else DropTrailingEmpty(p[..|p| - 1])
  }

  /**
    Java's `s.split(regex)` where the regex matches exactly the literal `d`
    (`"; "`, `" "`, or `Pattern.quote(d)`): when `d` does not occur the answer
    is `[s]` untouched (even for `s == ""`); otherwise it is the pieces with
    every trailing empty piece dropped, while leading and inner empty pieces stay.
   */
  function Split(s: string, d: string): (r: seq<string>)
    requires |d| > 0
    ensures forall i :: 0 <= i < |r| ==> !Contains(r[i], d)
    ensures !Contains(s, d) ==> r == [s]
    ensures Contains(s, d) ==> r == [] || r[|r| - 1] != ""
    ensures r <= Pieces(s, d)
    ensures forall i :: |r| <= i < |Pieces(s, d)| ==> Pieces(s, d)[i] == ""
  {
    PiecesAvoidDelimiter(s, d);
    var p := Pieces(s, d);
    if |p| == 1 then p else DropTrailingEmpty(p)
  }
}
