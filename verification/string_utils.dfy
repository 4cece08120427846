/**
  The launcher's string helpers: `hasText`, `isEmpty`, `implode` and `explode`.
  A Java `String` that may be `null` is an `Option<string>`.
 */
module StringUtils {
  import opened Wrappers
  import opened JavaString

  /**
    `hasText`: the input is non-null and something is left after `trim`, that
    is, it holds some character above `' '`.
   */
  predicate HasText(input: Option<string>)
    ensures HasText(input) <==> input.Some? && exists i :: 0 <= i < |input.value| && input.value[i] > ' '
  {
    if input.None? then false
    else
      TrimEmptyIff(input.value);
      Trim(input.value) != []
  }

  /** `isEmpty`: the input is null or has no characters; an empty input never has text. */
  predicate IsEmpty(input: Option<string>)
    ensures IsEmpty(input) ==> !HasText(input)
  {
    input.None? || |input.value| == 0
  }

  /** Only null and `""` are empty; a blank string such as `" "` is not. */
  lemma IsEmptyIff(input: Option<string>)
    ensures IsEmpty(input) <==> input == None || input == Some("")
    ensures !IsEmpty(Some(" "))
  {
  }

  /** Having text rules out being empty; the converse fails on blank strings such as `" "`. */
  lemma HasTextNotEmpty(input: Option<string>)
    ensures HasText(input) ==> !IsEmpty(input)
    ensures !HasText(Some(" ")) && !IsEmpty(Some(" "))
  {
  }

  /** `implode`: the items in order, with `delimiter` between each two neighbours. */
  function Implode(items: seq<string>, delimiter: string): string
  {
    if |items| == 0 then ""
    else if |items| == 1 then items[0]
    else items[0] + delimiter + Implode(items[1..], delimiter)
  }

  /**
    The joined string is empty for no items, starts with the first item and
    ends with the last one.
   */
  lemma {:induction false} ImplodeEnds(items: seq<string>, delimiter: string)
    ensures items == [] ==> Implode(items, delimiter) == ""
    ensures items != [] ==> items[0] <= Implode(items, delimiter)
    ensures items != [] ==> EndsWith(Implode(items, delimiter), items[|items| - 1])
    decreases |items|
  {
    if |items| > 1 {
      var rest := Implode(items[1..], delimiter);
      ImplodeEnds(items[1..], delimiter);
      assert items[1..][|items[1..]| - 1] == items[|items| - 1];
      var r := items[0] + delimiter + rest;
      assert r[|r| - |rest|..] == rest;
      assert r[..|items[0]|] == items[0];
    }
  }

  /** Adding an item at the end adds one delimiter and the item, and nothing else. */
  lemma {:induction false} ImplodeSnoc(items: seq<string>, x: string, delimiter: string)
    requires items != []
    ensures Implode(items + [x], delimiter) == Implode(items, delimiter) + delimiter + x
    decreases |items|
  {
    if |items| == 1 {
      assert items + [x] == [items[0], x];
    } else {
      assert (items + [x])[1..] == items[1..] + [x];
      ImplodeSnoc(items[1..], x, delimiter);
    }
  }

  /**
    `implode` as the source writes it: a buffer, a `first` flag, and the
    delimiter appended before every item but the first.
   */
  method ImplodeBuffered(items: seq<string>, delimiter: string) returns (buffer: string)
    ensures items == [] ==> buffer == ""
    ensures |items| == 1 ==> buffer == items[0]
    ensures buffer == Implode(items, delimiter)
  {
    if |items| == 0 {
      return "";
    }
    buffer := "";
    var first := true;
    var i := 0;
    while i < |items|
      invariant 0 <= i <= |items|
      invariant first <==> i == 0
      invariant !first ==> buffer == Implode(items[..i], delimiter)
      invariant first ==> buffer == ""
    {
      if !first {
        ImplodeSnoc(items[..i], items[i], delimiter);
        assert items[..i + 1] == items[..i] + [items[i]];
        buffer := buffer + delimiter;
      }
      buffer := buffer + items[i];
      first := false;
      i := i + 1;
    }
    assert items[..i] == items;
  }

  /**
    `explode`: nothing for a null or blank string, otherwise Java's `split` on
    the quoted (literal) delimiter. The delimiter must not be empty.
   */
  function Explode(input: Option<string>, delimiter: string): (r: seq<string>)
    requires |delimiter| > 0
    ensures !HasText(input) ==> r == []
    ensures HasText(input) && !Contains(input.value, delimiter) ==> r == [input.value]
    ensures forall i :: 0 <= i < |r| ==> !Contains(r[i], delimiter)
  {
    if !HasText(input) then [] else Split(input.value, delimiter)
  }

  /** An item in front of at least one more adds the item and one delimiter. */
  lemma ImplodeCons(x: string, items: seq<string>, delimiter: string)
    requires items != []
    ensures Implode([x] + items, delimiter) == x + delimiter + Implode(items, delimiter)
  {
    assert ([x] + items)[1..] == items;
  }

  /** Joining the raw pieces back with the delimiter rebuilds the string. */
  lemma {:induction false} ImplodePieces(s: string, d: string)
    requires |d| > 0
    ensures Implode(Pieces(s, d), d) == s
    decreases |s|
  {
    if |s| == 0 {
    } else if d <= s {
      ImplodePieces(s[|d|..], d);
      ImplodePiecesMatchStep(s, d);
    } else {
      ImplodePieces(s[1..], d);
      ImplodePiecesStep(s, d);
    }
  }

  /** The step of `ImplodePieces` when the delimiter starts the string. */
  lemma ImplodePiecesMatchStep(s: string, d: string)
    requires |d| > 0 && |s| > 0 && d <= s
    requires Implode(Pieces(s[|d|..], d), d) == s[|d|..]
    ensures Implode(Pieces(s, d), d) == s
  {
    var t := s[|d|..];
    PiecesAtMatch(s, d);
    ImplodeCons("", Pieces(t, d), d);
    PrefixRest(s, d, t);
  }

  /** A match followed by the rest is the whole string; kept apart so the sequence equality is decided in a small context. */
  lemma PrefixRest(s: string, d: string, t: string)
    requires d <= s && t == s[|d|..]
    ensures "" + d + t == s
  {
  }

  /** One unfolding of `Pieces` at a match, stated apart from the implode step that uses it. */
  lemma PiecesAtMatch(s: string, d: string)
    requires |d| > 0 && |s| > 0 && d <= s
    ensures Pieces(s, d) == [""] + Pieces(s[|d|..], d)
  {
  }

  /** One unfolding of `Pieces` where no match starts, stated apart from the implode step that uses it. */
  lemma PiecesNoMatch(s: string, d: string)
    requires |d| > 0 && |s| > 0 && !(d <= s)
    ensures var rest := Pieces(s[1..], d);
            Pieces(s, d) == [[s[0]] + rest[0]] + rest[1..]
  {
  }

  /** The step of `ImplodePieces` when no delimiter starts the string. */
  lemma ImplodePiecesStep(s: string, d: string)
    requires |d| > 0 && |s| > 0 && !(d <= s)
    requires Implode(Pieces(s[1..], d), d) == s[1..]
    ensures Implode(Pieces(s, d), d) == s
  {
    var rest := Pieces(s[1..], d);
    PiecesNoMatch(s, d);
    ImplodeExtendFirst(s[0], rest, d);
    assert Implode(Pieces(s, d), d) == [s[0]] + Implode(rest, d);
    HeadTail(s, Implode(rest, d));
  }

  /** Prefixing the first item with a character prefixes the imploded string with it. */
  lemma ImplodeExtendFirst(c: char, items: seq<string>, d: string)
    requires items != []
    ensures Implode([[c] + items[0]] + items[1..], d) == [c] + Implode(items, d)
  {
    if |items| > 1 {
      ImplodeCons([c] + items[0], items[1..], d);
      ImplodeCons(items[0], items[1..], d);
      assert items == [items[0]] + items[1..];
    }
  }

  /** The first character followed by the rest is the whole string, decided in a small context. */
  lemma HeadTail(s: string, t: string)
    requires |s| > 0 && t == s[1..]
    ensures [s[0]] + t == s
  {
  }

  /** `d` repeated `k` times. */
  function Repeat(d: string, k: nat): (r: string)
    ensures |r| == k * |d|
  {
    if k == 0 then "" else d + Repeat(d, k - 1)
  }

  /** Imploding `k + 1` empty strings leaves `k` bare delimiters. */
  lemma {:induction false} ImplodeEmpties(p: seq<string>, d: string)
    requires p != []
    requires forall i :: 0 <= i < |p| ==> p[i] == ""
    ensures Implode(p, d) == Repeat(d, |p| - 1)
    decreases |p|
  {
    if |p| > 1 {
      ImplodeEmpties(p[1..], d);
    }
  }

  /** Imploding `r` followed by `k` empty strings appends `k` delimiters. */
  lemma {:induction false} ImplodeTrailingEmpties(r: seq<string>, e: seq<string>, d: string)
    requires r != []
    requires forall i :: 0 <= i < |e| ==> e[i] == ""
    ensures Implode(r + e, d) == Implode(r, d) + Repeat(d, |e|)
    decreases |e|
  {
    if |e| > 0 {
      var e' := e[..|e| - 1];
      ImplodeTrailingEmpties(r, e', d);
      assert r + e == (r + e') + [""];
      ImplodeSnoc(r + e', "", d);
      RepeatSnoc(d, |e'|);
      calc {
        Implode(r + e, d);
        Implode(r + e', d) + d + "";
        Implode(r, d) + Repeat(d, |e'|) + d;
        Implode(r, d) + Repeat(d, |e|);
      }
    } else {
      assert r + e == r;
    }
  }

  lemma {:induction false} RepeatSnoc(d: string, k: nat)
    ensures Repeat(d, k + 1) == Repeat(d, k) + d
  {
    if k > 0 {
      RepeatSnoc(d, k - 1);
    }
  }

  /**
    Splitting loses nothing but whole delimiters at the very end: the string is
    the imploded split followed by some number of delimiters.
   */
  lemma SplitRebuilds(s: string, d: string)
    requires |d| > 0
    ensures exists k: nat :: s == Implode(Split(s, d), d) + Repeat(d, k)
  {
    var p := Pieces(s, d);
    var r := Split(s, d);
    ImplodePieces(s, d);
    var k := RebuildCount(p, r, d);
    assert s == Implode(r, d) + Repeat(d, k);
  }

  /** How many delimiters the dropped trailing empty pieces stood for. */
  lemma RebuildCount(p: seq<string>, r: seq<string>, d: string) returns (k: nat)
    requires p != []
    requires |p| == 1 ==> r == p
    requires |p| > 1 ==> r == DropTrailingEmpty(p)
    ensures Implode(p, d) == Implode(r, d) + Repeat(d, k)
    ensures |p| > 1 && p[|p| - 1] == "" ==> k > 0
  {
    if |p| == 1 {
      k := 0;
      assert Implode(r, d) + Repeat(d, 0) == Implode(r, d);
    } else if r == [] {
      ImplodeEmpties(p, d);
      k := |p| - 1;
      assert Implode(r, d) + Repeat(d, k) == Repeat(d, k);
    } else {
      assert p == r + p[|r|..];
      ImplodeTrailingEmpties(r, p[|r|..], d);
      k := |p| - |r|;
    }
  }

  /**
    Round trip: `implode` undoes `explode` exactly when `split` has no trailing
    empty piece to drop, that is, when the delimiter does not occur or the
    last piece is not empty. Otherwise the dropped delimiters are lost.
   */
  lemma ExplodeImplode(s: string, d: string)
    requires |d| > 0
    requires HasText(Some(s))
    ensures var p := Pieces(s, d);
            Implode(Explode(Some(s), d), d) == s <==> |p| == 1 || p[|p| - 1] != ""
  {
    var p := Pieces(s, d);
    ImplodePieces(s, d);
    if |p| > 1 && p[|p| - 1] == "" {
      var r := Split(s, d);
      var k := RebuildCount(p, r, d);
      assert Repeat(d, k) == d + Repeat(d, k - 1);
      assert |Implode(r, d)| < |s|;
    }
  }

  /** The round trip holds in particular for text that does not end with the delimiter. */
  lemma ExplodeImplodeNoTrailingDelimiter(s: string, d: string)
    requires |d| > 0
    requires HasText(Some(s))
    requires !EndsWith(s, d)
    ensures Implode(Explode(Some(s), d), d) == s
  {
    var p := Pieces(s, d);
    ImplodePieces(s, d);
    if |p| > 1 {
      LastPieceNonEmpty(p, d);
    }
    ExplodeImplode(s, d);
  }

  /** When the last piece is empty, the imploded string ends with the delimiter. */
  lemma LastPieceNonEmpty(p: seq<string>, d: string)
    requires |p| > 1
    requires !EndsWith(Implode(p, d), d)
    ensures p[|p| - 1] != ""
    ensures DropTrailingEmpty(p) == p
  {
  }

  /**
    With a border-free delimiter (see `JavaString.BorderFree`) that no item
    contains, the imploded string falls apart into exactly the items again.
   */
  lemma {:induction false} PiecesOfImplode(items: seq<string>, d: string)
    requires |d| > 0 && BorderFree(d)
    requires items != []
    requires forall i :: 0 <= i < |items| ==> !Contains(items[i], d)
    ensures Pieces(Implode(items, d), d) == items
    decreases |items|
  {
    if |items| == 1 {
      PiecesAvoidDelimiter(items[0], d);
    } else {
      PiecesOfImplode(items[1..], d);
      PiecesPastItem(items[0], Implode(items[1..], d), d);
    }
  }

  /** An item free of a border-free delimiter, followed by the delimiter, is one whole piece. */
  lemma {:induction false} PiecesPastItem(x: string, y: string, d: string)
    requires |d| > 0 && BorderFree(d)
    requires !Contains(x, d)
    ensures Pieces(x + d + y, d) == [x] + Pieces(y, d)
    decreases |x|
  {
    var s := x + d + y;
    if |x| == 0 {
      assert s == d + y;
      assert s[|d|..] == y;
    } else {
      NoMatchAtItem(x, y, d);
      assert s[1..] == x[1..] + d + y;
      PiecesPastItem(x[1..], y, d);
      assert [x[0]] + x[1..] == x;
    }
  }

  /** A match of `d` at the start of `x + d + y` would put `d` inside `x` or give `d` a border. */
  lemma NoMatchAtItem(x: string, y: string, d: string)
    requires |d| > 0 && BorderFree(d)
    requires |x| > 0 && !Contains(x, d)
    ensures !(d <= x + d + y)
  {
    var s := x + d + y;
    if |d| <= |x| {
      assert s[..|d|] == x[..|d|];
      assert !(d <= x);
    } else {
      var j := |x|;
      assert s[j..|d|] == d[..|d| - j];
      assert d[j..] != d[..|d| - j];
      assert s[..|d|][j..] == s[j..|d|];
    }
  }

  /**
    `split` inverts `implode` on items that avoid a border-free delimiter,
    provided the last item is not an empty string Java would drop.
   */
  lemma SplitImplode(items: seq<string>, d: string)
    requires |d| > 0 && BorderFree(d)
    requires items != []
    requires forall i :: 0 <= i < |items| ==> !Contains(items[i], d)
    requires |items| == 1 || items[|items| - 1] != ""
    ensures Split(Implode(items, d), d) == items
  {
    PiecesOfImplode(items, d);
  }

  /** The imploded string is never shorter than its last item. */
  lemma {:induction false} ImplodeNonEmptyLast(items: seq<string>, d: string)
    requires items != []
    ensures |Implode(items, d)| >= |items[|items| - 1]|
    decreases |items|
  {
    if |items| > 1 {
      ImplodeNonEmptyLast(items[1..], d);
    }
  }

  /** `" "` and `"; "`, the two delimiters the launcher splits on, are border-free. */
  lemma DelimitersBorderFree()
    ensures BorderFree(" ") && BorderFree("; ")
  {
    assert "; "[1..][0] == ' ' && "; "[..1][0] == ';';
  }

  /** A delimiter-free head followed by a delimiter-free tail splits into exactly those two. */
  lemma PiecesOfPair(x: string, y: string, d: string)
    requires |d| > 0 && BorderFree(d)
    requires d[0] !in x && d[0] !in y
    ensures Pieces(x + d + y, d) == [x, y]
    ensures y != "" ==> Split(x + d + y, d) == [x, y]
  {
    FirstCharAbsent(x, d);
    FirstCharAbsent(y, d);
    PiecesPastItem(x, y, d);
    PiecesAvoidDelimiter(y, d);
  }

  /**
    Java's `split` on a space: inner and leading empty tokens stay, trailing
    ones go, a string of nothing but delimiters gives no tokens, and `""`
    gives `[""]`.
   */
  lemma SplitExamples()
    ensures Split("a  b", " ") == ["a", "", "b"]
    ensures Split("a b ", " ") == ["a", "b"]
    ensures Split(" a", " ") == ["", "a"]
    ensures Split(" ", " ") == []
    ensures Split("", " ") == [""]
  {
    DelimitersBorderFree();
    PiecesOfPair("", "b", " ");
    assert "a  b" == "a" + " " + (" b");
    FirstCharAbsent("a", " ");
    PiecesPastItem("a", " b", " ");
    assert " b" == "" + " " + "b";
    assert Pieces("a  b", " ") == ["a", "", "b"];
    PiecesOfPair("", "", " ");
    assert " " == "" + " " + "";
    assert Pieces(" ", " ") == ["", ""];
    PiecesOfPair("b", "", " ");
    assert "a b " == "a" + " " + "b ";
    assert "b " == "b" + " " + "";
    PiecesPastItem("a", "b ", " ");
    assert Pieces("a b ", " ") == ["a", "b", ""];
    PiecesOfPair("", "a", " ");
    assert " a" == "" + " " + "a";
  }
}
