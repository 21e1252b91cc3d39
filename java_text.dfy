/**
 * The parts of `java.lang.String` and `java.lang.Integer` the events parser
 * relies on: `indexOf`, `split` around a literal delimiter, `parseInt` in
 * radix 10 and, as its partner, `toString`.
 */
module JavaText {
  import opened Wrappers

  /** `pat` occurs in `s` starting at index `i`. */
  predicate OccursAt(s: string, pat: string, i: int) {
    0 <= i && i + |pat| <= |s| && s[i..i + |pat|] == pat
  }

  /** `pat` occurs somewhere in `s`. */
  ghost predicate Contains(s: string, pat: string) {
    exists i :: OccursAt(s, pat, i)
  }

  /** `i` is the first index at or after `from` where `pat` occurs in `s`. */
  ghost predicate FirstFrom(s: string, pat: string, from: int, i: int) {
    from <= i && OccursAt(s, pat, i) && forall j :: from <= j < i ==> !OccursAt(s, pat, j)
  }

  /** `pat` occurs nowhere in `s` at or after `from`. */
  ghost predicate AbsentFrom(s: string, pat: string, from: int) {
    forall j :: from <= j ==> !OccursAt(s, pat, j)
  }

  /** There is only one first occurrence. */
  lemma FirstFromUnique(s: string, pat: string, from: int, i: int, k: int)
    requires FirstFrom(s, pat, from, i) && FirstFrom(s, pat, from, k)
    ensures i == k
  {
  }

  /** An occurrence inside the slice `s[a..b]` is an occurrence in `s`, shifted by `a`. */
  lemma SliceOccurrence(s: string, a: nat, b: nat, pat: string, i: int)
    requires a <= b <= |s|
    requires OccursAt(s[a..b], pat, i)
    ensures OccursAt(s, pat, a + i)
  {
    forall m | 0 <= m < |pat|
      ensures s[a + i + m] == pat[m]
    {
      assert s[a..b][i + m] == s[a + i + m];
    }
    assert s[a + i..a + i + |pat|] == pat;
  }

  /**
   * `s.indexOf(pat, from)`: the first index at or after `from` where `pat`
   * occurs, or -1 when there is none (for `from` within the string, the only
   * way the parser calls it).
   */
  function IndexOf(s: string, pat: string, from: nat): (r: int)
    requires from <= |s|
    ensures r == -1 <==> AbsentFrom(s, pat, from)
    ensures r != -1 ==> FirstFrom(s, pat, from, r)
    decreases |s| - from
  {
    if from + |pat| > |s| then -1
    else if s[from..from + |pat|] == pat then assert OccursAt(s, pat, from); from
    else IndexOf(s, pat, from + 1)
  }

  /** `indexOf` finds the first occurrence, whichever way it is known. */
  lemma IndexOfIs(s: string, pat: string, from: nat, i: int)
    requires from <= |s| && FirstFrom(s, pat, from, i)
    ensures IndexOf(s, pat, from) == i
  {
    FirstFromUnique(s, pat, from, i, IndexOf(s, pat, from));
  }

  /**
   * `Pattern.split` before it trims anything: the pieces of `s` between the
   * non-overlapping occurrences of `d`, found left to right.
   */
  function SplitAll(s: string, d: string): (pieces: seq<string>)
    requires |d| > 0
    ensures |pieces| >= 1
    decreases |s|
  {
    var p := IndexOf(s, d, 0);
    if p == -1 then [s] else [s[..p]] + SplitAll(s[p + |d|..], d)
  }

  /** No piece between delimiters contains the delimiter. */
  lemma {:induction false} SplitAllPiecesAvoid(s: string, d: string, k: nat)
    requires |d| > 0 && k < |SplitAll(s, d)|
    ensures !Contains(SplitAll(s, d)[k], d)
    decreases |s|
  {
    var p := IndexOf(s, d, 0);
    if p == -1 {
      assert SplitAll(s, d)[k] == s;
    } else if k == 0 {
      assert SplitAll(s, d)[k] == s[0..p];
      BeforeFirstAvoids(s, d, 0, p);
    } else {
      var rest := s[p + |d|..];
      assert SplitAll(s, d)[k] == SplitAll(rest, d)[k - 1];
      SplitAllPiecesAvoid(rest, d, k - 1);
    }
  }

  /** The text between `from` and the first occurrence of `pat` after it contains no `pat`. */
  lemma BeforeFirstAvoids(s: string, pat: string, from: nat, i: int)
    requires |pat| > 0 && FirstFrom(s, pat, from, i) && i <= |s|
    ensures !Contains(s[from..i], pat)
  {
    forall k | OccursAt(s[from..i], pat, k)
      ensures false
    {
      SliceOccurrence(s, from, i, pat, k);
    }
  }

  /** `String.join(d, pieces)`: the pieces with `d` between neighbours. */
  function Join(pieces: seq<string>, d: string): string
    decreases |pieces|
  {
    if |pieces| == 0 then ""
    else if |pieces| == 1 then pieces[0]
    else pieces[0] + d + Join(pieces[1..], d)
  }

  lemma JoinCons(x: string, tail: seq<string>, d: string)
    requires |tail| > 0
    ensures Join([x] + tail, d) == x + d + Join(tail, d)
  {
    assert ([x] + tail)[1..] == tail;
  }

  /** Splitting and joining again with the same delimiter gives back the text. */
  lemma {:induction false} JoinSplitAll(s: string, d: string)
    requires |d| > 0
    ensures Join(SplitAll(s, d), d) == s
    decreases |s|
  {
    var p := IndexOf(s, d, 0);
    if p != -1 {
      var rest := s[p + |d|..];
      JoinSplitAll(rest, d);
      JoinCons(s[..p], SplitAll(rest, d), d);
      CutAtOccurrence(s, d, p);
    }
  }

  /** Cutting the text around an occurrence of `d`. */
  lemma CutAtOccurrence(s: string, d: string, p: int)
    requires OccursAt(s, d, p)
    ensures s == s[..p] + d + s[p + |d|..]
  {
    assert s == s[..p] + s[p..p + |d|] + s[p + |d|..];
  }

  /** The list with its trailing empty strings removed. */
  function DropTrailingEmpty(pieces: seq<string>): (r: seq<string>)
    ensures |r| <= |pieces| && pieces[..|r|] == r
    ensures forall k :: |r| <= k < |pieces| ==> pieces[k] == ""
    ensures |r| > 0 ==> r[|r| - 1] != ""
    decreases |pieces|
  {
    if |pieces| > 0 && pieces[|pieces| - 1] == "" then DropTrailingEmpty(pieces[..|pieces| - 1])
    else pieces
  }

  /**
   * `s.split(regex)` where the regex matches exactly the literal `d`: when `d`
   * does not occur the result is `[s]` (even for the empty string); otherwise
   * the pieces between occurrences, without the trailing empty ones.
   */
  function Split(s: string, d: string): (pieces: seq<string>)
    requires |d| > 0
    ensures AbsentFrom(s, d, 0) <==> pieces == [s]
    ensures |pieces| <= |SplitAll(s, d)| && SplitAll(s, d)[..|pieces|] == pieces
  {
    if IndexOf(s, d, 0) == -1 then [s]
    else SplitAllPiecesAvoid(s, d, 0); DropTrailingEmpty(SplitAll(s, d))
  }

  /**
   * What `split` keeps of the full list of pieces: a prefix of it, followed
   * only by empty pieces, and the full list joined with `d` is the input.
   */
  lemma SplitRejoins(s: string, d: string)
    requires |d| > 0
    ensures var pieces, all := Split(s, d), SplitAll(s, d);
      && |pieces| <= |all| && all[..|pieces|] == pieces
      && (forall k :: |pieces| <= k < |all| ==> all[k] == "")
      && Join(all, d) == s
  {
    JoinSplitAll(s, d);
  }

  /** No piece of `split` contains the delimiter. */
  lemma SplitPiecesAvoidDelimiter(s: string, d: string)
    requires |d| > 0
    ensures forall k :: 0 <= k < |Split(s, d)| ==> !Contains(Split(s, d)[k], d)
  {
    var all := SplitAll(s, d);
    var pieces := Split(s, d);
    forall k | 0 <= k < |pieces|
      ensures !Contains(pieces[k], d)
    {
      if IndexOf(s, d, 0) != -1 {
        assert pieces[k] == all[..|pieces|][k] == all[k];
      }
      SplitAllPiecesAvoid(s, d, k);
    }
  }

  /** The last piece `split` keeps is never empty once the delimiter occurs. */
  lemma SplitLastPieceNonEmpty(s: string, d: string)
    requires |d| > 0 && Contains(s, d)
    ensures var pieces := Split(s, d); |pieces| > 0 ==> pieces[|pieces| - 1] != ""
  {
  }

  /**
   * Text made of the delimiter alone splits into nothing: both pieces around
   * it are empty and trailing empty pieces are dropped.
   */
  lemma SplitOfDelimiterAlone(d: string)
    requires |d| > 0
    ensures Split(d, d) == []
  {
    assert d[0..|d|] == d;
    assert IndexOf(d, d, 0) == 0;
    assert d[|d|..] == "";
    assert SplitAll(d, d) == ["", ""];
  }

  /** Every character of a piece of `split` comes from the input. */
  lemma SplitPieceChars(s: string, d: string, k: nat, c: char)
    requires |d| > 0 && k < |Split(s, d)| && c in Split(s, d)[k]
    ensures c in s
  {
    var all := SplitAll(s, d);
    if IndexOf(s, d, 0) != -1 {
      assert Split(s, d)[k] == all[k];
    }
    SplitAllPieceChars(s, d, k, c);
  }

  lemma {:induction false} SplitAllPieceChars(s: string, d: string, k: nat, c: char)
    requires |d| > 0 && k < |SplitAll(s, d)| && c in SplitAll(s, d)[k]
    ensures c in s
    decreases |s|
  {
    var p := IndexOf(s, d, 0);
    if p != -1 {
      var rest := s[p + |d|..];
      if k == 0 {
        assert c in s[..p];
      } else {
        assert SplitAll(s, d)[k] == SplitAll(rest, d)[k - 1];
        SplitAllPieceChars(rest, d, k - 1, c);
      }
    }
  }

  // ---- Integer.parseInt / Integer.toString in radix 10 ----

  /** Java's `int`. */
  newtype int32 = x: int | -0x8000_0000 <= x < 0x8000_0000

  predicate IsDigit(c: char) { '0' <= c <= '9' }

  predicate AllDigits(t: string) {
    forall i :: 0 <= i < |t| ==> IsDigit(t[i])
  }

  function DigitValue(c: char): (n: nat)
    requires IsDigit(c)
    ensures n < 10
  {
    c as int - '0' as int
  }

  /** The number a run of decimal digits denotes (most significant first). */
  function DecimalValue(t: string): nat
    requires AllDigits(t)
    decreases |t|
  {
    if |t| == 0 then 0 else 10 * DecimalValue(t[..|t| - 1]) + DigitValue(t[|t| - 1])
  }

  /** The digits left after an optional leading sign. */
  function Unsigned(s: string): string {
    if |s| > 0 && (s[0] == '-' || s[0] == '+') then s[1..] else s
  }

  /**
   * `Integer.parseInt(s)`: an optional `-` or `+`, then one or more decimal
   * digits, denoting a value within the `int` range; anything else raises
   * `NumberFormatException` (here `None`).
   */
  function ParseInt(s: string): (r: Option<int32>)
    ensures r.Some? <==> (var t := Unsigned(s);
      |t| > 0 && AllDigits(t) && (if s[0] == '-' then DecimalValue(t) <= 0x8000_0000 else DecimalValue(t) < 0x8000_0000))
    ensures r.Some? ==> r.value as int == (if s[0] == '-' then -(DecimalValue(Unsigned(s)) as int) else DecimalValue(Unsigned(s)))
  {
    var t := Unsigned(s);
    if |t| == 0 || !AllDigits(t) then None
    else
      var v: int := if s[0] == '-' then -(DecimalValue(t) as int) else DecimalValue(t);
      if -0x8000_0000 <= v < 0x8000_0000 then Some(v as int32) else None
  }

  /** The decimal digits of `n`, without leading zeros. */
  function Digits(n: nat): (t: string)
    ensures |t| > 0 && AllDigits(t)
    decreases n
  {
    var last := ['0' + (n % 10) as char];
    if n < 10 then last else Digits(n / 10) + last
  }

  /** Reading the digits of `n` back gives `n`. */
  lemma {:induction false} DigitsRoundTrip(n: nat)
    ensures DecimalValue(Digits(n)) == n
    decreases n
  {
    if n >= 10 {
      DigitsRoundTrip(n / 10);
      var t := Digits(n);
      assert t[..|t| - 1] == Digits(n / 10);
    }
  }

  /** `Integer.toString(n)`. */
  function IntToString(n: int32): (t: string)
    ensures |t| > 0 && (t[0] == '-' <==> n < 0)
  {
    if n < 0 then "-" + Digits(-(n as int)) else Digits(n as int)
  }

  /** `Integer.parseInt(Integer.toString(n)) == n` for every `int`. */
  lemma ParseIntToString(n: int32)
    ensures ParseInt(IntToString(n)) == Some(n)
  {
    var t := IntToString(n);
    if n < 0 {
      assert Unsigned(t) == Digits(-(n as int));
      DigitsRoundTrip(-(n as int));
    } else {
      assert Digits(n as int)[0] != '-' && Digits(n as int)[0] != '+' by {
        assert IsDigit(Digits(n as int)[0]);
      }
      DigitsRoundTrip(n as int);
    }
  }
}
