// Station coordinates read off an NDBC station page: the first match of
// `(\d+\.\d+) ([N|S]) (\d+\.\d+) ([W|E])` searched case-insensitively, with
// the latitude negated for an exact 'S' and the longitude for an exact 'W'.

module Coordinates {
  import opened Outcomes

  predicate IsDigit(c: char) { '0' <= c <= '9' }

  /** `[N|S]` under IGNORECASE: the letters in either case, the bar written inside the
      class, and the long s, which case-insensitive matching treats as an `s`. */
  predicate LatDirection(c: char)
  {
    c == 'N' || c == 'n' || c == 'S' || c == 's' || c == '|' || c == '\U{17F}'
  }

  /** `[W|E]` under IGNORECASE. */
  predicate LonDirection(c: char)
  {
    c == 'W' || c == 'w' || c == 'E' || c == 'e' || c == '|'
  }

  /** The four groups of a match, as the text they captured. */
  datatype Groups = Groups(lat: string, latDir: char, lon: string, lonDir: char)

  /** A match found by the search: where it starts and what it captured. */
  datatype Hit = Hit(at: nat, groups: Groups)

  // ---------------------------------------------------------------------------
  // What a match is

  /** The only non-digit of `t` is a dot at `k`. */
  predicate DotAt(t: string, k: nat)
  {
    k < |t| && t[k] == '.' && forall i :: 0 <= i < |t| && i != k ==> IsDigit(t[i])
  }

  /** `\d+\.\d+`: digits, a dot, digits. */
  ghost predicate IsDecimal(t: string)
  {
    exists k :: 0 < k < |t| - 1 && DotAt(t, k)
  }

  /** The text the pattern matches once its groups are fixed. */
  function Layout(g: Groups): string
  {
    g.lat + ([' ', g.latDir, ' '] + (g.lon + [' ', g.lonDir]))
  }

  /** The pattern matches `s` at position `p` with groups `g`. */
  ghost predicate IsMatchAt(s: string, p: nat, g: Groups)
  {
    IsDecimal(g.lat) && LatDirection(g.latDir) && IsDecimal(g.lon) && LonDirection(g.lonDir)
    && p + |Layout(g)| <= |s| && s[p..p + |Layout(g)|] == Layout(g)
  }

  // ---------------------------------------------------------------------------
  // The scanner

  /** Length of the run of digits starting at `p`: greedy `\d+` takes all of it. */
  function DigitRun(s: string, p: nat): (n: nat)
    requires p <= |s|
    ensures p + n <= |s|
    decreases |s| - p
  {
    if p < |s| && IsDigit(s[p]) then 1 + DigitRun(s, p + 1) else 0
  }

  /** The run is all digits, and no digit follows it. */
  lemma {:induction false} DigitRunSpec(s: string, p: nat)
    requires p <= |s|
    ensures forall i :: p <= i < p + DigitRun(s, p) ==> IsDigit(s[i])
    ensures p + DigitRun(s, p) == |s| || !IsDigit(s[p + DigitRun(s, p)])
    decreases |s| - p
  {
    if p < |s| && IsDigit(s[p]) {
      DigitRunSpec(s, p + 1);
    }
  }

  /** A run of digits ended by a non-digit (or the end of the text) is the one `DigitRun` finds. */
  lemma {:induction false} DigitRunExact(s: string, p: nat, n: nat)
    requires p + n <= |s|
    requires forall i :: p <= i < p + n ==> IsDigit(s[i])
    requires p + n == |s| || !IsDigit(s[p + n])
    ensures DigitRun(s, p) == n
    decreases n
  {
    if n > 0 {
      DigitRunExact(s, p + 1, n - 1);
    }
  }

  /** Where `\d+\.\d+` matched at `p` ends, if it matches there. */
  function DecimalEnd(s: string, p: nat): (e: Option<nat>)
    requires p <= |s|
    ensures e.Some? ==> p < e.value <= |s|
  {
    var a := DigitRun(s, p);
    if a == 0 || p + a >= |s| || s[p + a] != '.' then None
    else
      var b := DigitRun(s, p + a + 1);
      if b == 0 then None else Some(p + a + 1 + b)
  }

  /** What `DecimalEnd` finds is a decimal. */
  lemma DecimalEndSound(s: string, p: nat)
    requires p <= |s| && DecimalEnd(s, p).Some?
    ensures IsDecimal(s[p..DecimalEnd(s, p).value])
    ensures DecimalEnd(s, p).value == |s| || !IsDigit(s[DecimalEnd(s, p).value])
  {
    var a := DigitRun(s, p);
    DigitRunSpec(s, p);
    DigitRunSpec(s, p + a + 1);
    var t := s[p..DecimalEnd(s, p).value];
    assert DotAt(t, a);
  }

  /** A decimal ended by a non-digit is the one `DecimalEnd` finds. */
  lemma DecimalEndExact(s: string, p: nat, e: nat)
    requires p <= e <= |s| && IsDecimal(s[p..e])
    requires e == |s| || !IsDigit(s[e])
    ensures DecimalEnd(s, p) == Some(e)
  {
    var k :| 0 < k < e - p - 1 && DotAt(s[p..e], k);
    assert forall i :: p <= i < e ==> s[i] == s[p..e][i - p];
    DigitRunExact(s, p, k);
    DigitRunExact(s, p + k + 1, e - (p + k + 1));
  }

  /** The pattern tried at one position. Every quantifier is greedy and each is followed by
      a character it cannot consume, so backtracking never finds a second way to match. */
  function MatchAt(s: string, p: nat): (m: Option<Groups>)
    requires p <= |s|
  {
    match DecimalEnd(s, p)
    case None => None
    case Some(e1) =>
      if e1 + 3 <= |s| && s[e1] == ' ' && LatDirection(s[e1 + 1]) && s[e1 + 2] == ' ' then
        match DecimalEnd(s, e1 + 3)
        case None => None
        case Some(e2) =>
          if e2 + 2 <= |s| && s[e2] == ' ' && LonDirection(s[e2 + 1]) then
            Some(Groups(s[p..e1], s[e1 + 1], s[e1 + 3..e2], s[e2 + 1]))
          else None
      else None
  }

  /** A slice equals a concatenation exactly when it splits into the two parts. */
  lemma SliceConcat(s: string, p: nat, q: nat, r: nat, a: string, b: string)
    requires q == p + |a| && r == q + |b| && r <= |s|
    ensures s[p..r] == a + b <==> s[p..q] == a && s[q..r] == b
  {
    var w := s[p..r];
    assert w[..|a|] == s[p..q];
    assert w[|a|..] == s[q..r];
    assert w == w[..|a|] + w[|a|..];
    assert (a + b)[..|a|] == a && (a + b)[|a|..] == b;
  }

  /** The text matched by groups `g` at `p`, piece by piece. */
  lemma LayoutSplit(s: string, p: nat, g: Groups)
    requires p + |Layout(g)| <= |s|
    ensures var e1 := p + |g.lat|; var e2 := e1 + 3 + |g.lon|;
      s[p..p + |Layout(g)|] == Layout(g) <==>
        s[p..e1] == g.lat && s[e1] == ' ' && s[e1 + 1] == g.latDir && s[e1 + 2] == ' '
        && s[e1 + 3..e2] == g.lon && s[e2] == ' ' && s[e2 + 1] == g.lonDir
  {
    var e1 := p + |g.lat|;
    var rest := [' ', g.latDir, ' '] + (g.lon + [' ', g.lonDir]);
    SliceConcat(s, p, e1, p + |Layout(g)|, g.lat, rest);
    AfterLatSplit(s, e1, g);
  }

  /** The text after the latitude: a blank, its direction, a blank, then the longitude part. */
  lemma AfterLatSplit(s: string, e1: nat, g: Groups)
    requires e1 + 5 + |g.lon| <= |s|
    ensures var e2 := e1 + 3 + |g.lon|;
      s[e1..e2 + 2] == [' ', g.latDir, ' '] + (g.lon + [' ', g.lonDir]) <==>
        s[e1] == ' ' && s[e1 + 1] == g.latDir && s[e1 + 2] == ' '
        && s[e1 + 3..e2] == g.lon && s[e2] == ' ' && s[e2 + 1] == g.lonDir
  {
    var e2 := e1 + 3 + |g.lon|;
    SliceConcat(s, e1, e1 + 3, e2 + 2, [' ', g.latDir, ' '], g.lon + [' ', g.lonDir]);
    SliceThree(s, e1, ' ', g.latDir, ' ');
    LonSplit(s, e1 + 3, g);
  }

  /** The longitude part: the longitude, a blank and its direction. */
  lemma LonSplit(s: string, q: nat, g: Groups)
    requires q + |g.lon| + 2 <= |s|
    ensures var e2 := q + |g.lon|;
      s[q..e2 + 2] == g.lon + [' ', g.lonDir] <==> s[q..e2] == g.lon && s[e2] == ' ' && s[e2 + 1] == g.lonDir
  {
    var e2 := q + |g.lon|;
    SliceConcat(s, q, e2, e2 + 2, g.lon, [' ', g.lonDir]);
    SliceTwo(s, e2, ' ', g.lonDir);
  }

  lemma SliceThree(s: string, k: nat, a: char, b: char, c: char)
    requires k + 3 <= |s|
    ensures s[k..k + 3] == [a, b, c] <==> s[k] == a && s[k + 1] == b && s[k + 2] == c
  {
    assert s[k..k + 3] == [s[k], s[k + 1], s[k + 2]];
  }

  lemma SliceTwo(s: string, k: nat, a: char, b: char)
    requires k + 2 <= |s|
    ensures s[k..k + 2] == [a, b] <==> s[k] == a && s[k + 1] == b
  {
    assert s[k..k + 2] == [s[k], s[k + 1]];
  }

  lemma MatchAtSound(s: string, p: nat)
    requires p <= |s| && MatchAt(s, p).Some?
    ensures IsMatchAt(s, p, MatchAt(s, p).value)
  {
    var g := MatchAt(s, p).value;
    var e1 := DecimalEnd(s, p).value;
    var e2 := DecimalEnd(s, e1 + 3).value;
    DecimalEndSound(s, p);
    DecimalEndSound(s, e1 + 3);
    assert |Layout(g)| == e2 + 2 - p;
    LayoutSplit(s, p, g);
  }

  /** The scanner given where its two decimals end. */
  lemma MatchAtPositions(s: string, p: nat, e1: nat, e2: nat)
    requires p <= e1 && e1 + 3 <= e2 && e2 + 2 <= |s|
    requires DecimalEnd(s, p) == Some(e1) && DecimalEnd(s, e1 + 3) == Some(e2)
    requires s[e1] == ' ' && LatDirection(s[e1 + 1]) && s[e1 + 2] == ' '
    requires s[e2] == ' ' && LonDirection(s[e2 + 1])
    ensures MatchAt(s, p) == Some(Groups(s[p..e1], s[e1 + 1], s[e1 + 3..e2], s[e2 + 1]))
  {
  }

  lemma MatchAtComplete(s: string, p: nat, g: Groups)
    requires IsMatchAt(s, p, g)
    ensures MatchAt(s, p) == Some(g)
  {
    LayoutSplit(s, p, g);
    var e1 := p + |g.lat|;
    var e2 := e1 + 3 + |g.lon|;
    DecimalEndExact(s, p, e1);
    DecimalEndExact(s, e1 + 3, e2);
    MatchAtPositions(s, p, e1, e2);
  }

  /** Where the scanner fails, the pattern does not match. */
  lemma NoMatchAt(s: string, p: nat)
    requires p <= |s| && MatchAt(s, p).None?
    ensures forall g :: !IsMatchAt(s, p, g)
  {
    forall g | IsMatchAt(s, p, g) ensures MatchAt(s, p) == Some(g) {
      MatchAtComplete(s, p, g);
    }
  }

  /** `re.search`: try every position from `p` on, the first that matches wins. */
  function SearchFrom(s: string, p: nat): Option<Hit>
    requires p <= |s|
    decreases |s| - p
  {
    match MatchAt(s, p)
    case Some(g) => Some(Hit(p, g))
    case None => if p == |s| then None else SearchFrom(s, p + 1)
  }

  function Search(s: string): Option<Hit>
  {
    SearchFrom(s, 0)
  }

  lemma {:induction false} SearchFromLeftmost(s: string, p: nat)
    requires p <= |s|
    ensures SearchFrom(s, p).Some? ==>
      var h := SearchFrom(s, p).value;
      p <= h.at <= |s| && IsMatchAt(s, h.at, h.groups)
      && forall q: nat, g :: p <= q < h.at ==> !IsMatchAt(s, q, g)
    ensures SearchFrom(s, p).None? ==> forall q: nat, g :: p <= q ==> !IsMatchAt(s, q, g)
    decreases |s| - p
  {
    if MatchAt(s, p).Some? {
      MatchAtSound(s, p);
      assert SearchFrom(s, p) == Some(Hit(p, MatchAt(s, p).value));
    } else {
      NoMatchAt(s, p);
      if p < |s| {
        SearchFromLeftmost(s, p + 1);
        assert SearchFrom(s, p) == SearchFrom(s, p + 1);
      } else {
        assert SearchFrom(s, p) == None;
      }
    }
  }

  /** The search finds the leftmost position where the pattern matches, with the groups
      it matches there, and finds nothing exactly when the pattern matches nowhere. */
  lemma LeftmostMatch(s: string)
    ensures Search(s).Some? ==>
      var h := Search(s).value;
      IsMatchAt(s, h.at, h.groups) && forall q: nat, g :: q < h.at ==> !IsMatchAt(s, q, g)
    ensures Search(s).None? <==> forall q: nat, g :: !IsMatchAt(s, q, g)
  {
    SearchFromLeftmost(s, 0);
  }

  // ---------------------------------------------------------------------------
  // The hemisphere sign rule

  /** A coordinate as the decimal text of its magnitude and whether it was negated.
      Converting the text with `float` is not modelled. */
  datatype Degrees = Degrees(negated: bool, magnitude: string)

  datatype Position = Position(lat: Degrees, lon: Degrees)

  /** `(lat, lon)` from a page, or `None` for `(None, None)` when the pattern is not found. */
  function LatLon(html: string): Option<Position>
  {
    match Search(html)
    case None => None
    case Some(h) =>
      Some(Position(Degrees(h.groups.latDir == 'S', h.groups.lat),
                    Degrees(h.groups.lonDir == 'W', h.groups.lon)))
  }

  /** The coordinates come from the leftmost match: its first and third groups give the
      magnitudes; the latitude is negated exactly when the second group is the capital 'S'
      and the longitude exactly when the fourth is the capital 'W'. */
  lemma LatLonOfMatch(html: string, p: nat, g: Groups)
    requires IsMatchAt(html, p, g)
    requires forall q: nat, g' :: q < p ==> !IsMatchAt(html, q, g')
    ensures LatLon(html) == Some(Position(Degrees(g.latDir == 'S', g.lat), Degrees(g.lonDir == 'W', g.lon)))
  {
    LeftmostMatch(html);
    var h := Search(html).value;
    if h.at != p {
      assert false;
    }
    MatchAtComplete(html, p, g);
    MatchAtComplete(html, p, h.groups);
  }

  /** No match anywhere in the page gives `(None, None)`, and only then. */
  lemma LatLonNone(html: string)
    ensures LatLon(html).None? <==> forall q: nat, g :: !IsMatchAt(html, q, g)
  {
    LeftmostMatch(html);
  }

  /** A found latitude is never negated for a lowercase `s` (nor for `|` or the long s),
      and a found longitude never for a lowercase `w`: the comparison is case-sensitive
      although the search is not. */
  lemma SignIsCaseSensitive(html: string)
    requires LatLon(html).Some?
    ensures LatLon(html).value.lat.negated <==> Search(html).value.groups.latDir == 'S'
    ensures LatLon(html).value.lon.negated <==> Search(html).value.groups.lonDir == 'W'
    ensures LatDirection(Search(html).value.groups.latDir)
    ensures LonDirection(Search(html).value.groups.lonDir)
  {
    LeftmostMatch(html);
  }

  lemma DecimalWitness(t: string, k: nat)
    requires 0 < k < |t| - 1 && DotAt(t, k)
    ensures IsDecimal(t)
  {
  }

  /** A southern, western station, found after some leading text. */
  lemma SouthWestExample()
    ensures LatLon("at 1.5 S 2.5 W") == Some(Position(Degrees(true, "1.5"), Degrees(true, "2.5")))
  {
    var s := "at 1.5 S 2.5 W";
    var g := Groups("1.5", 'S', "2.5", 'W');
    DecimalWitness("1.5", 1);
    DecimalWitness("2.5", 1);
    assert s[3..6] == "1.5" && s[9..12] == "2.5";
    LayoutSplit(s, 3, g);
    assert DigitRun(s, 0) == 0 && DigitRun(s, 1) == 0 && DigitRun(s, 2) == 0;
    NoMatchAt(s, 0);
    NoMatchAt(s, 1);
    NoMatchAt(s, 2);
    LatLonOfMatch(s, 3, g);
  }

  /** Lowercase directions match the pattern yet negate nothing. */
  lemma LowercaseExample()
    ensures LatLon("1.5 s 2.5 w") == Some(Position(Degrees(false, "1.5"), Degrees(false, "2.5")))
  {
    var s := "1.5 s 2.5 w";
    var g := Groups("1.5", 's', "2.5", 'w');
    DecimalWitness("1.5", 1);
    DecimalWitness("2.5", 1);
    assert s[0..3] == "1.5" && s[6..9] == "2.5";
    LayoutSplit(s, 0, g);
    LatLonOfMatch(s, 0, g);
  }

  /** The bar written inside each class is accepted as a direction. */
  lemma BarExample()
    ensures LatLon("1.5 | 2.5 |") == Some(Position(Degrees(false, "1.5"), Degrees(false, "2.5")))
  {
    var s := "1.5 | 2.5 |";
    var g := Groups("1.5", '|', "2.5", '|');
    DecimalWitness("1.5", 1);
    DecimalWitness("2.5", 1);
    assert s[0..3] == "1.5" && s[6..9] == "2.5";
    LayoutSplit(s, 0, g);
    LatLonOfMatch(s, 0, g);
  }

  // ---------------------------------------------------------------------------
  // The status branch

  /** The function as written: on a status other than 200 the error message is built by
      adding the integer status to a string, which raises `TypeError` before anything
      is returned. */
  function ResolveAsWritten(status: int, html: string): (r: Outcome<Option<Position>>)
    ensures r == Raised(TypeError) <==> status != 200
  {
    if status == 200 then Returned(LatLon(html))
    else Raised(TypeError)
  }

  /** A page that is not found raises instead of giving `(None, None)`. */
  lemma NotFoundRaises()
    ensures ResolveAsWritten(404, "12.5 S 3.25 W") == Raised(TypeError)
  {
  }

  /** The intended behaviour: a failed fetch gives `(None, None)` like a missing pattern. */
  function Resolve(status: int, html: string): (r: Outcome<Option<Position>>)
    ensures r.Returned?
    ensures status != 200 ==> r.value.None?
  {
    if status == 200 then Returned(LatLon(html))
    else Returned(None)
  }

  /** The corrected function never raises and agrees with the written one wherever that
      one returns. */
  lemma ResolveAgrees(status: int, html: string)
    ensures ResolveAsWritten(status, html).Returned? ==> Resolve(status, html) == ResolveAsWritten(status, html)
    ensures Resolve(status, html).value.Some? <==> status == 200 && exists q: nat, g :: IsMatchAt(html, q, g)
    ensures ResolveAsWritten(status, html).Raised? || ResolveAsWritten(status, html).value.None?
            <==> Resolve(status, html).value.None?
  {
    LatLonNone(html);
  }
}
