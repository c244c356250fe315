/** The region resolver of the Kepler source: getRegionFromInstance derives a
    cloud region from the `instance` label of a Prometheus sample. Two naming
    schemes are recognised: GKE node names (prefix "gke-"), searched for the
    fixed pattern
        (europe|asia|australia|southamerica|me|africa|us)-[a-z]+[0-9]+
    and dotted host names, whose second dot-separated field is the region. */
module Region {
  import opened Types

  /** The alternatives of the pattern's area group, in the pattern's order. */
  const Areas: seq<string> := ["europe", "asia", "australia", "southamerica", "me", "africa", "us"]

  predicate IsLower(c: char) { 'a' <= c <= 'z' }

  predicate IsDigit(c: char) { '0' <= c <= '9' }

  predicate AllLower(t: string) { forall k :: 0 <= k < |t| ==> IsLower(t[k]) }

  predicate AllDigits(t: string) { forall k :: 0 <= k < |t| ==> IsDigit(t[k]) }

  predicate HasPrefix(s: string, p: string) { |p| <= |s| && s[..|p|] == p }

  /** Area word number `a` occurs in `s` at position `i`. */
  predicate AreaAt(s: string, i: nat, a: nat)
    requires a < |Areas|
  {
    i + |Areas[a]| <= |s| && s[i..i + |Areas[a]|] == Areas[a]
  }

  // ---------------------------------------------------------------------
  // Reference semantics of the pattern

  /** The substring s[i..j] matches the pattern: an area word at `i`, then
      '-', then one or more lower-case letters, then digits up to `j` (at
      least one). `m` is where the digits start. */
  ghost predicate MatchAt(s: string, i: int, j: int)
  {
    0 <= i <= j <= |s| && exists a, m :: MatchSplitAt(s, i, j, a, m)
  }

  predicate MatchSplitAt(s: string, i: int, j: int, a: int, m: int)
    requires 0 <= i <= j <= |s|
  {
    0 <= a < |Areas| && i + |Areas[a]| + 1 < m < j &&
    AreaAt(s, i, a) && s[i + |Areas[a]|] == '-' &&
    AllLower(s[i + |Areas[a]| + 1..m]) && AllDigits(s[m..j])
  }

  /** s[i..j] is the match Go's leftmost-first FindString reports: no match
      starts before `i`, and, the letter and digit runs being greedy, none
      that starts at `i` ends after `j`. */
  ghost predicate LeftmostLongest(s: string, i: int, j: int)
  {
    && MatchAt(s, i, j)
    && (forall i', j' :: 0 <= i' < i ==> !MatchAt(s, i', j'))
    && (forall j' :: j < j' <= |s| ==> !MatchAt(s, i, j'))
  }

  ghost predicate NoMatch(s: string)
  {
    forall i, j :: !MatchAt(s, i, j)
  }

  // ---------------------------------------------------------------------
  // The matcher

  /** The first alternative, from number `a` on, that occurs at `i`; like
      Go's regexp, earlier alternatives are preferred. */
  function FirstAreaAt(s: string, i: nat, a: nat): (r: Option<nat>)
    requires a <= |Areas|
    ensures r.Some? ==> a <= r.value < |Areas| && AreaAt(s, i, r.value)
    ensures r.None? ==> forall b :: a <= b < |Areas| ==> !AreaAt(s, i, b)
    decreases |Areas| - a
  {
    if a == |Areas| then None
    else if AreaAt(s, i, a) then Some(a)
    else FirstAreaAt(s, i, a + 1)
  }

  /** The end of the run of lower-case letters that starts at `k`. */
  function LetterEnd(s: string, k: nat): (e: nat)
    requires k <= |s|
    ensures k <= e <= |s| && AllLower(s[k..e])
    ensures e < |s| ==> !IsLower(s[e])
    decreases |s| - k
  {
    if k < |s| && IsLower(s[k]) then
      var e := LetterEnd(s, k + 1);
      assert s[k..e] == [s[k]] + s[k + 1..e];
      e
    else k
  }

  /** The end of the run of digits that starts at `k`. */
  function DigitEnd(s: string, k: nat): (e: nat)
    requires k <= |s|
    ensures k <= e <= |s| && AllDigits(s[k..e])
    ensures e < |s| ==> !IsDigit(s[e])
    decreases |s| - k
  {
    if k < |s| && IsDigit(s[k]) then
      var e := DigitEnd(s, k + 1);
      assert s[k..e] == [s[k]] + s[k + 1..e];
      e
    else k
  }

  /** The end of the match that starts at `i`, if there is one. */
  function MatchEnd(s: string, i: nat): (r: Option<nat>)
    requires i <= |s|
    ensures r.Some? ==> i < r.value <= |s|
  {
    match FirstAreaAt(s, i, 0)
    case None => None
    case Some(a) =>
      var h := i + |Areas[a]|;
      if h < |s| && s[h] == '-' then
        var l := LetterEnd(s, h + 1);
        if h + 1 < l then
          var d := DigitEnd(s, l);
          if l < d then Some(d) else None
        else None
      else None
  }

  /** The leftmost match that starts at or after `i`, as (start, end). */
  function FindFrom(s: string, i: nat): (r: Option<(nat, nat)>)
    requires i <= |s|
    ensures r.Some? ==> i <= r.value.0 < r.value.1 <= |s|
    decreases |s| - i
  {
    match MatchEnd(s, i)
    case Some(j) => Some((i, j))
    case None => if i == |s| then None else FindFrom(s, i + 1)
  }

  // ---------------------------------------------------------------------
  // The matcher against the reference semantics

  /** The two-letter openings of the area words are pairwise distinct, so at
      most one alternative occurs at any position. */
  lemma AreaUnique(s: string, i: nat, a: nat, b: nat)
    requires a < |Areas| && b < |Areas|
    requires AreaAt(s, i, a) && AreaAt(s, i, b)
    ensures a == b
  {
    assert Areas[a][0] == s[i] == Areas[b][0];
    assert Areas[a][1] == s[i + 1] == Areas[b][1];
  }

  lemma {:induction false} LetterEndExact(s: string, k: nat, e: nat)
    requires k <= e < |s|
    requires AllLower(s[k..e]) && !IsLower(s[e])
    ensures LetterEnd(s, k) == e
    decreases e - k
  {
    if k < e {
      assert IsLower(s[k..e][0]);
      assert s[k + 1..e] == s[k..e][1..];
      LetterEndExact(s, k + 1, e);
    }
  }

  lemma {:induction false} DigitEndCovers(s: string, k: nat, e: nat)
    requires k <= e <= |s|
    requires AllDigits(s[k..e])
    ensures DigitEnd(s, k) >= e
    decreases e - k
  {
    if k < e {
      assert IsDigit(s[k..e][0]);
      assert s[k + 1..e] == s[k..e][1..];
      DigitEndCovers(s, k + 1, e);
    }
  }

  /** A match the matcher reports is a match of the pattern. */
  lemma MatchEndSound(s: string, i: nat)
    requires i <= |s|
    ensures MatchEnd(s, i).Some? ==> MatchAt(s, i, MatchEnd(s, i).value)
  {
    match FirstAreaAt(s, i, 0)
    case None =>
    case Some(a) =>
      var w := |Areas[a]|;
      if i + w < |s| && s[i + w] == '-' {
        var l := LetterEnd(s, i + w + 1);
        if i + w + 1 < l {
          var d := DigitEnd(s, l);
          if l < d {
            assert MatchSplitAt(s, i, d, a, l);
          }
        }
      }
  }

  /** Every match of the pattern that starts at `i` is found, and ends no
      later than the end the matcher reports. */
  lemma MatchEndComplete(s: string, i: nat, j: nat)
    requires MatchAt(s, i, j)
    ensures MatchEnd(s, i).Some? && j <= MatchEnd(s, i).value
  {
    var a, m :| MatchSplitAt(s, i, j, a, m);
    var w := |Areas[a]|;
    var b := FirstAreaAt(s, i, 0).value;
    AreaUnique(s, i, a, b);
    assert IsDigit(s[m..j][0]);
    LetterEndExact(s, i + w + 1, m);
    DigitEndCovers(s, m, j);
  }

  /** Where the matcher finds nothing at `i`, no match starts at `i`. */
  lemma NoMatchAtStart(s: string, i: nat)
    requires i <= |s| && MatchEnd(s, i).None?
    ensures forall j :: !MatchAt(s, i, j)
  {
    forall j ensures !MatchAt(s, i, j) {
      if MatchAt(s, i, j) { MatchEndComplete(s, i, j); }
    }
  }

  /** When the scan from `i` finds nothing, no match starts at or after `i`. */
  lemma {:induction false} FindFromNone(s: string, i: nat)
    requires i <= |s| && FindFrom(s, i).None?
    ensures forall i', j' :: i <= i' ==> !MatchAt(s, i', j')
    decreases |s| - i
  {
    NoMatchAtStart(s, i);
    if i < |s| {
      FindFromNone(s, i + 1);
    }
  }

  /** The end the matcher reports at `i` is that of the longest match there. */
  lemma LongestAt(s: string, i: nat)
    requires i <= |s| && MatchEnd(s, i).Some?
    ensures MatchAt(s, i, MatchEnd(s, i).value)
    ensures forall j' :: MatchEnd(s, i).value < j' <= |s| ==> !MatchAt(s, i, j')
  {
    MatchEndSound(s, i);
    forall j' | MatchEnd(s, i).value < j' <= |s| ensures !MatchAt(s, i, j') {
      if MatchAt(s, i, j') { MatchEndComplete(s, i, j'); }
    }
  }

  /** When the scan from `i` reports (p, j), s[p..j] is a match, no match
      starts between `i` and `p`, and none that starts at `p` ends after `j`. */
  lemma {:induction false} FindFromSome(s: string, i: nat) returns (p: nat, j: nat)
    requires i <= |s| && FindFrom(s, i).Some?
    ensures FindFrom(s, i) == Some((p, j))
    ensures MatchAt(s, p, j)
    ensures forall i', j' :: i <= i' < p ==> !MatchAt(s, i', j')
    ensures forall j' :: j < j' <= |s| ==> !MatchAt(s, p, j')
    decreases |s| - i
  {
    match MatchEnd(s, i)
    case Some(e) =>
      p, j := i, e;
      LongestAt(s, i);
    case None =>
      NoMatchAtStart(s, i);
      p, j := FindFromSome(s, i + 1);
      NoMatchBefore(s, i, p);
  }

  /** No match starts in [i, p) when none starts at `i` and none in (i, p). */
  lemma NoMatchBefore(s: string, i: int, p: int)
    requires forall j' :: !MatchAt(s, i, j')
    requires forall i', j' :: i + 1 <= i' < p ==> !MatchAt(s, i', j')
    ensures forall i', j' :: i <= i' < p ==> !MatchAt(s, i', j')
  {
  }

  /** regexp.FindString: the leftmost(-longest) match, or "" when there is
      none. A match is never empty, so "" means exactly "no match". */
  function FindString(s: string): (r: string)
    ensures r == "" <==> NoMatch(s)
    ensures r != "" ==> exists p, j :: LeftmostLongest(s, p, j) && r == s[p..j]
  {
    match FindFrom(s, 0)
    case Some((p, j)) =>
      assert LeftmostLongest(s, p, j) by {
        var p', j' := FindFromSome(s, 0);
      }
      s[p..j]
    case None =>
      FindFromNone(s, 0);
      ""
  }

  // ---------------------------------------------------------------------
  // strings.Split on a single-character separator

  function IndexOf(s: string, c: char): (d: nat)
    requires c in s
    ensures d < |s| && s[d] == c && c !in s[..d]
  {
    if s[0] == c then 0
    else
      var d := IndexOf(s[1..], c) + 1;
      assert s[..d] == [s[0]] + s[1..][..d - 1];
      d
  }

  /** strings.Split: the fields of `s` between occurrences of `sep`; there is
      always one more field than there are separators. */
  function Split(s: string, sep: char): (parts: seq<string>)
    ensures |parts| >= 1
    ensures forall k :: 0 <= k < |parts| ==> sep !in parts[k]
    decreases |s|
  {
    if sep in s then
      var d := IndexOf(s, sep);
      [s[..d]] + Split(s[d + 1..], sep)
    else [s]
  }

  /** strings.Join, the inverse of Split. */
  function Join(parts: seq<string>, sep: char): string
  {
    if parts == [] then ""
    else if |parts| == 1 then parts[0]
    else parts[0] + [sep] + Join(parts[1..], sep)
  }

  lemma {:induction false} SplitJoin(s: string, sep: char)
    ensures Join(Split(s, sep), sep) == s
    decreases |s|
  {
    if sep in s {
      var d := IndexOf(s, sep);
      var rest := Split(s[d + 1..], sep);
      SplitJoin(s[d + 1..], sep);
      assert Split(s, sep) == [s[..d]] + rest;
      JoinCons(s[..d], rest, sep);
      assert s == s[..d] + [sep] + s[d + 1..];
    }
  }

  /** Joining a field in front of at least one more puts a separator between. */
  lemma JoinCons(x: string, rest: seq<string>, sep: char)
    requires |rest| >= 1
    ensures Join([x] + rest, sep) == x + [sep] + Join(rest, sep)
  {
    assert ([x] + rest)[1..] == rest;
  }

  lemma SplitHasTwoFields(s: string, sep: char)
    requires sep in s
    ensures |Split(s, sep)| >= 2
  {
  }

  // ---------------------------------------------------------------------
  // getRegionFromInstance

  datatype RegionResult = RegionResult(region: string, err: Option<string>)

  function NotFound(s: string): RegionResult
  {
    RegionResult("", Some("unable to get region from instance: " + s))
  }

  function GetRegionFromInstance(s: string): (r: RegionResult)
    ensures r.err.Some? ==> r == NotFound(s)
    ensures HasPrefix(s, "gke-") ==> (r.err.None? <==> !NoMatch(s))
    ensures HasPrefix(s, "gke-") && r.err.None? ==>
      exists p, j :: LeftmostLongest(s, p, j) && r.region == s[p..j]
    ensures !HasPrefix(s, "gke-") ==> (r.err.None? <==> '.' in s)
  {
    if HasPrefix(s, "gke-") then
      var match_ := FindString(s);
      if match_ == "" then NotFound(s) else RegionResult(match_, None)
    else if '.' in s then
      var parts := Split(s, '.');
      if |parts| >= 2 then RegionResult(parts[1], None) else NotFound(s)
    else NotFound(s)
  }

  /** `s` is `x`, a dot, `field`, then either nothing or a dot and the rest,
      with no dot in `x` or `field`: `field` is the second dot-separated field. */
  predicate SecondField(s: string, x: string, field: string, y: string)
  {
    s == x + "." + field + y && '.' !in x && '.' !in field && (y == "" || y[0] == '.')
  }

  /** The first field of `t` is followed by nothing or by a dot. */
  lemma FirstFieldEnd(t: string) returns (y: string)
    ensures t == Split(t, '.')[0] + y && (y == "" || y[0] == '.')
  {
    if '.' in t {
      var e := IndexOf(t, '.');
      y := t[e..];
      assert t == t[..e] + y;
    } else {
      y := "";
    }
  }

  /** Assembles SecondField from the position `d` of the first dot. */
  lemma SecondFieldAt(s: string, d: nat, field: string, y: string)
    requires d < |s| && s[d] == '.' && '.' !in s[..d]
    requires s[d + 1..] == field + y && '.' !in field && (y == "" || y[0] == '.')
    ensures SecondField(s, s[..d], field, y)
  {
    assert s == s[..d] + "." + s[d + 1..];
  }

  /** For a name outside the GKE scheme that contains a dot, the region is the
      text between the first dot and the next dot (or the end), and resolving
      it never fails: strings.Split yields at least two fields. */
  lemma DottedNameRegion(s: string)
    requires !HasPrefix(s, "gke-") && '.' in s
    ensures var r := GetRegionFromInstance(s);
      && r.err.None?
      && exists x, y :: SecondField(s, x, r.region, y)
  {
    var d := IndexOf(s, '.');
    var rest := s[d + 1..];
    var region := Split(rest, '.')[0];
    assert Split(s, '.')[1] == region;
    var y := FirstFieldEnd(rest);
    SecondFieldAt(s, d, region, y);
  }

  /** A GKE name is never resolved by the dotted-name rule: even when it has
      a second dotted field, it fails exactly when the pattern has no match. */
  lemma GkeNameIgnoresDots(s: string)
    requires HasPrefix(s, "gke-") && '.' in s
    ensures |Split(s, '.')| >= 2
    ensures NoMatch(s) <==> GetRegionFromInstance(s) == NotFound(s)
  {
    SplitHasTwoFields(s, '.');
  }

  // ---------------------------------------------------------------------
  // Worked examples

  /** `c0` and `c1` are the first two letters of an area word. */
  predicate AreaTag(c0: char, c1: char)
  {
    || (c0 == 'e' && c1 == 'u')
    || (c0 == 'a' && (c1 == 's' || c1 == 'u' || c1 == 'f'))
    || (c0 == 's' && c1 == 'o')
    || (c0 == 'm' && c1 == 'e')
    || (c0 == 'u' && c1 == 's')
  }

  /** No area opening at position `k` of `s`. */
  predicate Quiet(s: string, k: nat)
  {
    k + 1 >= |s| || !AreaTag(s[k], s[k + 1])
  }

  /** Where no area opening is at `i`, no area word starts there. */
  lemma NoOpening(s: string, i: nat)
    requires Quiet(s, i)
    ensures FirstAreaAt(s, i, 0).None?
  {
    forall b | 0 <= b < |Areas|
      ensures !AreaAt(s, i, b)
    {
      assert AreaTag(Areas[b][0], Areas[b][1]);
      if i + |Areas[b]| <= |s| {
        assert s[i..i + |Areas[b]|][0] == s[i] && s[i..i + |Areas[b]|][1] == s[i + 1];
      }
    }
  }

  /** No area word starts at any position in [i, p), so the scan from `i`
      reaches `p` without a match. */
  lemma {:induction false} SkipTo(s: string, i: nat, p: nat)
    requires i <= p <= |s|
    requires forall k :: i <= k < p ==> Quiet(s, k)
    ensures FindFrom(s, i) == FindFrom(s, p)
    decreases p - i
  {
    if i < p {
      QuietNoMatch(s, i);
      SkipTo(s, i + 1, p);
    }
  }

  /** Where no area opening is at `i`, no match starts there. */
  lemma QuietNoMatch(s: string, i: nat)
    requires i <= |s| && Quiet(s, i)
    ensures MatchEnd(s, i).None?
  {
    NoOpening(s, i);
  }

  /** No two adjacent characters of `t` from position `d` on open an area
      word. */
  predicate NoTagsFrom(t: string, d: nat)
  {
    forall k {:trigger AreaTag(t[k], t[k + 1])} :: d <= k < |t| - 1 ==> !AreaTag(t[k], t[k + 1])
  }

  /** A piece of `s` whose positions from `d` on hold no area opening, and
      which ends with '-' (or ends `s`), leaves no area opening at those
      positions in `s`. */
  lemma NoTagsIn(s: string, i: nat, t: string, d: nat)
    requires d <= |t| && i + |t| <= |s| && s[i..i + |t|] == t && NoTagsFrom(t, d)
    requires i + |t| == |s| || (|t| > 0 && (t[|t| - 1] == '-' || t[|t| - 1] == '.'))
    ensures forall k :: i + d <= k < i + |t| ==> Quiet(s, k)
  {
    forall k | i + d <= k < i + |t|
      ensures Quiet(s, k)
    {
      assert s[k] == t[k - i];
      if k + 1 < i + |t| {
        var j := k - i;
        assert s[k + 1] == t[j + 1];
        assert !AreaTag(t[j], t[j + 1]);
      } else if k + 1 < |s| {
        assert s[k] == t[|t| - 1];
      }
    }
  }

  /** A string in which every area opening fails to start a match has no
      match at all: the scan from any position finds nothing. */
  lemma {:induction false} ScanNone(s: string, fails: set<nat>, i: nat)
    requires i <= |s|
    requires forall k :: 0 <= k < |s| && k !in fails ==> Quiet(s, k)
    requires forall k :: k in fails ==> k <= |s| && MatchEnd(s, k).None?
    ensures FindFrom(s, i).None?
    decreases |s| - i
  {
    if i !in fails {
      QuietNoMatch(s, i);
    }
    if i < |s| {
      ScanNone(s, fails, i + 1);
    }
  }

  /** Area word `a` at `i` is the alternative the matcher takes there. */
  lemma FirstAreaIs(s: string, i: nat, a: nat)
    requires a < |Areas| && AreaAt(s, i, a)
    ensures FirstAreaAt(s, i, 0) == Some(a)
  {
    AreaUnique(s, i, a, FirstAreaAt(s, i, 0).value);
  }

  lemma {:induction false} DigitEndExact(s: string, k: nat, e: nat)
    requires k <= e <= |s|
    requires AllDigits(s[k..e]) && (e == |s| || !IsDigit(s[e]))
    ensures DigitEnd(s, k) == e
    decreases e - k
  {
    if k < e {
      assert IsDigit(s[k..e][0]);
      assert s[k + 1..e] == s[k..e][1..];
      DigitEndExact(s, k + 1, e);
    }
  }

  /** `s[d]` is the first occurrence of `c` in `s`. */
  lemma IndexOfIs(s: string, c: char, d: nat)
    requires d < |s| && s[d] == c && forall k :: 0 <= k < d ==> s[k] != c
    ensures IndexOf(s, c) == d
  {
  }

  /** The second '.'-separated field of `s` runs from just after the dot at
      `d` (the first one) to `e` (the next dot, or the end). */
  lemma SecondFieldIs(s: string, d: nat, e: nat)
    requires d < e <= |s| && s[d] == '.'
    requires forall k :: 0 <= k < e && k != d ==> s[k] != '.'
    requires e == |s| || s[e] == '.'
    ensures Split(s, '.')[1] == s[d + 1..e]
  {
    IndexOfIs(s, '.', d);
    var rest := s[d + 1..];
    assert Split(s, '.')[1] == Split(rest, '.')[0];
    if e < |s| {
      IndexOfIs(rest, '.', e - d - 1);
    } else {
      assert forall k :: 0 <= k < |rest| ==> rest[k] == s[d + 1 + k];
    }
  }

  /** A match at `p`, after a stretch where no area word starts, is what
      FindString reports. */
  lemma FoundAt(s: string, p: nat, a: nat, l: nat, d: nat)
    requires a < |Areas| && AreaAt(s, p, a)
    requires p + |Areas[a]| < |s| && s[p + |Areas[a]|] == '-'
    requires p + |Areas[a]| + 1 < l < d <= |s|
    requires AllLower(s[p + |Areas[a]| + 1..l]) && AllDigits(s[l..d])
    requires d == |s| || !IsDigit(s[d])
    requires forall k :: 0 <= k < p ==> Quiet(s, k)
    ensures FindString(s) == s[p..d]
  {
    assert FindFrom(s, 0) == FindFrom(s, p) by {
      SkipTo(s, 0, p);
    }
    MatchEndIs(s, p, a, l, d);
    assert FindFrom(s, 0) == Some((p, d));
  }

  /** The matcher's end for a match split as area word `a`, letters up to
      `l` and digits up to `d`, where the letters and digits do not go on. */
  lemma MatchEndIs(s: string, p: nat, a: nat, l: nat, d: nat)
    requires a < |Areas| && AreaAt(s, p, a)
    requires p + |Areas[a]| < |s| && s[p + |Areas[a]|] == '-'
    requires p + |Areas[a]| + 1 < l < d <= |s|
    requires AllLower(s[p + |Areas[a]| + 1..l]) && AllDigits(s[l..d])
    requires d == |s| || !IsDigit(s[d])
    ensures MatchEnd(s, p) == Some(d)
  {
    FirstAreaIs(s, p, a);
    assert IsDigit(s[l..d][0]);
    LetterEndExact(s, p + |Areas[a]| + 1, l);
    DigitEndExact(s, l, d);
  }

  /** A name made of a prefix without area openings that ends in '-', a
      region of the pattern's form whose digits end the region, and any
      suffix not starting with a digit: FindString reports the region. */
  lemma FoundBetween(s: string, pre: string, r: string, post: string, a: nat, l: nat)
    requires s == pre + r + post
    requires |pre| > 0 && pre[|pre| - 1] == '-' && NoTagsFrom(pre, 0)
    requires a < |Areas| && AreaAt(r, 0, a)
    requires |Areas[a]| < |r| && r[|Areas[a]|] == '-'
    requires |Areas[a]| + 1 < l < |r|
    requires AllLower(r[|Areas[a]| + 1..l]) && AllDigits(r[l..])
    requires post == [] || !IsDigit(post[0])
    ensures FindString(s) == r
  {
    var p, w := |pre|, |Areas[a]|;
    assert s[0..p] == pre;
    assert s[p..p + |r|] == r;
    NoTagsIn(s, 0, pre, 0);
    assert AreaAt(s, p, a) by {
      assert s[p..p + w] == r[0..w];
    }
    assert s[p + w + 1..p + l] == r[w + 1..l];
    assert s[p + l..p + |r|] == r[l..];
    assert p + |r| < |s| ==> s[p + |r|] == post[0];
    FoundAt(s, p, a, p + l, p + |r|);
  }

  // The examples below name their input `s` and fix it by a precondition
  // written as a concatenation; the region is the middle piece.

  /** From the resolver's tests: a GKE node name in europe-west1. */
  lemma GkeExampleEurope(s: string)
    requires s == "gke-gc0-" + "europe-west1" + "-default-f0c26727-1irq"
    ensures GetRegionFromInstance(s) == RegionResult("europe-west1", None)
  {
    assert HasPrefix(s, "gke-") by {
      assert forall k :: 0 <= k < 4 ==> s[k] == "gke-"[k];
    }
    EuropeWest1("europe-west1");
    FoundBetween(s, "gke-gc0-", "europe-west1", "-default-f0c26727-1irq", 0, 11);
  }

  /** From the resolver's tests: a GKE node name in us-central1, after an
      extra "apps" field. */
  lemma GkeExampleUs(s: string)
    requires s == "gke-gc0-apps-" + "us-central1" + "-default-f0c26727-1irq"
    ensures GetRegionFromInstance(s) == RegionResult("us-central1", None)
  {
    assert HasPrefix(s, "gke-") by {
      assert forall k :: 0 <= k < 4 ==> s[k] == "gke-"[k];
    }
    var r := "us-central1";
    assert AreaAt(r, 0, 6) by {
      assert forall k :: 0 <= k < 2 ==> r[k] == Areas[6][k];
    }
    assert AllLower(r[3..10]) by {
      assert forall k :: 0 <= k < 7 ==> r[3..10][k] == r[3 + k];
    }
    assert AllDigits(r[10..]) by {
      assert r[10..][0] == r[10];
    }
    FoundBetween(s, "gke-gc0-apps-", r, "-default-f0c26727-1irq", 6, 10);
  }

  /** From the resolver's documentation comment. */
  lemma GkeExampleFromDocs(s: string)
    requires s == "gke-gc0-apps-" + "europe-west1" + "-default-ca15cfa4-hrb7"
    ensures GetRegionFromInstance(s) == RegionResult("europe-west1", None)
  {
    assert HasPrefix(s, "gke-") by {
      assert forall k :: 0 <= k < 4 ==> s[k] == "gke-"[k];
    }
    EuropeWest1("europe-west1");
    FoundBetween(s, "gke-gc0-apps-", "europe-west1", "-default-ca15cfa4-hrb7", 0, 11);
  }

  /** "europe-west1" has the pattern's form: "europe", '-', the letters
      "west" and the digit "1". */
  lemma EuropeWest1(r: string)
    requires r == "europe-west1"
    ensures AreaAt(r, 0, 0) && AllLower(r[7..11]) && AllDigits(r[11..])
  {
    assert forall k :: 0 <= k < 6 ==> r[k] == Areas[0][k];
    assert forall k :: 0 <= k < 4 ==> r[7..11][k] == r[7 + k];
    assert r[11..][0] == r[11];
  }

  /** From the resolver's tests: "europe-west" has no zone number, and the
      "me" that opens "medium" is not followed by '-', so a GKE name without
      a match fails, even though its tail would look like a region. */
  lemma GkeExampleWithoutZone(s: string)
    requires s == "gke-gc0-apps-" + "europe-west-" + "medium-" + "nodes-" + "f09525f4-" + "uokn"
    ensures GetRegionFromInstance(s) == NotFound(s)
  {
    assert HasPrefix(s, "gke-") by {
      assert forall k :: 0 <= k < 4 ==> s[k] == "gke-"[k];
    }
    WithoutZoneOpenings(s);
    WithoutZoneAreas(s);
    ScanNone(s, {13, 25}, 0);
  }

  /** The only area openings of that name are at 13 ("eu") and 25 ("me"). */
  lemma WithoutZoneOpenings(s: string)
    requires s == "gke-gc0-apps-" + "europe-west-" + "medium-" + "nodes-" + "f09525f4-" + "uokn"
    ensures |s| == 51
    ensures forall k :: 0 <= k < |s| && k !in {13, 25} ==> Quiet(s, k)
  {
    WithoutZonePieces(s);
    NoTagsIn(s, 0, "gke-gc0-apps-", 0);
    NoTagsIn(s, 13, "europe-west-", 1);
    NoTagsIn(s, 25, "medium-", 1);
    NoTagsIn(s, 32, "nodes-", 0);
    NoTagsIn(s, 38, "f09525f4-", 0);
    NoTagsIn(s, 47, "uokn", 0);
  }

  /** The pieces of that name and where their area openings lie. */
  lemma WithoutZonePieces(s: string)
    requires s == "gke-gc0-apps-" + "europe-west-" + "medium-" + "nodes-" + "f09525f4-" + "uokn"
    ensures |s| == 51
    ensures s[0..13] == "gke-gc0-apps-" && NoTagsFrom("gke-gc0-apps-", 0)
    ensures s[13..25] == "europe-west-" && NoTagsFrom("europe-west-", 1)
    ensures s[25..32] == "medium-" && NoTagsFrom("medium-", 1)
    ensures s[32..38] == "nodes-" && NoTagsFrom("nodes-", 0)
    ensures s[38..47] == "f09525f4-" && NoTagsFrom("f09525f4-", 0)
    ensures s[47..51] == "uokn" && NoTagsFrom("uokn", 0)
  {
    WithoutZoneTags();
  }

  lemma WithoutZoneTags()
    ensures NoTagsFrom("gke-gc0-apps-", 0) && NoTagsFrom("europe-west-", 1) && NoTagsFrom("medium-", 1)
    ensures NoTagsFrom("nodes-", 0) && NoTagsFrom("f09525f4-", 0) && NoTagsFrom("uokn", 0)
  {
  }

  /** Neither area opening of that name starts a match: "europe-west-" has
      letters followed by '-', not by a digit, and the "me" opening "medium"
      is not followed by '-'. */
  lemma WithoutZoneAreas(s: string)
    requires s == "gke-gc0-apps-" + "europe-west-" + "medium-" + "nodes-" + "f09525f4-" + "uokn"
    ensures MatchEnd(s, 13).None? && MatchEnd(s, 25).None?
  {
    assert AreaAt(s, 13, 0) by {
      assert forall k :: 0 <= k < 6 ==> s[13 + k] == Areas[0][k];
    }
    FirstAreaIs(s, 13, 0);
    assert AllLower(s[20..24]) by {
      assert forall k :: 0 <= k < 4 ==> s[20..24][k] == s[20 + k];
    }
    LetterEndExact(s, 20, 24);
    assert AreaAt(s, 25, 4) by {
      assert forall k :: 0 <= k < 2 ==> s[25 + k] == Areas[4][k];
    }
    FirstAreaIs(s, 25, 4);
  }

  /** "eu" followed by something other than 'r' opens no area word. */
  lemma NoAreaAfterEu(s: string, i: nat)
    requires i + 2 < |s| && s[i] == 'e' && s[i + 1] == 'u' && s[i + 2] != 'r'
    ensures MatchEnd(s, i).None?
  {
    forall b | 0 <= b < |Areas|
      ensures !AreaAt(s, i, b)
    {
      if i + |Areas[b]| <= |s| {
        var w := s[i..i + |Areas[b]|];
        assert w[0] == s[i];
        if b == 0 {
          assert w[2] == s[i + 2];
        }
      }
    }
  }

  /** A GKE name whose second dotted field looks like a region is still not
      resolved by the dotted-name rule: "eu-west-1" does not match the
      pattern, so the name fails. */
  lemma GkeDottedExample(s: string)
    requires s == "gke-pool." + "eu-" + "west-" + "1.internal"
    ensures GetRegionFromInstance(s) == NotFound(s)
    ensures Split(s, '.')[1] == "eu-west-1"
  {
    assert HasPrefix(s, "gke-") by {
      assert forall k :: 0 <= k < 4 ==> s[k] == "gke-"[k];
    }
    GkeDottedOpenings(s);
    NoAreaAfterEu(s, 9);
    ScanNone(s, {9}, 0);
    GkeDottedField(s);
  }

  /** The second dotted field of that name. */
  lemma GkeDottedField(s: string)
    requires s == "gke-pool." + "eu-" + "west-" + "1.internal"
    ensures Split(s, '.')[1] == "eu-west-1"
  {
    GkeDottedPieces(s);
    DottedFieldOf(s);
  }

  /** The same, from the pieces alone. */
  lemma DottedFieldOf(s: string)
    requires |s| == 27 && s[0..9] == "gke-pool." && s[9..12] == "eu-"
    requires s[12..17] == "west-" && s[17..27] == "1.internal"
    ensures |Split(s, '.')| >= 2 && Split(s, '.')[1] == "eu-west-1"
  {
    forall k | 0 <= k < 18 && k != 8
      ensures s[k] != '.'
    {
      if k < 9 {
        assert s[k] == s[0..9][k];
      } else if k < 12 {
        assert s[k] == s[9..12][k - 9];
      } else if k < 17 {
        assert s[k] == s[12..17][k - 12];
      } else {
        assert s[k] == s[17..27][0];
      }
    }
    assert s[8] == s[0..9][8];
    assert s[18] == s[17..27][1];
    SecondFieldIs(s, 8, 18);
    SliceOfThree(s, 9, 12, 17, 18);
    assert s[17..18] == s[17..27][..1];
  }

  /** A slice that spans two whole pieces and the head of a third. */
  lemma SliceOfThree(s: string, a: nat, b: nat, c: nat, e: nat)
    requires a <= b <= c < e <= |s|
    ensures s[a..e] == s[a..b] + s[b..c] + s[c..e]
  {
  }

  /** The only area opening of that name is the "eu" at 9. */
  lemma GkeDottedOpenings(s: string)
    requires s == "gke-pool." + "eu-" + "west-" + "1.internal"
    ensures |s| == 27 && s[9] == 'e' && s[10] == 'u' && s[11] == '-'
    ensures forall k :: 0 <= k < |s| && k !in {9} ==> Quiet(s, k)
  {
    GkeDottedPieces(s);
    NoTagsIn(s, 0, "gke-pool.", 0);
    NoTagsIn(s, 9, "eu-", 1);
    NoTagsIn(s, 12, "west-", 0);
    NoTagsIn(s, 17, "1.internal", 0);
  }

  /** The pieces of that name and where their area openings lie. */
  lemma GkeDottedPieces(s: string)
    requires s == "gke-pool." + "eu-" + "west-" + "1.internal"
    ensures |s| == 27
    ensures s[0..9] == "gke-pool." && NoTagsFrom("gke-pool.", 0)
    ensures s[9..12] == "eu-" && NoTagsFrom("eu-", 1)
    ensures s[12..17] == "west-" && NoTagsFrom("west-", 0)
    ensures s[17..27] == "1.internal" && NoTagsFrom("1.internal", 0)
  {
    GkeDottedTags();
  }

  lemma GkeDottedTags()
    ensures NoTagsFrom("gke-pool.", 0) && NoTagsFrom("eu-", 1)
    ensures NoTagsFrom("west-", 0) && NoTagsFrom("1.internal", 0)
  {
  }

  /** From the resolver's documentation comment and tests: AWS host names. */
  lemma DottedExampleFromTests(s: string)
    requires s == "ip-10-12-12-154." + "eu-central-1" + ".compute.internal"
    ensures GetRegionFromInstance(s) == RegionResult("eu-central-1", None)
  {
    assert s[0] == 'i';
    assert !HasPrefix(s, "gke-");
    assert forall k :: 0 <= k < 28 && k != 15 ==> s[k] != '.';
    SecondFieldIs(s, 15, 28);
    assert s[16..28] == "eu-central-1";
  }

  lemma DottedExampleFromDocs(s: string)
    requires s == "ip-192-168-29-157." + "eu-north-1" + ".compute.internal"
    ensures GetRegionFromInstance(s) == RegionResult("eu-north-1", None)
  {
    assert s[0] == 'i';
    assert !HasPrefix(s, "gke-");
    assert forall k :: 0 <= k < 28 && k != 17 ==> s[k] != '.';
    SecondFieldIs(s, 17, 28);
    assert s[18..28] == "eu-north-1";
  }

  /** From the resolver's tests: neither scheme applies. */
  lemma NeitherSchemeExample(s: string)
    requires s == "invalid-instance"
    ensures GetRegionFromInstance(s) == NotFound(s)
  {
    assert s[0] == 'i';
    assert !HasPrefix(s, "gke-");
    assert forall k :: 0 <= k < |s| ==> s[k] != '.';
    assert '.' !in s;
  }
}
