/**
 The time expression of a booking request: the first match of the regular
 expression

     \b((?:1[0-2]|0?[1-9])(?::\d{2})?\s*(?:am|pm|AM|PM))\b

 searched for left to right, or "10 AM" when there is none.

 `TimeAt` states the grammar declaratively (every way of splitting a window
 into hour, minutes, spaces and marker); `MatchAt` is the scanner that follows
 the expression's own order of alternatives. The two are proved to agree, so
 the window found at a position is unique and backtracking cannot choose a
 different one.
 */
module TimeExpr {
  import opened Wrappers

  const DefaultTime := "10 AM"

  /** `\d`, for ASCII digits. */
  predicate IsDigit(c: char)
  {
    '0' <= c <= '9'
  }

  /** `\w`, for ASCII letters, digits and the underscore. */
  predicate IsWordChar(c: char)
  {
    'a' <= c <= 'z' || 'A' <= c <= 'Z' || IsDigit(c) || c == '_'
  }

  /** `\s`: the characters Python treats as whitespace. */
  predicate IsSpace(c: char)
  {
    var n := c as int;
    9 <= n <= 13 || 28 <= n <= 32 || n == 0x85 || n == 0xA0 || n == 0x1680
    || 0x2000 <= n <= 0x200A || n == 0x2028 || n == 0x2029 || n == 0x202F || n == 0x205F || n == 0x3000
  }

  /** Whether position p of s (outside the string counts as not a word character) holds a word character. */
  predicate WordAt(s: string, p: int)
  {
    0 <= p < |s| && IsWordChar(s[p])
  }

  /** `\b` at position p: a word character on exactly one side. */
  predicate Boundary(s: string, p: int)
  {
    WordAt(s, p - 1) != WordAt(s, p)
  }

  /** An hour of the 12-hour clock, `1[0-2]|0?[1-9]`: 10 to 12, or 1 to 9 with an optional leading 0. */
  predicate IsHour(h: string)
  {
    || (|h| == 2 && h[0] == '1' && '0' <= h[1] <= '2')
    || (|h| == 2 && h[0] == '0' && '1' <= h[1] <= '9')
    || (|h| == 1 && '1' <= h[0] <= '9')
  }

  /** Optional minutes, `(?::\d{2})?`: nothing, or a colon and two digits. */
  predicate IsMinutes(m: string)
  {
    m == [] || (|m| == 3 && m[0] == ':' && IsDigit(m[1]) && IsDigit(m[2]))
  }

  /** A run of spaces, `\s*`, possibly empty. */
  predicate AllSpaces(w: string)
  {
    forall k :: 0 <= k < |w| ==> IsSpace(w[k])
  }

  /** The marker, `am|pm|AM|PM`: either one in all lower case or all upper case. */
  predicate IsMeridiem(x: string)
  {
    x == "am" || x == "pm" || x == "AM" || x == "PM"
  }

  /** s[i..j] matches the whole expression, split as hour s[i..a], minutes s[a..b], spaces s[b..c]
      and marker s[c..j], with a word boundary at both ends. */
  predicate TimeAt(s: string, i: nat, a: nat, b: nat, c: nat, j: nat)
  {
    && i < a <= b <= c && j == c + 2 && j <= |s|
    && Boundary(s, i) && Boundary(s, j)
    && IsHour(s[i..a]) && IsMinutes(s[a..b]) && AllSpaces(s[b..c]) && IsMeridiem(s[c..j])
  }

  /** The expression matches s[i..j]. */
  ghost predicate TimeMatch(s: string, i: nat, j: nat)
  {
    exists a: nat, b: nat, c: nat :: TimeAt(s, i, a, b, c, j)
  }

  /** End of the hour, trying `1[0-2]`, then `0[1-9]`, then `[1-9]`. */
  function HourEnd(s: string, i: nat): Option<nat>
  {
    if i + 1 < |s| && s[i] == '1' && '0' <= s[i + 1] <= '2' then Some(i + 2)
    else if i + 1 < |s| && s[i] == '0' && '1' <= s[i + 1] <= '9' then Some(i + 2)
    else if i < |s| && '1' <= s[i] <= '9' then Some(i + 1)
    else None
  }

  /** End of the optional minutes, taken whenever present. */
  function MinutesEnd(s: string, a: nat): nat
  {
    if a + 2 < |s| && s[a] == ':' && IsDigit(s[a + 1]) && IsDigit(s[a + 2]) then a + 3 else a
  }

  /** End of the longest run of spaces starting at b. */
  function SpacesEnd(s: string, b: nat): (c: nat)
    requires b <= |s|
    ensures b <= c <= |s|
    decreases |s| - b
  {
    if b < |s| && IsSpace(s[b]) then SpacesEnd(s, b + 1) else b
  }

  /** The end of the match starting at position i, if there is one. */
  function MatchAt(s: string, i: nat): (r: Option<nat>)
    requires i <= |s|
    ensures r.Some? ==> i < r.value <= |s|
  {
    if !Boundary(s, i) then None
    else match HourEnd(s, i)
      case None => None
      case Some(a) =>
        var c := SpacesEnd(s, MinutesEnd(s, a));
        if c + 2 <= |s| && IsMeridiem(s[c..c + 2]) && Boundary(s, c + 2) then Some(c + 2) else None
  }

  /** `re.search`: the first start position, from `from` on, at which the expression matches,
      with the end of that match. */
  function Search(s: string, from: nat): (r: Option<(nat, nat)>)
    requires from <= |s|
    ensures r.Some? ==> from <= r.value.0 < r.value.1 <= |s|
    decreases |s| - from
  {
    match MatchAt(s, from)
    case Some(j) => Some((from, j))
    case None => if from == |s| then None else Search(s, from + 1)
  }

  /** The time of a booking request: the text of the first match, or the default "10 AM" when
      nothing matches. */
  function ExtractTime(s: string): string
  {
    match Search(s, 0)
    case Some((i, j)) => s[i..j]
    case None => DefaultTime
  }

  lemma {:induction false} SpacesEndSkipsSpaces(s: string, b: nat)
    requires b <= |s|
    ensures AllSpaces(s[b..SpacesEnd(s, b)])
    ensures SpacesEnd(s, b) == |s| || !IsSpace(s[SpacesEnd(s, b)])
    decreases |s| - b
  {
    if b < |s| && IsSpace(s[b]) {
      SpacesEndSkipsSpaces(s, b + 1);
      assert s[b..SpacesEnd(s, b)] == [s[b]] + s[b + 1..SpacesEnd(s, b)];
    }
  }

  lemma {:induction false} SpacesEndStopsAt(s: string, b: nat, c: nat)
    requires b <= c < |s| && AllSpaces(s[b..c]) && !IsSpace(s[c])
    ensures SpacesEnd(s, b) == c
    decreases c - b
  {
    if b < c {
      assert IsSpace(s[b..c][0]);
      assert s[b + 1..c] == s[b..c][1..];
      SpacesEndStopsAt(s, b + 1, c);
    }
  }

  /** Whatever the scanner finds is a match. */
  lemma MatchAtSound(s: string, i: nat)
    requires i <= |s|
    ensures MatchAt(s, i).Some? ==> TimeMatch(s, i, MatchAt(s, i).value)
  {
    if MatchAt(s, i).Some? {
      var a := HourEnd(s, i).value;
      var b := MinutesEnd(s, a);
      var c := SpacesEnd(s, b);
      SpacesEndSkipsSpaces(s, b);
      assert TimeAt(s, i, a, b, c, c + 2);
    }
  }

  /** Every way of reading s[i..j] as a time is the scanner's reading. */
  lemma MatchAtComplete(s: string, i: nat, a: nat, b: nat, c: nat, j: nat)
    requires TimeAt(s, i, a, b, c, j)
    ensures MatchAt(s, i) == Some(j)
  {
    // the character after the hour opens the minutes, a space or the marker: never a digit
    assert !IsDigit(s[a]) by {
      if a < b {
        assert s[a] == s[a..b][0];
      } else if b < c {
        assert s[a] == s[b..c][0];
      } else {
        assert s[a] == s[c..j][0];
      }
    }
    assert s[i..a][0] == s[i];
    if a == i + 2 {
      assert s[i..a][1] == s[i + 1];
    }
    assert HourEnd(s, i) == Some(a);
    // without minutes, the next character is a space or the marker, never ':'
    if a == b {
      if b < c {
        assert s[a] == s[b..c][0];
      } else {
        assert s[a] == s[c..j][0];
      }
    } else {
      assert s[a..b][1] == s[a + 1] && s[a..b][2] == s[a + 2];
    }
    assert MinutesEnd(s, a) == b;
    assert !IsSpace(s[c]) by {
      assert s[c] == s[c..j][0];
    }
    SpacesEndStopsAt(s, b, c);
  }

  /** The scanner and the grammar agree, so a match starting at i is unique. */
  lemma MatchAtIsTimeMatch(s: string, i: nat, j: nat)
    requires i <= |s|
    ensures MatchAt(s, i) == Some(j) <==> TimeMatch(s, i, j)
  {
    MatchAtSound(s, i);
    if TimeMatch(s, i, j) {
      var a: nat, b: nat, c: nat :| TimeAt(s, i, a, b, c, j);
      MatchAtComplete(s, i, a, b, c, j);
    }
  }

  /** No match starts at any position in [lo, hi). */
  ghost predicate NoMatchFrom(s: string, lo: nat, hi: nat)
  {
    forall i: nat, j: nat :: lo <= i < hi ==> !TimeMatch(s, i, j)
  }

  /** When the scanner finds nothing at `from`, no match starts there. */
  lemma NoMatchAt(s: string, from: nat)
    requires from <= |s| && MatchAt(s, from).None?
    ensures NoMatchFrom(s, from, from + 1)
  {
    forall i: nat, j: nat | from <= i < from + 1 ensures !TimeMatch(s, i, j) {
      MatchAtIsTimeMatch(s, from, j);
    }
  }

  /** Every match starts with a digit. */
  lemma MatchStartsWithDigit(s: string, i: nat, j: nat)
    requires TimeMatch(s, i, j)
    ensures i < |s| && IsDigit(s[i])
  {
    var a: nat, b: nat, c: nat :| TimeAt(s, i, a, b, c, j);
    assert s[i..a][0] == s[i];
  }

  /** A stretch without digits holds no match start. */
  lemma NoDigitNoMatch(s: string, lo: nat, hi: nat)
    requires hi <= |s| && forall p :: lo <= p < hi ==> !IsDigit(s[p])
    ensures NoMatchFrom(s, lo, hi)
  {
    forall i: nat, j: nat | lo <= i < hi && TimeMatch(s, i, j) ensures false {
      MatchStartsWithDigit(s, i, j);
    }
  }

  /** `Search` returns the leftmost match at or after `from`, and none only when there is none. */
  lemma {:induction false} SearchIsLeftmost(s: string, from: nat)
    requires from <= |s|
    ensures Search(s, from).Some? ==>
              && from <= Search(s, from).value.0 <= Search(s, from).value.1 <= |s|
              && TimeMatch(s, Search(s, from).value.0, Search(s, from).value.1)
              && NoMatchFrom(s, from, Search(s, from).value.0)
    ensures Search(s, from).None? ==> NoMatchFrom(s, from, |s| + 1)
    decreases |s| - from
  {
    match MatchAt(s, from)
    case Some(j) => {
      MatchAtIsTimeMatch(s, from, j);
      var a := HourEnd(s, from).value;
      assert j == SpacesEnd(s, MinutesEnd(s, a)) + 2;
    }
    case None => {
      NoMatchAt(s, from);
      if from < |s| {
        SearchIsLeftmost(s, from + 1);
      } else {
        forall i: nat, j: nat | from <= i < |s| + 1 ensures !TimeMatch(s, i, j) {
          assert i == from;
        }
      }
    }
  }

  /** The time put into a booking is the text of the leftmost match, or "10 AM" when nothing matches. */
  lemma ExtractTimeIsFirstMatch(s: string)
    ensures ExtractTime(s) == DefaultTime || exists i: nat, j: nat :: i <= j <= |s| && TimeMatch(s, i, j) && ExtractTime(s) == s[i..j]
    ensures (forall i: nat, j: nat :: !TimeMatch(s, i, j)) ==> ExtractTime(s) == DefaultTime
    ensures forall i: nat, j: nat :: TimeMatch(s, i, j) && (forall i': nat, j': nat :: i' < i ==> !TimeMatch(s, i', j'))
              ==> ExtractTime(s) == s[i..j]
  {
    SearchIsLeftmost(s, 0);
    match Search(s, 0)
    case None =>
    case Some((i, j)) =>
      assert ExtractTime(s) == s[i..j];
      forall i2: nat, j2: nat | TimeMatch(s, i2, j2) && (forall i': nat, j': nat :: i' < i2 ==> !TimeMatch(s, i', j'))
        ensures ExtractTime(s) == s[i2..j2]
      {
        LeftmostMatchIsUnique(s, i, j, i2, j2);
      }
  }

  /** Two leftmost matches are the same match: the start is the same, and the scanner allows one
      end per start. */
  lemma LeftmostMatchIsUnique(s: string, i: nat, j: nat, i2: nat, j2: nat)
    requires i <= |s| && TimeMatch(s, i, j) && NoMatchFrom(s, 0, i)
    requires TimeMatch(s, i2, j2) && forall i': nat, j': nat :: i' < i2 ==> !TimeMatch(s, i', j')
    ensures i2 == i && j2 == j
  {
    assert !(i2 < i);
    assert !(i < i2);
    MatchAtIsTimeMatch(s, i, j);
    MatchAtIsTimeMatch(s, i, j2);
  }

  /** A digit right after a letter or digit (the "4" of "rav4") never starts a time. */
  lemma NoTimeInsideWord(s: string, i: nat, j: nat)
    requires 0 < i < |s| && IsWordChar(s[i - 1])
    ensures !TimeMatch(s, i, j)
  {
  }
}
