/**
 Strings as the assistant uses them: lower-casing, the substring test written
 `pat in text`, and `sep.join(parts)`.
 */
module Text {

  /** Lower-case one character. Only the ASCII letters A-Z are mapped. */
  function LowerChar(c: char): char
  {
    if 'A' <= c <= 'Z' then (c as int + 32) as char else c
  }

  /** `s.lower()`, character by character. */
  function Lower(s: string): (r: string)
    ensures |r| == |s|
    ensures forall i :: 0 <= i < |s| ==> r[i] == LowerChar(s[i])
  {
    if s == [] then [] else [LowerChar(s[0])] + Lower(s[1..])
  }

  /** Lower-casing leaves no upper-case ASCII letter behind, so doing it twice changes nothing. */
  lemma LowerIsIdempotent(s: string)
    ensures forall i :: 0 <= i < |s| ==> !('A' <= Lower(s)[i] <= 'Z')
    ensures Lower(Lower(s)) == Lower(s)
  {
  }

  /** The comparison `a.lower() == b.lower()` that every catalog lookup makes. */
  predicate SameIgnoringCase(a: string, b: string)
  {
    Lower(a) == Lower(b)
  }

  /** A string that lower-cases `s` character by character is `Lower(s)`. */
  lemma LowerIs(s: string, u: string)
    requires |u| == |s| && forall i :: 0 <= i < |s| ==> u[i] == LowerChar(s[i])
    ensures Lower(s) == u
  {
  }

  /** `pat` occurs in `text` starting at position `i`. */
  predicate OccursAt(text: string, pat: string, i: nat)
  {
    i + |pat| <= |text| && text[i..i + |pat|] == pat
  }

  /** `pat in text`: `pat` occurs at some position of `text`; the empty string is in every text. */
  predicate Contains(text: string, pat: string)
  {
    exists i :: 0 <= i <= |text| && OccursAt(text, pat, i)
  }

  /** A string that is spliced into a larger one is contained in it. */
  lemma ContainsSpliced(a: string, b: string, c: string)
    ensures Contains(a + b + c, b)
  {
    var s := a + b + c;
    assert s[|a|..|a| + |b|] == b;
    assert OccursAt(s, b, |a|);
  }

  /** Whatever a string contains, any string spliced around it contains too. */
  lemma ContainsWithin(a: string, b: string, c: string, pat: string)
    requires Contains(b, pat)
    ensures Contains(a + b + c, pat)
  {
    var p: nat :| OccursAt(b, pat, p);
    assert OccursAt(b, pat, p);
    var s := a + b + c;
    assert s[|a| + p..|a| + p + |pat|] == b[p..p + |pat|];
    assert OccursAt(s, pat, |a| + p);
  }

  /** A pattern holding a character the text lacks is not in the text. */
  lemma MissingCharNotContained(text: string, pat: string, k: nat)
    requires k < |pat| && forall i :: 0 <= i < |text| ==> text[i] != pat[k]
    ensures !Contains(text, pat)
  {
    forall i: nat | OccursAt(text, pat, i) ensures i + k < |text| && text[i + k] == pat[k] {
      assert text[i..i + |pat|][k] == pat[k];
    }
  }

  /** A pattern found at a known position is in the text. */
  lemma FoundAt(text: string, pat: string, i: nat)
    requires OccursAt(text, pat, i)
    ensures Contains(text, pat)
  {
  }

  /** `sep.join(parts)`: the parts in order with the separator between neighbours. */
  function Join(parts: seq<string>, sep: string): string
  {
    if |parts| == 0 then ""
    else if |parts| == 1 then parts[0]
    else parts[0] + sep + Join(parts[1..], sep)
  }

  /** Every joined part appears in the joined string. */
  lemma {:induction false} JoinContainsParts(parts: seq<string>, sep: string, k: nat)
    requires k < |parts|
    ensures Contains(Join(parts, sep), parts[k])
  {
    if |parts| == 1 {
      ContainsSpliced("", parts[0], "");
      assert "" + parts[0] + "" == parts[0];
    } else if k == 0 {
      ContainsSpliced("", parts[0], sep + Join(parts[1..], sep));
      assert "" + parts[0] + (sep + Join(parts[1..], sep)) == Join(parts, sep);
    } else {
      JoinContainsParts(parts[1..], sep, k - 1);
      assert parts[1..][k - 1] == parts[k];
      ContainsWithin(parts[0] + sep, Join(parts[1..], sep), "", parts[k]);
      assert parts[0] + sep + Join(parts[1..], sep) + "" == Join(parts, sep);
    }
  }
}
