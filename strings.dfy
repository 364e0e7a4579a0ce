/** Small string primitives that the pipeline relies on: substring search,
    Python's `str.strip`, `str.replace(pat, "")`, `str.endswith` and
    `sep.join(parts)`. Everything works on `seq<T>` so that strings
    (`seq<char>`) and lists share one definition. */
module Strings {

  datatype Option<+T> = None | Some(value: T)

  function Min(a: int, b: int): int { if a <= b then a else b }

  /** `pat` occurs in `s` starting at index `k`. */
  predicate OccursAt<T(==)>(s: seq<T>, pat: seq<T>, k: nat) {
    k + |pat| <= |s| && s[k..k + |pat|] == pat
  }

  /** Leftmost occurrence of `pat` in `s` at or after `from`: the search behind
      Python's `pat in s` and `s.split(pat)`. */
  function IndexOfFrom<T(==)>(s: seq<T>, pat: seq<T>, from: nat): (r: Option<nat>)
    requires from <= |s|
    ensures r.Some? ==> from <= r.value && OccursAt(s, pat, r.value)
    ensures r.Some? ==> forall k: nat :: from <= k < r.value ==> !OccursAt(s, pat, k)
    ensures r.None? ==> forall k: nat :: from <= k ==> !OccursAt(s, pat, k)
    decreases |s| - from
  {
    if OccursAt(s, pat, from) then Some(from)
    else if from == |s| then None
    else IndexOfFrom(s, pat, from + 1)
  }

  /** Python's `pat in s`. */
  predicate Contains<T(==)>(s: seq<T>, pat: seq<T>) {
    IndexOfFrom(s, pat, 0).Some?
  }

  lemma ContainsIff<T>(s: seq<T>, pat: seq<T>)
    ensures Contains(s, pat) <==> exists k: nat :: OccursAt(s, pat, k)
  {
    var r := IndexOfFrom(s, pat, 0);
    if r.Some? {
      assert OccursAt(s, pat, r.value);
    }
  }

  /** A leftmost occurrence is what the search finds. */
  lemma IndexOfLeftmost<T>(s: seq<T>, pat: seq<T>, i: nat)
    requires OccursAt(s, pat, i)
    requires forall k: nat :: k < i ==> !OccursAt(s, pat, k)
    ensures IndexOfFrom(s, pat, 0) == Some(i)
  {
  }

  /** An occurrence at or after `a` is an occurrence in the suffix from `a`. */
  lemma OccursInSuffix<T>(s: seq<T>, pat: seq<T>, a: nat, j: nat)
    requires a <= j && OccursAt(s, pat, j)
    ensures OccursAt(s[a..], pat, j - a)
  {
    assert s[a..][j - a..j - a + |pat|] == s[j..j + |pat|];
  }

  /** An occurrence inside the slice `s[a..b]` is an occurrence in `s`. */
  lemma OccursInSlice<T>(s: seq<T>, pat: seq<T>, a: nat, b: nat, k: nat)
    requires a <= b <= |s| && OccursAt(s[a..b], pat, k)
    ensures OccursAt(s, pat, a + k)
  {
    var n := |pat|;
    assert forall j :: a + k <= j < a + k + n ==> s[j] == s[a..b][j - a];
    assert s[a + k..a + k + n] == s[a..b][k..k + n];
  }

  /** What a suffix contains, the whole sequence contains. */
  lemma ContainsInSuffix<T>(s: seq<T>, pat: seq<T>, d: nat)
    requires d <= |s| && Contains(s[d..], pat)
    ensures Contains(s, pat)
  {
    ContainsIff(s[d..], pat);
    var j: nat :| OccursAt(s[d..], pat, j);
    assert s[d..|s|] == s[d..];
    OccursInSlice(s, pat, d, |s|, j);
    ContainsIff(s, pat);
  }

  /** Python's `any(p in s for p in pats)`. */
  function ContainsAny<T(==)>(s: seq<T>, pats: seq<seq<T>>): (r: bool)
    ensures r <==> exists i :: 0 <= i < |pats| && Contains(s, pats[i])
  {
    if pats == [] then false
    else if Contains(s, pats[0]) then true
    else
      var rest := ContainsAny(s, pats[1..]);
      assert forall i :: 1 <= i < |pats| ==> pats[i] == pats[1..][i - 1];
      rest
  }

  /** A pattern placed between two sequences occurs right after the first. */
  lemma OccursBetween<T>(a: seq<T>, pat: seq<T>, b: seq<T>)
    ensures OccursAt(a + pat + b, pat, |a|) && Contains(a + pat + b, pat)
  {
    var s := a + pat + b;
    assert s[|a|..|a| + |pat|] == pat;
    assert OccursAt(s, pat, |a|);
    ContainsIff(s, pat);
  }

  /** Appending to a text keeps what it contains. */
  lemma ContainsGrow<T>(s: seq<T>, t: seq<T>, pat: seq<T>)
    requires Contains(s, pat)
    ensures Contains(s + t, pat)
  {
    ContainsIff(s, pat);
    ContainsIff(s + t, pat);
    var k: nat :| OccursAt(s, pat, k);
    assert (s + t)[k..k + |pat|] == s[k..k + |pat|];
    assert OccursAt(s + t, pat, k);
  }

  /** `any(p in s for p in pats)` holds exactly when some pattern occurs at some position. */
  lemma ContainsAnyIff<T>(s: seq<T>, pats: seq<seq<T>>)
    ensures ContainsAny(s, pats) <==> exists i: nat, k: nat :: i < |pats| && OccursAt(s, pats[i], k)
  {
    forall i: nat | i < |pats| {
      ContainsIff(s, pats[i]);
    }
  }

  /** Python's `s.endswith(suffix)`. */
  predicate EndsWith<T(==)>(s: seq<T>, suffix: seq<T>) {
    |suffix| <= |s| && s[|s| - |suffix|..] == suffix
  }

  /** An occurrence of a newline-free pattern in `a + [nl] + b` lies wholly in `a` or wholly in `b`. */
  lemma OccursAcross<T>(a: seq<T>, nl: T, b: seq<T>, pat: seq<T>, k: nat)
    requires nl !in pat
    ensures OccursAt(a + [nl] + b, pat, k) ==>
      (k + |pat| <= |a| && OccursAt(a, pat, k)) || (k > |a| && OccursAt(b, pat, k - |a| - 1))
  {
    var s := a + [nl] + b;
    if OccursAt(s, pat, k) {
      assert s[|a|] == nl;
      assert forall i :: k <= i < k + |pat| ==> s[i] == pat[i - k];
      if k + |pat| <= |a| {
        assert s[k..k + |pat|] == a[k..k + |pat|];
      } else {
        assert k > |a|;
        assert s[k..k + |pat|] == b[k - |a| - 1..k - |a| - 1 + |pat|];
      }
    }
  }

  /** Joining two pattern-free sequences with a separator the pattern lacks
      creates no occurrence. */
  lemma NoOccurrenceAcross<T>(a: seq<T>, nl: T, b: seq<T>, pat: seq<T>)
    requires nl !in pat && !Contains(a, pat) && !Contains(b, pat)
    ensures !Contains(a + [nl] + b, pat)
  {
    ContainsIff(a + [nl] + b, pat);
    ContainsIff(a, pat);
    ContainsIff(b, pat);
    forall k: nat
      ensures !OccursAt(a + [nl] + b, pat, k)
    {
      OccursAcross(a, nl, b, pat, k);
    }
  }

  /** The empty sequence contains no non-empty pattern. */
  lemma EmptyContainsNone<T>(pat: seq<T>)
    requires pat != []
    ensures !Contains([], pat)
  {
    ContainsIff([], pat);
  }

  // ---------------------------------------------------------------------------
  // Python's str.strip(): remove leading and trailing whitespace.

  /** The characters for which Python's `str.isspace()` is true. */
  predicate IsSpace(c: char) {
    ('\t' <= c <= '\r') || ('\U{1c}' <= c <= '\U{1f}') || c == ' ' || c == '\U{85}' || c == '\U{a0}'
    || c == '\U{1680}' || ('\U{2000}' <= c <= '\U{200a}') || c == '\U{2028}' || c == '\U{2029}'
    || c == '\U{202f}' || c == '\U{205f}' || c == '\U{3000}'
  }

  predicate AllSpace(s: string) {
    forall i :: 0 <= i < |s| ==> IsSpace(s[i])
  }

  /** How many whitespace characters `s` starts with. */
  function LeadingSpaces(s: string): (n: nat)
    ensures n <= |s| && AllSpace(s[..n])
    ensures n == |s| || !IsSpace(s[n])
  {
    if s != [] && IsSpace(s[0]) then
      var n := LeadingSpaces(s[1..]);
      assert s[..n + 1] == [s[0]] + s[1..][..n];
      n + 1
    else 0
  }

  /** The length of `s` once its trailing whitespace is dropped. */
  function TrailingStart(s: string): (n: nat)
    ensures n <= |s| && AllSpace(s[n..])
    ensures n == 0 || !IsSpace(s[n - 1])
  {
    if s != [] && IsSpace(s[|s| - 1]) then
      var n := TrailingStart(s[..|s| - 1]);
      assert s[n..] == s[..|s| - 1][n..] + [s[|s| - 1]];
      n
    else |s|
  }

  /** Python's `s.lstrip()`. */
  function TrimStart(s: string): string {
    s[LeadingSpaces(s)..]
  }

  /** Python's `s.rstrip()`. */
  function TrimEnd(s: string): string {
    s[..TrailingStart(s)]
  }

  /** Python's `s.strip()`. */
  function Strip(s: string): (r: string)
    ensures |r| <= |s|
    ensures r == [] || (!IsSpace(r[0]) && !IsSpace(r[|r| - 1]))
  {
    var i := LeadingSpaces(s);
    var k := TrailingStart(s[i..]);
    assert k > 0 ==> s[i..][..k][0] == s[i] && s[i..][..k][k - 1] == s[i..][k - 1];
    TrimEnd(TrimStart(s))
  }

  /** `strip()` keeps a slice of the text and drops only whitespace around it:
      the leading run of spaces before it and a run of spaces after it. */
  lemma StripSlice(s: string)
    ensures var i := LeadingSpaces(s); var r := Strip(s);
      i + |r| <= |s| && r == s[i..i + |r|] && AllSpace(s[..i]) && AllSpace(s[i + |r|..])
  {
    var i := LeadingSpaces(s);
    var k := TrailingStart(s[i..]);
    assert s[i..][k..] == s[i + k..];
  }

  lemma {:induction false} LeadingSpacesSkip(ws: string, t: string)
    requires AllSpace(ws)
    ensures LeadingSpaces(ws + t) == |ws| + LeadingSpaces(t)
  {
    if ws != [] {
      assert (ws + t)[0] == ws[0];
      assert (ws + t)[1..] == ws[1..] + t;
      LeadingSpacesSkip(ws[1..], t);
    } else {
      assert ws + t == t;
    }
  }

  lemma {:induction false} TrailingSpacesSkip(t: string, ws: string)
    requires AllSpace(ws)
    ensures TrailingStart(t + ws) == TrailingStart(t)
  {
    if ws != [] {
      assert (t + ws)[|t + ws| - 1] == ws[|ws| - 1];
      assert (t + ws)[..|t + ws| - 1] == t + ws[..|ws| - 1];
      TrailingSpacesSkip(t, ws[..|ws| - 1]);
    } else {
      assert t + ws == t;
    }
  }

  lemma {:induction false} LeadingSpacesAppend(t: string, u: string)
    requires LeadingSpaces(t) < |t|
    ensures LeadingSpaces(t + u) == LeadingSpaces(t)
  {
    assert (t + u)[0] == t[0];
    if IsSpace(t[0]) {
      assert (t + u)[1..] == t[1..] + u;
      LeadingSpacesAppend(t[1..], u);
    }
  }

  lemma TrimStartSpaces(ws: string, t: string)
    requires AllSpace(ws)
    ensures TrimStart(ws + t) == TrimStart(t)
  {
    LeadingSpacesSkip(ws, t);
    assert (ws + t)[|ws| + LeadingSpaces(t)..] == t[LeadingSpaces(t)..];
  }

  lemma TrimEndSpaces(t: string, ws: string)
    requires AllSpace(ws)
    ensures TrimEnd(t + ws) == TrimEnd(t)
  {
    TrailingSpacesSkip(t, ws);
    assert (t + ws)[..TrailingStart(t)] == t[..TrailingStart(t)];
  }

  lemma TrimStartAppend(t: string, u: string)
    ensures TrimStart(t) != [] ==> TrimStart(t + u) == TrimStart(t) + u
    ensures TrimStart(t) == [] ==> TrimStart(t + u) == TrimStart(u)
  {
    var n := LeadingSpaces(t);
    if n < |t| {
      LeadingSpacesAppend(t, u);
      assert (t + u)[n..] == t[n..] + u;
    } else {
      assert t[..n] == t;
      TrimStartSpaces(t, u);
    }
  }

  /** Whitespace around a text does not survive `strip()`. */
  lemma StripPadded(ws: string, t: string, ws2: string)
    requires AllSpace(ws) && AllSpace(ws2)
    ensures Strip(ws + t + ws2) == Strip(t)
  {
    assert ws + t + ws2 == ws + (t + ws2);
    TrimStartSpaces(ws, t + ws2);
    TrimStartAppend(t, ws2);
    if TrimStart(t) != [] {
      TrimEndSpaces(TrimStart(t), ws2);
    } else {
      assert TrimStart(ws2) == [];
    }
  }

  // ---------------------------------------------------------------------------
  // Python's s.replace(pat, ""): delete every leftmost, non-overlapping occurrence.

  function RemoveAll<T(==)>(s: seq<T>, pat: seq<T>): (r: seq<T>)
    requires |pat| > 0
    ensures |r| <= |s|
    ensures !Contains(s, pat) ==> r == s
    ensures Contains(s, pat) ==> |r| <= |s| - |pat|
    decreases |s|
  {
    match IndexOfFrom(s, pat, 0)
    case None => s
    case Some(i) => s[..i] + RemoveAll(s[i + |pat|..], pat)
  }

  /** A text that starts with the pattern and has no other occurrence loses exactly that prefix. */
  lemma RemoveLeading<T>(pat: seq<T>, u: seq<T>)
    requires |pat| > 0 && !Contains(u, pat)
    ensures RemoveAll(pat + u, pat) == u
  {
    var s := pat + u;
    assert OccursAt(s, pat, 0);
    assert IndexOfFrom(s, pat, 0) == Some(0);
    assert s[|pat|..] == u;
  }

  /** When the first occurrence of the pattern comes right after `a`, the
      replacement keeps `a` and carries on after that occurrence. */
  lemma {:induction false} RemoveAllAfter<T>(a: seq<T>, pat: seq<T>, b: seq<T>)
    requires |pat| > 0
    requires forall k: nat :: k < |a| ==> !OccursAt(a + pat + b, pat, k)
    ensures RemoveAll(a + pat + b, pat) == a + RemoveAll(b, pat)
  {
    var s := a + pat + b;
    OccursBetween(a, pat, b);
    IndexOfLeftmost(s, pat, |a|);
    assert s[..|a|] == a;
    assert s[|a| + |pat|..] == b;
  }

  /** Removing a leading pattern and then stripping leaves the padded text stripped. */
  lemma RemoveLeadingStrip(pat: string, ws: string, t: string, ws2: string)
    requires |pat| > 0 && AllSpace(ws) && AllSpace(ws2) && !Contains(ws + t + ws2, pat)
    ensures Strip(RemoveAll(pat + ws + t + ws2, pat)) == Strip(t)
  {
    assert pat + ws + t + ws2 == pat + (ws + t + ws2);
    RemoveLeading(pat, ws + t + ws2);
    StripPadded(ws, t, ws2);
  }

  // ---------------------------------------------------------------------------
  // Python's sep.join(parts).

  function Join<T>(sep: seq<T>, parts: seq<seq<T>>): (r: seq<T>)
    ensures |parts| == 1 ==> r == parts[0]
    ensures parts == [] ==> r == []
  {
    if parts == [] then []
    else if |parts| == 1 then parts[0]
    else Join(sep, parts[..|parts| - 1]) + sep + parts[|parts| - 1]
  }

  lemma JoinTwo<T>(sep: seq<T>, a: seq<T>, b: seq<T>)
    ensures Join(sep, [a, b]) == a + sep + b
  {
    assert [a, b][..1] == [a];
  }
}
