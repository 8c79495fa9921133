/** The pieces of Rust's standard library that the core calls on strings:
    `Option`, `str::contains`, `str::replace`, `str::trim_start_matches`,
    `str::trim`, `str::split_whitespace`, `u8::from_str_radix`,
    `str::parse::<u8>` and `[String]::join`, each written out on `seq<char>`. */
module RustStr {
  import opened Text

  datatype Option<T> = None | Some(value: T)

  predicate StartsWith(s: string, p: string) { |p| <= |s| && s[..|p|] == p }

  /** `p` occurs in `s` at index `i`. */
  predicate OccursAt(s: string, i: nat, p: string) { i + |p| <= |s| && s[i..i + |p|] == p }

  /** `str::contains`: a search for `p` from the left. */
  function Contains(s: string, p: string): bool
  {
    if StartsWith(s, p) then true
    else if |s| == 0 then false
    else Contains(s[1..], p)
  }

  lemma OccursAtTail(s: string, i: nat, p: string)
    requires |s| > 0
    ensures OccursAt(s, i + 1, p) <==> OccursAt(s[1..], i, p)
  {
    if i + 1 + |p| <= |s| {
      assert s[i + 1..i + 1 + |p|] == s[1..][i..i + |p|];
    }
  }

  /** The search finds `p` exactly when `p` occurs somewhere in `s`. */
  lemma {:induction false} ContainsIff(s: string, p: string)
    ensures Contains(s, p) <==> exists i: nat :: OccursAt(s, i, p)
  {
    if StartsWith(s, p) {
      assert OccursAt(s, 0, p);
    } else if |s| == 0 {
      assert forall i: nat :: !OccursAt(s, i, p);
    } else {
      ContainsIff(s[1..], p);
      if exists i: nat :: OccursAt(s[1..], i, p) {
        var i: nat :| OccursAt(s[1..], i, p);
        OccursAtTail(s, i, p);
      }
      if exists i: nat :: OccursAt(s, i, p) {
        var i: nat :| OccursAt(s, i, p);
        assert i != 0;
        OccursAtTail(s, i - 1, p);
      }
    }
  }

  lemma OccursBetween(a: string, p: string, b: string)
    ensures OccursAt(a + p + b, |a|, p)
  {
    assert (a + p + b)[|a|..|a| + |p|] == p;
  }

  /** A string none of whose characters starts `p` does not contain `p`. */
  lemma MissingFirstChar(s: string, p: string)
    requires p != [] && forall i :: 0 <= i < |s| ==> s[i] != p[0]
    ensures !Contains(s, p)
  {
    ContainsIff(s, p);
    forall i: nat
      ensures !OccursAt(s, i, p)
    {
      if i + |p| <= |s| {
        assert s[i..i + |p|][0] == s[i];
      }
    }
  }

  /** `str::replace(pat, rep)` for a non-empty pattern: the non-overlapping
      occurrences of `pat`, found from the left, are each replaced by `rep`. */
  function ReplaceAll(s: string, pat: string, rep: string): string
    requires pat != []
    decreases |s|
  {
    if |s| == 0 then []
    else if StartsWith(s, pat) then rep + ReplaceAll(s[|pat|..], pat, rep)
    else [s[0]] + ReplaceAll(s[1..], pat, rep)
  }

  /** A string without the pattern comes back unchanged. */
  lemma {:induction false} ReplaceAllAbsent(s: string, pat: string, rep: string)
    requires pat != [] && !Contains(s, pat)
    ensures ReplaceAll(s, pat, rep) == s
  {
    if |s| > 0 {
      ReplaceAllAbsent(s[1..], pat, rep);
    }
  }

  /** Where the pattern does not start, the first character is kept. */
  lemma ReplaceAllKeepsFirst(s: string, pat: string, rep: string)
    requires pat != [] && !OccursAt(s, 0, pat) && |s| > 0
    ensures ReplaceAll(s, pat, rep) == [s[0]] + ReplaceAll(s[1..], pat, rep)
  {
    assert !StartsWith(s, pat);
  }

  /** Replacing at the first occurrence: everything before it is kept, the
      occurrence becomes `rep`, and the scan resumes after it. */
  lemma {:induction false} ReplaceAllAtFirst(s: string, i: nat, pat: string, rep: string)
    requires pat != [] && OccursAt(s, i, pat)
    requires forall j :: 0 <= j < i ==> !OccursAt(s, j, pat)
    ensures ReplaceAll(s, pat, rep) == s[..i] + rep + ReplaceAll(s[i + |pat|..], pat, rep)
  {
    if i == 0 {
      assert StartsWith(s, pat);
    } else {
      ReplaceAllKeepsFirst(s, pat, rep);
      OccursAtTail(s, i - 1, pat);
      NoEarlierInTail(s, i, pat);
      ReplaceAllAtFirst(s[1..], i - 1, pat, rep);
      ConsSlices(s, i, i + |pat|);
      var rest := ReplaceAll(s[i + |pat|..], pat, rep);
      assert ReplaceAll(s[1..], pat, rep) == s[1..][..i - 1] + rep + rest;
      ConsConcat(s[0], s[1..][..i - 1], rep, rest);
    }
  }

  lemma ConsConcat(c: char, a: string, b: string, d: string)
    ensures [c] + (a + b + d) == ([c] + a) + b + d
  {
  }

  lemma NoEarlierInTail(s: string, i: nat, pat: string)
    requires |s| > 0 && i >= 1 && forall j :: 0 <= j < i ==> !OccursAt(s, j, pat)
    ensures forall j :: 0 <= j < i - 1 ==> !OccursAt(s[1..], j, pat)
  {
    forall j | 0 <= j < i - 1
      ensures !OccursAt(s[1..], j, pat)
    {
      OccursAtTail(s, j, pat);
    }
  }

  lemma ConsSlices(s: string, i: nat, m: nat)
    requires 1 <= i <= m <= |s|
    ensures s[1..][m - 1..] == s[m..]
    ensures [s[0]] + s[1..][..i - 1] == s[..i]
  {
  }

  predicate NoneOf(s: string, c: char) { forall i :: 0 <= i < |s| ==> s[i] != c }

  lemma NoneOfConcat(a: string, b: string, c: char)
    requires NoneOf(a, c) && NoneOf(b, c)
    ensures NoneOf(a + b, c)
  {
    forall i | 0 <= i < |a + b|
      ensures (a + b)[i] != c
    {
      if i >= |a| {
        assert (a + b)[i] == b[i - |a|];
      }
    }
  }

  lemma RemoveAbsent(s: string, pat: string, rep: string)
    requires |pat| == 1 && NoneOf(s, pat[0])
    ensures ReplaceAll(s, pat, rep) == s
  {
    MissingFirstChar(s, pat);
    ReplaceAllAbsent(s, pat, rep);
  }

  /** Removing a character from the one-character text that holds it, or
      from the empty text, leaves nothing. */
  lemma RemoveSole(t: string, pat: string)
    requires |pat| == 1 && (t == [] || t == pat)
    ensures ReplaceAll(t, pat, "") == []
  {
    if t == pat {
      assert StartsWith(t, pat) && t[1..] == [];
    }
  }

  /** With a one-character pattern no occurrence straddles a boundary, so
      replacing distributes over concatenation. */
  lemma {:induction false} ReplaceCharConcat(a: string, b: string, pat: string, rep: string)
    requires |pat| == 1
    ensures ReplaceAll(a + b, pat, rep) == ReplaceAll(a, pat, rep) + ReplaceAll(b, pat, rep)
  {
    if |a| > 0 {
      assert (a + b)[0] == a[0];
      assert (a + b)[1..] == a[1..] + b;
      assert (a + b)[..1] == a[..1];
      assert StartsWith(a + b, pat) <==> StartsWith(a, pat);
      assert (a + b)[|pat|..] == a[|pat|..] + b;
      ReplaceCharConcat(a[1..], b, pat, rep);
    } else {
      assert a + b == b;
    }
  }

  /** `str::trim_start_matches(pat)`: strips every leading repetition of `pat`. */
  function TrimStartMatches(s: string, pat: string): (r: string)
    requires pat != []
    ensures |r| <= |s| && !StartsWith(r, pat)
    decreases |s|
  {
    if StartsWith(s, pat) then TrimStartMatches(s[|pat|..], pat) else s
  }

  /** `char::is_whitespace`: the Unicode `White_Space` property. */
  predicate IsWhitespace(c: char)
  {
    ('\t' <= c <= '\r') || c == ' ' || c == '\U{85}' || c == '\U{A0}' || c == '\U{1680}'
    || ('\U{2000}' <= c <= '\U{200A}') || c == '\U{2028}' || c == '\U{2029}'
    || c == '\U{202F}' || c == '\U{205F}' || c == '\U{3000}'
  }

  function TrimStart(s: string): (r: string)
    ensures |r| <= |s| && (r == [] || !IsWhitespace(r[0]))
  {
    if |s| > 0 && IsWhitespace(s[0]) then TrimStart(s[1..]) else s
  }

  function TrimEnd(s: string): (r: string)
    ensures |r| <= |s| && (r == [] || !IsWhitespace(r[|r| - 1]))
  {
    if |s| > 0 && IsWhitespace(s[|s| - 1]) then TrimEnd(s[..|s| - 1]) else s
  }

  /** `str::trim`: strips leading and trailing whitespace. */
  function Trim(s: string): string { TrimEnd(TrimStart(s)) }

  /** Length of the leading run of non-whitespace characters. */
  function WordLength(s: string): (n: nat)
    ensures n <= |s| && (n < |s| ==> IsWhitespace(s[n]))
    ensures forall i :: 0 <= i < n ==> !IsWhitespace(s[i])
  {
    if |s| == 0 || IsWhitespace(s[0]) then 0 else 1 + WordLength(s[1..])
  }

  /** `str::split_whitespace`: the maximal runs of non-whitespace, in order. */
  function SplitWhitespace(s: string): seq<string>
    decreases |s|
  {
    if |s| == 0 then []
    else if IsWhitespace(s[0]) then SplitWhitespace(s[1..])
    else
      var n := WordLength(s);
      [s[..n]] + SplitWhitespace(s[n..])
  }

  lemma {:induction false} WordLengthOfWord(w: string, t: string)
    requires forall i :: 0 <= i < |w| ==> !IsWhitespace(w[i])
    requires t == [] || IsWhitespace(t[0])
    ensures WordLength(w + t) == |w|
  {
    if |w| > 0 {
      assert (w + t)[1..] == w[1..] + t;
      WordLengthOfWord(w[1..], t);
    }
  }

  /** A word followed by the end or by whitespace is split off whole. */
  lemma SplitWhitespaceWord(w: string, t: string)
    requires |w| > 0 && forall i :: 0 <= i < |w| ==> !IsWhitespace(w[i])
    requires t == [] || IsWhitespace(t[0])
    ensures SplitWhitespace(w + t) == [w] + SplitWhitespace(t)
  {
    WordLengthOfWord(w, t);
    assert (w + t)[..|w|] == w && (w + t)[|w|..] == t;
  }

  /** Leading whitespace does not produce a word. */
  lemma {:induction false} SplitWhitespaceSkip(sp: string, t: string)
    requires forall i :: 0 <= i < |sp| ==> IsWhitespace(sp[i])
    ensures SplitWhitespace(sp + t) == SplitWhitespace(t)
  {
    if |sp| > 0 {
      assert (sp + t)[0] == sp[0];
      assert (sp + t)[1..] == sp[1..] + t;
      SplitWhitespaceSkip(sp[1..], t);
    } else {
      assert sp + t == t;
    }
  }

  /** `u8::from_str_radix(s, radix)`: an optional `+`, then at least one digit
      of the radix, with a value that fits in a byte. A `-` is no digit, so it
      is refused for an unsigned type. Every prefix of a digit string has a
      value at most that of the whole, so testing the final value against 255
      is the same as Rust's step-by-step overflow check. */
  function FromStrRadixU8(s: string, radix: nat): (r: Option<nat>)
    requires radix == 10 || radix == 16
    ensures r.Some? ==> r.value < 256
  {
    var digits := if |s| > 0 && s[0] == '+' then s[1..] else s;
    var value := if radix == 10 then DecimalValue(digits) else HexValue(digits);
    if |digits| > 0 && AllRadixDigits(digits, radix) && value < 256 then Some(value) else None
  }

  /** `str::parse::<u8>`. */
  function ParseU8(s: string): Option<nat> { FromStrRadixU8(s, 10) }

  /** `[String]::join(sep)`. */
  function Join(parts: seq<string>, sep: string): string
  {
    if |parts| == 0 then []
    else if |parts| == 1 then parts[0]
    else parts[0] + sep + Join(parts[1..], sep)
  }
}
