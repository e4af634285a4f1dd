/**
 The string primitives the matcher is built from: lowercasing, stripping
 characters drawn from a set at either end (Python's `str.strip` and
 `str.rstrip(chars)`), and substring containment (Python's `t in s`).
 Strings are `seq<char>`; lowercasing covers the ASCII letters only.
 */
module Text {

  /** The characters Python's `str.isspace()` accepts, which is the set
      `str.strip()` with no argument removes. */
  predicate IsSpace(c: char) {
    || '\t' <= c <= '\r'                 // tab, line feed, vertical tab, form feed, carriage return
    || '\U{001C}' <= c <= ' '             // file, group, record and unit separators; space
    || c == '\U{0085}' || c == '\U{00A0}' || c == '\U{1680}'
    || '\U{2000}' <= c <= '\U{200A}'
    || c == '\U{2028}' || c == '\U{2029}' || c == '\U{202F}' || c == '\U{205F}' || c == '\U{3000}'
  }

  /** The `chars` argument of Python's strip family: omitted (strip
      whitespace) or an explicit set of characters. */
  datatype StripChars = Whitespace | Chars(chars: set<char>)

  predicate Strips(cs: StripChars, c: char) {
    match cs
    case Whitespace => IsSpace(c)
    case Chars(chars) => c in chars
  }

  predicate IsUpper(c: char) {
    'A' <= c <= 'Z'
  }

  /** Lowercases one ASCII letter; every other character is left alone. */
  function LowerChar(c: char): (r: char)
    ensures !IsUpper(r)
    ensures !IsUpper(c) ==> r == c
    ensures IsUpper(c) ==> r != c && r as int - c as int == 'a' as int - 'A' as int
  {
    if IsUpper(c) then (c as int - 'A' as int + 'a' as int) as char else c
  }

  /** Uppercases one ASCII letter; every other character is left alone. */
  function UpperChar(c: char): (r: char)
    ensures LowerChar(r) == LowerChar(c)
  {
    if 'a' <= c <= 'z' then (c as int - 'a' as int + 'A' as int) as char else c
  }

  /** Lowercase a string character by character (Python's `str.lower()`,
      restricted to ASCII letters). */
  function Lower(s: string): (r: string)
    ensures |r| == |s|
  {
    if s == [] then [] else [LowerChar(s[0])] + Lower(s[1..])
  }

  /** Uppercase a string character by character (Python's `str.upper()`,
      restricted to ASCII letters). */
  function Upper(s: string): (r: string)
    ensures |r| == |s|
  {
    if s == [] then [] else [UpperChar(s[0])] + Upper(s[1..])
  }

  /** `Lower` changes each character on its own, in place. */
  lemma {:induction false} LowerAt(s: string)
    ensures forall i :: 0 <= i < |s| ==> Lower(s)[i] == LowerChar(s[i])
  {
    if s != [] {
      LowerAt(s[1..]);
      assert forall i :: 1 <= i < |s| ==> Lower(s)[i] == Lower(s[1..])[i - 1];
    }
  }

  /** `Upper` changes each character on its own, in place. */
  lemma {:induction false} UpperAt(s: string)
    ensures forall i :: 0 <= i < |s| ==> Upper(s)[i] == UpperChar(s[i])
  {
    if s != [] {
      UpperAt(s[1..]);
      assert forall i :: 1 <= i < |s| ==> Upper(s)[i] == Upper(s[1..])[i - 1];
    }
  }

  /** Two strings of the same length whose characters lowercase alike have
      the same lowercase form. */
  lemma LowerPointwise(s: string, t: string)
    requires |s| == |t|
    requires forall i :: 0 <= i < |s| ==> LowerChar(s[i]) == LowerChar(t[i])
    ensures Lower(s) == Lower(t)
  {
    LowerAt(s);
    LowerAt(t);
  }

  /** Lowering is idempotent and erases any earlier change of case. */
  lemma LowerOfCase(s: string)
    ensures Lower(Lower(s)) == Lower(s)
    ensures Lower(Upper(s)) == Lower(s)
  {
    var l, u := Lower(s), Upper(s);
    LowerAt(s);
    UpperAt(s);
    LowerPointwise(l, s);
    LowerPointwise(u, s);
  }

  /** Lowercasing a concatenation lowercases each part. */
  lemma LowerAppend(s: string, t: string)
    ensures Lower(s + t) == Lower(s) + Lower(t)
  {
    LowerAt(s);
    LowerAt(t);
    LowerAt(s + t);
  }

  /** A string without uppercase letters is its own lowercase form. */
  lemma LowerNoUpper(s: string)
    requires forall k :: 0 <= k < |s| ==> !IsUpper(s[k])
    ensures Lower(s) == s
  {
    LowerAt(s);
  }

  /** Lowercasing neither creates nor removes whitespace. */
  lemma LowerKeepsSpace(s: string)
    ensures forall i :: 0 <= i < |s| ==> (IsSpace(Lower(s)[i]) <==> IsSpace(s[i]))
  {
    LowerAt(s);
  }

  /** `t` sits in `s` at offset `i`. */
  predicate OccursAt(s: string, t: string, i: int) {
    0 <= i && i + |t| <= |s| && s[i..i + |t|] == t
  }

  /** `t` is a substring of `s`: the reference meaning of Python's `t in s`. */
  ghost predicate Contains(s: string, t: string) {
    exists i :: OccursAt(s, t, i)
  }

  /** Search `s` for `t` from offset `from` onward. */
  function SearchFrom(t: string, s: string, from: nat): (r: bool)
    requires from <= |s|
    ensures r <==> exists i :: from <= i && OccursAt(s, t, i)
    decreases |s| - from
  {
    if from + |t| > |s| then false
    else if s[from..from + |t|] == t then assert OccursAt(s, t, from); true
    else if from == |s| then false
    else SearchFrom(t, s, from + 1)
  }

  /** Python's `t in s` on strings. */
  function SubstringOf(t: string, s: string): (r: bool)
    ensures r <==> Contains(s, t)
  {
    SearchFrom(t, s, 0)
  }

  /** The empty string occurs in every string, and every string in itself. */
  lemma ContainsEmptyAndSelf(s: string)
    ensures Contains(s, [])
    ensures Contains(s, s)
  {
    assert OccursAt(s, [], 0);
    assert OccursAt(s, s, 0);
  }

  /** A prefix of `s` occurs in `s`. */
  lemma ContainsPrefix(s: string, n: nat)
    requires n <= |s|
    ensures Contains(s, s[..n])
  {
    assert OccursAt(s, s[..n], 0);
  }

  /** How many characters at the start of `s` are in `cs`. */
  function LeadingCount(s: string, cs: StripChars): (n: nat)
    ensures n <= |s|
  {
    if s != [] && Strips(cs, s[0]) then 1 + LeadingCount(s[1..], cs) else 0
  }

  /** How many characters at the end of `s` are in `cs`. */
  function TrailingCount(s: string, cs: StripChars): (n: nat)
    ensures n <= |s|
  {
    if s != [] && Strips(cs, s[|s| - 1]) then 1 + TrailingCount(s[..|s| - 1], cs) else 0
  }

  /** `LeadingCount` counts the longest run of characters in `cs` that starts
      `s`: every character before it is in `cs`, the one after it is not. */
  lemma {:induction false} LeadingCountSpec(s: string, cs: StripChars)
    ensures forall k :: 0 <= k < LeadingCount(s, cs) ==> Strips(cs, s[k])
    ensures LeadingCount(s, cs) < |s| ==> !Strips(cs, s[LeadingCount(s, cs)])
  {
    if s != [] && Strips(cs, s[0]) {
      LeadingCountSpec(s[1..], cs);
      assert forall k :: 1 <= k <= |s[1..]| ==> s[k] == s[1..][k - 1];
    }
  }

  /** `TrailingCount` counts the longest run of characters in `cs` that ends
      `s`: every character in it is in `cs`, the one before it is not. */
  lemma {:induction false} TrailingCountSpec(s: string, cs: StripChars)
    ensures forall k :: |s| - TrailingCount(s, cs) <= k < |s| ==> Strips(cs, s[k])
    ensures TrailingCount(s, cs) < |s| ==> !Strips(cs, s[|s| - TrailingCount(s, cs) - 1])
  {
    if s != [] && Strips(cs, s[|s| - 1]) {
      TrailingCountSpec(s[..|s| - 1], cs);
    }
  }

  /** Python's `s.lstrip(cs)`: drop the longest prefix of characters in `cs`. */
  function StripLeft(s: string, cs: StripChars): string {
    s[LeadingCount(s, cs)..]
  }

  /** Python's `s.rstrip(cs)`: drop the longest suffix of characters in `cs`. */
  function StripRight(s: string, cs: StripChars): string {
    s[..|s| - TrailingCount(s, cs)]
  }

  /** Python's `s.strip(cs)`: strip both ends. */
  function Strip(s: string, cs: StripChars): string {
    StripRight(StripLeft(s, cs), cs)
  }

  /** `r` is `s` with the `i` characters before it and every character after
      it drawn from `cs`. */
  ghost predicate StrippedAt(s: string, cs: StripChars, i: int, r: string) {
    && OccursAt(s, r, i)
    && (forall k :: 0 <= k < i ==> Strips(cs, s[k]))
    && (forall k :: i + |r| <= k < |s| ==> Strips(cs, s[k]))
  }

  /** `rstrip` keeps a prefix of `s`, drops only characters in `cs`, and
      leaves a string that does not end in one. */
  lemma StripRightSpec(s: string, cs: StripChars)
    ensures StrippedAt(s, cs, 0, StripRight(s, cs))
    ensures StripRight(s, cs) == [] || !Strips(cs, StripRight(s, cs)[|StripRight(s, cs)| - 1])
  {
    TrailingCountSpec(s, cs);
  }

  /** The converse: a prefix of `s` followed only by characters in `cs`, and
      not itself ending in one, is what `rstrip` returns. */
  lemma StripRightUnique(s: string, cs: StripChars, t: string)
    requires StrippedAt(s, cs, 0, t)
    requires t == [] || !Strips(cs, t[|t| - 1])
    ensures StripRight(s, cs) == t
  {
    TrailingCountSpec(s, cs);
    assert TrailingCount(s, cs) == |s| - |t|;
    assert s[..|t|] == t;
  }

  /** A string with a character that `s` lacks is not a substring of `s`. */
  lemma MissingCharNotContained(s: string, t: string, c: char)
    requires c in t && c !in s
    ensures !Contains(s, t)
  {

  }

  /** `strip` keeps a slice of `s` surrounded only by characters in `cs`,
      whose first and last characters are not in `cs`; it is empty exactly
      when every character of `s` is in `cs`. */
  lemma StripSpec(s: string, cs: StripChars)
    ensures exists i :: StrippedAt(s, cs, i, Strip(s, cs))
    ensures var r := Strip(s, cs);
      r == [] || (!Strips(cs, r[0]) && !Strips(cs, r[|r| - 1]))
    ensures Strip(s, cs) == [] <==> forall k :: 0 <= k < |s| ==> Strips(cs, s[k])
  {
    var i := LeadingCount(s, cs);
    var left := s[i..];
    LeadingCountSpec(s, cs);
    TrailingCountSpec(left, cs);
    var r := Strip(s, cs);
    assert r == s[i..i + |r|];
    assert StrippedAt(s, cs, i, r);
  }

  /** A stripped string is pinned down by the characterisation above: any
      other string with the same shape is the same string. */
  lemma {:induction false} StripUnique(s: string, cs: StripChars, i: int, t: string)
    requires StrippedAt(s, cs, i, t)
    requires t == [] || (!Strips(cs, t[0]) && !Strips(cs, t[|t| - 1]))
    ensures t == Strip(s, cs)
  {
    StripSpec(s, cs);
    var r := Strip(s, cs);
    var j :| StrippedAt(s, cs, j, r);
    if t == [] {
      forall k | 0 <= k < |s|
        ensures Strips(cs, s[k])
      {
        if k < i {} else {}
      }
    } else if r == [] {
      assert false;
    } else {
      // Both start at the first character outside cs, and end at the last.
      assert s[i] == t[0] && s[j] == r[0];
      assert i == j;
      var ei, ej := i + |t| - 1, j + |r| - 1;
      assert s[ei] == t[|t| - 1] && s[ej] == r[|r| - 1];
      assert ei == ej;
    }
  }

  /** Characters from `cs` appended to `s` are all dropped again by
      `rstrip`, together with whatever `s` itself ends in. */
  lemma StripRightAppend(s: string, p: string, cs: StripChars)
    requires forall k :: 0 <= k < |p| ==> Strips(cs, p[k])
    ensures StripRight(s + p, cs) == StripRight(s, cs)
  {
    StripRightSpec(s, cs);
    var t := StripRight(s, cs);
    assert (s + p)[..|t|] == t;
    assert forall k :: |s| <= k < |s + p| ==> (s + p)[k] == p[k - |s|];
    StripRightUnique(s + p, cs, t);
  }

  /** Appending a string that starts and ends outside `cs` to one that does
      not end in `cs` appends it to the stripped result as well. */
  lemma StripAppend(s: string, p: string, cs: StripChars)
    requires p != [] && !Strips(cs, p[0]) && !Strips(cs, p[|p| - 1])
    requires s == [] || !Strips(cs, s[|s| - 1])
    ensures Strip(s + p, cs) == Strip(s, cs) + p
  {
    StripSpec(s, cs);
    var n := Strip(s, cs);
    var i :| StrippedAt(s, cs, i, n);
    assert i + |n| == |s|;
    assert (s + p)[i..i + |n + p|] == n + p;
    StripUnique(s + p, cs, i, n + p);
  }
}
