/** The Ruby string primitives the parsers rely on: `strip`, `split(" ")`,
    `index`, `start_with?` and the first field of `split("|")`. Strings are
    sequences of characters; indices count characters, as Ruby's do. */
module Text {
  import opened Wrappers

  /** The ASCII whitespace Ruby's `strip` and awk-style `split` remove. */
  predicate IsSpace(c: char) {
    c == ' ' || c == '\t' || c == '\n' || c == '\r' || c == '\U{000B}' || c == '\U{000C}'
  }

  predicate AllSpace(s: string) {
    forall k :: 0 <= k < |s| ==> IsSpace(s[k])
  }

  /** Ruby's `start_with?`: `p` is a prefix of `s`. */
  predicate StartsWith(s: string, p: string) {
    p <= s
  }

  /** `lstrip` as an index: the first non-whitespace position at or after
      `i`, or `|s|` when there is none. */
  function SkipSpace(s: string, i: nat): (n: nat)
    requires i <= |s|
    ensures i <= n <= |s|
    ensures forall k :: i <= k < n ==> IsSpace(s[k])
    ensures n == |s| || !IsSpace(s[n])
    decreases |s| - i
  {
    if i == |s| || !IsSpace(s[i]) then i else SkipSpace(s, i + 1)
  }

  /** `rstrip` as an index: the position just after the last non-whitespace
      character before `j`, or `lo` when there is none from `lo` on. */
  function BackSpace(s: string, lo: nat, j: nat): (n: nat)
    requires lo <= j <= |s|
    ensures lo <= n <= j
    ensures forall k :: n <= k < j ==> IsSpace(s[k])
    ensures n == lo || !IsSpace(s[n - 1])
    decreases j
  {
    if j == lo || !IsSpace(s[j - 1]) then j else BackSpace(s, lo, j - 1)
  }

  /** Ruby's `strip`: `s` without its leading and trailing whitespace. The
      result is a slice of `s` with only whitespace on either side of it, and
      it neither starts nor ends with whitespace. */
  function Strip(s: string): (r: string)
    ensures var i := SkipSpace(s, 0);
            && i + |r| <= |s| && s[i..i + |r|] == r
            && (forall k :: 0 <= k < i ==> IsSpace(s[k]))
            && (forall k :: i + |r| <= k < |s| ==> IsSpace(s[k]))
    ensures r == [] || (!IsSpace(r[0]) && !IsSpace(r[|r| - 1]))
  {
    var i := SkipSpace(s, 0);
    s[i..BackSpace(s, i, |s|)]
  }

  /** Length of the run of non-whitespace characters that starts `s`. */
  function WordLen(s: string): (n: nat)
    ensures n <= |s|
    ensures forall k :: 0 <= k < n ==> !IsSpace(s[k])
    ensures n == |s| || IsSpace(s[n])
  {
    if s == [] || IsSpace(s[0]) then 0 else 1 + WordLen(s[1..])
  }

  /** A non-empty run of non-whitespace characters. */
  predicate IsWord(w: string) {
    w != [] && forall k :: 0 <= k < |w| ==> !IsSpace(w[k])
  }

  /** Ruby's `split(" ")` (awk mode): the maximal runs of non-whitespace, in order. */
  function Words(s: string): (r: seq<string>)
    ensures forall i :: 0 <= i < |r| ==> IsWord(r[i])
    ensures r == [] <==> AllSpace(s)
    decreases |s|
  {
    if s == [] then []
    else if IsSpace(s[0]) then
      var r := Words(s[1..]);
      assert AllSpace(s) <==> AllSpace(s[1..]);
      r
    else
      var n := WordLen(s);
      [s[..n]] + Words(s[n..])
  }

  /** `WordLen` is the only length whose prefix is non-whitespace and which
      ends at whitespace or at the end of `s`. */
  lemma {:induction false} WordLenUnique(s: string, n: nat)
    requires n <= |s| && (forall k :: 0 <= k < n ==> !IsSpace(s[k]))
    requires n == |s| || IsSpace(s[n])
    ensures WordLen(s) == n
    decreases n
  {
    if n > 0 {
      assert !IsSpace(s[0]);
      WordLenUnique(s[1..], n - 1);
    }
  }

  /** A single word splits into itself. */
  lemma WordsOfWord(w: string)
    requires IsWord(w)
    ensures Words(w) == [w]
  {
    WordLenUnique(w, |w|);
    assert w[..|w|] == w && w[|w|..] == [];
  }

  /** A whitespace character separates: splitting around it splits each side
      on its own, so the words are the maximal non-whitespace runs, in order. */
  lemma {:induction false} WordsSplit(a: string, c: char, b: string)
    requires IsSpace(c)
    ensures Words(a + [c] + b) == Words(a) + Words(b)
    decreases |a|
  {
    var s := a + [c] + b;
    if a == [] {
      assert s[1..] == b;
    } else if IsSpace(a[0]) {
      assert s[1..] == a[1..] + [c] + b;
      WordsSplit(a[1..], c, b);
    } else {
      var n := WordLen(a);
      LeadingWord(a, c, b);
      WordsSplit(a[n..], c, b);
    }
  }

  /** The first word of `a` is also the first word of `a + [c] + b`. */
  lemma LeadingWord(a: string, c: char, b: string)
    requires IsSpace(c) && a != [] && !IsSpace(a[0])
    ensures var n := WordLen(a);
            Words(a + [c] + b) == [a[..n]] + Words(a[n..] + [c] + b)
  {
    var s := a + [c] + b;
    var n := WordLen(a);
    assert forall k :: 0 <= k < n ==> s[k] == a[k];
    assert n < |a| ==> s[n] == a[n];
    WordLenUnique(s, n);
    assert s[..n] == a[..n];
    assert s[n..] == a[n..] + [c] + b;
  }

  /** `p` occurs in `s` at index `k`. */
  predicate OccursAt(s: string, p: string, k: int) {
    0 <= k && k + |p| <= |s| && s[k..k + |p|] == p
  }

  /** `p` occurs in `s` at `k`, and nowhere between `from` and `k`. */
  ghost predicate FirstAtOrAfter(s: string, p: string, from: nat, k: nat) {
    from <= k && OccursAt(s, p, k) && forall j :: from <= j < k ==> !OccursAt(s, p, j)
  }

  /** Ruby's `s.index(p, from)`: the first index at or after `from` where `p` occurs. */
  function IndexOf(s: string, p: string, from: nat): (r: Option<nat>)
    ensures r.Some? ==> from <= r.value && OccursAt(s, p, r.value)
    ensures r.Some? ==> forall j :: from <= j < r.value ==> !OccursAt(s, p, j)
    ensures r.None? ==> forall j :: from <= j ==> !OccursAt(s, p, j)
    decreases |s| - from
  {
    if from + |p| > |s| then None
    else if s[from..from + |p|] == p then Some(from)
    else IndexOf(s, p, from + 1)
  }

  /** `IndexOf` finds exactly the first occurrence at or after `from`. */
  lemma IndexOfIsFirst(s: string, p: string, from: nat)
    ensures forall k: nat :: FirstAtOrAfter(s, p, from, k) <==> IndexOf(s, p, from) == Some(k)
  {
    forall k: nat | FirstAtOrAfter(s, p, from, k)
      ensures IndexOf(s, p, from) == Some(k)
    {
      var r := IndexOf(s, p, from);
      assert r.Some? && k < r.value ==> !OccursAt(s, p, k);
    }
  }

  /** Ruby's `s.index(c, from)` for a one-character `c`: the first index at or
      after `from` holding `c`. */
  function IndexOfChar(s: string, c: char, from: nat): (r: Option<nat>)
    ensures r.Some? ==> from <= r.value < |s| && s[r.value] == c
    ensures r.Some? ==> forall j :: from <= j < r.value ==> s[j] != c
    ensures r.None? ==> forall j :: from <= j < |s| ==> s[j] != c
    decreases |s| - from
  {
    if from >= |s| then None
    else if s[from] == c then Some(from)
    else IndexOfChar(s, c, from + 1)
  }

  /** Searching for one character agrees with searching for the
      one-character string. */
  lemma {:induction false} IndexOfCharAgrees(s: string, c: char, from: nat)
    ensures IndexOfChar(s, c, from) == IndexOf(s, [c], from)
    decreases |s| - from
  {
    if from < |s| {
      assert s[from..from + 1] == [s[from]];
      if s[from] != c {
        IndexOfCharAgrees(s, c, from + 1);
      }
    }
  }

  /** The text before the first `|` of `s` (all of `s` when it has none). */
  function BarPrefix(s: string): (r: string)
    ensures r <= s
    ensures '|' !in r
    ensures |r| < |s| ==> s[|r|] == '|'
  {
    if s == [] || s[0] == '|' then [] else [s[0]] + BarPrefix(s[1..])
  }

  /** Ruby's `s.split("|").at(0)`. Ruby drops trailing empty fields, so the
      array is empty, and the first field `nil`, exactly when `s` is made only
      of `|` characters; otherwise the first field is the text before the first `|`. */
  function SplitBarHead(s: string): (r: Option<string>)
    ensures r.None? <==> forall k :: 0 <= k < |s| ==> s[k] == '|'
    ensures r.Some? ==> r.value == BarPrefix(s)
  {
    if forall k :: 0 <= k < |s| ==> s[k] == '|' then None else Some(BarPrefix(s))
  }
}
