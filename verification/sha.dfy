/** Commit-id recognition (GitUtil.rb:25-41). Ruby matches the unanchored
    pattern `/[0-9a-f]{5,40}/`: the leftmost position where five lower-case
    hex digits start, extended greedily to at most forty. */
module Sha {
  import opened Wrappers
  import Text

  const MinLen: nat := 5
  const MaxLen: nat := 40

  predicate IsHex(c: char) {
    '0' <= c <= '9' || 'a' <= c <= 'f'
  }

  predicate AllHex(s: string) {
    forall k :: 0 <= k < |s| ==> IsHex(s[k])
  }

  /** Five hex digits start at index `i` of `s`: the pattern can match there. */
  predicate HexWindowAt(s: string, i: int) {
    0 <= i && i + MinLen <= |s| && AllHex(s[i..i + MinLen])
  }

  /** `t`, found at index `i` of `s`, is the match the regular expression
      engine reports: the leftmost place a match starts, taken as long as the
      pattern allows. */
  ghost predicate IsLeftmostMatch(s: string, i: nat, t: string) {
    && i + |t| <= |s| && s[i..i + |t|] == t
    && MinLen <= |t| <= MaxLen && AllHex(t)
    && (forall j :: 0 <= j < i ==> !HexWindowAt(s, j))
    && (|t| == MaxLen || i + |t| == |s| || !IsHex(s[i + |t|]))
  }

  /** Length of the run of hex digits starting at index `i`. */
  function HexRunLen(s: string, i: nat): (n: nat)
    requires i <= |s|
    ensures i + n <= |s|
    ensures AllHex(s[i..i + n])
    ensures i + n == |s| || !IsHex(s[i + n])
    decreases |s| - i
  {
    if i < |s| && IsHex(s[i]) then
      var n := HexRunLen(s, i + 1);
      assert s[i..i + 1 + n] == [s[i]] + s[i + 1..i + 1 + n];
      1 + n
    else 0
  }

  /** The regular-expression scan, trying start positions from `i` on. */
  function MatchFrom(s: string, i: nat): (r: Option<string>)
    requires i <= |s|
    requires forall j :: 0 <= j < i ==> !HexWindowAt(s, j)
    ensures r.Some? ==> exists k :: i <= k && IsLeftmostMatch(s, k, r.value)
    ensures r.None? ==> forall j :: i <= j ==> !HexWindowAt(s, j)
    decreases |s| - i
  {
    if i + MinLen > |s| then None
    else
      var n := HexRunLen(s, i);
      if n >= MinLen then
        var len := if n < MaxLen then n else MaxLen;
        assert s[i..i + MinLen] == s[i..i + n][..MinLen];
        assert s[i..i + len] == s[i..i + n][..len];
        assert IsLeftmostMatch(s, i, s[i..i + len]);
        Some(s[i..i + len])
      else
        assert s[i..i + MinLen][n] == s[i + n];
        MatchFrom(s, i + 1)
  }

  /** `ensureSha1`: the matched commit id, or `nil` when there is none. */
  function EnsureSha1(s: string): (r: Option<string>)
    ensures r.Some? <==> exists i :: HexWindowAt(s, i)
    ensures r.Some? ==> exists i :: IsLeftmostMatch(s, i, r.value)
  {
    LeftmostMatchStartsWindow(s);
    MatchFrom(s, 0)
  }

  lemma LeftmostMatchStartsWindow(s: string)
    ensures forall i: nat, t :: IsLeftmostMatch(s, i, t) ==> HexWindowAt(s, i)
  {
    forall i: nat, t | IsLeftmostMatch(s, i, t)
      ensures HexWindowAt(s, i)
    {
      assert s[i..i + MinLen] == t[..MinLen];
    }
  }

  /** Whether some hex run of length at least five ends at or after index
      `i`, given that the one ending just before `i` has length `run`. */
  function HasLongRun(s: string, i: nat, run: nat): bool
    requires i <= |s|
    decreases |s| - i
  {
    if run >= MinLen then true
    else if i == |s| then false
    else HasLongRun(s, i + 1, if IsHex(s[i]) then run + 1 else 0)
  }

  /** `isCommitId?`: a single left-to-right pass counting consecutive hex digits. */
  function IsCommitId(s: string): bool {
    HasLongRun(s, 0, 0)
  }

  /** `run` is exactly the length of the hex run that ends just before `i`. */
  ghost predicate RunEndsAt(s: string, i: nat, run: nat) {
    && run <= i <= |s|
    && AllHex(s[i - run..i])
    && (run == i || !IsHex(s[i - run - 1]))
  }

  lemma {:induction false} HasLongRunIsWindow(s: string, i: nat, run: nat)
    requires RunEndsAt(s, i, run)
    ensures HasLongRun(s, i, run) <==> exists j :: i - run <= j && HexWindowAt(s, j)
    decreases |s| - i
  {
    if run >= MinLen {
      assert s[i - run..i - run + MinLen] == s[i - run..i][..MinLen];
      assert HexWindowAt(s, i - run);
    } else if i == |s| {
    } else if IsHex(s[i]) {
      assert s[i - run..i + 1] == s[i - run..i] + [s[i]];
      HasLongRunIsWindow(s, i + 1, run + 1);
    } else {
      HasLongRunIsWindow(s, i + 1, 0);
      forall j | i - run <= j <= i
        ensures !HexWindowAt(s, j)
      {
        if j + MinLen <= |s| {
          assert s[j..j + MinLen][i - j] == s[i];
        }
      }
    }
  }

  /** `isCommitId?(s)` holds exactly when `ensureSha1(s)` is not `nil`. */
  lemma IsCommitIdIffEnsureSha1(s: string)
    ensures IsCommitId(s) <==> EnsureSha1(s).Some?
  {
    HasLongRunIsWindow(s, 0, 0);
  }

  /** A commit id `ensureSha1` returns is a hex substring of 5 to 40 characters. */
  lemma EnsureSha1IsHexSubstring(s: string)
    requires EnsureSha1(s).Some?
    ensures var t := EnsureSha1(s).value;
            MinLen <= |t| <= MaxLen && AllHex(t)
            && exists i :: Text.OccursAt(s, t, i)
  {
    var t := EnsureSha1(s).value;
    var i: nat :| IsLeftmostMatch(s, i, t);
    assert Text.OccursAt(s, t, i);
  }

  /** `ensureSha1` returns its own output unchanged. */
  lemma EnsureSha1Idempotent(s: string)
    requires EnsureSha1(s).Some?
    ensures EnsureSha1(EnsureSha1(s).value) == EnsureSha1(s)
  {
    var t := EnsureSha1(s).value;
    var i: nat :| IsLeftmostMatch(s, i, t);
    var n := HexRunLen(t, 0);
    assert n == |t|;
    assert t[0..|t|] == t;
  }

  /** `ensureShas`: `ensureSha1` applied to every element, in order. */
  method EnsureShas(shas: seq<string>) returns (result: seq<Option<string>>)
    ensures |result| == |shas|
    ensures forall i :: 0 <= i < |shas| ==> result[i] == EnsureSha1(shas[i])
  {
    result := [];
    for i := 0 to |shas|
      invariant |result| == i
      invariant forall j :: 0 <= j < i ==> result[j] == EnsureSha1(shas[j])
    {
      result := result + [EnsureSha1(shas[i])];
    }
  }
}
