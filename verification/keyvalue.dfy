/** Key/value lookup in `git blame -p` style output (GitUtil.rb:256-273). */
module KeyValue {
  import opened Wrappers
  import Text

  /** `_getValue`: the stripped text after the first occurrence of `key` in
      `line`, or `nil` when `key` does not occur. */
  function GetValue(line: string, key: string): (r: Option<string>)
    ensures r.None? <==> forall p :: !Text.OccursAt(line, key, p)
    ensures r.Some? ==> exists p: nat :: Text.FirstAtOrAfter(line, key, 0, p)
                                         && r.value == Text.Strip(line[p + |key|..])
  {
    match Text.IndexOf(line, key, 0)
    case None => None
    case Some(p) =>
      var v := Text.Strip(line[p + |key|..]);
      assert Text.FirstAtOrAfter(line, key, 0, p);
      Some(v)
  }

  /** `_getValueFromLines`: the value from the first line that holds `key`, or
      `""` when none does. */
  function GetValueFromLines(lines: seq<string>, key: string): (r: string)
    ensures (forall i :: 0 <= i < |lines| ==> GetValue(lines[i], key).None?) ==> r == ""
    ensures forall i :: 0 <= i < |lines| && GetValue(lines[i], key).Some?
                        && (forall j :: 0 <= j < i ==> GetValue(lines[j], key).None?)
                        ==> r == GetValue(lines[i], key).value
  {
    if lines == [] then ""
    else
      var v := GetValue(lines[0], key);
      if v.Some? then v.value
      else
        var rest := lines[1..];
        var r := GetValueFromLines(rest, key);
        assert forall i :: 1 <= i < |lines| ==> rest[i - 1] == lines[i];
        r
  }

  /** Lines after the first one that holds `key` do not change the value found. */
  lemma {:induction false} GetValueFromLinesIgnoresLater(lines: seq<string>, more: seq<string>, key: string)
    requires exists i :: 0 <= i < |lines| && GetValue(lines[i], key).Some?
    ensures GetValueFromLines(lines + more, key) == GetValueFromLines(lines, key)
  {
    if GetValue(lines[0], key).None? {
      assert (lines + more)[1..] == lines[1..] + more;
      var i :| 0 <= i < |lines| && GetValue(lines[i], key).Some?;
      assert lines[1..][i - 1] == lines[i];
      GetValueFromLinesIgnoresLater(lines[1..], more, key);
    }
  }

  /** The lookup `gitBlame` performs on a porcelain header line. */
  lemma GetValueExample()
    ensures GetValue("author hidenorly", "author") == Some("hidenorly")
  {
    var line := "author hidenorly";
    assert Text.OccursAt(line, "author", 0);
    assert Text.IndexOf(line, "author", 0) == Some(0);
    assert line[6..] == " hidenorly";
    var rest := " hidenorly";
    assert Text.SkipSpace(rest, 0) == 1;
    assert Text.BackSpace(rest, 1, |rest|) == |rest|;
    assert Text.Strip(rest) == rest[1..] == "hidenorly";
  }
}
