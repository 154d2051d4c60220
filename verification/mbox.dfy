/** The header parser run over `git format-patch` output: `_parseMbox` reads
    one stripped line into a commit record and says whether to stop, and
    `parsePatchFromBody` folds it over the lines (GitUtil.rb:299-349). */
module Mbox {
  import opened Wrappers
  import Text

  /** The commit record `parsePatchFromBody` fills in; `None` is Ruby's `nil`. */
  datatype Commit = Commit(
    id: Option<string>,
    title: Option<string>,
    date: Option<string>,
    author: Option<string>,
    changedId: Option<string>,
    modifiedFiles: Option<seq<string>>,
    modifiedFilenames: seq<string>)

  /** The record before any line is read: every field `nil`, no filenames. */
  const Initial := Commit(None, None, None, None, None, None, [])

  /** The exception the parser lets escape: a diffstat line made only of `|`
      has no first field, and `nil.strip` raises. */
  datatype MboxError = BarOnlyLine(line: string)

  /** The fields captured from the first line that carries their prefix. */
  datatype Field = Id | Author | Date | ChangeId

  function Prefix(f: Field): string {
    match f
    case Id => "From "
    case Author => "From: "
    case Date => "Date: "
    case ChangeId => "Change-Id: "
  }

  function Get(c: Commit, f: Field): Option<string> {
    match f
    case Id => c.id
    case Author => c.author
    case Date => c.date
    case ChangeId => c.changedId
  }

  function Set(c: Commit, f: Field, v: Option<string>): Commit {
    match f
    case Id => c.(id := v)
    case Author => c.(author := v)
    case Date => c.(date := v)
    case ChangeId => c.(changedId := v)
  }

  /** The value a line with `f`'s prefix gives `f`: the second word of a
      `From ` line (none when the line has a single word), and the text after
      the prefix otherwise. */
  function Capture(f: Field, line: string): Option<string>
    requires Text.StartsWith(line, Prefix(f))
  {
    match f
    case Id =>
      var words := Text.Words(line);
      if |words| > 1 then Some(words[1]) else None
    case _ => Some(line[|Prefix(f)|..])
  }

  /** `f` is still unset and `line` carries its prefix. */
  predicate Claims(c: Commit, f: Field, line: string) {
    Get(c, f).None? && Text.StartsWith(line, Prefix(f))
  }

  /** The header line that carries the subject. */
  const SubjectPrefix := "Subject: "

  predicate ClaimsSubject(c: Commit, line: string) {
    c.title.None? && Text.StartsWith(line, SubjectPrefix)
  }

  /** No header branch takes `line`: it reaches the body/diffstat branch. */
  predicate ReachesBody(c: Commit, line: string) {
    && !Claims(c, Id, line) && !Claims(c, Author, line) && !Claims(c, Date, line)
    && !ClaimsSubject(c, line) && c.title != Some("") && !Claims(c, ChangeId, line)
    && !(line == "---" && c.modifiedFiles.None?)
  }

  /** A line made only of `|` characters (and at least one). */
  predicate BarOnly(line: string) {
    line != [] && forall k :: 0 <= k < |line| ==> line[k] == '|'
  }

  /** The filename a diffstat line names: the trimmed text before its first `|`. */
  function FilenameOf(line: string): string {
    Text.Strip(Text.BarPrefix(line))
  }

  /** `modifiedFilenames` is empty while `modifiedFiles` is `nil`; afterwards
      the two have equal length and each filename is the one its diffstat
      line names. */
  predicate FilesConsistent(c: Commit) {
    match c.modifiedFiles
    case None => c.modifiedFilenames == []
    case Some(files) =>
      && |files| == |c.modifiedFilenames|
      && forall i :: 0 <= i < |files| ==> '|' in files[i] && c.modifiedFilenames[i] == FilenameOf(files[i])
  }

  /** The first `]` of `after` stands at `q`. */
  predicate FirstBracket(after: string, q: int) {
    0 <= q < |after| && after[q] == ']' && forall k :: 0 <= k < q ==> after[k] != ']'
  }

  /** The trimmed text after the first `]` of `after`, or all of `after`
      trimmed when it has no `]`. */
  function AfterBracket(after: string): (t: string)
    ensures (forall k :: 0 <= k < |after| ==> after[k] != ']') ==> t == Text.Strip(after)
    ensures forall q :: FirstBracket(after, q) ==> t == Text.Strip(after[q + 1..])
  {
    match Text.IndexOfChar(after, ']', 0)
    case None => Text.Strip(after)
    case Some(q) =>
      assert FirstBracket(after, q);
      Text.Strip(after[q + 1..])
  }

  /** The tag `git format-patch` puts before a subject. */
  const PatchTag := "[PATCH"

  /** The title of a `Subject: ` line, from the text after the prefix. Without
      `[PATCH` it is that text as it stands; otherwise it is taken from the
      text after the first `[PATCH`, and the text before is dropped. */
  function SubjectTitle(rest: string): (t: string)
    ensures (forall j :: !Text.OccursAt(rest, PatchTag, j)) ==> t == rest
    ensures forall p: nat :: Text.FirstAtOrAfter(rest, PatchTag, 0, p) ==> t == AfterBracket(rest[p + |PatchTag|..])
  {
    Text.IndexOfIsFirst(rest, PatchTag, 0);
    match Text.IndexOf(rest, PatchTag, 0)
    case None => rest
    case Some(p) => AfterBracket(rest[p + |PatchTag|..])
  }

  /** Characters of a prefix. */
  lemma PrefixChars(line: string, p: string)
    requires Text.StartsWith(line, p)
    ensures forall k :: 0 <= k < |p| ==> line[k] == p[k]
  {
    forall k | 0 <= k < |p|
      ensures line[k] == p[k]
    {
      assert line[..|p|][k] == line[k];
    }
  }

  /** A line carries at most one of the header prefixes, and none of them
      together with `Subject: `. */
  lemma PrefixesDisjoint(line: string)
    ensures forall f, g :: Text.StartsWith(line, Prefix(f)) && Text.StartsWith(line, Prefix(g)) ==> f == g
    ensures forall f :: Text.StartsWith(line, Prefix(f)) ==> !Text.StartsWith(line, SubjectPrefix)
  {
    forall f, g | Text.StartsWith(line, Prefix(f)) && Text.StartsWith(line, Prefix(g))
      ensures f == g
    {
      PrefixChars(line, Prefix(f));
      PrefixChars(line, Prefix(g));
      assert Prefix(f)[0] == line[0] == Prefix(g)[0];
      assert Prefix(f)[4] == line[4] == Prefix(g)[4];
    }
    forall f | Text.StartsWith(line, Prefix(f))
      ensures !Text.StartsWith(line, SubjectPrefix)
    {
      PrefixChars(line, Prefix(f));
      assert Prefix(f)[0] == line[0];
      assert SubjectPrefix[0] != line[0];
    }
  }

  /** The header branches of `_parseMbox`, in their order of priority: the
      record after `line`, or `None` when `line` falls through to the body
      branch. */
  function Header(c: Commit, line: string): (r: Option<Commit>)
    ensures r.None? <==> ReachesBody(c, line)
  {
    if Claims(c, Id, line) then Some(Set(c, Id, Capture(Id, line)))
    else if Claims(c, Author, line) then Some(Set(c, Author, Capture(Author, line)))
    else if Claims(c, Date, line) then Some(Set(c, Date, Capture(Date, line)))
    else if ClaimsSubject(c, line) then Some(c.(title := Some(SubjectTitle(line[|SubjectPrefix|..]))))
    else if c.title == Some("") then Some(c.(title := Some(line)))
    else if Claims(c, ChangeId, line) then Some(Set(c, ChangeId, Capture(ChangeId, line)))
    else if line == "---" && c.modifiedFiles.None? then Some(c.(modifiedFiles := Some([]), modifiedFilenames := []))
    else None
  }

  /** The body branch of `_parseMbox`: before `---` it only watches for the
      first `diff --git`; afterwards each line holding a `|` adds itself and
      its filename to the diffstat lists, and any other line stops parsing.
      It touches nothing but the two lists, and keeps them consistent. */
  function Body(c: Commit, line: string): (r: Result<(Commit, bool), MboxError>)
    ensures r.Failure? <==> c.modifiedFiles.Some? && BarOnly(line)
    ensures r.Success? ==> (r.value.1 <==> Text.StartsWith(line, "diff --git") || (c.modifiedFiles.Some? && '|' !in line))
    ensures r.Success? && (c.modifiedFiles.None? || '|' !in line) ==> r.value.0 == c
    ensures r.Success? && c.modifiedFiles.Some? && '|' in line ==>
              r.value.0 == c.(modifiedFiles := Some(c.modifiedFiles.value + [line]),
                              modifiedFilenames := c.modifiedFilenames + [FilenameOf(line)])
    ensures r.Success? && FilesConsistent(c) ==> FilesConsistent(r.value.0)
  {
    var diff := Text.StartsWith(line, "diff --git");
    if c.modifiedFiles.None? then Success((c, diff))
    else if '|' !in line then
      assert !BarOnly(line) by {
        if line != [] { assert line[0] != '|'; }
      }
      Success((c, true))
    else
      match Text.SplitBarHead(line)
      case None => Failure(BarOnlyLine(line))
      case Some(head) =>
        var files := c.modifiedFiles.value + [line];
        var names := c.modifiedFilenames + [Text.Strip(head)];
        AppendKeepsConsistent(c, line);
        Success((c.(modifiedFiles := Some(files), modifiedFilenames := names), diff))
  }

  /** Appending a line that holds a `|`, with its filename, keeps the
      diffstat lists consistent. */
  lemma AppendKeepsConsistent(c: Commit, line: string)
    requires c.modifiedFiles.Some? && '|' in line
    ensures FilesConsistent(c) ==>
              FilesConsistent(c.(modifiedFiles := Some(c.modifiedFiles.value + [line]),
                                 modifiedFilenames := c.modifiedFilenames + [FilenameOf(line)]))
  {
    var names := c.modifiedFilenames + [FilenameOf(line)];
    assert forall i :: 0 <= i < |c.modifiedFilenames| ==> names[i] == c.modifiedFilenames[i];
  }

  /** `_parseMbox`: the record after `line`, and whether parsing stops there. */
  function Step(c: Commit, line: string): Result<(Commit, bool), MboxError> {
    match Header(c, line)
    case Some(next) => Success((next, false))
    case None => Body(c, line)
  }

  /** An unset header field takes its value from the first line with its
      prefix (a `Change-Id: ` line only when the title is not pending); a set
      field never changes. */
  lemma StepFields(c: Commit, line: string)
    ensures var r := Step(c, line);
            r.Success? ==> forall f :: Get(r.value.0, f) != Get(c, f) ==> Claims(c, f, line) && Get(r.value.0, f) == Capture(f, line)
    ensures var r := Step(c, line);
            forall f :: Claims(c, f, line) && (f == ChangeId ==> c.title != Some("")) ==>
              r.Success? && Get(r.value.0, f) == Capture(f, line) && !r.value.1
  {
    PrefixesDisjoint(line);
    var r := Step(c, line);
    forall f | r.Success? && Get(r.value.0, f) != Get(c, f)
      ensures Claims(c, f, line) && Get(r.value.0, f) == Capture(f, line)
    {
      ClaimedField(c, line, f);
    }
    forall f | Claims(c, f, line) && (f == ChangeId ==> c.title != Some(""))
      ensures r.Success? && Get(r.value.0, f) == Capture(f, line) && !r.value.1
    {
      ClaimedField(c, line, f);
    }
  }

  /** The header branch a field's prefix selects. */
  lemma ClaimedField(c: Commit, line: string, f: Field)
    requires forall f, g :: Text.StartsWith(line, Prefix(f)) && Text.StartsWith(line, Prefix(g)) ==> f == g
    requires forall f :: Text.StartsWith(line, Prefix(f)) ==> !Text.StartsWith(line, SubjectPrefix)
    ensures var r := Step(c, line);
            r.Success? && Get(r.value.0, f) != Get(c, f) ==> Claims(c, f, line) && Get(r.value.0, f) == Capture(f, line)
    ensures var r := Step(c, line);
            Claims(c, f, line) && (f == ChangeId ==> c.title != Some("")) ==>
              r.Success? && Get(r.value.0, f) == Capture(f, line) && !r.value.1
  {
    match f
    case Id =>
    case Author =>
    case Date =>
    case ChangeId =>
  }

  /** The title comes from a `Subject: ` line while unset, and from the next
      line, whatever it holds short of a header field, while it is `""`. */
  lemma StepTitle(c: Commit, line: string)
    ensures var r := Step(c, line);
            r.Success? && r.value.0.title != c.title ==>
              || (ClaimsSubject(c, line) && r.value.0.title == Some(SubjectTitle(line[|SubjectPrefix|..])))
              || (c.title == Some("") && r.value.0.title == Some(line))
    ensures ClaimsSubject(c, line) ==> Step(c, line) == Success((c.(title := Some(SubjectTitle(line[|SubjectPrefix|..]))), false))
    ensures c.title == Some("") && !Claims(c, Id, line) && !Claims(c, Author, line) && !Claims(c, Date, line) ==>
              Step(c, line) == Success((c.(title := Some(line)), false))
  {
    PrefixesDisjoint(line);
  }


  /** The diffstat lists start, empty, at `---`, afterwards only grow, and
      stay consistent with each other. */
  lemma StepFiles(c: Commit, line: string)
    ensures var r := Step(c, line);
            r.Success? && c.modifiedFiles.None? ==>
              || (r.value.0.modifiedFiles.None? && r.value.0.modifiedFilenames == c.modifiedFilenames)
              || (line == "---" && r.value.0.modifiedFiles == Some([]) && r.value.0.modifiedFilenames == [])
    ensures var r := Step(c, line);
            r.Success? && c.modifiedFiles.Some? ==>
              && r.value.0.modifiedFiles.Some?
              && c.modifiedFiles.value <= r.value.0.modifiedFiles.value
              && c.modifiedFilenames <= r.value.0.modifiedFilenames
    ensures var r := Step(c, line);
            r.Success? && FilesConsistent(c) ==> FilesConsistent(r.value.0)
  {
  }

  /** Parsing stops at a line that reaches the body branch and starts a diff
      or, once the diffstat has begun, holds no `|`; such a line without `|`
      changes nothing. The only failure is a `|`-only line in the diffstat,
      and a second `---` stops parsing instead of resetting the lists. */
  lemma StepStop(c: Commit, line: string)
    ensures var r := Step(c, line);
            r.Success? ==>
              (r.value.1 <==> ReachesBody(c, line) && (Text.StartsWith(line, "diff --git") || (c.modifiedFiles.Some? && '|' !in line)))
    ensures var r := Step(c, line);
            r.Success? && r.value.1 && '|' !in line ==> r.value.0 == c
    ensures Step(c, line).Failure? <==> ReachesBody(c, line) && c.modifiedFiles.Some? && BarOnly(line)
    ensures c.modifiedFiles.Some? && c.title != Some("") ==> Step(c, "---") == Success((c, true))
  {
  }

  /** A `---` line that reaches its branch starts both diffstat lists, empty,
      and parsing goes on. */
  lemma StepSeparator(c: Commit)
    requires c.modifiedFiles.None? && c.title != Some("")
    ensures Step(c, "---") == Success((c.(modifiedFiles := Some([]), modifiedFilenames := []), false))
  {
  }

  /** A line that claims a header field sets that field and nothing else, and
      parsing goes on. */
  lemma StepClaimedField(c: Commit, line: string, f: Field)
    requires Claims(c, f, line) && (f == ChangeId ==> c.title != Some(""))
    ensures Step(c, line) == Success((Set(c, f, Capture(f, line)), false))
  {
    PrefixesDisjoint(line);
    match f
    case Id =>
    case Author =>
    case Date =>
    case ChangeId =>
  }

  /** The loop of `parsePatchFromBody` from record `c`: each line is stripped
      and stepped until a step says stop. Yields the record and whether a stop
      line was met. */
  function Run(c: Commit, lines: seq<string>): Result<(Commit, bool), MboxError>
    decreases |lines|
  {
    if lines == [] then Success((c, false))
    else
      match Step(c, Text.Strip(lines[0]))
      case Failure(e) => Failure(e)
      case Success((next, stop)) => if stop then Success((next, true)) else Run(next, lines[1..])
  }

  /** `parsePatchFromBody`: the record read from the lines of a patch. */
  function ParsePatchFromBody(body: seq<string>): (r: Result<Commit, MboxError>)
    ensures body == [] ==> r == Success(Initial)
    ensures r.Success? ==> FilesConsistent(r.value)
  {
    RunKeepsFiles(Initial, body);
    var r := Run(Initial, body);
    if r.Failure? then Failure(r.error) else Success(r.value.0)
  }

  /** Lines after a stop line, or after a failure, change nothing; otherwise
      the rest of the lines carry on from the record reached. */
  lemma {:induction false} RunAppend(c: Commit, xs: seq<string>, ys: seq<string>)
    ensures var r := Run(c, xs);
            Run(c, xs + ys) == if r.Failure? || r.value.1 then r else Run(r.value.0, ys)
    decreases |xs|
  {
    if xs == [] {
      assert xs + ys == ys;
    } else {
      assert (xs + ys)[0] == xs[0];
      assert (xs + ys)[1..] == xs[1..] + ys;
      var s := Step(c, Text.Strip(xs[0]));
      if s.Success? && !s.value.1 {
        RunAppend(s.value.0, xs[1..], ys);
      }
    }
  }

  /** After lines that neither stop nor fail, the next line is stepped from
      the record they reached: when that step stops or fails its result is
      the result of the whole run, whatever lines follow; otherwise the run
      goes on from the record it yields. */
  lemma RunStopsAt(c: Commit, xs: seq<string>, x: string, ys: seq<string>)
    requires Run(c, xs).Success? && !Run(c, xs).value.1
    ensures var s := Step(Run(c, xs).value.0, Text.Strip(x));
            Run(c, xs + [x] + ys) == if s.Failure? || s.value.1 then s else Run(s.value.0, ys)
  {
    RunAppend(c, xs, [x] + ys);
    assert xs + [x] + ys == xs + ([x] + ys);
    assert ([x] + ys)[0] == x && ([x] + ys)[1..] == ys;
  }

  /** Over any run of lines, a set header field keeps its value. */
  lemma {:induction false} RunKeepsFields(c: Commit, lines: seq<string>, f: Field)
    requires Get(c, f).Some?
    ensures Run(c, lines).Success? ==> Get(Run(c, lines).value.0, f) == Get(c, f)
    decreases |lines|
  {
    if lines != [] {
      StepFields(c, Text.Strip(lines[0]));
      var s := Step(c, Text.Strip(lines[0]));
      if s.Success? && !s.value.1 {
        RunKeepsFields(s.value.0, lines[1..], f);
      }
    }
  }

  /** Over any run of lines, a non-empty title stays. */
  lemma {:induction false} RunKeepsTitle(c: Commit, lines: seq<string>)
    requires c.title.Some? && c.title != Some("")
    ensures Run(c, lines).Success? ==> Run(c, lines).value.0.title == c.title
    decreases |lines|
  {
    if lines != [] {
      StepTitle(c, Text.Strip(lines[0]));
      var s := Step(c, Text.Strip(lines[0]));
      if s.Success? && !s.value.1 {
        RunKeepsTitle(s.value.0, lines[1..]);
      }
    }
  }

  /** Over any run of lines, the diffstat lists stay consistent, and once
      started they only grow. */
  lemma {:induction false} RunKeepsFiles(c: Commit, lines: seq<string>)
    requires FilesConsistent(c)
    ensures var r := Run(c, lines);
            r.Success? ==>
              && FilesConsistent(r.value.0)
              && (c.modifiedFiles.Some? ==> r.value.0.modifiedFiles.Some? && c.modifiedFiles.value <= r.value.0.modifiedFiles.value)
    decreases |lines|
  {
    if lines != [] {
      StepFiles(c, Text.Strip(lines[0]));
      var s := Step(c, Text.Strip(lines[0]));
      if s.Success? && !s.value.1 {
        RunKeepsFiles(s.value.0, lines[1..]);
      }
    }
  }

  /** A field no line claims stays unset. */
  lemma {:induction false} RunNoMatch(c: Commit, lines: seq<string>, f: Field)
    requires Get(c, f).None?
    requires forall i :: 0 <= i < |lines| ==> !Text.StartsWith(Text.Strip(lines[i]), Prefix(f))
    ensures Run(c, lines).Success? ==> Get(Run(c, lines).value.0, f).None?
    decreases |lines|
  {
    if lines != [] {
      StepFields(c, Text.Strip(lines[0]));
      var s := Step(c, Text.Strip(lines[0]));
      if s.Success? && !s.value.1 {
        assert forall i :: 0 <= i < |lines| - 1 ==> lines[1..][i] == lines[i + 1];
        RunNoMatch(s.value.0, lines[1..], f);
      }
    }
  }

  /** Without a `---` line the diffstat lists are never started. */
  lemma {:induction false} RunNoSeparator(c: Commit, lines: seq<string>)
    requires c.modifiedFiles.None?
    requires forall i :: 0 <= i < |lines| ==> Text.Strip(lines[i]) != "---"
    ensures var r := Run(c, lines);
            r.Success? ==> r.value.0.modifiedFiles.None? && r.value.0.modifiedFilenames == c.modifiedFilenames
    decreases |lines|
  {
    if lines != [] {
      StepFiles(c, Text.Strip(lines[0]));
      var s := Step(c, Text.Strip(lines[0]));
      if s.Success? && !s.value.1 {
        assert forall i :: 0 <= i < |lines| - 1 ==> lines[1..][i] == lines[i + 1];
        RunNoSeparator(s.value.0, lines[1..]);
      }
    }
  }

  /** Without a `Change-Id: ` line, `changedId` stays `nil`. */
  lemma ParseNoChangeId(body: seq<string>)
    requires forall i :: 0 <= i < |body| ==> !Text.StartsWith(Text.Strip(body[i]), "Change-Id: ")
    ensures ParsePatchFromBody(body).Success? ==> ParsePatchFromBody(body).value.changedId.None?
  {
    RunNoMatch(Initial, body, ChangeId);
  }

  /** Without a `---` line, `modifiedFiles` stays `nil` and there are no filenames. */
  lemma ParseNoSeparator(body: seq<string>)
    requires forall i :: 0 <= i < |body| ==> Text.Strip(body[i]) != "---"
    ensures var r := ParsePatchFromBody(body);
            r.Success? ==> r.value.modifiedFiles.None? && r.value.modifiedFilenames == []
  {
    RunNoSeparator(Initial, body);
  }

  /** A stripped `From ` line always has a second word, so it always sets `id`. */
  lemma FromLineHasId(raw: string)
    requires Text.StartsWith(Text.Strip(raw), "From ")
    ensures Capture(Id, Text.Strip(raw)).Some?
  {
    var s := Text.Strip(raw);
    PrefixChars(s, "From ");
    assert Text.IsSpace(s[4]) && !Text.IsSpace(s[|s| - 1]);
    var n := Text.WordLen(s);
    assert n == 4 by {
      assert forall k :: 0 <= k < 4 ==> !Text.IsSpace(s[k]);
    }
    assert Text.Words(s) == [s[..4]] + Text.Words(s[4..]);
    assert s[4..][|s| - 5] == s[|s| - 1];
  }

  /** A line that claims a field sets it for the rest of the run. */
  lemma ClaimSticks(c: Commit, rest: seq<string>, f: Field)
    requires rest != [] && Claims(c, f, Text.Strip(rest[0])) && Capture(f, Text.Strip(rest[0])).Some?
    requires f == ChangeId ==> c.title != Some("")
    ensures Run(c, rest).Success? ==> Get(Run(c, rest).value.0, f) == Capture(f, Text.Strip(rest[0]))
  {
    StepFields(c, Text.Strip(rest[0]));
    var s := Step(c, Text.Strip(rest[0]));
    RunKeepsFields(s.value.0, rest[1..], f);
  }

  /** `RunAppend` at a split index. */
  lemma RunSplit(c: Commit, lines: seq<string>, i: nat)
    requires i <= |lines|
    ensures var r := Run(c, lines[..i]);
            Run(c, lines) == if r.Failure? || r.value.1 then r else Run(r.value.0, lines[i..])
  {
    assert lines == lines[..i] + lines[i..];
    RunAppend(c, lines[..i], lines[i..]);
  }

  /** The first line carrying a field's prefix sets that field for good,
      provided parsing reaches it (and, for `Change-Id: `, the title is not
      pending at that point, or the line would become the title). */
  lemma FirstMatchWins(c: Commit, lines: seq<string>, i: nat, f: Field)
    requires i < |lines| && Get(c, f).None?
    requires Text.StartsWith(Text.Strip(lines[i]), Prefix(f))
    requires forall j :: 0 <= j < i ==> !Text.StartsWith(Text.Strip(lines[j]), Prefix(f))
    requires Run(c, lines[..i]).Success? && !Run(c, lines[..i]).value.1
    requires f == ChangeId ==> Run(c, lines[..i]).value.0.title != Some("")
    ensures Run(c, lines).Success? ==> Get(Run(c, lines).value.0, f) == Capture(f, Text.Strip(lines[i]))
  {
    RunSplit(c, lines, i);
    assert forall j :: 0 <= j < i ==> lines[..i][j] == lines[j];
    RunNoMatch(c, lines[..i], f);
    if f == Id {
      FromLineHasId(lines[i]);
    }
    assert lines[i..][0] == lines[i];
    ClaimSticks(Run(c, lines[..i]).value.0, lines[i..], f);
  }

  /** A subject that starts with `[PATCH` is read from the text after it. */
  lemma LeadingTag(counter: string, title: string)
    ensures SubjectTitle(PatchTag + counter + "] " + title) == AfterBracket(counter + "] " + title)
  {
    var rest, after := PatchTag + counter + "] " + title, counter + "] " + title;
    assert rest[..|PatchTag|] == PatchTag && rest[|PatchTag|..] == after;
    assert Text.FirstAtOrAfter(rest, PatchTag, 0, 0);
  }

  /** Text after a counter without `]` is read from after the counter's `]`. */
  lemma CounterBracket(counter: string, title: string)
    requires ']' !in counter
    ensures AfterBracket(counter + "] " + title) == Text.Strip([' '] + title)
  {
    var after := counter + "] " + title;
    assert forall k :: 0 <= k < |counter| ==> after[k] == counter[k];
    assert FirstBracket(after, |counter|);
    assert after[|counter| + 1..] == [' '] + title;
  }

  /** Stripping a space put before a trimmed title gives the title back. */
  lemma StripSpaceBefore(title: string)
    requires title == [] || (!Text.IsSpace(title[0]) && !Text.IsSpace(title[|title| - 1]))
    ensures Text.Strip([' '] + title) == title
  {
    var tail := [' '] + title;
    assert Text.SkipSpace(tail, 0) == 1;
    assert Text.BackSpace(tail, 1, |tail|) == |tail|;
    assert tail[1..] == title;
  }

  /** A `[PATCH n/m] ` tag at the start of a subject is dropped, leaving
      the title after it. */
  lemma SubjectDropsTag(counter: string, title: string)
    requires ']' !in counter
    requires title == [] || (!Text.IsSpace(title[0]) && !Text.IsSpace(title[|title| - 1]))
    ensures SubjectTitle(PatchTag + counter + "] " + title) == title
  {
    LeadingTag(counter, title);
    CounterBracket(counter, title);
    StripSpaceBefore(title);
  }
}
