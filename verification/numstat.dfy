/** `git log --numstat` interpretation (GitUtil.rb:124-225): one line at a
    time, then summed per file or per author. */
module NumStat {
  import Wrappers
  import Text
  import RubyInt
  import opened Stats

  /** A count token, read with Ruby's `to_i`. */
  function Count(tok: string): int {
    RubyInt.ToI(tok)
  }

  /** The locals of the token loop at GitUtil.rb:134-154. */
  datatype Scan = Scan(count: nat, added: int, removed: int, filename: string)

  /** One turn of the token loop: tokens 0, 1 and 2 of each group of four set
      `added`, `removed` and `filename`; the fourth resets `count` to 0. */
  function ScanToken(st: Scan, tok: string): Scan {
    if st.count == 0 then st.(added := Count(tok), count := 1)
    else if st.count == 1 then st.(removed := Count(tok), count := 2)
    else if st.count == 2 then st.(filename := tok, count := 3)
    else st.(count := 0)
  }

  /** The token loop run over `toks` in order. */
  function ScanTokens(toks: seq<string>): Scan {
    if toks == [] then Scan(0, 0, 0, "")
    else ScanToken(ScanTokens(toks[..|toks| - 1]), toks[|toks| - 1])
  }

  /** After `n` tokens the counter is `n % 4`, and the fields it has passed in
      the current group of four hold the tokens of that group. */
  lemma {:induction false} ScanTokensState(toks: seq<string>)
    ensures var st, n := ScanTokens(toks), |toks|;
            && st.count == n % 4
            && (n % 4 >= 1 ==> st.added == Count(toks[n - n % 4]))
            && (n % 4 >= 2 ==> st.removed == Count(toks[n - n % 4 + 1]))
            && (n % 4 == 3 ==> st.filename == toks[n - 1])
  {
    if toks != [] {
      var n := |toks|;
      var prefix := toks[..n - 1];
      ScanTokensState(prefix);
      var st, last := ScanTokens(prefix), toks[n - 1];
      assert ScanTokens(toks) == ScanToken(st, last);
      var c := (n - 1) % 4;
      if c == 0 {
        assert n % 4 == 1;
      } else if c == 1 {
        assert n % 4 == 2;
        assert prefix[n - 2] == toks[n - 2];
      } else if c == 2 {
        assert n % 4 == 3;
        assert prefix[n - 3] == toks[n - 3];
        assert prefix[n - 2] == toks[n - 2];
      } else {
        assert n % 4 == 0;
      }
    }
  }

  /** The whitespace-separated tokens of a line (`strip` then `split(" ")`). */
  function Tokens(line: string): seq<string> {
    Text.Words(Text.Strip(line))
  }

  /** `_parseNumStatOneLine`. */
  function ParseNumStatOneLine(line: string, separator: string): Record {
    if Text.StartsWith(line, separator) then ("", Zero)
    else
      var st := ScanTokens(Tokens(line));
      if st.count == 3 then (st.filename, Stat(st.added, st.removed)) else ("", Zero)
  }

  /** A marker line, and a line whose token count is not 3 modulo 4, give
      `("", 0/0)`; any other line gives its last three tokens as counts and
      file name. Counts are read with `to_i`, so a non-numeric count such as
      the `-` of a binary file reads as 0 instead of rejecting the line. */
  lemma ParseNumStatOneLineSpec(line: string, separator: string)
    ensures var r := ParseNumStatOneLine(line, separator);
            && (Text.StartsWith(line, separator) ==> r == ("", Zero))
            && (!Text.StartsWith(line, separator) ==> (r.0 != "" <==> |Tokens(line)| % 4 == 3))
            && (!Text.StartsWith(line, separator) && |Tokens(line)| % 4 == 3 ==>
                  var toks, n := Tokens(line), |Tokens(line)|;
                  r == (toks[n - 1], Stat(Count(toks[n - 3]), Count(toks[n - 2]))))
            && (r.0 == "" ==> r.1 == Zero)
  {
    if !Text.StartsWith(line, separator) {
      var toks := Tokens(line);
      ScanTokensState(toks);
      if |toks| % 4 == 3 {
        assert Text.IsWord(toks[|toks| - 1]);
      }
    }
  }

  /** The records `parse` accepts from `lines` (those it gives a non-empty
      key), in order. */
  function Records(lines: seq<string>, parse: string -> Record): seq<Record> {
    if lines == [] then []
    else
      var rec := parse(lines[0]);
      (if rec.0 != "" then [rec] else []) + Records(lines[1..], parse)
  }

  lemma {:induction false} RecordsKeys(lines: seq<string>, parse: string -> Record, k: string)
    ensures HasKey(Records(lines, parse), k) <==>
            k != "" && exists i :: 0 <= i < |lines| && parse(lines[i]).0 == k
    decreases |lines|
  {
    if lines != [] {
      var rec := parse(lines[0]);
      var head := if rec.0 != "" then [rec] else [];
      var rest := Records(lines[1..], parse);
      RecordsKeys(lines[1..], parse, k);
      assert Records(lines, parse) == head + rest;
      if HasKey(head + rest, k) {
        var j :| 0 <= j < |head + rest| && (head + rest)[j].0 == k;
        if j >= |head| {
          assert rest[j - |head|].0 == k;
          var i :| 0 <= i < |lines[1..]| && parse(lines[1..][i]).0 == k;
          assert parse(lines[i + 1]).0 == k;
        }
      }
      if k != "" && exists i :: 0 <= i < |lines| && parse(lines[i]).0 == k {
        var i :| 0 <= i < |lines| && parse(lines[i]).0 == k;
        if i == 0 {
          assert (head + rest)[0].0 == k;
        } else {
          assert parse(lines[1..][i - 1]).0 == k;
          var j :| 0 <= j < |rest| && rest[j].0 == k;
          assert (head + rest)[|head| + j].0 == k;
        }
      }
    }
  }

  lemma {:induction false} RecordsAppend(a: seq<string>, b: seq<string>, parse: string -> Record)
    ensures Records(a + b, parse) == Records(a, parse) + Records(b, parse)
    decreases |a|
  {
    if a == [] {
      assert a + b == b;
    } else {
      assert (a + b)[0] == a[0];
      assert (a + b)[1..] == a[1..] + b;
      RecordsAppend(a[1..], b, parse);
    }
  }

  lemma RecordsRemoveAt(b: seq<string>, j: nat, parse: string -> Record)
    requires j < |b|
    ensures multiset(Records(b, parse)) ==
            multiset(Records([b[j]], parse)) + multiset(Records(b[..j] + b[j + 1..], parse))
  {
    var pre, post := b[..j], b[j + 1..];
    assert b == pre + ([b[j]] + post);
    RecordsAppend(pre, [b[j]] + post, parse);
    RecordsAppend([b[j]], post, parse);
    RecordsAppend(pre, post, parse);
    var rp, rj, rq := Records(pre, parse), Records([b[j]], parse), Records(post, parse);
    assert Records(b, parse) == rp + (rj + rq);
    assert Records(pre + post, parse) == rp + rq;
    assert multiset(rp + (rj + rq)) == multiset(rp) + multiset(rj) + multiset(rq);
  }

  /** Removing the same line from two line lists whose remaining records
      agree leaves them agreeing. */
  lemma RecordsMatchAt(a: seq<string>, b: seq<string>, j: nat, parse: string -> Record)
    requires a != [] && j < |b| && b[j] == a[0]
    requires multiset(Records(a[1..], parse)) == multiset(Records(b[..j] + b[j + 1..], parse))
    ensures multiset(Records(a, parse)) == multiset(Records(b, parse))
  {
    RecordsRemoveAt(b, j, parse);
    RecordsRemoveAt(a, 0, parse);
    assert a[..0] + a[1..] == a[1..];
  }

  lemma {:induction false} RecordsPermutation(a: seq<string>, b: seq<string>, parse: string -> Record)
    requires multiset(a) == multiset(b)
    ensures multiset(Records(a, parse)) == multiset(Records(b, parse))
    decreases |a|
  {
    if a == [] {
      assert |b| == |multiset(b)| == 0;
    } else {
      assert a[0] in multiset(b);
      var j :| 0 <= j < |b| && b[j] == a[0];
      MultisetRemoveAt(a, b, j);
      RecordsPermutation(a[1..], b[..j] + b[j + 1..], parse);
      RecordsMatchAt(a, b, j, parse);
    }
  }

  /** `_parseNumStatOneLine` with the separator fixed. */
  function LineParser(separator: string): string -> Record {
    line => ParseNumStatOneLine(line, separator)
  }

  /** The records of `lines` filed under their file names. */
  function FileRecords(lines: seq<string>, separator: string): seq<Record> {
    Records(lines, LineParser(separator))
  }

  /** The loop of `parseNumStatPerFile`, from the map built so far. */
  function PerFileFrom(m: map<string, Stat>, lines: seq<string>, separator: string): map<string, Stat>
    decreases |lines|
  {
    if lines == [] then m
    else
      var (file, stat) := ParseNumStatOneLine(lines[0], separator);
      PerFileFrom(if file != "" then AddStat(m, file, stat) else m, lines[1..], separator)
  }

  /** `parseNumStatPerFile`. */
  function ParseNumStatPerFile(lines: seq<string>, separator: string): map<string, Stat> {
    PerFileFrom(map[], lines, separator)
  }

  lemma {:induction false} PerFileFromIsAccumulate(m: map<string, Stat>, lines: seq<string>, separator: string)
    ensures PerFileFrom(m, lines, separator) == Accumulate(m, FileRecords(lines, separator))
    decreases |lines|
  {
    if lines != [] {
      var rec := ParseNumStatOneLine(lines[0], separator);
      var rest := FileRecords(lines[1..], separator);
      assert FileRecords(lines, separator) == (if rec.0 != "" then [rec] else []) + rest;
      if rec.0 != "" {
        assert ([rec] + rest)[1..] == rest;
        PerFileFromIsAccumulate(AddStat(m, rec.0, rec.1), lines[1..], separator);
      } else {
        assert [] + rest == rest;
        PerFileFromIsAccumulate(m, lines[1..], separator);
      }
    }
  }

  /** The per-file map has an entry for exactly the file names of the
      accepted lines, and each entry is the sum of those lines' counts. */
  lemma PerFileEntries(lines: seq<string>, separator: string)
    ensures var r := ParseNumStatPerFile(lines, separator);
            && (forall k :: k in r <==> k != "" && exists i :: 0 <= i < |lines| && ParseNumStatOneLine(lines[i], separator).0 == k)
            && (forall k :: k in r ==> r[k] == SumFor(FileRecords(lines, separator), k))
  {
    PerFileFromIsAccumulate(map[], lines, separator);
    AccumulateEntries(map[], FileRecords(lines, separator));
    forall k {
      RecordsKeys(lines, LineParser(separator), k);
    }
  }

  /** Reordering the numstat lines does not change the per-file map. */
  lemma PerFileOrderIndependent(a: seq<string>, b: seq<string>, separator: string)
    requires multiset(a) == multiset(b)
    ensures ParseNumStatPerFile(a, separator) == ParseNumStatPerFile(b, separator)
  {
    PerFileFromIsAccumulate(map[], a, separator);
    PerFileFromIsAccumulate(map[], b, separator);
    RecordsPermutation(a, b, LineParser(separator));
    AccumulatePermutation(FileRecords(a, separator), FileRecords(b, separator));
  }

  /** Index `p1` holds the first `:` at or after index `|separator| + 1`, and
      `p2` the next one. */
  ghost predicate FirstTwoColons(line: string, separator: string, p1: nat, p2: nat) {
    var from := |separator| + 1;
    && from <= p1 < p2 < |line|
    && line[p1] == ':' && line[p2] == ':'
    && (forall j :: from <= j < p2 && j != p1 ==> line[j] != ':')
  }

  /** `_parseAuthor`. */
  function ParseAuthor(line: string, separator: string): string {
    match Text.IndexOfChar(line, ':', |separator| + 1)
    case None => ""
    case Some(p1) =>
      match Text.IndexOfChar(line, ':', p1 + 1)
      case None => ""
      case Some(p2) => line[p1 + 1..p2]
  }

  /** The author is the text between the first `:` at or after index
      `|separator| + 1` and the `:` after it, and `""` when either is missing. */
  lemma ParseAuthorSpec(line: string, separator: string)
    ensures var author := ParseAuthor(line, separator);
            && (forall p1: nat, p2: nat :: FirstTwoColons(line, separator, p1, p2) ==> author == line[p1 + 1..p2])
            && ((forall p1: nat, p2: nat :: !FirstTwoColons(line, separator, p1, p2)) ==> author == "")
            && ':' !in author
  {
    forall p1: nat, p2: nat | FirstTwoColons(line, separator, p1, p2)
      ensures ParseAuthor(line, separator) == line[p1 + 1..p2]
    {
      ParseAuthorFound(line, separator, p1, p2);
    }
    ParseAuthorFields(line, separator);
  }

  /** Two colons placed as `FirstTwoColons` says delimit the author. */
  lemma ParseAuthorFound(line: string, separator: string, p1: nat, p2: nat)
    requires FirstTwoColons(line, separator, p1, p2)
    ensures ParseAuthor(line, separator) == line[p1 + 1..p2]
  {
    var r1 := Text.IndexOfChar(line, ':', |separator| + 1);
    assert r1 == Wrappers.Some(p1);
    var r2 := Text.IndexOfChar(line, ':', p1 + 1);
    assert r2 == Wrappers.Some(p2);
  }

  /** When `_parseAuthor` finds both colons they are the first two, and the
      author between them holds no colon. */
  lemma ParseAuthorFields(line: string, separator: string)
    ensures (forall p1: nat, p2: nat :: !FirstTwoColons(line, separator, p1, p2)) ==> ParseAuthor(line, separator) == ""
    ensures ':' !in ParseAuthor(line, separator)
  {
    match Text.IndexOfChar(line, ':', |separator| + 1)
    case None =>
    case Some(p1) =>
      match Text.IndexOfChar(line, ':', p1 + 1)
      case None =>
      case Some(p2) =>
        assert FirstTwoColons(line, separator, p1, p2);
        var author := line[p1 + 1..p2];
        forall k | 0 <= k < |author| ensures author[k] != ':' {
          assert author[k] == line[p1 + 1 + k];
        }
  }

  /** The marker line `getLogNumStat` asks `git log` to print before each
      commit: the separator, then `:`-separated abbreviated hash, author name
      and subject. */
  function MarkerLine(separator: string, hash: string, name: string, subject: string): string {
    separator + ":" + hash + ":" + name + ":" + subject
  }

  /** `_parseAuthor` reads the author name back from such a marker line when
      neither the hash nor the name holds a `:`. */
  lemma MarkerAuthor(separator: string, hash: string, name: string, subject: string)
    requires ':' !in hash && ':' !in name
    ensures Text.StartsWith(MarkerLine(separator, hash, name, subject), separator)
    ensures ParseAuthor(MarkerLine(separator, hash, name, subject), separator) == name
  {
    var line := MarkerLine(separator, hash, name, subject);
    var p1 := |separator| + 1 + |hash|;
    var p2 := p1 + 1 + |name|;
    assert line[..|separator|] == separator;
    assert forall k :: 0 <= k < |hash| ==> line[|separator| + 1 + k] == hash[k];
    assert forall k :: 0 <= k < |name| ==> line[p1 + 1 + k] == name[k];
    assert line[p1] == ':' && line[p2] == ':';
    assert FirstTwoColons(line, separator, p1, p2);
    assert line[p1 + 1..p2] == name;
    ParseAuthorFound(line, separator, p1, p2);
  }

  /** The loop of `parseNumStatPerAuthor`, from the map built so far and the
      author of the latest marker line (`""` before the first). */
  function PerAuthorFrom(m: map<string, Stat>, author: string, lines: seq<string>, separator: string): map<string, Stat>
    decreases |lines|
  {
    if lines == [] then m
    else if Text.StartsWith(lines[0], separator) then
      PerAuthorFrom(m, ParseAuthor(lines[0], separator), lines[1..], separator)
    else
      var (file, stat) := ParseNumStatOneLine(lines[0], separator);
      PerAuthorFrom(if file != "" && author != "" then AddStat(m, author, stat) else m, author, lines[1..], separator)
  }

  /** `parseNumStatPerAuthor`. */
  function ParseNumStatPerAuthor(lines: seq<string>, separator: string): map<string, Stat> {
    PerAuthorFrom(map[], "", lines, separator)
  }

  /** The accepted records of `lines`, each filed under the author of the
      latest marker line before it; records with no author are dropped. */
  function AuthorRecords(author: string, lines: seq<string>, separator: string): seq<Record>
    decreases |lines|
  {
    if lines == [] then []
    else if Text.StartsWith(lines[0], separator) then
      AuthorRecords(ParseAuthor(lines[0], separator), lines[1..], separator)
    else
      var (file, stat) := ParseNumStatOneLine(lines[0], separator);
      (if file != "" && author != "" then [(author, stat)] else []) + AuthorRecords(author, lines[1..], separator)
  }

  lemma {:induction false} PerAuthorFromIsAccumulate(m: map<string, Stat>, author: string, lines: seq<string>, separator: string)
    ensures PerAuthorFrom(m, author, lines, separator) == Accumulate(m, AuthorRecords(author, lines, separator))
    decreases |lines|
  {
    if lines != [] {
      if Text.StartsWith(lines[0], separator) {
        PerAuthorFromIsAccumulate(m, ParseAuthor(lines[0], separator), lines[1..], separator);
      } else {
        var (file, stat) := ParseNumStatOneLine(lines[0], separator);
        var rest := AuthorRecords(author, lines[1..], separator);
        if file != "" && author != "" {
          assert ([(author, stat)] + rest)[1..] == rest;
          PerAuthorFromIsAccumulate(AddStat(m, author, stat), author, lines[1..], separator);
        } else {
          assert [] + rest == rest;
          PerAuthorFromIsAccumulate(m, author, lines[1..], separator);
        }
      }
    }
  }

  /** Every record is filed under the author in effect, never under `""`. */
  lemma {:induction false} AuthorRecordsNamed(author: string, lines: seq<string>, separator: string)
    ensures !HasKey(AuthorRecords(author, lines, separator), "")
    decreases |lines|
  {
    if lines != [] {
      if Text.StartsWith(lines[0], separator) {
        AuthorRecordsNamed(ParseAuthor(lines[0], separator), lines[1..], separator);
      } else {
        var (file, stat) := ParseNumStatOneLine(lines[0], separator);
        var head: seq<Record> := if file != "" && author != "" then [(author, stat)] else [];
        var rest := AuthorRecords(author, lines[1..], separator);
        AuthorRecordsNamed(author, lines[1..], separator);
        assert AuthorRecords(author, lines, separator) == head + rest;
        HasKeyAppend(head, rest, "");
      }
    }
  }

  /** The per-author map has an entry for exactly the authors some accepted
      record is filed under, each the sum of those records' counts; `""` is
      never a key, and before the first marker nothing is counted. */
  lemma PerAuthorEntries(lines: seq<string>, separator: string)
    ensures var r := ParseNumStatPerAuthor(lines, separator);
            && (forall k :: k in r <==> HasKey(AuthorRecords("", lines, separator), k))
            && (forall k :: k in r ==> r[k] == SumFor(AuthorRecords("", lines, separator), k))
            && "" !in r
  {
    PerAuthorFromIsAccumulate(map[], "", lines, separator);
    AccumulateEntries(map[], AuthorRecords("", lines, separator));
    AuthorRecordsNamed("", lines, separator);
  }

  /** While no author is in effect, lines without a marker add nothing. */
  lemma {:induction false} UnattributedPrefix(m: map<string, Stat>, pre: seq<string>, post: seq<string>, separator: string)
    requires forall i :: 0 <= i < |pre| ==> !Text.StartsWith(pre[i], separator)
    ensures PerAuthorFrom(m, "", pre + post, separator) == PerAuthorFrom(m, "", post, separator)
    decreases |pre|
  {
    if pre == [] {
      assert pre + post == post;
    } else {
      assert (pre + post)[0] == pre[0];
      assert (pre + post)[1..] == pre[1..] + post;
      assert !Text.StartsWith(pre[0], separator);
      assert forall i :: 0 <= i < |pre| - 1 ==> pre[1..][i] == pre[i + 1];
      UnattributedPrefix(m, pre[1..], post, separator);
    }
  }

  /** Records before the first marker line are dropped, whatever follows;
      with no marker at all nothing is counted. */
  lemma PerAuthorDropsUnattributed(pre: seq<string>, post: seq<string>, separator: string)
    requires forall i :: 0 <= i < |pre| ==> !Text.StartsWith(pre[i], separator)
    ensures ParseNumStatPerAuthor(pre + post, separator) == ParseNumStatPerAuthor(post, separator)
    ensures ParseNumStatPerAuthor(pre, separator) == map[]
  {
    UnattributedPrefix(map[], pre, post, separator);
    UnattributedPrefix(map[], pre, [], separator);
    assert pre + [] == pre;
  }

  /** A marker line that names no author (fewer than two `:` after the
      separator) drops the records after it up to the next marker, as if no
      marker had been seen. */
  lemma NamelessMarkerDrops(m: map<string, Stat>, author: string, marker: string, pre: seq<string>, post: seq<string>, separator: string)
    requires Text.StartsWith(marker, separator) && ParseAuthor(marker, separator) == ""
    requires forall i :: 0 <= i < |pre| ==> !Text.StartsWith(pre[i], separator)
    ensures PerAuthorFrom(m, author, [marker] + pre + post, separator) == PerAuthorFrom(m, "", post, separator)
  {
    var lines := [marker] + pre + post;
    assert lines[0] == marker;
    assert lines[1..] == pre + post;
    UnattributedPrefix(m, pre, post, separator);
  }

  /** While author `a` is in effect, a block of lines without a marker adds
      the total of its accepted records to `a`'s entry, and nothing when it
      has none. */
  lemma {:induction false} MarkerBlock(m: map<string, Stat>, a: string, pre: seq<string>, post: seq<string>, separator: string)
    requires a != ""
    requires forall i :: 0 <= i < |pre| ==> !Text.StartsWith(pre[i], separator)
    ensures var recs := FileRecords(pre, separator);
            PerAuthorFrom(m, a, pre + post, separator)
              == PerAuthorFrom(if recs == [] then m else AddStat(m, a, Total(recs)), a, post, separator)
    decreases |pre|
  {
    if pre == [] {
      assert pre + post == post;
    } else {
      var rec := ParseNumStatOneLine(pre[0], separator);
      var rest := FileRecords(pre[1..], separator);
      assert (pre + post)[0] == pre[0];
      assert (pre + post)[1..] == pre[1..] + post;
      assert !Text.StartsWith(pre[0], separator);
      assert forall i :: 0 <= i < |pre| - 1 ==> pre[1..][i] == pre[i + 1];
      assert FileRecords(pre, separator) == (if rec.0 != "" then [rec] else []) + rest;
      if rec.0 != "" {
        MarkerBlock(AddStat(m, a, rec.1), a, pre[1..], post, separator);
        assert ([rec] + rest)[1..] == rest;
        if rest == [] {
          PlusZero(rec.1);
        } else {
          AddStatTwice(m, a, rec.1, Total(rest));
        }
      } else {
        assert [] + rest == rest;
        MarkerBlock(m, a, pre[1..], post, separator);
      }
    }
  }

  /** A marker line that names an author files the block after it, up to the
      next marker, under that author, whatever author was in effect before:
      the author's entry grows by the block's per-file total. */
  lemma MarkerNamesAuthor(m: map<string, Stat>, author: string, marker: string, pre: seq<string>, post: seq<string>, separator: string)
    requires Text.StartsWith(marker, separator) && ParseAuthor(marker, separator) != ""
    requires forall i :: 0 <= i < |pre| ==> !Text.StartsWith(pre[i], separator)
    ensures var a, recs := ParseAuthor(marker, separator), FileRecords(pre, separator);
            PerAuthorFrom(m, author, [marker] + pre + post, separator)
              == PerAuthorFrom(if recs == [] then m else AddStat(m, a, Total(recs)), a, post, separator)
  {
    var lines := [marker] + pre + post;
    assert lines[0] == marker;
    assert lines[1..] == pre + post;
    MarkerBlock(m, ParseAuthor(marker, separator), pre, post, separator);
  }

  /** Every record follows a marker line, and every marker names an author. */
  predicate EveryRecordAttributed(lines: seq<string>, separator: string) {
    && (lines != [] ==> Text.StartsWith(lines[0], separator))
    && (forall i :: 0 <= i < |lines| && Text.StartsWith(lines[i], separator) ==> ParseAuthor(lines[i], separator) != "")
  }

  lemma {:induction false} AuthorTotalIsFileTotal(author: string, lines: seq<string>, separator: string)
    requires lines != [] && !Text.StartsWith(lines[0], separator) ==> author != ""
    requires forall i :: 0 <= i < |lines| && Text.StartsWith(lines[i], separator) ==> ParseAuthor(lines[i], separator) != ""
    ensures Total(AuthorRecords(author, lines, separator)) == Total(FileRecords(lines, separator))
    decreases |lines|
  {
    if lines != [] {
      var rec := ParseNumStatOneLine(lines[0], separator);
      var fileRest := FileRecords(lines[1..], separator);
      assert FileRecords(lines, separator) == (if rec.0 != "" then [rec] else []) + fileRest;
      assert forall i :: 0 <= i < |lines| - 1 ==> lines[1..][i] == lines[i + 1];
      if Text.StartsWith(lines[0], separator) {
        assert rec.0 == "";
        assert [] + fileRest == fileRest;
        AuthorTotalIsFileTotal(ParseAuthor(lines[0], separator), lines[1..], separator);
      } else {
        var authorRest := AuthorRecords(author, lines[1..], separator);
        AuthorTotalIsFileTotal(author, lines[1..], separator);
        if rec.0 != "" {
          assert ([(author, rec.1)] + authorRest)[1..] == authorRest;
          assert ([rec] + fileRest)[1..] == fileRest;
        } else {
          assert [] + authorRest == authorRest;
          assert [] + fileRest == fileRest;
        }
      }
    }
  }

  /** When every record follows a marker naming an author, the counts summed
      over all authors equal the counts summed over all files. */
  lemma AuthorTotalsEqualFileTotals(lines: seq<string>, separator: string)
    requires EveryRecordAttributed(lines, separator)
    ensures MapTotal(ParseNumStatPerAuthor(lines, separator)) == MapTotal(ParseNumStatPerFile(lines, separator))
  {
    PerAuthorFromIsAccumulate(map[], "", lines, separator);
    PerFileFromIsAccumulate(map[], lines, separator);
    AccumulateTotalFromEmpty(AuthorRecords("", lines, separator));
    AccumulateTotalFromEmpty(FileRecords(lines, separator));
    AuthorTotalIsFileTotal("", lines, separator);
  }
}
