/**
 * The string logic of the vendor importer (tools/importer/importer.py) once git
 * itself is abstracted away: Python's `in` on strings and `str.split`, the
 * names the importer derives from the vendor repository, the `git branch`
 * listing, and the cherry-pick cursor read back from `git log -n 1`.
 */
module GitText {

  datatype Option<T> = None | Some(value: T)

  // ---------------------------------------------------------------------------
  // Python `p in s` on strings
  // ---------------------------------------------------------------------------

  predicate IsPrefix(p: string, s: string) {
    |p| <= |s| && s[..|p|] == p
  }

  /** `p in s`: some suffix of `s` starts with `p`. */
  predicate Contains(s: string, p: string)
    decreases |s|
  {
    IsPrefix(p, s) || (s != [] && Contains(s[1..], p))
  }

  /** `p` occurs in `s` at offset `i`. */
  predicate OccursAt(s: string, p: string, i: int) {
    0 <= i <= |s| - |p| && s[i..i + |p|] == p
  }

  /** `Contains` agrees with "p occurs at some offset of s". */
  lemma {:induction false} ContainsIffOccurs(s: string, p: string)
    ensures Contains(s, p) <==> exists i :: OccursAt(s, p, i)
    decreases |s|
  {
    if IsPrefix(p, s) {
      assert OccursAt(s, p, 0);
    } else if s != [] {
      ContainsIffOccurs(s[1..], p);
      if Contains(s[1..], p) {
        var i :| OccursAt(s[1..], p, i);
        assert OccursAt(s, p, i + 1);
      }
      if exists i :: OccursAt(s, p, i) {
        var i :| OccursAt(s, p, i);
        assert i != 0;
        assert OccursAt(s[1..], p, i - 1);
      }
    }
  }

  /** Whatever surrounds an occurrence, the occurrence is still found. */
  lemma {:induction false} ContainsInContext(a: string, x: string, b: string, p: string)
    requires Contains(x, p)
    ensures Contains(a + x + b, p)
    decreases |a|
  {
    if a == [] {
      ContainsSuffixExtended(x, b, p);
      assert a + x + b == x + b;
    } else {
      ContainsInContext(a[1..], x, b, p);
      assert (a + x + b)[1..] == a[1..] + x + b;
    }
  }

  lemma {:induction false} ContainsSuffixExtended(x: string, b: string, p: string)
    requires Contains(x, p)
    ensures Contains(x + b, p)
    decreases |x|
  {
    if IsPrefix(p, x) {
      assert (x + b)[..|p|] == x[..|p|];
    } else {
      ContainsSuffixExtended(x[1..], b, p);
      assert (x + b)[1..] == x[1..] + b;
    }
  }

  /** A character that cannot start `p` can be dropped from the front. */
  lemma ContainsSkipsHead(c: char, s: string, p: string)
    requires p != [] && p[0] != c
    ensures Contains([c] + s, p) <==> Contains(s, p)
  {
    assert ([c] + s)[1..] == s;
  }

  // ---------------------------------------------------------------------------
  // Python `s.split(sep)` and `sep.join(parts)` for a one-character separator
  // ---------------------------------------------------------------------------

  /** `s.split(sep)`: the pieces between separators, empty ones included. */
  function Split(s: string, sep: char): (parts: seq<string>)
    ensures |parts| >= 1
    decreases |s|
  {
    if s == [] then [[]]
    else
      var rest := Split(s[1..], sep);
      if s[0] == sep then [[]] + rest else [[s[0]] + rest[0]] + rest[1..]
  }

  function Join(parts: seq<string>, sep: char): string
    requires |parts| >= 1
    decreases |parts|
  {
    if |parts| == 1 then parts[0] else parts[0] + [sep] + Join(parts[1..], sep)
  }

  predicate Free(s: string, c: char) {
    forall i :: 0 <= i < |s| ==> s[i] != c
  }

  predicate AllFree(parts: seq<string>, c: char) {
    forall k :: 0 <= k < |parts| ==> Free(parts[k], c)
  }

  /** No piece of a split holds the separator. */
  lemma {:induction false} SplitPiecesFree(s: string, sep: char)
    ensures AllFree(Split(s, sep), sep)
    decreases |s|
  {
    if s != [] {
      SplitPiecesFree(s[1..], sep);
    }
  }

  /** Joining the pieces of a split gives the string back. */
  lemma {:induction false} JoinSplit(s: string, sep: char)
    ensures Join(Split(s, sep), sep) == s
    decreases |s|
  {
    if s != [] {
      var rest := Split(s[1..], sep);
      JoinSplit(s[1..], sep);
      if s[0] != sep {
        if |rest| > 1 {
          assert ([[s[0]] + rest[0]] + rest[1..])[1..] == rest[1..];
          assert Join(rest, sep) == rest[0] + [sep] + Join(rest[1..], sep);
        }
      } else {
        assert ([[]] + rest)[1..] == rest;
      }
    }
  }

  lemma {:induction false} SplitFree(s: string, sep: char)
    requires Free(s, sep)
    ensures Split(s, sep) == [s]
    decreases |s|
  {
    if s != [] {
      assert Free(s[1..], sep);
      SplitFree(s[1..], sep);
      assert [s[0]] + s[1..] == s;
    }
  }

  /** A separator cuts the split in two. */
  lemma {:induction false} SplitAppend(a: string, sep: char, b: string)
    ensures Split(a + [sep] + b, sep) == Split(a, sep) + Split(b, sep)
    decreases |a|
  {
    if a == [] {
      assert a + [sep] + b == [sep] + b;
      assert ([sep] + b)[1..] == b;
    } else {
      var s := a + [sep] + b;
      assert s[0] == a[0] && s[1..] == a[1..] + [sep] + b;
      SplitAppend(a[1..], sep, b);
      var head, rest := Split(a[1..], sep), Split(b, sep);
      if a[0] != sep {
        assert (head + rest)[0] == head[0];
        assert (head + rest)[1..] == head[1..] + rest;
      }
    }
  }

  /** Splitting a join of separator-free pieces gives the pieces back. */
  lemma {:induction false} SplitJoin(parts: seq<string>, sep: char)
    requires |parts| >= 1 && AllFree(parts, sep)
    ensures Split(Join(parts, sep), sep) == parts
    decreases |parts|
  {
    if |parts| == 1 {
      SplitFree(parts[0], sep);
    } else {
      SplitJoin(parts[1..], sep);
      SplitAppend(parts[0], sep, Join(parts[1..], sep));
      SplitFree(parts[0], sep);
    }
  }

  // ---------------------------------------------------------------------------
  // Names derived from the vendor repository (importer.py:207-208)
  // ---------------------------------------------------------------------------

  /** `'feature_' + basename(repo) + '_' + sha` */
  function BranchName(repo: string, sha: string): string {
    "feature_" + repo + "_" + sha
  }

  /** `"[" + basename(repo) + "]" + ": Updated to " + sha` */
  function CommitMessage(repo: string, sha: string): string {
    "[" + repo + "]: Updated to " + sha
  }

  /**
   * Distinct revisions get distinct branches: when neither revision id holds
   * an underscore (abbreviated hashes never do), the branch name determines
   * both the repository name and the revision.
   */
  lemma BranchNameInjective(r1: string, s1: string, r2: string, s2: string)
    requires Free(s1, '_') && Free(s2, '_')
    requires BranchName(r1, s1) == BranchName(r2, s2)
    ensures r1 == r2 && s1 == s2
  {
    var x := BranchName(r1, s1);
    assert x == ("feature_" + r1) + ['_'] + s1;
    assert x == ("feature_" + r2) + ['_'] + s2;
    LastSegmentAfter("feature_" + r1, '_', s1);
    LastSegmentAfter("feature_" + r2, '_', s2);
    assert r1 == x[8..8 + |r1|] == r2;
  }

  /** The characters after the last `c` of `x`. */
  function LastSegment(x: string, c: char): string
    decreases |x|
  {
    if x == [] || x[|x| - 1] == c then [] else LastSegment(x[..|x| - 1], c) + [x[|x| - 1]]
  }

  lemma {:induction false} LastSegmentAfter(t: string, c: char, s: string)
    requires Free(s, c)
    ensures LastSegment(t + [c] + s, c) == s
    decreases |s|
  {
    var x := t + [c] + s;
    if s == [] {
      assert x[|x| - 1] == c;
    } else {
      var s' := s[..|s| - 1];
      assert x[..|x| - 1] == t + [c] + s';
      LastSegmentAfter(t, c, s');
      assert s == s' + [s[|s| - 1]];
    }
  }

  /** Without that restriction two different imports share one branch name. */
  lemma BranchNameCollision()
    ensures BranchName("foo_bar", "x") == BranchName("foo", "bar_x")
  {
  }

  // ---------------------------------------------------------------------------
  // The `git branch` listing and the existence test over it (importer.py:114-127)
  // ---------------------------------------------------------------------------

  /** One line of `git branch`: the checked-out branch is starred. */
  function ListingLine(b: string, current: string): string {
    (if b == current then "* " else "  ") + b
  }

  function ListingLines(branches: seq<string>, current: string): (lines: seq<string>)
    ensures |lines| == |branches|
    ensures forall k :: 0 <= k < |lines| ==> lines[k] == ListingLine(branches[k], current)
  {
    seq(|branches|, k requires 0 <= k < |branches| => ListingLine(branches[k], current))
  }

  /** The stdout of `git branch`: every line ends in a newline. */
  function BranchListing(branches: seq<string>, current: string): string {
    Join(ListingLines(branches, current) + [[]], '\n')
  }

  /** `name in output`, as `branch_exists` tests it. */
  predicate BranchExistsAsWritten(name: string, output: string) {
    Contains(output, name)
  }

  /** Any branch whose name merely contains `name` makes it "exist". */
  lemma {:induction false} AsWrittenMatchesSubstrings(name: string, branches: seq<string>, current: string, k: nat)
    requires k < |branches| && Contains(branches[k], name)
    ensures BranchExistsAsWritten(name, BranchListing(branches, current))
  {
    var lines := ListingLines(branches, current) + [[]];
    JoinPrefixSuffix(lines, k, '\n');
    var pre, post :| Join(lines, '\n') == pre + lines[k] + post;
    ContainsInContext(if branches[k] == current then "* " else "  ", branches[k], [], name);
    assert lines[k] == (if branches[k] == current then "* " else "  ") + branches[k] + [];
    ContainsInContext(pre, lines[k], post, name);
  }

  /** Every piece of a join sits between some prefix and suffix of it. */
  lemma {:induction false} JoinPrefixSuffix(parts: seq<string>, k: nat, sep: char)
    requires k < |parts|
    ensures exists pre, post :: Join(parts, sep) == pre + parts[k] + post
    decreases |parts|
  {
    if |parts| == 1 {
      assert Join(parts, sep) == [] + parts[0] + [];
    } else if k == 0 {
      assert Join(parts, sep) == [] + parts[0] + ([sep] + Join(parts[1..], sep));
    } else {
      JoinPrefixSuffix(parts[1..], k - 1, sep);
      var pre, post :| Join(parts[1..], sep) == pre + parts[1..][k - 1] + post;
      assert Join(parts, sep) == (parts[0] + [sep] + pre) + parts[k] + post;
    }
  }

  /** Removes the two-character marker column of a listing line. */
  function StripMarker(line: string): string {
    if |line| >= 2 then line[2..] else line
  }

  /** The branch names a `git branch` listing shows, marker column removed. */
  function ParseListing(output: string): (names: seq<string>) {
    var lines := Split(output, '\n');
    seq(|lines| - 1, k requires 0 <= k < |lines| - 1 => StripMarker(lines[k]))
  }

  lemma ParseListingRoundTrip(branches: seq<string>, current: string)
    requires AllFree(branches, '\n')
    ensures ParseListing(BranchListing(branches, current)) == branches
  {
    var lines := ListingLines(branches, current) + [[]];
    forall k | 0 <= k < |lines|
      ensures Free(lines[k], '\n')
    {
      if k < |branches| {
        assert lines[k] == (if branches[k] == current then "* " else "  ") + branches[k];
      }
    }
    SplitJoin(lines, '\n');
  }

  /** An exact-match existence test over the same listing. */
  predicate BranchExists(name: string, output: string) {
    name in ParseListing(output)
  }

  /** The exact test reports precisely the local branches. */
  lemma BranchExistsExactly(name: string, branches: seq<string>, current: string)
    requires AllFree(branches, '\n')
    ensures BranchExists(name, BranchListing(branches, current)) <==> name in branches
  {
    ParseListingRoundTrip(branches, current);
  }

  /** The substring test agrees on every real branch ... */
  lemma AsWrittenFindsRealBranches(name: string, branches: seq<string>, current: string)
    requires name in branches
    ensures BranchExistsAsWritten(name, BranchListing(branches, current))
  {
    var k :| 0 <= k < |branches| && branches[k] == name;
    assert Contains(name, name) by { assert IsPrefix(name, name); }
    AsWrittenMatchesSubstrings(name, branches, current, k);
  }

  /** ... but also "finds" a branch that is only a prefix of an existing one. */
  lemma AsWrittenFalsePositive()
    ensures var out := BranchListing(["master", "feature_foo_abcd"], "master");
            BranchExistsAsWritten("feature_foo_abc", out) && !BranchExists("feature_foo_abc", out)
  {
    var bs := ["master", "feature_foo_abcd"];
    assert Contains("feature_foo_abcd", "feature_foo_abc") by {
      assert IsPrefix("feature_foo_abc", "feature_foo_abcd");
    }
    AsWrittenMatchesSubstrings("feature_foo_abc", bs, "master", 1);
    assert AllFree(bs, '\n') by {
      assert Free(bs[0], '\n') && Free(bs[1], '\n');
    }
    BranchExistsExactly("feature_foo_abc", bs, "master");
  }

  // ---------------------------------------------------------------------------
  // The cherry-pick cursor (importer.py:138-158)
  // ---------------------------------------------------------------------------

  const CherryPickPhrase := "cherry picked from"

  /** `line.split(' ')[-1]` */
  function LastToken(line: string): string {
    var parts := Split(line, ' ');
    parts[|parts| - 1]
  }

  /** Python's `t[:-1]`: drops the final character; the empty string stays empty. */
  function DropLastChar(t: string): (r: string)
    ensures |r| == if t == [] then 0 else |t| - 1
    ensures r <= t
  {
    if t == [] then [] else t[..|t| - 1]
  }

  /** The cursor of the first line holding the phrase, or None. */
  function CursorOfLines(lines: seq<string>): Option<string>
    decreases |lines|
  {
    if lines == [] then None
    else if Contains(lines[0], CherryPickPhrase) then Some(DropLastChar(LastToken(lines[0])))
    else CursorOfLines(lines[1..])
  }

  /** The loop of `get_last_cherry_pick_sha` over the lines of the log output. */
  method ExtractCursor(output: string) returns (sha: Option<string>)
    ensures sha == CursorOfLines(Split(output, '\n'))
  {
    var lines := Split(output, '\n');
    var i := 0;
    while i < |lines|
      invariant 0 <= i <= |lines|
      invariant CursorOfLines(lines) == CursorOfLines(lines[i..])
    {
      assert lines[i..][1..] == lines[i + 1..];
      if Contains(lines[i], CherryPickPhrase) {
        var token := LastToken(lines[i]);
        return Some(DropLastChar(token));
      }
      i := i + 1;
    }
    return None;
  }

  /** No cursor exactly when no line carries the phrase. */
  lemma {:induction false} CursorNoneIff(lines: seq<string>)
    ensures CursorOfLines(lines) == None <==>
            forall k :: 0 <= k < |lines| ==> !Contains(lines[k], CherryPickPhrase)
    decreases |lines|
  {
    if lines != [] {
      CursorNoneIff(lines[1..]);
      assert forall k :: 1 <= k < |lines| ==> lines[k] == lines[1..][k - 1];
    }
  }

  /** Otherwise the cursor comes from the FIRST line that carries it. */
  lemma {:induction false} CursorFromFirstMarkedLine(lines: seq<string>, k: nat)
    requires k < |lines| && Contains(lines[k], CherryPickPhrase)
    requires forall j :: 0 <= j < k ==> !Contains(lines[j], CherryPickPhrase)
    ensures CursorOfLines(lines) == Some(DropLastChar(LastToken(lines[k])))
    decreases k
  {
    if k > 0 {
      CursorFromFirstMarkedLine(lines[1..], k - 1);
    }
  }

  /** The provenance line `git cherry-pick -x` appends, up to the identifier. */
  const MarkerHead := "(cherry picked from commit"

  /** The provenance line `git cherry-pick -x` appends. */
  function MarkerLine(sha: string): string {
    MarkerHead + " " + sha + ")"
  }

  lemma MarkerHeadHasPhrase()
    ensures Contains(MarkerHead, CherryPickPhrase)
  {
    assert MarkerHead[1..][..|CherryPickPhrase|] == CherryPickPhrase;
    assert IsPrefix(CherryPickPhrase, MarkerHead[1..]);
  }

  /**
   * For a marker line the dropped final character is the closing parenthesis,
   * so the full identifier comes back, whatever its length.
   */
  lemma MarkerLineCursor(sha: string)
    requires Free(sha, ' ')
    ensures Contains(MarkerLine(sha), CherryPickPhrase)
    ensures DropLastChar(LastToken(MarkerLine(sha))) == sha
  {
    var tail := sha + ")";
    assert Free(tail, ' ');
    assert MarkerLine(sha) == MarkerHead + [' '] + tail;
    LastTokenAfterSpace(MarkerHead, tail);
    assert tail[..|tail| - 1] == sha;
    MarkerHeadHasPhrase();
    ContainsSuffixExtended(MarkerHead, [' '] + tail, CherryPickPhrase);
    assert MarkerHead + ([' '] + tail) == MarkerLine(sha);
  }

  lemma LastTokenAfterSpace(a: string, b: string)
    requires Free(b, ' ')
    ensures LastToken(a + [' '] + b) == b
  {
    SplitAppend(a, ' ', b);
    SplitFree(b, ' ');
  }

  /** A worked instance with a seven-character abbreviated hash. */
  lemma MarkerLineExample()
    ensures DropLastChar(LastToken("(cherry picked from commit abc123d)")) == "abc123d"
  {
    assert Free("abc123d", ' ');
    MarkerLineCursor("abc123d");
    assert MarkerLine("abc123d") == "(cherry picked from commit abc123d)";
  }

  // ---------------------------------------------------------------------------
  // What `git log -n 1` prints about a commit message
  // ---------------------------------------------------------------------------

  /** `git log` shows each message line indented by four spaces. */
  function Indent(line: string): string {
    "    " + line
  }

  function IndentAll(lines: seq<string>): (r: seq<string>)
    ensures |r| == |lines|
    ensures forall k :: 0 <= k < |r| ==> r[k] == Indent(lines[k])
  {
    seq(|lines|, k requires 0 <= k < |lines| => Indent(lines[k]))
  }

  /**
   * The message part of the output of `git log -n 1` for a head commit: its
   * lines, each indented by four spaces. The `commit`, `Author:` and `Date:`
   * header lines git prints above them are left out; they never carry the
   * cherry-pick phrase, so the cursor read from the output is the same.
   */
  function LogOutput(message: string): string {
    Join(IndentAll(Split(message, '\n')), '\n')
  }

  /** The cursor read back from the head commit whose message is `message`. */
  function HeadCursor(message: string): Option<string> {
    CursorOfLines(Split(LogOutput(message), '\n'))
  }

  /** Indentation neither creates nor hides the phrase, nor moves the last token. */
  lemma IndentKeepsLine(line: string)
    ensures Contains(Indent(line), CherryPickPhrase) <==> Contains(line, CherryPickPhrase)
    ensures LastToken(Indent(line)) == LastToken(line)
  {
    var s := line;
    ContainsSkipsHead(' ', s, CherryPickPhrase);
    ContainsSkipsHead(' ', [' '] + s, CherryPickPhrase);
    ContainsSkipsHead(' ', [' ', ' '] + s, CherryPickPhrase);
    ContainsSkipsHead(' ', [' ', ' ', ' '] + s, CherryPickPhrase);
    assert Indent(line) == [' '] + ([' ', ' ', ' '] + s);
    assert [' '] + ([' '] + ([' '] + ([' '] + s))) == Indent(line);
    SplitAppend([], ' ', [' ', ' ', ' '] + s);
    SplitAppend([], ' ', [' ', ' '] + s);
    SplitAppend([], ' ', [' '] + s);
    SplitAppend([], ' ', s);
  }

  /** The message lines survive the round trip through the log output. */
  lemma LogOutputLines(message: string)
    ensures Split(LogOutput(message), '\n') == IndentAll(Split(message, '\n'))
  {
    var lines := Split(message, '\n');
    SplitPiecesFree(message, '\n');
    var shown := IndentAll(lines);
    forall k | 0 <= k < |shown|
      ensures Free(shown[k], '\n')
    {
      assert shown[k] == "    " + lines[k];
    }
    SplitJoin(shown, '\n');
  }

  lemma {:induction false} CursorOfIndented(lines: seq<string>)
    ensures CursorOfLines(IndentAll(lines)) == CursorOfLines(lines)
    decreases |lines|
  {
    if lines != [] {
      IndentKeepsLine(lines[0]);
      CursorOfIndented(lines[1..]);
      assert IndentAll(lines)[1..] == IndentAll(lines[1..]);
    }
  }

  /** The cursor of a head commit is the cursor of its own message lines. */
  lemma HeadCursorOfMessage(message: string)
    ensures HeadCursor(message) == CursorOfLines(Split(message, '\n'))
  {
    LogOutputLines(message);
    CursorOfIndented(Split(message, '\n'));
  }

  /** No line of `message` carries the cherry-pick phrase. */
  predicate Unmarked(message: string) {
    forall k :: 0 <= k < |Split(message, '\n')| ==> !Contains(Split(message, '\n')[k], CherryPickPhrase)
  }

  /** The message of a commit that `git cherry-pick -x` made from `sha`. */
  function PickMessage(original: string, sha: string): string {
    original + "\n\n" + MarkerLine(sha)
  }

  /**
   * After a cherry-pick with `-x` the cursor is the picked identifier, provided
   * the original message does not itself already carry the phrase (a commit that
   * was itself cherry-picked would yield its older marker first).
   */
  lemma PickMessageCursor(original: string, sha: string)
    requires Free(sha, ' ') && Free(sha, '\n')
    requires Unmarked(original)
    ensures HeadCursor(PickMessage(original, sha)) == Some(sha)
  {
    var m := PickMessage(original, sha);
    var marker := MarkerLine(sha);
    MarkerLineFree(sha);
    SplitBlankLine(original, marker);
    var lines := Split(original, '\n') + [[]] + [marker];
    MarkerLineCursor(sha);
    assert !Contains([], CherryPickPhrase);
    CursorFromFirstMarkedLine(lines, |lines| - 1);
    HeadCursorOfMessage(m);
  }

  lemma MarkerLineFree(sha: string)
    requires Free(sha, '\n')
    ensures Free(MarkerLine(sha), '\n')
  {
    assert Free(MarkerHead, '\n');
  }

  /** A blank line followed by one last line splits as such. */
  lemma SplitBlankLine(original: string, last: string)
    requires Free(last, '\n')
    ensures Split(original + "\n\n" + last, '\n') == Split(original, '\n') + [[]] + [last]
  {
    assert original + "\n\n" + last == original + ['\n'] + ([] + ['\n'] + last);
    SplitAppend(original, '\n', [] + ['\n'] + last);
    SplitAppend([], '\n', last);
    SplitFree(last, '\n');
  }

  // ---------------------------------------------------------------------------
  // Which patches the replay loop picks (importer.py:279-297)
  // ---------------------------------------------------------------------------

  /**
   * The entries the resume loop cherry-picks, built entry by entry as the loop
   * walks the list: an entry is picked when it differs from the cursor and the
   * cursor occurred before it.
   */
  function ResumePicks(patches: seq<string>, cursor: string): seq<string>
    decreases |patches|
  {
    if patches == [] then []
    else
      var init := patches[..|patches| - 1];
      var last := patches[|patches| - 1];
      ResumePicks(init, cursor) + (if last != cursor && cursor in init then [last] else [])
  }

  /** `xs` with every copy of `c` removed, order kept. */
  function Without(xs: seq<string>, c: string): (r: seq<string>)
    ensures c !in r
    ensures forall x :: x in r ==> x in xs
    decreases |xs|
  {
    if xs == [] then [] else (if xs[0] == c then [] else [xs[0]]) + Without(xs[1..], c)
  }

  lemma {:induction false} WithoutSnoc(xs: seq<string>, x: string, c: string)
    ensures Without(xs + [x], c) == Without(xs, c) + (if x == c then [] else [x])
    decreases |xs|
  {
    if xs != [] {
      WithoutSnoc(xs[1..], x, c);
      assert (xs + [x])[1..] == xs[1..] + [x];
    }
  }

  lemma {:induction false} WithoutAbsent(xs: seq<string>, c: string)
    requires c !in xs
    ensures Without(xs, c) == xs
    decreases |xs|
  {
    if xs != [] {
      WithoutAbsent(xs[1..], c);
    }
  }

  /** A cursor that is not in the list makes the loop pick nothing. */
  lemma {:induction false} ResumeAbsentCursor(patches: seq<string>, cursor: string)
    requires cursor !in patches
    ensures ResumePicks(patches, cursor) == []
    decreases |patches|
  {
    if patches != [] {
      ResumeAbsentCursor(patches[..|patches| - 1], cursor);
    }
  }

  /** One more entry adds at most that entry to the picks. */
  lemma ResumeSnoc(xs: seq<string>, x: string, c: string)
    ensures ResumePicks(xs + [x], c) == ResumePicks(xs, c) + (if x != c && c in xs then [x] else [])
  {
    assert (xs + [x])[..|xs|] == xs;
  }

  /**
   * With the cursor first occurring right after `pre`, the loop picks exactly the
   * entries after it, in order, minus any later copies of the cursor.
   */
  lemma {:induction false} ResumeAfterCursor(pre: seq<string>, cursor: string, post: seq<string>)
    requires cursor !in pre
    ensures ResumePicks(pre + [cursor] + post, cursor) == Without(post, cursor)
    decreases |post|
  {
    if post == [] {
      assert pre + [cursor] + post == pre + [cursor];
      ResumeSnoc(pre, cursor, cursor);
      ResumeAbsentCursor(pre, cursor);
    } else {
      var init := post[..|post| - 1];
      var last := post[|post| - 1];
      var ps' := pre + [cursor] + init;
      assert pre + [cursor] + post == ps' + [last];
      assert ps'[|pre|] == cursor;
      ResumeSnoc(ps', last, cursor);
      ResumeAfterCursor(pre, cursor, init);
      WithoutSnoc(init, last, cursor);
      assert post == init + [last];
    }
  }

  /** So with distinct entries the loop resumes at the entry after the cursor. */
  lemma ResumeAtNext(patches: seq<string>, i: nat)
    requires i < |patches|
    requires forall j, k :: 0 <= j < k < |patches| ==> patches[j] != patches[k]
    ensures ResumePicks(patches, patches[i]) == patches[i + 1..]
  {
    var c := patches[i];
    assert patches == patches[..i] + [c] + patches[i + 1..];
    assert c !in patches[..i];
    assert c !in patches[i + 1..];
    ResumeAfterCursor(patches[..i], c, patches[i + 1..]);
    WithoutAbsent(patches[i + 1..], c);
  }

  /** What the whole replay step applies: `if not last_sha` covers None and "". */
  function ReplayPlan(patches: seq<string>, cursor: Option<string>): seq<string> {
    if cursor.None? || cursor.value == [] then patches else ResumePicks(patches, cursor.value)
  }

  /**
   * Re-running the replay once the last entry has been picked applies nothing:
   * the cursor then names the last entry, which is unique in a list of distinct
   * patches.
   */
  lemma ReplayIdempotent(patches: seq<string>, original: string)
    requires |patches| > 0
    requires forall j, k :: 0 <= j < k < |patches| ==> patches[j] != patches[k]
    requires var last := patches[|patches| - 1]; last != [] && Free(last, ' ') && Free(last, '\n')
    requires Unmarked(original)
    ensures ReplayPlan(patches, HeadCursor(PickMessage(original, patches[|patches| - 1]))) == []
  {
    var last := patches[|patches| - 1];
    PickMessageCursor(original, last);
    ResumeAtNext(patches, |patches| - 1);
  }

  /** With a repeated final entry a second run picks again. */
  lemma DuplicateBreaksIdempotence()
    ensures ReplayPlan(["a", "b", "a"], Some("a")) == ["b"]
  {
    assert ["a", "b", "a"] == [] + ["a"] + ["b", "a"];
    ResumeAfterCursor([], "a", ["b", "a"]);
  }

  /**
   * Whatever the cursor, a replay that picked something picked the last entry
   * of a list of distinct patches; reading the cursor back from that pick then
   * plans nothing more.
   */
  lemma ReplayRerunPlansNothing(patches: seq<string>, cursor: Option<string>, original: string, m: string)
    requires forall j, k :: 0 <= j < k < |patches| ==> patches[j] != patches[k]
    requires ReplayPlan(patches, cursor) != []
    requires var last := patches[|patches| - 1]; last != [] && Free(last, ' ') && Free(last, '\n')
    requires Unmarked(original)
    requires var plan := ReplayPlan(patches, cursor); m == PickMessage(original, plan[|plan| - 1])
    ensures var plan := ReplayPlan(patches, cursor); plan[|plan| - 1] == patches[|patches| - 1]
    ensures ReplayPlan(patches, HeadCursor(m)) == []
  {
    var plan := ReplayPlan(patches, cursor);
    if cursor.Some? && cursor.value != [] {
      var c := cursor.value;
      if c !in patches {
        ResumeAbsentCursor(patches, c);
        assert false;
      }
      var i :| 0 <= i < |patches| && patches[i] == c;
      ResumeAtNext(patches, i);
    }
    ReplayIdempotent(patches, original);
  }
}
