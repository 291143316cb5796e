/** The PAM edit of the installer and its inverse, on a file as a list of lines. */
module Pam {
  import opened Model

  const MARKER := "# ssh-sentinel (managed by install.sh)"
  const BINARY_PATH := "/usr/local/bin/ssh-sentinel"
  const SSHD_LINE := "account required pam_exec.so quiet " + BINARY_PATH + " check"
  const SUDO_LINE := "account required pam_exec.so quiet " + BINARY_PATH + " check --context=sudo"

  // ---- the line patterns ------------------------------------------------------------

  predicate Blank(c: char) {
    c == ' ' || c == '\t'
  }

  predicate StartsWith(s: string, p: string) {
    |p| <= |s| && s[..|p|] == p
  }

  function SkipBlanks(s: string): string {
    if s != [] && Blank(s[0]) then SkipBlanks(s[1..]) else s
  }

  /** The word, then at least one blank; the rest after the blanks. */
  function AfterWord(s: string, word: string): Option<string> {
    if StartsWith(s, word) && |s| > |word| && Blank(s[|word|]) then Some(SkipBlanks(s[|word|..])) else None
  }

  /** The word followed by one blank. */
  predicate WordThenBlank(s: string, word: string) {
    StartsWith(s, word) && |s| > |word| && Blank(s[|word|])
  }

  /** ^@include[ \t]+common-account or ^account[ \t]+(include|substack)[ \t] */
  predicate IsInclude(l: string) {
    var a, b := AfterWord(l, "@include"), AfterWord(l, "account");
    || (a.Some? && StartsWith(a.value, "common-account"))
    || (b.Some? && (WordThenBlank(b.value, "include") || WordThenBlank(b.value, "substack")))
  }

  /** ^account[ \t] */
  predicate IsAccount(l: string) {
    WordThenBlank(l, "account")
  }

  predicate Blanks(s: string) {
    s != "" && forall i :: 0 <= i < |s| ==> Blank(s[i])
  }

  lemma {:induction false} SkipBlanksSplits(s: string) returns (n: nat)
    ensures n <= |s| && SkipBlanks(s) == s[n..] && forall i :: 0 <= i < n ==> Blank(s[i])
    ensures n < |s| ==> !Blank(s[n])
  {
    if s != [] && Blank(s[0]) {
      n := SkipBlanksSplits(s[1..]);
      assert s[1..][n..] == s[n + 1..];
      assert forall i :: 1 <= i < n + 1 ==> s[i] == s[1..][i - 1];
      assert n < |s[1..]| ==> s[1..][n] == s[n + 1];
      n := n + 1;
    } else {
      n := 0;
      assert s[0..] == s;
    }
  }

  lemma {:induction false} SkipBlanksOver(b: string, rest: string)
    requires forall i :: 0 <= i < |b| ==> Blank(b[i])
    requires rest != "" && !Blank(rest[0])
    ensures SkipBlanks(b + rest) == rest
  {
    if b == "" {
      assert b + rest == rest;
    } else {
      assert (b + rest)[1..] == b[1..] + rest;
      SkipBlanksOver(b[1..], rest);
    }
  }

  /** A word, blanks, and a rest that does not begin with a blank. */
  lemma AfterWordSplits(l: string, word: string, rest: string)
    requires rest != "" && !Blank(rest[0])
    ensures AfterWord(l, word) == Some(rest) <==> exists b :: Blanks(b) && l == word + b + rest
  {
    if AfterWord(l, word) == Some(rest) {
      var tail := l[|word|..];
      var n := SkipBlanksSplits(tail);
      assert n > 0 && tail == tail[..n] + rest;
      assert l == word + tail[..n] + rest && Blanks(tail[..n]);
    }
    if b :| Blanks(b) && l == word + b + rest {
      assert l[|word|..] == b + rest && l[..|word|] == word;
      SkipBlanksOver(b, rest);
    }
  }

  /** The line pulls in common-account, or includes or substacks another file into
      the account stack: word by word, blanks between. */
  ghost predicate PullsIn(l: string) {
    || (exists b, rest :: Blanks(b) && l == "@include" + b + ("common-account" + rest))
    || (exists b, c, rest :: Blanks(b) && Blank(c) && l == "account" + b + ("include" + [c] + rest))
    || (exists b, c, rest :: Blanks(b) && Blank(c) && l == "account" + b + ("substack" + [c] + rest))
  }

  /** The two patterns of the script match exactly those lines. */
  lemma IncludeMatches(l: string)
    ensures IsInclude(l) <==> PullsIn(l)
    ensures IsAccount(l) <==> exists c, rest :: Blank(c) && l == "account" + [c] + rest
  {
    CommonMatches(l);
    WordMatches(l, "include");
    WordMatches(l, "substack");
    if IsAccount(l) {
      assert l == "account" + [l[7]] + l[8..];
    }
  }

  lemma CommonMatches(l: string)
    ensures (AfterWord(l, "@include").Some? && StartsWith(AfterWord(l, "@include").value, "common-account"))
            <==> exists b, rest :: Blanks(b) && l == "@include" + b + ("common-account" + rest)
  {
    var a := AfterWord(l, "@include");
    if a.Some? && StartsWith(a.value, "common-account") {
      assert a.value == "common-account" + a.value[14..];
      AfterWordSplits(l, "@include", a.value);
      var b :| Blanks(b) && l == "@include" + b + a.value;
      assert l == "@include" + b + ("common-account" + a.value[14..]);
    }
    if b, rest :| Blanks(b) && l == "@include" + b + ("common-account" + rest) {
      AfterWordSplits(l, "@include", "common-account" + rest);
      assert ("common-account" + rest)[..14] == "common-account";
    }
  }

  lemma WordMatches(l: string, word: string)
    requires word != "" && !Blank(word[0])
    ensures (AfterWord(l, "account").Some? && WordThenBlank(AfterWord(l, "account").value, word))
            <==> exists b, c, rest :: Blanks(b) && Blank(c) && l == "account" + b + (word + [c] + rest)
  {
    var a, n := AfterWord(l, "account"), |word|;
    if a.Some? && WordThenBlank(a.value, word) {
      assert a.value == word + [a.value[n]] + a.value[n + 1..];
      AfterWordSplits(l, "account", a.value);
      var b :| Blanks(b) && l == "account" + b + a.value;
      assert l == "account" + b + (word + [a.value[n]] + a.value[n + 1..]);
    }
    if b, c, rest :| Blanks(b) && Blank(c) && l == "account" + b + (word + [c] + rest) {
      var tail := word + [c] + rest;
      AfterWordSplits(l, "account", tail);
      assert tail[..n] == word && tail[n] == c;
    }
  }

  // ---- what the edit means ------------------------------------------------------------

  /** at is the index of the first line satisfying p, or the length. */
  ghost predicate IsFirst(lines: seq<string>, p: string -> bool, at: nat) {
    && at <= |lines|
    && (forall i :: 0 <= i < at ==> !p(lines[i]))
    && (at < |lines| ==> p(lines[at]))
  }

  function First(lines: seq<string>, p: string -> bool): (at: nat)
    ensures IsFirst(lines, p, at)
  {
    if lines == [] || p(lines[0]) then 0
    else
      assert forall i :: 1 <= i < |lines| ==> lines[i] == lines[1..][i - 1];
      1 + First(lines[1..], p)
  }

  /** Before the first include; with no include, before the first account line;
      with neither, at the end. */
  function Position(lines: seq<string>): (at: nat)
    ensures at <= |lines|
    ensures forall i :: 0 <= i < at ==> !IsInclude(lines[i])
    ensures at < |lines| && !IsInclude(lines[at]) ==>
              IsAccount(lines[at]) && forall i :: 0 <= i < |lines| ==> !IsInclude(lines[i])
    ensures at == |lines| || !IsInclude(lines[at]) ==> forall i :: 0 <= i < at ==> !IsAccount(lines[i])
  {
    var at := First(lines, l => IsInclude(l));
    if at < |lines| then at else First(lines, l => IsAccount(l))
  }

  function Inserted(lines: seq<string>, line: string): seq<string> {
    lines[..Position(lines)] + [MARKER, line] + lines[Position(lines)..]
  }

  /** Each marker goes, with the line after it. */
  function Removed(lines: seq<string>, skip: bool): seq<string> {
    if lines == [] then []
    else if lines[0] == MARKER then Removed(lines[1..], true)
    else if skip then Removed(lines[1..], false)
    else [lines[0]] + Removed(lines[1..], false)
  }

  datatype Op = Install(line: string) | Uninstall

  datatype Disk = Disk(lines: seq<string>, backup: Option<seq<string>>)

  /** What an edit does to the file. An install leaves a file with the marker alone;
      otherwise the two lines go in, and the first edit keeps a backup. An uninstall
      takes each marker and the line after it out. */
  function Apply(d: Disk, op: Op): Disk {
    match op
    case Install(line) =>
      if MARKER in d.lines then d
      else Disk(Inserted(d.lines, line), if d.backup.Some? then d.backup else Some(d.lines))
    case Uninstall => if MARKER in d.lines then d.(lines := Removed(d.lines, false)) else d
  }

  /** No include before at, and the line at it is the first include; or there is no
      include, and at is the first account line, or the end when there is none. */
  ghost predicate IsInsertionPoint(lines: seq<string>, at: nat) {
    && at <= |lines|
    && (forall i :: 0 <= i < at ==> !PullsIn(lines[i]))
    && ((at < |lines| && PullsIn(lines[at]))
        || (&& (forall i :: 0 <= i < |lines| ==> !PullsIn(lines[i]))
            && (forall i :: 0 <= i < at ==> !IsAccount(lines[i]))
            && (at < |lines| ==> IsAccount(lines[at]))))
  }

  lemma PositionIsInsertionPoint(lines: seq<string>)
    ensures IsInsertionPoint(lines, Position(lines))
  {
    forall i | 0 <= i < |lines| ensures IsInclude(lines[i]) == PullsIn(lines[i]) {
      IncludeMatches(lines[i]);
    }
  }

  /** The line is not a marker, and does not follow one. */
  predicate Stays(lines: seq<string>, i: nat)
    requires i < |lines|
  {
    lines[i] != MARKER && (i > 0 ==> lines[i - 1] != MARKER)
  }

  /** out is the lines that stay, in order: line k of it is line at[k]. */
  ghost predicate KeepsAt(lines: seq<string>, out: seq<string>, at: seq<nat>) {
    && |at| == |out|
    && (forall i, j :: 0 <= i < j < |at| ==> at[i] < at[j])
    && (forall i :: 0 <= i < |at| ==> at[i] < |lines| && Stays(lines, at[i]) && out[i] == lines[at[i]])
    && (forall k :: 0 <= k < |lines| && Stays(lines, k) ==> exists i :: 0 <= i < |at| && at[i] == k)
  }

  /** Exactly the lines that are neither a marker nor right after one are left. */
  ghost predicate IsRemoval(lines: seq<string>, out: seq<string>) {
    exists at :: KeepsAt(lines, out, at)
  }

  // ---- the file -----------------------------------------------------------------------

  class PamFile {
    var lines: seq<string>
    var backup: Option<seq<string>>

    constructor (lines: seq<string>)
      ensures this.lines == lines && backup == None
    {
      this.lines, backup := lines, None;
    }

    /** pam_insert; a dry run changes nothing. */
    method PamInsert(line: string, dryRun: bool)
      modifies this
      ensures MARKER in old(lines) || dryRun ==> lines == old(lines) && backup == old(backup)
      ensures !(MARKER in old(lines) || dryRun) ==>
                && (exists at: nat :: IsInsertionPoint(old(lines), at)
                      && lines == old(lines)[..at] + [MARKER, line] + old(lines)[at..])
                && backup == if old(backup).Some? then old(backup) else Some(old(lines))
      ensures var before := Disk(old(lines), old(backup));
              Disk(lines, backup) == if dryRun then before else Apply(before, Install(line))
    {
      if MARKER in lines {
        return;
      }
      if dryRun {
        return;
      }
      if backup.None? {
        backup := Some(lines);
      }
      PositionIsInsertionPoint(lines);
      var at := FindPosition(lines);
      lines := Rewrite(lines, at, line);
    }

    /** pam_remove: each marker and the line after it go. */
    method PamRemove(dryRun: bool)
      modifies this`lines
      ensures dryRun ==> lines == old(lines)
      ensures !dryRun ==> IsRemoval(old(lines), lines)
      ensures var before := Disk(old(lines), old(backup));
              Disk(lines, backup) == if dryRun then before else Apply(before, Uninstall)
    {
      RemovalMeans(lines);
      if MARKER !in lines {
        RemoveIdentity(lines);
        return;
      }
      if dryRun {
        return;
      }
      lines := DropMarked(lines);
    }
  }

  /** The skip state of the awk program drops each marker and the line after it. */
  method DropMarked(lines: seq<string>) returns (out: seq<string>)
    ensures out == Removed(lines, false)
  {
    var skip := false;
    out := [];
    for i := 0 to |lines|
      invariant out + Removed(lines[i..], skip) == Removed(lines, false)
    {
      assert lines[i..][0] == lines[i] && lines[i..][1..] == lines[i + 1..];
      if lines[i] == MARKER {
        skip := true;
        continue;
      }
      if skip {
        skip := false;
        continue;
      }
      out := out + [lines[i]];
    }
  }

  /** The two scans of the awk program. */
  method FindPosition(lines: seq<string>) returns (at: nat)
    ensures at == Position(lines)
  {
    at := |lines|;
    for i := 0 to |lines|
      invariant at == |lines| && forall j :: 0 <= j < i ==> !IsInclude(lines[j])
    {
      if IsInclude(lines[i]) {
        at := i;
        break;
      }
    }
    FirstUnique(lines, l => IsInclude(l), at, First(lines, l => IsInclude(l)));
    if at == |lines| {
      for i := 0 to |lines|
        invariant at == |lines| && forall j :: 0 <= j < i ==> !IsAccount(lines[j])
      {
        if IsAccount(lines[i]) {
          at := i;
          break;
        }
      }
      FirstUnique(lines, l => IsAccount(l), at, First(lines, l => IsAccount(l)));
    }
  }

  /** The printing loop of the awk program. */
  method Rewrite(lines: seq<string>, at: nat, line: string) returns (out: seq<string>)
    requires at <= |lines|
    ensures out == lines[..at] + [MARKER, line] + lines[at..]
  {
    out := [];
    for i := 0 to |lines|
      invariant out == if i <= at then lines[..i] else lines[..at] + [MARKER, line] + lines[at..i]
    {
      if i == at {
        out := out + [MARKER, line];
      }
      out := out + [lines[i]];
    }
    if at == |lines| {
      out := out + [MARKER, line];
    }
  }

  lemma FirstUnique(lines: seq<string>, p: string -> bool, a: nat, b: nat)
    requires IsFirst(lines, p, a) && IsFirst(lines, p, b)
    ensures a == b
  {
  }

  // ---- insert and remove together -------------------------------------------------------

  lemma {:induction false} RemoveIdentity(lines: seq<string>)
    requires MARKER !in lines
    ensures Removed(lines, false) == lines
    decreases |lines|
  {
    if lines != [] {
      assert lines == [lines[0]] + lines[1..];
      assert MARKER !in lines[1..];
      RemoveIdentity(lines[1..]);
    }
  }

  lemma {:induction false} RemoveAfterPrefix(a: seq<string>, b: seq<string>)
    requires MARKER !in a
    ensures Removed(a + b, false) == a + Removed(b, false)
    decreases |a|
  {
    if a == [] {
      assert a + b == b;
    } else {
      assert a == [a[0]] + a[1..] && (a + b)[1..] == a[1..] + b;
      assert MARKER !in a[1..];
      RemoveAfterPrefix(a[1..], b);
    }
  }

  /** Removing what was inserted restores a marker-free file exactly, unless the
      inserted line is the marker itself and something follows it. */
  lemma RemoveUndoesInsertExactly(lines: seq<string>, line: string)
    requires MARKER !in lines
    ensures Removed(Inserted(lines, line), false) == lines <==> line != MARKER || Position(lines) == |lines|
  {
    var at := Position(lines);
    var a, b := lines[..at], lines[at..];
    assert lines == a + b;
    assert Inserted(lines, line) == a + ([MARKER, line] + b);
    RemoveAfterPrefix(a, [MARKER, line] + b);
    PairRemoved(line, b);
  }

  /** The two lines go; a second marker takes the line after it too. */
  lemma PairRemoved(line: string, b: seq<string>)
    requires MARKER !in b
    ensures Removed([MARKER, line] + b, false) == if line == MARKER && b != [] then b[1..] else b
  {
    var pair := [MARKER, line] + b;
    assert pair[0] == MARKER && pair[1..] == [line] + b && ([line] + b)[0] == line && ([line] + b)[1..] == b;
    assert Removed(pair, false) == Removed([line] + b, true);
    RemoveIdentity(b);
    if line == MARKER {
      assert Removed([line] + b, true) == Removed(b, true);
      if b != [] {
        assert b[0] in b && MARKER !in b[1..];
        RemoveIdentity(b[1..]);
      }
    } else {
      assert Removed([line] + b, true) == Removed(b, false);
    }
  }

  /** Neither of the two lines the installer inserts is the marker. */
  lemma InstalledLinesAreNotMarkers()
    ensures SSHD_LINE != MARKER && SUDO_LINE != MARKER
  {
    assert SSHD_LINE[0] == 'a' && SUDO_LINE[0] == 'a' && MARKER[0] == '#';
  }

  /** The lines Removed keeps when it starts in a file at line from. */
  lemma {:induction false} RemovedKeepsFrom(lines: seq<string>, from: nat) returns (at: seq<nat>)
    requires from <= |lines|
    ensures var out := Removed(lines[from..], from > 0 && lines[from - 1] == MARKER);
            && |at| == |out|
            && (forall i, j :: 0 <= i < j < |at| ==> at[i] < at[j])
            && (forall i :: 0 <= i < |at| ==>
                  from <= at[i] < |lines| && Stays(lines, at[i]) && out[i] == lines[at[i]])
            && (forall k :: from <= k < |lines| && Stays(lines, k) ==> exists i :: 0 <= i < |at| && at[i] == k)
    decreases |lines| - from
  {
    if from == |lines| {
      at := [];
    } else {
      assert lines[from..][0] == lines[from] && lines[from..][1..] == lines[from + 1..];
      var rest := RemovedKeepsFrom(lines, from + 1);
      if Stays(lines, from) {
        at := [from] + rest;
        forall k | from <= k < |lines| && Stays(lines, k) ensures exists i :: 0 <= i < |at| && at[i] == k {
          if k == from {
            assert at[0] == k;
          } else {
            var i :| 0 <= i < |rest| && rest[i] == k;
            assert at[i + 1] == k;
          }
        }
      } else {
        at := rest;
      }
    }
  }

  lemma RemovalMeans(lines: seq<string>)
    ensures IsRemoval(lines, Removed(lines, false))
  {
    var at := RemovedKeepsFrom(lines, 0);
    assert lines[0..] == lines;
    assert KeepsAt(lines, Removed(lines, false), at);
  }

  /** After a removal no marker is left, whatever the file was. */
  lemma {:induction false} RemoveLeavesNoMarker(lines: seq<string>, skip: bool)
    ensures MARKER !in Removed(lines, skip)
    decreases |lines|
  {
    if lines != [] {
      RemoveLeavesNoMarker(lines[1..], true);
      RemoveLeavesNoMarker(lines[1..], false);
    }
  }

  // ---- whole runs -------------------------------------------------------------------------

  function Run(d: Disk, ops: seq<Op>): Disk
    decreases |ops|
  {
    if ops == [] then d else Run(Apply(d, ops[0]), ops[1..])
  }

  ghost predicate FromOriginal(original: seq<string>, d: Disk) {
    && (d.lines == original || exists line :: line != MARKER && d.lines == Inserted(original, line))
    && (d.backup.None? || d.backup.value == original)
  }

  /** However often the installer and the uninstaller run, the file is the original
      or the original with one pair of lines, the backup is the original, and an
      uninstall brings the original back. */
  lemma {:induction false} RunsKeepOriginal(original: seq<string>, d: Disk, ops: seq<Op>)
    requires MARKER !in original && FromOriginal(original, d)
    requires forall i :: 0 <= i < |ops| && ops[i].Install? ==> ops[i].line != MARKER
    ensures FromOriginal(original, Run(d, ops))
    ensures Apply(Run(d, ops), Uninstall).lines == original
    decreases |ops|
  {
    if d.lines != original {
      var line :| line != MARKER && d.lines == Inserted(original, line);
      RemoveUndoesInsertExactly(original, line);
      assert d.lines[Position(original)] == MARKER;
    }
    if ops != [] {
      RunsKeepOriginal(original, Apply(d, ops[0]), ops[1..]);
    }
  }

  /** The installer inserts one line into the sshd stack and one into the sudo stack. */
  predicate Installer(ops: seq<Op>) {
    forall i :: 0 <= i < |ops| && ops[i].Install? ==> ops[i].line == SSHD_LINE || ops[i].line == SUDO_LINE
  }

  /** With the lines the installer inserts, any runs of install and uninstall on a
      marker-free file leave it recoverable. */
  lemma InstallerKeepsOriginal(original: seq<string>, ops: seq<Op>)
    requires MARKER !in original && Installer(ops)
    ensures FromOriginal(original, Run(Disk(original, None), ops))
    ensures Apply(Run(Disk(original, None), ops), Uninstall).lines == original
  {
    InstalledLinesAreNotMarkers();
    RunsKeepOriginal(original, Disk(original, None), ops);
  }
}
