/**
 * Line classification of the AirPlay metadata reader (aplmeta.py): the
 * `Title`, `Artist`, `Album Name` and `Track length` announcements, the
 * `Persistent ID` announcement, and the `PID=` line of the status file
 * that the reader consults when it starts.
 *
 * The regular expressions of the source are written out as prefix, suffix
 * and character-class tests.
 */
module AplmetaLines {
  import opened Wrappers
  import opened Text

  datatype Field = Title | Artist | AlbumName | TrackLength

  /** The key the upstream metadata reader prints for each field. */
  function Key(f: Field): string {
    match f
    case Title => "Title"
    case Artist => "Artist"
    case AlbumName => "Album Name"
    case TrackLength => "Track length"
  }

  /** Title, Artist and Album Name carry a quoted value; Track length does not. */
  predicate IsQuoted(f: Field) {
    f != TrackLength
  }

  function QuotedPrefix(f: Field): string {
    Key(f) + ": \""
  }

  const TrackLengthPrefix := "Track length: "

  /** What `get_metadata` returns: a (key, value) pair, or (None, None). */
  datatype Announcement = FieldValue(field: Field, value: string) | Unrecognised

  /** The line without the one final newline before which Python's `$` also matches. */
  function LineBody(line: string): string {
    if |line| > 0 && line[|line| - 1] == '\n' then line[..|line| - 1] else line
  }

  /** The text `v` with `body == prefix + v + suffix`, provided it holds no
      newline (the regular-expression `.` does not match one). */
  function Between(body: string, prefix: string, suffix: string): (r: Option<string>)
    ensures r.Some? ==> body == prefix + r.value + suffix && '\n' !in r.value
    ensures r.None? ==> forall v :: '\n' !in v ==> body != prefix + v + suffix
  {
    if StartsWith(body, prefix) && |prefix| + |suffix| <= |body| && EndsWith(body, suffix) then
      var v := body[|prefix|..|body| - |suffix|];
      assert body == prefix + v + suffix;
      if '\n' in v then None else Some(v)
    else None
  }

  /** `t` is the first space-separated token of `raw`: `raw.split(' ')[0]`. */
  predicate FirstTokenOf(raw: string, t: string) {
    ' ' !in t && (raw == t || StartsWith(raw, t + " "))
  }

  lemma FirstTokenOfSplit(raw: string)
    ensures FirstTokenOf(raw, Split(raw, " ")[0])
  {
    var parts := Split(raw, " ");
    var t := parts[0];
    CharIsContained(t, ' ');
    if |parts| > 1 {
      assert raw == t + " " + Join(parts[1..], " ");
      assert raw[..|t + " "|] == t + " ";
    }
  }

  /** The regular expressions `^(Title|Artist|Album Name): "(.*?)"\.$` and
      `^(Track length): (.*?)\.$`, tried in that order. */
  function GetMetadata(line: string): (r: Announcement)
    ensures r.FieldValue? && IsQuoted(r.field) ==>
      LineBody(line) == QuotedPrefix(r.field) + r.value + "\"." && '\n' !in r.value
    ensures r.FieldValue? && r.field == TrackLength ==>
      exists raw :: LineBody(line) == TrackLengthPrefix + raw + "." && '\n' !in raw && FirstTokenOf(raw, r.value)
  {
    var body := LineBody(line);
    match Between(body, QuotedPrefix(Title), "\".")
    case Some(v) => FieldValue(Title, v)
    case None =>
      match Between(body, QuotedPrefix(Artist), "\".")
      case Some(v) => FieldValue(Artist, v)
      case None =>
        match Between(body, QuotedPrefix(AlbumName), "\".")
        case Some(v) => FieldValue(AlbumName, v)
        case None =>
          match Between(body, TrackLengthPrefix, ".")
          case Some(raw) =>
            FirstTokenOfSplit(raw);
            FieldValue(TrackLength, Split(raw, " ")[0])
          case None => Unrecognised
  }

  /** The announcement line the upstream reader prints for a value. */
  function Announce(f: Field, v: string): string {
    if IsQuoted(f) then QuotedPrefix(f) + v + "\"." else TrackLengthPrefix + v + "."
  }

  lemma LineBodyOfAnnounce(f: Field, v: string, eol: string)
    requires eol == "" || eol == "\n"
    ensures LineBody(Announce(f, v) + eol) == Announce(f, v)
  {
    var a := Announce(f, v);
    assert a[|a| - 1] == '.';
    assert (a + eol)[..|a|] == a;
  }

  /** The text between a prefix and a suffix is recovered. */
  lemma BetweenOf(prefix: string, v: string, suffix: string)
    requires '\n' !in v
    ensures Between(prefix + v + suffix, prefix, suffix) == Some(v)
  {
    var body := prefix + v + suffix;
    assert body[..|prefix|] == prefix;
    assert body[|body| - |suffix|..] == suffix;
    assert body[|prefix|..|body| - |suffix|] == v;
  }

  /** Text that does not start with the prefix has nothing between. */
  lemma BetweenMiss(body: string, prefix: string, suffix: string)
    requires !StartsWith(body, prefix)
    ensures Between(body, prefix, suffix) == None
  {
  }

  /** A line that starts with `q` does not start with a prefix `p` that differs from `q` at `i`. */
  lemma DistinctPrefixes(body: string, p: string, q: string, i: nat)
    requires StartsWith(body, q) && i < |p| && i < |q| && p[i] != q[i]
    ensures !StartsWith(body, p)
  {
    assert body[i] == q[i];
  }

  /** Every announcement line, with or without its newline, is classified as
      the field it announces; together with the contract of GetMetadata this
      says that exactly these lines are recognised. */
  lemma GetMetadataOfAnnounce(f: Field, v: string, eol: string)
    requires '\n' !in v
    requires eol == "" || eol == "\n"
    ensures GetMetadata(Announce(f, v) + eol) == FieldValue(f, if IsQuoted(f) then v else Split(v, " ")[0])
  {
    var body := Announce(f, v);
    LineBodyOfAnnounce(f, v, eol);
    var p := if IsQuoted(f) then QuotedPrefix(f) else TrackLengthPrefix;
    assert StartsWith(body, p) by {
      assert body[..|p|] == p;
    }
    match f
    case Title =>
      BetweenOf(QuotedPrefix(Title), v, "\".");
    case Artist =>
      DistinctPrefixes(body, QuotedPrefix(Title), p, 0);
      BetweenMiss(body, QuotedPrefix(Title), "\".");
      BetweenOf(QuotedPrefix(Artist), v, "\".");
    case AlbumName =>
      DistinctPrefixes(body, QuotedPrefix(Title), p, 0);
      DistinctPrefixes(body, QuotedPrefix(Artist), p, 1);
      BetweenMiss(body, QuotedPrefix(Title), "\".");
      BetweenMiss(body, QuotedPrefix(Artist), "\".");
      BetweenOf(QuotedPrefix(AlbumName), v, "\".");
    case TrackLength =>
      DistinctPrefixes(body, QuotedPrefix(Title), p, 1);
      DistinctPrefixes(body, QuotedPrefix(Artist), p, 0);
      DistinctPrefixes(body, QuotedPrefix(AlbumName), p, 0);
      BetweenMiss(body, QuotedPrefix(Title), "\".");
      BetweenMiss(body, QuotedPrefix(Artist), "\".");
      BetweenMiss(body, QuotedPrefix(AlbumName), "\".");
      BetweenOf(TrackLengthPrefix, v, ".");
      TrackLengthBody(Announce(f, v) + eol, v);
  }

  /** A line whose body is no quoted field but has a Track length is read
      as the first token of that length. */
  lemma TrackLengthBody(line: string, raw: string)
    requires Between(LineBody(line), QuotedPrefix(Title), "\".") == None
    requires Between(LineBody(line), QuotedPrefix(Artist), "\".") == None
    requires Between(LineBody(line), QuotedPrefix(AlbumName), "\".") == None
    requires Between(LineBody(line), TrackLengthPrefix, ".") == Some(raw)
    ensures GetMetadata(line) == FieldValue(TrackLength, Split(raw, " ")[0])
  {
  }

  /** The first token is unique. */
  lemma FirstTokenUnique(raw: string, t: string, u: string)
    requires FirstTokenOf(raw, t) && FirstTokenOf(raw, u)
    ensures t == u
  {
    assert |t| < |raw| ==> raw[|t|] == (t + " ")[|t|];
    assert |u| < |raw| ==> raw[|u|] == (u + " ")[|u|];
    assert forall i :: 0 <= i < |t| ==> t[i] == raw[i];
    assert forall i :: 0 <= i < |u| ==> u[i] == raw[i];
  }

  /** `(t + ' ' + rest).split(' ')[0] == t` for a token `t` without spaces. */
  lemma SplitAtFirstSpace(t: string, rest: string)
    requires ' ' !in t
    ensures Split(t + " " + rest, " ")[0] == t
  {
    var raw := t + " " + rest;
    FirstTokenOfSplit(raw);
    assert raw[..|t + " "|] == t + " ";
    FirstTokenUnique(raw, t, Split(raw, " ")[0]);
  }

  // --- Persistent ID ---

  const PidLabel := "Persistent ID:"

  /** The group `0x[0-9a-fA-F]+` under `re.IGNORECASE`. */
  predicate IsPidToken(t: string) {
    && |t| >= 3
    && t[0] == '0'
    && AsciiLower(t[1]) == 'x'
    && forall i :: 2 <= i < |t| ==> IsHexDigit(t[i])
  }

  /** `line` matches `^Persistent ID:\s*(0x[0-9a-fA-F]+)\.\s*$` (case-insensitively)
      with the group `pid` starting at index `k`. */
  predicate PidLineAt(line: string, k: int, pid: string) {
    && IsPidToken(pid)
    && |PidLabel| <= k && k + |pid| < |line|
    && EqualsIgnoreCase(line[..|PidLabel|], PidLabel)
    && AllSpace(line[|PidLabel|..k])
    && line[k..k + |pid|] == pid
    && line[k + |pid|] == '.'
    && AllSpace(line[k + |pid| + 1..])
  }

  /** The group and the rest of the pattern, matched against the text
      that follows the label and its whitespace. */
  function PidToken(rest: string): (r: Option<string>)
    ensures r.Some? ==> IsPidToken(r.value) && |r.value| < |rest| && rest[..|r.value|] == r.value
    ensures r.Some? ==> rest[|r.value|] == '.' && AllSpace(rest[|r.value| + 1..])
  {
    if |rest| >= 2 && rest[0] == '0' && AsciiLower(rest[1]) == 'x' then
      var m := 2 + PrefixRun(rest[2..], IsHexDigit);
      if m > 2 && m < |rest| && rest[m] == '.' && AllSpace(rest[m + 1..]) then
        assert forall i :: 2 <= i < m ==> rest[..m][i] == rest[2..][i - 2];
        Some(rest[..m])
      else None
    else None
  }

  lemma PidTokenOf(rest: string, pid: string)
    requires IsPidToken(pid) && |pid| < |rest| && rest[..|pid|] == pid
    requires rest[|pid|] == '.' && AllSpace(rest[|pid| + 1..])
    ensures PidToken(rest) == Some(pid)
  {
    var m := |pid|;
    var hex := rest[2..];
    forall j | 0 <= j < m - 2 ensures IsHexDigit(hex[j]) {
      assert hex[j] == pid[j + 2];
    }
    assert hex[m - 2] == '.';
    PrefixRunIs(hex, IsHexDigit, m - 2);
    assert rest[0] == pid[0] && rest[1] == pid[1];
  }

  /** `get_persistent_id`: the hex token of a `Persistent ID` announcement, verbatim. */
  function GetPersistentId(line: string): (r: Option<string>)
    ensures r.Some? ==> exists k :: PidLineAt(line, k, r.value)
  {
    var n := |PidLabel|;
    if |line| < n || !EqualsIgnoreCase(line[..n], PidLabel) then None
    else
      var k := n + PrefixRun(line[n..], IsSpace);
      var r := PidToken(line[k..]);
      if r.Some? then
        PidLineFrom(line, k, r.value);
        r
      else r
  }

  /** The label, a run of whitespace after it up to `k`, and a token found
      at `k` make a match with its group at `k`. */
  lemma PidLineFrom(line: string, k: int, pid: string)
    requires |PidLabel| <= k <= |line|
    requires EqualsIgnoreCase(line[..|PidLabel|], PidLabel)
    requires forall j :: 0 <= j < k - |PidLabel| ==> IsSpace(line[|PidLabel|..][j])
    requires PidToken(line[k..]) == Some(pid)
    ensures PidLineAt(line, k, pid)
  {
    var n := |PidLabel|;
    assert line[n..k] == line[n..][..k - n];
    assert line[k..][|pid| + 1..] == line[k + |pid| + 1..];
  }

  /** Every line of the announcement's shape yields its token: with the
      contract of GetPersistentId, the token is found exactly on these lines. */
  lemma GetPersistentIdComplete(line: string, k: int, pid: string)
    requires PidLineAt(line, k, pid)
    ensures GetPersistentId(line) == Some(pid)
  {
    PidLineSpaceRun(line, k, pid);
    PidLineToken(line, k, pid);
  }

  lemma PidLineSpaceRun(line: string, k: int, pid: string)
    requires PidLineAt(line, k, pid)
    ensures PrefixRun(line[|PidLabel|..], IsSpace) == k - |PidLabel|
  {
    var n := |PidLabel|;
    var tail := line[n..];
    assert tail[k - n] == line[k] == pid[0];
    forall j | 0 <= j < k - n ensures IsSpace(tail[j]) {
      assert tail[j] == line[n..k][j];
    }
    PrefixRunIs(tail, IsSpace, k - n);
  }

  lemma PidLineToken(line: string, k: int, pid: string)
    requires PidLineAt(line, k, pid)
    ensures PidToken(line[k..]) == Some(pid)
  {
    var rest := line[k..];
    assert rest[|pid| + 1..] == line[k + |pid| + 1..];
    PidTokenOf(rest, pid);
  }

  lemma PersistentIdIff(line: string, pid: string)
    ensures GetPersistentId(line) == Some(pid) <==> exists k :: PidLineAt(line, k, pid)
  {
    if k :| PidLineAt(line, k, pid) {
      GetPersistentIdComplete(line, k, pid);
    }
  }

  /** The announcement line the upstream reader prints for a track's persistent ID. */
  function PidAnnounce(pid: string): string {
    PidLabel + " " + pid + "."
  }

  lemma GetPersistentIdOfAnnounce(pid: string, eol: string)
    requires IsPidToken(pid) && AllSpace(eol)
    ensures GetPersistentId(PidAnnounce(pid) + eol) == Some(pid)
  {
    var line := PidAnnounce(pid) + eol;
    var k := |PidLabel| + 1;
    assert line == PidLabel + " " + pid + "." + eol;
    assert line[..|PidLabel|] == PidLabel;
    assert line[|PidLabel|..k] == " ";
    assert line[k..k + |pid|] == pid;
    assert line[k + |pid| + 1..] == eol;
    GetPersistentIdComplete(line, k, pid);
  }

  /** The label is compared as Python's `re` compares it under
      `IGNORECASE`: a long s in `Persistent` still matches. */
  lemma LongSInLabelMatches()
    ensures GetPersistentId("Per\U{17f}istent ID: 0x1.") == Some("0x1")
  {
    var line := "Per\U{17f}istent ID: 0x1.";
    var k := |PidLabel| + 1;
    assert line[..|PidLabel|] == "Per\U{17f}istent ID:";
    assert EqualsIgnoreCase(line[..|PidLabel|], PidLabel);
    assert line[|PidLabel|..k] == " ";
    assert line[k..k + 3] == "0x1";
    assert line[k + 4..] == "";
    GetPersistentIdComplete(line, k, "0x1");
  }

  /** A `Persistent ID` line is never a field announcement. */
  lemma PidLineIsNotAField(line: string)
    requires GetPersistentId(line).Some?
    ensures GetMetadata(line) == Unrecognised
  {
    var body := LineBody(line);
    PidLineInitial(line);
    assert body[0] == line[0];
    forall f: Field | IsQuoted(f) ensures !StartsWith(body, QuotedPrefix(f)) {
      assert QuotedPrefix(f)[0] != line[0];
    }
    assert !StartsWith(body, TrackLengthPrefix) by {
      assert TrackLengthPrefix[0] != line[0];
    }
  }

  /** A `Persistent ID` line starts with 'P' or 'p'. */
  lemma PidLineInitial(line: string)
    requires GetPersistentId(line).Some?
    ensures |line| > 0 && AsciiLower(line[0]) == 'p'
  {
    var k :| PidLineAt(line, k, GetPersistentId(line).value);
    assert IgnoreCaseFold(line[..|PidLabel|][0]) == IgnoreCaseFold(PidLabel[0]);
  }

  /** No field announcement is a `Persistent ID` line. */
  lemma AnnounceIsNotPid(f: Field, v: string, eol: string)
    ensures GetPersistentId(Announce(f, v) + eol) == None
  {
    var line := Announce(f, v) + eol;
    assert line[0] == Announce(f, v)[0] == Key(f)[0];
    if GetPersistentId(line).Some? {
      PidLineInitial(line);
      assert false;
    }
  }

  // --- Startup ---

  predicate IsPidRecord(ln: string) {
    StartsWith(ln, "PID=")
  }

  /** `ln.split('=', 1)` on a `PID=` line: the label and everything after it. */
  lemma PidRecordSplit(ln: string)
    requires IsPidRecord(ln)
    ensures SplitOnce(ln, '=') == ["PID", ln[4..]]
  {
    assert ln[..3] == ln[..4][..3] == "PID";
    SplitOnceAt(ln, '=', 3);
  }

  /** `lines[i]` is the first line of the status file that starts with `PID=`. */
  predicate FirstPidRecordAt(lines: seq<string>, i: int) {
    && 0 <= i < |lines|
    && IsPidRecord(lines[i])
    && forall j :: 0 <= j < i ==> !IsPidRecord(lines[j])
  }

  /** The PID `read_pid_from_aplmeta` recovers from the status file's lines:
      the stripped text after `PID=` on the first line that starts with it. */
  function FirstPidIn(lines: seq<string>): Option<string> {
    if |lines| == 0 then None
    else if IsPidRecord(lines[0]) then Some(Strip(lines[0][4..]))
    else FirstPidIn(lines[1..])
  }

  function StatusFilePid(file: Option<seq<string>>): Option<string> {
    match file
    case None => None
    case Some(lines) => FirstPidIn(lines)
  }

  /** `read_pid_from_aplmeta`: `file` is the status file as Python iterates
      it, line by line, or None when it does not exist or cannot be read. The
      result is the text after the first `=` of the first `PID=` line, stripped. */
  method ReadPidFromStatusFile(file: Option<seq<string>>) returns (pid: Option<string>)
    ensures file.None? ==> pid.None?
    ensures file.Some? && pid.None? ==>
      forall j :: 0 <= j < |file.value| ==> !IsPidRecord(file.value[j])
    ensures pid.Some? ==>
      file.Some? && exists i :: FirstPidRecordAt(file.value, i) && pid.value == Strip(file.value[i][4..])
    ensures pid == StatusFilePid(file)
  {
    if file.None? {
      return None;
    }
    var lines := file.value;
    var i := 0;
    assert lines[i..] == lines;
    while i < |lines|
      invariant 0 <= i <= |lines|
      invariant forall j :: 0 <= j < i ==> !IsPidRecord(lines[j])
      invariant FirstPidIn(lines[i..]) == FirstPidIn(lines)
    {
      var ln := lines[i];
      if StartsWith(ln, "PID=") {
        PidRecordSplit(ln);
        var parts := SplitOnce(ln, '=');
        assert FirstPidRecordAt(lines, i);
        return Some(Strip(parts[1]));
      }
      assert lines[i..][1..] == lines[i + 1..];
      i := i + 1;
    }
    return None;
  }
}
