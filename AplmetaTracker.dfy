/**
 * The per-line state machine of the AirPlay metadata reader (aplmeta.py,
 * lines 139-205): it tracks the persistent ID of the current track,
 * accumulates title, artist, album and duration, and once the first three
 * are set and a cover-art file exists, writes the status record, notifies
 * the front-end and starts over.
 *
 * The cover directory listing (`glob.glob`) is an input of every step, and
 * the file writes and the front-end command are returned as effects.
 * `Next` is the step as a function of the session; `Tracker` is the
 * source's module globals as a class whose `Step` is proved to follow it.
 */
module AplmetaTracker {
  import opened Wrappers
  import opened Text
  import opened AplmetaLines

  const CoversWebRoot := "imagesw/airplay-covers/"
  const FormatTag := "ALAC/AAC"
  const Delimiter := "~~~"
  const FrontEndCommand := "update_aplmeta,"

  /** What one line makes the reader do outside itself. */
  datatype Effect =
    | WriteStatusFile(text: string)     // whole-file overwrite of aplmeta.txt
    | SendFrontEndCommand(arg: string)  // send-fecmd.php with this one argument

  /** Python truthiness of a string that may be None. */
  predicate Truthy(o: Option<string>) {
    o.Some? && o.value != ""
  }

  /** The module globals `title`, `artist`, `album`, `duration`, `current_pid`. */
  datatype Session = Session(
    title: Option<string>,
    artist: Option<string>,
    album: Option<string>,
    duration: string,
    pid: Option<string>)

  datatype Transition = Transition(next: Session, effects: seq<Effect>)

  /** The globals when the loop starts, with the PID read from the status file. */
  function Initial(startupPid: Option<string>): Session {
    Session(None, None, None, "0", startupPid)
  }

  /** The reset: the three fields unset, the duration back to '0', the PID kept. */
  function Cleared(s: Session): Session {
    s.(title := None, artist := None, album := None, duration := "0")
  }

  function PidRecord(pid: string): string {
    "PID=" + pid + "\n"
  }

  /** The record `write_default_metadata_with_pid` writes (its empty-string
      operands dropped): five fields. */
  function PlaceholderRecord(): string {
    var cover := CoversWebRoot + "notfound.jpg";
    "" + Delimiter + "airplay source" + Delimiter + "0" + Delimiter + cover + Delimiter + FormatTag
  }

  function PlaceholderWrite(pid: string): Effect {
    WriteStatusFile(PlaceholderRecord() + "\n" + PidRecord(pid))
  }

  function CoverUrl(coverPath: string): string {
    CoversWebRoot + Basename(coverPath)
  }

  function ComposeRecord(title: string, artist: string, album: string, duration: string, coverUrl: string): string {
    title + Delimiter + artist + Delimiter + album + Delimiter + duration + Delimiter + coverUrl + Delimiter + FormatTag
  }

  /** The status file after an emission: the record, then the PID if one is known. */
  function RecordWrite(record: string, pid: Option<string>): Effect {
    WriteStatusFile(record + "\n" + (if Truthy(pid) then PidRecord(pid.value) else ""))
  }

  /** A field's slot; the duration is always set. */
  function Slot(s: Session, f: Field): Option<string> {
    match f
    case Title => s.title
    case Artist => s.artist
    case AlbumName => s.album
    case TrackLength => Some(s.duration)
  }

  /** `update_globals`. */
  function WithField(s: Session, f: Field, v: string): Session {
    match f
    case Title => s.(title := Some(v))
    case Artist => s.(artist := Some(v))
    case AlbumName => s.(album := Some(v))
    case TrackLength => s.(duration := v)
  }

  /** `artist and title and album`. */
  predicate Complete(s: Session) {
    Truthy(s.artist) && Truthy(s.title) && Truthy(s.album)
  }

  /** Lines 145-157: the persistent-ID check. */
  function PidStage(s: Session, line: string): Transition {
    match GetPersistentId(line)
    case None => Transition(s, [])
    case Some(pid) =>
      if Truthy(s.pid) && pid != s.pid.value then
        Transition(Cleared(s).(pid := Some(pid)), [PlaceholderWrite(pid)])
      else
        Transition(s.(pid := Some(pid)), [])
  }

  /** Lines 161-164: a recognised field with a non-empty value is stored. */
  function FieldStage(s: Session, line: string): Session {
    match GetMetadata(line)
    case FieldValue(f, v) => if v != "" then WithField(s, f, v) else s
    case Unrecognised => s
  }

  /** Lines 167-206: with all three fields set and a cover file listed, the
      record is written and sent and the fields are reset. */
  function CompletionStage(s: Session, listing: seq<string>): Transition {
    if Complete(s) && |listing| > 0 then
      var record := ComposeRecord(s.title.value, s.artist.value, s.album.value, s.duration, CoverUrl(listing[0]));
      Transition(Cleared(s), [RecordWrite(record, s.pid), SendFrontEndCommand(FrontEndCommand + record)])
    else
      Transition(s, [])
  }

  /** One pass of the loop body for one input line and the cover listing of that moment. */
  function Next(s: Session, line: string, listing: seq<string>): Transition {
    var a := PidStage(s, line);
    var b := CompletionStage(FieldStage(a.next, line), listing);
    Transition(b.next, a.effects + b.effects)
  }

  /** The loop over a finite input, `listings[i]` being the listing seen on line `i`. */
  function RunLines(s: Session, lines: seq<string>, listings: seq<seq<string>>): Transition
    requires |listings| == |lines|
    decreases |lines|
  {
    if |lines| == 0 then Transition(s, [])
    else
      var n := |lines| - 1;
      var t := RunLines(s, lines[..n], listings[..n]);
      var u := Next(t.next, lines[n], listings[n]);
      Transition(u.next, t.effects + u.effects)
  }

  /** The reader's globals, updated in place line by line. */
  class Tracker {
    var title: Option<string>
    var artist: Option<string>
    var album: Option<string>
    var duration: string
    var currentPid: Option<string>

    function State(): Session
      reads this
    {
      Session(title, artist, album, duration, currentPid)
    }

    /** Lines 43-49 and 133: the globals at startup. */
    constructor (startupPid: Option<string>)
      ensures State() == Initial(startupPid)
    {
      title, artist, album, duration := None, None, None, "0";
      currentPid := startupPid;
    }

    method UpdateField(f: Field, v: string)
      modifies this
      ensures State() == WithField(old(State()), f, v)
    {
      match f
      case Title => title := Some(v);
      case Artist => artist := Some(v);
      case AlbumName => album := Some(v);
      case TrackLength => duration := v;
    }

    method ResetFields()
      modifies this
      ensures State() == Cleared(old(State()))
    {
      artist := None;
      title := None;
      album := None;
      duration := "0";
    }

    /** The loop body for one line. */
    method Step(line: string, listing: seq<string>) returns (effects: seq<Effect>)
      modifies this
      ensures Transition(State(), effects) == Next(old(State()), line, listing)
    {
      var pidEffects := CheckPid(line);
      StoreField(line);
      var completionEffects := EmitIfComplete(listing);
      effects := pidEffects + completionEffects;
    }

    /** Lines 145-157: the persistent-ID check. */
    method CheckPid(line: string) returns (effects: seq<Effect>)
      modifies this
      ensures Transition(State(), effects) == PidStage(old(State()), line)
    {
      effects := [];
      var pid := GetPersistentId(line);
      if pid.Some? {
        if Truthy(currentPid) && pid.value != currentPid.value {
          effects := [PlaceholderWrite(pid.value)];
          ResetFields();
        }
        currentPid := pid;
      }
    }

    /** Lines 161-164: store a recognised field with a non-empty value. */
    method StoreField(line: string)
      modifies this
      ensures State() == FieldStage(old(State()), line)
    {
      var announcement := GetMetadata(line);
      if announcement.FieldValue? && announcement.value != "" {
        UpdateField(announcement.field, announcement.value);
      }
    }

    /** Lines 167-206: emit the record once complete and a cover is listed. */
    method EmitIfComplete(listing: seq<string>) returns (effects: seq<Effect>)
      modifies this
      ensures Transition(State(), effects) == CompletionStage(old(State()), listing)
    {
      effects := [];
      if Truthy(artist) && Truthy(title) && Truthy(album) {
        if |listing| > 0 {
          var record := ComposeRecord(title.value, artist.value, album.value, duration, CoverUrl(listing[0]));
          effects := [RecordWrite(record, currentPid), SendFrontEndCommand(FrontEndCommand + record)];
          ResetFields();
        }
      }
    }

    /** The forever loop over a finite input. */
    method Run(lines: seq<string>, listings: seq<seq<string>>) returns (effects: seq<Effect>)
      requires |listings| == |lines|
      modifies this
      ensures Transition(State(), effects) == RunLines(old(State()), lines, listings)
    {
      effects := [];
      var i := 0;
      while i < |lines|
        invariant 0 <= i <= |lines|
        invariant Transition(State(), effects) == RunLines(old(State()), lines[..i], listings[..i])
      {
        var more := Step(lines[i], listings[i]);
        effects := effects + more;
        assert lines[..i + 1][..i] == lines[..i];
        assert listings[..i + 1][..i] == listings[..i];
        i := i + 1;
      }
      assert lines[..i] == lines && listings[..i] == listings;
    }
  }

  // --- Properties of one step ---

  /** A field line changes exactly its own slot. */
  lemma FieldLineUpdatesOnlyItsSlot(s: Session, line: string, f: Field, v: string)
    requires GetMetadata(line) == FieldValue(f, v) && v != ""
    ensures forall g :: Slot(FieldStage(s, line), g) == (if g == f then Some(v) else Slot(s, g))
    ensures FieldStage(s, line).pid == s.pid
  {
  }

  /** A field line with an empty value changes nothing. */
  lemma EmptyValueIgnored(s: Session, line: string)
    requires GetMetadata(line).FieldValue? && GetMetadata(line).value == ""
    ensures FieldStage(s, line) == s
  {
  }

  /** Set fields are never empty strings ... */
  predicate FilledNonEmpty(s: Session) {
    && (s.title.Some? ==> s.title.value != "")
    && (s.artist.Some? ==> s.artist.value != "")
    && (s.album.Some? ==> s.album.value != "")
  }

  lemma FieldStageKeepsFilledNonEmpty(s: Session, line: string)
    requires FilledNonEmpty(s)
    ensures FilledNonEmpty(FieldStage(s, line))
  {
    var ann := GetMetadata(line);
    if ann.FieldValue? && ann.value != "" {
      assert FieldStage(s, line) == WithField(s, ann.field, ann.value);
    } else {
      assert FieldStage(s, line) == s;
    }
  }

  /** ... and every step keeps it so, */
  lemma NextKeepsFilledNonEmpty(s: Session, line: string, listing: seq<string>)
    requires FilledNonEmpty(s)
    ensures FilledNonEmpty(Next(s, line, listing).next)
  {
    var a := PidStage(s, line).next;
    assert a == s.(pid := a.pid) || a == Cleared(s).(pid := a.pid);
    FieldStageKeepsFilledNonEmpty(a, line);
    var b := FieldStage(a, line);
    assert Next(s, line, listing).next == CompletionStage(b, listing).next;
  }

  /** ... so the completion test amounts to all three being set. */
  lemma CompleteIffAllSet(s: Session)
    requires FilledNonEmpty(s)
    ensures Complete(s) <==> s.title.Some? && s.artist.Some? && s.album.Some?
  {
  }

  /** A line that announces no field only goes through the PID check and
      the completion check. */
  lemma NextOfUnrecognised(s: Session, line: string, listing: seq<string>)
    requires GetMetadata(line) == Unrecognised
    ensures var a := PidStage(s, line);
      var b := CompletionStage(a.next, listing);
      Next(s, line, listing) == Transition(b.next, a.effects + b.effects)
  {
  }

  /** A persistent-ID line: a differing PID while one is tracked writes the
      placeholder and resets; otherwise nothing is reset and only a pending
      record may go out. Either way the parsed PID becomes the tracked one. */
  lemma PidLineStep(s: Session, line: string, listing: seq<string>)
    requires GetPersistentId(line).Some?
    ensures var pid := GetPersistentId(line).value;
      if Truthy(s.pid) && s.pid.value != pid then
        Next(s, line, listing) == Transition(Cleared(s).(pid := Some(pid)), [PlaceholderWrite(pid)])
      else
        Next(s, line, listing) == CompletionStage(s.(pid := Some(pid)), listing)
    ensures Next(s, line, listing).next.pid == GetPersistentId(line)
  {
    var pid := GetPersistentId(line).value;
    PidLineIsNotAField(line);
    NextOfUnrecognised(s, line, listing);
    var a := PidStage(s, line);
    assert a == if Truthy(s.pid) && s.pid.value != pid
      then Transition(Cleared(s).(pid := Some(pid)), [PlaceholderWrite(pid)])
      else Transition(s.(pid := Some(pid)), []);
    var b := CompletionStage(a.next, listing);
    if Truthy(s.pid) && s.pid.value != pid {
      assert !Complete(a.next);
      assert b == Transition(a.next, []);
      assert a.effects + [] == a.effects;
    } else {
      assert a.effects == [];
      assert [] + b.effects == b.effects;
    }
  }

  /** The same PID again writes no placeholder and resets nothing. */
  lemma RepeatedPidIsQuiet(s: Session, line: string, listing: seq<string>)
    requires GetPersistentId(line).Some? && GetPersistentId(line) == s.pid
    ensures Next(s, line, listing) == CompletionStage(s, listing)
    ensures !Complete(s) ==> Next(s, line, listing) == Transition(s, [])
  {
    PidLineStep(s, line, listing);
  }

  /** With no PID known at startup (none found, or an empty value) the first
      PID line writes nothing and resets nothing. */
  lemma FirstPidAfterStartupIsQuiet(startupPid: Option<string>, line: string, listing: seq<string>)
    requires startupPid == None || startupPid == Some("")
    requires GetPersistentId(line).Some?
    ensures Next(Initial(startupPid), line, listing) == Transition(Initial(GetPersistentId(line)), [])
  {
    PidLineStep(Initial(startupPid), line, listing);
  }

  /** The placeholder record is five `~~~`-separated fields, one fewer than
      a track record: an empty title, "airplay source", duration "0", the
      not-found cover and the format. */
  lemma PlaceholderHasFiveFields()
    ensures Split(PlaceholderRecord(), Delimiter)
      == ["", "airplay source", "0", CoversWebRoot + "notfound.jpg", FormatTag]
  {
    var cover := CoversWebRoot + "notfound.jpg";
    var p1 := [""];
    var p2 := p1 + ["airplay source"];
    var p3 := p2 + ["0"];
    var p4 := p3 + [cover];
    var parts := p4 + [FormatTag];
    JoinSnoc(p1, "airplay source", Delimiter);
    JoinSnoc(p2, "0", Delimiter);
    JoinSnoc(p3, cover, Delimiter);
    JoinSnoc(p4, FormatTag, Delimiter);
    PlaceholderFieldsPlain(parts);
    SplitOfJoin(parts, Delimiter);
  }

  lemma PlaceholderFieldsPlain(parts: seq<string>)
    requires parts == ["", "airplay source", "0", CoversWebRoot + "notfound.jpg", FormatTag]
    ensures forall k :: 0 <= k < |parts| ==> '~' !in parts[k]
  {
  }

  /** A track record splits back into its six fields when none holds a '~'. */
  lemma RecordHasSixFields(title: string, artist: string, album: string, duration: string, coverUrl: string)
    requires '~' !in title && '~' !in artist && '~' !in album && '~' !in duration && '~' !in coverUrl
    ensures Split(ComposeRecord(title, artist, album, duration, coverUrl), Delimiter)
      == [title, artist, album, duration, coverUrl, FormatTag]
  {
    var p1 := [title];
    var p2 := p1 + [artist];
    var p3 := p2 + [album];
    var p4 := p3 + [duration];
    var p5 := p4 + [coverUrl];
    var parts := p5 + [FormatTag];
    JoinSnoc(p1, artist, Delimiter);
    JoinSnoc(p2, album, Delimiter);
    JoinSnoc(p3, duration, Delimiter);
    JoinSnoc(p4, coverUrl, Delimiter);
    JoinSnoc(p5, FormatTag, Delimiter);
    SplitOfJoin(parts, Delimiter);
  }

  /** The cover reference is the fixed web prefix and the listed file's name. */
  lemma CoverUrlNamesTheFile(coverPath: string)
    ensures var url := CoverUrl(coverPath);
      && StartsWith(url, CoversWebRoot)
      && '/' !in url[|CoversWebRoot|..]
      && EndsWith(coverPath, url[|CoversWebRoot|..])
      && var name := url[|CoversWebRoot|..];
         |name| < |coverPath| ==> coverPath[|coverPath| - |name| - 1] == '/'
  {
    var url := CoverUrl(coverPath);
    assert url[..|CoversWebRoot|] == CoversWebRoot;
    assert url[|CoversWebRoot|..] == Basename(coverPath);
  }

  /** A text that fits on one line of the status file and that stripping
      leaves as it is, as a PID read back at startup must be. */
  predicate PlainLine(t: string) {
    '\n' !in t && '\r' !in t && Strip(t) == t
  }

  /** Every PID an announcement yields is such a text. */
  lemma PidTokenIsPlain(pid: string)
    requires IsPidToken(pid)
    ensures PlainLine(pid)
  {
    forall i | 0 <= i < |pid| ensures pid[i] != '\n' && pid[i] != '\r' {
      if i >= 2 {
        assert IsHexDigit(pid[i]);
      }
    }
    assert IsHexDigit(pid[|pid| - 1]);
    StripUnpadded(pid);
  }

  /** The `PID=` line read back: its tail, stripped, is the PID. */
  lemma PidLineReadBack(pid: string)
    requires pid != "" && PlainLine(pid)
    ensures IsPidRecord(PidRecord(pid)) && Strip(PidRecord(pid)[4..]) == pid
  {
    assert PidRecord(pid)[..4] == "PID=";
    assert PidRecord(pid)[4..] == "" + pid + "\n";
    StripPadded("", pid, "\n");
  }

  /** A record whose title does not start with `PID=` is no `PID=` line. */
  lemma RecordIsNotPidLine(title: string, rest: string)
    requires !StartsWith(title, "PID=")
    ensures !IsPidRecord(title + Delimiter + rest + "\n")
  {
    var ln := title + Delimiter + rest + "\n";
    if |title| >= 4 {
      assert ln[..4] == title[..4];
    } else {
      assert ln[|title|] == '~';
    }
  }

  /** A two-line status file, read back at startup. */
  lemma TwoLineFilePid(text: string, a: string, b: string)
    requires NoLineBreak(a) && NoLineBreak(b) && text == a + "\n" + b + "\n"
    ensures StatusFilePid(Some(FileLines(text)))
      == if IsPidRecord(a + "\n") then Some(Strip((a + "\n")[4..]))
         else if IsPidRecord(b + "\n") then Some(Strip((b + "\n")[4..]))
         else None
  {
    FileLinesOfTwo(a, b);
    FirstPidOfTwo(a + "\n", b + "\n");
    FirstPidOfOne(b + "\n");
  }

  lemma FirstPidOfTwo(x: string, y: string)
    ensures FirstPidIn([x, y]) == if IsPidRecord(x) then Some(Strip(x[4..])) else FirstPidIn([y])
  {
    assert [x, y][1..] == [y];
  }

  lemma FirstPidOfOne(y: string)
    ensures FirstPidIn([y]) == if IsPidRecord(y) then Some(Strip(y[4..])) else None
  {
    assert [y][1..] == [];
  }

  lemma NoLineBreakConcat(x: string, y: string)
    requires NoLineBreak(x) && NoLineBreak(y)
    ensures NoLineBreak(x + y)
  {
  }

  /** A status file whose first line is no `PID=` line and whose second is
      the `PID=` line of `pid` gives back `pid`. */
  lemma SecondLinePid(text: string, a: string, pid: string)
    requires NoLineBreak(a) && !IsPidRecord(a + "\n")
    requires pid != "" && PlainLine(pid)
    requires text == a + "\n" + ("PID=" + pid) + "\n"
    ensures StatusFilePid(Some(FileLines(text))) == Some(pid)
  {
    TwoLineFilePid(text, a, "PID=" + pid);
    PidLineReadBack(pid);
  }

  /** The placeholder file gives back, at restart, the PID it was written for
      (aplmeta.py:108-114 written, aplmeta.py:95-105 read). */
  lemma PlaceholderPidReadBack(pid: string)
    requires pid != "" && PlainLine(pid)
    ensures StatusFilePid(Some(FileLines(PlaceholderWrite(pid).text))) == Some(pid)
  {
    PlaceholderRecordIsOneLine();
    SecondLinePid(PlaceholderWrite(pid).text, PlaceholderRecord(), pid);
  }

  lemma PlaceholderHeadIsOneLine()
    ensures NoLineBreak("" + Delimiter + "airplay source" + Delimiter + "0" + Delimiter)
  {
  }

  lemma NotFoundCoverIsOneLine()
    ensures NoLineBreak(CoversWebRoot + "notfound.jpg")
  {
  }

  lemma FormatFieldIsOneLine()
    ensures NoLineBreak(Delimiter + FormatTag)
  {
  }

  lemma PlaceholderRecordIsOneLine()
    ensures NoLineBreak(PlaceholderRecord()) && !IsPidRecord(PlaceholderRecord() + "\n")
  {
    var rec := PlaceholderRecord();
    var cover := CoversWebRoot + "notfound.jpg";
    var head := "" + Delimiter + "airplay source" + Delimiter + "0" + Delimiter;
    PlaceholderHeadIsOneLine();
    NotFoundCoverIsOneLine();
    FormatFieldIsOneLine();
    NoLineBreakConcat(head, cover);
    NoLineBreakConcat(head + cover, Delimiter + FormatTag);
    assert rec == head + cover + (Delimiter + FormatTag);
    assert (rec + "\n")[0] == '~';
  }

  /** A record file gives back, at restart, the PID written after the record,
      or nothing when no truthy PID was known (aplmeta.py:187-193 written,
      aplmeta.py:95-105 read), provided no field breaks the record's line
      and the title does not start with `PID=`. */
  lemma RecordPidReadBack(title: string, artist: string, album: string, duration: string, coverUrl: string,
                          pid: Option<string>)
    requires NoLineBreak(title) && NoLineBreak(artist) && NoLineBreak(album)
    requires NoLineBreak(duration) && NoLineBreak(coverUrl)
    requires !StartsWith(title, "PID=")
    requires Truthy(pid) ==> PlainLine(pid.value)
    ensures var rec := ComposeRecord(title, artist, album, duration, coverUrl);
      StatusFilePid(Some(FileLines(RecordWrite(rec, pid).text))) == if Truthy(pid) then pid else None
  {
    var rest := RecordTail(artist, album, duration, coverUrl);
    var rec := ComposeRecord(title, artist, album, duration, coverUrl);
    RecordIsOneLine(title, artist, album, duration, coverUrl);
    RecordIsNotPidLine(title, rest);
    if Truthy(pid) {
      SecondLinePid(RecordWrite(rec, pid).text, rec, pid.value);
    } else {
      FileLinesOfOne(rec);
      assert RecordWrite(rec, pid).text == rec + "\n";
      FirstPidOfOne(rec + "\n");
    }
  }

  /** The record after its title and first delimiter. */
  function RecordTail(artist: string, album: string, duration: string, coverUrl: string): string {
    artist + Delimiter + album + Delimiter + duration + Delimiter + coverUrl + Delimiter + FormatTag
  }

  lemma RecordIsOneLine(title: string, artist: string, album: string, duration: string, coverUrl: string)
    requires NoLineBreak(title) && NoLineBreak(artist) && NoLineBreak(album)
    requires NoLineBreak(duration) && NoLineBreak(coverUrl)
    ensures var rec := ComposeRecord(title, artist, album, duration, coverUrl);
      && rec == title + Delimiter + RecordTail(artist, album, duration, coverUrl)
      && NoLineBreak(rec)
  {
  }

  predicate NoLineBreak(t: string) {
    '\n' !in t && '\r' !in t
  }

  /** A title that starts with `PID=` makes the record line look like the
      PID line: at restart the rest of the record, never a PID, is read back
      in place of the PID written after it. */
  lemma PidTitleMisread(title: string, artist: string, album: string, duration: string, coverUrl: string,
                        pid: Option<string>)
    requires NoLineBreak(title) && NoLineBreak(artist) && NoLineBreak(album)
    requires NoLineBreak(duration) && NoLineBreak(coverUrl)
    requires StartsWith(title, "PID=") && |title| > 4 && !IsSpace(title[4])
    requires Truthy(pid) ==> NoLineBreak(pid.value)
    ensures var rec := ComposeRecord(title, artist, album, duration, coverUrl);
      && StatusFilePid(Some(FileLines(RecordWrite(rec, pid).text))) == Some(rec[4..])
      && !IsPidToken(rec[4..])
  {
    var rec := ComposeRecord(title, artist, album, duration, coverUrl);
    RecordIsOneLine(title, artist, album, duration, coverUrl);
    PidTitleLine(title, RecordTail(artist, album, duration, coverUrl));
    if Truthy(pid) {
      assert RecordWrite(rec, pid).text == rec + "\n" + ("PID=" + pid.value) + "\n";
      TwoLineFilePid(RecordWrite(rec, pid).text, rec, "PID=" + pid.value);
    } else {
      FileLinesOfOne(rec);
      assert RecordWrite(rec, pid).text == rec + "\n";
      FirstPidOfOne(rec + "\n");
    }
  }

  /** The record line of a `PID=` title, read as a `PID=` line. */
  lemma PidTitleLine(title: string, rest: string)
    requires StartsWith(title, "PID=") && |title| > 4 && !IsSpace(title[4])
    requires |rest| > 0 && rest[|rest| - 1] == 'C'
    ensures var rec := title + Delimiter + rest;
      && IsPidRecord(rec + "\n")
      && Strip((rec + "\n")[4..]) == rec[4..]
      && !IsPidToken(rec[4..])
  {
    var rec := title + Delimiter + rest;
    assert (rec + "\n")[..4] == rec[..4] == title[..4];
    var tail := rec[4..];
    assert (rec + "\n")[4..] == tail + "\n";
    assert tail[0] == title[4];
    assert tail[|tail| - 1] == rest[|rest| - 1];
    StripLineEnd(tail);
    assert tail[|title| - 4] == '~';
    TildeIsNoPid(tail, |title| - 4);
  }

  lemma StripLineEnd(t: string)
    requires |t| > 0 && !IsSpace(t[0]) && !IsSpace(t[|t| - 1])
    ensures Strip(t + "\n") == t
  {
    StripPadded("", t, "\n");
    assert "" + t + "\n" == t + "\n";
  }

  lemma TildeIsNoPid(t: string, i: int)
    requires 0 < i < |t| && t[i] == '~'
    ensures !IsPidToken(t)
  {
    if i >= 2 {
      assert !IsHexDigit(t[i]);
    }
  }

  /** With the fields complete and a cover file listed: the status file
      gets the record (whose fields RecordHasSixFields gives) and the PID
      line if a PID is known, the front-end gets `update_aplmeta,` and the
      record, and the fields are reset. */
  lemma EmissionWithCoverArt(s: Session, listing: seq<string>)
    requires Complete(s) && |listing| > 0
    ensures var record := ComposeRecord(s.title.value, s.artist.value, s.album.value, s.duration, CoverUrl(listing[0]));
      CompletionStage(s, listing) == Transition(Cleared(s), [
        WriteStatusFile(record + "\n" + (if Truthy(s.pid) then "PID=" + s.pid.value + "\n" else "")),
        SendFrontEndCommand("update_aplmeta," + record)])
  {
  }

  /** Without a cover file nothing is written, sent or reset, so a complete
      record stays pending and is tried again on the next line. */
  lemma NoCoverArtKeepsRecordPending(s: Session, line: string)
    requires Complete(FieldStage(PidStage(s, line).next, line))
    ensures Next(s, line, []).effects == PidStage(s, line).effects
    ensures Next(s, line, []).next == FieldStage(PidStage(s, line).next, line)
    ensures Complete(Next(s, line, []).next)
  {
  }

  /** Some effect of the step is the front-end command. */
  predicate Notifies(effects: seq<Effect>) {
    exists i :: 0 <= i < |effects| && effects[i].SendFrontEndCommand?
  }

  /** A step that notifies the front-end leaves all three fields unset. */
  lemma NotifyingStepClears(s: Session, line: string, listing: seq<string>)
    requires Notifies(Next(s, line, listing).effects)
    ensures var n := Next(s, line, listing).next;
      n.title.None? && n.artist.None? && n.album.None? && n.duration == "0"
  {
    var a := PidStage(s, line);
    assert !Notifies(a.effects);
    var b := CompletionStage(FieldStage(a.next, line), listing);
    assert b.effects != [];
  }

  /** From a state with none of the three fields set, no single line
      can complete the record. */
  lemma OneLineCannotComplete(s: Session, line: string, listing: seq<string>)
    requires s.title.None? && s.artist.None? && s.album.None?
    ensures !Notifies(Next(s, line, listing).effects)
  {
    var a := PidStage(s, line);
    PidStageQuiet(s, line);
    var t := FieldStage(a.next, line);
    FieldStageSetsOne(a.next, line);
    CompletionQuiet(a.effects, t, listing);
  }

  /** The PID check from a state with the three fields unset leaves them
      unset and sends nothing to the front-end. */
  lemma PidStageQuiet(s: Session, line: string)
    requires s.title.None? && s.artist.None? && s.album.None?
    ensures var a := PidStage(s, line);
      a.next.title.None? && a.next.artist.None? && a.next.album.None? && !Notifies(a.effects)
  {
  }

  /** Storing one line sets at most one of the three fields. */
  lemma FieldStageSetsOne(s: Session, line: string)
    requires s.title.None? && s.artist.None? && s.album.None?
    ensures var t := FieldStage(s, line);
      (t.title.None? && t.artist.None?) || (t.title.None? && t.album.None?) || (t.artist.None? && t.album.None?)
  {
  }

  /** The completion check on a state missing a field adds no effect. */
  lemma CompletionQuiet(before: seq<Effect>, t: Session, listing: seq<string>)
    requires !Notifies(before)
    requires (t.title.None? && t.artist.None?) || (t.title.None? && t.album.None?) || (t.artist.None? && t.album.None?)
    ensures !Notifies(before + CompletionStage(t, listing).effects)
  {
    assert CompletionStage(t, listing).effects == [];
    assert before + [] == before;
  }

  /** Once a record has gone out, the next line cannot send another: a
      duplicate announcement does not re-emit. */
  lemma NoSecondEmissionOnNextLine(s: Session, line: string, listing: seq<string>, line2: string, listing2: seq<string>)
    requires Notifies(Next(s, line, listing).effects)
    ensures !Notifies(Next(Next(s, line, listing).next, line2, listing2).effects)
  {
    NotifyingStepClears(s, line, listing);
    OneLineCannotComplete(Next(s, line, listing).next, line2, listing2);
  }

  // --- Properties of several steps ---

  /** A quoted field announcement stores its value and then, if that
      completes the record, emits it. */
  lemma FieldAnnounceStep(s: Session, f: Field, v: string, listing: seq<string>)
    requires IsQuoted(f) && v != "" && '\n' !in v
    ensures Next(s, Announce(f, v), listing) == CompletionStage(WithField(s, f, v), listing)
  {
    AnnounceIsNotPid(f, v, "");
    GetMetadataOfAnnounce(f, v, "");
    assert Announce(f, v) + "" == Announce(f, v);
    NextOfFieldLine(s, Announce(f, v), f, v, listing);
  }

  /** A line that carries no PID and a non-empty field value stores the value
      and then checks for completion. */
  lemma NextOfFieldLine(s: Session, line: string, f: Field, v: string, listing: seq<string>)
    requires GetPersistentId(line) == None && GetMetadata(line) == FieldValue(f, v) && v != ""
    ensures Next(s, line, listing) == CompletionStage(WithField(s, f, v), listing)
  {
    assert PidStage(s, line) == Transition(s, []);
    assert FieldStage(s, line) == WithField(s, f, v);
  }

  /** The value announced for each of the three quoted fields. */
  function ValueOf(f: Field, title: string, artist: string, album: string): string {
    match f
    case Title => title
    case Artist => artist
    case AlbumName => album
    case TrackLength => ""
  }

  /** A quoted field's value is one of the three announced values. */
  lemma ValueOfPlain(f: Field, title: string, artist: string, album: string)
    requires IsQuoted(f)
    requires title != "" && artist != "" && album != ""
    requires '\n' !in title && '\n' !in artist && '\n' !in album
    ensures ValueOf(f, title, artist, album) != "" && '\n' !in ValueOf(f, title, artist, album)
  {
  }

  /** The three quoted fields in some order. */
  predicate IsArrivalOrder(a: Field, b: Field, c: Field) {
    IsQuoted(a) && IsQuoted(b) && IsQuoted(c) && a != b && b != c && a != c
  }

  function Announcements(a: Field, b: Field, c: Field, title: string, artist: string, album: string): seq<string> {
    [Announce(a, ValueOf(a, title, artist, album)),
     Announce(b, ValueOf(b, title, artist, album)),
     Announce(c, ValueOf(c, title, artist, album))]
  }

  /** After the three quoted fields in any order, each holds its announced value. */
  lemma ThreeFieldsSet(s: Session, a: Field, b: Field, c: Field, title: string, artist: string, album: string)
    requires IsArrivalOrder(a, b, c)
    ensures var s1 := WithField(s, a, ValueOf(a, title, artist, album));
      var s2 := WithField(s1, b, ValueOf(b, title, artist, album));
      && WithField(s2, c, ValueOf(c, title, artist, album))
         == s.(title := Some(title), artist := Some(artist), album := Some(album))
      && (s.title.None? && s.artist.None? && s.album.None? ==> !Complete(s1) && !Complete(s2))
  {
  }

  /** Running a further line continues from where the earlier lines left off. */
  lemma RunAppend(s: Session, lines: seq<string>, listings: seq<seq<string>>, line: string, listing: seq<string>)
    requires |listings| == |lines|
    ensures var t := RunLines(s, lines, listings);
      var u := Next(t.next, line, listing);
      RunLines(s, lines + [line], listings + [listing]) == Transition(u.next, t.effects + u.effects)
  {
    PrefixOfSnoc(lines, line);
    PrefixOfSnoc(listings, listing);
  }

  /** A quoted field announcement that does not complete the record only stores its value. */
  lemma QuietFieldStep(s: Session, f: Field, v: string, listing: seq<string>)
    requires IsQuoted(f) && v != "" && '\n' !in v && !Complete(WithField(s, f, v))
    ensures Next(s, Announce(f, v), listing) == Transition(WithField(s, f, v), [])
  {
    FieldAnnounceStep(s, f, v, listing);
  }

  /** A Track length announcement while the record is incomplete, or while
      no cover is listed, only stores the duration. */
  lemma TrackLengthStep(s: Session, length: string, listing: seq<string>)
    requires '\n' !in length && Split(length, " ")[0] != "" && (!Complete(s) || |listing| == 0)
    ensures Next(s, Announce(TrackLength, length), listing)
      == Transition(s.(duration := Split(length, " ")[0]), [])
  {
    var line := Announce(TrackLength, length);
    AnnounceIsNotPid(TrackLength, length, "");
    GetMetadataOfAnnounce(TrackLength, length, "");
    assert line + "" == line;
    NextOfFieldLine(s, line, TrackLength, Split(length, " ")[0], listing);
  }

  /** Three lines whose first two steps are quiet. */
  lemma RunThree(s: Session, lines: seq<string>, listings: seq<seq<string>>, s1: Session, s2: Session)
    requires |lines| == 3 && |listings| == 3
    requires Next(s, lines[0], listings[0]) == Transition(s1, [])
    requires Next(s1, lines[1], listings[1]) == Transition(s2, [])
    ensures RunLines(s, lines, listings) == Next(s2, lines[2], listings[2])
  {
    var ln1, ls1 := [lines[0]], [listings[0]];
    var ln2, ls2 := ln1 + [lines[1]], ls1 + [listings[1]];
    RunOne(s, lines[0], listings[0]);
    RunQuietPrefix(s, ln1, ls1, s1, lines[1], listings[1]);
    RunQuietPrefix(s, ln2, ls2, s2, lines[2], listings[2]);
    SeqOfThree(lines);
    SeqOfThree(listings);
  }

  lemma SeqOfThree<T>(xs: seq<T>)
    requires |xs| == 3
    ensures [xs[0]] + [xs[1]] + [xs[2]] == xs
  {
  }

  lemma SnocOfThree<T>(a: T, b: T, c: T, d: T)
    ensures [a, b, c] + [d] == [a, b, c, d]
  {
  }

  lemma SnocOfPrefix<T>(xs: seq<T>)
    requires |xs| > 0
    ensures xs[..|xs| - 1] + [xs[|xs| - 1]] == xs
  {
  }

  lemma PrefixOfSnoc<T>(xs: seq<T>, x: T)
    ensures (xs + [x])[..|xs|] == xs && (xs + [x])[|xs|] == x
  {
  }

  /** Running one line is taking one step. */
  lemma RunOne(s: Session, line: string, listing: seq<string>)
    ensures RunLines(s, [line], [listing]) == Next(s, line, listing)
  {
    var none: seq<Effect> := [];
    RunAppend(s, [], [], line, listing);
    PrefixOfSnoc([], line);
    PrefixOfSnoc([], listing);
    assert none + Next(s, line, listing).effects == Next(s, line, listing).effects;
  }

  /** After lines that produced nothing, the run continues as one step from where they left off. */
  lemma RunQuietPrefix(s: Session, lines: seq<string>, listings: seq<seq<string>>, t: Session, line: string, listing: seq<string>)
    requires |listings| == |lines| && RunLines(s, lines, listings) == Transition(t, [])
    ensures RunLines(s, lines + [line], listings + [listing]) == Next(t, line, listing)
  {
    var none: seq<Effect> := [];
    RunAppend(s, lines, listings, line, listing);
    assert none + Next(t, line, listing).effects == Next(t, line, listing).effects;
  }

  /** The Title, Artist and Album Name announcements, arriving in any order
      after a reset, emit one record with exactly those values, the duration
      held before the first of them, and the cover listed at the third; then
      the fields are reset. */
  lemma {:induction false} RecordIndependentOfArrivalOrder(
    s: Session, a: Field, b: Field, c: Field,
    title: string, artist: string, album: string, listings: seq<seq<string>>)
    requires s.title.None? && s.artist.None? && s.album.None?
    requires IsArrivalOrder(a, b, c)
    requires title != "" && artist != "" && album != ""
    requires '\n' !in title && '\n' !in artist && '\n' !in album
    requires |listings| == 3 && |listings[2]| > 0
    ensures var record := ComposeRecord(title, artist, album, s.duration, CoverUrl(listings[2][0]));
      RunLines(s, Announcements(a, b, c, title, artist, album), listings)
        == Transition(Cleared(s), [RecordWrite(record, s.pid), SendFrontEndCommand(FrontEndCommand + record)])
  {
    var va, vb, vc := ValueOf(a, title, artist, album), ValueOf(b, title, artist, album), ValueOf(c, title, artist, album);
    var s1 := WithField(s, a, va);
    var s2 := WithField(s1, b, vb);
    ThreeFieldsSet(s, a, b, c, title, artist, album);
    ValueOfPlain(a, title, artist, album);
    ValueOfPlain(b, title, artist, album);
    ValueOfPlain(c, title, artist, album);
    QuietFieldStep(s, a, va, listings[0]);
    QuietFieldStep(s1, b, vb, listings[1]);
    var lines := Announcements(a, b, c, title, artist, album);
    assert lines[0] == Announce(a, va) && lines[1] == Announce(b, vb) && lines[2] == Announce(c, vc);
    RunThree(s, lines, listings, s1, s2);
    FieldAnnounceStep(s2, c, vc, listings[2]);
    EmissionWithCoverArt(s.(title := Some(title), artist := Some(artist), album := Some(album)), listings[2]);
  }

  /** The duration goes into a record only if it arrived before the third
      quoted field: a Track length announced after it is kept for the next
      track instead. */
  lemma {:induction false} LateTrackLengthMissesRecord(
    s: Session, a: Field, b: Field, c: Field,
    title: string, artist: string, album: string, length: string, listings: seq<seq<string>>)
    requires s.title.None? && s.artist.None? && s.album.None?
    requires IsArrivalOrder(a, b, c)
    requires title != "" && artist != "" && album != ""
    requires '\n' !in title && '\n' !in artist && '\n' !in album && '\n' !in length
    requires Split(length, " ")[0] != ""
    requires |listings| == 4 && |listings[2]| > 0
    ensures var record := ComposeRecord(title, artist, album, s.duration, CoverUrl(listings[2][0]));
      RunLines(s, Announcements(a, b, c, title, artist, album) + [Announce(TrackLength, length)], listings)
        == Transition(Cleared(s).(duration := Split(length, " ")[0]),
                      [RecordWrite(record, s.pid), SendFrontEndCommand(FrontEndCommand + record)])
  {
    RecordIndependentOfArrivalOrder(s, a, b, c, title, artist, album, listings[..3]);
    RunAppend(s, Announcements(a, b, c, title, artist, album), listings[..3], Announce(TrackLength, length), listings[3]);
    SnocOfPrefix(listings);
    TrackLengthStep(Cleared(s), length, listings[3]);
  }

  /** As written, when the cover directory stays empty the three quoted
      fields and a later Track length produce no output at all: the fields
      stay set and the new duration is held with them. */
  lemma {:induction false} MissingCoverArtHoldsFields(
    s: Session, a: Field, b: Field, c: Field,
    title: string, artist: string, album: string, length: string)
    requires s.title.None? && s.artist.None? && s.album.None?
    requires IsArrivalOrder(a, b, c)
    requires title != "" && artist != "" && album != ""
    requires '\n' !in title && '\n' !in artist && '\n' !in album && '\n' !in length
    requires Split(length, " ")[0] != ""
    ensures RunLines(s, Announcements(a, b, c, title, artist, album) + [Announce(TrackLength, length)], [[], [], [], []])
      == Transition(s.(title := Some(title), artist := Some(artist), album := Some(album),
                       duration := Split(length, " ")[0]), [])
  {
    var va, vb, vc := ValueOf(a, title, artist, album), ValueOf(b, title, artist, album), ValueOf(c, title, artist, album);
    var s1 := WithField(s, a, va);
    var s2 := WithField(s1, b, vb);
    var s3 := WithField(s2, c, vc);
    ThreeFieldsSet(s, a, b, c, title, artist, album);
    ValueOfPlain(a, title, artist, album);
    ValueOfPlain(b, title, artist, album);
    ValueOfPlain(c, title, artist, album);
    QuietFieldStep(s, a, va, []);
    QuietFieldStep(s1, b, vb, []);
    FieldAnnounceStep(s2, c, vc, []);
    var lines := Announcements(a, b, c, title, artist, album);
    assert lines[0] == Announce(a, va) && lines[1] == Announce(b, vb) && lines[2] == Announce(c, vc);
    var none: seq<string> := [];
    assert CompletionStage(s3, none) == Transition(s3, []);
    RunThree(s, lines, [none, none, none], s1, s2);
    RunQuietPrefix(s, lines, [none, none, none], s3, Announce(TrackLength, length), none);
    SnocOfThree(none, none, none, none);
    TrackLengthStep(s3, length, none);
  }

  /** A record held for want of a cover goes out, with the duration held by
      then, on the first unrecognised line read once a cover file is listed. */
  lemma HeldRecordGoesOutWithCover(s: Session, line: string, listing: seq<string>)
    requires Complete(s) && |listing| > 0
    requires GetPersistentId(line).None? && GetMetadata(line).Unrecognised?
    ensures var record := ComposeRecord(s.title.value, s.artist.value, s.album.value, s.duration, CoverUrl(listing[0]));
      Next(s, line, listing)
        == Transition(Cleared(s), [RecordWrite(record, s.pid), SendFrontEndCommand(FrontEndCommand + record)])
  {
  }

  /** A record held for want of a cover is dropped when a different PID
      arrives first: the PID check clears the fields before the completion
      check, so only the placeholder is written and nothing is sent. */
  lemma HeldRecordDiscardedByNewPid(s: Session, line: string, listing: seq<string>)
    requires Complete(s) && Truthy(s.pid)
    requires GetPersistentId(line).Some? && GetPersistentId(line).value != s.pid.value
    ensures var pid := GetPersistentId(line).value;
      Next(s, line, listing) == Transition(Cleared(s).(pid := Some(pid)), [PlaceholderWrite(pid)])
    ensures !Notifies(Next(s, line, listing).effects)
  {
    PidLineStep(s, line, listing);
    assert !PlaceholderWrite(GetPersistentId(line).value).SendFrontEndCommand?;
  }

  /** After a restart that recovered a PID from the status file, announcing
      that PID again changes nothing, and a different one writes the
      placeholder and resets. */
  lemma RestartWithKnownPid(known: string, pid: string, listing: seq<string>)
    requires IsPidToken(known) && IsPidToken(pid)
    ensures var s := Initial(Some(known));
      && Next(s, PidAnnounce(known), listing) == Transition(s, [])
      && (pid != known ==>
            Next(s, PidAnnounce(pid), listing) == Transition(Initial(Some(pid)), [PlaceholderWrite(pid)]))
  {
    var s := Initial(Some(known));
    GetPersistentIdOfAnnounce(known, "");
    assert PidAnnounce(known) + "" == PidAnnounce(known);
    RepeatedPidIsQuiet(s, PidAnnounce(known), listing);
    GetPersistentIdOfAnnounce(pid, "");
    assert PidAnnounce(pid) + "" == PidAnnounce(pid);
    PidLineStep(s, PidAnnounce(pid), listing);
  }

  /** The label and the `x` are matched in any case, but the tracked PID is
      compared as a string: the same hex digits in another case are a new track. */
  lemma PidComparisonIsCaseSensitive(s: Session, listing: seq<string>)
    requires s.pid == Some("0xabc")
    ensures Next(s, PidAnnounce("0xABC"), listing)
      == Transition(Cleared(s).(pid := Some("0xABC")), [PlaceholderWrite("0xABC")])
  {
    GetPersistentIdOfAnnounce("0xABC", "");
    assert PidAnnounce("0xABC") + "" == PidAnnounce("0xABC");
    PidLineStep(s, PidAnnounce("0xABC"), listing);
  }
}
