/**
 * The string logic of the LCD updater: reading MoOde's `currentsong.txt`
 * into a key/value map, choosing between the Spotify metadata and the
 * status map, and turning the `coverurl` entry into an image URL. The files
 * are given as the sequences of lines Python iterates over (each with its
 * line terminator, if any); an exception that escapes `getMetaData` is an
 * `Err`.
 */
module LcdUpdater {
  import opened Wrappers
  import opened Text

  /** The exceptions `getMetaData` can raise on well-read files. */
  datatype MetaError =
    | MissingSeparator(line: nat)  // ValueError: the stripped line at this index has no '='
    | MissingCoverUrl              // AttributeError: `None.replace`, no `coverurl` key
    | MissingSpotifyArtist         // IndexError: `spotdata[1]` on a first line without `~~~`

  /** The triple `getMetaData` returns; `None` where `dict.get` found no key. */
  datatype NowPlaying = NowPlaying(imageUrl: string, song: Option<string>, artist: Option<string>)

  // --- currentsong.txt ---

  /** `key, value = line.strip().split('=', 1)`: `None` where the unpacking fails. */
  function KeyValue(line: string): (r: Option<(string, string)>)
    ensures r.None? <==> '=' !in Strip(line)
    ensures r.Some? ==> Strip(line) == r.value.0 + "=" + r.value.1 && '=' !in r.value.0
  {
    var parts := SplitOnce(Strip(line), '=');
    if |parts| == 1 then None else Some((parts[0], parts[1]))
  }

  /** The value may itself contain '=': only the first one separates. */
  lemma KeyValueOf(key: string, value: string)
    requires '=' !in key
    requires key == [] || !IsSpace(key[0])
    requires value == [] || !IsSpace(value[|value| - 1])
    ensures KeyValue(key + "=" + value) == Some((key, value))
  {
    var line := key + "=" + value;
    assert line[0] == if key == [] then '=' else key[0];
    assert line[|line| - 1] == if value == [] then '=' else value[|value| - 1];
    StripUnpadded(line);
    SplitOnceOf(key, '=', value);
    assert SplitOnce(Strip(line), '=') == [key, value];
  }

  /** One parsed line: a key and a value, or `None` where the unpacking fails. */
  type Entry = Option<(string, string)>

  /** Entry `i` is the first that failed. */
  predicate FirstFailure(entries: seq<Entry>, i: int) {
    && 0 <= i < |entries|
    && entries[i].None?
    && forall j :: 0 <= j < i ==> entries[j].Some?
  }

  /** Some entry binds `key`. */
  ghost predicate Binds(entries: seq<Entry>, key: string) {
    exists i :: 0 <= i < |entries| && entries[i].Some? && entries[i].value.0 == key
  }

  /** The `for` loop of lines 29-31 on parsed lines: each entry in turn
      assigns `data[key] = value`, and the first failure raises. */
  function DictOf(entries: seq<Entry>): (r: Result<map<string, string>, MetaError>)
    ensures r.Ok? <==> forall i :: 0 <= i < |entries| ==> entries[i].Some?
    ensures r.Err? ==> r.error.MissingSeparator? && FirstFailure(entries, r.error.line)
    ensures r.Ok? ==> forall key :: key in r.value <==> Binds(entries, key)
    decreases |entries|
  {
    if |entries| == 0 then Ok(map[])
    else
      var n := |entries| - 1;
      var prefix := entries[..n];
      assert forall i :: 0 <= i < n ==> prefix[i] == entries[i];
      match DictOf(prefix)
      case Err(e) => Err(e)
      case Ok(data) =>
        match entries[n]
        case None => Err(MissingSeparator(n))
        case Some(kv) =>
          var r := data[kv.0 := kv.1];
          assert forall key :: key in r <==> Binds(entries, key) by {
            forall key ensures key in r <==> Binds(entries, key) {
              if key in data {
                var i :| 0 <= i < n && prefix[i].Some? && prefix[i].value.0 == key;
                assert entries[i] == prefix[i];
              }
              if Binds(entries, key) && key != kv.0 {
                var i :| 0 <= i < |entries| && entries[i].Some? && entries[i].value.0 == key;
                assert i < n;
                assert Binds(prefix, key);
              }
            }
          }
          Ok(r)
  }

  /** A key's value is the one of the last entry that binds it. */
  lemma {:induction false} DictOfLastValueWins(entries: seq<Entry>, i: nat, key: string, value: string)
    requires DictOf(entries).Ok?
    requires i < |entries| && entries[i] == Some((key, value))
    requires forall j :: i < j < |entries| ==> !(entries[j].Some? && entries[j].value.0 == key)
    ensures key in DictOf(entries).value && DictOf(entries).value[key] == value
  {
    var n := |entries| - 1;
    var prefix := entries[..n];
    assert entries[n].Some?;
    if i < n {
      assert prefix[i] == entries[i];
      assert forall j :: i < j < |prefix| ==> prefix[j] == entries[j];
      DictOfLastValueWins(prefix, i, key, value);
    }
  }

  /** Only the first failure counts: a failing prefix fails the whole. */
  lemma DictOfFailsOnce(entries: seq<Entry>, m: nat)
    requires m <= |entries| && DictOf(entries[..m]).Err?
    ensures DictOf(entries) == DictOf(entries[..m])
  {
    var e := DictOf(entries[..m]).error.line;
    assert FirstFailure(entries[..m], e);
    assert entries[..m][e] == entries[e];
    assert forall j :: 0 <= j < e ==> entries[..m][j] == entries[j];
    assert FirstFailure(entries, e);
    FirstFailureUnique(entries, e, DictOf(entries).error.line);
  }

  lemma FirstFailureUnique(entries: seq<Entry>, i: int, j: int)
    requires FirstFailure(entries, i) && FirstFailure(entries, j)
    ensures i == j
  {
    assert !(i < j) && !(j < i);
  }

  /** Each line as `line.strip().split('=', 1)` unpacks it. */
  function Entries(lines: seq<string>): seq<Entry> {
    seq(|lines|, i requires 0 <= i < |lines| => KeyValue(lines[i]))
  }

  /** Lines 27-31: the dictionary the status file yields, or the exception
      raised by its first line without '='. */
  function StatusMap(lines: seq<string>): Result<map<string, string>, MetaError> {
    DictOf(Entries(lines))
  }

  /** A later line setting the same key overwrites an earlier one. */
  lemma LastValueWins(lines: seq<string>, i: nat, key: string, value: string)
    requires StatusMap(lines).Ok?
    requires i < |lines| && KeyValue(lines[i]) == Some((key, value))
    requires forall j :: i < j < |lines| ==> !(KeyValue(lines[j]).Some? && KeyValue(lines[j]).value.0 == key)
    ensures key in StatusMap(lines).value && StatusMap(lines).value[key] == value
  {
    DictOfLastValueWins(Entries(lines), i, key, value);
  }

  /** Lines 27-31: the `for` loop filling `data`, raising on a line without '='. */
  method ParseStatusLines(lines: seq<string>) returns (r: Result<map<string, string>, MetaError>)
    ensures r == StatusMap(lines)
  {
    ghost var entries := Entries(lines);
    assert |entries| == |lines|;
    var data: map<string, string> := map[];
    for i := 0 to |lines|
      invariant DictOf(entries[..i]) == Ok(data)
    {
      assert entries[..i + 1][..i] == entries[..i];
      var kv := KeyValue(lines[i]);
      assert entries[i] == kv;
      if kv.None? {
        assert DictOf(entries[..i + 1]) == Err(MissingSeparator(i));
        DictOfFailsOnce(entries, i + 1);
        return Err(MissingSeparator(i));
      }
      data := data[kv.value.0 := kv.value.1];
    }
    assert entries[..|lines|] == entries;
    return Ok(data);
  }

  /** `dict.get`. */
  function Get(data: map<string, string>, key: string): Option<string> {
    if key in data then Some(data[key]) else None
  }

  // --- The cover URL ---

  const EncodedSlash := "%2F"
  const LocalWebRoot := "http://localhost/"

  /** `coverurl.replace('%2F', '/')`. */
  function DecodeSlashes(coverurl: string): string {
    ReplaceAll(coverurl, EncodedSlash, "/")
  }

  /** Every `%2F` becomes '/', and the text between them, other
      percent-escapes included, is kept as it is. */
  lemma DecodeSlashesSplit(coverurl: string)
    ensures DecodeSlashes(coverurl) == Join(Split(coverurl, EncodedSlash), "/")
  {
    ReplaceAllIsJoinOfSplit(coverurl, EncodedSlash, "/");
  }

  /** Up to the first '/' it produces, decoding copies its input. */
  lemma {:induction false} DecodedPrefix(s: string, k: nat)
    requires k <= |DecodeSlashes(s)|
    ensures '/' in DecodeSlashes(s)[..k] || (k <= |s| && s[..k] == DecodeSlashes(s)[..k])
    decreases |s|
  {
    var d := DecodeSlashes(s);
    if k > 0 {
      if |s| < 3 {
        assert d == s;
      } else if s[..3] == EncodedSlash {
        assert d[..k][0] == '/';
      } else {
        var tail := DecodeSlashes(s[1..]);
        assert d == [s[0]] + tail;
        assert d[..k] == [s[0]] + tail[..k - 1];
        DecodedPrefix(s[1..], k - 1);
        if k <= |s| {
          assert s[..k] == [s[0]] + s[1..][..k - 1];
        }
      }
    }
  }

  /** Text that does not start with `%2F` does not decode to text that does. */
  lemma DecodedStart(s: string)
    requires |s| >= 3 && s[..3] != EncodedSlash
    ensures !OccursAt(DecodeSlashes(s), EncodedSlash, 0)
  {
    var d := DecodeSlashes(s);
    var tail := DecodeSlashes(s[1..]);
    assert d == [s[0]] + tail;
    if |tail| >= 2 {
      DecodedPrefix(s[1..], 2);
      assert d[..3] == [s[0]] + tail[..2];
      assert s[..3] == [s[0]] + s[1..][..2];
      assert '/' !in EncodedSlash[1..];
    }
  }

  /** No `%2F` is left after decoding, not even one made of the pieces around a
      replaced occurrence. */
  lemma {:induction false} NoEncodedSlashLeft(s: string)
    ensures !Contains(DecodeSlashes(s), EncodedSlash)
    decreases |s|
  {
    var d := DecodeSlashes(s);
    if |s| < 3 {
      assert d == s;
    } else if s[..3] == EncodedSlash {
      var tail := DecodeSlashes(s[3..]);
      assert d == "/" + tail;
      forall i | OccursAt(d, EncodedSlash, i) ensures OccursAt(tail, EncodedSlash, i - 1) {
        assert d[i] == '%';
        OccursInTail("/", tail, EncodedSlash, i);
      }
      NoEncodedSlashLeft(s[3..]);
    } else {
      var tail := DecodeSlashes(s[1..]);
      assert d == [s[0]] + tail;
      DecodedStart(s);
      forall i | OccursAt(d, EncodedSlash, i) ensures OccursAt(tail, EncodedSlash, i - 1) {
        OccursInTail([s[0]], tail, EncodedSlash, i);
      }
      NoEncodedSlashLeft(s[1..]);
    }
  }

  /** Lines 35-38: the image URL of a local file or a radio stream. */
  function CoverImageUrl(coverurl: string): (r: string)
    ensures StartsWith(r, LocalWebRoot)
  {
    var decoded := DecodeSlashes(coverurl);
    var path := if StartsWith(decoded, "/") then decoded[1..] else decoded;
    LocalWebRoot + path
  }

  /** The image URL is `http://localhost/`, then the `%2F`-separated pieces
      of the cover URL joined with '/', less one leading '/'. */
  lemma CoverImageUrlOfPieces(coverurl: string)
    ensures var pieces := Join(Split(coverurl, EncodedSlash), "/");
      CoverImageUrl(coverurl) == LocalWebRoot + if StartsWith(pieces, "/") then pieces[1..] else pieces
  {
    DecodeSlashesSplit(coverurl);
  }

  /** The image URL carries no `%2F`. */
  lemma ImageUrlHasNoEncodedSlash(coverurl: string)
    ensures !Contains(CoverImageUrl(coverurl), EncodedSlash)
  {
    var d := DecodeSlashes(coverurl);
    var shift := if StartsWith(d, "/") then 1 else 0;
    var path := d[shift..];
    var url := LocalWebRoot + path;
    assert CoverImageUrl(coverurl) == url;
    assert '%' !in LocalWebRoot;
    ContainedInTail(LocalWebRoot, path, EncodedSlash);
    assert d == d[..shift] + path;
    ContainedInWhole(d[..shift], path, EncodedSlash);
    NoEncodedSlashLeft(coverurl);
  }

  /** A local file's `/`-rooted path and a stream's relative path name the same image. */
  lemma CoverImageUrlOfRootedPath(p: string)
    ensures CoverImageUrl("/" + p) == LocalWebRoot + DecodeSlashes(p)
    ensures !StartsWith(DecodeSlashes(p), "/") ==> CoverImageUrl(p) == CoverImageUrl("/" + p)
  {
    ReplaceAllSkips("/", p, EncodedSlash, "/");
    assert ("/" + DecodeSlashes(p))[1..] == DecodeSlashes(p);
  }

  /** Only one leading '/' is removed, and an encoded one counts as a '/'. */
  lemma CoverImageUrlStripsOneSlash(p: string)
    ensures CoverImageUrl(EncodedSlash + "/" + p) == LocalWebRoot + "/" + DecodeSlashes(p)
  {
    var s := EncodedSlash + "/" + p;
    assert s[..3] == EncodedSlash;
    assert s[3..] == "/" + p;
    ReplaceAllSkips("/", p, EncodedSlash, "/");
    assert DecodeSlashes(s) == "/" + ("/" + DecodeSlashes(p));
  }

  // --- spotmeta.txt ---

  const SpotSeparator := "~~~"
  const SpotifyActive := "Spotify Active"

  predicate IsHttpItem(item: string) {
    StartsWith(item, "http")
  }

  /** `next((item.strip() for item in items if item.startswith("http")), None)`. */
  function FirstHttpItem(items: seq<string>): (r: Option<string>)
    ensures r.None? <==> forall i :: 0 <= i < |items| ==> !IsHttpItem(items[i])
    ensures r.Some? ==> exists i :: FirstHttpAt(items, i) && r.value == Strip(items[i])
    ensures r.Some? ==> IsHttpItem(r.value)
  {
    if |items| == 0 then None
    else if IsHttpItem(items[0]) then
      assert FirstHttpAt(items, 0);
      StripKeepsPrefix(items[0], "http");
      Some(Strip(items[0]))
    else
      var r := FirstHttpItem(items[1..]);
      if r.Some? then
        var i :| FirstHttpAt(items[1..], i) && r.value == Strip(items[1..][i]);
        FirstHttpAtShift(items, i);
        r
      else
        assert forall j :: 1 <= j < |items| ==> items[j] == items[1..][j - 1];
        r
  }

  /** Item `i` is the first that starts with `http`. */
  predicate FirstHttpAt(items: seq<string>, i: int) {
    && 0 <= i < |items|
    && IsHttpItem(items[i])
    && forall j :: 0 <= j < i ==> !IsHttpItem(items[j])
  }

  /** Behind a leading item that is not a URL, the first URL moves up by one. */
  lemma FirstHttpAtShift(items: seq<string>, i: int)
    requires |items| > 0 && !IsHttpItem(items[0]) && FirstHttpAt(items[1..], i)
    ensures FirstHttpAt(items, i + 1) && items[i + 1] == items[1..][i]
  {
    assert forall j :: 1 <= j <= i + 1 ==> items[j] == items[1..][j - 1];
  }

  /** The generator's search runs on into the items that follow. */
  lemma {:induction false} FirstHttpItemAppend(a: seq<string>, b: seq<string>)
    ensures FirstHttpItem(a + b) == if FirstHttpItem(a).Some? then FirstHttpItem(a) else FirstHttpItem(b)
  {
    if |a| > 0 {
      assert (a + b)[0] == a[0];
      assert (a + b)[1..] == a[1..] + b;
      FirstHttpItemAppend(a[1..], b);
    } else {
      assert a + b == b;
    }
  }

  /** The `~~~` items of one stripped line. */
  function LineItems(line: string): seq<string> {
    Split(Strip(line), SpotSeparator)
  }

  /** Every item of every line, in order. */
  function AllItems(lines: seq<string>): seq<string> {
    if |lines| == 0 then [] else LineItems(lines[0]) + AllItems(lines[1..])
  }

  /** Line 52's nested generator, `None` for its default. */
  function FirstHttpInLines(lines: seq<string>): (r: Option<string>)
    ensures r.Some? ==> IsHttpItem(r.value)
  {
    if |lines| == 0 then None
    else
      var found := FirstHttpItem(LineItems(lines[0]));
      if found.Some? then found else FirstHttpInLines(lines[1..])
  }

  /** The nested generator searches the items of all the lines as one sequence. */
  lemma {:induction false} FirstHttpInLinesIsFirstOfAll(lines: seq<string>)
    ensures FirstHttpInLines(lines) == FirstHttpItem(AllItems(lines))
  {
    if |lines| > 0 {
      FirstHttpItemAppend(LineItems(lines[0]), AllItems(lines[1..]));
      FirstHttpInLinesIsFirstOfAll(lines[1..]);
    }
  }

  /** The first line as `readline` returns it: "" for an empty file. */
  function FirstSpotLine(spotLines: seq<string>): string {
    if |spotLines| == 0 then "" else spotLines[0]
  }

  /** The lines the loop of line 52 goes on to read. */
  function LaterSpotLines(spotLines: seq<string>): seq<string> {
    if |spotLines| == 0 then [] else spotLines[1..]
  }

  /** Lines 44-53: song and artist are the first two `~~~` fields of the
      first line as read, and the image URL is the first item, stripped, that
      starts with `http` among the first line's raw fields and then the
      stripped fields of the later lines, or "" when there is none. */
  function SpotMetaData(spotLines: seq<string>): (r: Result<NowPlaying, MetaError>)
    ensures r.Err? <==> !Contains(FirstSpotLine(spotLines), SpotSeparator)
    ensures r.Err? ==> r.error == MissingSpotifyArtist
    ensures r.Ok? ==> r.value.song.Some? && r.value.artist.Some?
    ensures r.Ok? ==>
      var line := FirstSpotLine(spotLines);
      var song := r.value.song.value;
      && StartsWith(line, song + SpotSeparator)
      && FirstField(line, SpotSeparator, song)
      && FirstField(line[|song| + |SpotSeparator|..], SpotSeparator, r.value.artist.value)
    ensures r.Ok? ==>
      r.value.imageUrl == match FirstHttpItem(Split(FirstSpotLine(spotLines), SpotSeparator) + AllItems(LaterSpotLines(spotLines)))
                          case Some(u) => u
                          case None => ""
    ensures r.Ok? ==> r.value.imageUrl == "" || IsHttpItem(r.value.imageUrl)
  {
    var spotdata := Split(FirstSpotLine(spotLines), SpotSeparator);
    if |spotdata| < 2 then
      SplitIsWhole(FirstSpotLine(spotLines), SpotSeparator);
      Err(MissingSpotifyArtist)
    else
      var onFirst := FirstHttpItem(spotdata);
      var later := FirstHttpInLines(LaterSpotLines(spotLines));
      var imageurl :=
        if onFirst.Some? && onFirst.value != "" then onFirst.value
        else match later
             case Some(u) => u
             case None => "";
      SplitIsWhole(FirstSpotLine(spotLines), SpotSeparator);
      SplitFirstField(FirstSpotLine(spotLines), SpotSeparator);
      SplitFirstField(FirstSpotLine(spotLines)[|spotdata[0]| + |SpotSeparator|..], SpotSeparator);
      FirstHttpItemAppend(spotdata, AllItems(LaterSpotLines(spotLines)));
      FirstHttpInLinesIsFirstOfAll(LaterSpotLines(spotLines));
      Ok(NowPlaying(imageurl, Some(spotdata[0]), Some(spotdata[1])))
  }

  /** Conversely, the text before the first `~~~` of the first line is the
      song and the text after it, up to the next `~~~`, the artist, taken
      verbatim and unstripped, whatever else the fields hold. */
  lemma SpotSongAndArtist(spotLines: seq<string>, song: string, artist: string)
    requires |spotLines| > 0
    requires StartsWith(spotLines[0], song + SpotSeparator) && FirstField(spotLines[0], SpotSeparator, song)
    requires FirstField(spotLines[0][|song| + |SpotSeparator|..], SpotSeparator, artist)
    ensures SpotMetaData(spotLines).Ok?
    ensures SpotMetaData(spotLines).value.song == Some(song)
    ensures SpotMetaData(spotLines).value.artist == Some(artist)
  {
    var line := spotLines[0];
    StartsWithOccurs(line, song, SpotSeparator);
    SplitIsWhole(line, SpotSeparator);
    SplitHeadIff(line, SpotSeparator, song);
    SplitFirstField(line, SpotSeparator);
    SplitHeadIff(line[|song| + |SpotSeparator|..], SpotSeparator, artist);
  }

  // --- getMetaData ---

  /** Lines 32-40: the Spotify metadata when `file` is `Spotify Active`,
      otherwise the cover URL, title and artist of the status map. */
  function SelectSource(data: map<string, string>, spotLines: seq<string>): (r: Result<NowPlaying, MetaError>)
    ensures Get(data, "file") == Some(SpotifyActive) ==> r == SpotMetaData(spotLines)
    ensures Get(data, "file") != Some(SpotifyActive) ==> (r.Err? <==> "coverurl" !in data)
    ensures Get(data, "file") != Some(SpotifyActive) && r.Ok? ==>
      && r.value.imageUrl == CoverImageUrl(data["coverurl"])
      && StartsWith(r.value.imageUrl, LocalWebRoot)
      && !Contains(r.value.imageUrl, EncodedSlash)
      && r.value.song == Get(data, "title") && r.value.artist == Get(data, "artist")
  {
    if Get(data, "file") == Some(SpotifyActive) then SpotMetaData(spotLines)
    else if "coverurl" !in data then Err(MissingCoverUrl)
    else
      ImageUrlHasNoEncodedSlash(data["coverurl"]);
      Ok(NowPlaying(CoverImageUrl(data["coverurl"]), Get(data, "title"), Get(data, "artist")))
  }

  /** Lines 26-42: `getMetaData` on the two files' lines. */
  function MetaData(statusLines: seq<string>, spotLines: seq<string>): Result<NowPlaying, MetaError> {
    match StatusMap(statusLines)
    case Err(e) => Err(e)
    case Ok(data) => SelectSource(data, spotLines)
  }

  method GetMetaData(statusLines: seq<string>, spotLines: seq<string>) returns (r: Result<NowPlaying, MetaError>)
    ensures r == MetaData(statusLines, spotLines)
  {
    var parsed := ParseStatusLines(statusLines);
    if parsed.Err? {
      return Err(parsed.error);
    }
    r := SelectSource(parsed.value, spotLines);
  }

  /** A status file without a `coverurl` line, outside Spotify, makes
      `getMetaData` raise. */
  lemma NoCoverUrlFails(statusLines: seq<string>, spotLines: seq<string>)
    requires forall i :: 0 <= i < |statusLines| ==> KeyValue(statusLines[i]).Some?
    requires forall i :: 0 <= i < |statusLines| ==> KeyValue(statusLines[i]).value.0 !in {"coverurl", "file"}
    ensures MetaData(statusLines, spotLines) == Err(MissingCoverUrl)
  {
    var entries := Entries(statusLines);
    assert forall i :: 0 <= i < |entries| ==>
      entries[i].Some? && entries[i].value.0 != "coverurl" && entries[i].value.0 != "file";
    assert !Binds(entries, "coverurl") && !Binds(entries, "file");
  }

  /** The parse error of the first line without '=' is what `getMetaData` raises. */
  lemma BadStatusLineFails(statusLines: seq<string>, spotLines: seq<string>, i: nat)
    requires i < |statusLines| && KeyValue(statusLines[i]).None?
    requires forall j :: 0 <= j < i ==> KeyValue(statusLines[j]).Some?
    ensures MetaData(statusLines, spotLines) == Err(MissingSeparator(i))
  {
    assert FirstFailure(Entries(statusLines), i);
    FirstFailureUnique(Entries(statusLines), i, StatusMap(statusLines).error.line);
  }
}
