/**
 * The logger handed to the downloader. It remembers the id of the video whose
 * URL the downloader last announced in a debug message, and when an error
 * message says that a video is unavailable it records that id twice: as a
 * watch URL in the unavailable-videos log, and as a `youtube <id>` line in the
 * download archive, so that later runs skip the video.
 *
 * Both files are opened for appending; the model keeps the lines this logger
 * appends, in order. Printing is not modelled.
 */
module DownloadLogger {
  import opened Options
  import opened PyStrings

  const WatchUrl: string := "https://www.youtube.com/watch?v="
  /** `[youtube] Extracting URL: https://www.youtube.com/watch?v=` */
  const ExtractMarker: string := "[youtube] Extracting URL: " + WatchUrl
  const UnavailableMarker: string := "Video unavailable."
  const ArchivePrefix: string := "youtube "

  /**
   * `msg.split(marker)[1]`: the text after the first occurrence of `marker`,
   * up to its next occurrence or to the end of `msg`.
   */
  function TextAfter(msg: string, marker: string): (field: string)
    requires |marker| > 0 && Contains(msg, marker)
    ensures var start := Find(msg, marker).value + |marker|;
      start + |field| <= |msg| && msg[start..start + |field|] == field &&
      (start + |field| == |msg| || OccursAt(msg, marker, start + |field|))
    ensures var start := Find(msg, marker).value + |marker|;
      forall p :: start <= p < start + |field| ==> !OccursAt(msg, marker, p)
    ensures !Contains(field, marker)
  {
    var start := Find(msg, marker).value + |marker|;
    var rest := msg[start..];
    OccurrencesAfter(msg, marker, start);
    match Find(rest, marker)
    case None => rest
    case Some(j) =>
      OccurrencesBefore(rest, marker, j);
      rest[..j]
  }

  /** The occurrences in `msg[start..]` are those of `msg` at or after `start`, shifted. */
  lemma OccurrencesAfter(msg: string, marker: string, start: nat)
    requires start <= |msg|
    ensures forall p :: start <= p ==> (OccursAt(msg, marker, p) <==> OccursAt(msg[start..], marker, p - start))
  {
    forall p | start <= p
      ensures OccursAt(msg, marker, p) <==> OccursAt(msg[start..], marker, p - start)
    {
      if p + |marker| <= |msg| {
        assert msg[start..][p - start..p - start + |marker|] == msg[p..p + |marker|];
      }
    }
  }

  /** An occurrence in a prefix `s[..j]` is an occurrence in `s`. */
  lemma OccurrencesBefore(s: string, marker: string, j: nat)
    requires j <= |s|
    ensures forall p :: OccursAt(s[..j], marker, p) ==> OccursAt(s, marker, p)
  {
    forall p | OccursAt(s[..j], marker, p)
      ensures OccursAt(s, marker, p)
    {
      assert s[..j][p..p + |marker|] == s[p..p + |marker|];
    }
  }

  /**
   * The video id a debug message carries, if it announces a URL: the text
   * after the marker, which itself never holds the marker.
   */
  function VideoIdIn(msg: string): (id: Option<string>)
    ensures id.None? <==> forall p :: !OccursAt(msg, ExtractMarker, p)
    ensures id.Some? ==> !Contains(id.value, ExtractMarker)
    ensures id.Some? ==> exists p :: OccursAt(msg, ExtractMarker + id.value, p)
  {
    if Contains(msg, ExtractMarker) then
      MarkerThenField(msg, ExtractMarker);
      Some(TextAfter(msg, ExtractMarker))
    else None
  }

  /** The first marker and the text after it occur together in the message. */
  lemma MarkerThenField(msg: string, marker: string)
    requires |marker| > 0 && Contains(msg, marker)
    ensures OccursAt(msg, marker + TextAfter(msg, marker), Find(msg, marker).value)
  {
    var i := Find(msg, marker).value;
    var field := TextAfter(msg, marker);
    var m := |marker|;
    assert msg[i..i + m + |field|] == msg[i..i + m] + msg[i + m..i + m + |field|];
  }

  /** An occurrence of `sub` begins with the first character of `sub`. */
  lemma NoOccurrenceAt(s: string, sub: string, p: int)
    requires 0 <= p < |s| && |sub| > 0 && s[p] != sub[0]
    ensures !OccursAt(s, sub, p)
  {
  }

  /**
   * A message made of a prefix without `[`, the marker, and an id without the
   * marker yields exactly that id. The yt-dlp message itself has an empty prefix.
   */
  lemma VideoIdRoundTrip(prefix: string, id: string)
    requires '[' !in prefix && !Contains(id, ExtractMarker)
    ensures VideoIdIn(prefix + ExtractMarker + id) == Some(id)
  {
    var m := ExtractMarker;
    var msg := prefix + m + id;
    assert m[0] == '[';
    assert msg[|prefix|..|prefix| + |m|] == m;
    ContainsAt(msg, m, |prefix|);
    forall p | 0 <= p < |prefix|
      ensures !OccursAt(msg, m, p)
    {
      assert msg[p] == prefix[p];
      NoOccurrenceAt(msg, m, p);
    }
    var i := Find(msg, m).value;
    assert OccursAt(msg, m, i) && OccursAt(msg, m, |prefix|);
    assert i == |prefix|;
    assert msg[|prefix| + |m|..] == id;
  }

  /** The logger's state: the current video id and the lines it appended to the two files. */
  class UnavailableSubsLogger {
    var currentVideoId: string
    var unavailableLines: seq<string>
    var archiveLines: seq<string>
    ghost var reported: seq<string>

    /** Each reported id has one line in each file, at the same position. */
    ghost predicate Valid()
      reads this
    {
      |unavailableLines| == |reported| && |archiveLines| == |reported| &&
      forall i :: 0 <= i < |reported| ==>
        unavailableLines[i] == WatchUrl + reported[i] + "\n" &&
        archiveLines[i] == ArchivePrefix + reported[i] + "\n"
    }

    constructor ()
      ensures Valid()
      ensures currentVideoId == "" && reported == []
    {
      currentVideoId := "";
      unavailableLines, archiveLines := [], [];
      reported := [];
    }

    /** A debug message that announces a URL makes its id the current one. */
    method Debug(msg: string)
      requires Valid()
      modifies this
      ensures Valid()
      ensures currentVideoId == match VideoIdIn(msg) case Some(id) => id case None => old(currentVideoId)
      ensures unavailableLines == old(unavailableLines) && archiveLines == old(archiveLines)
      ensures reported == old(reported)
    {
      if Contains(msg, ExtractMarker) {
        currentVideoId := TextAfter(msg, ExtractMarker);
      }
    }

    /** An error message about an unavailable video records the current id in both files. */
    method Error(msg: string)
      requires Valid()
      modifies this
      ensures Valid()
      ensures currentVideoId == old(currentVideoId)
      ensures reported == if Contains(msg, UnavailableMarker) then old(reported) + [currentVideoId] else old(reported)
      ensures unavailableLines == if Contains(msg, UnavailableMarker)
        then old(unavailableLines) + [WatchUrl + currentVideoId + "\n"] else old(unavailableLines)
      ensures archiveLines == if Contains(msg, UnavailableMarker)
        then old(archiveLines) + [ArchivePrefix + currentVideoId + "\n"] else old(archiveLines)
    {
      if Contains(msg, UnavailableMarker) {
        unavailableLines := unavailableLines + [WatchUrl + currentVideoId + "\n"];
        archiveLines := archiveLines + [ArchivePrefix + currentVideoId + "\n"];
        reported := reported + [currentVideoId];
      }
    }
  }

  /**
   * A fresh logger that sees the URL announcement of video `id` and then an
   * unavailable-video error records `id` once in each file.
   */
  method AnnounceThenUnavailable(id: string, errorMsg: string)
    returns (unavailable: seq<string>, archive: seq<string>)
    requires !Contains(id, ExtractMarker) && Contains(errorMsg, UnavailableMarker)
    ensures unavailable == [WatchUrl + id + "\n"]
    ensures archive == [ArchivePrefix + id + "\n"]
  {
    var logger := new UnavailableSubsLogger();
    VideoIdRoundTrip("", id);
    assert "" + ExtractMarker + id == ExtractMarker + id;
    logger.Debug(ExtractMarker + id);
    logger.Error(errorMsg);
    unavailable, archive := logger.unavailableLines, logger.archiveLines;
  }
}
