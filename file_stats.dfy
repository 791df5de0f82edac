/**
 * The dashboard figures of `FileStats`: the number of files, the number whose
 * media type mentions "pdf", the number whose media type mentions "audio",
 * and the number created in the last seven days.
 */
module FileStats {
  import opened Text
  import opened Lists
  import opened FileData

  /** Seven days in milliseconds: the window of "Recent Uploads". */
  const WEEK_MS: int := 7 * 24 * 60 * 60 * 1000

  predicate IsPdf(f: FileRecord)
  {
    Contains(f.fileType, "pdf")
  }

  predicate IsAudio(f: FileRecord)
  {
    Contains(f.fileType, "audio")
  }

  /** Created no earlier than one week before `now` (the bound is inclusive). */
  predicate IsRecent(f: FileRecord, now: int)
  {
    f.createdAt >= now - WEEK_MS
  }

  /** The number of files whose media type contains "pdf". */
  function PdfCount(files: seq<FileRecord>): (n: nat)
    ensures n == |Positions(files, IsPdf)|
    ensures n <= |files|
  {
    FilterLengthCountsIndices(files, IsPdf);
    |Filter(files, IsPdf)|
  }

  /** The number of files whose media type contains "audio". */
  function AudioCount(files: seq<FileRecord>): (n: nat)
    ensures n == |Positions(files, IsAudio)|
    ensures n <= |files|
  {
    FilterLengthCountsIndices(files, IsAudio);
    |Filter(files, IsAudio)|
  }

  /** The number of files created within one week before `now`. */
  function RecentCount(files: seq<FileRecord>, now: int): (n: nat)
    ensures n == |Positions(files, f => IsRecent(f, now))|
    ensures n <= |files|
  {
    FilterLengthCountsIndices(files, f => IsRecent(f, now));
    |Filter(files, f => IsRecent(f, now))|
  }

  datatype Stats = Stats(totalFiles: nat, pdfCount: nat, audioCount: nat, recentFiles: nat)

  /** The four figures `FileStats` computes for `files` at time `now`. */
  function FileStatsOf(files: seq<FileRecord>, now: int): (s: Stats)
    ensures s.totalFiles == |files|
    ensures s.pdfCount <= s.totalFiles && s.audioCount <= s.totalFiles && s.recentFiles <= s.totalFiles
  {
    Stats(|files|, PdfCount(files), AudioCount(files), RecentCount(files, now))
  }

  /** The figures of a concatenation are the sums of the figures of its parts. */
  lemma CountsConcat(a: seq<FileRecord>, b: seq<FileRecord>, now: int)
    ensures PdfCount(a + b) == PdfCount(a) + PdfCount(b)
    ensures AudioCount(a + b) == AudioCount(a) + AudioCount(b)
    ensures RecentCount(a + b, now) == RecentCount(a, now) + RecentCount(b, now)
  {
    FilterConcat(a, b, IsPdf);
    FilterConcat(a, b, IsAudio);
    FilterConcat(a, b, f => IsRecent(f, now));
  }

  /** One more record raises the PDF count by one if it is a PDF, and by nothing otherwise. */
  lemma PdfCountAppend(files: seq<FileRecord>, f: FileRecord)
    ensures PdfCount(files + [f]) == PdfCount(files) + if IsPdf(f) then 1 else 0
  {
    FilterSnoc(files, f, IsPdf);
  }

  /** One more record raises the audio count by one if it is audio, and by nothing otherwise. */
  lemma AudioCountAppend(files: seq<FileRecord>, f: FileRecord)
    ensures AudioCount(files + [f]) == AudioCount(files) + if IsAudio(f) then 1 else 0
  {
    FilterSnoc(files, f, IsAudio);
  }

  /** One more record raises the recent count by one if it is recent, and by nothing otherwise. */
  lemma RecentCountAppend(files: seq<FileRecord>, f: FileRecord, now: int)
    ensures RecentCount(files + [f], now) == RecentCount(files, now) + if IsRecent(f, now) then 1 else 0
  {
    FilterSnoc(files, f, g => IsRecent(g, now));
  }

  /** A plain-text file is counted neither as a PDF nor as audio. */
  lemma PlainTextNotCounted(f: FileRecord)
    requires f.fileType == "text/plain"
    ensures !IsPdf(f) && !IsAudio(f)
    ensures PdfCount([f]) == 0 && AudioCount([f]) == 0
  {
    NotContainsMissingChar(f.fileType, "pdf", 1);
    NotContainsMissingChar(f.fileType, "audio", 1);
    PdfCountAppend([], f);
    AudioCountAppend([], f);
  }

  /** "application/pdf" is counted as a PDF and not as audio. */
  lemma PdfTypeCounted(f: FileRecord)
    requires f.fileType == "application/pdf"
    ensures IsPdf(f) && !IsAudio(f)
  {
    assert OccursAt(f.fileType, "pdf", 12);
    NotContainsMissingChar(f.fileType, "audio", 1);
  }

  /** "audio/mpeg" is counted as audio and not as a PDF. */
  lemma AudioTypeCounted(f: FileRecord)
    requires f.fileType == "audio/mpeg"
    ensures IsAudio(f) && !IsPdf(f)
  {
    assert OccursAt(f.fileType, "audio", 0);
    NotContainsMissingChar(f.fileType, "pdf", 2);
  }

  /** As time passes the recent count can only fall. */
  lemma RecentCountMonotone(files: seq<FileRecord>, earlier: int, later: int)
    requires earlier <= later
    ensures RecentCount(files, later) <= RecentCount(files, earlier)
  {
    FilterWeaker(files, f => IsRecent(f, later), f => IsRecent(f, earlier));
  }

  /**
   * One PDF, one audio file and one plain-text file: one PDF and one audio
   * file are counted; the plain-text file is in neither figure.
   */
  lemma ThreeTypesExample(pdf: FileRecord, audio: FileRecord, text: FileRecord, now: int)
    requires pdf.fileType == "application/pdf" && audio.fileType == "audio/mpeg" && text.fileType == "text/plain"
    ensures FileStatsOf([pdf, audio, text], now).totalFiles == 3
    ensures FileStatsOf([pdf, audio, text], now).pdfCount == 1
    ensures FileStatsOf([pdf, audio, text], now).audioCount == 1
  {
    PdfTypeCounted(pdf);
    AudioTypeCounted(audio);
    PlainTextNotCounted(text);
    assert PdfCount([pdf]) == 1 && AudioCount([pdf]) == 0 by {
      PdfCountAppend([], pdf);
      AudioCountAppend([], pdf);
    }
    assert [pdf] + [audio] == [pdf, audio];
    assert PdfCount([pdf, audio]) == 1 by {
      PdfCountAppend([pdf], audio);
    }
    assert AudioCount([pdf, audio]) == 1 by {
      AudioCountAppend([pdf], audio);
    }
    assert [pdf, audio] + [text] == [pdf, audio, text];
    assert PdfCount([pdf, audio, text]) == 1 by {
      PdfCountAppend([pdf, audio], text);
    }
    assert AudioCount([pdf, audio, text]) == 1 by {
      AudioCountAppend([pdf, audio], text);
    }
  }

  /** Files from today, three, seven and eight days ago: the first three are recent. */
  lemma RecentExample(a: FileRecord, b: FileRecord, c: FileRecord, d: FileRecord, now: int)
    requires a.createdAt == now && b.createdAt == now - 3 * 24 * 60 * 60 * 1000
    requires c.createdAt == now - WEEK_MS && d.createdAt == now - 8 * 24 * 60 * 60 * 1000
    ensures RecentCount([a, b, c, d], now) == 3
  {
    assert IsRecent(a, now) && IsRecent(b, now) && IsRecent(c, now) && !IsRecent(d, now);
    assert RecentCount([a], now) == 1 by {
      RecentCountAppend([], a, now);
    }
    assert RecentCount([a, b], now) == 2 by {
      assert [a] + [b] == [a, b];
      RecentCountAppend([a], b, now);
    }
    assert RecentCount([a, b, c], now) == 3 by {
      assert [a, b] + [c] == [a, b, c];
      RecentCountAppend([a, b], c, now);
    }
    assert [a, b, c] + [d] == [a, b, c, d];
    RecentCountAppend([a, b, c], d, now);
  }
}
