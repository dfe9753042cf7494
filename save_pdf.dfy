/**
 * Storing an uploaded committee PDF on the server: the file goes into a
 * sub-directory named after the current year, under a name built from the
 * committee number, the committee date's year, the next document number and a
 * 12-hour timestamp; an existing file is never overwritten.
 */
module SavePdf {
  import opened Wrappers
  import opened Text
  import Dates

  /** The clock reading `datetime.now()` gives. */
  datatype DateTime = DateTime(year: int, month: int, day: int, hour: int, minute: int, second: int)

  predicate ValidDateTime(t: DateTime) {
    Dates.ValidDate(Dates.Date(t.year, t.month, t.day))
    && 0 <= t.hour < 24 && 0 <= t.minute < 60 && 0 <= t.second < 60
  }

  /** `%I`: the hour on a 12-hour clock. */
  function Hour12(hour: int): (h: int)
    requires 0 <= hour < 24
    ensures 1 <= h <= 12
    ensures h % 12 == hour % 12
  {
    if hour % 12 == 0 then 12 else hour % 12
  }

  /** `%p` in the C locale. */
  function Meridiem(hour: int): (p: string)
    ensures p == "AM" <==> hour < 12
    ensures p == "AM" || p == "PM"
  {
    if hour < 12 then "AM" else "PM"
  }

  /** `now.strftime("%Y-%m-%d_%I-%M-%S-%p")`. */
  function Timestamp(t: DateTime): (s: string)
    requires ValidDateTime(t)
    ensures |s| == 22
  {
    Dates.FormatYmd(Dates.Date(t.year, t.month, t.day)) + "_" + Dates.Pad2(Hour12(t.hour)) + "-"
      + Dates.Pad2(t.minute) + "-" + Dates.Pad2(t.second) + "-" + Meridiem(t.hour)
  }

  /** The 12-hour clock loses nothing: the hour, minutes and seconds of a timestamp
    * determine the hour of the day, through `%I` and `%p` together. */
  lemma TimestampKeepsHour(a: DateTime, b: DateTime)
    requires ValidDateTime(a) && ValidDateTime(b)
    requires Hour12(a.hour) == Hour12(b.hour) && Meridiem(a.hour) == Meridiem(b.hour)
    ensures a.hour == b.hour
  {
  }

  /** `f"{committeeNo}.{year}.{count + 1}-{timestamp}.pdf"`. */
  function FileName(committeeNo: string, year: nat, count: nat, timestamp: string): string {
    committeeNo + "." + NatToDecimal(year) + "." + NatToDecimal(count + 1) + "-" + timestamp + ".pdf"
  }

  /** Different document counts give different file names for the same committee,
    * year and timestamp. */
  lemma FileNameCountInjective(committeeNo: string, year: nat, c1: nat, c2: nat, timestamp: string)
    requires FileName(committeeNo, year, c1, timestamp) == FileName(committeeNo, year, c2, timestamp)
    ensures c1 == c2
  {
    var prefix := committeeNo + "." + NatToDecimal(year) + ".";
    var d1, d2 := NatToDecimal(c1 + 1), NatToDecimal(c2 + 1);
    var tail := "-" + timestamp + ".pdf";
    assert FileName(committeeNo, year, c1, timestamp) == prefix + (d1 + tail);
    assert FileName(committeeNo, year, c2, timestamp) == prefix + (d2 + tail);
    DropCommonPrefix(prefix, d1 + tail, d2 + tail);
    DropCommonSuffix(d1, d2, tail);
    DecimalInjective(c1 + 1, c2 + 1);
  }

  lemma DropCommonPrefix(p: string, x: string, y: string)
    requires p + x == p + y
    ensures x == y
  {
    assert x == (p + x)[|p|..];
    assert y == (p + y)[|p|..];
  }

  lemma DropCommonSuffix(x: string, y: string, q: string)
    requires x + q == y + q
    ensures x == y
  {
    assert x == (x + q)[..|x|];
    assert y == (y + q)[..|y|];
  }

  /** Where a save puts its file: the directory `destDir/<current year>` and the file name.
    * None when the committee date does not parse as `%Y-%m-%d`. */
  datatype Target = Target(yearDir: string, path: string)

  function SaveTarget(committeeNo: string, committeeDate: string, count: nat, destDir: string,
                      now: DateTime, sep: string): (t: Option<Target>)
    requires ValidDateTime(now)
    ensures t.Some? <==> Dates.ParseYmd(committeeDate).Some?
    ensures t.Some? ==> t.value.yearDir == destDir + sep + NatToDecimal(now.year)
    ensures t.Some? ==>
              t.value.path == t.value.yearDir + sep + FileName(committeeNo, Dates.ParseYmd(committeeDate).value.year, count, Timestamp(now))
  {
    match Dates.ParseYmd(committeeDate)
    case None => None
    case Some(d) =>
      var yearDir := destDir + sep + NatToDecimal(now.year);
      Some(Target(yearDir, yearDir + sep + FileName(committeeNo, d.year, count, Timestamp(now))))
  }

  /** The sub-directory is named after the year of the clock, whatever the committee's
    * year; the committee's year appears only in the file name. */
  lemma DirectoryYearIsCurrentYear(committeeNo: string, committeeDate: string, count: nat, destDir: string,
                                   now: DateTime, sep: string)
    requires ValidDateTime(now) && Dates.ParseYmd(committeeDate).Some?
    ensures var t := SaveTarget(committeeNo, committeeDate, count, destDir, now, sep).value;
      StartsWith(t.path, destDir + sep + NatToDecimal(now.year) + sep)
  {
  }

  datatype SaveError = InvalidDate | AlreadyExists(path: string)

  type Bytes = seq<bv8>

  /** The server's upload area: the directories and the files with their contents. */
  class UploadArea {
    var dirs: set<string>
    var files: map<string, Bytes>

    constructor (dirs: set<string>, files: map<string, Bytes>)
      ensures this.dirs == dirs && this.files == files
    {
      this.dirs := dirs;
      this.files := files;
    }

    /**
     * `save_pdf_to_server`, with `now` the clock and `sep` the platform's path separator.
     * A date that does not parse is rejected before any directory is created; an existing
     * destination is rejected after the directory exists but before anything is written.
     */
    method SavePdfToServer(source: Bytes, committeeNo: string, committeeDate: string, count: nat,
                           destDir: string, now: DateTime, sep: string) returns (r: Result<string, SaveError>)
      requires ValidDateTime(now)
      modifies this
      ensures var t := SaveTarget(committeeNo, committeeDate, count, destDir, now, sep);
        && (t.None? ==> r == Err(InvalidDate) && dirs == old(dirs) && files == old(files))
        && (t.Some? ==> dirs == old(dirs) + {destDir, t.value.yearDir})
        && (t.Some? && (t.value.path in old(files) || t.value.path in old(dirs)) ==>
              r == Err(AlreadyExists(t.value.path)) && files == old(files))
        && (t.Some? && !(t.value.path in old(files) || t.value.path in old(dirs)) ==>
              r == Ok(t.value.path) && files == old(files)[t.value.path := source])
    {
      var parsed := Dates.ParseYmd(committeeDate);
      if parsed.None? {
        return Err(InvalidDate);
      }
      var year := parsed.value.year;
      var yearDir := destDir + sep + NatToDecimal(now.year);
      var existingDirs := dirs;
      dirs := dirs + {destDir, yearDir};
      var filename := FileName(committeeNo, year, count, Timestamp(now));
      var destPath := yearDir + sep + filename;
      if destPath in files || destPath in existingDirs {
        return Err(AlreadyExists(destPath));
      }
      files := files[destPath := source];
      return Ok(destPath);
    }
  }

}
