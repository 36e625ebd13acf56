/** The names the service derives: the audit archive name (a `strftime`
    timestamp, `_`, the caller's file name), the converted output name
    (`os.path.splitext(name)[0] + ".png"`), the fixed result names, the colour
    mode rule of the compressor and the free-text audit descriptions. */
module Naming {
  import opened Common
  import opened Digits

  /** The fields of a `datetime`. */
  datatype DateTime = DateTime(year: int, month: int, day: int,
                               hour: int, minute: int, second: int, microsecond: int)

  /** The ranges a `datetime` object keeps its fields in. */
  predicate ValidDateTime(t: DateTime) {
    && 1 <= t.year <= 9999 && 1 <= t.month <= 12 && 1 <= t.day <= 31
    && 0 <= t.hour < 24 && 0 <= t.minute < 60 && 0 <= t.second < 60
    && 0 <= t.microsecond < 1000000
  }

  /** `t.strftime("%Y%m%d_%H%M%S")`: `YYYYMMDD_HHMMSS`. */
  function Timestamp(t: DateTime): (s: string)
    requires ValidDateTime(t)
    ensures |s| == 15 && s[8] == '_'
    ensures forall i :: 0 <= i < 15 && i != 8 ==> IsDigit(s[i])
  {
    Padded(t.year, 4) + (Padded(t.month, 2) + (Padded(t.day, 2) + TimeOfDay(t)))
  }

  /** Reads the calendar fields back out of a `YYYYMMDD_HHMMSS` stamp; the
      stamp carries no microseconds. */
  function ParseTimestamp(s: string): (t: DateTime)
    requires |s| == 15 && s[8] == '_'
    requires forall i :: 0 <= i < 15 && i != 8 ==> IsDigit(s[i])
  {
    DateTime(ValueOf(s[0..4]), ValueOf(s[4..6]), ValueOf(s[6..8]),
             ValueOf(s[9..11]), ValueOf(s[11..13]), ValueOf(s[13..15]), 0)
  }

  /** The stamp loses nothing but the microseconds. */
  lemma TimestampRoundTrip(t: DateTime)
    requires ValidDateTime(t)
    ensures ParseTimestamp(Timestamp(t)) == t.(microsecond := 0)
  {
    var s := Timestamp(t);
    assert s[0..4] == Padded(t.year, 4);
    assert s[4..6] == Padded(t.month, 2);
    assert s[6..8] == Padded(t.day, 2);
    assert s[9..11] == Padded(t.hour, 2);
    assert s[11..13] == Padded(t.minute, 2);
    assert s[13..15] == Padded(t.second, 2);
    PaddedRoundTrip(t.year, 4);
    PaddedRoundTrip(t.month, 2);
    PaddedRoundTrip(t.day, 2);
    PaddedRoundTrip(t.hour, 2);
    PaddedRoundTrip(t.minute, 2);
    PaddedRoundTrip(t.second, 2);
  }

  /** The order of two instants, at the one-second resolution of the stamp. */
  predicate SecondsBefore(a: DateTime, b: DateTime) {
    if a.year != b.year then a.year < b.year
    else if a.month != b.month then a.month < b.month
    else if a.day != b.day then a.day < b.day
    else if a.hour != b.hour then a.hour < b.hour
    else if a.minute != b.minute then a.minute < b.minute
    else a.second < b.second
  }

  lemma {:induction false} FieldStep(n: nat, m: nat, w: nat, a: string, b: string)
    requires n < Pow10(w) && m < Pow10(w)
    ensures LexLess(Padded(n, w) + a, Padded(m, w) + b)
            <==> n < m || (n == m && LexLess(a, b))
  {
    LexLessAppend(Padded(n, w), Padded(m, w), a, b);
    PaddedOrder(n, m, w);
    PaddedInjective(n, m, w);
  }

  /** The `_HHMMSS` half of a stamp. */
  function TimeOfDay(t: DateTime): string
    requires ValidDateTime(t)
  {
    "_" + (Padded(t.hour, 2) + (Padded(t.minute, 2) + Padded(t.second, 2)))
  }

  lemma TimeOfDayOrder(a: DateTime, b: DateTime)
    requires ValidDateTime(a) && ValidDateTime(b)
    ensures LexLess(TimeOfDay(a), TimeOfDay(b))
            <==> a.hour < b.hour || (a.hour == b.hour && (a.minute < b.minute
                 || (a.minute == b.minute && a.second < b.second)))
  {
    var sa, sb := Padded(a.second, 2), Padded(b.second, 2);
    PaddedOrder(a.second, b.second, 2);
    FieldStep(a.minute, b.minute, 2, sa, sb);
    FieldStep(a.hour, b.hour, 2, Padded(a.minute, 2) + sa, Padded(b.minute, 2) + sb);
    LexLessAppend("_", "_", Padded(a.hour, 2) + (Padded(a.minute, 2) + sa),
                            Padded(b.hour, 2) + (Padded(b.minute, 2) + sb));
  }

  /** Stamps sort as the instants they record: the string order of two
      stamps is the chronological order of their seconds. */
  lemma TimestampOrder(a: DateTime, b: DateTime)
    requires ValidDateTime(a) && ValidDateTime(b)
    ensures SecondsBefore(a, b) <==> LexLess(Timestamp(a), Timestamp(b))
  {
    var ca, cb := TimeOfDay(a), TimeOfDay(b);
    TimeOfDayOrder(a, b);
    FieldStep(a.day, b.day, 2, ca, cb);
    FieldStep(a.month, b.month, 2, Padded(a.day, 2) + ca, Padded(b.day, 2) + cb);
    FieldStep(a.year, b.year, 4, Padded(a.month, 2) + (Padded(a.day, 2) + ca),
                                 Padded(b.month, 2) + (Padded(b.day, 2) + cb));
  }

  /** The name of the audit copy of an upload (app.py line 44). */
  function ArchiveName(t: DateTime, filename: string): (r: string)
    requires ValidDateTime(t)
    ensures |r| == 16 + |filename| && r[15] == '_'
    ensures r[..15] == Timestamp(t) && r[16..] == filename
  {
    Timestamp(t) + "_" + filename
  }

  /** Archive names tell the second and the file name apart, and nothing
      else: two uploads of one name in one second share an archive name. */
  lemma ArchiveNameInjective(t1: DateTime, f1: string, t2: DateTime, f2: string)
    requires ValidDateTime(t1) && ValidDateTime(t2)
    ensures ArchiveName(t1, f1) == ArchiveName(t2, f2)
            <==> t1.(microsecond := 0) == t2.(microsecond := 0) && f1 == f2
  {
    TimestampRoundTrip(t1);
    TimestampRoundTrip(t2);
    if ArchiveName(t1, f1) == ArchiveName(t2, f2) {
      assert Timestamp(t1) == ArchiveName(t1, f1)[..15];
    } else if t1.(microsecond := 0) == t2.(microsecond := 0) {
      assert Timestamp(t1) == Timestamp(t2);
    }
  }

  /** Listing the archive folder in name order lists it in upload order. */
  lemma ArchiveNamesSortChronologically(t1: DateTime, f1: string, t2: DateTime, f2: string)
    requires ValidDateTime(t1) && ValidDateTime(t2)
    requires SecondsBefore(t1, t2)
    ensures LexLess(ArchiveName(t1, f1), ArchiveName(t2, f2))
  {
    TimestampOrder(t1, t2);
    LexLessAppend(Timestamp(t1), Timestamp(t2), "_" + f1, "_" + f2);
    assert ArchiveName(t1, f1) == Timestamp(t1) + ("_" + f1);
    assert ArchiveName(t2, f2) == Timestamp(t2) + ("_" + f2);
  }

  /** Index of the last `c` in `s`, or -1: `str.rfind`. */
  function RFind(s: string, c: char): (r: int)
    ensures -1 <= r < |s|
    ensures r >= 0 ==> s[r] == c
    ensures forall j :: r < j < |s| ==> s[j] != c
    decreases |s|
  {
    if s == [] then -1
    else if s[|s| - 1] == c then |s| - 1
    else RFind(s[..|s| - 1], c)
  }

  /** The leading-dot loop of `genericpath._splitext`: does `p[from..dot]`
      hold a character other than '.'? */
  function HasStem(p: string, from: nat, dot: int): (b: bool)
    requires dot <= |p|
    ensures b <==> exists j :: from <= j < dot && p[j] != '.'
    decreases dot - from
  {
    if from >= dot then false
    else if p[from] != '.' then true
    else HasStem(p, from + 1, dot)
  }

  /** `posixpath.splitext(p)`: the extension starts at the last '.' of the
      final path component, unless only dots precede it in that component. */
  function SplitExt(p: string): (r: (string, string))
    ensures r.0 + r.1 == p
  {
    var sep := RFind(p, '/');
    var dot := RFind(p, '.');
    if dot > sep && HasStem(p, sep + 1, dot) then (p[..dot], p[dot..]) else (p, "")
  }

  /** Reference definition: `p` has an extension starting at index `k`. The
      '.' at `k` is the last dot, no '/' follows it, and some character other
      than '.' precedes it within the same path component. */
  ghost predicate IsExtensionAt(p: string, k: int) {
    && 0 <= k < |p| && p[k] == '.'
    && (forall j :: k < j < |p| ==> p[j] != '.' && p[j] != '/')
    && (exists j :: 0 <= j < k && p[j] != '.' && forall i :: j <= i < k ==> p[i] != '/')
  }

  /** `splitext` splits off exactly the extension the reference describes,
      and nothing when there is none. */
  lemma SplitExtSpec(p: string)
    ensures SplitExt(p).1 != "" <==> exists k :: IsExtensionAt(p, k)
    ensures forall k :: IsExtensionAt(p, k) ==> SplitExt(p) == (p[..k], p[k..])
  {
    var sep := RFind(p, '/');
    var dot := RFind(p, '.');
    forall k | IsExtensionAt(p, k)
      ensures SplitExt(p) == (p[..k], p[k..])
    {
      assert dot == k;
      assert sep < k;
      var j :| 0 <= j < k && p[j] != '.' && forall i :: j <= i < k ==> p[i] != '/';
      assert sep < j;
      assert HasStem(p, sep + 1, dot);
    }
    if SplitExt(p).1 != "" {
      assert dot > sep && HasStem(p, sep + 1, dot);
      var j :| sep + 1 <= j < dot && p[j] != '.';
      assert forall i :: j <= i < dot ==> p[i] != '/';
      assert IsExtensionAt(p, dot);
    }
  }

  /** `os.path.splitext(filename)[0] + ".png"` (app.py line 109). */
  function OutputName(filename: string): (r: string)
    ensures |r| >= 4 && r[|r| - 4..] == ".png"
    ensures |r| <= |filename| + 4
  {
    SplitExt(filename).0 + ".png"
  }

  /** The converted name replaces the extension by ".png", or appends
      ".png" when the name has no extension (all-dot prefixes are not one). */
  lemma OutputNameSpec(filename: string)
    ensures |OutputName(filename)| >= 4
    ensures OutputName(filename)[|OutputName(filename)| - 4..] == ".png"
    ensures forall k :: IsExtensionAt(filename, k) ==> OutputName(filename) == filename[..k] + ".png"
    ensures (forall k :: !IsExtensionAt(filename, k)) ==> OutputName(filename) == filename + ".png"
  {
    SplitExtSpec(filename);
  }

  /** The converted name is the input's own name exactly when the input
      already has the extension ".png"; the PNG then replaces the staged
      input in the upload folder. */
  lemma OutputOverwritesInput(filename: string)
    ensures OutputName(filename) == filename <==> SplitExt(filename).1 == ".png"
  {
    var (root, ext) := SplitExt(filename);
    if OutputName(filename) == filename {
      assert root + ".png" == root + ext;
      assert ext == (root + ext)[|root|..];
    }
  }

  lemma OutputNameExamples()
    ensures OutputName("a.tar.gz") == "a.tar.png"
    ensures OutputName("notes") == "notes.png"
    ensures OutputName(".heic") == ".heic.png"
  {
    OnlyLastExtensionReplaced();
    var n := "notes";
    assert forall i :: 0 <= i < |n| ==> n[i] != '.';
    NoExtensionAppended(n);
    var h := ".heic";
    assert forall j :: 1 <= j < |h| ==> h[j] != '.' && h[j] != '/';
    LeadingDotKept(h);
  }

  /** Only the last extension goes: "a.tar.gz" becomes "a.tar.png". */
  lemma OnlyLastExtensionReplaced()
    ensures SplitExt("a.tar.gz").0 == "a.tar"
  {
    var p := "a.tar.gz";
    assert p[0] != '.' && forall i :: 0 <= i < 5 ==> p[i] != '/';
    assert IsExtensionAt(p, 5);
    SplitExtSpec(p);
    assert p[..5] == "a.tar";
  }

  /** A name without a dot has no extension: it is all root, and the
      converter appends ".png" to the whole of it. */
  lemma NoExtensionAppended(p: string)
    requires forall i :: 0 <= i < |p| ==> p[i] != '.'
    ensures SplitExt(p) == (p, "")
    ensures OutputName(p) == p + ".png"
  {
  }

  /** Leading dots start a hidden name, not an extension: in a single path
      component where only dots precede any dot, such as ".heic" or
      "..env", nothing is split off. */
  lemma LeadingDotKept(p: string)
    requires forall i :: 0 <= i < |p| ==> p[i] != '/'
    requires forall i, j :: 0 <= i < j < |p| && p[j] == '.' ==> p[i] == '.'
    ensures SplitExt(p) == (p, "")
    ensures OutputName(p) == p + ".png"
  {
    var dot := RFind(p, '.');
    assert RFind(p, '/') == -1;
    if dot >= 0 {
      assert forall i :: 0 <= i < dot ==> p[i] == '.';
      assert !HasStem(p, 0, dot);
    }
  }

  /** The fixed names of the merge and compress results and of the QR image. */
  const MergedName := "merged.pdf"
  const CompressedName := "compressed.jpg"
  const QrName := "qrcode.png"

  /** The compressor's colour rule (app.py line 162): RGBA and P become RGB,
      every other mode passes through. */
  function CompressMode(mode: string): (r: string)
    ensures r != "RGBA" && r != "P"
    ensures r != mode <==> mode == "RGBA" || mode == "P"
    ensures r != mode ==> r == "RGB"
  {
    if mode == "RGBA" || mode == "P" then "RGB" else mode
  }

  lemma CompressModeIdempotent(mode: string)
    ensures CompressMode(CompressMode(mode)) == CompressMode(mode)
  {
  }

  /** The audit description of an uploaded image. */
  const ImageUploaded := "Image Uploaded"

  /** `f"Merged {len(files)} files"`. */
  function MergeDescription(count: nat): (d: string)
    ensures |d| > 13 && d[..7] == "Merged " && d[|d| - 6..] == " files"
  {
    "Merged " + Decimal(count) + " files"
  }

  /** The count can be read back out of a merge description. */
  lemma MergeDescriptionRoundTrip(count: nat)
    ensures var d := MergeDescription(count);
      && |d| > 13 && d[..7] == "Merged " && d[|d| - 6..] == " files"
      && AllDigits(d[7..|d| - 6]) && ValueOf(d[7..|d| - 6]) == count
  {
    var d := MergeDescription(count);
    assert d[7..|d| - 6] == Decimal(count);
    DecimalRoundTrip(count);
  }

  /** `f"URL: {data}"` where `data` is `request.form.get('text')`: a missing
      field prints as "None". */
  function QrDescription(text: Option<string>): (d: string)
    ensures |d| >= 5 && d[..5] == "URL: "
  {
    "URL: " + match text
              case None => "None"
              case Some(t) => t
  }

  /** A missing text field and the text "None" are logged alike. */
  lemma QrDescriptionConflates()
    ensures QrDescription(None) == QrDescription(Some("None"))
    ensures forall t :: QrDescription(Some(t))[5..] == t
  {
  }
}
