/** The domain `Video` model: identity and media metadata of an uploaded
    video, with its derived properties and business rules. */
module DomainVideo {
  import opened Wrappers
  import opened Exceptions
  import opened Text
  import opened Paths

  /** Durations are in ticks of 100 ns, as `TimeSpan` counts them. */
  datatype Video = Video(
    videoId: string,
    fileName: string,
    filePath: string,
    uploadedAt: int,
    durationTicks: int,
    width: int,
    height: int,
    frameRate: real,
    format: string,
    fileSizeBytes: int)

  /** `File.Exists`, supplied by the environment. */
  type FileProbe = string -> bool

  const ValidExtensions: set<string> := {".mp4", ".avi", ".mov", ".mkv", ".wmv"}

  /** `FileExtension`: the extension of the original file name, dot included. */
  function FileExtension(v: Video): (ext: string)
    ensures ext != [] ==> |ext| <= |v.fileName| && ext[0] == '.' && ext == v.fileName[|v.fileName| - |ext|..]
  {
    GetExtension(v.fileName)
  }

  /** `FileExists`: a stored path is recorded and the file is there. */
  predicate FileExists(v: Video, exists_: FileProbe) {
    v.filePath != [] && exists_(v.filePath)
  }

  /** `Age` at the instant `now`. */
  function Age(v: Video, now: int): int {
    now - v.uploadedAt
  }

  /** `Resolution`: width and height joined by 'x'. */
  function Resolution(v: Video): (r: string)
    ensures 'x' in r
  {
    IntToString(v.width) + "x" + IntToString(v.height)
  }

  /** `IsValid`: identity, names and path present, positive duration and size. */
  predicate IsValid(v: Video) {
    && !IsNullOrEmpty(Some(v.videoId))
    && !IsNullOrEmpty(Some(v.fileName))
    && !IsNullOrEmpty(Some(v.filePath))
    && v.durationTicks > 0
    && v.width > 0
    && v.height > 0
  }

  /** `IsVideoFormat`: the lower-cased extension is one of the known video ones. */
  predicate IsVideoFormat(v: Video) {
    LowerInvariant(FileExtension(v)) in ValidExtensions
  }

  /** `IsProcessable`. */
  predicate IsProcessable(v: Video, exists_: FileProbe) {
    IsValid(v) && FileExists(v, exists_) && IsVideoFormat(v)
  }

  /** Validity in plain terms: the three names are non-empty and the
      duration and both dimensions are positive. */
  lemma {:induction false} ValidMeans(v: Video)
    ensures IsValid(v) <==>
              v.videoId != [] && v.fileName != [] && v.filePath != []
              && v.durationTicks > 0 && v.width > 0 && v.height > 0
  {
  }

  /** A processable video is valid, present on disk, and of a video format. */
  lemma {:induction false} ProcessableImplies(v: Video, exists_: FileProbe)
    requires IsProcessable(v, exists_)
    ensures IsValid(v) && IsVideoFormat(v)
    ensures v.filePath != [] && exists_(v.filePath)
  {
  }

  /** The format check in terms of where the extension starts: some
      extension exists and, lower-cased, is a known video extension. */
  lemma {:induction false} VideoFormatMeans(v: Video)
    ensures IsVideoFormat(v) <==>
              exists k :: ExtensionStart(v.fileName, k) && LowerInvariant(v.fileName[k..]) in ValidExtensions
  {
    var path := v.fileName;
    var ext := GetExtension(path);
    if ext == [] {
      assert LowerInvariant(ext) == [];
    } else {
      var k0 := |path| - |ext|;
      assert ExtensionStart(path, k0) && path[k0..] == ext;
      forall k | ExtensionStart(path, k) ensures k == k0 {
        ExtensionStartUnique(path, k);
      }
      if IsVideoFormat(v) {
        assert LowerInvariant(path[k0..]) in ValidExtensions;
      }
    }
  }

  /** A path has at most one extension start. */
  lemma {:induction false} ExtensionStartUnique(path: string, k: int)
    requires ExtensionStart(path, k)
    ensures GetExtension(path) != [] && k == |path| - |GetExtension(path)|
  {
    var ext := GetExtension(path);
    assert ext != [];
    assert ExtensionStart(path, |path| - |ext|);
  }

  /** Lower-casing a whole path leaves '.' and the separator where they were. */
  lemma {:induction false} ExtensionStartLower(path: string, k: int)
    ensures ExtensionStart(path, k) <==> ExtensionStart(LowerInvariant(path), k)
  {
    var l := LowerInvariant(path);
    assert forall j :: 0 <= j < |path| ==> (l[j] == '.' <==> path[j] == '.') && (l[j] == Separator <==> path[j] == Separator);
  }

  /** Extension and lower-casing commute. */
  lemma {:induction false} ExtensionOfLower(path: string)
    ensures GetExtension(LowerInvariant(path)) == LowerInvariant(GetExtension(path))
  {
    var l := LowerInvariant(path);
    var e := GetExtension(path);
    var el := GetExtension(l);
    if e != [] {
      var k := |path| - |e|;
      ExtensionStartLower(path, k);
      ExtensionStartUnique(l, k);
      assert el == l[k..];
      assert LowerInvariant(e) == l[k..];
    } else if el != [] {
      var k := |l| - |el|;
      ExtensionStartLower(path, k);
      assert false;
    }
  }

  /** Lower-casing is idempotent. */
  lemma {:induction false} LowerIdempotent(s: string)
    ensures LowerInvariant(LowerInvariant(s)) == LowerInvariant(s)
  {
  }

  /** The format check ignores the case of the file name. */
  lemma {:induction false} VideoFormatIgnoresCase(v: Video)
    ensures IsVideoFormat(v) <==> IsVideoFormat(v.(fileName := LowerInvariant(v.fileName)))
  {
    ExtensionOfLower(v.fileName);
    LowerIdempotent(GetExtension(v.fileName));
  }

  /** The position of the first `c` in `s`, if any. */
  function IndexOf(s: string, c: char): (r: Option<nat>)
    ensures r.Some? ==> r.value < |s| && s[r.value] == c && c !in s[..r.value]
    ensures r.None? ==> c !in s
  {
    if s == [] then None
    else if s[0] == c then Some(0)
    else match IndexOf(s[1..], c)
      case None => None
      case Some(i) => assert s[..i + 1] == [s[0]] + s[1..][..i]; Some(i + 1)
  }

  /** Reads a "<width>x<height>" text back. */
  function ParseResolution(s: string): Option<(int, int)> {
    match IndexOf(s, 'x')
    case None => None
    case Some(i) =>
      if IsIntegerText(s[..i]) && IsIntegerText(s[i + 1..]) then Some((ParseInt(s[..i]), ParseInt(s[i + 1..])))
      else None
  }

  /** The first `c` of `a + b` is the head of `b` when `a` has none. */
  lemma {:induction false} IndexOfAfter(a: string, b: string, c: char)
    requires c !in a && |b| > 0 && b[0] == c
    ensures IndexOf(a + b, c) == Some(|a|)
  {
    if a != [] {
      assert (a + b)[1..] == a[1..] + b;
      IndexOfAfter(a[1..], b, c);
    }
  }

  /** The resolution text determines width and height. */
  lemma {:induction false} ResolutionRoundTrip(v: Video)
    ensures ParseResolution(Resolution(v)) == Some((v.width, v.height))
  {
    var w := IntToString(v.width);
    var h := IntToString(v.height);
    var r := Resolution(v);
    assert r == w + ("x" + h);
    IndexOfAfter(w, "x" + h, 'x');
    assert r[..|w|] == w;
    assert r[|w| + 1..] == h;
    IntToStringRoundTrip(v.width);
    IntToStringRoundTrip(v.height);
  }

  const Suffixes: seq<string> := ["B", "KB", "MB", "GB", "TB"]

  /** `Math.Round` on `decimal`: to the nearest integer, halves to even. */
  function RoundHalfEven(x: real): (n: int)
    ensures x - 0.5 <= n as real <= x + 0.5
  {
    var f := x.Floor;
    var frac := x - f as real;
    if frac < 0.5 then f
    else if frac > 0.5 then f + 1
    else if f % 2 == 0 then f else f + 1
  }

  /** The loop test of `FormatFileSize`: rounding gives at least one exactly
      when the value exceeds one half (a half itself rounds to zero). */
  lemma {:induction false} RoundAtLeastOne(x: real)
    ensures RoundHalfEven(x) >= 1 <==> x > 0.5
  {
  }

  function Pow1024(n: nat): (p: nat)
    ensures p >= 1
  {
    if n == 0 then 1 else 1024 * Pow1024(n - 1)
  }

  /** What `FormatFileSize` renders: the scaled number and its unit. */
  datatype SizeDisplay = SizeDisplay(number: real, unitIndex: nat, suffix: string)

  /** `bytes` divided `n` times by 1024. */
  function Scaled(bytes: int, n: nat): real {
    if n == 0 then bytes as real else Scaled(bytes, n - 1) / 1024.0
  }

  /** Dividing n times by 1024 is dividing by 1024^n. */
  lemma {:induction false} ScaledTimesPow(bytes: int, n: nat)
    ensures Scaled(bytes, n) * Pow1024(n) as real == bytes as real
  {
    if n > 0 {
      ScaledTimesPow(bytes, n - 1);
      var x := Scaled(bytes, n);
      var p := Pow1024(n - 1);
      assert Scaled(bytes, n - 1) == 1024.0 * x;
      assert Pow1024(n) as real == 1024.0 * p as real;
      assert x * (1024.0 * p as real) == (1024.0 * x) * p as real;
    }
  }

  lemma {:induction false} MulLess(a: real, b: real, c: real)
    requires a < b && c > 0.0
    ensures a * c < b * c
  {
  }

  /** Comparison with 512 carries over scaling by a positive factor. */
  lemma {:induction false} CompareScaled(number: real, bytes: int, p: nat)
    requires p >= 1 && number * p as real == bytes as real
    ensures number > 512.0 <==> bytes > 512 * p
  {
    if number > 512.0 {
      MulLess(512.0, number, p as real);
    } else if number < 512.0 {
      MulLess(number, 512.0, p as real);
    }
  }

  /** The scaled number exceeds 512 exactly when the size exceeds 512 units. */
  lemma {:induction false} ScaledAbove(bytes: int, n: nat)
    ensures Scaled(bytes, n) > 512.0 <==> bytes > 512 * Pow1024(n)
  {
    ScaledTimesPow(bytes, n);
    CompareScaled(Scaled(bytes, n), bytes, Pow1024(n));
  }

  /** The division loop of `FormatFileSize`: divides by 1024 while the
      quotient rounds to at least one, so it stops at the smallest power of
      1024 that brings the number to 512 or below. */
  method ScaleDown(bytes: int) returns (number: real, counter: nat)
    ensures number * Pow1024(counter) as real == bytes as real
    ensures bytes <= 512 * Pow1024(counter)
    ensures counter == 0 || bytes > 512 * Pow1024(counter - 1)
  {
    number := bytes as real;
    counter := 0;
    while RoundHalfEven(number / 1024.0) >= 1
      invariant number == Scaled(bytes, counter)
      invariant counter == 0 || bytes > 512 * Pow1024(counter - 1)
      decreases bytes - Pow1024(counter)
    {
      ScaleContinues(bytes, counter);
      number := number / 1024.0;
      counter := counter + 1;
    }
    ScaleStops(bytes, counter);
  }

  /** The loop goes on only while the size exceeds 512 of the current unit. */
  lemma {:induction false} ScaleContinues(bytes: int, n: nat)
    requires RoundHalfEven(Scaled(bytes, n) / 1024.0) >= 1
    ensures bytes > 512 * Pow1024(n)
  {
    RoundAtLeastOne(Scaled(bytes, n) / 1024.0);
    ScaledAbove(bytes, n);
  }

  /** When the loop stops, the size fits in 512 of the current unit. */
  lemma {:induction false} ScaleStops(bytes: int, n: nat)
    requires RoundHalfEven(Scaled(bytes, n) / 1024.0) < 1
    ensures Scaled(bytes, n) * Pow1024(n) as real == bytes as real
    ensures bytes <= 512 * Pow1024(n)
  {
    RoundAtLeastOne(Scaled(bytes, n) / 1024.0);
    ScaledAbove(bytes, n);
    ScaledTimesPow(bytes, n);
  }

  /** `FormatFileSize` without the "n1" text formatting: the number scaled to
      the smallest unit that brings it to 512 or below, and that unit's
      suffix; a size beyond 512 TB runs off the end of the suffix table. */
  method FormatFileSize(bytes: int) returns (r: Result<SizeDisplay, Exception>)
    ensures r.Failure? <==> bytes > 512 * Pow1024(4)
    ensures r.Failure? ==> r.error == IndexOutOfRangeException
    ensures r.Success? ==>
              && r.value.unitIndex < |Suffixes|
              && r.value.suffix == Suffixes[r.value.unitIndex]
              && r.value.number * Pow1024(r.value.unitIndex) as real == bytes as real
              && bytes <= 512 * Pow1024(r.value.unitIndex)
              && (r.value.unitIndex == 0 || bytes > 512 * Pow1024(r.value.unitIndex - 1))
  {
    var number, counter := ScaleDown(bytes);
    if counter >= |Suffixes| {
      PowMonotone(4, counter - 1);
      return Failure(IndexOutOfRangeException);
    }
    if bytes > 512 * Pow1024(4) {
      PowMonotone(counter, 4);
    }
    r := Success(SizeDisplay(number, counter, Suffixes[counter]));
  }

  lemma {:induction false} PowMonotone(a: nat, b: nat)
    requires a <= b
    ensures Pow1024(a) <= Pow1024(b)
    decreases b
  {
    if a < b {
      PowMonotone(a, b - 1);
    }
  }
}
