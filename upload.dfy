/** The upload rules of the image service (images/src/app.controller.ts): which file
    names the upload accepts, the name a stored file gets, the size limit and the URL
    returned for an upload. `Math.random` is replaced by the four random numbers it
    produces, passed in as `digits`. File names are taken to contain no `/`. */
module Upload {
  import opened JsValues

  /** `API_ENDPOINT`. */
  const ApiEndpoint := "http://blog.local"

  /** `maxFileSize`: 10 MiB. */
  const MaxFileSize: nat := 10 * 1024 * 1024

  /** The upload limit lets a file through when its size is at most `maxFileSize` bytes. */
  function WithinSizeLimit(size: nat): (ok: bool)
    ensures ok <==> size <= 10485760
  {
    size <= MaxFileSize
  }

  // ---------------------------------------------------------------- lower case, dots

  /** `toLocaleLowerCase` on one character; only ASCII capitals are changed. */
  function LowerChar(c: char): (d: char)
    ensures ('A' <= c <= 'Z') ==> 'a' <= d <= 'z' && d as int - 'a' as int == c as int - 'A' as int
    ensures !('A' <= c <= 'Z') ==> d == c
    ensures (d == '.') <==> (c == '.')
  {
    if 'A' <= c <= 'Z' then (c as int + 32) as char else c
  }

  /** `toLocaleLowerCase` on a name: the result has no capital letter left. */
  function Lower(s: string): (r: string)
    ensures |r| == |s|
    ensures forall i :: 0 <= i < |s| ==> r[i] == LowerChar(s[i])
    ensures forall i :: 0 <= i < |r| ==> !('A' <= r[i] <= 'Z')
  {
    seq(|s|, i requires 0 <= i < |s| => LowerChar(s[i]))
  }

  /** Lower-casing twice is lower-casing once, and text without capitals is kept. */
  lemma LowerIdempotent(s: string)
    ensures Lower(Lower(s)) == Lower(s)
    ensures (forall i :: 0 <= i < |s| ==> !('A' <= s[i] <= 'Z')) ==> Lower(s) == s
  {
  }

  lemma LowerOfSuffix(s: string, k: nat)
    requires k <= |s|
    ensures Lower(s[k..]) == Lower(s)[k..]
  {
  }

  predicate NoDot(s: string) {
    forall i :: 0 <= i < |s| ==> s[i] != '.'
  }

  /** The index of the last `.` in `s`, if there is one. */
  function LastDot(s: string): (r: Option<nat>)
    ensures r.Some? ==> r.value < |s| && s[r.value] == '.'
    ensures r.Some? ==> forall j :: r.value < j < |s| ==> s[j] != '.'
    ensures r.None? ==> NoDot(s)
    decreases |s|
  {
    if s == [] then None
    else if s[|s| - 1] == '.' then Some(|s| - 1)
    else
      var r := LastDot(s[..|s| - 1]);
      assert forall j :: 0 <= j < |s| - 1 ==> s[..|s| - 1][j] == s[j];
      r
  }

  /** A dot with no dot after it is the last dot. */
  lemma LastDotIs(s: string, k: nat)
    requires k < |s| && s[k] == '.'
    requires forall j :: k < j < |s| ==> s[j] != '.'
    ensures LastDot(s) == Some(k)
  {
  }

  // ---------------------------------------------------------------- imageFileFilter

  /** The alternatives of `/\.(jpg|jpeg|png|svg|webp)$/`, each with its dot. */
  const ImageExtensions: seq<string> := [".jpg", ".jpeg", ".png", ".svg", ".webp"]

  /** The test of `imageFileFilter`: the lower-cased name ends in one of the extensions. */
  predicate IsImageName(name: string) {
    exists i :: 0 <= i < |ImageExtensions| && EndsWith(Lower(name), ImageExtensions[i])
  }

  /** What `imageFileFilter` passes to its callback: an error and `false`, or no error
      and `true`. */
  datatype FilterVerdict = FilterVerdict(error: Option<string>, accept: bool)

  const OnlyImagesMessage := "Only images are allowed (JPG/PNG/SVG/WEBP)"

  function ImageFileFilter(originalName: string): (v: FilterVerdict)
    ensures v.accept <==> v.error.None?
    ensures v.accept <==> IsImageName(originalName)
    ensures !v.accept ==> v.error == Some(OnlyImagesMessage)
  {
    if !IsImageName(originalName) then FilterVerdict(Some(OnlyImagesMessage), false)
    else FilterVerdict(None, true)
  }

  lemma ExtensionsHaveOneDot(e: string)
    requires e in ImageExtensions
    ensures |e| >= 2 && e[0] == '.'
    ensures forall j :: 1 <= j < |e| ==> e[j] != '.'
  {
  }

  /** A name that ends in an extension has its last dot where that extension starts. */
  lemma {:induction false} ImageNameHasExtensionAtLastDot(name: string, i: nat)
    requires i < |ImageExtensions| && EndsWith(Lower(name), ImageExtensions[i])
    ensures LastDot(name) == Some(|name| - |ImageExtensions[i]|)
    ensures Lower(name[|name| - |ImageExtensions[i]|..]) == ImageExtensions[i]
  {
    var low := Lower(name);
    var e := ImageExtensions[i];
    ExtensionsHaveOneDot(e);
    var k := |name| - |e|;
    assert low[k..] == e;
    assert low[k] == '.';
    forall j | k < j < |name| ensures name[j] != '.' {
      assert low[j] == low[k..][j - k];
    }
    LastDotIs(name, k);
    LowerOfSuffix(name, k);
  }

  /** The filter judges a name by the text from its last dot on: the name is accepted
      exactly when it has a dot and that text, lower-cased, is one of the extensions. */
  lemma {:induction false} ImageNameByLastDot(name: string)
    ensures IsImageName(name) <==>
      LastDot(name).Some? && Lower(name[LastDot(name).value..]) in ImageExtensions
  {
    if IsImageName(name) {
      var i :| 0 <= i < |ImageExtensions| && EndsWith(Lower(name), ImageExtensions[i]);
      ImageNameHasExtensionAtLastDot(name, i);
    }
    if LastDot(name).Some? && Lower(name[LastDot(name).value..]) in ImageExtensions {
      var k := LastDot(name).value;
      LowerOfSuffix(name, k);
      var i :| 0 <= i < |ImageExtensions| && ImageExtensions[i] == Lower(name)[k..];
      assert EndsWith(Lower(name), ImageExtensions[i]);
    }
  }

  /** The test ignores case: "a.PNG" is accepted. */
  lemma UpperCaseExtensionAccepted()
    ensures IsImageName("a.PNG")
  {
    assert Lower("a.PNG") == "a.png";
    assert EndsWith(Lower("a.PNG"), ImageExtensions[2]);
  }

  /** The test is anchored at the end of the name: "a.png.exe" and "png" are rejected. */
  lemma UnanchoredExtensionRejected()
    ensures !IsImageName("a.png.exe")
    ensures !IsImageName("png")
  {
    var name := "a.png.exe";
    LastDotIs(name, 5);
    ImageNameByLastDot(name);
    assert Lower(name[5..]) == ".exe" by {
      assert name[5..] == ".exe";
      LowerIdempotent(".exe");
    }
    ImageNameByLastDot("png");
  }

  // ---------------------------------------------------------------- editFileName

  /** `originalname.split('.')[0]`: the text before the first dot, or the whole name. */
  function BaseName(name: string): (b: string)
    ensures |b| <= |name| && b == name[..|b|]
    ensures NoDot(b)
    ensures |b| < |name| ==> name[|b|] == '.'
    decreases |name|
  {
    if name == [] || name[0] == '.' then []
    else [name[0]] + BaseName(name[1..])
  }

  /** `path.extname(name)`: the text from the last dot on, except that a name without a
      dot, a name whose last dot is its first character, and the name ".." have none. */
  function ExtName(name: string): (x: string)
    ensures x != "" ==> x[0] == '.' && NoDot(x[1..])
    ensures x != "" ==> LastDot(name).Some? && LastDot(name).value > 0
                        && x == name[LastDot(name).value..]
    ensures x == "" ==> LastDot(name).None? || LastDot(name) == Some(0) || name == ".."
  {
    match LastDot(name)
    case None => ""
    case Some(k) => if k == 0 || name == ".." then "" else name[k..]
  }

  /** A digit of `toString(16)`: `0`-`9` and `a`-`f`. */
  predicate IsHexDigit(c: char) {
    '0' <= c <= '9' || 'a' <= c <= 'f'
  }

  predicate IsHexText(s: string) {
    forall i :: 0 <= i < |s| ==> IsHexDigit(s[i])
  }

  function DigitValue(c: char): (d: nat)
    requires IsHexDigit(c)
    ensures d < 16
  {
    if c <= '9' then c as int - '0' as int else c as int - 'a' as int + 10
  }

  /** The number that hexadecimal text `s` denotes, read the way `parseInt(s, 16)` reads it. */
  function HexValue(s: string): nat
    requires IsHexText(s)
    decreases |s|
  {
    if s == [] then 0 else HexValue(s[..|s| - 1]) * 16 + DigitValue(s[|s| - 1])
  }

  function HexDigit(d: nat): (c: char)
    requires d < 16
    ensures IsHexDigit(c) && DigitValue(c) == d
  {
    if d < 10 then ('0' as int + d) as char else ('a' as int + d - 10) as char
  }

  /** `Math.round(r * 16).toString(16)` for the rounded number `d` in 0..16: hexadecimal
      text that reads back as `d`, one digit below 16 and two for 16. */
  function HexChunk(d: nat): (s: string)
    requires d <= 16
    ensures 1 <= |s| <= 2 && NoDot(s) && IsHexText(s)
    ensures |s| == 2 <==> d == 16
    ensures HexValue(s) == d
  {
    if d == 16 then
      assert "10"[..1] == "1";
      "10"
    else
      assert [HexDigit(d)][..0] == [];
      [HexDigit(d)]
  }

  /** The chunks of `digits` joined together. */
  function HexChunks(digits: seq<nat>): (s: string)
    requires forall i :: 0 <= i < |digits| ==> digits[i] <= 16
    ensures |digits| <= |s| <= 2 * |digits|
    ensures NoDot(s) && IsHexText(s)
    decreases |digits|
  {
    if digits == [] then ""
    else
      var head := HexChunk(digits[0]);
      var tail := HexChunks(digits[1..]);
      assert forall i :: 0 <= i < |head| + |tail| ==>
        (head + tail)[i] == (if i < |head| then head[i] else tail[i - |head|]);
      head + tail
  }

  /** `randomName`: four chunks, so 4 to 8 hex characters. */
  function RandomName(digits: seq<nat>): (s: string)
    requires |digits| == 4 && forall i :: 0 <= i < 4 ==> digits[i] <= 16
    ensures 4 <= |s| <= 8 && NoDot(s) && IsHexText(s)
  {
    HexChunks(digits)
  }

  /** `${name}-${randomName}${fileExtName}`: the base name and `-`, then 4 to 8 hex
      digits, then the extension. */
  function StoredName(originalName: string, digits: seq<nat>): (stored: string)
    requires |digits| == 4 && forall i :: 0 <= i < 4 ==> digits[i] <= 16
    ensures var base := BaseName(originalName);
      var ext := ExtName(originalName);
      |base| + 5 + |ext| <= |stored| <= |base| + 9 + |ext|
      && stored[..|base| + 1] == base + "-"
      && IsHexText(stored[|base| + 1..|stored| - |ext|])
      && stored[|stored| - |ext|..] == ext
  {
    var base := BaseName(originalName);
    var ext := ExtName(originalName);
    var random := RandomName(digits);
    var stored := (base + "-") + random + ext;
    assert stored[..|base| + 1] == base + "-";
    assert stored[|base| + 1..|stored| - |ext|] == random;
    assert stored[|stored| - |ext|..] == ext;
    stored
  }

  lemma NoDotConcat(a: string, b: string)
    requires NoDot(a) && NoDot(b)
    ensures NoDot(a + b)
  {
    forall i | 0 <= i < |a + b| ensures (a + b)[i] != '.' {
      if i >= |a| {
        assert (a + b)[i] == b[i - |a|];
      }
    }
  }

  /** The stored name keeps the extension of the uploaded name; an uploaded name without
      one gives a stored name without any dot. */
  lemma {:induction false} StoredNameKeepsExtension(originalName: string, digits: seq<nat>)
    requires |digits| == 4 && forall i :: 0 <= i < 4 ==> digits[i] <= 16
    ensures ExtName(StoredName(originalName, digits)) == ExtName(originalName)
    ensures ExtName(originalName) == "" ==> NoDot(StoredName(originalName, digits))
  {
    var base := BaseName(originalName);
    var head := base + "-" + RandomName(digits);
    var x := ExtName(originalName);
    var stored := StoredName(originalName, digits);
    assert stored == head + x;
    NoDotConcat(base, "-");
    NoDotConcat(base + "-", RandomName(digits));
    if x == "" {
      assert stored == head;
    } else {
      var k := |head|;
      assert stored[k] == '.';
      forall j | k < j < |stored| ensures stored[j] != '.' {
        assert stored[j] == x[1..][j - k - 1];
      }
      LastDotIs(stored, k);
      assert stored[k..] == x;
      assert |stored| >= 6;
    }
  }

  /** "..", which `path.extname` treats apart, is not an image name. */
  lemma DotDotRejected()
    ensures !IsImageName("..")
  {
    LastDotIs("..", 1);
    ImageNameByLastDot("..");
    assert Lower(".."[1..]) == ".";
  }

  /** An accepted name has no extension for `path.extname` exactly when it is nothing
      but one of the extensions, such as ".png" or ".JPG". */
  lemma {:induction false} AcceptedNameWithoutExtension(originalName: string)
    requires IsImageName(originalName)
    ensures ExtName(originalName) == "" <==> Lower(originalName) in ImageExtensions
  {
    ImageNameByLastDot(originalName);
    var k := LastDot(originalName).value;
    var low := Lower(originalName);
    LowerOfSuffix(originalName, k);
    DotDotRejected();
    if k == 0 {
      assert originalName[k..] == originalName;
    } else {
      assert ExtName(originalName) != "";
      if low in ImageExtensions {
        ExtensionsHaveOneDot(low);
        assert false;
      }
    }
  }

  /** An accepted upload is stored under a name the filter also accepts, except when the
      uploaded name is nothing but an extension (".png", ".JPG"): `path.extname` gives
      such a name no extension, so the stored name has none. */
  lemma {:induction false} AcceptedUploadStaysImage(originalName: string, digits: seq<nat>)
    requires |digits| == 4 && forall i :: 0 <= i < 4 ==> digits[i] <= 16
    requires IsImageName(originalName)
    ensures IsImageName(StoredName(originalName, digits)) <==> !(Lower(originalName) in ImageExtensions)
  {
    var stored := StoredName(originalName, digits);
    StoredNameKeepsExtension(originalName, digits);
    AcceptedNameWithoutExtension(originalName);
    ImageNameByLastDot(originalName);
    ImageNameByLastDot(stored);
    var x := ExtName(originalName);
    if x != "" {
      var k := LastDot(originalName).value;
      assert Lower(x) == Lower(originalName[k..]);
      assert stored[LastDot(stored).value..] == x;
    } else {
      assert LastDot(stored).None?;
    }
  }

  /** ".png" passes the filter, yet is stored without any extension. */
  lemma DotOnlyNameLosesExtension(digits: seq<nat>)
    requires |digits| == 4 && forall i :: 0 <= i < 4 ==> digits[i] <= 16
    ensures IsImageName(".png")
    ensures !IsImageName(StoredName(".png", digits))
  {
    assert Lower(".png") == ".png";
    assert EndsWith(Lower(".png"), ImageExtensions[2]);
    AcceptedUploadStaysImage(".png", digits);
  }

  // ---------------------------------------------------------------- uploadedFile

  const FilesPrefix := ApiEndpoint + "/files/"

  /** The `url` of the upload response. */
  function UploadUrl(filename: string): (url: string)
    ensures |url| == |FilesPrefix| + |filename|
  {
    FilesPrefix + filename
  }

  /** The file name a returned URL points at, if it is an upload URL. */
  function FilenameOfUrl(url: string): Option<string> {
    if |FilesPrefix| <= |url| && url[..|FilesPrefix|] == FilesPrefix then Some(url[|FilesPrefix|..])
    else None
  }

  lemma UrlRoundTrip(filename: string, url: string)
    ensures FilenameOfUrl(UploadUrl(filename)) == Some(filename)
    ensures FilenameOfUrl(url) == Some(filename) ==> UploadUrl(filename) == url
  {
    var u := UploadUrl(filename);
    assert u[..|FilesPrefix|] == FilesPrefix;
    assert u[|FilesPrefix|..] == filename;
    if FilenameOfUrl(url) == Some(filename) {
      assert url == url[..|FilesPrefix|] + url[|FilesPrefix|..];
    }
  }
}
