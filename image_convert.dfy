/**
 * The image converter's input checks: which selected files are read as
 * data URLs, and which pasted text is offered to the browser as an image,
 * with the Base64 alphabet of section 4 of RFC 4648.  Reading the file and
 * loading the image are asynchronous; their completions are separate
 * methods of the state class.
 */
module ImageConvert {
  import opened Wrappers
  import opened JsPrims

  const NotImageMessage := "画像ファイルを選択してください。"
  const TooLargeMessage := "ファイルサイズは5MB以下にしてください。"
  const ReadFailedMessage := "ファイルの読み込みに失敗しました。"
  const InvalidBase64Message := "有効なBase64データを入力してください。"
  const NotAnImageMessage := "有効な画像のBase64データではありません。"
  const DataImagePrefix := "data:image/"
  const PngPrefix := "data:image/png;base64,"

  /** 5 * 1024 * 1024 bytes. */
  const MaxFileSize := 5242880

  // ---------------------------------------------------------------------
  // Selected files
  // ---------------------------------------------------------------------

  /** What the model needs of a `File`: its MIME type and its size in bytes. */
  datatype FileInfo = FileInfo(mimeType: string, size: nat)

  /** The checks of handleFileSelect: the error shown, or `None` when the file is read. */
  function FileCheck(f: FileInfo): Option<string> {
    if !StartsWith(f.mimeType, "image/") then Some(NotImageMessage)
    else if f.size > MaxFileSize then Some(TooLargeMessage)
    else None
  }

  /**
   * A file is read exactly when its type starts with 'image/' and it is at
   * most 5 MiB; a non-image is reported as such whatever its size.
   */
  lemma FileAcceptance(f: FileInfo)
    ensures FileCheck(f).None? <==> StartsWith(f.mimeType, "image/") && f.size <= MaxFileSize
    ensures !StartsWith(f.mimeType, "image/") ==> FileCheck(f) == Some(NotImageMessage)
    ensures StartsWith(f.mimeType, "image/") && f.size > MaxFileSize ==> FileCheck(f) == Some(TooLargeMessage)
  {
  }

  /** The limit itself is allowed; one byte more is not. */
  lemma SizeLimitBoundary(mimeType: string)
    requires StartsWith(mimeType, "image/")
    ensures FileCheck(FileInfo(mimeType, 5 * 1024 * 1024)) == None
    ensures FileCheck(FileInfo(mimeType, 5 * 1024 * 1024 + 1)) == Some(TooLargeMessage)
  {
  }

  // ---------------------------------------------------------------------
  // The Base64 pattern /^[A-Za-z0-9+/]*={0,2}$/
  // ---------------------------------------------------------------------

  /** The Base64 alphabet (section 4 of RFC 4648), without the pad character. */
  predicate IsBase64Char(c: char) {
    ('A' <= c <= 'Z') || ('a' <= c <= 'z') || ('0' <= c <= '9') || c == '+' || c == '/'
  }

  /** Length of the longest prefix of alphabet characters. */
  function AlphabetRun(s: string): (n: nat)
    ensures n <= |s|
    ensures forall i :: 0 <= i < n ==> IsBase64Char(s[i])
    ensures n < |s| ==> !IsBase64Char(s[n])
  {
    if |s| > 0 && IsBase64Char(s[0]) then 1 + AlphabetRun(s[1..]) else 0
  }

  /** The regular expression test, read left to right: the alphabet run, then at most two '='. */
  predicate MatchesBase64(s: string) {
    var n := AlphabetRun(s);
    |s| - n <= 2 && forall i :: n <= i < |s| ==> s[i] == '='
  }

  /** s is alphabet characters up to k and then nothing but at most two '='. */
  predicate SplitsAt(s: string, k: nat)
    requires k <= |s|
  {
    (forall i :: 0 <= i < k ==> IsBase64Char(s[i])) && |s| - k <= 2 && forall i :: k <= i < |s| ==> s[i] == '='
  }

  /** Where the pattern splits s, the alphabet run ends. */
  lemma {:induction false} RunEndsAtSplit(s: string, k: nat)
    requires k <= |s| && SplitsAt(s, k)
    ensures AlphabetRun(s) == k
  {
    if k > 0 {
      assert SplitsAt(s[1..], k - 1) by {
        assert forall i :: 0 <= i < k - 1 ==> s[1..][i] == s[i + 1];
      }
      RunEndsAtSplit(s[1..], k - 1);
    } else if |s| > 0 {
      assert s[0] == '=';
    }
  }

  /** The test accepts exactly the strings the pattern describes. */
  lemma MatchesBase64Iff(s: string)
    ensures MatchesBase64(s) <==> exists k :: 0 <= k <= |s| && SplitsAt(s, k)
  {
    var n := AlphabetRun(s);
    if MatchesBase64(s) {
      assert SplitsAt(s, n);
    }
    if k :| 0 <= k <= |s| && SplitsAt(s, k) {
      RunEndsAtSplit(s, k);
    }
  }

  // ---------------------------------------------------------------------
  // Pasted text
  // ---------------------------------------------------------------------

  /** What handleBase64Input decides before the image load test. */
  datatype InputOutcome =
    | Blank                     // nothing but white space: no preview, no error
    | Rejected                  // fails the pattern: an error and no preview
    | Candidate(dataUrl: string) // handed to an Image for the load test

  function CheckBase64Input(value: string): InputOutcome {
    var data := Trim(value);
    if |data| == 0 then Blank
    else if StartsWith(data, DataImagePrefix) then Candidate(data)
    else if !MatchesBase64(data) then Rejected
    else Candidate(PngPrefix + data)
  }

  /**
   * Blank input is blank; trimmed input already naming an image data URL
   * is tried as it is; anything else is tried with the PNG prefix exactly
   * when it matches the pattern, and every candidate is an image data URL.
   */
  lemma Base64InputOutcomes(value: string)
    ensures CheckBase64Input(value) == Blank <==> |Trim(value)| == 0
    ensures |Trim(value)| > 0 && StartsWith(Trim(value), DataImagePrefix) ==>
      CheckBase64Input(value) == Candidate(Trim(value))
    ensures |Trim(value)| > 0 && !StartsWith(Trim(value), DataImagePrefix) ==>
      (CheckBase64Input(value).Candidate? <==> MatchesBase64(Trim(value)))
      && (CheckBase64Input(value).Candidate? ==> CheckBase64Input(value).dataUrl == PngPrefix + Trim(value))
    ensures CheckBase64Input(value).Candidate? ==> StartsWith(CheckBase64Input(value).dataUrl, DataImagePrefix)
  {
    var data := Trim(value);
    if |data| > 0 && !StartsWith(data, DataImagePrefix) && MatchesBase64(data) {
      assert (PngPrefix + data)[..|DataImagePrefix|] == DataImagePrefix;
    }
  }

  // ---------------------------------------------------------------------
  // The component's state
  // ---------------------------------------------------------------------

  class Converter {
    var selectedFile: Option<FileInfo>
    var base64Output: string
    var base64Input: string
    var imagePreview: string
    var error: Option<string>

    constructor()
      ensures selectedFile == None && base64Output == "" && base64Input == "" && imagePreview == "" && error == None
    {
      selectedFile := None;
      base64Output := "";
      base64Input := "";
      imagePreview := "";
      error := None;
    }

    /**
     * handleFileSelect: no file does nothing; a rejected file sets the
     * error; an accepted one clears the error, is remembered and is read
     * (`read` is true when the read is started).
     */
    method HandleFileSelect(file: Option<FileInfo>) returns (read: bool)
      modifies this
      ensures base64Output == old(base64Output) && base64Input == old(base64Input) && imagePreview == old(imagePreview)
      ensures file.None? ==> !read && selectedFile == old(selectedFile) && error == old(error)
      ensures file.Some? && FileCheck(file.value).Some? ==>
        !read && selectedFile == old(selectedFile) && error == FileCheck(file.value)
      ensures file.Some? && FileCheck(file.value).None? ==> read && selectedFile == file && error == None
    {
      read := false;
      if file.None? {
        return;
      }
      var f := file.value;
      if !StartsWith(f.mimeType, "image/") {
        error := Some(NotImageMessage);
        return;
      }
      if f.size > MaxFileSize {
        error := Some(TooLargeMessage);
        return;
      }
      error := None;
      selectedFile := file;
      read := true;
    }

    /** reader.onload: the data URL becomes the output and the preview. */
    method OnFileRead(result: string)
      modifies this
      ensures base64Output == result && imagePreview == result
      ensures selectedFile == old(selectedFile) && base64Input == old(base64Input) && error == old(error)
    {
      base64Output := result;
      imagePreview := result;
    }

    /** reader.onerror. */
    method OnFileReadError()
      modifies this
      ensures error == Some(ReadFailedMessage)
      ensures selectedFile == old(selectedFile) && base64Output == old(base64Output)
      ensures base64Input == old(base64Input) && imagePreview == old(imagePreview)
    {
      error := Some(ReadFailedMessage);
    }

    /**
     * handleBase64Input: remember the text and clear the error; then, as
     * CheckBase64Input decides, blank text clears the preview, text failing
     * the pattern sets the error and clears the preview, and any other text
     * is returned as the data URL to load as an image.
     */
    method HandleBase64Input(value: string) returns (load: Option<string>)
      modifies this
      ensures base64Input == value
      ensures selectedFile == old(selectedFile) && base64Output == old(base64Output)
      ensures CheckBase64Input(value) == Blank ==> imagePreview == "" && error == None && load == None
      ensures CheckBase64Input(value) == Rejected ==>
        imagePreview == "" && error == Some(InvalidBase64Message) && load == None
      ensures CheckBase64Input(value).Candidate? ==>
        imagePreview == old(imagePreview) && error == None && load == Some(CheckBase64Input(value).dataUrl)
    {
      base64Input := value;
      error := None;
      load := None;
      var outcome := CheckBase64Input(value);
      match outcome {
        case Blank =>
          imagePreview := "";
        case Rejected =>
          error := Some(InvalidBase64Message);
          imagePreview := "";
        case Candidate(dataUrl) =>
          load := Some(dataUrl);
      }
    }

    /** img.onload: the data URL that loaded becomes the preview. */
    method OnImageLoad(dataUrl: string)
      modifies this
      ensures imagePreview == dataUrl && error == None
      ensures selectedFile == old(selectedFile) && base64Output == old(base64Output) && base64Input == old(base64Input)
    {
      imagePreview := dataUrl;
      error := None;
    }

    /** img.onerror. */
    method OnImageError()
      modifies this
      ensures imagePreview == "" && error == Some(NotAnImageMessage)
      ensures selectedFile == old(selectedFile) && base64Output == old(base64Output) && base64Input == old(base64Input)
    {
      error := Some(NotAnImageMessage);
      imagePreview := "";
    }
  }
}
