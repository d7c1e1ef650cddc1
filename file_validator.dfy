/** FileValidator: the pre-upload checks (empty file, size ceiling, extension
    allow-list) and the extension extraction they use. */
module FileValidator {
  import opened JavaLang
  import opened Exceptions

  /** The parts of an uploaded MultipartFile the core reads; the content
      stream itself is not modelled. */
  datatype MultipartFile = MultipartFile(
    originalFilename: Nullable<string>,
    contentType: Nullable<string>,
    size: nat)
  {
    /** MultipartFile.isEmpty: the upload has no content. */
    predicate IsEmpty() { size == 0 }
  }

  /** filestore.file.max-file-size-bytes and filestore.file.allowed-extensions. */
  datatype ValidatorConfig = ValidatorConfig(maxFileSize: int, allowedExtensions: seq<string>)

  const EMPTY_FILE_MESSAGE: string := "File is empty"

  /** String.lastIndexOf(c): the last position holding c, or -1. */
  function LastIndexOf(s: string, c: char): (r: int)
    ensures -1 <= r < |s|
    ensures r == -1 <==> c !in s
    ensures 0 <= r ==> s[r] == c && c !in s[r + 1..]
    decreases |s|
  {
    if |s| == 0 then -1
    else if s[|s| - 1] == c then |s| - 1
    else
      var init := s[..|s| - 1];
      var r := LastIndexOf(init, c);
      assert s == init + [s[|s| - 1]];
      assert r >= 0 ==> s[r + 1..] == init[r + 1..] + [s[|s| - 1]];
      r
  }

  /** getFileExtension: the text after the last '.', or "" for a null or
      empty name, a name without '.', or a name ending in '.'. */
  function GetFileExtension(filename: Nullable<string>): string
  {
    if filename.Null? || |filename.value| == 0 then ""
    else
      var name := filename.value;
      var lastDot := LastIndexOf(name, '.');
      if lastDot == -1 || lastDot == |name| - 1 then "" else name[lastDot + 1..]
  }

  /** The extension is empty exactly for a null name, a name without '.' and
      a name whose last character is '.'. */
  lemma ExtensionEmptyIff(filename: Nullable<string>)
    ensures GetFileExtension(filename) == "" <==>
      filename.Null? || '.' !in filename.value || filename.value[|filename.value| - 1] == '.'
  {
  }

  /** A non-empty extension holds no '.', and the name is some prefix, a '.',
      then the extension. */
  lemma ExtensionIsLastSegment(name: string)
    requires GetFileExtension(Present(name)) != ""
    ensures var ext := GetFileExtension(Present(name));
      '.' !in ext && |ext| < |name| &&
      name == name[..|name| - |ext| - 1] + "." + ext
  {
    var ext := GetFileExtension(Present(name));
    var lastDot := LastIndexOf(name, '.');
    assert name == name[..lastDot] + "." + ext;
  }

  /** The last occurrence of c is the one followed by no other. */
  lemma {:induction false} LastIndexOfBeforeSuffix(s: string, c: char, t: string)
    requires c !in t
    ensures LastIndexOf(s + [c] + t, c) == |s|
    decreases |t|
  {
    var w := s + [c] + t;
    if |t| > 0 {
      assert w[..|w| - 1] == s + [c] + t[..|t| - 1];
      LastIndexOfBeforeSuffix(s, c, t[..|t| - 1]);
    }
  }

  /** Conversely, a name built as prefix + "." + ext, with ext non-empty and
      free of '.', has extension ext. */
  lemma ExtensionOfSplit(prefix: string, ext: string)
    requires |ext| > 0 && '.' !in ext
    ensures GetFileExtension(Present(prefix + "." + ext)) == ext
  {
    var name := prefix + "." + ext;
    LastIndexOfBeforeSuffix(prefix, '.', ext);
    assert name[|prefix| + 1..] == ext;
  }

  /** A dot-file's extension is the whole name after the dot. */
  lemma DotFileExtension()
    ensures GetFileExtension(Present(".bashrc")) == "bashrc"
  {
    ExtensionOfSplit("", "bashrc");
    assert "" + "." + "bashrc" == ".bashrc";
  }

  function SizeLimitMessage(size: int, maxFileSize: int): string
  {
    "File size (" + IntToString(size) + " bytes) exceeds maximum allowed size ("
      + IntToString(maxFileSize) + " bytes)"
  }

  function TypeNotAllowedMessage(extension: string, allowed: seq<string>): string
  {
    "File type '." + extension + "' is not allowed. Allowed types: " + Join(", ", allowed)
  }

  /** The allow-list test: an empty list admits everything; otherwise the
      lower-cased extension must be one of the entries as configured. */
  predicate TypeAllowed(config: ValidatorConfig, filename: Nullable<string>)
  {
    |config.allowedExtensions| == 0 ||
    ToLowerCase(GetFileExtension(filename)) in config.allowedExtensions
  }

  /** validateFile: returns, or throws the first failing check's exception. */
  function ValidateFile(config: ValidatorConfig, file: MultipartFile): (r: Outcome)
  {
    if file.IsEmpty() then
      Fail(IllegalArgument(EMPTY_FILE_MESSAGE))
    else if file.size > config.maxFileSize then
      Fail(FileSizeLimitExceeded(SizeLimitMessage(file.size, config.maxFileSize)))
    else if !TypeAllowed(config, file.originalFilename) then
      var extension := GetFileExtension(file.originalFilename);
      Fail(IllegalArgument(TypeNotAllowedMessage(extension, config.allowedExtensions)))
    else
      Pass
  }

  /** A file passes exactly when it is non-empty, within the ceiling, and of
      an allowed type. */
  lemma ValidateFilePassIff(config: ValidatorConfig, file: MultipartFile)
    ensures ValidateFile(config, file) == Pass <==>
      0 < file.size <= config.maxFileSize && TypeAllowed(config, file.originalFilename)
  {
  }

  /** An empty file is rejected with IllegalArgumentException whatever the
      ceiling and the allow-list, so the size and type checks never see it. */
  lemma EmptyFileRejectedFirst(config: ValidatorConfig, file: MultipartFile)
    requires file.size == 0
    ensures ValidateFile(config, file) == Fail(IllegalArgument("File is empty"))
  {
  }

  /** The ceiling is inclusive: a non-empty file larger than it fails with
      FileSizeLimitExceeded, one of exactly that size gets past the check. */
  lemma SizeCeilingInclusive(config: ValidatorConfig, file: MultipartFile)
    requires file.size > 0
    ensures ValidateFile(config, file).Fail? && ValidateFile(config, file).error.FileSizeLimitExceeded?
        <==> file.size > config.maxFileSize
    ensures file.size == config.maxFileSize ==>
        ValidateFile(config, file) == (if TypeAllowed(config, file.originalFilename) then Pass
          else Fail(IllegalArgument(TypeNotAllowedMessage(GetFileExtension(file.originalFilename), config.allowedExtensions))))
  {
  }

  /** With an empty allow-list every non-empty file within the ceiling passes,
      whatever its name. */
  lemma EmptyAllowListDisablesTypeCheck(maxFileSize: int, file: MultipartFile)
    requires 0 < file.size <= maxFileSize
    ensures ValidateFile(ValidatorConfig(maxFileSize, []), file) == Pass
  {
  }

  /** The extension is lower-cased but the entries are not: an entry written
      in upper case admits nothing, a lower-case entry admits any case. */
  lemma AllowListIsCaseSensitiveOnEntries()
    ensures ValidateFile(ValidatorConfig(100, ["PDF"]), MultipartFile(Present("a.PDF"), Null, 1)).Fail?
    ensures ValidateFile(ValidatorConfig(100, ["pdf"]), MultipartFile(Present("a.PDF"), Null, 1)) == Pass
  {
    assert LastIndexOf("a.PDF", '.') == 1;
    assert ToLowerCase("PDF") == "pdf";
  }

  /** A rejected type is always reported as an IllegalArgumentException. */
  lemma TypeRejectionIsIllegalArgument(config: ValidatorConfig, file: MultipartFile)
    requires 0 < file.size <= config.maxFileSize
    requires !TypeAllowed(config, file.originalFilename)
    ensures ValidateFile(config, file).Fail? && ValidateFile(config, file).error.IllegalArgument?
  {
  }
}
