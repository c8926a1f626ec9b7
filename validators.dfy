/**
 * The two validators attached to `Book.file`: the extension allow-list
 * check and the size limit check. The settings
 * `BOOK_FILE_VALID_EXTENSIONS` and `BOOK_FILE_SIZE_LIMIT_MB` are
 * parameters. A validator either returns (`Pass`) or raises a
 * `ValidationError` with a message (`Fail`).
 */
module Validators {
  import opened Wrappers
  import opened Strings
  import opened Paths

  datatype ValidationError = ValidationError(message: string)

  /** What the validators see of an uploaded file: its name and its size in bytes. */
  datatype FileInfo = FileInfo(name: string, size: nat)

  /** Bytes in one megabyte, as the size check counts them. */
  const BytesPerMegabyte: nat := 1024 * 1024

  /**
   * The extension error text. The source breaks its f-string literal with a
   * backslash-newline, so the twelve spaces that indent the second line
   * become part of the message. Its first word is a literal of its own so
   * that the verifier, which does not look inside long literals, can tell
   * this message from the size message.
   */
  function UnsupportedExtensionMessage(validExtensions: seq<string>): string {
    "Unsupported" + " file extension. Only the following            extensions are allowed: "
    + Join(", ", validExtensions)
  }

  function SizeLimitMessage(megabyteLimit: int): string {
    "Max file size is " + IntToDecimal(megabyteLimit) + "MB"
  }

  /** `validate_file_extension`: the lower-cased `splitext` suffix must be one of the allowed strings. */
  function ValidateFileExtension(name: string, validExtensions: seq<string>): (o: Outcome<ValidationError>)
    ensures o.Pass? <==> Lower(Ext(name)) in validExtensions
    ensures o.Fail? ==> o.error == ExtensionError(validExtensions)
  {
    var ext := Lower(Ext(name));
    if ext !in validExtensions then Fail(ValidationError(UnsupportedExtensionMessage(validExtensions)))
    else Pass
  }

  /** `validate_file_size`: at most `megabyteLimit` times 1024 * 1024 bytes. */
  function ValidateFileSize(size: nat, megabyteLimit: int): (o: Outcome<ValidationError>)
    ensures o.Pass? <==> size <= megabyteLimit * BytesPerMegabyte
    ensures o.Fail? ==> o.error == SizeError(megabyteLimit)
  {
    if size > megabyteLimit * 1024 * 1024 then Fail(ValidationError(SizeLimitMessage(megabyteLimit)))
    else Pass
  }

  /**
   * The extension check stated without `splitext`: a name with an extension
   * dot is accepted when the lower-cased text from that dot on is allowed;
   * a name without one is accepted only when the empty string is allowed.
   */
  lemma ExtensionAcceptedIff(name: string, validExtensions: seq<string>)
    ensures ValidateFileExtension(name, validExtensions).Pass? <==>
      (exists d :: IsExtensionDot(name, d) && Lower(name[d..]) in validExtensions)
      || ((forall d :: !IsExtensionDot(name, d)) && "" in validExtensions)
  {
    SplitExtCharacterization(name);
    if Ext(name) == "" {
      assert Lower("") == "";
    }
  }

  /** Two names that differ only in letter case get the same verdict. */
  lemma ExtensionCheckIgnoresCase(a: string, b: string, validExtensions: seq<string>)
    requires Lower(a) == Lower(b)
    ensures ValidateFileExtension(a, validExtensions) == ValidateFileExtension(b, validExtensions)
  {
    ExtOfLower(a);
    ExtOfLower(b);
  }

  /**
   * The allow-list itself is not lower-cased, so an entry with an
   * upper-case letter never matches: a list made only of such entries
   * rejects every file.
   */
  lemma UpperCaseEntriesNeverMatch(name: string, validExtensions: seq<string>)
    requires forall e :: e in validExtensions ==> !IsLowerCase(e)
    ensures ValidateFileExtension(name, validExtensions).Fail?
  {
  }

  /** The size check is monotone: once a size is too large, every larger size is too. */
  lemma SizeCheckMonotone(size: nat, larger: nat, megabyteLimit: int)
    requires size <= larger
    requires ValidateFileSize(size, megabyteLimit).Fail?
    ensures ValidateFileSize(larger, megabyteLimit).Fail?
  {
  }

  /** A file of exactly the limit passes; one byte more fails. */
  lemma SizeLimitIsInclusive(megabyteLimit: nat)
    ensures ValidateFileSize(megabyteLimit * BytesPerMegabyte, megabyteLimit).Pass?
    ensures ValidateFileSize(megabyteLimit * BytesPerMegabyte + 1, megabyteLimit).Fail?
  {
  }

  /** The size error names the configured limit: the number in its text reads back as that limit. */
  lemma SizeMessageNamesLimit(megabyteLimit: int)
    ensures var m := SizeLimitMessage(megabyteLimit);
      |m| > 19 && m[..17] == "Max file size is " && m[|m| - 2..] == "MB"
      && ParseDecimal(m[17..|m| - 2]) == Some(megabyteLimit)
  {
    var digits := IntToDecimal(megabyteLimit);
    var m := SizeLimitMessage(megabyteLimit);
    assert m[17..|m| - 2] == digits;
    IntToDecimalRoundTrip(megabyteLimit);
  }

  /**
   * Django runs the validators of `Book.file` only when a file is present
   * (the field allows null and blank), runs both in the order the field
   * lists them, and reports each error they raise once, extension first.
   */
  function RunFileValidators(file: Option<FileInfo>, validExtensions: seq<string>, megabyteLimit: int)
    : (errors: seq<ValidationError>)
    ensures |errors| <= 2
    ensures file.None? || file.value.name == "" ==> errors == []
    ensures file.Some? && file.value.name != "" ==>
      && (ExtensionError(validExtensions) in errors <==> ValidateFileExtension(file.value.name, validExtensions).Fail?)
      && (SizeError(megabyteLimit) in errors <==> ValidateFileSize(file.value.size, megabyteLimit).Fail?)
    ensures forall e :: e in errors ==> e == ExtensionError(validExtensions) || e == SizeError(megabyteLimit)
    ensures file.Some? && file.value.name != "" ==>
      |errors| == (if ValidateFileExtension(file.value.name, validExtensions).Fail? then 1 else 0)
                + (if ValidateFileSize(file.value.size, megabyteLimit).Fail? then 1 else 0)
    ensures |errors| == 2 ==> errors == [ExtensionError(validExtensions), SizeError(megabyteLimit)]
  {
    if file.None? || file.value.name == "" then []
    else
      var f := file.value;
      assert ExtensionError(validExtensions) != SizeError(megabyteLimit) by {
        assert UnsupportedExtensionMessage(validExtensions)[0] == 'U';
        assert SizeLimitMessage(megabyteLimit)[0] == 'M';
      }
      ErrorsOf(ValidateFileExtension(f.name, validExtensions)) + ErrorsOf(ValidateFileSize(f.size, megabyteLimit))
  }

  function ExtensionError(validExtensions: seq<string>): ValidationError {
    ValidationError(UnsupportedExtensionMessage(validExtensions))
  }

  function SizeError(megabyteLimit: int): ValidationError {
    ValidationError(SizeLimitMessage(megabyteLimit))
  }

  /** The errors one validator contributes: none when it returns, its own when it raises. */
  function ErrorsOf(o: Outcome<ValidationError>): seq<ValidationError> {
    if o.Pass? then [] else [o.error]
  }

  /** A book file is valid exactly when it is absent or both validators accept it. */
  lemma BookFileValidIff(file: Option<FileInfo>, validExtensions: seq<string>, megabyteLimit: int)
    ensures RunFileValidators(file, validExtensions, megabyteLimit) == [] <==>
      file.None? || file.value.name == ""
      || (Lower(Ext(file.value.name)) in validExtensions && file.value.size <= megabyteLimit * BytesPerMegabyte)
  {
  }

  /**
   * Each validator judges on its own: whether the extension error is
   * reported depends on the name only, whether the size error is reported
   * on the size only.
   */
  lemma ValidatorsAreIndependent(a: FileInfo, b: FileInfo, validExtensions: seq<string>, megabyteLimit: int)
    requires a.name != "" && b.name != ""
    ensures a.name == b.name ==>
      (ExtensionError(validExtensions) in RunFileValidators(Some(a), validExtensions, megabyteLimit)
       <==> ExtensionError(validExtensions) in RunFileValidators(Some(b), validExtensions, megabyteLimit))
    ensures a.size == b.size ==>
      (SizeError(megabyteLimit) in RunFileValidators(Some(a), validExtensions, megabyteLimit)
       <==> SizeError(megabyteLimit) in RunFileValidators(Some(b), validExtensions, megabyteLimit))
  {
  }
}
