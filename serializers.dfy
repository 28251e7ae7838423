/** The dataset serializers: the summary and detail field lists, and the
    upload serializer's validation of `name` and `file`. */
module Serializers {
  import opened Wrappers
  import opened Strings
  import opened Files
  import opened Models
  import opened Services

  // ------------------------------------------------------------------
  // Field lists.
  // ------------------------------------------------------------------

  /** `DatasetSummarySerializer.Meta.fields`. */
  const SummaryFields: seq<string> :=
    ["id", "name", "source_filename", "uploaded_at", "total_records", "avg_flowrate",
     "avg_pressure", "avg_temperature", "type_distribution", "metrics"]

  /** `DatasetDetailSerializer.Meta.fields`. */
  const DetailFields: seq<string> := SummaryFields + ["records"]

  /** The detail list is the summary list then `records`; the summary list
      holds no `records`, no `original_file` and no field twice. */
  lemma FieldLists()
    ensures |DetailFields| == |SummaryFields| + 1
    ensures DetailFields[..|SummaryFields|] == SummaryFields
    ensures DetailFields[|SummaryFields|] == "records"
    ensures "records" !in SummaryFields && "original_file" !in SummaryFields
    ensures forall i, j :: 0 <= i < j < |DetailFields| ==> DetailFields[i] != DetailFields[j]
  {
  }

  // ------------------------------------------------------------------
  // The `file` field: `serializers.FileField()` then `validate_file`.
  // ------------------------------------------------------------------

  const NoFileMessage: string := "No file was submitted."
  const NotAFileMessage: string := "The submitted data was not a file. Check the encoding type on the form."
  const NoNameMessage: string := "No filename could be determined."
  const EmptyFileMessage: string := "The submitted file is empty."
  const NotCsvMessage: string := "Only CSV uploads are supported."

  /** `file.name.lower().endswith(".csv")`. */
  predicate IsCsvName(name: string)
  {
    EndsWith(Lower(name), ".csv")
  }

  /** `validate_file`: the file itself when its name ends in `.csv` in any
      letter case. */
  function ValidateFile(file: FileObj, name: string): (r: Result<FileObj, string>)
    ensures r.Success? <==> IsCsvName(name)
    ensures r.Success? ==> r.value == file
    ensures r.Failure? ==> r.error == NotCsvMessage
  {
    if IsCsvName(name) then Success(file) else Failure(NotCsvMessage)
  }

  /** The name's last four characters are `.`, then `c`, `s`, `v` in either case. */
  predicate HasCsvSuffix(name: string)
  {
    var n := |name|;
    n >= 4 && name[n - 4] == '.' && (name[n - 3] == 'c' || name[n - 3] == 'C')
    && (name[n - 2] == 's' || name[n - 2] == 'S') && (name[n - 1] == 'v' || name[n - 1] == 'V')
  }

  /** The suffix check, character by character. */
  lemma CsvNameIff(name: string)
    ensures IsCsvName(name) <==> HasCsvSuffix(name)
  {
    var l := Lower(name);
    var n := |name|;
    if n >= 4 {
      assert l[n - 4..] == [l[n - 4], l[n - 3], l[n - 2], l[n - 1]];
      if IsCsvName(name) {
        assert l[n - 4] == '.' && l[n - 3] == 'c' && l[n - 2] == 's' && l[n - 1] == 'v';
      }
    }
  }

  lemma CsvNameExamples()
    ensures IsCsvName("A.CSV") && IsCsvName("data.csv") && IsCsvName(".csv")
    ensures !IsCsvName("a.csv.txt") && !IsCsvName("csv")
  {
    CsvNameIff("A.CSV");
    CsvNameIff("data.csv");
    CsvNameIff(".csv");
    CsvNameIff("a.csv.txt");
    CsvNameIff("csv");
  }

  /** The `file` field: `None` when the form has no file part. `FileField`
      rejects a missing file, an object without a name, an empty name and
      empty content, in that order, before `validate_file` runs. */
  function ValidateFileField(file: Option<FileObj>): (r: Result<FileObj, string>)
    ensures r.Success? <==> file.Some? && file.value.name.Some? && file.value.name.value != []
                            && file.value.content != [] && IsCsvName(file.value.name.value)
    ensures r.Success? ==> r.value == file.value
  {
    match file
    case None => Failure(NoFileMessage)
    case Some(f) =>
      match f.name
      case None => Failure(NotAFileMessage)
      case Some(n) =>
        if n == [] then Failure(NoNameMessage)
        else if f.content == [] then Failure(EmptyFileMessage)
        else ValidateFile(f, n)
  }

  // ------------------------------------------------------------------
  // The `name` field: `CharField(max_length=255, required=False, allow_blank=True)`.
  // ------------------------------------------------------------------

  const NameMaxLength: nat := 255
  const NameTooLongMessage: string := "Ensure this field has no more than 255 characters."
  const NullCharacterMessage: string := "Null characters are not allowed."

  /** Every validator message for a trimmed value, in validator order. */
  function NameErrors(value: string): (r: seq<string>)
    ensures r == [] <==> |value| <= NameMaxLength && '\0' !in value
  {
    (if |value| > NameMaxLength then [NameTooLongMessage] else [])
    + (if '\0' in value then [NullCharacterMessage] else [])
  }

  /** The `name` field: `None` when absent (it is optional); otherwise the
      value with surrounding whitespace trimmed, a blank value becoming
      `""`, subject to the length and null-character validators. */
  function ValidateName(name: Option<string>): (r: Result<Option<string>, seq<string>>)
    ensures name.None? ==> r == Success(None)
    ensures r.Success? && r.value.Some? ==>
              name.Some? && r.value.value == Strip(name.value)
              && |r.value.value| <= NameMaxLength && '\0' !in r.value.value
    ensures name.Some? ==> (r.Failure? <==> |Strip(name.value)| > NameMaxLength || '\0' in Strip(name.value))
  {
    match name
    case None => Success(None)
    case Some(raw) =>
      var value := Strip(raw);
      if value == [] then Success(Some(""))
      else
        var errors := NameErrors(value);
        if errors == [] then Success(Some(value)) else Failure(errors)
  }

  /** A name of whitespace only is accepted as blank. */
  lemma BlankNameAccepted(raw: string)
    requires forall i :: 0 <= i < |raw| ==> IsSpace(raw[i])
    ensures ValidateName(Some(raw)) == Success(Some(""))
  {
  }

  // ------------------------------------------------------------------
  // The whole upload form.
  // ------------------------------------------------------------------

  /** `validated_data`: the optional name and the file. */
  datatype Upload = Upload(name: Option<string>, file: FileObj)

  /** One field's error messages. */
  datatype FieldErrors = FieldErrors(field: string, messages: seq<string>)

  /** `DatasetUploadSerializer(data=...).is_valid()`: both fields are
      validated and every failing field reports its messages. */
  function ValidateUpload(name: Option<string>, file: Option<FileObj>): (r: Result<Upload, seq<FieldErrors>>)
    ensures r.Success? <==> ValidateName(name).Success? && ValidateFileField(file).Success?
    ensures r.Success? ==> r.value == Upload(ValidateName(name).value, ValidateFileField(file).value)
    ensures r.Failure? ==> r.error != []
  {
    var n := ValidateName(name);
    var f := ValidateFileField(file);
    if n.Success? && f.Success? then Success(Upload(n.value, f.value))
    else
      Failure((if n.Failure? then [FieldErrors("name", n.error)] else [])
              + (if f.Failure? then [FieldErrors("file", [f.error])] else []))
  }

  /** An upload that passes the serializer has a `.csv` name and content,
      so the pipeline's empty-upload error cannot arise from the upload
      view. */
  lemma ValidatedUploadNeverEmpty(name: Option<string>, file: Option<FileObj>,
                                  readCsv: seq<byte> -> Result<CsvTable, string>,
                                  parse: string -> Option<real>, id: nat, uploadedAt: int, stamp: DateTime)
    requires ValidateUpload(name, file).Success?
    ensures var u := ValidateUpload(name, file).value;
            u.file.content != [] && u.file.name.Some? && HasCsvSuffix(u.file.name.value)
            && Ingest(u.file, u.name, readCsv, parse, id, uploadedAt, stamp) != Failure(EmptyUpload)
  {
    var u := ValidateUpload(name, file).value;
    CsvNameIff(u.file.name.value);
    LoadNeverEmptyUpload(readCsv(u.file.content), parse);
  }

  /** A load never fails with the empty-upload error. */
  lemma LoadNeverEmptyUpload(t: Result<CsvTable, string>, parse: string -> Option<real>)
    ensures t.Success? ==> LoadRecords(t.value, parse) != Failure(EmptyUpload)
  {
  }
}
