/**
 * `process_resumes(uploaded_files)`: one record per uploaded file whose
 * text is not empty, in upload order. The PDF reader is the parameter
 * `pdfText`. It gives "" when no text was read: the file holds none, or
 * reading failed before the first page gave any. When reading fails part-way
 * it gives the text of the pages read before the failure. A file with empty
 * text is skipped.
 */
module Batch {
  import opened Text
  import opened Contact

  /** An uploaded file: its name and its bytes. */
  datatype UploadedFile = UploadedFile(name: string, content: seq<bv8>)

  /** `if text:` on the reader's result. */
  function Readable(pdfText: UploadedFile -> string): UploadedFile -> bool
  {
    f => pdfText(f) != ""
  }

  /** `extract_contact_info(text, uploaded_file.name)` */
  function RecordOf(pdfText: UploadedFile -> string): UploadedFile -> ContactInfo
  {
    f => ContactInfoOf(pdfText(f), f.name)
  }

  /** The records of `files`, as the loop builds them. */
  function Records(files: seq<UploadedFile>, pdfText: UploadedFile -> string): seq<ContactInfo>
  {
    FilterMap(files, Readable(pdfText), RecordOf(pdfText))
  }

  /** The positions of the files whose text is not empty. */
  function TextIndices(files: seq<UploadedFile>, pdfText: UploadedFile -> string): seq<nat>
  {
    Kept(files, Readable(pdfText))
  }

  /** The loop as the source writes it. */
  method ProcessResumes(files: seq<UploadedFile>, pdfText: UploadedFile -> string) returns (data: seq<ContactInfo>)
    ensures data == Records(files, pdfText)
  {
    data := [];
    for i := 0 to |files|
      invariant data == Records(files[..i], pdfText)
    {
      assert files[..i + 1][..i] == files[..i];
      var text := pdfText(files[i]);
      if text != "" {
        var info := ExtractContactInfo(text, files[i].name);
        data := data + [info];
      }
    }
    assert files[..|files|] == files;
  }

  /** Processing a batch in two parts gives the two parts' records, one
      after the other. */
  lemma RecordsAppend(a: seq<UploadedFile>, b: seq<UploadedFile>, pdfText: UploadedFile -> string)
    ensures Records(a + b, pdfText) == Records(a, pdfText) + Records(b, pdfText)
  {
    FilterMapAppend(a, b, Readable(pdfText), RecordOf(pdfText));
  }

  /** There is one record per file whose text is not empty, and no other:
      the files are taken at strictly increasing positions, a position is
      taken exactly when its file's text is not empty, and record `k` is
      built from the text and the name of the `k`-th such file. So there are
      never more records than files. */
  lemma RecordsSpec(files: seq<UploadedFile>, pdfText: UploadedFile -> string)
    ensures var idx := TextIndices(files, pdfText);
      && |Records(files, pdfText)| == |idx| <= |files|
      && (forall k, m :: 0 <= k < m < |idx| ==> idx[k] < idx[m])
      && (forall j :: 0 <= j < |files| ==> (j in idx <==> pdfText(files[j]) != ""))
      && forall k :: 0 <= k < |idx| ==>
        Records(files, pdfText)[k] == ContactInfoOf(pdfText(files[idx[k]]), files[idx[k]].name)
  {
    var keep := Readable(pdfText);
    KeptSpec(files, keep);
    FilterMapSpec(files, keep, RecordOf(pdfText));
    var idx := TextIndices(files, pdfText);
    forall j | 0 <= j < |files| ensures j in idx <==> pdfText(files[j]) != "" {
      assert keep(files[j]) == (pdfText(files[j]) != "");
    }
    forall k | 0 <= k < |idx|
      ensures Records(files, pdfText)[k] == ContactInfoOf(pdfText(files[idx[k]]), files[idx[k]].name)
    {
      assert RecordOf(pdfText)(files[idx[k]]) == ContactInfoOf(pdfText(files[idx[k]]), files[idx[k]].name);
    }
  }

  /** A file whose text is empty is skipped, and the others are processed
      as if it were not there. */
  lemma FailureIsolated(a: UploadedFile, b: UploadedFile, c: UploadedFile, pdfText: UploadedFile -> string)
    requires pdfText(a) != "" && pdfText(b) == "" && pdfText(c) != ""
    ensures Records([a, b, c], pdfText) == [ContactInfoOf(pdfText(a), a.name), ContactInfoOf(pdfText(c), c.name)]
  {
    var keep, f := Readable(pdfText), RecordOf(pdfText);
    assert [a, b, c][..2] == [a, b];
    assert [a, b][..1] == [a];
    assert [a][..0] == [];
    assert FilterMap([a], keep, f) == [f(a)];
    assert FilterMap([a, b], keep, f) == [f(a)];
  }
}
