# Resume parser: contact extraction, modelled in Dafny

This project models the extraction core of a small resume parser. The parser
reads the text of each uploaded PDF and builds one record per resume. The
record has six fields: `Name`, `Phone`, `Email`, `Years of Experience`,
`Location` and `Filename`.

- The e-mail and the phone are the first match of a regular expression.
- The name is the first line that looks like a name, with a leading title
  (Mr, Mrs, Ms, Dr, Prof) cut off.
- The experience comes from the first of three patterns that matches.
- The location is the first of ten Indian cities found as a whole word,
  title-cased.
- `process_resumes` runs this on every file whose text is not empty,
  keeping the upload order.

Every regular expression is written out as a deterministic scan, and each
scan is proved against a declarative description of its pattern:

- For the e-mail and the phone, the description says which substrings match.
  The scan is proved to report the match at the leftmost start where one
  exists, and the longest match at that start.
- For the three experience patterns, a predicate describes a match as a
  split of the text into the pattern's parts. The scan at a start is proved
  to report group `g` exactly when such a match starts there with group 1
  equal to `g`.
- For the title and the cities, the alternatives are tried in list order,
  and the first one that matches is proved to be taken.

The three loops of the source are methods, each proved equal to the function
that specifies it:

- the candidate-name loop, `Name.ExtractName`;
- the experience loop that stops at its first match, `Experience.ExtractExperience`;
- the per-file loop, `Batch.ProcessResumes`.

The files are:

- `wrappers.dfy`: the `Option` type.
- `text.dfy`: character classes and `str` operations (`strip`, `split`,
  `lower`, `title`). It also holds the generic scans the rules share: the
  first index with a property, and an order-keeping filter-map.
- `email.dfy`, `phone.dfy`, `name.dfy`, `experience.dfy`, `location.dfy`:
  one file per field rule.
- `contact.dfy`: the record and `extract_contact_info`.
- `batch.dfy`: `process_resumes`.

The PDF reader is a parameter `pdfText: UploadedFile -> string`, standing for
`extract_text_from_pdf`. That function returns the text gathered up to the point
where reading stopped:

- it returns "" when no page gave any text, because the file holds none or
  because reading failed before the first page;
- it returns the text of the pages read before a failure when reading fails
  part-way.

A file whose text is "" is skipped.

Some consequences of the code that the contracts make explicit:

- A phone match has at least ten characters from its first digit to its last
  digit, separators included.
- The experience field holds the number only: "5" for "5 years of
  experience".
- An absent value is "N/A" for the experience and "" for every other field.

## Model

| member | source | states |
|---|---|---|
| Email.EmailOfSpec | resume_parser_app/resume_parser_app.py:22-23 | The e-mail is "" exactly when no substring of the text matches `[\w\.-]+@[\w\.-]+`. Otherwise it is a match that starts at the leftmost matching position and is the longest match starting there. |
| Email.EmailOfAddress | resume_parser_app/resume_parser_app.py:22-23 | A text that is itself one address yields that address unchanged. |
| Email.FirstEmailSpec | resume_parser_app/resume_parser_app.py:22 | The left-to-right scan misses no start: no start before the one it reports matches, and when it reports none, no start matches. |
| Email.EmailEndAtMatches | resume_parser_app/resume_parser_app.py:22 | The end the greedy scan computes at a start gives a full match of the pattern. |
| Email.MatchWithinEmailEnd | resume_parser_app/resume_parser_app.py:22 | Every match at a start is found by the greedy scan, which ends no earlier than that match. |
| Phone.PhoneOfSpec | resume_parser_app/resume_parser_app.py:26-27 | The phone is "" exactly when nothing matches `[\+\(]?[1-9][0-9 .\-\(\)]{8,}[0-9]`. Otherwise it is the match at the leftmost matching start, and the longest there. |
| Phone.FirstPhoneSpec | resume_parser_app/resume_parser_app.py:26 | The left-to-right scan misses no start before the one it reports, and none at all when it reports none. |
| Phone.PhoneEndAtMatches | resume_parser_app/resume_parser_app.py:26 | The end the greedy scan with backtracking computes gives a full match of the pattern. |
| Phone.MatchWithinPhoneEnd | resume_parser_app/resume_parser_app.py:26 | Every match at a start is found by the scan, which ends no earlier. |
| Phone.NoPhoneEnd | resume_parser_app/resume_parser_app.py:26 | Where the scan finds no end, nothing matches at that start. |
| Text.StripSpec | resume_parser_app/resume_parser_app.py:31 | `strip()` leaves no whitespace at either end. |
| Text.StripInfix | resume_parser_app/resume_parser_app.py:31 | `strip()` gives the infix of the string between its leading and trailing whitespace, both of which it removes. |
| Text.StrippedIffFixed | resume_parser_app/resume_parser_app.py:31 | `strip()` leaves a string unchanged exactly when that string has no whitespace at either end. |
| Text.SplitNewlinesJoin | resume_parser_app/resume_parser_app.py:31 | `split('\n')` loses nothing: joining its pieces with newlines gives the text back. |
| Text.SplitWhitespaceSpec | resume_parser_app/resume_parser_app.py:39 | `split()` yields one token per token start, in order, where a token start is a non-whitespace character at the start of the string or after whitespace. Token k is the maximal run of non-whitespace characters from the k-th start. |
| Text.TokenStartsSpec | resume_parser_app/resume_parser_app.py:39 | The token starts are listed in strictly increasing order, and a position is listed exactly when a token starts there. |
| Text.TokenAtSpec | resume_parser_app/resume_parser_app.py:39 | A token is non-empty and holds no whitespace. Whitespace or an end of the string comes before it and after it. |
| Text.TitleOfWord | resume_parser_app/resume_parser_app.py:67 | `title()` of a word of letters upper-cases the first letter and lower-cases the rest. |
| Text.TitleOfLit | resume_parser_app/resume_parser_app.py:65-67 | A case-insensitive match of a lower-case word, once title-cased, is that word with its first letter upper-cased. |
| Text.FilterMapSpec | resume_parser_app/resume_parser_app.py:35-40 | An order-keeping filter-map has one result per kept element, and result k is built from the k-th kept element. |
| Text.KeptSpec | resume_parser_app/resume_parser_app.py:35-40 | The kept positions strictly increase. A position is kept exactly when its element passes the test. There are no more of them than elements. |
| Text.FilterMapFirst | resume_parser_app/resume_parser_app.py:42-43 | The filtered list is empty exactly when no element passes. Otherwise its first entry comes from the first element that passes. |
| Name.Lines | resume_parser_app/resume_parser_app.py:31 | Every line kept is non-empty and stripped. |
| Name.LinesSpec | resume_parser_app/resume_parser_app.py:31 | `lines` is the `strip()` of the pieces of `split('\n')` that are not blank once stripped, in order. There is one line per such piece, the pieces are taken at strictly increasing positions, and line k is the stripped k-th such piece. |
| Name.CandidatesSpec | resume_parser_app/resume_parser_app.py:34-41 | `potential_names` holds only lines that pass the filter. It is empty exactly when no line passes. Otherwise its first entry is the first line that passes. |
| Name.NameCandidateTokens | resume_parser_app/resume_parser_app.py:36-39 | A line passes the filter exactly when it has no digit, no `@`, no "http" in any case, and one to four token starts. |
| Name.StripHonorificSpec | resume_parser_app/resume_parser_app.py:44 | The substitution changes nothing unless the line starts with Mr, Mrs, Ms, Dr or Prof in any case. If it does, it deletes the first of these in that order, an optional dot and the whitespace after, and nothing more. |
| Name.StripHonorificOfStripped | resume_parser_app/resume_parser_app.py:44-45 | On a stripped line the substitution leaves a stripped suffix, so the final `strip()` changes nothing. |
| Name.NameOfNoCandidate | resume_parser_app/resume_parser_app.py:30-43 | The name is "" when no line passes the filter. |
| Name.NameOfFirstCandidate | resume_parser_app/resume_parser_app.py:42-45 | Otherwise the name is the first passing line with its title cut, and a suffix of that line. |
| Name.NameOfIsClean | resume_parser_app/resume_parser_app.py:36-45 | The name never holds a digit, an `@`, or "http" in any case. |
| Name.ExtractName | resume_parser_app/resume_parser_app.py:30-45 | The loop that builds `potential_names` and takes its first entry computes the name. |
| Name.HonorificMrs | resume_parser_app/resume_parser_app.py:44 | "Mrs. Smith" becomes "s. Smith": the `Mr` alternative wins before `Mrs` is tried. |
| Name.HonorificInsideWord | resume_parser_app/resume_parser_app.py:44 | "Drake Lee" becomes "ake Lee": no word boundary is required after the title. |
| Name.HonorificWithDot | resume_parser_app/resume_parser_app.py:44 | "Dr. John Smith" becomes "John Smith". |
| Name.HonorificAbsent | resume_parser_app/resume_parser_app.py:44 | A name without a title is left alone. |
| Experience.MatchAt | resume_parser_app/resume_parser_app.py:49-53 | At a start position, each of the three patterns yields a group 1 that is a non-empty run of digits, or nothing. |
| Experience.RunSpec | resume_parser_app/resume_parser_app.py:50-52 | A run of `\s*` or `\d+` is a stretch of the text whose every character is in the class. |
| Experience.MatchAtSpec | resume_parser_app/resume_parser_app.py:49-55 | The scan at a start reports group g exactly when the pattern matches some text from that start with group 1 equal to g, as `PatternMatch` describes the match part by part. So all matches at one start have the same group 1. |
| Experience.YearsOfExperienceSpec | resume_parser_app/resume_parser_app.py:50 | For the first pattern (digits, an optional `+`, `year`, `years`, `yr` or `yrs`, an optional `of`, then `exp` or `experience`), the scan reports g exactly when a match with group 1 equal to g starts there. |
| Experience.YearsOfExperienceSound | resume_parser_app/resume_parser_app.py:50 | What the scan reports for the first pattern is group 1 of a match of it. |
| Experience.YearsOfExperienceComplete | resume_parser_app/resume_parser_app.py:50 | Every match of the first pattern is reported by the scan, with its group 1. |
| Experience.ExperienceColonSpec | resume_parser_app/resume_parser_app.py:51 | For the second pattern (`experience`, a colon, digits, then `year`, `years`, `yr` or `yrs`), the scan reports g exactly when a match with group 1 equal to g starts there. |
| Experience.ExperienceColonSound | resume_parser_app/resume_parser_app.py:51 | What the scan reports for the second pattern is group 1 of a match of it. |
| Experience.ExperienceColonComplete | resume_parser_app/resume_parser_app.py:51 | Every match of the second pattern is reported by the scan, with its group 1. |
| Experience.YearRangeSpec | resume_parser_app/resume_parser_app.py:52 | For the third pattern (digits, a dash, digits, `year` or `years`, then `experience`), the scan reports g exactly when a match with group 1 equal to g starts there. |
| Experience.YearRangeSound | resume_parser_app/resume_parser_app.py:52 | What the scan reports for the third pattern is group 1 of a match of it. |
| Experience.YearRangeComplete | resume_parser_app/resume_parser_app.py:52 | Every match of the third pattern is reported by the scan, with its group 1. |
| Experience.NoMatchAt | resume_parser_app/resume_parser_app.py:55-56 | The scan reports nothing at a start exactly when no match of the pattern starts there. |
| Experience.FirstMatchSpec | resume_parser_app/resume_parser_app.py:55 | `re.search` finds the leftmost start where the pattern matches. It finds none only when no start matches. |
| Experience.FirstHitSpec | resume_parser_app/resume_parser_app.py:54-58 | No pattern tried before the first one that matches has a match anywhere. |
| Experience.ExperienceOfSpec | resume_parser_app/resume_parser_app.py:48-58 | The field is "N/A" exactly when none of the three patterns matches anywhere. Otherwise it is the non-empty digit group of the leftmost match of the first pattern, in list order, that matches; so the "1" fallback is never taken. |
| Experience.ExperienceOfNoMatch | resume_parser_app/resume_parser_app.py:48-58 | The field is "N/A" exactly when no match of any of the three patterns starts anywhere in the text. |
| Experience.ExperienceOfFirstMatch | resume_parser_app/resume_parser_app.py:54-58 | Otherwise the field is group 1 of a match of the first pattern, in list order, that has a match. That match starts at the leftmost position where the pattern matches, and no earlier pattern matches anywhere. |
| Experience.ExtractExperience | resume_parser_app/resume_parser_app.py:48-58 | The loop over the patterns that breaks at the first match computes the field. |
| Experience.DirectMention | resume_parser_app/resume_parser_app.py:50-57 | "5 years of experience" gives "5". |
| Location.CityAtSpec | resume_parser_app/resume_parser_app.py:64-65 | At a position, no city earlier in the list than the one the alternation picks matches there as a whole word. |
| Location.FindCitySpec | resume_parser_app/resume_parser_app.py:65 | No city occurs as a whole word before the position the search reports. |
| Location.TitleOfMatch | resume_parser_app/resume_parser_app.py:65-67 | Whatever the case of the matched text, its `title()` is the city's canonical name. |
| Location.LocationOfScan | resume_parser_app/resume_parser_app.py:61-67 | The field is the canonical name of the city the search finds, or "" when it finds none. |
| Location.LocationOfEmpty | resume_parser_app/resume_parser_app.py:61-67 | The field is "" exactly when no listed city occurs as a whole word, case ignored. |
| Location.LocationOfMatch | resume_parser_app/resume_parser_app.py:61-67 | Otherwise the field is the canonical name of a city that occurs as a whole word. No city occurs at an earlier position, and none earlier in the list occurs at the same position. |
| Location.LocationIsCanonical | resume_parser_app/resume_parser_app.py:61-67 | The field is "" or one of the ten canonical names. |
| Location.BangaloreIsFound | resume_parser_app/resume_parser_app.py:62-67 | "Bangalore" gives "Bangalore". |
| Location.BengaluruIsNotFound | resume_parser_app/resume_parser_app.py:62-67 | "Bengaluru", a spelling not in the list, gives "". |
| Contact.AsDict | resume_parser_app/resume_parser_app.py:69-76 | The returned dictionary has exactly the six keys. |
| Contact.DictRoundTrip | resume_parser_app/resume_parser_app.py:69-76 | Each key holds its own field: reading the dictionary back gives the record. |
| Contact.ExtractContactInfo | resume_parser_app/resume_parser_app.py:19-76 | The function built from the e-mail, phone, name loop, experience loop and location steps yields the record of the five field rules plus the file name. |
| Contact.ContactInfoFields | resume_parser_app/resume_parser_app.py:19-76 | Each field of a record is constrained as follows. The file name is passed through unchanged. The name has no digit and no `@`. Phone and e-mail are "" or a full match of their pattern. The experience is "N/A" or a non-empty digit string. The location is "" or a canonical city. |
| Batch.ProcessResumes | resume_parser_app/resume_parser_app.py:78-86 | The loop yields the records of the files whose text is not empty, in upload order. |
| Batch.RecordsSpec | resume_parser_app/resume_parser_app.py:78-86 | There is one record per file with non-empty text and no other. The files are taken in increasing position. Record k is built from the k-th such file's text and name. There are never more records than files. |
| Batch.RecordsAppend | resume_parser_app/resume_parser_app.py:81-85 | Processing two batches one after the other gives the records of their concatenation. |
| Batch.FailureIsolated | resume_parser_app/resume_parser_app.py:82-85 | A file whose text is empty, between two files with text, is skipped. The other two records are as if it were not there. |

## Left out

- `extract_text_from_pdf` (lines 8-17) is not modelled: PDF decoding is external. It becomes the parameter `pdfText`. The error message it shows is not modelled.
- `create_excel_download_link` and `main` (lines 88-141) are not modelled: writing the DataFrame to Excel bytes, the Streamlit interface and the DataFrame.
- Python's `re` engine is not modelled. The claim that its result is the match described above is argued in each file's comments but not proved. For e-mail and phone that match is the leftmost, longest one. For the experience patterns it is the one the deterministic scan reads.
- Characters are ASCII only. Python's Unicode `\w`, `\s`, `\d`, `isdigit`, `strip`, `lower`, `title` and `re.IGNORECASE` cover more characters, such as the Kelvin sign matching `k`. The model does not.
- The record is a datatype with six fields. The order of the dictionary's keys is not modelled.
- Only the first element of the `findall` lists for e-mail and phone is modelled. The later matches are never used.
