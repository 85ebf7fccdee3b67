# verificarUNLP in Dafny

A model of the two programs of verificarUNLP, which authenticate a PDF
document against a declarative rule set.

- **The extractor** (`jsonCreator/main.py`, `process_pdf`) turns a PDF into a
  record. The record holds the text of each page under `pagina_<n>`, and one
  entry per embedded image. Each image entry carries:
  - the image's SHA-256 digest, its file name, its page and its size;
  - whether it holds a QR code, and the QR payload;
  - its placement box, or the `"No disponible"` sentinel;
  - the image library's own fields for it.

  The PDF parser, the raster decoder, the barcode decoder and SHA-256 are
  not modelled. What they produce for each page and image is an input of
  the model, and the digest is a function parameter.
- **The validator** (`authenticator/auther.py`) loads that record and checks
  it against a configuration of required image hashes and required page-1
  texts. It collects every failure, rather than stopping at the first one.
  Page text and required texts are compared after `normalize_text`: every
  whitespace run becomes one space, the text is lowercased, and the ends
  are trimmed. The validator also turns the payload of the first usable QR
  image into a `segment:segment` code. Finally it assembles the report and
  the exit status.

Modules, one per file:

| module | models |
|---|---|
| `Wrappers` | `Option`, Python's `None` or a value |
| `Text` | whitespace as `str.isspace()`, `lower()`, `strip()`, `normalize_text`, `in` on strings, and `" ".join(s.split())` as an independent reference definition |
| `Decimal` | `str(n)` for page and image numbers, and its inverse |
| `Document` | the extracted record, and the part of it the validator reads once it is loaded back from JSON |
| `Extractor` | `process_pdf` over an abstract parsed PDF |
| `Validator` | `validate_document` |
| `QrCode` | `extract_and_clean_qr_data` |
| `Report` | the report and the exit status of the validator's `main` |
| `Pipeline` | extraction followed by validation, end to end |

The validator accepts a document only in the following case:
- every required hash is the digest of some image;
- when texts are required, the normalized page 1 is not blank;
- every required text, once normalized, occurs in the normalized page 1.

This is proved directly on extracted PDFs, not only on loaded records
(`Pipeline.ExtractedValidIff`).

Two behaviours of the code that are easy to overlook, both modelled as
written:
- authenticator/auther.py:40-41 rejects a blank page 1 whenever texts are
  required. This holds even when every required text is itself blank, and
  so trivially contained in the blank page (`Validator.BlankPageRejects`,
  `Validator.BlankTextPasses`).
- authenticator/auther.py:60 falls through when a QR payload has fewer
  than two segments, and the loop moves on to the next image
  (`QrCode.CleanQrCodeFirst`).

## Model

| member | source | states |
|---|---|---|
| Text.NormalizeValue | authenticator/auther.py:11-14 | a value that is not a string normalizes to the empty text; a string normalizes by `Normalize` |
| Text.Collapse | authenticator/auther.py:13 | the whitespace-run substitution keeps the text empty or non-empty, never lengthens it, and keeps whitespace at each end exactly where it was |
| Text.CollapseShape | authenticator/auther.py:13 | after the substitution, the only whitespace left is single spaces |
| Text.TrimLeft | authenticator/auther.py:14 | `strip()`'s left half removes exactly a whitespace prefix and leaves a text that starts with non-whitespace |
| Text.TrimRight | authenticator/auther.py:14 | `strip()`'s right half removes exactly a whitespace suffix and leaves a text that ends with non-whitespace |
| Text.LowerChar | authenticator/auther.py:14 | lowercasing maps each capital to the letter 32 code points above it, changes no non-capital, leaves no capital letter, and maps whitespace to whitespace and nothing else to whitespace |
| Text.LowerIdempotent | authenticator/auther.py:14 | lowercasing twice is lowercasing once |
| Text.NormalizeIgnoresCase | authenticator/auther.py:13-14 | a text and its lowercased form normalize to the same text, so matching ignores case |
| Text.Normalize | authenticator/auther.py:13-14 | normalization never lengthens a text |
| Text.NormalizeShape | authenticator/auther.py:13-14 | a normalized text has no capital letter, only single spaces as whitespace, and no whitespace at either end |
| Text.NormalFixpoint | authenticator/auther.py:13-14 | every text of that shape is left unchanged by normalization |
| Text.NormalizeIdempotent | authenticator/auther.py:13-14 | normalizing twice gives the same text as normalizing once |
| Text.NormalizeIsJoinedWords | authenticator/auther.py:13-14 | normalization equals the reference definition: the lowercased words of the input, in order, joined by single spaces |
| Text.NormalizeEmptyIffBlank | authenticator/auther.py:13-14 | a text normalizes to the empty text exactly when it is all whitespace |
| Text.EmptyIsInfix | authenticator/auther.py:45 | the empty text occurs in every text |
| Validator.Messages | authenticator/auther.py:32-46 | one report line per failure, in order, each naming its hash or its required text |
| Validator.MessageInjective | authenticator/auther.py:32-46 | distinct failures give distinct report lines |
| Validator.MissingHashes | authenticator/auther.py:25-28 | a hash is missing exactly when it is required and no image carries it |
| Validator.DuplicateRequiredIgnored | authenticator/auther.py:25 | listing a required hash twice adds no failure |
| Validator.MoreImagesFewerMissing | authenticator/auther.py:27-28 | extra extracted images never add a hash failure |
| Validator.NoMissingIff | authenticator/auther.py:25-30 | no hash failure exactly when every required hash is carried by some image |
| Validator.ImageFailures | authenticator/auther.py:30-32 | one failure per missing hash, no two alike, and every missing hash is reported |
| Validator.PageOneText | authenticator/auther.py:37-38 | page 1 is the normalized `pagina_1` value, and the empty text when that key is absent |
| Validator.NonStringPasses | authenticator/auther.py:11-12 | a required text that is not a string never fails |
| Validator.BlankTextPasses | authenticator/auther.py:44-45 | a required text that normalizes to the empty text never fails, whatever the page holds |
| Validator.FailuresBy | authenticator/auther.py:43-46 | the per-text loop yields at most one failure per text, all of the missing-text kind |
| Validator.TextFailuresComplete | authenticator/auther.py:43-46 | every required text that is not contained in page 1 is reported |
| Validator.TextFailuresSound | authenticator/auther.py:43-46 | every reported text is a configured string that is not contained in page 1 |
| Validator.TextFailuresEmptyIff | authenticator/auther.py:43-46 | no text failure exactly when every required text is contained in page 1 |
| Validator.TextFailuresAppend | authenticator/auther.py:43-46 | text failures keep the configuration order |
| Validator.TextErrors | authenticator/auther.py:40-46 | the blank-page error is raised exactly when page 1 is blank and texts are required, and then it is the only text error; no text error is a hash error |
| Validator.NoTextErrorIff | authenticator/auther.py:36-46 | no text error exactly when page 1 is not blank (if texts are required) and every required text is contained in it |
| Validator.BlankPageRejects | authenticator/auther.py:40-41 | a blank page 1 rejects the document, with the blank-page error as its only text error, whenever texts are required; together with `BlankTextPasses` this holds even when every required text is blank |
| Validator.ValidIff | authenticator/auther.py:48 | valid exactly when every required hash is carried, page 1 is not blank when texts are required, and every required text is contained in page 1 |
| Validator.EmptyConfigValid | authenticator/auther.py:48 | an empty configuration accepts every record |
| Validator.HashesOnlyValidIff | authenticator/auther.py:25-48 | without required texts, valid exactly when the required hashes are among the found ones |
| Validator.Validate | authenticator/auther.py:16-48 | the hash failures come first, each missing hash once; the text errors follow in configuration order; valid exactly when nothing failed |
| QrCode.LeadingSlashes | authenticator/auther.py:59 | counts exactly the leading slashes |
| QrCode.DropTrailing | authenticator/auther.py:59 | removes exactly the trailing slashes |
| QrCode.StripSlashes | authenticator/auther.py:59 | `strip('/')` keeps the middle of the payload between its leading and trailing slashes, and the result neither starts nor ends with a slash |
| QrCode.StripSlashesNoop | authenticator/auther.py:59 | a payload without slashes at its ends is left unchanged |
| QrCode.StripTrailingSlash | authenticator/auther.py:59 | a trailing slash is removed |
| QrCode.SplitOn | authenticator/auther.py:59 | `split('/')` yields at least one piece, and no piece contains the separator |
| QrCode.SplitJoin | authenticator/auther.py:59 | joining the pieces with the separator gives the payload back |
| QrCode.JoinSplit | authenticator/auther.py:59 | splitting a join of separator-free pieces gives the pieces back |
| QrCode.SplitCountsSeparator | authenticator/auther.py:59-60 | there are at least two pieces exactly when the separator occurs |
| QrCode.CleanPayload | authenticator/auther.py:59-63 | a cleaned code never contains a slash |
| QrCode.CleanPayloadNoneIff | authenticator/auther.py:59-60 | a payload yields no code exactly when no slash is left once its ends are stripped |
| QrCode.CleanTwoSegments | authenticator/auther.py:59-61 | `a/b` cleans to `a:b` |
| QrCode.CleanLastTwoSegments | authenticator/auther.py:59-61 | `p/a/b` cleans to `a:b`, whatever the prefix `p` holds |
| QrCode.CleanSamplePayload | authenticator/auther.py:59-61 | `https://example.com/acme/998877` cleans to `acme:998877` |
| QrCode.StripAppendSlash | authenticator/auther.py:59 | appending a slash to any payload leaves its `strip('/')` unchanged |
| QrCode.CleanTrailingSlash | authenticator/auther.py:59-61 | appending a slash to any payload changes no code |
| QrCode.Candidate | authenticator/auther.py:56-60 | an image yields a code exactly when it is a QR image with a non-empty payload in which a slash remains once `strip('/')` is applied |
| QrCode.CleanQrCode | authenticator/auther.py:55-69 | the returned code never contains a slash |
| QrCode.CleanQrCodeNoneIff | authenticator/auther.py:55-69 | no code exactly when no image yields one |
| QrCode.CleanQrCodeFirst | authenticator/auther.py:55-63 | the code is that of some image, and every image before it yields nothing, so those images are skipped rather than ending the search |
| QrCode.NoQrNoCode | authenticator/auther.py:55-69 | a document without QR images has no code |
| Report.BuildReport | authenticator/auther.py:106-110 | the report keeps the verdict and the code, and lists the error lines only for an invalid document |
| Report.ExitStatus | authenticator/auther.py:123-132 | the exit status is 0 for a valid document and 1 otherwise |
| Report.RunValidation | authenticator/auther.py:100-132 | the report is valid exactly when the rules hold; it lists error lines exactly when it is invalid: the lines for the missing hashes, then those of the text errors; it carries the cleaned code whatever the verdict; the exit status matches the verdict |
| Decimal.NatToString | jsonCreator/main.py:41 | `str(n)` is a canonical numeral, one digit long exactly when `n < 10` |
| Decimal.ParseNatToString | jsonCreator/main.py:41 | parsing `str(n)` gives `n` back |
| Decimal.NatToStringParse | jsonCreator/main.py:41 | every canonical numeral is `str` of the number it denotes |
| Decimal.NatToStringInjective | jsonCreator/main.py:41 | distinct numbers have distinct numerals |
| Extractor.FirstQr | jsonCreator/main.py:59-65 | the scan stops at the first QR symbol, and every symbol before it is of another type |
| Extractor.Inspect | jsonCreator/main.py:54-67 | an unreadable image gives no QR and zero dimensions; otherwise `es_qr` is set exactly when some symbol is a QR code, and the payload is that of the first such symbol; an undecodable QR payload keeps `es_qr` true, has no payload and zero dimensions |
| Extractor.Take | jsonCreator/main.py:70 | `h[:8]` is the prefix of length `min(8, len(h))` |
| Extractor.PositionOf | jsonCreator/main.py:76-80 | the sentinel is stored exactly when the box lookup fails, and the found box is stored otherwise |
| Extractor.InternalMeta | jsonCreator/main.py:92 | the image library's fields lose exactly the raw-bytes entry, and every other entry is kept unchanged |
| Extractor.MakeImageRecord | jsonCreator/main.py:83-93 | page number is 1-based; the hash is the digest of the bytes; the size is the byte count; the file name is built from label, 1-based index, digest prefix and extension; QR flag, payload and dimensions are those of the decode block; the position is the box or the sentinel; the internal fields are the library's mapping without `image` |
| Extractor.Basename | jsonCreator/main.py:24 | the file name is the slash-free tail of the path, after its last slash |
| Extractor.Assemble | jsonCreator/main.py:97 | `cantidad_imagenes` equals the number of stored images |
| Extractor.ProcessPage | jsonCreator/main.py:46-94 | one record per image of the page, in enumeration order |
| Extractor.ProcessPdf | jsonCreator/main.py:32-97 | no record exactly when the PDF cannot be opened; otherwise the record built page by page, whose image count is the total number of page images |
| Extractor.AllImagesCount | jsonCreator/main.py:97 | the stored image list is as long as the total number of page images |
| Extractor.PageLabelInjective | jsonCreator/main.py:41 | distinct page numbers give distinct labels |
| Extractor.PageTextsKeys | jsonCreator/main.py:39-43 | the page texts are stored under exactly the labels `pagina_1` to `pagina_n` |
| Extractor.PageTextAt | jsonCreator/main.py:41-43 | label `pagina_{i+1}` holds the text of the page at index `i` |
| Extractor.ImagesPageMajor | jsonCreator/main.py:39-94 | the `j`-th image of page `p` is stored right after the images of all earlier pages |
| Extractor.ImageSource | jsonCreator/main.py:46-94 | every stored image is the record of some image of some page |
| Extractor.ImagePagesOrdered | jsonCreator/main.py:85 | stored page numbers lie in `1..n` and never decrease along the list |
| Extractor.ImageNamesDistinct | jsonCreator/main.py:70 | an image file name determines the page number and the image index, so distinct images are saved under distinct names |
| Document.Load | jsonCreator/main.py:97-99 | after the JSON round trip, the validator sees the same number of images, each with its digest, and the same page labels |
| Pipeline.FoundIffDigested | authenticator/auther.py:27 | on an extracted record, the validator finds exactly the digests of the document's page images |
| Pipeline.FirstLabel | jsonCreator/main.py:41 | the first page's label is `pagina_1`, the key the validator reads |
| Pipeline.ExtractedPageOne | authenticator/auther.py:37-38 | on an extracted record, the validator's page 1 is the normalized text of the first page, and blank for a document without pages |
| Pipeline.ExtractedHashesIff | authenticator/auther.py:25-30 | an extracted document has no hash failure exactly when every required hash is the digest of one of its images |
| Pipeline.ExtractedTextsIff | authenticator/auther.py:36-46 | an extracted document has no text error exactly when its first page is not blank (if texts are required) and holds every required text once both are normalized |
| Pipeline.ExtractedValidIff | authenticator/auther.py:16-48 | a document `process_pdf` extracted is accepted exactly when every required hash is the digest of one of its images, its first page is not blank when texts are required, and every required text occurs in its normalized first page |

## Left out

- File and console I/O is not modelled. This covers opening the PDF and the output directory, writing image files, writing and reading JSON, writing the report file, `print`, argument parsing and `sys.exit` itself. Only the exit status value is modelled.
- The report file name `report_<basename>` is not modelled, because it only names an output file.
- The PDF library, the raster library, the barcode decoder and SHA-256 are inputs (`PdfSource`, `Raster`, `BboxOutcome`) or a function parameter (`Digest`), because they are foreign libraries.
- Extractor.ProcessPdf: the catch-all handler at jsonCreator/main.py:106-108 is modelled only for a PDF that cannot be opened. The model treats every later library call as total.
  - An exception raised before the JSON dump at :98-99 makes `process_pdf` return `False` with no record written. Examples are a failed image write, a box-lookup error other than `ValueError`, or a progress `print` the console cannot encode.
  - A `print` at :101-103 that fails after the dump also makes it return `False`, but the record has already been written. The model's `Some(record)` matches that written record.
- Extractor.PositionOf: only the `ValueError` outcome of the box lookup is modelled. Other exceptions belong to the catch-all handler above.
- Text.LowerChar: lowercases ASCII `A`-`Z` and the Latin-1 capitals only. Python's `str.lower()` covers all of Unicode, which this model does not.
- Validator.ImageFailures: the order of the hash failures follows Python's set iteration order. The model chooses the order nondeterministically and states only the set and its distinctness.
- Validator.Validate: a configured image entry without a `hash_sha256` key raises `KeyError` in the source. The configuration here carries only the hashes, so that case does not arise.
- Non-string JSON values are modelled only where the validator tolerates them, namely page texts and required texts (`TextValue.NonString`). A non-string `hash_sha256` is not modelled. Neither is a non-boolean `es_qr` or a non-string `datos_qr`.
- QrCode.CleanQrCode: the exception handler at authenticator/auther.py:64-66 is not modelled. Any exception in its `try` makes the search return `None` at once, without looking at later images. One cause is a non-string payload, which the extractor never writes. Another is the `print` at :62 raising `UnicodeEncodeError` when standard output cannot encode `✓` or a character of the code. In those cases the model returns the code where the program returns `None`. Console encoding is outside the model.
- A top-level key missing from the loaded record or the configuration reads as its `.get` default. The model represents this as an empty collection.
- Timing and logging messages are not modelled, including the "QR found" notice and the warnings.
- Extractor.Inspect: the "QR found" `print` at jsonCreator/main.py:64 sits inside the `try` at :55-67. It runs after `es_qr` and `datos_qr` are set.
  - On a console that cannot encode its text, for example one that has `á` but not `¡`, the `print` raises `UnicodeEncodeError`. The handler at :66-67 then sets the dimensions to `(0, 0)`, while the flag and the payload stay set.
  - The model assumes the `print` succeeds and keeps the raster's dimensions in that case. Console encoding is outside the model.
- Extractor.Basename: models `os.path.basename` on POSIX paths, splitting at `/` only. On Windows the library also splits at `\` and after a drive colon.
