# Leaf-image matcher: a Dafny model

This project models the deterministic core of a plant-disease demo application.
The application never classifies an uploaded leaf photo. Instead it:

1. finds the reference image whose perceptual hash (pHash) is nearest the
   upload's (`find_best_match`);
2. cross-checks the matched file name against the crop the user selected,
   then shows the knowledge-base record stored under that name;
3. fills the reference folder and the knowledge base from a raw dataset
   once, offline (`run_import`). Each image of a recognised folder is
   renamed `{key}_{n}.{ext}` and mapped to the folder's disease template.

Modules:

- `Wrappers`: `Option`.
- `Records`: a knowledge-base record and the knowledge base, a map from
  file name to record.
- `Text`: the Python string operations the code relies on:
  - `lower()` and `capitalize()`, on ASCII letters;
  - `endswith`;
  - substring `in`;
  - `split(sep)[0]` and `split(sep)[-1]`;
  - the decimal rendering of an integer in an f-string.
- `Fingerprints`: a pHash as a sequence of bits; subtracting two hashes
  gives their Hamming distance.
- `Processor`: the scan of `find_best_match`.
  - `Scan` is the loop as a left-to-right fold over the listing.
  - `FindBestMatch` is the loop itself, proved equal to the fold.
  - `IsFirstNearest` states the answer declaratively: the first entry at
    minimal distance, below the threshold of 10.
- `Diagnosis`: the outcome of the diagnostics button:
  - no match;
  - a domain mismatch, with the active model and the detected plant;
  - the report of a knowledge-base record;
  - nothing, when the name has no record.
- `Importer`: `run_import` with its nested loops (`RunImport`,
  `ImportFolder`, `CopyFolder`), the `TEMPLATES` table verbatim, and the
  functions `ImportTasks` and `ImportDb`. These functions give the copy
  queue and the dictionary written to `database.json`.

A directory listing is an input sequence in `os.listdir` order.

- For the scan, each entry is a file name plus the fingerprint its image
  hashes to. The fingerprint is `None` when opening or hashing the image
  raises.
- For the import, each entry is a (name, is-a-directory, file names) triple.

The model follows the code as written, including these points:

- There is no random fallback and no "no data" outcome. An unmatched upload
  always ends in "No Match Found".
- The crop cross-check is substring containment of the lower-cased crop in
  the matched file name. It is not a comparison with the file's category.
- The detected plant in the mismatch message is the text before the first
  `_`, capitalised (first letter upper, rest lower).
- A matched name that passes the cross-check but has no knowledge-base
  record shows nothing at all.
- The scan threshold is `diff < 10`. A comment next to it speaks of 5; the
  code's 10 is modelled.

## Model

| member | source | states |
|---|---|---|
| Text.Lower | utils/importer.py:114 | lower-casing keeps the length, leaves no upper-case ASCII letter, and changes each character only in case |
| Text.LowerIdempotent | utils/importer.py:114 | lower-casing twice is lower-casing once |
| Text.Capitalize | main.py:133 | same length; the first character is its own upper-case form (a non-letter kept); every later character lower-cased |
| Text.EndsWith | utils/processor.py:22 | `s.endswith(suffix)` holds exactly when the suffix fits in `s` and matches its last characters one by one |
| Text.Contains | main.py:132 | the empty needle is in every string, and a needle longer than the text is in none |
| Text.ContainsIffOccurs | main.py:132 | `needle in s` holds exactly when the needle occurs at some offset of `s` |
| Text.FirstField | main.py:133 | `split(sep)[0]` is a prefix without `sep`, followed by `sep` unless it is the whole string |
| Text.LastField | utils/importer.py:124 | `split(sep)[-1]` contains no `sep` |
| Text.LastFieldIsSuffix | utils/importer.py:124 | `split(sep)[-1]` is a suffix, preceded by `sep` unless it is the whole string |
| Text.LastFieldStart | utils/importer.py:124 | `split(sep)[-1]` starts right after a `sep`, or at the start of the string |
| Text.LastFieldWithoutSep | utils/importer.py:124 | without a separator, `split(sep)[-1]` is the whole string |
| Text.Decimal | utils/importer.py:125 | the rendering of `i+1` in an f-string is non-empty and has no leading zero unless it is `0` |
| Text.ParseDecimalRoundTrip | utils/importer.py:125 | the decimal rendering of `n` is all digits and reads back as `n` |
| Text.DecimalInjective | utils/importer.py:125 | different numbers render differently |
| Fingerprints.Distance | utils/processor.py:29 | hash difference is at most the hash length, and 0 exactly on equal hashes |
| Fingerprints.DistanceCountsDifferingPositions | utils/processor.py:28-29 | the difference is the number of positions where the bits differ |
| Fingerprints.DistanceSymmetric | utils/processor.py:29 | `a - b == b - a` |
| Processor.IsImageName | utils/processor.py:22 | a name passing the extension filter has at least four characters |
| Processor.ImageNameHasDot | utils/processor.py:22 | a name passing the extension filter has a dot among its last five characters |
| Processor.ImageNameIgnoresCase | utils/processor.py:22 | the filter ignores case: a name and its lower-cased form pass or fail together |
| Processor.Comparable | utils/processor.py:22-29 | an entry that reaches the subtraction has a hash of the query's length, and their difference is at most that length |
| Processor.Candidate | utils/processor.py:32 | an entry that passes the filter and hashes exactly like the query is always a candidate |
| Processor.Step | utils/processor.py:24-36 | one iteration either keeps the state or, for a candidate strictly nearer than the minimum so far, records its name and distance |
| Processor.ScanFrom | utils/processor.py:21-36 | running the loop never raises the minimum, and a state that changes ends holding a name below the threshold |
| Processor.Scan | utils/processor.py:14-36 | after the loop, no name exactly when the minimum is still 100, and a name only below the threshold |
| Processor.BestMatch | utils/processor.py:10-41 | a name is returned only when the query hashes, the folder exists and the loop's minimum is below 10 |
| Processor.FindBestMatch | utils/processor.py:5-41 | the loop returns the fold's answer: `None` exactly when the query cannot be hashed, the folder is missing or no entry is within the threshold; otherwise the name of the first nearest entry |
| Processor.StepKeepsInvariant | utils/processor.py:32-34 | one iteration keeps the loop invariant: no name exactly when the minimum is still 100, and otherwise the name and distance of the first nearest entry so far |
| Processor.ScanKeepsInvariant | utils/processor.py:14-36 | the invariant holds after every prefix of the listing |
| Processor.FirstNearestUnique | utils/processor.py:32 | the strict comparison makes the tie-break deterministic: one first nearest entry at most |
| Processor.BestMatchSpec | utils/processor.py:10-41 | the answer is `None` exactly in the three failure cases; otherwise it is the first entry at minimal distance among all comparable entries, below 10 |
| Processor.BestMatchWithinThreshold | utils/processor.py:22-34 | a returned name ends in `.png`, `.jpg` or `.jpeg` in any case, and its entry is strictly below the threshold |
| Processor.SkippedEntryIsInvisible | utils/processor.py:22-36 | an entry dropped by the filter, or whose open, hash or comparison raises, changes nothing for the others |
| Processor.ScanAppend | utils/processor.py:21-36 | scanning a concatenation runs the second part from the state the first part left |
| Diagnosis.Diagnose | main.py:129-157 | "No Match Found" exactly when the match is missing or the empty name; a mismatch or a report names the selected crop; a report is the record stored under the matched name, and only when the lower-cased crop is in that name |
| Diagnosis.DetectedLabel | main.py:133 | the detected plant is the name's text before the first `_` (the whole name without one), up to case, with an upper-case or non-letter first character and no upper-case letter after it |
| Diagnosis.MismatchIffCropNotInName | main.py:130-135 | a mismatch exactly when the lower-cased crop occurs at no offset of the name; it names the selected crop and the capitalised text before the first `_` |
| Diagnosis.AcceptedReportIsStoredRecord | main.py:137-154 | when the crop occurs in the name, the outcome is the record stored under that name, unchanged, or nothing when there is none |
| Diagnosis.ReportComesFromKnowledgeBase | main.py:138-139 | a report only ever shows the record stored under the matched name, and only when the crop occurs in it |
| Diagnosis.NoMatchFoundIffScanFindsNothing | main.py:127-129 | on the scan's answer, "No Match Found" exactly when the scan returns nothing |
| Diagnosis.AppleLeafUnderCornModel | main.py:130-135 | `apple_scab_1.jpg` under the corn model is a mismatch naming "Corn" and "Apple" |
| Diagnosis.AppleLeafUnderAppleModel | main.py:137-139 | the same file under the apple model reports its stored record |
| Importer.RunImport | utils/importer.py:91-146 | the nested loops build exactly the queue and dictionary of `Import`; a missing root yields nothing |
| Importer.ImportFolder | utils/importer.py:109-136 | one folder adds its copies and insertions, and nothing unless it is a directory named after a template key |
| Importer.CopyFolder | utils/importer.py:115-134 | the inner loop appends one copy and makes one insertion per kept file, in order |
| Importer.Join | utils/importer.py:127-128 | a joined path starts with the directory and the separator |
| Importer.JoinedNameIsLast | utils/importer.py:127-128 | a name without separator is read back as the last component of the joined path |
| Importer.KeepsFile | utils/importer.py:120 | a kept name has at least three characters |
| Importer.ImageNamesAreKept | utils/importer.py:120 | every name the matcher's filter accepts, the import filter keeps |
| Importer.KeptFilesAppend | utils/importer.py:120 | filtering distributes over concatenation: kept files come in listing order, each as often as listed |
| Importer.KeptFilesSingleton | utils/importer.py:120 | a single name is kept exactly when it passes the filter |
| Importer.KeptFiles | utils/importer.py:120 | at most as many files as listed; a file is kept exactly when its lower-cased name ends in `jpg`, `jpeg` or `png` |
| Importer.Recognised | utils/importer.py:112-115 | a recognised entry is a directory whose name is at least as long as the shortest template key (10 characters) |
| Importer.RecognisedIgnoresCase | utils/importer.py:114-115 | an entry and its lower-cased name are recognised or not together |
| Importer.Extension | utils/importer.py:124 | the extension taken from a file name contains no dot |
| Importer.NewName | utils/importer.py:125 | a new name starts with `key_` and is exactly as long as key, number, extension and the two separators |
| Importer.NameFor | utils/importer.py:122-125 | the name of the `i`-th kept file starts with the lower-cased folder name and `_`, and is as long as the key, the number `i+1`, the extension and two separators |
| Importer.NameForNumber | utils/importer.py:122-125 | the digits between `key_` and the next dot read back as `i + 1` |
| Importer.TaskFor | utils/importer.py:127-131 | a queued copy reads from inside the dataset folder and writes inside `assets/images` |
| Importer.EntryFor | utils/importer.py:134 | an insertion is keyed by the file's new name and holds one of the templates |
| Importer.FolderTasks | utils/importer.py:112-131 | an unrecognised entry queues nothing; a recognised folder queues one copy per kept file, the `i`-th for the `i`-th file |
| Importer.FolderEntries | utils/importer.py:112-134 | an unrecognised entry inserts nothing; a recognised folder makes one insertion per kept file, the `i`-th for the `i`-th file |
| Importer.FolderNamesDistinct | utils/importer.py:122-125 | the kept files of one folder get pairwise different names |
| Importer.NameIdentifiesKeyAndIndex | utils/importer.py:114-125 | two new names are equal only for the same key and the same position |
| Importer.NewNameIndexInjective | utils/importer.py:125 | the number in a new name can be read back from it |
| Importer.NewNameKeepsExtension | utils/importer.py:124-125 | a new name starts with `key_` and keeps the original extension in its original case |
| Importer.UndottedFileIsNeverMatched | utils/importer.py:120-125 | a kept file without a dot, five characters or longer, keeps its whole name as extension and gets a name the matcher's filter rejects |
| Importer.ImportTasks | utils/importer.py:109-131 | the queue holds one copy per kept file of a recognised folder |
| Importer.ImportEntries | utils/importer.py:109-134 | one dictionary insertion per kept file of a recognised folder |
| Importer.MapOf | utils/importer.py:134 | assigning entries in order leaves at most one key per entry, and the last assignment holds |
| Importer.ImportDb | utils/importer.py:134 | the dictionary has at most one key per imported image |
| Importer.Import | utils/importer.py:104-134 | nothing is produced exactly when the root is missing; otherwise one copy per kept image and no more keys than copies |
| Importer.ImportTasksSpec | utils/importer.py:109-131 | the queue holds exactly one copy per kept file of a recognised folder, from its own path to `assets/images` joined with its new name |
| Importer.ImportDbSpec | utils/importer.py:115-134 | the dictionary's keys are exactly the new names, and each maps to its folder's template |
| Importer.ImportDbHoldsTemplates | utils/importer.py:116-134 | every record of the dictionary is one of the templates |
| Importer.TemplateKeysPrefixFree | utils/importer.py:15-79 | no template key is a proper prefix of another, so a new name determines its key |

## Left out

- The pHash computation (a DCT inside `imagehash`) and `Image.open`. They are foreign calls; each entry carries the hash it would produce, or `None` when either raises.
- `os.listdir`, `os.path.exists`, `os.path.isdir` and `os.makedirs`. They are file-system I/O; listings and existence flags are inputs. A listing failure inside `find_best_match` is caught like a missing folder and is modelled as one.
- The creation of `assets/images` before the root check. It is I/O with no effect on the result.
- `shutil.copy2` in `process_file` and the `ThreadPoolExecutor` that runs the copies. This is I/O and concurrency; the model returns the copy queue in order.
- `json.load` and `json.dump`. The knowledge base is a map from name to record, and the dictionary is returned instead of being written.
- The Streamlit page, navigation, uploader, status animation, `time.sleep` and every `print`. These are UI and timing; each outcome carries only the values it displays.
- Text.Lower: `str.lower()` and `str.capitalize()` are modelled on ASCII letters only, because the full Unicode case tables are not modelled.
- Importer.Join: `os.path.join` is modelled as concatenation with the Windows separator, because the dataset root is a Windows path. The special cases of absolute or drive-qualified second arguments are not modelled.
- Processor.Comparable: subtracting hashes of different shapes raises, and the `except` skips the entry. The model skips entries whose bit length differs from the query's.
- Two dataset folders whose names differ only in case get the same key. Their files then share destination names, and the copies run concurrently, so which of the copies survives is not determined. `Importer.NameIdentifiesKeyAndIndex` states when names collide; the copies themselves are I/O and are not modelled.
