# Flashcard tools: audio generation and manifest building

This project is a Dafny model of the two command-line tools that prepare data for
the Spanish flashcard application. It covers:

- `tools/generate_flashcard_audio.py`: for every distinct word in the first two
  columns of a CSV file, the tool synthesises speech. It writes one WAV file per
  word, named after the word by `sanitize_filename`. A word holding several
  phrases separated by `/` is synthesised phrase by phrase. The phrases' audio is
  joined with a pause of silence (`generate_silence_pcm`) between neighbours. A
  file already present is not generated again.
- `tools/update_manifest.py`: lists the `*.csv` files of the data directory in
  sorted order. It writes one `{name, file}` entry per file, where `name` is the
  display name built by `format_name`.

Modules:

- `Wrappers` (`wrappers.dfy`): `Option`.
- `PyStr` (`pystr.dfy`): the Python `str` operations the tools use. These are
  `strip`, `split(sep)`, `split()`, `sep.join`, `replace` of one character,
  `capitalize`, `isspace` and `isalnum`. Character classes are exact on
  Latin-1. Case mapping is ASCII only.
- `StrOrder` (`strorder.dfy`): Python's ordering of strings (by code point) and
  `sorted()` of a set of strings. `SortedUnique` shows that the sorted order is
  the only strictly increasing listing of a set.
- `FlashcardAudio` (`flashcard_audio.dfy`): file-name sanitising, silence,
  splitting a text into phrases, joining the phrases' audio,
  `generate_and_save_audio` and the per-word loop of `process_csv`.
- `Manifest` (`manifest.dfy`): `format_name` and `update_manifest`.

Speech synthesis, with its retries, is a function parameter
`Synth = string -> Option<Clip>`. `None` means the tool got no audio for the
text: either every attempt failed, or a response arrived without audio data,
which the tool gives up on at once. The output directory is modelled as the set
of file names in it.

## Model

| member | source | states |
|---|---|---|
| FlashcardAudio.SanitizeFilename | tools/generate_flashcard_audio.py:244-261 | the name is no longer than the text and holds only alphanumerics, `_`, `-` and `.`; it never holds a space or a slash |
| FlashcardAudio.SanitizeOneChar | tools/generate_flashcard_audio.py:255-260 | a space or slash becomes one `_`, an allowed character is kept, any other character is dropped |
| FlashcardAudio.SanitizeConcat | tools/generate_flashcard_audio.py:255-260 | sanitising works character by character: the name of `a + b` is the name of `a` followed by the name of `b` |
| FlashcardAudio.SanitizeFixedPoint | tools/generate_flashcard_audio.py:255-260 | a text is left unchanged exactly when every character is alphanumeric, `_`, `-` or `.` |
| FlashcardAudio.SanitizeIdempotent | tools/generate_flashcard_audio.py:244-261 | sanitising a sanitised name changes nothing |
| FlashcardAudio.SanitizeUnderscores | tools/generate_flashcard_audio.py:255-258 | the name has exactly as many underscores as the text has spaces, slashes and underscores together |
| FlashcardAudio.KeepAllowed | tools/generate_flashcard_audio.py:260 | the filter keeps only allowed characters and never lengthens the text |
| FlashcardAudio.GenerateSilencePcm | tools/generate_flashcard_audio.py:71-86 | the silence is all zero bytes, `int(rate * ms / 1000) * channels * width` of them |
| FlashcardAudio.SilenceWholeFrames | tools/generate_flashcard_audio.py:83-85 | the silence length is a whole number of `channels * width` byte frames |
| FlashcardAudio.PhraseParts | tools/generate_flashcard_audio.py:186-188 | every phrase is non-empty, holds no `/` and is already stripped |
| FlashcardAudio.PhrasePartsEmpty | tools/generate_flashcard_audio.py:188-193 | no phrase is left exactly when the text is only slashes and whitespace, which is the "no valid text parts" failure |
| FlashcardAudio.BlankPieces | tools/generate_flashcard_audio.py:188 | every piece between slashes is blank exactly when the text is only slashes and whitespace |
| FlashcardAudio.PhrasePartsOfCleanText | tools/generate_flashcard_audio.py:186-188 | when no piece between slashes is empty or padded, the phrases are those pieces and joining them with `/` gives back the text |
| FlashcardAudio.JoinPcmLength | tools/generate_flashcard_audio.py:214-220 | no phrases give no audio; otherwise the joined audio is as long as the phrases' audio plus one pause between each pair of neighbours |
| FlashcardAudio.JoinPcmLayout | tools/generate_flashcard_audio.py:214-220 | each phrase's audio sits at its offset, a pause comes right before every phrase but the first, and no pause follows the last |
| FlashcardAudio.JoinPcmLast | tools/generate_flashcard_audio.py:217-220 | the last phrase's audio ends the result, preceded by a pause when there is more than one phrase |
| FlashcardAudio.CombinePhrases | tools/generate_flashcard_audio.py:190-227 | the audio is saved exactly when every phrase was synthesised at the first phrase's sample rate. It is then the phrases' PCM joined by the pause silence, at that rate. Otherwise nothing is saved, and the phrases were requested in order up to the first failed or mismatched one |
| FlashcardAudio.GenerateAndSaveAudio | tools/generate_flashcard_audio.py:164-241 | an existing file is a success with no synthesis; a text without `/` is synthesised whole; a text with `/` follows `CombinePhrases` on its phrases |
| FlashcardAudio.AudioFileNameInDirectory | tools/generate_flashcard_audio.py:313-314 | a word's audio file name ends in `.wav` and has no space or slash, so it stays inside the output directory |
| FlashcardAudio.AudioFileNameShared | tools/generate_flashcard_audio.py:313 | `a b`, `a/b` and `a_b` all get the file `a_b.wav` |
| FlashcardAudio.SaveWord | tools/generate_flashcard_audio.py:313-320 | a word succeeds exactly when its audio file is already present or its audio can be produced (a word without `/` is synthesised; a word with `/` has phrases, all synthesised at the first one's sample rate); the file is present afterwards exactly when the call succeeded |
| FlashcardAudio.ColumnValues | tools/generate_flashcard_audio.py:297-299 | a value is collected exactly when some row has it, not missing, in that column |
| FlashcardAudio.AllSucceeded | tools/generate_flashcard_audio.py:319-320 | the success count equals the number of outcomes only when every outcome is a success |
| FlashcardAudio.CollectWords | tools/generate_flashcard_audio.py:297-301 | the words are strictly increasing and are exactly the non-missing values of the first two columns |
| FlashcardAudio.WordStep | tools/generate_flashcard_audio.py:308-320 | one word's turn: a word that strips to nothing gets no outcome; any other word succeeds exactly when its audio file is present at its turn or its audio can be produced, and the directory gains that file exactly on success |
| FlashcardAudio.GenerateAll | tools/generate_flashcard_audio.py:305-322 | each word has one outcome. A word that strips to nothing is skipped. Any other word succeeds exactly when its audio file is present at its turn (already in the directory, or written for an earlier word with the same file name) or its audio can be produced. The count is the number of successes, and the directory gains exactly the files of the successful words. When every word succeeded, none was blank |
| FlashcardAudio.ProcessCsv | tools/generate_flashcard_audio.py:264-333 | a missing file or fewer than two columns gives `(0, 0)`. Otherwise the words are the distinct values of the first two columns, sorted, and `total_count` is their number. A blank word is skipped. Any other word succeeds exactly when its audio file is present at its turn or its audio can be produced. `success_count` counts the successes, and the directory gains exactly the files of words generated successfully. `success_count == total_count` implies no word was blank |
| PyStr.Strip | tools/generate_flashcard_audio.py:309 | the result is empty or starts and ends with a non-whitespace character |
| PyStr.StripSlice | tools/generate_flashcard_audio.py:309 | the result is the text without a leading and a trailing run of whitespace |
| PyStr.StripEmptyIffAllSpace | tools/generate_flashcard_audio.py:310 | stripping leaves nothing exactly when the text is all whitespace |
| PyStr.StripIdempotent | tools/generate_flashcard_audio.py:188 | stripping twice is stripping once |
| PyStr.StripKeepsOut | tools/generate_flashcard_audio.py:188 | stripping introduces no character the text lacks |
| PyStr.TrimLeft | tools/generate_flashcard_audio.py:309 | `lstrip` never lengthens the text and leaves it empty or starting with a non-whitespace character |
| PyStr.TrimRight | tools/generate_flashcard_audio.py:309 | `rstrip` never lengthens the text and leaves it empty or ending with a non-whitespace character |
| PyStr.TrimLeftSlice | tools/generate_flashcard_audio.py:309 | `lstrip` removes a prefix that is all whitespace |
| PyStr.TrimRightSlice | tools/generate_flashcard_audio.py:309 | `rstrip` removes a suffix that is all whitespace |
| PyStr.ReplaceChar | tools/generate_flashcard_audio.py:256-258 | every occurrence of one character is replaced by another and nothing else changes |
| PyStr.SplitOn | tools/generate_flashcard_audio.py:188 | `split('/')` yields at least one piece and no piece holds the separator |
| PyStr.JoinSplitOn | tools/generate_flashcard_audio.py:188 | joining the pieces of `split('/')` with `/` gives back the text |
| PyStr.SplitJoinOn | tools/generate_flashcard_audio.py:188 | splitting a join of separator-free pieces gives back the pieces |
| PyStr.JoinWithConcat | tools/update_manifest.py:37 | `sep.join` of two non-empty lists is the join of the first, one separator, and the join of the second |
| PyStr.SplitWs | tools/update_manifest.py:37 | `split()` yields non-empty words free of whitespace |
| PyStr.SplitWsJoin | tools/update_manifest.py:37 | `split()` undoes a single-space join of non-empty, whitespace-free words |
| PyStr.SplitWsAtSpace | tools/update_manifest.py:37 | any whitespace character cuts `split()` in two: the words before it followed by the words after it, so leading, trailing and repeated whitespace yields no empty word |
| PyStr.SplitWsWord | tools/update_manifest.py:37 | a non-empty whitespace-free text splits into itself |
| PyStr.SplitWsBlank | tools/update_manifest.py:37 | empty or all-whitespace text has no words |
| PyStr.IsSpaceChars | tools/generate_flashcard_audio.py:309 | the whitespace characters are exactly tab, line feed, vertical tab, form feed, carriage return, U+001C to U+001F, space, U+0085 and U+00A0 |
| PyStr.IsAlnumSpanish | tools/generate_flashcard_audio.py:260 | Spanish accented letters and `ñ` are alphanumeric; `¿`, `¡`, `_`, `-`, `.`, `/`, space and common punctuation are not; no alphanumeric character is whitespace |
| PyStr.Capitalize | tools/update_manifest.py:37 | the first character is upper-cased, the rest lower-cased, the length kept |
| PyStr.LowerAll | tools/update_manifest.py:37 | every character is lower-cased |
| PyStr.Upper | tools/update_manifest.py:37 | the result is not a lower-case letter; a lower-case letter maps to the capital 32 code points below it, anything else to itself |
| PyStr.Lower | tools/update_manifest.py:37 | the result is not an upper-case letter; a capital maps to the letter 32 code points above it, anything else to itself |
| StrOrder.LessIrreflexive | tools/generate_flashcard_audio.py:301 | no string sorts before itself |
| StrOrder.LessTransitive | tools/generate_flashcard_audio.py:301 | string order is transitive |
| StrOrder.LessTotal | tools/generate_flashcard_audio.py:301 | any two distinct strings are ordered one way or the other |
| StrOrder.Insert | tools/generate_flashcard_audio.py:301 | inserting a new string into a sorted list keeps it sorted and adds exactly that string |
| StrOrder.SortStrings | tools/update_manifest.py:55 | `sorted()` of a set is strictly increasing and lists exactly the set's elements |
| StrOrder.SortedUnique | tools/generate_flashcard_audio.py:301 | two strictly increasing lists of the same elements are equal, so the sorted order is determined |
| Manifest.RemoveAll | tools/update_manifest.py:33 | removing a pattern never lengthens the text |
| Manifest.RemoveAllAbsent | tools/update_manifest.py:33 | removing a pattern that does not occur changes nothing |
| Manifest.RemoveExtension | tools/update_manifest.py:33 | `name.csv` becomes `name` when `.csv` does not occur in `name` |
| Manifest.Spaced | tools/update_manifest.py:33-35 | after the extension is removed and underscores become spaces, no underscore is left |
| Manifest.CapitalizeAll | tools/update_manifest.py:37 | each word is capitalized, in order |
| Manifest.CapitalizeTitle | tools/update_manifest.py:37 | a capitalized word does not start with a lower-case letter and has no capital after its first character |
| Manifest.CapitalizeIdempotent | tools/update_manifest.py:37 | capitalizing twice is capitalizing once |
| Manifest.JoinSingleSpaced | tools/update_manifest.py:37 | a single-space join of whitespace-free words has no leading, trailing or repeated whitespace |
| Manifest.SplitWsExcludes | tools/update_manifest.py:37 | `split()` introduces no character the text lacks |
| Manifest.FormatName | tools/update_manifest.py:18-38 | a display name is single-spaced and never holds an underscore |
| Manifest.TitleJoin | tools/update_manifest.py:37 | capitalizing whitespace-free words without underscores and joining them with single spaces gives single-spaced text without underscores |
| Manifest.FormatNameWords | tools/update_manifest.py:18-38 | the display name's words are the file name's words (extension removed, underscores as spaces), each capitalized |
| Manifest.FormatNameIdempotent | tools/update_manifest.py:18-38 | formatting a display name again changes nothing, unless it holds `.csv` |
| Manifest.FormatNameSnakeCase | tools/update_manifest.py:18-38 | `w1_w2_..._wn.csv` becomes the capitalized words joined by single spaces |
| Manifest.FormatNameFirstExample | tools/update_manifest.py:23 | `vocabulary_level_1.csv` becomes `Vocabulary Level 1` |
| Manifest.FormatNameSecondExample | tools/update_manifest.py:24 | `spanish_speaking_countries_and_capitals.csv` becomes `Spanish Speaking Countries And Capitals` |
| Manifest.CsvNames | tools/update_manifest.py:55 | `*.csv` matches every stem followed by `.csv`, and each matching name is its stem followed by `.csv` |
| Manifest.UpdateManifest | tools/update_manifest.py:41-77 | nothing is written when the directory is missing or holds no `.csv` file. Otherwise the manifest is non-empty and lists exactly the directory's `.csv` files, in sorted order. Each entry's name is `format_name` of its file |

## Left out

- Speech synthesis (`generate_audio_pcm`, lines 89-161): the network request, the API key and the retries with exponential back-off. Synthesis is the parameter `Synth`, assumed to answer the same for the same text. It is requested at most once per phrase.
- `pcm_to_wav` (lines 41-68) and the temporary file it uses: a saved result carries the PCM and its sample rate; the WAV header is not modelled.
- File I/O: reading the CSV with pandas, creating the output directory, writing WAV files and `manifest.json` (indentation, `ensure_ascii`, trailing newline). The tools' printed messages, the progress bar and `main`'s command-line handling and exit code are left out as well.
- CSV cells: only text cells and missing cells are modelled. Numeric cells (which `str(word)` would turn into text) and values of mixed types that `sorted` would reject are not modelled.
- ProcessCsv: exceptions escaping the per-word loop are not modelled. Any such exception reaches the catch-all handler (lines 331-333), which returns `(0, 0)` even when files were already written. They include: an `IndexError` when a response has an empty `candidates` list (line 141); an `AttributeError` when the response body, a candidate or a part is not a JSON object (line 141); an `IndexError` or `ValueError` when an audio MIME type carries no numeric `rate=` (line 146); a `ValueError` when a `Retry-After` header is not a whole number (line 124), or when it is a negative one and `time.sleep` rejects it (line 132); invalid base64 audio data (line 147); the `wave` module's error for a sample rate of zero or less (line 58, reached from lines 223 and 237); and an `OSError` while writing the WAV file (lines 55-62, 224-225, 238-239). The model accepts any clip `Synth` returns, including one with rate 0, and saves it. The contract of `ProcessCsv` (its counts, outcomes and files) describes runs in which no exception occurs; `Synth` answering `None` covers only the failures the tool handles itself.
- ProcessCsv: audio file names are compared exactly, as on a case-sensitive file system. On a case-insensitive one (the macOS and Windows default) the existence test at line 182 also finds a file whose name differs only in letter case, so a later word such as `hola` after `Hola` is counted a success without synthesis, where the model's outcome depends on `Generates`.
- GenerateSilencePcm: durations and rates are natural numbers, and the length uses integer division. The source divides in floating point and truncates with `int()`. The two agree while `sample_rate * duration_ms` stays well below 2^53 (the default pause at 24 kHz gives 12 000 000). For products near or above 2^53 the float quotient can round up to the next integer, and the source's length then differs from the model's. Negative or fractional arguments are not modelled.
- Character classes: `isspace` and `isalnum` are exact for code points up to U+00FF only; case mapping in `capitalize` covers ASCII letters only. Python's full Unicode tables are not modelled.
- `UpdateManifest`: the directory listing is a set of file names. A name matches `*.csv` when it ends in `.csv`; entries that are directories and case-insensitive file systems are not modelled. Paths are compared by name, as on POSIX.
- The web application's flashcard session logic is not part of this model.
