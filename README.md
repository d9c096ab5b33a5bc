# MasrALPR plate-text assembly, modelled in Dafny

MasrALPR reads Egyptian licence plates. A character detector reports one
box per glyph it sees on a cropped plate: a class name, a confidence and
the horizontal centre. The code modelled here turns those boxes into the
plate's text, and decides whether a plate is allowed:

- `app/recognition_improved.py`, the improved assembler:
  - keeps boxes above confidence 0.3 and maps each class name through a fixed table to an Arabic character, passing names outside the table through unchanged;
  - removes near-duplicates greedily, most confident first, by x-distance (threshold 20);
  - reads the survivors left to right;
  - concatenates the digits, and collects the letters in front-insertion order (right to left);
  - returns `"<letters> <digits>".strip()`;
  - `recognize_with_voting` runs the assembler on several image variants and returns the most frequent non-empty text, the first one seen on a tie, or `""` when no readable variant gives a non-empty text.
- `app/main.py`, the legacy assembler `perform_ocr` used by the HTTP endpoints:
  - maps class names through its own table the same way, which has no entry for `"0"`, and skips the whole-plate class `"car plate"`;
  - lists numerals left to right and every other character in character-value order;
  - returns `lets + " " + nums` without trimming;
  - allows a plate when no blacklisted text occurs in it (`is_allowed`).

The detector is outside the model: an image is the list of `Detector.Box`
values the detector reports for it. Python's `sort`/`sorted` are modelled by
a stable insertion sort (`StableSort.Sort`). `Counter.most_common(1)` is
modelled as the first hypothesis of maximal count.

Files:

- `seqs.dfy` holds the list comprehensions and reversal.
- `stable_sort.dfy` holds the sort and its properties.
- `pystr.dfy` holds `strip`, `join`, `isdigit`, `in` and string `<`.
- `detector.dfy` holds the detector's output.
- `recognition_improved.dfy` and `app_main.dfy` model the two source files.

The loops of `recognize_characters_improved`, `remove_duplicates`,
`recognize_with_voting` and `perform_ocr` are methods with loop invariants.
Each is proved equal to a specification function, and the lemmas below
state what that function guarantees.

Three points of the code that the model keeps as written:

- A detection exactly 20 apart from a kept one survives: the test is `dist < distance_threshold` (app/recognition_improved.py:85).
- "Nothing read" is the empty string, not a separate not-found value (app/recognition_improved.py:43-44 and :106-107).
- The vote returns only the winning text, not its count (app/recognition_improved.py:110-113).

## Model

| member | source | states |
|---|---|---|
| RecognitionImproved.DigitLabelsMapToArabicDigits | app/recognition_improved.py:4-13 | each class name "0".."9" is shown as the Arabic-Indic digit of the same value, which the assembler counts as a digit |
| RecognitionImproved.MapLabelKeepsWords | app/recognition_improved.py:32 | `ARABIC_MAP.get(label, label)` turns a name without surrounding whitespace into a character without it |
| RecognitionImproved.CollectKeepsConfident | app/recognition_improved.py:23-41 | the collecting loop keeps exactly the boxes with confidence above 0.3, in box order, with their names mapped |
| RecognitionImproved.CollectEmptyIff | app/recognition_improved.py:31-44 | no detection is collected iff every box has confidence at most 0.3 |
| RecognitionImproved.RemoveDuplicates | app/recognition_improved.py:68-92 | the nested loops compute the greedy confidence-ordered pass `Dedup` |
| RecognitionImproved.DedupPartition | app/recognition_improved.py:68-92 | at most one detection comes back unchanged; survivors are pairwise at least the threshold apart; survivors and dropped detections together are exactly the input; every dropped detection has a survivor closer than the threshold and at least as confident |
| RecognitionImproved.DedupKeepsMostConfident | app/recognition_improved.py:76-90 | a detection of maximal confidence from the input always survives, first |
| RecognitionImproved.DedupPair | app/recognition_improved.py:73-92 | of two detections the more confident survives first, and the other survives iff it is at least the threshold away |
| RecognitionImproved.DedupExamples | app/recognition_improved.py:84-85 | two boxes 10 apart keep only the more confident one; 25 apart both survive |
| RecognitionImproved.SortKeepsApart | app/recognition_improved.py:50 | sorting the survivors by x keeps them pairwise apart |
| RecognitionImproved.SeparatedReadStrictly | app/recognition_improved.py:47-50 | survivors of a positive threshold, sorted by x, have strictly increasing x |
| RecognitionImproved.SplitPartition | app/recognition_improved.py:56-60 | every survivor is written exactly once, as a digit or as a letter |
| RecognitionImproved.DigitsForward | app/recognition_improved.py:56-58 | the digit run holds only digits, in strictly increasing x |
| RecognitionImproved.LettersBackward | app/recognition_improved.py:56-60 | the letter run holds only non-digits, in strictly decreasing x (front insertion reverses the reading) |
| RecognitionImproved.ReadingStep | app/recognition_improved.py:56-60 | one more detection appends a digit to the digits or puts a letter in front of the letters |
| RecognitionImproved.AssemblyLayout | app/recognition_improved.py:43-65 | the digit and letter runs partition the survivors; digits run left to right, letters right to left; the text is the stripped letters, space, digits |
| RecognitionImproved.AssembleShape | app/recognition_improved.py:62-65 | for class names that are words, the text is letters, one space, digits, with the space dropped when either part is empty, and each part is empty iff its run is |
| RecognitionImproved.AssembleEmptyIff | app/recognition_improved.py:16-65 | for class names that are words, the text is empty iff no box has confidence above 0.3 |
| RecognitionImproved.RecognizeCharacters | app/recognition_improved.py:16-65 | the method's two loops compute `Assemble` of the detector's boxes |
| RecognitionImproved.Vote | app/recognition_improved.py:101-104 | a variant contributes at most one hypothesis, never the empty text |
| RecognitionImproved.Hypotheses | app/recognition_improved.py:98-104 | `all_results` has at most one entry per variant and no empty entry |
| RecognitionImproved.HypothesesAppend | app/recognition_improved.py:100-104 | the hypotheses of two runs of variants are those of the first followed by those of the second |
| RecognitionImproved.SilentVariantDoesNotVote | app/recognition_improved.py:101-104 | a missing, empty or unreadable variant changes no hypothesis |
| RecognitionImproved.FirstMostFrequent | app/recognition_improved.py:110-111 | the chosen position has maximal count, and every earlier position has a strictly smaller count |
| RecognitionImproved.MostCommon | app/recognition_improved.py:110-111 | the vote picks one of the hypotheses |
| RecognitionImproved.MostCommonWins | app/recognition_improved.py:110-111 | the winner has maximal count, and a hypothesis held by more than half of the hypotheses wins |
| RecognitionImproved.RecognizeWithVoting | app/recognition_improved.py:94-113 | the result is "" iff no variant gives a non-empty text, and otherwise the most common hypothesis |
| RecognitionImproved.VotingExamples | app/recognition_improved.py:110-111 | three "AB 12" against one "XY 99" gives "AB 12"; a two-two tie goes to the hypothesis seen first |
| StableSort.SortSorted | app/recognition_improved.py:50 | the sort's result is ordered by its key |
| StableSort.SortStable | app/main.py:37 | elements with equal keys keep their original relative order |
| StableSort.SortFilter | app/main.py:37-39 | filtering after sorting is sorting after filtering |
| PyStr.StripJoined | app/recognition_improved.py:62-65 | joining words, adding one space and stripping leaves the space only between two non-empty parts, and leaves nothing iff there are no words |
| PyStr.ContainsIsOccurs | app/main.py:57 | `pat in text` holds iff `pat` occurs at some offset of `text` |
| AppMain.DigitLabelsAreNumerals | app/main.py:15-19 | the table has no "0": the name "0" stays "0", the names "1".."9" become Arabic-Indic digits, and all of them count as numerals |
| AppMain.MapLabelKeepsWords | app/main.py:34 | the table turns a name without surrounding whitespace into a character without it |
| AppMain.CollectAppend | app/main.py:30-34 | the collecting loop treats the boxes one by one: the entries of two runs of boxes are concatenated |
| AppMain.CarPlateIgnored | app/main.py:32 | a box of class "car plate" does not change the text |
| AppMain.PerformOcr | app/main.py:27-48 | the loop, the two sorts and the comprehensions compute `OcrText` of the detector's boxes |
| AppMain.NumeralIff | app/main.py:39 | a character counts as a numeral iff it is empty or made of digits, because the Arabic-Indic test is a substring test |
| AppMain.NumeralsByX | app/main.py:37-39 | the numerals are the numeral entries sorted by x: x never decreases, and entries with equal x keep box order |
| AppMain.OutsideIsNotNumeral | app/main.py:41 | `d[1] not in nums_list` holds exactly for the entries that are not numerals |
| AppMain.LettersByChar | app/main.py:40-41 | the letters are exactly the non-numeral entries, in character-value order rather than position order |
| AppMain.OcrPartition | app/main.py:39-41 | every entry is written exactly once, as a numeral or as a letter |
| AppMain.OcrTextNeverEmpty | app/main.py:44-48 | the text always contains a space, and is " " when no character box was read |
| AppMain.StrippedOcrText | app/main.py:44-48 | for class names that are words, the text is whitespace only iff no character box was read |
| AppMain.IsAllowedIff | app/main.py:57 | a plate is allowed iff no blacklist entry occurs in its text |
| AppMain.BlacklistExtremes | app/main.py:57 | an empty blacklist allows every plate; an empty entry denies every plate |
| AppMain.BlankPhotoBlacklistsEverything | app/main.py:69-73 | as written, a photo with nothing read passes the guard and its entry " " denies every text `perform_ocr` returns |
| AppMain.PhotoEntryRejectsBlank | app/main.py:69-73 | for class names that are words and with the corrected guard, a photo is rejected iff no character box was read, and an accepted entry does not deny the blank reading " " |

## Left out

- The detector calls `char_recognizer(plate_img)` and `model(img)`, and the lookup `names[int(box.cls[0])]`, are not modelled. Their result is the input: a sequence of boxes with class name, confidence and x centre.
- The y centre, width and height are stored by the source but never read, so the model does not carry them.
- Confidences and coordinates are Python floats; the model uses exact reals. Rounding, NaN and infinities are not modelled.
- `str.isdigit()` is modelled for ASCII and Arabic-Indic digits only. Python also accepts other Unicode digits (superscripts, other scripts), which are assumed not to be among the detector's class names (those are loaded with the model weights; the ones the source spells out are not such digits).
- `str.isspace()` is modelled by an explicit list of Unicode whitespace characters.
- `list.sort` and `sorted` are library code. They are modelled by a stable insertion sort that gives the same result for the same key; Timsort itself is not modelled.
- `Counter` is library code. `most_common(1)` is modelled by its result: the first hypothesis, in insertion order, of maximal count.
- The image variants (`image_enhancer.py`, `multi_enhance.py`), cropping, OpenCV enhancement, FastAPI endpoints, the database, `cv2.imwrite` and `uuid` are not part of this model. Of `add_bl_photo`, only the guard at line 70 and the entry it stores are modelled. Of `predict`, only `is_allowed` is modelled.
- Whether an image variant exists and has elements (`img is not None and img.size > 0`) is an input: `Option<Image>` with a `size` field.
- RemoveDuplicates: its ensures states only that the result equals `Dedup`. The separation, partition, coverage and most-confident properties are stated about `Dedup` by DedupPartition and DedupKeepsMostConfident, which keeps the callers' proofs small.
- RecognizeCharacters: its ensures states only that the result equals `Assemble`. The layout, shape and emptiness properties are the lemmas about `Assemble`.
- PerformOcr: its ensures states only that the result equals `OcrText`. The properties of `OcrText` are the lemmas that follow it.
- AssembleShape: needs every class name to be non-empty with no surrounding whitespace (`Detector.WordNames`). The class names are loaded with the model weights, which are not part of this model, so this is assumed of them; the names the source spells out (the ARABIC_MAP keys and "car plate") are of that form. A class name "" is not covered.
- AssembleEmptyIff: needs every class name to be non-empty with no surrounding whitespace (`Detector.WordNames`). The class names are loaded with the model weights, which are not part of this model, so this is assumed of them; the names the source spells out (the ARABIC_MAP keys and "car plate") are of that form. A class name "" is not covered: its box gives the text "".
- StrippedOcrText: needs every class name to be non-empty with no surrounding whitespace (`Detector.WordNames`). The class names are loaded with the model weights, which are not part of this model, so this is assumed of them; the names the source spells out (the ARABIC_MAP keys and "car plate") are of that form. A class name "" is not covered: its box gives the text " ".
- PhotoEntryRejectsBlank: needs every class name to be non-empty with no surrounding whitespace (`Detector.WordNames`). The class names are loaded with the model weights, which are not part of this model, so this is assumed of them; the names the source spells out (the ARABIC_MAP keys and "car plate") are of that form. A class name "" is not covered: its box gives the text " ".
- DedupPair: stated for a second detection strictly more confident than the first. Equal confidences keep input order, which the lemma does not cover.

## Findings

| source | as written | input that shows it | evidently intended | confidence | as-written member | corrected member |
|---|---|---|---|---|---|---|
| app/main.py:70 | `if not plate_text` tests the raw result of `perform_ocr`, which always contains the separating space, so the "No plate detected" error is never raised | a photo in which the detector reports no character box gives `plate_text == " "`. That is stored in the blacklist, and since every later `perform_ocr` text contains a space, `is_allowed` is false for every plate | reject a photo from which nothing was read, for example by testing `plate_text.strip()` | not executed | AppMain.BlankPhotoBlacklistsEverything | AppMain.PhotoEntryRejectsBlank |
