/** The legacy assembler `perform_ocr` of `app/main.py` and its blacklist
    test: boxes other than the whole-plate class are mapped to characters,
    numerals are read left to right, every other character is listed in
    character-value order, and the result is `lets + " " + nums`, never
    trimmed. A plate is allowed when no blacklisted text occurs in it. */
module AppMain {
  import opened Seqs
  import opened StableSort
  import opened PyStr
  import opened Detector

  /** Detector class name -> displayed character; unlike the improved
      assembler's table it has no entry for "0". */
  const ArabicMap: map<string, string> := map[
    "1" := "\U{0661}", "2" := "\U{0662}", "3" := "\U{0663}", "4" := "\U{0664}",
    "5" := "\U{0665}", "6" := "\U{0666}", "7" := "\U{0667}", "8" := "\U{0668}", "9" := "\U{0669}",
    "a" := "\U{0623}", "b" := "\U{0628}", "d" := "\U{062F}", "r" := "\U{0631}", "sad" := "\U{0635}",
    "sen" := "\U{0633}", "t" := "\U{0637}", "en" := "\U{0639}", "f" := "\U{0641}", "q" := "\U{0642}",
    "k" := "\U{0643}", "l" := "\U{0644}", "mem" := "\U{0645}", "non" := "\U{0646}", "h" := "\U{0647}\U{0640}",
    "w" := "\U{0648}", "y" := "\U{064A}"
  ]

  /** The class of the box around the whole plate. */
  const CarPlate: string := "car plate"

  /** The literal `'٠١٢٣٤٥٦٧٨٩'` the numeral test searches in. */
  const ArabicIndicDigits: string :=
    "\U{0660}\U{0661}\U{0662}\U{0663}\U{0664}\U{0665}\U{0666}\U{0667}\U{0668}\U{0669}"

  /** The tuple `(x, character)` the loop stores for a box. */
  datatype Entry = Entry(x: real, ch: string)

  /** `ARABIC_MAP.get(label, label)` */
  function MapLabel(name: string): string {
    if name in ArabicMap then ArabicMap[name] else name
  }

  predicate IsCharBox(b: Box) {
    b.name != CarPlate
  }

  function ToEntry(b: Box): Entry {
    Entry(b.x, MapLabel(b.name))
  }

  /** `d[1].isdigit() or d[1] in '٠١٢٣٤٥٦٧٨٩'`; the second test is a
      substring test. */
  predicate IsNumeral(ch: string) {
    IsDigitStr(ch) || Contains(ArabicIndicDigits, ch)
  }

  predicate IsNumeralEntry(e: Entry) {
    IsNumeral(e.ch)
  }

  function EntryChar(e: Entry): string {
    e.ch
  }

  /** `d[1] not in nums_list` */
  function Outside(nums: seq<string>): Entry -> bool {
    (e: Entry) => e.ch !in nums
  }

  /** `sort(key=lambda x: x[0])` */
  function ByX(a: Entry, b: Entry): bool {
    a.x < b.x
  }

  /** `sort(key=lambda x: x[1])`: Python's string order. */
  function ByChar(a: Entry, b: Entry): bool {
    LexLess(a.ch, b.ch)
  }

  lemma SortKeysAreOrders()
    ensures StrictWeakOrder(ByX)
    ensures StrictWeakOrder(ByChar)
  {
    forall a: Entry {:trigger ByChar(a, a)} ensures !ByChar(a, a) {
      LexIrreflexive(a.ch);
    }
    forall a: Entry, b: Entry, c: Entry | ByChar(a, b) && ByChar(b, c) ensures ByChar(a, c) {
      LexTransitive(a.ch, b.ch, c.ch);
    }
    forall a: Entry, b: Entry, c: Entry | ByChar(a, c) ensures ByChar(a, b) || ByChar(b, c) {
      if !ByChar(a, b) && !ByChar(b, c) {
        LexNotLessTransitive(c.ch, b.ch, a.ch);
      }
    }
  }

  // ---------------------------------------------------------------------
  // perform_ocr (lines 29-48)

  /** The `detections` list after the loop over the boxes. */
  function Collect(boxes: seq<Box>): seq<Entry> {
    if boxes == [] then []
    else
      var b := boxes[|boxes| - 1];
      Collect(boxes[..|boxes| - 1]) + (if IsCharBox(b) then [ToEntry(b)] else [])
  }

  lemma CollectStep(boxes: seq<Box>, i: nat)
    requires i < |boxes|
    ensures Collect(boxes[..i + 1]) == Collect(boxes[..i]) + (if IsCharBox(boxes[i]) then [ToEntry(boxes[i])] else [])
  {
    assert boxes[..i + 1][..i] == boxes[..i];
  }

  /** `nums_list`: the numerals of the left-to-right reading. */
  function NumsList(entries: seq<Entry>): seq<string> {
    Map(Filter(Sort(entries, ByX), IsNumeralEntry), EntryChar)
  }

  /** `lets_list`: the characters not in `nums_list`, after the second sort. */
  function LetsList(entries: seq<Entry>): seq<string> {
    Map(Filter(Sort(Sort(entries, ByX), ByChar), Outside(NumsList(entries))), EntryChar)
  }

  /** The text `perform_ocr` returns for the boxes the detector reports. */
  function OcrText(boxes: seq<Box>): string {
    var entries := Collect(boxes);
    Join(" ", LetsList(entries)) + " " + Join("", NumsList(entries))
  }

  /** `perform_ocr(img)` after the detector has reported `boxes`. */
  method PerformOcr(boxes: seq<Box>) returns (text: string)
    ensures text == OcrText(boxes)
  {
    var detections: seq<Entry> := [];
    for i := 0 to |boxes|
      invariant detections == Collect(boxes[..i])
    {
      CollectStep(boxes, i);
      var className := boxes[i].name;
      if className != CarPlate {
        detections := detections + [Entry(boxes[i].x, MapLabel(className))];
      }
    }
    assert boxes[..|boxes|] == boxes;
    detections := Sort(detections, ByX);
    var numsList := Map(Filter(detections, IsNumeralEntry), EntryChar);
    detections := Sort(detections, ByChar);
    var letsList := Map(Filter(detections, Outside(numsList)), EntryChar);
    var nums := Join("", numsList);
    var lets := Join(" ", letsList);
    text := lets + " " + nums;
  }

  lemma {:induction false} CollectAppend(a: seq<Box>, b: seq<Box>)
    ensures Collect(a + b) == Collect(a) + Collect(b)
  {
    if b == [] {
      assert a + b == a;
    } else {
      var init := b[..|b| - 1];
      CollectAppend(a, init);
      assert (a + b)[..|a + b| - 1] == a + init;
    }
  }

  /** A box of the whole-plate class changes nothing in the text. */
  lemma CarPlateIgnored(before: seq<Box>, b: Box, after: seq<Box>)
    requires b.name == CarPlate
    ensures OcrText(before + [b] + after) == OcrText(before + after)
  {
    CollectAppend(before + [b], after);
    CollectAppend(before, [b]);
    CollectAppend(before, after);
    assert Collect([b]) == [] by {
      assert [b][..0] == [];
    }
    assert Collect(before + [b] + after) == Collect(before + after);
  }

  /** Labels "1".."9" become Arabic-Indic digits, "0" stays "0"; all of
      them count as numerals. */
  lemma DigitLabelsAreNumerals(d: char)
    requires '0' <= d <= '9'
    ensures d == '0' ==> MapLabel([d]) == "0"
    ensures d != '0' ==> MapLabel([d]) == [(0x660 + (d as int - '0' as int)) as char]
    ensures IsNumeral(MapLabel([d]))
  {
    if d == '0' {
      assert "0" !in ArabicMap;
      assert IsDigitStr("0");
    } else {
      var shown := [(0x660 + (d as int - '0' as int)) as char];
      assert MapLabel([d]) == shown by {
        assert [d] in ArabicMap;
      }
      assert IsDigitStr(shown);
    }
  }

  /** Every substring of the Arabic-Indic digit literal is empty or made of digits. */
  lemma NumeralIff(ch: string)
    ensures IsNumeral(ch) <==> ch == "" || IsDigitStr(ch)
  {
    ContainsIsOccurs(ArabicIndicDigits, ch);
    if ch == "" {
      assert OccursAt(ch, ArabicIndicDigits, 0);
    } else if Contains(ArabicIndicDigits, ch) {
      var i :| OccursAt(ch, ArabicIndicDigits, i);
      forall k | 0 <= k < |ch| ensures IsDecimalChar(ch[k]) {
        assert ch[k] == ArabicIndicDigits[i + k];
      }
    }
  }

  /** The numeral entries in the order `perform_ocr` writes them. */
  ghost function NumRun(entries: seq<Entry>): seq<Entry> {
    Filter(Sort(entries, ByX), IsNumeralEntry)
  }

  /** The other entries in the order `perform_ocr` writes them. */
  ghost function LetRun(entries: seq<Entry>): seq<Entry> {
    Filter(Sort(Sort(entries, ByX), ByChar), Outside(NumsList(entries)))
  }

  /** The numerals are exactly the numeral entries sorted by x: ascending
      x, and entries with equal x keep the order of the boxes. */
  lemma NumeralsByX(entries: seq<Entry>, y: Entry)
    ensures NumRun(entries) == Sort(Filter(entries, IsNumeralEntry), ByX)
    ensures forall i, j :: 0 <= i < j < |NumRun(entries)| ==> NumRun(entries)[i].x <= NumRun(entries)[j].x
    ensures Filter(NumRun(entries), e => Equivalent(ByX, e, y))
            == Filter(Filter(entries, IsNumeralEntry), e => Equivalent(ByX, e, y))
  {
    SortKeysAreOrders();
    SortFilter(entries, ByX, IsNumeralEntry);
    var numerals := Filter(entries, IsNumeralEntry);
    SortSorted(numerals, ByX);
    SortStable(numerals, ByX, y);
    var run := NumRun(entries);
    forall i, j | 0 <= i < j < |run| ensures run[i].x <= run[j].x {
      assert !ByX(run[j], run[i]);
    }
  }

  /** `d[1] not in nums_list` holds of an entry exactly when its character
      is not a numeral. */
  lemma OutsideIsNotNumeral(entries: seq<Entry>, e: Entry)
    requires e in entries
    ensures Outside(NumsList(entries))(e) <==> !IsNumeral(e.ch)
  {
    var sorted := Sort(entries, ByX);
    assert e in multiset(sorted);
    ListedIffNumeral(sorted, e);
  }

  lemma ListedIffNumeral(sorted: seq<Entry>, e: Entry)
    requires e in sorted
    ensures e.ch in Map(Filter(sorted, IsNumeralEntry), EntryChar) <==> IsNumeral(e.ch)
  {
    var run := Filter(sorted, IsNumeralEntry);
    var nums := Map(run, EntryChar);
    forall k | 0 <= k < |nums| ensures IsNumeral(nums[k]) {
      assert run[k] in run;
    }
    if IsNumeral(e.ch) {
      FilterMembership(sorted, IsNumeralEntry, e);
      var k :| 0 <= k < |run| && run[k] == e;
      assert nums[k] == e.ch;
    }
  }

  /** The letters are exactly the non-numeral entries, listed in
      character-value order, not in position order. */
  lemma LettersByChar(entries: seq<Entry>)
    ensures LetRun(entries) == Filter(Sort(Sort(entries, ByX), ByChar), e => !IsNumeralEntry(e))
    ensures multiset(LetRun(entries)) == multiset(Filter(entries, e => !IsNumeralEntry(e)))
    ensures forall i, j :: 0 <= i < j < |LetRun(entries)| ==> !LexLess(LetRun(entries)[j].ch, LetRun(entries)[i].ch)
  {
    var twice := Sort(Sort(entries, ByX), ByChar);
    var other := (e: Entry) => !IsNumeralEntry(e);
    forall e | e in twice ensures Outside(NumsList(entries))(e) <==> other(e) {
      assert e in multiset(entries);
      OutsideIsNotNumeral(entries, e);
    }
    FilterCongruent(twice, Outside(NumsList(entries)), other);
    SortKeysAreOrders();
    SortFilter(Sort(entries, ByX), ByChar, other);
    SortFilter(entries, ByX, other);
    SortSorted(Filter(Sort(entries, ByX), other), ByChar);
    var run := LetRun(entries);
    forall i, j | 0 <= i < j < |run| ensures !LexLess(run[j].ch, run[i].ch) {
      assert !ByChar(run[j], run[i]);
    }
  }

  /** Every entry is written exactly once, as a numeral or as a letter. */
  lemma OcrPartition(entries: seq<Entry>)
    ensures multiset(NumRun(entries)) + multiset(LetRun(entries)) == multiset(entries)
    ensures |NumsList(entries)| + |LetsList(entries)| == |entries|
  {
    var other := (e: Entry) => !IsNumeralEntry(e);
    LettersByChar(entries);
    FilterPartition(entries, IsNumeralEntry, other);
    SortKeysAreOrders();
    SortFilter(entries, ByX, IsNumeralEntry);
    assert |multiset(NumRun(entries))| + |multiset(LetRun(entries))| == |multiset(entries)|;
  }

  /** The text is letters, one space, numerals, whatever was read: it is
      never empty and always holds a space, even for no boxes at all. */
  lemma OcrTextNeverEmpty(boxes: seq<Box>)
    ensures OcrText(boxes) != ""
    ensures ' ' in OcrText(boxes)
    ensures Collect(boxes) == [] ==> OcrText(boxes) == " "
  {
    var entries := Collect(boxes);
    var lets := Join(" ", LetsList(entries));
    assert OcrText(boxes)[|lets|] == ' ';
    if entries == [] {
      OcrPartition(entries);
      assert "" + " " + "" == " ";
    }
  }

  // ---------------------------------------------------------------------
  // is_allowed (line 57)

  /** `any(item.plate_text in plate_text for item in blacklist)` */
  function AnyListed(blacklist: seq<string>, plateText: string): bool {
    blacklist != [] && (Contains(plateText, blacklist[0]) || AnyListed(blacklist[1..], plateText))
  }

  /** `is_allowed` */
  function IsAllowed(blacklist: seq<string>, plateText: string): bool {
    !AnyListed(blacklist, plateText)
  }

  /** A plate is allowed exactly when no blacklisted text occurs in it. */
  lemma {:induction false} IsAllowedIff(blacklist: seq<string>, plateText: string)
    ensures IsAllowed(blacklist, plateText) <==> forall i :: 0 <= i < |blacklist| ==> !Occurs(blacklist[i], plateText)
  {
    if blacklist != [] {
      IsAllowedIff(blacklist[1..], plateText);
      ContainsIsOccurs(plateText, blacklist[0]);
      assert forall i :: 1 <= i < |blacklist| ==> blacklist[i] == blacklist[1..][i - 1];
    }
  }

  /** An empty blacklist allows every plate; an empty entry denies every plate. */
  lemma BlacklistExtremes(blacklist: seq<string>, plateText: string)
    ensures IsAllowed([], plateText)
    ensures "" in blacklist ==> !IsAllowed(blacklist, plateText)
  {
    IsAllowedIff(blacklist, plateText);
    if "" in blacklist {
      var i :| 0 <= i < |blacklist| && blacklist[i] == "";
      assert OccursAt("", plateText, 0);
    }
  }

  // ---------------------------------------------------------------------
  // add_bl_photo's "No plate detected" guard (line 70)

  /** As written, the guard `if not plate_text` never fires: a photo in
      which nothing is read still blacklists " ", and that entry then
      denies every plate `perform_ocr` can return. */
  lemma BlankPhotoBlacklistsEverything(blank: seq<Box>, boxes: seq<Box>)
    requires Collect(blank) == []
    ensures OcrText(blank) != ""
    ensures !IsAllowed([OcrText(blank)], OcrText(boxes))
  {
    OcrTextNeverEmpty(blank);
    OcrTextNeverEmpty(boxes);
    ContainsChar(OcrText(boxes), ' ');
    assert AnyListed([" "], OcrText(boxes));
  }

  /** The entry a photo adds to the blacklist, with the guard the message
      describes: `None` (HTTP 400, "No plate detected") when only
      whitespace was read. */
  function PhotoEntry(boxes: seq<Box>): Option<string> {
    var text := OcrText(boxes);
    if Strip(text) == "" then None else Some(text)
  }

  /** The table maps words to words. */
  lemma MapLabelKeepsWords(name: string)
    requires IsWord(name)
    ensures IsWord(MapLabel(name))
  {
    if name in ArabicMap {
      assert ArabicMap[name] in ArabicMap.Values;
      TableShowsWords();
    }
  }

  /** Every character the table displays is a word. */
  lemma TableShowsWords()
    ensures forall v :: v in ArabicMap.Values ==> IsWord(v)
  {
  }

  lemma {:induction false} CollectedWords(boxes: seq<Box>)
    requires WordNames(boxes)
    ensures ShowWords(Collect(boxes), EntryChar)
  {
    if boxes != [] {
      var init, b := boxes[..|boxes| - 1], boxes[|boxes| - 1];
      assert forall i :: 0 <= i < |init| ==> init[i] == boxes[i];
      CollectedWords(init);
      MapLabelKeepsWords(b.name);
    }
  }

  /** With class names that are words, the text read is the letters, one
      space and the numerals, the space dropped by `strip()` when either
      part is missing. */
  lemma StrippedOcrText(boxes: seq<Box>)
    requires WordNames(boxes)
    ensures Strip(OcrText(boxes)) == "" <==> Collect(boxes) == []
  {
    assert ShowWords(Collect(boxes), EntryChar) by {
      CollectedWords(boxes);
    }
    StrippedReading(Collect(boxes));
  }

  lemma StrippedReading(entries: seq<Entry>)
    requires ShowWords(entries, EntryChar)
    ensures Strip(Join(" ", LetsList(entries)) + " " + Join("", NumsList(entries))) == "" <==> entries == []
  {
    WrittenWords(entries);
    assert |NumsList(entries)| + |LetsList(entries)| == |entries| by {
      OcrPartition(entries);
    }
    StripJoined(LetsList(entries), NumsList(entries));
  }

  /** Every character written is a word when every entry shows one. */
  lemma WrittenWords(entries: seq<Entry>)
    requires ShowWords(entries, EntryChar)
    ensures forall i :: 0 <= i < |LetsList(entries)| ==> IsWord(LetsList(entries)[i])
    ensures forall i :: 0 <= i < |NumsList(entries)| ==> IsWord(NumsList(entries)[i])
  {
    OcrPartition(entries);
    WordsSurvive(entries, NumRun(entries), EntryChar);
    WordsSurvive(entries, LetRun(entries), EntryChar);
  }

  /** With the corrected guard, a photo is rejected exactly when no
      character box was read (for class names that are words), and an
      accepted entry never matches the blank reading " ". */
  lemma PhotoEntryRejectsBlank(boxes: seq<Box>)
    requires WordNames(boxes)
    ensures PhotoEntry(boxes).None? <==> Collect(boxes) == []
    ensures PhotoEntry(boxes).Some? ==> IsAllowed([PhotoEntry(boxes).value], " ")
  {
    StrippedOcrText(boxes);
    if PhotoEntry(boxes).Some? {
      var text := OcrText(boxes);
      ContainsIsOccurs(" ", text);
    }
  }
}
