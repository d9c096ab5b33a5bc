/** The improved character assembler and the voting aggregator of
    `app/recognition_improved.py`: detections above a confidence threshold
    are mapped to Arabic characters, near-duplicates are suppressed by a
    greedy confidence-ordered x-distance test, the survivors are read left
    to right, digits are concatenated and letters collected for
    right-to-left reading, and several image variants vote on the text. */
module RecognitionImproved {
  import opened Seqs
  import opened StableSort
  import opened PyStr
  import opened Detector

  /** Detector class name -> displayed character. */
  const ArabicMap: map<string, string> := map[
    "0" := "\U{0660}", "1" := "\U{0661}", "2" := "\U{0662}", "3" := "\U{0663}", "4" := "\U{0664}",
    "5" := "\U{0665}", "6" := "\U{0666}", "7" := "\U{0667}", "8" := "\U{0668}", "9" := "\U{0669}",
    "a" := "\U{0623}", "b" := "\U{0628}", "d" := "\U{062F}", "r" := "\U{0631}", "sad" := "\U{0635}",
    "sen" := "\U{0633}", "t" := "\U{0637}", "en" := "\U{0639}", "f" := "\U{0641}", "q" := "\U{0642}",
    "k" := "\U{0643}", "l" := "\U{0644}", "mem" := "\U{0645}", "non" := "\U{0646}", "h" := "\U{0647}\U{0640}",
    "w" := "\U{0648}", "y" := "\U{064A}"
  ]

  /** The characters that count as digits: Arabic-Indic and ASCII. */
  const ArabicDigits: set<char> := {
    '\U{0660}', '\U{0661}', '\U{0662}', '\U{0663}', '\U{0664}',
    '\U{0665}', '\U{0666}', '\U{0667}', '\U{0668}', '\U{0669}',
    '0', '1', '2', '3', '4', '5', '6', '7', '8', '9'
  }

  /** Boxes at or below this confidence are ignored. */
  const ConfidenceThreshold: real := 0.3

  /** `remove_duplicates`' default `distance_threshold`. */
  const DistanceThreshold: real := 20.0

  /** A kept box: its centre, displayed character, confidence and class name. */
  datatype Detection = Detection(x: real, ch: string, conf: real, name: string)

  /** `ARABIC_MAP.get(label, label)` for the class name `name` */
  function MapLabel(name: string): string {
    if name in ArabicMap then ArabicMap[name] else name
  }

  /** `char in ARABIC_DIGITS`: the set holds one-character strings. */
  predicate IsDigitChar(ch: string) {
    |ch| == 1 && ch[0] in ArabicDigits
  }

  predicate IsDigitDetection(d: Detection) {
    IsDigitChar(d.ch)
  }

  predicate IsLetterDetection(d: Detection) {
    !IsDigitChar(d.ch)
  }

  function Char(d: Detection): string {
    d.ch
  }

  function Abs(r: real): real {
    if r < 0.0 then -r else r
  }

  /** Every label '0'..'9' is shown as the Arabic-Indic digit of the same
      value, which the assembler then counts as a digit. */
  lemma DigitLabelsMapToArabicDigits(d: char)
    requires '0' <= d <= '9'
    ensures MapLabel([d]) == [(0x660 + (d as int - '0' as int)) as char]
    ensures IsDigitChar(MapLabel([d]))
  {
    var shown := [(0x660 + (d as int - '0' as int)) as char];
    assert MapLabel([d]) == shown by {
      assert [d] in ArabicMap;
    }
    assert shown[0] in ArabicDigits;
  }

  /** The table maps words to words, so labels without surrounding
      whitespace stay without it. */
  lemma MapLabelKeepsWords(name: string)
    requires IsWord(name)
    ensures IsWord(MapLabel(name))
  {
    if name in ArabicMap {
      assert ArabicMap[name] in ArabicMap.Values;
      TableShowsWords();
    }
  }

  /** Every character the table displays is a word. */
  lemma TableShowsWords()
    ensures forall v :: v in ArabicMap.Values ==> IsWord(v)
  {
  }

  // ---------------------------------------------------------------------
  // Collecting the detector's boxes (lines 23-41)

  predicate IsConfident(b: Box) {
    b.conf > ConfidenceThreshold
  }

  function ToDetection(b: Box): Detection {
    Detection(b.x, MapLabel(b.name), b.conf, b.name)
  }

  /** The `detections` list after the loop over the boxes. */
  function Collect(boxes: seq<Box>): seq<Detection> {
    if boxes == [] then []
    else
      var b := boxes[|boxes| - 1];
      Collect(boxes[..|boxes| - 1]) + (if IsConfident(b) then [ToDetection(b)] else [])
  }

  /** One more box examined by the loop. */
  lemma CollectStep(boxes: seq<Box>, i: nat)
    requires i < |boxes|
    ensures Collect(boxes[..i + 1]) == Collect(boxes[..i]) + (if IsConfident(boxes[i]) then [ToDetection(boxes[i])] else [])
  {
    assert boxes[..i + 1][..i] == boxes[..i];
  }

  /** The loop keeps exactly the boxes above the threshold, in order, with
      their labels mapped. */
  lemma {:induction false} CollectKeepsConfident(boxes: seq<Box>)
    ensures Collect(boxes) == Map(Filter(boxes, IsConfident), ToDetection)
  {
    if boxes != [] {
      var init, b := boxes[..|boxes| - 1], boxes[|boxes| - 1];
      var fi, fb := Filter(init, IsConfident), Filter([b], IsConfident);
      assert Filter(boxes, IsConfident) == fi + fb by {
        assert boxes == init + [b];
        FilterAppend(init, [b], IsConfident);
      }
      assert Map(fi + fb, ToDetection) == Map(fi, ToDetection) + Map(fb, ToDetection) by {
        MapAppend(fi, fb, ToDetection);
      }
      assert Collect(init) == Map(fi, ToDetection) by {
        CollectKeepsConfident(init);
      }
    }
  }

  /** No detection survives the threshold iff every box is at or below it. */
  lemma {:induction false} CollectEmptyIff(boxes: seq<Box>)
    ensures Collect(boxes) == [] <==> forall i :: 0 <= i < |boxes| ==> boxes[i].conf <= ConfidenceThreshold
  {
    if boxes != [] {
      var init := boxes[..|boxes| - 1];
      CollectEmptyIff(init);
      assert forall i :: 0 <= i < |init| ==> init[i] == boxes[i];
    }
  }

  // ---------------------------------------------------------------------
  // remove_duplicates (lines 68-92)

  /** `sorted(..., key=confidence, reverse=True)` */
  function ByConfDesc(a: Detection, b: Detection): bool {
    a.conf > b.conf
  }

  /** `sort(key=x)` */
  function ByX(a: Detection, b: Detection): bool {
    a.x < b.x
  }

  lemma SortKeysAreOrders()
    ensures StrictWeakOrder(ByConfDesc)
    ensures StrictWeakOrder(ByX)
  {
  }

  /** Some already kept detection lies closer than `th` to `d`. */
  predicate NearAny(d: Detection, kept: seq<Detection>, th: real) {
    exists k :: 0 <= k < |kept| && Abs(d.x - kept[k].x) < th
  }

  /** The greedy pass over confidence-ordered detections: `kept` so far,
      `s` still to examine. */
  function Greedy(s: seq<Detection>, kept: seq<Detection>, th: real): seq<Detection> {
    if s == [] then kept
    else if NearAny(s[0], kept, th) then Greedy(s[1..], kept, th)
    else Greedy(s[1..], kept + [s[0]], th)
  }

  /** The detections the same pass discards. */
  ghost function Dropped(s: seq<Detection>, kept: seq<Detection>, th: real): seq<Detection> {
    if s == [] then []
    else if NearAny(s[0], kept, th) then [s[0]] + Dropped(s[1..], kept, th)
    else Dropped(s[1..], kept + [s[0]], th)
  }

  /** `remove_duplicates(detections, th)` */
  function Dedup(dets: seq<Detection>, th: real): seq<Detection> {
    if |dets| <= 1 then dets else Greedy(Sort(dets, ByConfDesc), [], th)
  }

  ghost function DedupDropped(dets: seq<Detection>, th: real): seq<Detection> {
    if |dets| <= 1 then [] else Dropped(Sort(dets, ByConfDesc), [], th)
  }

  /** Every two detections are at least `th` apart horizontally. */
  ghost predicate Separated(s: seq<Detection>, th: real) {
    forall i, j :: 0 <= i < j < |s| ==> Abs(s[i].x - s[j].x) >= th
  }

  /** Some detection of `kept` lies within `th` of `d` and is at least as confident. */
  ghost predicate Covered(d: Detection, kept: seq<Detection>, th: real) {
    exists k :: 0 <= k < |kept| && Abs(d.x - kept[k].x) < th && kept[k].conf >= d.conf
  }

  lemma {:induction false} GreedySplit(s: seq<Detection>, kept: seq<Detection>, th: real)
    ensures |Greedy(s, kept, th)| >= |kept| && Greedy(s, kept, th)[..|kept|] == kept
    ensures multiset(Greedy(s, kept, th)) + multiset(Dropped(s, kept, th)) == multiset(kept) + multiset(s)
  {
    if s != [] {
      assert s == [s[0]] + s[1..];
      if NearAny(s[0], kept, th) {
        GreedySplit(s[1..], kept, th);
        var d := Dropped(s[1..], kept, th);
        assert Greedy(s, kept, th) == Greedy(s[1..], kept, th);
        assert Dropped(s, kept, th) == [s[0]] + d;
        var g := Greedy(s[1..], kept, th);
        calc {
          multiset(Greedy(s, kept, th)) + multiset(Dropped(s, kept, th));
          multiset(g) + multiset([s[0]] + d);
          multiset(g) + multiset(d) + multiset{s[0]};
          multiset(kept) + multiset(s[1..]) + multiset{s[0]};
          { assert s == [s[0]] + s[1..]; }
          multiset(kept) + multiset(s);
        }
      } else {
        GreedySplit(s[1..], kept + [s[0]], th);
        assert (kept + [s[0]])[..|kept|] == kept;
      }
    }
  }

  lemma {:induction false} GreedySeparated(s: seq<Detection>, kept: seq<Detection>, th: real)
    requires Separated(kept, th)
    ensures Separated(Greedy(s, kept, th), th)
  {
    if s != [] {
      if NearAny(s[0], kept, th) {
        GreedySeparated(s[1..], kept, th);
      } else {
        var k := kept + [s[0]];
        forall i, j | 0 <= i < j < |k| ensures Abs(k[i].x - k[j].x) >= th {
          if j == |kept| {
            assert Abs(s[0].x - kept[i].x) >= th;
          }
        }
        GreedySeparated(s[1..], k, th);
      }
    }
  }

  lemma {:induction false} GreedyCovers(s: seq<Detection>, kept: seq<Detection>, th: real)
    requires forall i, j :: 0 <= i < j < |s| ==> s[i].conf >= s[j].conf
    requires forall a, b :: 0 <= a < |kept| && 0 <= b < |s| ==> kept[a].conf >= s[b].conf
    ensures forall i :: 0 <= i < |Dropped(s, kept, th)| ==> Covered(Dropped(s, kept, th)[i], Greedy(s, kept, th), th)
  {
    if s != [] {
      var t := s[1..];
      assert forall i, j :: 0 <= i < j < |t| ==> t[i].conf >= t[j].conf by {
        forall i, j | 0 <= i < j < |t| ensures t[i].conf >= t[j].conf { assert t[i] == s[i + 1] && t[j] == s[j + 1]; }
      }
      if NearAny(s[0], kept, th) {
        GreedyCovers(t, kept, th);
        GreedySplit(t, kept, th);
        var g := Greedy(t, kept, th);
        var k :| 0 <= k < |kept| && Abs(s[0].x - kept[k].x) < th;
        assert g[k] == kept[k];
        assert Covered(s[0], g, th);
        var d := Dropped(s, kept, th);
        assert d == [s[0]] + Dropped(t, kept, th);
        forall i | 0 <= i < |d| ensures Covered(d[i], g, th) {
          if i > 0 { assert d[i] == Dropped(t, kept, th)[i - 1]; }
        }
      } else {
        var k := kept + [s[0]];
        forall a, b | 0 <= a < |k| && 0 <= b < |t| ensures k[a].conf >= t[b].conf {
          assert t[b] == s[b + 1];
        }
        GreedyCovers(t, k, th);
      }
    }
  }

  /** The confidence-ordered input of the greedy pass. */
  lemma ConfidenceOrdered(dets: seq<Detection>)
    ensures forall i, j :: 0 <= i < j < |Sort(dets, ByConfDesc)| ==> Sort(dets, ByConfDesc)[i].conf >= Sort(dets, ByConfDesc)[j].conf
  {
    var s := Sort(dets, ByConfDesc);
    SortKeysAreOrders();
    SortSorted(dets, ByConfDesc);
    forall i, j | 0 <= i < j < |s| ensures s[i].conf >= s[j].conf { assert !ByConfDesc(s[j], s[i]); }
  }

  /** What `remove_duplicates` promises: nothing is invented, survivors are
      pairwise at least `th` apart, and each discarded detection has a more
      (or equally) confident survivor closer than `th`. */
  lemma DedupPartition(dets: seq<Detection>, th: real)
    ensures |dets| <= 1 ==> Dedup(dets, th) == dets
    ensures Separated(Dedup(dets, th), th)
    ensures multiset(Dedup(dets, th)) + multiset(DedupDropped(dets, th)) == multiset(dets)
    ensures forall i :: 0 <= i < |DedupDropped(dets, th)| ==> Covered(DedupDropped(dets, th)[i], Dedup(dets, th), th)
  {
    if |dets| > 1 {
      var s := Sort(dets, ByConfDesc);
      ConfidenceOrdered(dets);
      GreedySplit(s, [], th);
      GreedySeparated(s, [], th);
      GreedyCovers(s, [], th);
    }
  }

  /** The most confident detection (the first of them in input order)
      always survives, in front of the others. */
  lemma DedupKeepsMostConfident(dets: seq<Detection>, th: real)
    requires |dets| > 0
    ensures |Dedup(dets, th)| > 0 && Dedup(dets, th)[0] in dets
    ensures forall i :: 0 <= i < |dets| ==> dets[i].conf <= Dedup(dets, th)[0].conf
  {
    if |dets| > 1 {
      var s := Sort(dets, ByConfDesc);
      ConfidenceOrdered(dets);
      var r := Greedy(s, [], th);
      assert !NearAny(s[0], [], th);
      assert [] + [s[0]] == [s[0]];
      assert r == Greedy(s[1..], [s[0]], th);
      GreedySplit(s[1..], [s[0]], th);
      assert r[0] == s[0];
      assert s[0] in multiset(dets);
      forall i | 0 <= i < |dets| ensures dets[i].conf <= r[0].conf {
        assert dets[i] in multiset(s);
        var m :| 0 <= m < |s| && s[m] == dets[i];
      }
    }
  }

  /** The loop of `remove_duplicates`: each detection, in decreasing
      confidence, is kept unless it lies closer than `threshold` to one
      already kept. What the result satisfies is stated by
      `DedupPartition` and `DedupKeepsMostConfident` about `Dedup`. */
  method RemoveDuplicates(detections: seq<Detection>, threshold: real) returns (kept: seq<Detection>)
    ensures kept == Dedup(detections, threshold)
  {
    if |detections| <= 1 {
      return detections;
    }
    var sortedDets := Sort(detections, ByConfDesc);
    kept := [];
    var i := 0;
    while i < |sortedDets|
      invariant 0 <= i <= |sortedDets|
      invariant Greedy(sortedDets[i..], kept, threshold) == Greedy(sortedDets, [], threshold)
    {
      var det := sortedDets[i];
      var isDuplicate := false;
      var j := 0;
      while j < |kept|
        invariant 0 <= j <= |kept|
        invariant !isDuplicate
        invariant forall k :: 0 <= k < j ==> Abs(det.x - kept[k].x) >= threshold
      {
        if Abs(det.x - kept[j].x) < threshold {
          isDuplicate := true;
          break;
        }
        j := j + 1;
      }
      assert isDuplicate == NearAny(det, kept, threshold);
      assert sortedDets[i..][1..] == sortedDets[i + 1..];
      if !isDuplicate {
        kept := kept + [det];
      }
      i := i + 1;
    }
  }

  /** Two detections, the second more confident: it survives, and the
      first survives behind it exactly when it lies at least `th` away. */
  lemma DedupPair(lo: Detection, hi: Detection, th: real)
    requires lo.conf < hi.conf
    ensures Dedup([lo, hi], th) == if Abs(lo.x - hi.x) < th then [hi] else [hi, lo]
  {
    assert Sort([lo, hi], ByConfDesc) == [hi, lo] by {
      assert [lo, hi][..1] == [lo] && [lo][..0] == [];
      assert Sort([lo], ByConfDesc) == [lo];
    }
    assert Greedy([hi, lo], [], th) == Greedy([lo], [hi], th) by {
      assert !NearAny(hi, [], th);
      assert [] + [hi] == [hi] && [hi, lo][1..] == [lo];
    }
    assert [lo][1..] == [];
    if Abs(lo.x - hi.x) < th {
      assert NearAny(lo, [hi], th) by {
        assert [hi][0] == hi;
      }
      assert Greedy([lo], [hi], th) == Greedy([], [hi], th);
    } else {
      assert Greedy([lo], [hi], th) == Greedy([], [hi] + [lo], th);
      assert [hi] + [lo] == [hi, lo];
    }
  }

  /** Two boxes 10 apart: only the more confident one survives; 25 apart:
      both do, the more confident first. */
  lemma DedupExamples()
    ensures Dedup([Detection(100.0, "a", 0.5, "a"), Detection(110.0, "b", 0.9, "b")], DistanceThreshold)
            == [Detection(110.0, "b", 0.9, "b")]
    ensures Dedup([Detection(100.0, "a", 0.5, "a"), Detection(125.0, "b", 0.9, "b")], DistanceThreshold)
            == [Detection(125.0, "b", 0.9, "b"), Detection(100.0, "a", 0.5, "a")]
  {
    DedupPair(Detection(100.0, "a", 0.5, "a"), Detection(110.0, "b", 0.9, "b"), DistanceThreshold);
    DedupPair(Detection(100.0, "a", 0.5, "a"), Detection(125.0, "b", 0.9, "b"), DistanceThreshold);
  }

  // ---------------------------------------------------------------------
  // recognize_characters_improved (lines 16-65)

  /** The digits of the left-to-right reading, concatenated in that order. */
  function DigitChars(ordered: seq<Detection>): seq<string> {
    Map(Filter(ordered, IsDigitDetection), Char)
  }

  /** The letters of the left-to-right reading, last one first. */
  function LetterChars(ordered: seq<Detection>): seq<string> {
    Map(Reverse(Filter(ordered, IsLetterDetection)), Char)
  }

  /** The text `recognize_characters_improved` returns for the boxes the
      detector reports on one plate image. */
  function Assemble(boxes: seq<Box>): string {
    var detections := Collect(boxes);
    if detections == [] then ""
    else
      var ordered := Sort(Dedup(detections, DistanceThreshold), ByX);
      Strip(Join(" ", LetterChars(ordered)) + " " + Join("", DigitChars(ordered)))
  }

  /** The detections that survive duplicate removal. */
  ghost function Kept(boxes: seq<Box>): seq<Detection> {
    Dedup(Collect(boxes), DistanceThreshold)
  }

  /** The survivors from left to right. */
  ghost function Ordered(boxes: seq<Box>): seq<Detection> {
    Sort(Kept(boxes), ByX)
  }

  /** The digit detections in the order their characters are written. */
  ghost function DigitRun(boxes: seq<Box>): seq<Detection> {
    Filter(Ordered(boxes), IsDigitDetection)
  }

  /** The letter detections in the order their characters are written. */
  ghost function LetterRun(boxes: seq<Box>): seq<Detection> {
    Reverse(Filter(Ordered(boxes), IsLetterDetection))
  }

  /** Reordering the survivors keeps them apart. */
  lemma SortKeepsApart(kept: seq<Detection>, th: real)
    requires Separated(kept, th)
    ensures Separated(Sort(kept, ByX), th)
  {
    var apart := (a: Detection, b: Detection) => Abs(a.x - b.x) >= th;
    assert Pairwise(kept, apart);
    forall a: Detection, b: Detection | apart(a, b) ensures apart(b, a) {
      assert Abs(a.x - b.x) == Abs(b.x - a.x);
    }
    SortPairwise(kept, ByX, apart);
  }

  /** Survivors lie at least a positive distance apart, so reading them
      left to right never meets two with the same x. */
  lemma SeparatedReadStrictly(kept: seq<Detection>, th: real)
    requires th > 0.0 && Separated(kept, th)
    ensures Pairwise(Sort(kept, ByX), ByX)
  {
    var ordered := Sort(kept, ByX);
    assert SortedBy(ordered, ByX) by {
      SortKeysAreOrders();
      SortSorted(kept, ByX);
    }
    assert Separated(ordered, th) by {
      SortKeepsApart(kept, th);
    }
    forall i, j | 0 <= i < j < |ordered| ensures ByX(ordered[i], ordered[j]) {
      assert !ByX(ordered[j], ordered[i]) && Abs(ordered[i].x - ordered[j].x) >= th;
    }
  }

  /** Each detection of a reading is written once, as a digit or as a letter. */
  lemma SplitPartition(ordered: seq<Detection>)
    ensures multiset(Filter(ordered, IsDigitDetection)) + multiset(Reverse(Filter(ordered, IsLetterDetection)))
            == multiset(ordered)
  {
    FilterPartition(ordered, IsDigitDetection, IsLetterDetection);
    ReversePermutes(Filter(ordered, IsLetterDetection));
  }

  /** The digits of a strictly left-to-right reading run left to right. */
  lemma DigitsForward(ordered: seq<Detection>)
    requires Pairwise(ordered, ByX)
    ensures var digits := Filter(ordered, IsDigitDetection);
            && (forall i :: 0 <= i < |digits| ==> IsDigitChar(digits[i].ch))
            && (forall i, j :: 0 <= i < j < |digits| ==> digits[i].x < digits[j].x)
  {
    var digits := Filter(ordered, IsDigitDetection);
    FilterPairwise(ordered, IsDigitDetection, ByX);
    forall i | 0 <= i < |digits| ensures IsDigitChar(digits[i].ch) {
      assert digits[i] in digits;
    }
  }

  /** The letters of a strictly left-to-right reading, reversed, run right to left. */
  lemma LettersBackward(ordered: seq<Detection>)
    requires Pairwise(ordered, ByX)
    ensures var letters := Reverse(Filter(ordered, IsLetterDetection));
            && (forall i :: 0 <= i < |letters| ==> !IsDigitChar(letters[i].ch))
            && (forall i, j :: 0 <= i < j < |letters| ==> letters[i].x > letters[j].x)
  {
    var forward := Filter(ordered, IsLetterDetection);
    assert Pairwise(forward, ByX) by {
      FilterPairwise(ordered, IsLetterDetection, ByX);
    }
    var letters := Reverse(forward);
    forall i | 0 <= i < |letters| ensures !IsDigitChar(letters[i].ch) {
      assert letters[i] in forward;
    }
    ReversePairwise(forward, ByX);
  }

  /** The layout of the assembled text: every surviving detection is
      written exactly once, as a digit or as a letter; survivors never
      share an x, digits run left to right and letters right to left. */
  lemma AssemblyLayout(boxes: seq<Box>)
    ensures multiset(DigitRun(boxes)) + multiset(LetterRun(boxes)) == multiset(Kept(boxes))
    ensures forall i :: 0 <= i < |DigitRun(boxes)| ==> IsDigitChar(DigitRun(boxes)[i].ch)
    ensures forall i :: 0 <= i < |LetterRun(boxes)| ==> !IsDigitChar(LetterRun(boxes)[i].ch)
    ensures forall i, j :: 0 <= i < j < |Ordered(boxes)| ==> Ordered(boxes)[i].x < Ordered(boxes)[j].x
    ensures forall i, j :: 0 <= i < j < |DigitRun(boxes)| ==> DigitRun(boxes)[i].x < DigitRun(boxes)[j].x
    ensures forall i, j :: 0 <= i < j < |LetterRun(boxes)| ==> LetterRun(boxes)[i].x > LetterRun(boxes)[j].x
    ensures Collect(boxes) != [] ==>
      Assemble(boxes) == Strip(Join(" ", Map(LetterRun(boxes), Char)) + " " + Join("", Map(DigitRun(boxes), Char)))
  {
    var kept, ordered := Kept(boxes), Ordered(boxes);
    DedupPartition(Collect(boxes), DistanceThreshold);
    SeparatedReadStrictly(kept, DistanceThreshold);
    SplitPartition(ordered);
    DigitsForward(ordered);
    LettersBackward(ordered);
  }

  /** Every detection the loop collects shows a word when all class names are words. */
  lemma {:induction false} CollectedWords(boxes: seq<Box>)
    requires WordNames(boxes)
    ensures ShowWords(Collect(boxes), Char)
  {
    if boxes != [] {
      var init, b := boxes[..|boxes| - 1], boxes[|boxes| - 1];
      assert forall i :: 0 <= i < |init| ==> init[i] == boxes[i];
      CollectedWords(init);
      MapLabelKeepsWords(b.name);
    }
  }

  /** With class names that are words, every character written is a word. */
  lemma RunsAreWords(boxes: seq<Box>)
    requires WordNames(boxes)
    ensures forall i :: 0 <= i < |LetterRun(boxes)| ==> IsWord(Map(LetterRun(boxes), Char)[i])
    ensures forall i :: 0 <= i < |DigitRun(boxes)| ==> IsWord(Map(DigitRun(boxes), Char)[i])
  {
    CollectedWords(boxes);
    DedupPartition(Collect(boxes), DistanceThreshold);
    WordsSurvive(Collect(boxes), Kept(boxes), Char);
    WordsSurvive(Kept(boxes), Ordered(boxes), Char);
    SplitPartition(Ordered(boxes));
    WordsSurvive(Ordered(boxes), LetterRun(boxes), Char);
    WordsSurvive(Ordered(boxes), DigitRun(boxes), Char);
  }

  /** With class names that are words, the text is the letters, one space, and the digits, with the
      space dropped when either part is missing. */
  lemma AssembleShape(boxes: seq<Box>)
    requires WordNames(boxes)
    ensures var lets := Join(" ", Map(LetterRun(boxes), Char));
            var nums := Join("", Map(DigitRun(boxes), Char));
            && (lets == "" <==> LetterRun(boxes) == [])
            && (nums == "" <==> DigitRun(boxes) == [])
            && Assemble(boxes) == (if lets != "" && nums != "" then lets + " " + nums else lets + nums)
  {
    var letters, digits := Map(LetterRun(boxes), Char), Map(DigitRun(boxes), Char);
    var lets, nums := Join(" ", letters), Join("", digits);
    assert Collect(boxes) != [] ==> Assemble(boxes) == Strip(lets + " " + nums) by {
      AssemblyLayout(boxes);
    }
    assert (forall i :: 0 <= i < |letters| ==> IsWord(letters[i]))
        && (forall i :: 0 <= i < |digits| ==> IsWord(digits[i])) by {
      RunsAreWords(boxes);
    }
    StripJoined(letters, digits);
    if Collect(boxes) == [] {
      assert Ordered(boxes) == [];
    }
  }

  /** With class names that are words, the text is empty exactly when no
      box is above the confidence threshold. */
  lemma AssembleEmptyIff(boxes: seq<Box>)
    requires WordNames(boxes)
    ensures Assemble(boxes) == "" <==> forall i :: 0 <= i < |boxes| ==> boxes[i].conf <= ConfidenceThreshold
  {
    CollectEmptyIff(boxes);
    if Collect(boxes) != [] {
      AssembleShape(boxes);
      AssemblyLayout(boxes);
      DedupKeepsMostConfident(Collect(boxes), DistanceThreshold);
      assert |multiset(DigitRun(boxes))| + |multiset(LetterRun(boxes))| > 0;
    }
  }

  /** One more detection read: a digit is appended to the digits, a letter
      put in front of the letters. */
  lemma ReadingStep(ordered: seq<Detection>, i: nat)
    requires i < |ordered|
    ensures var d := ordered[i];
            && DigitChars(ordered[..i + 1]) == DigitChars(ordered[..i]) + (if IsDigitChar(d.ch) then [d.ch] else [])
            && LetterChars(ordered[..i + 1]) == (if IsDigitChar(d.ch) then [] else [d.ch]) + LetterChars(ordered[..i])
  {
    var done, d := ordered[..i], ordered[i];
    assert ordered[..i + 1] == done + [d];
    FilterAppend(done, [d], IsDigitDetection);
    FilterAppend(done, [d], IsLetterDetection);
    if IsDigitChar(d.ch) {
      assert Filter([d], IsDigitDetection) == [d];
      MapAppend(Filter(done, IsDigitDetection), [d], Char);
      assert Filter([d], IsLetterDetection) == [];
      assert Filter(done, IsLetterDetection) + [] == Filter(done, IsLetterDetection);
    } else {
      assert Filter([d], IsDigitDetection) == [];
      assert Filter(done, IsDigitDetection) + [] == Filter(done, IsDigitDetection);
      assert Filter([d], IsLetterDetection) == [d];
      ReverseSnoc(Filter(done, IsLetterDetection), d);
      MapAppend([d], Reverse(Filter(done, IsLetterDetection)), Char);
    }
  }

  /** The text assembled from the left-to-right reading of the survivors. */
  lemma AssembleRead(boxes: seq<Box>, ordered: seq<Detection>)
    requires Collect(boxes) != [] && ordered == Sort(Dedup(Collect(boxes), DistanceThreshold), ByX)
    ensures Assemble(boxes) == Strip(Join(" ", LetterChars(ordered)) + " " + Join("", DigitChars(ordered)))
  {
  }

  /** `recognize_characters_improved(char_recognizer, plate_img)` after the
      detector has reported `boxes`. */
  method RecognizeCharacters(boxes: seq<Box>) returns (text: string)
    ensures text == Assemble(boxes)
  {
    var detections: seq<Detection> := [];
    for i := 0 to |boxes|
      invariant detections == Collect(boxes[..i])
    {
      var b := boxes[i];
      CollectStep(boxes, i);
      if b.conf > ConfidenceThreshold {
        detections := detections + [Detection(b.x, MapLabel(b.name), b.conf, b.name)];
      }
    }
    assert boxes[..|boxes|] == boxes;
    if detections == [] {
      return "";
    }
    var kept := RemoveDuplicates(detections, DistanceThreshold);
    var ordered := Sort(kept, ByX);
    var numbers: seq<string> := [];
    var letters: seq<string> := [];
    for i := 0 to |ordered|
      invariant numbers == DigitChars(ordered[..i])
      invariant letters == LetterChars(ordered[..i])
    {
      var d := ordered[i];
      ReadingStep(ordered, i);
      if IsDigitChar(d.ch) {
        numbers := numbers + [d.ch];
      } else {
        letters := [d.ch] + letters;
      }
    }
    assert numbers == DigitChars(ordered) && letters == LetterChars(ordered) by {
      assert ordered[..|ordered|] == ordered;
    }
    var numsStr := Join("", numbers);
    var letsStr := Join(" ", letters);
    text := Strip(letsStr + " " + numsStr);
    AssembleRead(boxes, ordered);
  }

  // ---------------------------------------------------------------------
  // recognize_with_voting (lines 94-113)

  /** The variant is read at all: it exists and holds at least one element. */
  predicate Readable(img: Option<Image>) {
    img.Some? && img.value.size > 0
  }

  /** What one variant adds to `all_results`: its text, when it is
      readable and the text is not empty. */
  function Vote(img: Option<Image>): (r: seq<string>)
    ensures |r| <= 1 && forall i :: 0 <= i < |r| ==> r[i] != ""
  {
    if Readable(img) && Assemble(img.value.boxes) != "" then [Assemble(img.value.boxes)] else []
  }

  /** `all_results` after the loop: the non-empty texts of the readable
      variants, in the order of the variants. */
  function Hypotheses(images: seq<Option<Image>>): (r: seq<string>)
    ensures |r| <= |images|
    ensures forall i :: 0 <= i < |r| ==> r[i] != ""
  {
    if images == [] then []
    else Hypotheses(images[..|images| - 1]) + Vote(images[|images| - 1])
  }

  /** One more variant adds its text, if it has one, at the end. */
  lemma HypothesesStep(images: seq<Option<Image>>, i: nat)
    requires i < |images|
    ensures Hypotheses(images[..i + 1]) == Hypotheses(images[..i]) + Vote(images[i])
  {
    assert images[..i + 1][..i] == images[..i];
  }

  /** How many hypotheses equal `h`: `Counter(hs)[h]`. */
  function Count(hs: seq<string>, h: string): nat {
    multiset(hs)[h]
  }

  /** The position, from `from` on, of the first hypothesis whose count is
      maximal there. */
  function FirstMostFrequent(hs: seq<string>, from: nat): (j: nat)
    requires from < |hs|
    ensures from <= j < |hs|
    ensures forall k :: from <= k < |hs| ==> Count(hs, hs[k]) <= Count(hs, hs[j])
    ensures forall k :: from <= k < j ==> Count(hs, hs[k]) < Count(hs, hs[j])
    decreases |hs| - from
  {
    if from == |hs| - 1 then from
    else
      var j := FirstMostFrequent(hs, from + 1);
      if Count(hs, hs[from]) >= Count(hs, hs[j]) then from else j
  }

  /** `Counter(hs).most_common(1)[0][0]`: a hypothesis of maximal count; a
      `Counter` lists its keys in first-occurrence order and keeps the
      first of equally frequent ones, so among ties the earliest wins. */
  function MostCommon(hs: seq<string>): (best: string)
    requires hs != []
    ensures best in hs
  {
    hs[FirstMostFrequent(hs, 0)]
  }

  /** The voting loop over the image variants and the final vote. */
  method RecognizeWithVoting(images: seq<Option<Image>>) returns (best: string)
    ensures best == (if Hypotheses(images) == [] then "" else MostCommon(Hypotheses(images)))
    ensures best == "" <==> Hypotheses(images) == []
  {
    var allResults: seq<string> := [];
    for i := 0 to |images|
      invariant allResults == Hypotheses(images[..i])
    {
      var img := images[i];
      HypothesesStep(images, i);
      if img.Some? && img.value.size > 0 {
        var text := RecognizeCharacters(img.value.boxes);
        if text != "" {
          allResults := allResults + [text];
        }
      }
    }
    assert images[..|images|] == images;
    if allResults == [] {
      return "";
    }
    best := MostCommon(allResults);
  }

  /** Two different hypotheses together occur at most as often as there are hypotheses. */
  lemma {:induction false} TwoCounts(hs: seq<string>, a: string, b: string)
    requires a != b
    ensures Count(hs, a) + Count(hs, b) <= |hs|
  {
    if hs != [] {
      var init := hs[..|hs| - 1];
      TwoCounts(init, a, b);
      assert hs == init + [hs[|hs| - 1]];
    }
  }

  /** The vote picks the hypothesis of maximal count, and a hypothesis
      held by more than half of the readable variants always wins. */
  lemma MostCommonWins(hs: seq<string>, h: string)
    requires hs != []
    ensures forall k :: 0 <= k < |hs| ==> Count(hs, hs[k]) <= Count(hs, MostCommon(hs))
    ensures 2 * Count(hs, h) > |hs| ==> MostCommon(hs) == h
  {
    var best := MostCommon(hs);
    if 2 * Count(hs, h) > |hs| && best != h {
      assert h in multiset(hs);
      var k :| 0 <= k < |hs| && hs[k] == h;
      TwoCounts(hs, h, best);
    }
  }

  /** The variants vote independently: the hypotheses of two runs of
      variants are those of the first followed by those of the second. */
  lemma {:induction false} HypothesesAppend(xs: seq<Option<Image>>, ys: seq<Option<Image>>)
    ensures Hypotheses(xs + ys) == Hypotheses(xs) + Hypotheses(ys)
  {
    if ys == [] {
      assert xs + ys == xs;
    } else {
      var init, last := ys[..|ys| - 1], ys[|ys| - 1];
      var both := xs + ys;
      var hx, hi, v := Hypotheses(xs), Hypotheses(init), Vote(last);
      assert Hypotheses(both) == Hypotheses(xs + init) + v by {
        assert both[..|both| - 1] == xs + init && both[|both| - 1] == last;
      }
      assert Hypotheses(xs + init) == hx + hi by {
        HypothesesAppend(xs, init);
      }
      assert Hypotheses(ys) == hi + v by {
        assert ys[..|ys| - 1] == init && ys[|ys| - 1] == last;
      }
      AppendAssociates(hx, hi, v);
    }
  }

  /** A variant that is missing, empty, or whose text is empty casts no vote. */
  lemma SilentVariantDoesNotVote(before: seq<Option<Image>>, img: Option<Image>, after: seq<Option<Image>>)
    requires !Readable(img) || Assemble(img.value.boxes) == ""
    ensures Hypotheses(before + [img] + after) == Hypotheses(before + after)
  {
    assert Hypotheses([img]) == [] by {
      assert [img][..0] == [];
      assert Vote(img) == [];
    }
    HypothesesAppend(before, [img]);
    HypothesesAppend(before + [img], after);
    HypothesesAppend(before, after);
  }

  /** Three readings of one plate outvote a fourth; with a tie the
      reading seen first wins. */
  lemma VotingExamples()
    ensures MostCommon(["AB 12", "AB 12", "AB 12", "XY 99"]) == "AB 12"
    ensures MostCommon(["XY 99", "AB 12", "AB 12", "XY 99"]) == "XY 99"
  {
    var a, b := "AB 12", "XY 99";
    assert MostCommon([a, a, a, b]) == a by {
      assert multiset([a, a, a, b]) == multiset{a, a, a, b};
      MostCommonWins([a, a, a, b], a);
    }
    assert MostCommon([b, a, a, b]) == b by {
      var tie := [b, a, a, b];
      assert multiset(tie) == multiset{a, a, b, b};
      assert Count(tie, a) == 2 && Count(tie, b) == 2;
    }
  }
}
