/** The quote-aware scanners of `agent/datahub_discovery.py` that cut credential values out of launch
  * material.
  *
  * `str.isspace` is foreign. `lowered` is what `text.lower()` returned; since lowering can change the
  * length, the scanners treat it as a string of its own, as the program does.
  */
module MarkerScanner {
  import opened Foundations

  type Classifier = char -> bool

  const SECRET_VALUE_DELIMITERS: set<char> := {';', '&', ',', '\t', '\r', '\n', ' '}
  const AUTHORIZATION_VALUE_DELIMITERS: set<char> := {';', '&', '\t', '\r', '\n'}
  const MARKER_BOUNDARY_CHARS: set<char> := {'=', ';', ',', '&', '\'', '"', '(', '[', '{'}

  predicate IsQuote(ch: char) {
    ch == '"' || ch == '\''
  }

  // ---------------------------------------------------------------- stripping

  /** The first position from `start` that holds no blank, or past the end. */
  function SkipSpaces(isSpace: Classifier, text: string, start: nat): (i: nat)
    ensures i >= start && (i > start ==> i <= |text|)
    decreases |text| - start
  {
    if start < |text| && isSpace(text[start]) then SkipSpaces(isSpace, text, start + 1) else start
  }

  function TrailingEnd(isSpace: Classifier, text: string, lo: nat, end: nat): (j: nat)
    requires lo <= end <= |text|
    ensures lo <= j <= end
  {
    if end > lo && isSpace(text[end - 1]) then TrailingEnd(isSpace, text, lo, end - 1) else end
  }

  /** `strip()` */
  function Trim(isSpace: Classifier, text: string): string {
    var i := SkipSpaces(isSpace, text, 0);
    text[i..TrailingEnd(isSpace, text, i, |text|)]
  }

  lemma {:induction false} SkipsOnlySpaces(isSpace: Classifier, text: string, start: nat)
    ensures var i := SkipSpaces(isSpace, text, start);
            && (forall k | start <= k < i :: k < |text| && isSpace(text[k]))
            && (i < |text| ==> !isSpace(text[i]))
    decreases |text| - start
  {
    if start < |text| && isSpace(text[start]) {
      SkipsOnlySpaces(isSpace, text, start + 1);
    }
  }

  lemma {:induction false} DropsOnlySpaces(isSpace: Classifier, text: string, lo: nat, end: nat)
    requires lo <= end <= |text|
    ensures var j := TrailingEnd(isSpace, text, lo, end);
            && (forall k | j <= k < end :: isSpace(text[k]))
            && (j > lo ==> !isSpace(text[j - 1]))
  {
    if end > lo && isSpace(text[end - 1]) {
      DropsOnlySpaces(isSpace, text, lo, end - 1);
    }
  }

  /** A trimmed slice is the slice without the blanks at its ends. */
  predicate IsTrimmedSlice(isSpace: Classifier, value: string, text: string, lo: nat, hi: nat, i: nat, j: nat) {
    && lo <= i <= j <= hi <= |text|
    && value == text[i..j]
    && (forall k | lo <= k < i :: isSpace(text[k])) && (forall k | j <= k < hi :: isSpace(text[k]))
    && (value != "" ==> !isSpace(value[0]) && !isSpace(value[|value| - 1]))
  }

  lemma SliceOfSlice(text: string, lo: nat, hi: nat, i: nat, j: nat)
    requires lo <= hi <= |text| && i <= j <= hi - lo
    ensures text[lo..hi][i..j] == text[lo + i..lo + j]
  {
    var slice := text[lo..hi];
    forall k | 0 <= k < j - i ensures slice[i..j][k] == text[lo + i..lo + j][k] {
      assert slice[i..j][k] == slice[i + k] == text[lo + i + k];
    }
  }

  lemma TrimsSlice(isSpace: Classifier, text: string, lo: nat, hi: nat) returns (i: nat, j: nat)
    requires lo <= hi <= |text|
    ensures IsTrimmedSlice(isSpace, Trim(isSpace, text[lo..hi]), text, lo, hi, i, j)
  {
    hide SkipSpaces, TrailingEnd;
    var slice := text[lo..hi];
    i := SkipSpaces(isSpace, slice, 0);
    j := TrailingEnd(isSpace, slice, i, |slice|);
    SkipsOnlySpaces(isSpace, slice, 0);
    DropsOnlySpaces(isSpace, slice, i, |slice|);
    forall k | lo <= k < lo + i ensures isSpace(text[k]) {
      assert slice[k - lo] == text[k];
    }
    forall k | lo + j <= k < hi ensures isSpace(text[k]) {
      assert slice[k - lo] == text[k];
    }
    SliceOfSlice(text, lo, hi, i, j);
    var value := Trim(isSpace, slice);
    assert value == slice[i..j];
    if value != "" {
      assert value[0] == slice[i] && value[|value| - 1] == slice[j - 1];
    }
    i, j := lo + i, lo + j;
  }

  // ---------------------------------------------------------------- quotes and escapes

  /** The backslashes directly before `c`, back to `lo`. */
  function BackslashRun(text: string, lo: nat, c: nat): nat
    requires lo <= c <= |text|
  {
    if c > lo && text[c - 1] == '\\' then 1 + BackslashRun(text, lo, c - 1) else 0
  }

  /** A character is escaped by an odd run of backslashes inside the quotes. */
  predicate Escaped(text: string, lo: nat, c: nat)
    requires lo <= c <= |text|
  {
    BackslashRun(text, lo, c) % 2 == 1
  }

  /** The flag the scanners carry from one character to the next. */
  lemma EscapedSteps(text: string, lo: nat, c: nat)
    requires lo <= c <= |text|
    ensures !Escaped(text, lo, lo)
    ensures c < |text| ==> (Escaped(text, lo, c + 1) <==> text[c] == '\\' && !Escaped(text, lo, c))
  {
  }

  /** The quote opened at `open` is closed by the unescaped quote at `c`. */
  predicate Closes(text: string, open: nat, c: nat) {
    open < c < |text| && text[c] == text[open] && !Escaped(text, open + 1, c)
  }

  /** An even number of backslashes stands directly before `c`, counted back to `lo`. */
  predicate IsUnescaped(text: string, lo: nat, c: nat)
    requires lo <= c <= |text|
  {
    exists n | 0 <= n <= c - lo :: HasRun(text, lo, c, n) && n % 2 == 0
  }

  /** Exactly `n` backslashes. */
  predicate HasRun(text: string, lo: nat, c: nat, n: nat)
    requires lo <= c <= |text| && n <= c - lo
  {
    (forall j | c - n <= j < c :: text[j] == '\\') && (c - n > lo ==> text[c - n - 1] != '\\')
  }

  lemma {:induction false} RunIsCounted(text: string, lo: nat, c: nat, n: nat)
    requires lo <= c <= |text| && n <= c - lo
    ensures BackslashRun(text, lo, c) <= c - lo
    ensures HasRun(text, lo, c, n) <==> BackslashRun(text, lo, c) == n
    decreases c
  {
    if c > lo && text[c - 1] == '\\' {
      if n > 0 {
        RunIsCounted(text, lo, c - 1, n - 1);
      } else {
        RunIsCounted(text, lo, c - 1, 0);
      }
    }
  }

  /** The character at `c` is the quote that was opened, and no backslash escapes it. */
  predicate ClosesQuote(text: string, open: nat, c: nat) {
    open < c < |text| && text[c] == text[open] && IsUnescaped(text, open + 1, c)
  }

  lemma ClosesExactly(text: string, open: nat, c: nat)
    ensures Closes(text, open, c) <==> ClosesQuote(text, open, c)
  {
    hide BackslashRun, HasRun;
    if open < c < |text| {
      var lo := open + 1;
      RunIsCounted(text, lo, c, 0);
      RunIsCounted(text, lo, c, BackslashRun(text, lo, c));
      if IsUnescaped(text, lo, c) {
        var n :| 0 <= n <= c - lo && HasRun(text, lo, c, n) && n % 2 == 0;
        RunIsCounted(text, lo, c, n);
      }
    }
  }

  function ClosingQuote(text: string, open: nat, from: nat): (c: nat)
    requires open < from <= |text|
    ensures from <= c <= |text|
    ensures c < |text| ==> Closes(text, open, c)
    ensures forall k | from <= k < c :: !Closes(text, open, k)
    decreases |text| - from
  {
    if from == |text| || Closes(text, open, from) then from else ClosingQuote(text, open, from + 1)
  }

  function ValueEnd(text: string, delimiters: set<char>, from: nat): (end: nat)
    requires from <= |text|
    ensures from <= end <= |text|
    ensures end < |text| ==> text[end] in delimiters
    ensures forall k | from <= k < end :: text[k] !in delimiters
    decreases |text| - from
  {
    if from == |text| || text[from] in delimiters then from else ValueEnd(text, delimiters, from + 1)
  }

  // ---------------------------------------------------------------- one marked value

  datatype Extraction = Extraction(value: string, next: nat)

  function Marked(isSpace: Classifier, delimiters: set<char>, text: string, start: nat): Extraction {
    var s := SkipSpaces(isSpace, text, start);
    if s >= |text| then Extraction("", |text|)
    else if IsQuote(text[s]) then
      var c := ClosingQuote(text, s, s + 1);
      Extraction(Trim(isSpace, text[s + 1..c]), if c < |text| then c + 1 else |text|)
    else
      var end := ValueEnd(text, delimiters, s);
      Extraction(Trim(isSpace, text[s..end]), end)
  }

  /** The loop both extractors start with. */
  method SkipBlanks(isSpace: Classifier, text: string, start: nat) returns (s: nat)
    ensures s == SkipSpaces(isSpace, text, start)
  {
    s := start;
    while s < |text| && isSpace(text[s])
      invariant SkipSpaces(isSpace, text, s) == SkipSpaces(isSpace, text, start)
    {
      s := s + 1;
    }
  }

  method ExtractMarkedValue(isSpace: Classifier, text: string, start: nat, delimiters: set<char>)
    returns (value: string, next: nat)
    ensures Extraction(value, next) == Marked(isSpace, delimiters, text, start)
  {
    hide Trim, SkipSpaces;
    var s := SkipBlanks(isSpace, text, start);
    if s >= |text| {
      return "", |text|;
    }
    if IsQuote(text[s]) {
      var cursor, escaped := s + 1, false;
      while cursor < |text|
        invariant s < cursor <= |text|
        invariant escaped == Escaped(text, s + 1, cursor)
        invariant ClosingQuote(text, s, cursor) == ClosingQuote(text, s, s + 1)
      {
        var character := text[cursor];
        if character == text[s] && !escaped {
          return Trim(isSpace, text[s + 1..cursor]), cursor + 1;
        }
        escaped := character == '\\' && !escaped;
        cursor := cursor + 1;
      }
      assert text[s + 1..] == text[s + 1..|text|];
      return Trim(isSpace, text[s + 1..]), |text|;
    }
    var end := s;
    while end < |text| && text[end] !in delimiters
      invariant s <= end <= |text|
      invariant ValueEnd(text, delimiters, end) == ValueEnd(text, delimiters, s)
    {
      end := end + 1;
    }
    return Trim(isSpace, text[s..end]), end;
  }

  /** The value is the trimmed slice it claims to be: up to the first unescaped matching quote, to the end
    * when the quote is never closed, or up to the first delimiter.
    */
  predicate IsMarkedSlice(delimiters: set<char>, text: string, s: nat, lo: nat, hi: nat, next: nat) {
    if s >= |text| then lo == hi == next == |text|
    else if text[s] == '"' || text[s] == '\'' then
      && lo == s + 1 <= hi && next == (if hi < |text| then hi + 1 else |text|)
      && (hi < |text| ==> ClosesQuote(text, s, hi)) && hi <= |text|
      && (forall k | s < k < hi :: !ClosesQuote(text, s, k))
    else
      && lo == s <= hi && next == hi <= |text| && (hi < |text| ==> text[hi] in delimiters)
      && (forall k | s <= k < hi :: text[k] !in delimiters)
  }

  lemma MarkedIsSlice(isSpace: Classifier, delimiters: set<char>, text: string, start: nat)
    returns (s: nat, lo: nat, hi: nat, i: nat, j: nat)
    ensures s >= start && (forall k | start <= k < s :: k < |text| && isSpace(text[k]))
    ensures s < |text| ==> !isSpace(text[s])
    ensures IsMarkedSlice(delimiters, text, s, lo, hi, Marked(isSpace, delimiters, text, start).next)
    ensures IsTrimmedSlice(isSpace, Marked(isSpace, delimiters, text, start).value, text, lo, hi, i, j)
  {
    hide Trim, Closes, ClosesQuote;
    s := SkipSpaces(isSpace, text, start);
    SkipsOnlySpaces(isSpace, text, start);
    if s >= |text| {
      lo, hi, i, j := |text|, |text|, |text|, |text|;
      return;
    } else if IsQuote(text[s]) {
      lo, hi := s + 1, ClosingQuote(text, s, s + 1);
      forall k | s < k <= hi ensures Closes(text, s, k) <==> ClosesQuote(text, s, k) {
        ClosesExactly(text, s, k);
      }
    } else {
      lo, hi := s, ValueEnd(text, delimiters, s);
    }
    i, j := TrimsSlice(isSpace, text, lo, hi);
  }

  // ---------------------------------------------------------------- authorization values

  /** Where the quote open at `c` was opened, if one is, scanning from `s`. */
  function OpenQuote(text: string, s: nat, c: nat): (open: Option<nat>)
    requires s <= c <= |text|
    ensures open.Some? ==> s <= open.value < c
  {
    if c == s then None
    else
      match OpenQuote(text, s, c - 1)
      case None => if IsQuote(text[c - 1]) then Some(c - 1) else None
      case Some(open) => if Closes(text, open, c - 1) then None else Some(open)
  }

  /** A quote is open exactly when it was opened outside quotes and nothing has closed it yet. */
  lemma {:induction false} OpenQuoteIsUnclosed(text: string, s: nat, c: nat, open: nat)
    requires s <= open < c <= |text|
    ensures OpenQuote(text, s, c) == Some(open)
       <==> && (text[open] == '"' || text[open] == '\'') && OpenQuote(text, s, open) == None
            && (forall k | open < k < c :: !ClosesQuote(text, open, k))
    decreases c
  {
    hide Closes, ClosesQuote;
    ClosesExactly(text, open, c - 1);
    if open < c - 1 {
      OpenQuoteIsUnclosed(text, s, c - 1, open);
    }
  }

  predicate Ends(text: string, s: nat, e: nat)
    requires s <= e < |text|
  {
    OpenQuote(text, s, e).None? && text[e] in AUTHORIZATION_VALUE_DELIMITERS
  }

  function AuthorizationEnd(text: string, s: nat, from: nat): (e: nat)
    requires s <= from <= |text|
    ensures from <= e <= |text|
    ensures e < |text| ==> Ends(text, s, e)
    ensures forall k | from <= k < e :: !Ends(text, s, k)
    decreases |text| - from
  {
    if from == |text| || Ends(text, s, from) then from else AuthorizationEnd(text, s, from + 1)
  }

  function AuthorizationValue(isSpace: Classifier, text: string, start: nat): Extraction {
    var s := SkipSpaces(isSpace, text, start);
    if s >= |text| then Extraction("", |text|)
    else
      var e := AuthorizationEnd(text, s, s);
      Extraction(Trim(isSpace, text[s..e]), e)
  }

  method ExtractAuthorizationValue(isSpace: Classifier, text: string, start: nat) returns (value: string, next: nat)
    ensures Extraction(value, next) == AuthorizationValue(isSpace, text, start)
  {
    hide Trim, Escaped, BackslashRun, SkipSpaces;
    var s := SkipBlanks(isSpace, text, start);
    if s >= |text| {
      return "", |text|;
    }
    var cursor, escaped := s, false;
    var activeQuote: Option<char> := None;
    while cursor < |text|
      invariant s <= cursor <= |text|
      invariant AuthorizationEnd(text, s, cursor) == AuthorizationEnd(text, s, s)
      invariant match OpenQuote(text, s, cursor)
                case None => activeQuote == None
                case Some(open) => activeQuote == Some(text[open]) && escaped == Escaped(text, open + 1, cursor)
    {
      var character := text[cursor];
      EscapedSteps(text, cursor + 1, cursor + 1);
      if activeQuote.Some? {
        EscapedSteps(text, OpenQuote(text, s, cursor).value + 1, cursor);
        if character == activeQuote.value && !escaped {
          activeQuote := None;
        }
        escaped := character == '\\' && !escaped;
      } else if IsQuote(character) {
        activeQuote, escaped := Some(character), false;
      } else if character in AUTHORIZATION_VALUE_DELIMITERS {
        break;
      }
      cursor := cursor + 1;
    }
    return Trim(isSpace, text[s..cursor]), cursor;
  }

  /** The authorization value runs to the first delimiter outside quotes: each earlier delimiter stands in a
    * quote that is still open there.
    */
  lemma AuthorizationIsSlice(isSpace: Classifier, text: string, start: nat) returns (s: nat, i: nat, j: nat)
    ensures var r := AuthorizationValue(isSpace, text, start);
            && s >= start && (s < |text| ==> !isSpace(text[s]))
            && (s >= |text| ==> r == Extraction("", |text|))
            && (s < |text| ==>
                 && s <= r.next <= |text|
                 && IsTrimmedSlice(isSpace, r.value, text, s, r.next, i, j)
                 && (r.next < |text| ==>
                       OpenQuote(text, s, r.next).None? && text[r.next] in {';', '&', '\t', '\r', '\n'})
                 && (forall k | s <= k < r.next && text[k] in {';', '&', '\t', '\r', '\n'} ::
                       OpenQuote(text, s, k).Some?))
  {
    hide Trim, IsTrimmedSlice;
    s := SkipSpaces(isSpace, text, start);
    SkipsOnlySpaces(isSpace, text, start);
    i, j := 0, 0;
    if s < |text| {
      var e := AuthorizationEnd(text, s, s);
      forall k | s <= k < e && text[k] in AUTHORIZATION_VALUE_DELIMITERS
        ensures OpenQuote(text, s, k).Some?
      {
        assert !Ends(text, s, k);
      }
      i, j := TrimsSlice(isSpace, text, s, e);
    }
  }

  // ---------------------------------------------------------------- every occurrence of a marker

  predicate OccursAt(lowered: string, marker: string, i: nat) {
    i + |marker| <= |lowered| && lowered[i..i + |marker|] == marker
  }

  /** `lowered.find(marker, from)` */
  function Find(lowered: string, marker: string, from: nat): (index: Option<nat>)
    ensures index.Some? ==> index.value >= from && OccursAt(lowered, marker, index.value)
    ensures forall k | from <= k && (index.Some? ==> k < index.value) :: !OccursAt(lowered, marker, k)
    decreases |lowered| - from
  {
    if from > |lowered| then None
    else if OccursAt(lowered, marker, from) then Some(from)
    else Find(lowered, marker, from + 1)
  }

  lemma FoundIsWithin(lowered: string, marker: string, from: nat)
    requires Find(lowered, marker, from).Some?
    ensures var i := Find(lowered, marker, from).value; from <= i && i + |marker| <= |lowered|
  {
    assert OccursAt(lowered, marker, Find(lowered, marker, from).value);
  }

  /** One examined occurrence: where the marker starts, what was extracted, where the search resumes. */
  datatype Visit = Visit(index: nat, value: string, next: nat)

  datatype Scan = SecretScan | AuthorizationScan

  /** Whether an authorization marker starts where a name may start. `None` stands for the `IndexError` of
    * looking at a position that the lowered text has and the text has not.
    */
  function HasBoundary(isSpace: Classifier, text: string, index: nat): Option<bool> {
    if index == 0 then Some(true)
    else if index > |text| then None
    else Some(isSpace(text[index - 1]) || text[index - 1] in MARKER_BOUNDARY_CHARS)
  }

  /** What a scan does at an occurrence, or `None` where it raises. */
  function VisitAt(scan: Scan, isSpace: Classifier, text: string, marker: string, index: nat): (visit: Option<Visit>)
    ensures visit.Some? ==> visit.value.index == index && visit.value.next >= index + |marker|
  {
    var after := index + |marker|;
    match scan
    case SecretScan =>
      var extraction := Marked(isSpace, SECRET_VALUE_DELIMITERS, text, after);
      Some(Visit(index, extraction.value, Max(after, extraction.next)))
    case AuthorizationScan =>
      match HasBoundary(isSpace, text, index)
      case None => None
      case Some(false) => Some(Visit(index, "", after))
      case Some(true) =>
        var extraction := AuthorizationValue(isSpace, text, after);
        Some(Visit(index, extraction.value, Max(after, extraction.next)))
  }

  function Visits(scan: Scan, isSpace: Classifier, text: string, lowered: string, marker: string, from: nat)
    : Option<seq<Visit>>
    requires marker != ""
    decreases |lowered| - from
  {
    match Find(lowered, marker, from)
    case None => Some([])
    case Some(index) =>
      match VisitAt(scan, isSpace, text, marker, index)
      case None => None
      case Some(visit) => Prepend(visit, Visits(scan, isSpace, text, lowered, marker, visit.next))
  }

  function Prepend(visit: Visit, rest: Option<seq<Visit>>): Option<seq<Visit>> {
    match rest
    case None => None
    case Some(visits) => Some([visit] + visits)
  }

  function ValueOf(visit: Visit): set<string> {
    if visit.value != "" then {visit.value} else {}
  }

  function Values(visits: seq<Visit>): set<string> {
    if visits == [] then {} else ValueOf(visits[0]) + Values(visits[1..])
  }

  function WithValues(extracted: set<string>, visits: Option<seq<Visit>>): Option<set<string>> {
    match visits
    case None => None
    case Some(vs) => Some(extracted + Values(vs))
  }

  /** The search moves strictly forward, and each visit is an occurrence of the marker. */
  lemma {:induction false} VisitsMoveForward(
      scan: Scan, isSpace: Classifier, text: string, lowered: string, marker: string, from: nat)
    requires marker != "" && Visits(scan, isSpace, text, lowered, marker, from).Some?
    ensures var visits := Visits(scan, isSpace, text, lowered, marker, from).value;
            && (forall i | 0 <= i < |visits| ::
                  && visits[i].index >= from && OccursAt(lowered, marker, visits[i].index)
                  && VisitAt(scan, isSpace, text, marker, visits[i].index) == Some(visits[i]))
            && (forall i, j | 0 <= i < j < |visits| ::
                  visits[i].index < visits[i].next <= visits[j].index)
    decreases |lowered| - from
  {
    hide VisitAt, OccursAt;
    match Find(lowered, marker, from)
    case None =>
    case Some(index) =>
      var visit := VisitAt(scan, isSpace, text, marker, index).value;
      VisitsMoveForward(scan, isSpace, text, lowered, marker, visit.next);
      var rest := Visits(scan, isSpace, text, lowered, marker, visit.next).value;
      var visits := Visits(scan, isSpace, text, lowered, marker, from).value;
      assert visits == [visit] + rest;
      assert forall i | 1 <= i < |visits| :: visits[i] == rest[i - 1];
  }

  predicate Covers(visit: Visit, k: nat) {
    visit.index == k || visit.index < k < visit.next
  }

  /** Every occurrence of the marker is examined or starts inside what an earlier occurrence consumed. */
  lemma {:induction false} EveryOccurrenceIsCovered(
      scan: Scan, isSpace: Classifier, text: string, lowered: string, marker: string, from: nat, k: nat)
    returns (i: nat)
    requires marker != "" && Visits(scan, isSpace, text, lowered, marker, from).Some?
    requires from <= k && OccursAt(lowered, marker, k)
    ensures var visits := Visits(scan, isSpace, text, lowered, marker, from).value;
            i < |visits| && Covers(visits[i], k)
    decreases |lowered| - from
  {
    hide VisitAt, OccursAt;
    var index := Find(lowered, marker, from).value;
    var visit := VisitAt(scan, isSpace, text, marker, index).value;
    if k < visit.next {
      i := 0;
    } else {
      i := EveryOccurrenceIsCovered(scan, isSpace, text, lowered, marker, visit.next, k);
      i := i + 1;
    }
  }

  lemma {:induction false} SecretScanNeverRaises(
      isSpace: Classifier, text: string, lowered: string, marker: string, from: nat)
    requires marker != ""
    ensures Visits(SecretScan, isSpace, text, lowered, marker, from).Some?
    decreases |lowered| - from
  {
    hide Marked, OccursAt;
    var index := Find(lowered, marker, from);
    if index.Some? {
      var visit := VisitAt(SecretScan, isSpace, text, marker, index.value).value;
      SecretScanNeverRaises(isSpace, text, lowered, marker, visit.next);
    }
  }

  /** No suffix of the marker is a prefix of it, so that its occurrences cannot overlap. */
  predicate NeverOverlapsItself(marker: string) {
    forall d | 0 < d < |marker| :: marker[d..] != marker[..|marker| - d]
  }

  const AUTHORIZATION_TEXT_MARKERS: seq<string> := ["authorization=", "authorization:"]

  /** Both authorization markers end in a character they hold nowhere else. */
  lemma AuthorizationMarkersNeverOverlap(m: nat)
    requires m < |AUTHORIZATION_TEXT_MARKERS|
    ensures NeverOverlapsItself(AUTHORIZATION_TEXT_MARKERS[m])
  {
    var marker := AUTHORIZATION_TEXT_MARKERS[m];
    var n := |marker|;
    forall d | 0 < d < n ensures marker[d..] != marker[..n - d] {
      assert marker[d..][n - d - 1] == marker[n - 1] && marker[..n - d][n - d - 1] == marker[n - d - 1];
    }
  }

  lemma OccurrencesAreApart(lowered: string, marker: string, i: nat, k: nat)
    requires NeverOverlapsItself(marker) && OccursAt(lowered, marker, i) && OccursAt(lowered, marker, k) && i < k
    ensures k >= i + |marker|
  {
    if k < i + |marker| {
      OverlapIsShared(lowered, marker, i, k);
      assert false;
    }
  }

  lemma OverlapIsShared(lowered: string, marker: string, i: nat, k: nat)
    requires OccursAt(lowered, marker, i) && OccursAt(lowered, marker, k) && i < k < i + |marker|
    ensures marker[k - i..] == marker[..|marker| - (k - i)]
  {
    assert marker[k - i..] == lowered[k..i + |marker|] == marker[..|marker| - (k - i)];
  }

  /** The authorization scan raises exactly when lowering lengthened the text so far that a marker starts beyond
    * the end of the original.
    */
  lemma {:induction false} AuthorizationScanRaisesExactly(
      isSpace: Classifier, text: string, lowered: string, marker: string, from: nat)
    requires marker != "" && NeverOverlapsItself(marker)
    ensures Visits(AuthorizationScan, isSpace, text, lowered, marker, from) == None
       <==> exists k | from <= k <= |lowered| :: k > |text| && OccursAt(lowered, marker, k)
    decreases |lowered| - from
  {
    hide AuthorizationValue, OccursAt, NeverOverlapsItself;
    var found := Find(lowered, marker, from);
    if found.Some? && found.value <= |text| {
      var visit := VisitAt(AuthorizationScan, isSpace, text, marker, found.value).value;
      AuthorizationScanRaisesExactly(isSpace, text, lowered, marker, visit.next);
      AuthorizationConsumesText(isSpace, text, marker, found.value);
      forall k | from <= k <= |lowered| && k > |text| && OccursAt(lowered, marker, k)
        ensures k >= visit.next
      {
        OccurrencesAreApart(lowered, marker, found.value, k);
      }
    } else if found.Some? {
      assert found.value <= |lowered| by {
        assert OccursAt(lowered, marker, found.value);
        OccursWithin(lowered, marker, found.value);
      }
    }
  }

  lemma OccursWithin(lowered: string, marker: string, i: nat)
    requires OccursAt(lowered, marker, i)
    ensures i + |marker| <= |lowered|
  {
  }

  /** What one examined occurrence consumes ends with its marker or within the text. */
  lemma AuthorizationConsumesText(isSpace: Classifier, text: string, marker: string, index: nat)
    ensures var visit := VisitAt(AuthorizationScan, isSpace, text, marker, index);
            visit.Some? ==> visit.value.next == index + |marker| || visit.value.next <= |text|
  {
  }

  lemma ScanContinues(scan: Scan, isSpace: Classifier, text: string, lowered: string, marker: string, from: nat,
      extracted: set<string>, visit: Visit)
    requires marker != "" && Find(lowered, marker, from) == Some(visit.index)
    requires VisitAt(scan, isSpace, text, marker, visit.index) == Some(visit)
    ensures WithValues(extracted, Visits(scan, isSpace, text, lowered, marker, from))
         == WithValues(extracted + ValueOf(visit), Visits(scan, isSpace, text, lowered, marker, visit.next))
  {
    hide VisitAt, Find, OccursAt;
    var rest := Visits(scan, isSpace, text, lowered, marker, visit.next);
    if rest.Some? {
      assert ([visit] + rest.value)[1..] == rest.value;
      assert extracted + (ValueOf(visit) + Values(rest.value)) == extracted + ValueOf(visit) + Values(rest.value);
    }
  }

  lemma ScanEnds(scan: Scan, isSpace: Classifier, text: string, lowered: string, marker: string, from: nat,
      extracted: set<string>)
    requires marker != "" && Find(lowered, marker, from) == None
    ensures WithValues(extracted, Visits(scan, isSpace, text, lowered, marker, from)) == Some(extracted)
  {
    hide VisitAt, Find, OccursAt;
    assert extracted + {} == extracted;
  }

  lemma ScanRaises(scan: Scan, isSpace: Classifier, text: string, lowered: string, marker: string, from: nat,
      extracted: set<string>, index: nat)
    requires marker != "" && Find(lowered, marker, from) == Some(index)
    requires VisitAt(scan, isSpace, text, marker, index) == None
    ensures WithValues(extracted, Visits(scan, isSpace, text, lowered, marker, from)) == None
  {
    hide VisitAt, Find, OccursAt;
  }

  /** The scan of one secret marker. */
  method ScanMarker(isSpace: Classifier, text: string, lowered: string, marker: string) returns (extracted: set<string>)
    requires marker != ""
    ensures Some(extracted) == WithValues({}, Visits(SecretScan, isSpace, text, lowered, marker, 0))
  {
    hide Marked, Visits, WithValues, Find, OccursAt;
    extracted := {};
    var searchFrom := 0;
    while true
      invariant WithValues(extracted, Visits(SecretScan, isSpace, text, lowered, marker, searchFrom))
             == WithValues({}, Visits(SecretScan, isSpace, text, lowered, marker, 0))
      decreases |lowered| - searchFrom
    {
      var found := Find(lowered, marker, searchFrom);
      if found.None? {
        ScanEnds(SecretScan, isSpace, text, lowered, marker, searchFrom, extracted);
        break;
      }
      var index := found.value;
      FoundIsWithin(lowered, marker, searchFrom);
      var secret, next := ExtractMarkedValue(isSpace, text, index + |marker|, SECRET_VALUE_DELIMITERS);
      ghost var visit := VisitAt(SecretScan, isSpace, text, marker, index).value;
      ScanContinues(SecretScan, isSpace, text, lowered, marker, searchFrom, extracted, visit);
      ghost var before := extracted;
      if secret != "" {
        extracted := extracted + {secret};
      }
      assert extracted == before + ValueOf(visit);
      searchFrom := Max(index + |marker|, next);
    }
  }

  /** The scan of one authorization marker; `None` where it raises. */
  method ScanAuthorization(isSpace: Classifier, text: string, lowered: string, marker: string)
    returns (extracted: Option<set<string>>)
    requires marker != ""
    ensures extracted == WithValues({}, Visits(AuthorizationScan, isSpace, text, lowered, marker, 0))
  {
    hide AuthorizationValue, Visits, WithValues, Find, OccursAt;
    var values: set<string> := {};
    var searchFrom := 0;
    while true
      invariant WithValues(values, Visits(AuthorizationScan, isSpace, text, lowered, marker, searchFrom))
             == WithValues({}, Visits(AuthorizationScan, isSpace, text, lowered, marker, 0))
      decreases |lowered| - searchFrom
    {
      var found := Find(lowered, marker, searchFrom);
      if found.None? {
        ScanEnds(AuthorizationScan, isSpace, text, lowered, marker, searchFrom, values);
        break;
      }
      var index := found.value;
      FoundIsWithin(lowered, marker, searchFrom);
      var bounded := HasBoundary(isSpace, text, index);
      if bounded.None? {
        ScanRaises(AuthorizationScan, isSpace, text, lowered, marker, searchFrom, values, index);
        return None;
      }
      ghost var visit := VisitAt(AuthorizationScan, isSpace, text, marker, index).value;
      ScanContinues(AuthorizationScan, isSpace, text, lowered, marker, searchFrom, values, visit);
      ghost var before := values;
      if !bounded.value {
        assert values == before + ValueOf(visit);
        searchFrom := index + |marker|;
        continue;
      }
      var value, next := ExtractAuthorizationValue(isSpace, text, index + |marker|);
      if value != "" {
        values := values + {value};
      }
      assert values == before + ValueOf(visit);
      searchFrom := Max(index + |marker|, next);
    }
    return Some(values);
  }

  predicate AllNonempty(markers: seq<string>) {
    forall m | 0 <= m < |markers| :: markers[m] != ""
  }

  /** All secret markers, each scanned on its own. */
  function MarkedValues(isSpace: Classifier, text: string, lowered: string, markers: seq<string>): set<string>
    requires AllNonempty(markers)
  {
    if markers == [] then {}
    else
      SecretScanNeverRaises(isSpace, text, lowered, markers[|markers| - 1], 0);
      MarkedValues(isSpace, text, lowered, markers[..|markers| - 1])
      + Values(Visits(SecretScan, isSpace, text, lowered, markers[|markers| - 1], 0).value)
  }

  method CollectMarkedValues(isSpace: Classifier, text: string, lowered: string, markers: seq<string>)
    returns (extracted: set<string>)
    requires AllNonempty(markers)
    ensures extracted == MarkedValues(isSpace, text, lowered, markers)
  {
    hide Values, Visits;
    extracted := {};
    for i := 0 to |markers|
      invariant extracted == MarkedValues(isSpace, text, lowered, markers[..i])
    {
      var values := ScanMarker(isSpace, text, lowered, markers[i]);
      assert markers[..i + 1][..i] == markers[..i];
      extracted := extracted + values;
    }
    assert markers[..|markers|] == markers;
  }

  lemma {:induction false} VisitedValueIsCollected(visits: seq<Visit>, i: nat)
    requires i < |visits| && visits[i].value != ""
    ensures visits[i].value in Values(visits)
  {
    if i > 0 {
      VisitedValueIsCollected(visits[1..], i - 1);
    }
  }

  lemma {:induction false} MarkerContributes(
      isSpace: Classifier, text: string, lowered: string, markers: seq<string>, m: nat)
    requires AllNonempty(markers) && m < |markers|
    ensures Visits(SecretScan, isSpace, text, lowered, markers[m], 0).Some?
    ensures Values(Visits(SecretScan, isSpace, text, lowered, markers[m], 0).value)
         <= MarkedValues(isSpace, text, lowered, markers)
  {
    hide Values, Visits;
    SecretScanNeverRaises(isSpace, text, lowered, markers[m], 0);
    if m < |markers| - 1 {
      MarkerContributes(isSpace, text, lowered, markers[..|markers| - 1], m);
    }
  }

  /** No marked credential is missed: an occurrence's value is collected unless the occurrence starts inside a
    * region that an earlier occurrence of the same marker consumed, or the value is empty.
    */
  lemma NoOccurrenceIsMissed(
      isSpace: Classifier, text: string, lowered: string, markers: seq<string>, m: nat, k: nat)
    returns (index: nat)
    requires AllNonempty(markers) && m < |markers| && OccursAt(lowered, markers[m], k)
    ensures OccursAt(lowered, markers[m], index) && index <= k
    ensures var cut := Marked(isSpace, {';', '&', ',', '\t', '\r', '\n', ' '}, text, index + |markers[m]|);
            && (index == k || k < index + |markers[m]| || k < cut.next)
            && (cut.value != "" ==> cut.value in MarkedValues(isSpace, text, lowered, markers))
  {
    hide Marked, OccursAt, Visits, Values, MarkedValues;
    var marker := markers[m];
    MarkerContributes(isSpace, text, lowered, markers, m);
    var visits := Visits(SecretScan, isSpace, text, lowered, marker, 0).value;
    var i := EveryOccurrenceIsCovered(SecretScan, isSpace, text, lowered, marker, 0, k);
    VisitsMoveForward(SecretScan, isSpace, text, lowered, marker, 0);
    index := visits[i].index;
    if visits[i].value != "" {
      VisitedValueIsCollected(visits, i);
    }
  }

  /** Every value collected was cut out at an occurrence of one of the markers. */
  lemma {:induction false} CollectedAtOccurrence(
      isSpace: Classifier, text: string, lowered: string, markers: seq<string>, value: string)
    returns (m: nat, index: nat)
    requires AllNonempty(markers) && value in MarkedValues(isSpace, text, lowered, markers)
    ensures m < |markers| && OccursAt(lowered, markers[m], index) && value != ""
    ensures value == Marked(isSpace, {';', '&', ',', '\t', '\r', '\n', ' '}, text, index + |markers[m]|).value
  {
    hide Marked, Values, Visits, OccursAt;
    m := |markers| - 1;
    var marker := markers[m];
    SecretScanNeverRaises(isSpace, text, lowered, marker, 0);
    var visits := Visits(SecretScan, isSpace, text, lowered, marker, 0).value;
    if value in Values(visits) {
      var i := CollectedWasVisited(visits, value);
      VisitsMoveForward(SecretScan, isSpace, text, lowered, marker, 0);
      index := visits[i].index;
    } else {
      m, index := CollectedAtOccurrence(isSpace, text, lowered, markers[..m], value);
    }
  }

  lemma {:induction false} CollectedWasVisited(visits: seq<Visit>, value: string) returns (i: nat)
    requires value in Values(visits)
    ensures i < |visits| && visits[i].value == value && value != ""
  {
    if value in ValueOf(visits[0]) {
      i := 0;
    } else {
      i := CollectedWasVisited(visits[1..], value);
      i := i + 1;
    }
  }

  // ---------------------------------------------------------------- which authorization values are collected

  /** A name may start at `k`: at the start of the text, after a blank, or after a separator, a quote or an opening
    * bracket.
    */
  predicate MayStartName(isSpace: Classifier, text: string, k: nat) {
    || k == 0
    || (k <= |text|
        && var previous := text[k - 1];
           || isSpace(previous) || previous == '=' || previous == ';' || previous == ',' || previous == '&'
           || previous == '\'' || previous == '"' || previous == '(' || previous == '[' || previous == '{')
  }

  lemma BoundaryExactly(isSpace: Classifier, text: string, k: nat)
    requires HasBoundary(isSpace, text, k).Some?
    ensures HasBoundary(isSpace, text, k).value <==> MayStartName(isSpace, text, k)
  {
  }

  /** The values of both authorization markers, each scanned on its own; `None` where a scan raises. */
  function AuthorizationValues(isSpace: Classifier, text: string, lowered: string, n: nat): Option<set<string>>
    requires n <= |AUTHORIZATION_TEXT_MARKERS|
  {
    if n == 0 then Some({})
    else
      match AuthorizationValues(isSpace, text, lowered, n - 1)
      case None => None
      case Some(extracted) =>
        WithValues(extracted, Visits(AuthorizationScan, isSpace, text, lowered, AUTHORIZATION_TEXT_MARKERS[n - 1], 0))
  }

  method CollectAuthorizationValues(isSpace: Classifier, text: string, lowered: string)
    returns (extracted: Option<set<string>>)
    ensures extracted == AuthorizationValues(isSpace, text, lowered, |AUTHORIZATION_TEXT_MARKERS|)
  {
    hide Visits;
    var values: set<string> := {};
    for n := 0 to |AUTHORIZATION_TEXT_MARKERS|
      invariant AuthorizationValues(isSpace, text, lowered, n) == Some(values)
    {
      var scanned := ScanAuthorization(isSpace, text, lowered, AUTHORIZATION_TEXT_MARKERS[n]);
      if scanned.None? {
        RaisingIsFinal(isSpace, text, lowered, n + 1);
        return None;
      }
      ghost var visits := Visits(AuthorizationScan, isSpace, text, lowered, AUTHORIZATION_TEXT_MARKERS[n], 0);
      assert values + ({} + Values(visits.value)) == values + Values(visits.value);
      values := values + scanned.value;
    }
    return Some(values);
  }

  lemma {:induction false} RaisingIsFinal(isSpace: Classifier, text: string, lowered: string, n: nat)
    requires n <= |AUTHORIZATION_TEXT_MARKERS| && AuthorizationValues(isSpace, text, lowered, n) == None
    ensures AuthorizationValues(isSpace, text, lowered, |AUTHORIZATION_TEXT_MARKERS|) == None
    decreases |AUTHORIZATION_TEXT_MARKERS| - n
  {
    if n < |AUTHORIZATION_TEXT_MARKERS| {
      RaisingIsFinal(isSpace, text, lowered, n + 1);
    }
  }

  lemma {:induction false} AuthorizationContributes(isSpace: Classifier, text: string, lowered: string, m: nat, n: nat)
    requires m < n <= |AUTHORIZATION_TEXT_MARKERS| && AuthorizationValues(isSpace, text, lowered, n).Some?
    ensures var visits := Visits(AuthorizationScan, isSpace, text, lowered, AUTHORIZATION_TEXT_MARKERS[m], 0);
            visits.Some? && Values(visits.value) <= AuthorizationValues(isSpace, text, lowered, n).value
  {
    hide Values, Visits;
    if m < n - 1 {
      AuthorizationContributes(isSpace, text, lowered, m, n - 1);
    }
  }

  /** No authorization value is missed: unless the scan raises, a marker that may start a name has its nonempty
    * value collected, or starts inside what such an earlier marker consumed.
    */
  lemma NoAuthorizationIsMissed(isSpace: Classifier, text: string, lowered: string, m: nat, k: nat)
    returns (index: nat)
    requires AuthorizationValues(isSpace, text, lowered, 2).Some?
    requires m < 2 && OccursAt(lowered, ["authorization=", "authorization:"][m], k)
    ensures OccursAt(lowered, ["authorization=", "authorization:"][m], index) && index <= k
    ensures var cut := AuthorizationValue(isSpace, text, index + 14);
            && (index == k || (MayStartName(isSpace, text, index) && k < cut.next))
            && (MayStartName(isSpace, text, index) && cut.value != "" ==>
                  cut.value in AuthorizationValues(isSpace, text, lowered, 2).value)
  {
    hide AuthorizationValue, OccursAt, Visits, Values, AuthorizationValues, HasBoundary, MayStartName, NeverOverlapsItself;
    var marker := AUTHORIZATION_TEXT_MARKERS[m];
    AuthorizationContributes(isSpace, text, lowered, m, 2);
    var visits := Visits(AuthorizationScan, isSpace, text, lowered, marker, 0).value;
    var i := EveryOccurrenceIsCovered(AuthorizationScan, isSpace, text, lowered, marker, 0, k);
    VisitsMoveForward(AuthorizationScan, isSpace, text, lowered, marker, 0);
    index := visits[i].index;
    BoundaryExactly(isSpace, text, index);
    AuthorizationMarkersNeverOverlap(m);
    if index < k {
      OccurrencesAreApart(lowered, marker, index, k);
    }
    if visits[i].value != "" {
      VisitedValueIsCollected(visits, i);
    }
  }

  /** And every collected value was cut at a marker that may start a name. */
  lemma {:induction false} AuthorizationAtOccurrence(
      isSpace: Classifier, text: string, lowered: string, n: nat, value: string)
    returns (m: nat, index: nat)
    requires n <= |AUTHORIZATION_TEXT_MARKERS| && AuthorizationValues(isSpace, text, lowered, n).Some?
    requires value in AuthorizationValues(isSpace, text, lowered, n).value
    ensures m < n <= 2 && OccursAt(lowered, ["authorization=", "authorization:"][m], index)
    ensures MayStartName(isSpace, text, index) && value != ""
    ensures value == AuthorizationValue(isSpace, text, index + 14).value
  {
    hide AuthorizationValue, Values, Visits, OccursAt, MayStartName, HasBoundary;
    m := n - 1;
    var marker := AUTHORIZATION_TEXT_MARKERS[m];
    var visits := Visits(AuthorizationScan, isSpace, text, lowered, marker, 0).value;
    if value in Values(visits) {
      var i := CollectedWasVisited(visits, value);
      VisitsMoveForward(AuthorizationScan, isSpace, text, lowered, marker, 0);
      index := visits[i].index;
      BoundaryExactly(isSpace, text, index);
    } else {
      m, index := AuthorizationAtOccurrence(isSpace, text, lowered, n - 1, value);
    }
  }

  // ---------------------------------------------------------------- lowering that lengthens the text

  /** `lower()` character by character; a character may lower to several. */
  function LowerAll(lower: char -> string, text: string): string {
    if text == "" then "" else lower(text[0]) + LowerAll(lower, text[1..])
  }

  lemma {:induction false} LowerAllJoins(lower: char -> string, a: string, b: string)
    ensures LowerAll(lower, a + b) == LowerAll(lower, a) + LowerAll(lower, b)
  {
    if a == "" {
      assert a + b == b;
    } else {
      LowerAllJoins(lower, a[1..], b);
      assert (a + b)[1..] == a[1..] + b;
    }
  }

  /** The piece lowers to the marker, character for character. */
  predicate Spells(lower: char -> string, piece: string, marker: string) {
    |piece| == |marker| && forall j | 0 <= j < |piece| :: lower(piece[j]) == [marker[j]]
  }

  lemma {:induction false} SpellingLowers(lower: char -> string, piece: string, marker: string)
    requires Spells(lower, piece, marker)
    ensures LowerAll(lower, piece) == marker
  {
    if piece != "" {
      SpellingLowers(lower, piece[1..], marker[1..]);
    }
  }

  lemma {:induction false} LoweringNeverShortens(lower: char -> string, text: string)
    requires forall i | 0 <= i < |text| :: lower(text[i]) != ""
    ensures |LowerAll(lower, text)| >= |text|
    ensures |LowerAll(lower, text)| == |text| <==> forall i | 0 <= i < |text| :: |lower(text[i])| == 1
  {
    if text != "" {
      LoweringNeverShortens(lower, text[1..]);
      assert forall i | 1 <= i < |text| :: text[i] == text[1..][i - 1];
    }
  }

  /** A marker spelled at `p` in the text is found in the lowered text, and the value is then cut out of the text
    * as many characters too late as lowering lengthened what precedes it: right after the marker exactly when
    * every character before it lowers to one.
    */
  lemma CutIsShifted(isSpace: Classifier, lower: char -> string, before: string, piece: string, after: string,
      marker: string)
    returns (index: nat, shift: nat)
    requires Spells(lower, piece, marker) && forall i | 0 <= i < |before| :: lower(before[i]) != ""
    ensures var text := before + piece + after;
            && OccursAt(LowerAll(lower, text), marker, index) && index == |before| + shift
            && (shift == 0 <==> forall i | 0 <= i < |before| :: |lower(before[i])| == 1)
            && VisitAt(SecretScan, isSpace, text, marker, index).value.value
               == Marked(isSpace, SECRET_VALUE_DELIMITERS, text, |before| + |piece| + shift).value
  {
    hide Marked;
    LoweringNeverShortens(lower, before);
    index, shift := |LowerAll(lower, before)|, |LowerAll(lower, before)| - |before|;
    LowerAllJoins(lower, before + piece, after);
    LowerAllJoins(lower, before, piece);
    SpellingLowers(lower, piece, marker);
  }

  /** What `lower()` does to the dotted capital I; lower-case ASCII is left alone. */
  function LowerDotted(ch: char): string {
    if ch == '\U{0130}' then "i\U{0307}" else [ch]
  }

  function Dotted(n: nat): (s: string)
    ensures |s| == n && forall i | 0 <= i < n :: s[i] == '\U{0130}'
  {
    seq(n, i => '\U{0130}')
  }

  lemma {:induction false} DottedLowers(n: nat)
    ensures |LowerAll(LowerDotted, Dotted(n))| == 2 * n
  {
    if n > 0 {
      DottedLowers(n - 1);
      assert Dotted(n)[1..] == Dotted(n - 1);
    }
  }

  lemma {:induction false} PlainLowersToItself(text: string)
    requires forall i | 0 <= i < |text| :: text[i] != '\U{0130}'
    ensures LowerAll(LowerDotted, text) == text
  {
    if text != "" {
      PlainLowersToItself(text[1..]);
    }
  }

  /** For instance, after dotted capital letters: sixteen of them make the authorization scan raise, fewer do
    * not.
    */
  lemma SixteenDottedLettersRaise(isSpace: Classifier, n: nat)
    ensures var text := Dotted(n) + "authorization=x";
            Visits(AuthorizationScan, isSpace, text, LowerAll(LowerDotted, text), "authorization=", 0) == None
            <==> n >= 16
  {
    hide Visits, LowerAll, NeverOverlapsItself, LowerDotted;
    var marker, tail := "authorization=", "authorization=x";
    var text := Dotted(n) + tail;
    var lowered := LowerAll(LowerDotted, text);
    AuthorizationMarkersNeverOverlap(0);
    AuthorizationScanRaisesExactly(isSpace, text, lowered, marker, 0);
    LowerAllJoins(LowerDotted, Dotted(n), tail);
    DottedLowers(n);
    PlainLowersToItself(tail);
    assert lowered[2 * n..] == tail;
    assert OccursAt(lowered, marker, 2 * n) by {
      assert lowered[2 * n..2 * n + 14] == tail[..14] == marker;
    }
    assert !OccursAt(lowered, marker, 2 * n + 1) by {
      assert lowered[2 * n + 1] == 'u' && marker[0] == 'a';
    }
  }

  lemma TrimsNothing(isSpace: Classifier, s: string)
    requires s != "" && !isSpace(s[0]) && !isSpace(s[|s| - 1])
    ensures Trim(isSpace, s) == s
  {
  }

  /** For instance, one dotted capital letter before a token drops the token's first character. */
  lemma DottedLetterDropsHead(isSpace: Classifier)
    requires !isSpace('b') && !isSpace('c')
    ensures var text := "\U{0130}token=abc";
            && OccursAt(LowerAll(LowerDotted, text), "token=", 2)
            && VisitAt(SecretScan, isSpace, text, "token=", 2).value.value == "bc"
  {
    hide LowerAll, Trim;
    var text := "\U{0130}token=abc";
    PlainLowersToItself("token=abc");
    LowerAllJoins(LowerDotted, Dotted(1), "token=abc");
    DottedLowers(1);
    var lowered := LowerAll(LowerDotted, text);
    assert text == Dotted(1) + "token=abc";
    assert lowered[2..8] == "token=abc"[..6] == "token=";
    assert SkipSpaces(isSpace, text, 8) == 8;
    assert ValueEnd(text, SECRET_VALUE_DELIMITERS, 8) == 10;
    TrimsNothing(isSpace, "bc");
    assert text[8..10] == "bc";
  }
}
