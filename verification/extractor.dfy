/** The single-shot tag extractor: `parseXML` finds the first occurrence
    of a trigger such as `<title>`, and `terminatorSearch` slides a
    window forward from it until the window ends in `</` or `/>`, then
    cleans the text captured in between.

    The loop is modelled step by step (`TermLoop`), including its two
    fragilities: the window stops moving once the count index reaches
    `|text| - |trigger|`, so a terminator near the end is never seen,
    and the loop then runs the capture index past the end and raises.
    `ExtractFound`, `ExtractAbsent` and `ExtractUnterminated` state what
    the loop computes in terms of occurrences.
 */
module TagExtractor {
  import opened Results
  import opened Text
  import opened Sanitizer

  /** The closing form derived from a trigger: `/` inserted after its
      first character (`<title>` becomes `</title>`). */
  function EndTag(t: string): (e: string)
    requires |t| > 0
    ensures |e| == |t| + 1 && e[0] == t[0] && e[1] == '/'
    ensures forall k :: 1 <= k < |t| ==> e[k + 1] == t[k]
  {
    t[..1] + "/" + t[1..]
  }

  /** A terminator pair at offset `p`: `</` or `/>`. */
  predicate TerminatorAt(h: string, p: nat) {
    p + 2 <= |h| && ((h[p] == '<' && h[p + 1] == '/') || (h[p] == '/' && h[p + 1] == '>'))
  }

  /** `p` is the first terminator in the offsets `lo..hi`. */
  predicate IsFirstTerminator(h: string, lo: nat, hi: int, p: nat) {
    lo <= p <= hi && TerminatorAt(h, p) && forall q: nat :: lo <= q < p ==> !TerminatorAt(h, q)
  }

  /** The triggers the parser uses: they start with `<`, contain no `/`
      and do not end in `<`. For such a trigger the derived closing tag
      can never stop the loop before a terminator pair does. */
  predicate WellFormedTrigger(t: string) {
    |t| >= 2 && t[0] == '<' && '/' !in t && t[|t| - 1] != '<'
  }

  /** How one run of the terminator loop ends: a captured span, a
      `null` return, or an out-of-range substring. */
  datatype Scan = Hit(capture: string) | Missed | Overrun

  /** A found value, cleaned; the clean-up may itself raise. */
  function CleanCapture(s: string): (r: Result<Option<string>>)
    ensures r.Ok? <==> CleanString(s).Ok?
    ensures r.Ok? ==> r.value == Some(CleanString(s).value)
    ensures r.Err? ==> r.fault == CleanString(s).fault
  {
    var v :- CleanString(s);
    Ok(Some(v))
  }

  /** `parseXML(text, trigger)`. An empty trigger makes the closing-tag
      derivation raise; empty text yields null. */
  function ParseXML(h: string, t: string): (r: Result<Option<string>>)
    ensures |t| == 0 ==> r == Err(IndexOutOfBounds)
    ensures |t| > 0 && |h| == 0 ==> r == Ok(None)
  {
    if |t| == 0 then Err(IndexOutOfBounds)
    else if |h| == 0 then Ok(None)
    else FindTrigger(h, t, 0)
  }

  /** The `for` loop of `parseXML`: offsets `index < |text| - |trigger|`
      are compared with the trigger; the first match hands over to the
      terminator search. */
  function FindTrigger(h: string, t: string, index: nat): (r: Result<Option<string>>)
    requires |t| > 0
    decreases |h| - index
    ensures (forall i: nat :: index <= i && i + |t| < |h| ==> !OccursAt(h, t, i)) ==> r == Ok(None)
    ensures forall i: nat :: IsFirstFrom(h, t, index, i) && i + |t| < |h| ==> r == TerminatorSearch(h, i, t)
  {
    if index + |t| >= |h| then Ok(None)
    else if h[index..index + |t|] == t then
      assert OccursAt(h, t, index);
      TerminatorSearch(h, index, t)
    else FindTrigger(h, t, index + 1)
  }

  /** `p` is the first terminator pair after the trigger found at
      `index`, and it lies before the point where the window freezes. */
  predicate FirstPairBeforeFreeze(h: string, t: string, index: nat, p: nat) {
    IsFirstTerminator(h, index + |t|, |h| - |t| - 3, p)
  }

  /** `terminatorSearch`: the window and the captured text both start
      as the trigger plus one character. For a trigger of the parser
      found at `index`, the result is the cleaned text up to the first
      `</` or `/>` after the trigger when that pair lies before the
      freeze point, and a raise when no pair does. */
  function TerminatorSearch(h: string, index: nat, t: string): (r: Result<Option<string>>)
    requires |t| > 0 && index + |t| < |h|
    ensures WellFormedTrigger(t) && OccursAt(h, t, index) ==>
              forall p: nat :: FirstPairBeforeFreeze(h, t, index, p) ==>
                r == CleanCapture(h[index + |t|..p])
    ensures WellFormedTrigger(t) && OccursAt(h, t, index) &&
              (forall q: nat :: index + |t| <= q <= |h| - |t| - 3 ==> !TerminatorAt(h, q)) ==>
                r == Err(IndexOutOfBounds)
  {
    var c0 := index + |t| + 1;
    LoopFromTriggerHits(h, index, t);
    LoopFromTriggerOverruns(h, index, t);
    match TermLoop(h, index, |t|, EndTag(t), c0, c0, c0)
    case Hit(v) => CleanCapture(v)
    case Missed => Ok(None)
    case Overrun => Err(IndexOutOfBounds)
  }

  /** From the trigger, the loop captures up to the first terminator
      pair before the freeze point. */
  lemma LoopFromTriggerHits(h: string, index: nat, t: string)
    requires |t| > 0 && index + |t| < |h|
    ensures WellFormedTrigger(t) && OccursAt(h, t, index) ==>
              forall p: nat :: FirstPairBeforeFreeze(h, t, index, p) ==>
                TermLoop(h, index, |t|, EndTag(t), index + |t| + 1, index + |t| + 1, index + |t| + 1)
                  == Hit(h[index + |t|..p])
  {
    var c0 := index + |t| + 1;
    var lo := index + |t|;
    if WellFormedTrigger(t) && OccursAt(h, t, index) {
      assert MovingState(h, index, t, c0, c0, lo);
      forall p: nat | FirstPairBeforeFreeze(h, t, index, p)
        ensures TermLoop(h, index, |t|, EndTag(t), c0, c0, c0) == Hit(h[lo..p])
      {
        MovingWindowHit(h, index, t, c0, c0, lo, p);
      }
    }
  }

  /** From the trigger, with no terminator pair before the freeze point,
      the loop raises. */
  lemma LoopFromTriggerOverruns(h: string, index: nat, t: string)
    requires |t| > 0 && index + |t| < |h|
    ensures WellFormedTrigger(t) && OccursAt(h, t, index) &&
              (forall q: nat :: index + |t| <= q <= |h| - |t| - 3 ==> !TerminatorAt(h, q)) ==>
                TermLoop(h, index, |t|, EndTag(t), index + |t| + 1, index + |t| + 1, index + |t| + 1)
                  == Overrun
  {
    var c0 := index + |t| + 1;
    var lo := index + |t|;
    if WellFormedTrigger(t) && OccursAt(h, t, index) &&
       (forall q: nat :: lo <= q <= |h| - |t| - 3 ==> !TerminatorAt(h, q)) {
      assert MovingState(h, index, t, c0, c0, lo);
      MovingWindowOverrun(h, index, t, c0, c0, lo);
    }
  }

  /** One iteration of the `while` loop of `terminatorSearch`. The loop
      variables are the count index `c`, the window `compStr`, which is
      the `tl + 1` characters ending at `we`, and the capture
      `searchStr`, which is the text from the trigger up to `se`. The
      window end follows the count index only while it stays below
      `|text| - tl`; after that the window keeps its last value. */
  function TermLoop(h: string, index: nat, tl: nat, endStr: string, c: nat, we: nat, se: nat)
    : (r: Scan)
    requires 0 < tl && index + tl < we <= c && we <= |h| && index + tl < se <= |h|
    decreases |h| + 2 - c
  {
    var w := h[we - tl - 1..we];
    if w == endStr || c > |h| + 1 then Missed
    else if (w[|w| - 2] == '<' && w[|w| - 1] == '/') || (w[|w| - 2] == '/' && w[|w| - 1] == '>') then
      Hit(h[index..se][tl..se - index - 1])
    else if c > |h| then Overrun
    else
      var c' := c + 1;
      TermLoop(h, index, tl, endStr, c', if c' < |h| - tl then c' else we, c)
  }

  /** Whatever the loop captures is a span of the text that starts right
      after the trigger and ends before the last character. */
  lemma {:induction false} LoopCapturesSpan(h: string, index: nat, tl: nat, endStr: string, c: nat, we: nat, se: nat)
    requires 0 < tl && index + tl < we <= c && we <= |h| && index + tl < se <= |h|
    ensures var r := TermLoop(h, index, tl, endStr, c, we, se);
            r.Hit? ==> index + tl + |r.capture| < |h| && r.capture == h[index + tl..index + tl + |r.capture|]
    decreases |h| + 2 - c
  {
    var w := h[we - tl - 1..we];
    if w == endStr || c > |h| + 1 {
    } else if EndsInTerminator(w) {
      var cap := h[index..se][tl..se - index - 1];
      assert forall k :: 0 <= k < |cap| ==> cap[k] == h[index + tl + k];
      assert cap == h[index + tl..index + tl + |cap|];
    } else if c <= |h| {
      var c' := c + 1;
      LoopCapturesSpan(h, index, tl, endStr, c', if c' < |h| - tl then c' else we, c);
    }
  }

  /** A window ending in a terminator pair. */
  predicate EndsInTerminator(w: string)
    requires |w| >= 2
  {
    (w[|w| - 2] == '<' && w[|w| - 1] == '/') || (w[|w| - 2] == '/' && w[|w| - 1] == '>')
  }

  /** Once the window has stopped moving, it holds text already checked,
      so the loop only advances the capture index until it raises. */
  lemma {:induction false} FrozenWindowRaises(h: string, index: nat, tl: nat, endStr: string, c: nat, we: nat, se: nat)
    requires 0 < tl && index + tl < we <= c && we <= |h| && index + tl < se <= |h|
    requires c <= |h| + 1 && c >= |h| - tl
    requires h[we - tl - 1..we] != endStr && !EndsInTerminator(h[we - tl - 1..we])
    ensures TermLoop(h, index, tl, endStr, c, we, se) == Overrun
    decreases |h| + 2 - c
  {
    if c <= |h| {
      FrozenWindowRaises(h, index, tl, endStr, c + 1, we, c);
    }
  }

  /** The characters of an occurrence are the trigger's characters. */
  lemma OccurrenceChars(h: string, t: string, index: nat)
    requires OccursAt(h, t, index)
    ensures forall k :: 0 <= k < |t| ==> h[index + k] == t[k]
  {
    forall k | 0 <= k < |t| ensures h[index + k] == t[k] {
      assert h[index..index + |t|][k] == h[index + k];
    }
  }

  /** For a well-formed trigger the window never equals the derived
      closing tag while no terminator pair has been passed: the `</` the
      tag starts with would lie inside the trigger or would already
      have been seen. */
  lemma WindowIsNotEndTag(h: string, index: nat, t: string, c: nat)
    requires WellFormedTrigger(t) && OccursAt(h, t, index)
    requires index + |t| + 1 <= c <= |h|
    requires forall q: nat :: index + |t| <= q < c - 2 ==> !TerminatorAt(h, q)
    ensures h[c - |t| - 1..c] != EndTag(t)
  {
    var tl := |t|;
    var w := h[c - tl - 1..c];
    if w == EndTag(t) {
      var s := c - tl - 1;
      assert h[s] == '<' && h[s + 1] == '/' by {
        assert w[0] == h[s] && w[1] == h[s + 1];
      }
      OccurrenceChars(h, t, index);
      if s + 1 <= index + tl - 1 {
        assert false;
      } else if s == index + tl - 1 {
        assert false;
      } else {
        assert TerminatorAt(h, s);
        assert false;
      }
    }
  }

  /** The state of the loop while its window still moves: the window
      ends at the count index `c`, the capture ends at `c - 1` (at `c`
      on the first iteration), and no terminator pair lies between the
      end of the trigger (`lo`) and the current window. */
  predicate MovingState(h: string, index: nat, t: string, c: nat, se: nat, lo: nat)
  {
    var triggerFound := WellFormedTrigger(t) && OccursAt(h, t, index) && index + |t| < |h| && lo == index + |t|;
    var windowMoving := lo + 1 <= c <= |h| && (c == lo + 1 || c < |h| - |t|) &&
                        se == (if c == lo + 1 then c else c - 1);
    triggerFound && windowMoving && forall q: nat :: lo <= q < c - 2 ==> !TerminatorAt(h, q)
  }

  /** The current window ends in a terminator pair exactly when the
      pair lies at `c - 2`; on the first iteration it never does. */
  lemma WindowPair(h: string, index: nat, t: string, c: nat, se: nat, lo: nat)
    requires MovingState(h, index, t, c, se, lo)
    ensures |h[c - |t| - 1..c]| >= 2
    ensures EndsInTerminator(h[c - |t| - 1..c]) <==> TerminatorAt(h, c - 2)
    ensures TerminatorAt(h, c - 2) ==> c - 2 >= lo
    ensures h[c - |t| - 1..c] != EndTag(t)
  {
    var w := h[c - |t| - 1..c];
    WindowIsNotEndTag(h, index, t, c);
    assert w[|w| - 2] == h[c - 2] && w[|w| - 1] == h[c - 1];
    if c == lo + 1 {
      // The first window's pair straddles the trigger's last character,
      // which is neither `<` nor `/`.
      OccurrenceChars(h, t, index);
      assert h[c - 2] == t[|t| - 1];
    }
  }

  /** From a moving state, the loop returns the span up to the first
      terminator pair `p`, as long as `p` ends before the freeze point. */
  lemma {:induction false} MovingWindowHit(h: string, index: nat, t: string, c: nat, se: nat, lo: nat, p: nat)
    requires MovingState(h, index, t, c, se, lo)
    requires IsFirstTerminator(h, lo, |h| - |t| - 3, p)
    ensures TermLoop(h, index, |t|, EndTag(t), c, c, se) == Hit(h[lo..p])
    decreases |h| - c, 1
  {
    if TerminatorAt(h, c - 2) {
      LoopHitsHere(h, index, t, c, se, lo);
      assert p == c - 2;
    } else {
      HitFurtherOn(h, index, t, c, se, lo, p);
    }
  }

  /** The step case of `MovingWindowHit`: no pair in this window, so the
      pair `p` lies further on and the next window is still moving. */
  lemma {:induction false} HitFurtherOn(h: string, index: nat, t: string, c: nat, se: nat, lo: nat, p: nat)
    requires MovingState(h, index, t, c, se, lo) && !TerminatorAt(h, c - 2)
    requires IsFirstTerminator(h, lo, |h| - |t| - 3, p)
    ensures TermLoop(h, index, |t|, EndTag(t), c, c, se) == Hit(h[lo..p])
    decreases |h| - c, 0
  {
    PairFurtherOn(h, index, t, c, se, lo, p);
    LoopStepsOn(h, index, t, c, se, lo);
    MovingWindowHit(h, index, t, c + 1, c, lo, p);
  }

  /** A window without a terminator pair lies before the first pair, so
      the window has not yet reached the freeze point. */
  lemma PairFurtherOn(h: string, index: nat, t: string, c: nat, se: nat, lo: nat, p: nat)
    requires MovingState(h, index, t, c, se, lo) && !TerminatorAt(h, c - 2)
    requires IsFirstTerminator(h, lo, |h| - |t| - 3, p)
    ensures c - 2 < p && c + 1 < |h| - |t|
  {
  }

  /** A window ending in a terminator pair stops the loop with the
      capture up to that pair. */
  lemma LoopHitsHere(h: string, index: nat, t: string, c: nat, se: nat, lo: nat)
    requires MovingState(h, index, t, c, se, lo) && TerminatorAt(h, c - 2)
    ensures c - 2 >= lo
    ensures TermLoop(h, index, |t|, EndTag(t), c, c, se) == Hit(h[lo..c - 2])
  {
    WindowPair(h, index, t, c, se, lo);
    assert h[index..se][|t|..se - index - 1] == h[lo..c - 2];
  }

  /** A window without a terminator pair moves on by one character and
      the loop stays in a moving state. */
  lemma LoopStepsOn(h: string, index: nat, t: string, c: nat, se: nat, lo: nat)
    requires MovingState(h, index, t, c, se, lo) && !TerminatorAt(h, c - 2)
    requires c + 1 < |h| - |t|
    ensures MovingState(h, index, t, c + 1, c, lo)
    ensures TermLoop(h, index, |t|, EndTag(t), c, c, se) == TermLoop(h, index, |t|, EndTag(t), c + 1, c + 1, c)
  {
    WindowPair(h, index, t, c, se, lo);
  }

  /** From a moving state with no terminator pair before the freeze
      point, the window freezes and the loop raises. */
  lemma {:induction false} MovingWindowOverrun(h: string, index: nat, t: string, c: nat, se: nat, lo: nat)
    requires MovingState(h, index, t, c, se, lo)
    requires forall q: nat :: lo <= q <= |h| - |t| - 3 ==> !TerminatorAt(h, q)
    ensures TermLoop(h, index, |t|, EndTag(t), c, c, se) == Overrun
    decreases |h| - c, 1
  {
    NoPairBeforeFreeze(h, index, t, c, se, lo);
    if c + 1 < |h| - |t| {
      OverrunFurtherOn(h, index, t, c, se, lo);
    } else {
      LoopFreezes(h, index, t, c, se, lo);
    }
  }

  /** The step case of `MovingWindowOverrun`: the window moves on. */
  lemma {:induction false} OverrunFurtherOn(h: string, index: nat, t: string, c: nat, se: nat, lo: nat)
    requires MovingState(h, index, t, c, se, lo) && !TerminatorAt(h, c - 2)
    requires c + 1 < |h| - |t|
    requires forall q: nat :: lo <= q <= |h| - |t| - 3 ==> !TerminatorAt(h, q)
    ensures TermLoop(h, index, |t|, EndTag(t), c, c, se) == Overrun
    decreases |h| - c, 0
  {
    LoopStepsOn(h, index, t, c, se, lo);
    MovingWindowOverrun(h, index, t, c + 1, c, lo);
  }

  /** Without a terminator pair before the freeze point, the current
      window holds none. */
  lemma NoPairBeforeFreeze(h: string, index: nat, t: string, c: nat, se: nat, lo: nat)
    requires MovingState(h, index, t, c, se, lo)
    requires forall q: nat :: lo <= q <= |h| - |t| - 3 ==> !TerminatorAt(h, q)
    ensures !TerminatorAt(h, c - 2)
  {
    WindowPair(h, index, t, c, se, lo);
  }

  /** A window without a terminator pair that reaches the freeze point
      stops moving, and the loop raises. */
  lemma LoopFreezes(h: string, index: nat, t: string, c: nat, se: nat, lo: nat)
    requires MovingState(h, index, t, c, se, lo) && !TerminatorAt(h, c - 2)
    requires c + 1 >= |h| - |t|
    ensures TermLoop(h, index, |t|, EndTag(t), c, c, se) == Overrun
  {
    WindowPair(h, index, t, c, se, lo);
    FrozenWindowRaises(h, index, |t|, EndTag(t), c + 1, c, c);
  }

  /** The extractor hands the first occurrence of the trigger to the
      terminator search. */
  lemma ParseXMLAtFirst(h: string, t: string, i: nat)
    requires |t| > 0 && IsFirstFrom(h, t, 0, i) && i + |t| < |h|
    ensures ParseXML(h, t) == TerminatorSearch(h, i, t)
  {
    assert ParseXML(h, t) == FindTrigger(h, t, 0);
  }

  /** When the trigger occurs below `|text| - |trigger|`, the result is
      the cleaned text between the end of its first occurrence and the
      first `</` or `/>` pair after it, whichever tag that pair belongs
      to, provided the pair ends before the last `|trigger| + 1`
      characters of the text. */
  lemma ExtractFound(h: string, t: string, i: nat, p: nat)
    requires WellFormedTrigger(t)
    requires IsFirstFrom(h, t, 0, i) && i + |t| < |h|
    requires IsFirstTerminator(h, i + |t|, |h| - |t| - 3, p)
    ensures ParseXML(h, t) == CleanCapture(h[i + |t|..p])
  {
    ParseXMLAtFirst(h, t, i);
    assert FirstPairBeforeFreeze(h, t, i, p);
  }

  /** A trigger that does not occur below `|text| - |trigger|` yields
      null; in particular one occurring only at the very end is missed. */
  lemma ExtractAbsent(h: string, t: string)
    requires |t| > 0
    requires forall i: nat :: i + |t| < |h| ==> !OccursAt(h, t, i)
    ensures ParseXML(h, t) == Ok(None)
  {
  }

  /** When no terminator pair ends before the last `|trigger| + 1`
      characters, the frozen window lets the capture index run off the
      end and the extractor raises instead of returning null. */
  lemma ExtractUnterminated(h: string, t: string, i: nat)
    requires WellFormedTrigger(t)
    requires IsFirstFrom(h, t, 0, i) && i + |t| < |h|
    requires forall q: nat :: i + |t| <= q <= |h| - |t| - 3 ==> !TerminatorAt(h, q)
    ensures ParseXML(h, t) == Err(IndexOutOfBounds)
  {
    ParseXMLAtFirst(h, t, i);
  }
}
