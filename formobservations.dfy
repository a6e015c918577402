/**
 * The observations effect of the record form (components/NewRecordForm.tsx:100-123): the
 * free-text observations get an `AGUARDANDO PEÇA` tag while awaiting parts, then a
 * `TOTAL DE HORAS: <hours>H` tag is rewritten in place or, on completion, appended, and the
 * result is upper-cased.
 */
module FormObservations {
  import opened Wrappers
  import opened TextUtil
  import opened Types

  const AWAITING_TAG: string := AWAITING_PARTS
  /** What `includes('TOTAL DE HORAS:')` looks for. */
  const MARKER: string := "TOTAL DE HORAS:"
  /** The literal part of `/TOTAL DE HORAS: [\d.]+H/` before the number. */
  const PREFIX: string := "TOTAL DE HORAS: "
  const SEPARATOR: string := " | "

  /** A text the `[\d.]+` of the pattern matches whole. */
  predicate IsHoursText(h: string) {
    |h| >= 1 && forall i :: 0 <= i < |h| ==> IsDecimalChar(h[i])
  }

  /** `TOTAL DE HORAS: ${totalHours}H`. */
  function TotalTag(hours: string): string {
    PREFIX + hours + "H"
  }

  /** `obs ? `${obs} | ${tag}` : tag`. */
  function Append(obs: string, tag: string): string {
    if obs == "" then tag else obs + SEPARATOR + tag
  }

  /** Step 1: while awaiting parts, the awaiting tag is added unless the text has it. */
  function TagAwaiting(obs: string, status: string): string {
    if status == AWAITING_PARTS && !Contains(obs, AWAITING_TAG) then Append(obs, AWAITING_TAG) else obs
  }

  // ---------------------------------------------------------------------------
  // The first match of `/TOTAL DE HORAS: [\d.]+H/`.

  /** The length of the run of `[\d.]` characters starting at `i`. */
  function RunLength(s: string, i: nat): (n: nat)
    requires i <= |s|
    ensures i + n <= |s|
    ensures forall k :: i <= k < i + n ==> IsDecimalChar(s[k])
    ensures i + n == |s| || !IsDecimalChar(s[i + n])
    decreases |s| - i
  {
    if i < |s| && IsDecimalChar(s[i]) then 1 + RunLength(s, i + 1) else 0
  }

  /**
   * The pattern matches at `i`. `H` is not in `[\d.]`, so a match takes the whole run of
   * digits and points after the prefix, and needs an `H` right after it.
   */
  predicate MatchAt(s: string, i: int) {
    HasAt(s, i, PREFIX)
    && var n := RunLength(s, i + |PREFIX|);
       n >= 1 && i + |PREFIX| + n < |s| && s[i + |PREFIX| + n] == 'H'
  }

  /** Where the match at `i` ends. */
  function MatchEnd(s: string, i: int): int
    requires MatchAt(s, i)
  {
    i + |PREFIX| + RunLength(s, i + |PREFIX|) + 1
  }

  /** The leftmost match at or after `from`. */
  function FirstMatch(s: string, from: nat): (r: Option<nat>)
    ensures r.Some? ==> from <= r.value && MatchAt(s, r.value)
                        && forall j :: from <= j < r.value ==> !MatchAt(s, j)
    ensures r.None? ==> forall j :: from <= j ==> !MatchAt(s, j)
    decreases |s| - from
  {
    if from >= |s| then None
    else if MatchAt(s, from) then Some(from)
    else FirstMatch(s, from + 1)
  }

  /** `s.replace(/TOTAL DE HORAS: [\d.]+H/, rep)`: the first match only. */
  function ReplaceFirst(s: string, rep: string): string {
    match FirstMatch(s, 0)
    case None => s
    case Some(i) => s[..i] + rep + s[MatchEnd(s, i)..]
  }

  /** Step 2: rewrite the first hours tag if the marker is present, or append one on completion. */
  function UpsertTotal(obs: string, status: string, hours: string): string {
    if Contains(obs, MARKER) then ReplaceFirst(obs, TotalTag(hours))
    else if status == COMPLETED then Append(obs, TotalTag(hours))
    else obs
  }

  /** The text the effect stores: `newObs.toUpperCase()`. */
  function UpdatedObservations(obs: string, status: string, hours: string): (r: string)
    ensures IsUpper(r)
  {
    var tagged := UpsertTotal(TagAwaiting(obs, status), status, hours);
    UpperIsUpper(tagged);
    Upper(tagged)
  }

  // ---------------------------------------------------------------------------
  // Step 1.

  /** While awaiting parts the text ends up with the tag, and the old text is kept in front. */
  lemma TagAwaitingAdds(obs: string, status: string)
    ensures status == AWAITING_PARTS ==> Contains(TagAwaiting(obs, status), AWAITING_TAG)
    ensures status != AWAITING_PARTS || Contains(obs, AWAITING_TAG) ==> TagAwaiting(obs, status) == obs
    ensures obs <= TagAwaiting(obs, status)
  {
    var r := TagAwaiting(obs, status);
    if r != obs {
      assert HasAt(r, |r| - |AWAITING_TAG|, AWAITING_TAG);
    }
  }

  // ---------------------------------------------------------------------------
  // Characters of the constant texts.

  lemma HasAtChar(s: string, i: int, t: string, k: int)
    requires HasAt(s, i, t) && 0 <= k < |t|
    ensures s[i + k] == t[k]
  {
    assert s[i..i + |t|][k] == s[i + k];
  }

  /** A run of exactly `n` `[\d.]` characters at `k`. */
  lemma {:induction false} RunLengthOf(s: string, k: nat, n: nat)
    requires k + n <= |s| && forall j :: k <= j < k + n ==> IsDecimalChar(s[j])
    requires k + n == |s| || !IsDecimalChar(s[k + n])
    ensures RunLength(s, k) == n
    decreases n
  {
    if n > 0 {
      RunLengthOf(s, k + 1, n - 1);
    }
  }

  /** A freshly written tag is a match that covers exactly the tag. */
  lemma TagMatch(x: string, h: string, y: string)
    requires IsHoursText(h)
    ensures var b := x + TotalTag(h) + y;
            MatchAt(b, |x|) && MatchEnd(b, |x|) == |x| + |TotalTag(h)|
  {
    var b := x + TotalTag(h) + y;
    var k := |x| + |PREFIX|;
    assert b[|x|..k] == PREFIX;
    forall j | k <= j < k + |h| ensures IsDecimalChar(b[j]) {
      assert b[j] == h[j - k];
    }
    assert b[k + |h|] == 'H';
    RunLengthOf(b, k, |h|);
  }

  /** Texts that agree up to `m` have the same matches ending by `m`. */
  lemma MatchPrefix(s: string, t: string, j: int, m: int)
    requires MatchAt(s, j) && MatchEnd(s, j) <= m <= |s| && m <= |t| && s[..m] == t[..m]
    ensures MatchAt(t, j) && MatchEnd(t, j) == MatchEnd(s, j)
  {
    var k := j + |PREFIX|;
    var n := RunLength(s, k);
    forall i | 0 <= i < m ensures s[i] == t[i] {
      assert s[..m][i] == s[i] && t[..m][i] == t[i];
    }
    assert t[j..k] == s[j..k];
    RunLengthOf(t, k, n);
  }

  /** A match that starts before a prefix occurrence ends before it: the `T` at its start fits nowhere inside. */
  lemma NoStraddle(b: string, i: int, j: int)
    requires HasAt(b, i, PREFIX) && MatchAt(b, j) && j < i
    ensures MatchEnd(b, j) <= i
  {
    if i < MatchEnd(b, j) {
      var o := i - j;
      HasAtChar(b, i, PREFIX, 0);
      HasAtChar(b, i, PREFIX, 1);
      if o < |PREFIX| {
        HasAtChar(b, j, PREFIX, o);
        HasAtChar(b, j, PREFIX, o + 1);
        assert false;
      } else {
        assert false;
      }
    }
  }

  /** After the replacement the first match is the new tag, at the same place. */
  lemma ReplacedFirst(a: string, h: string, i: nat)
    requires IsHoursText(h) && FirstMatch(a, 0) == Some(i)
    ensures var b := ReplaceFirst(a, TotalTag(h));
            FirstMatch(b, 0) == Some(i) && MatchEnd(b, i) == i + |TotalTag(h)|
            && b == a[..i] + TotalTag(h) + a[MatchEnd(a, i)..]
  {
    var b := ReplaceFirst(a, TotalTag(h));
    TagMatch(a[..i], h, a[MatchEnd(a, i)..]);
    assert b == a[..i] + TotalTag(h) + a[MatchEnd(a, i)..];
    assert HasAt(b, i, PREFIX);
    forall j | 0 <= j < i ensures !MatchAt(b, j) {
      if MatchAt(b, j) {
        NoStraddle(b, i, j);
        assert b[..i] == a[..i];
        MatchPrefix(b, a, j, i);
        assert false;
      }
    }
  }

  /** Rewriting the first tag with the same hours a second time changes nothing. */
  lemma ReplaceIdempotent(a: string, h: string)
    requires IsHoursText(h)
    ensures ReplaceFirst(ReplaceFirst(a, TotalTag(h)), TotalTag(h)) == ReplaceFirst(a, TotalTag(h))
  {
    var t := TotalTag(h);
    match FirstMatch(a, 0)
    case None =>
    case Some(i) =>
      ReplacedFirst(a, h, i);
      var b := ReplaceFirst(a, t);
      assert b[..i] == a[..i] && b[i + |t|..] == a[MatchEnd(a, i)..];
      assert b[..i] + t + b[i + |t|..] == b;
  }

  /** Before an appended tag, the prefix can only start inside a text that has no marker. */
  lemma NoPrefixBeforeAppended(a: string, t: string, j: int)
    requires a != "" && !Contains(a, MARKER) && 0 <= j < |a| + |SEPARATOR|
    ensures !HasAt(a + SEPARATOR + t, j, PREFIX)
  {
    var b := a + SEPARATOR + t;
    if HasAt(b, j, PREFIX) {
      if j + |MARKER| <= |a| {
        assert b[j..j + |MARKER|] == b[j..j + |PREFIX|][..|MARKER|];
        assert a[j..j + |MARKER|] == b[j..j + |MARKER|];
        assert HasAt(a, j, MARKER);
        assert false;
      } else if j <= |a| + 1 {
        assert b[|a| + 1] == '|';
        HasAtChar(b, j, PREFIX, |a| + 1 - j);
        assert false;
      } else {
        assert b[|a| + 2] == ' ';
        HasAtChar(b, j, PREFIX, 0);
        assert false;
      }
    }
  }

  /** An appended tag is the first match when the text had no marker before. */
  lemma AppendedFirst(a: string, h: string)
    requires IsHoursText(h) && !Contains(a, MARKER)
    ensures var b := Append(a, TotalTag(h));
            FirstMatch(b, 0) == Some(|b| - |TotalTag(h)|) && MatchEnd(b, |b| - |TotalTag(h)|) == |b|
  {
    var t := TotalTag(h);
    var b := Append(a, t);
    if a == "" {
      TagMatch("", h, "");
      assert "" + t + "" == b;
    } else {
      var x := a + SEPARATOR;
      TagMatch(x, h, "");
      assert x + t + "" == b;
      forall j | 0 <= j < |x| ensures !MatchAt(b, j) {
        NoPrefixBeforeAppended(a, t, j);
      }
    }
  }

  /** The awaiting tag has no `T`, so it cannot cover the start of a prefix occurrence. */
  lemma AwaitingTagBeforePrefix(a: string, i: int, p: int)
    requires HasAt(a, i, PREFIX) && HasAt(a, p, AWAITING_TAG) && p <= i
    ensures p + |AWAITING_TAG| <= i
  {
    if i < p + |AWAITING_TAG| {
      HasAtChar(a, p, AWAITING_TAG, i - p);
      HasAtChar(a, i, PREFIX, 0);
      assert false;
    }
  }

  /** An awaiting tag cannot start inside a match: its `AG` occurs nowhere in one. */
  lemma AwaitingTagNotInside(a: string, i: int, p: int)
    requires MatchAt(a, i) && HasAt(a, p, AWAITING_TAG) && i < p
    ensures MatchEnd(a, i) <= p
  {
    if p < MatchEnd(a, i) {
      HasAtChar(a, p, AWAITING_TAG, 0);
      HasAtChar(a, p, AWAITING_TAG, 1);
      var o := p - i;
      if o < |PREFIX| {
        HasAtChar(a, i, PREFIX, o);
        HasAtChar(a, i, PREFIX, o + 1);
        assert false;
      } else {
        assert false;
      }
    }
  }

  /** An occurrence outside the replaced part `[i, e)` survives the splice. */
  lemma SpliceKeeps(a: string, i: int, e: int, t: string, p: int, w: string)
    requires 0 <= i <= e <= |a| && HasAt(a, p, w) && (p + |w| <= i || e <= p)
    ensures Contains(a[..i] + t + a[e..], w)
  {
    var b := a[..i] + t + a[e..];
    if p + |w| <= i {
      assert b[p..p + |w|] == a[p..p + |w|];
      assert HasAt(b, p, w);
    } else {
      var q := p - e + i + |t|;
      assert b[q..q + |w|] == a[p..p + |w|];
      assert HasAt(b, q, w);
    }
  }

  /** `ReplaceFirst` splices the replacement in place of the first match. */
  lemma ReplaceAt(a: string, t: string, i: nat)
    requires FirstMatch(a, 0) == Some(i)
    ensures MatchAt(a, i) && ReplaceFirst(a, t) == a[..i] + t + a[MatchEnd(a, i)..]
  {
  }

  /** The awaiting tag never overlaps an hours match, so rewriting the match keeps it. */
  lemma AwaitingTagSurvives(a: string, h: string)
    requires Contains(a, AWAITING_TAG)
    ensures Contains(ReplaceFirst(a, TotalTag(h)), AWAITING_TAG)
  {
    var r := FirstMatch(a, 0);
    if r.Some? {
      var i := r.value;
      ReplaceAt(a, TotalTag(h), i);
      var p :| 0 <= p <= |a| - |AWAITING_TAG| && HasAt(a, p, AWAITING_TAG);
      if p <= i {
        AwaitingTagBeforePrefix(a, i, p);
      } else {
        AwaitingTagNotInside(a, i, p);
      }
      SpliceKeeps(a, i, MatchEnd(a, i), TotalTag(h), p, AWAITING_TAG);
    }
  }

  // ---------------------------------------------------------------------------
  // Step 2 and the whole effect.

  lemma MiddleSlice(x: string, t: string, y: string)
    ensures (x + t + y)[|x|..|x| + |t|] == t
  {
  }

  /** The first match of `b` spells `t`. */
  predicate FirstTagIs(b: string, t: string) {
    FirstMatch(b, 0).Some? && var i := FirstMatch(b, 0).value; b[i..MatchEnd(b, i)] == t
  }

  lemma RewriteWritesHours(a: string, h: string)
    requires IsHoursText(h) && FirstMatch(a, 0).Some?
    ensures FirstTagIs(ReplaceFirst(a, TotalTag(h)), TotalTag(h))
  {
    var i := FirstMatch(a, 0).value;
    ReplacedFirst(a, h, i);
    MiddleSlice(a[..i], TotalTag(h), a[MatchEnd(a, i)..]);
  }

  lemma AppendWritesHours(a: string, h: string)
    requires IsHoursText(h) && !Contains(a, MARKER)
    ensures FirstTagIs(Append(a, TotalTag(h)), TotalTag(h))
  {
    AppendedFirst(a, h);
    if a == "" {
      MiddleSlice("", TotalTag(h), "");
    } else {
      MiddleSlice(a + SEPARATOR, TotalTag(h), "");
    }
  }

  /**
   * When step 2 rewrites a match or appends a tag, the first hours tag of the result carries
   * the current hours.
   */
  lemma UpsertWritesHours(a: string, status: string, h: string)
    requires IsHoursText(h)
    requires if Contains(a, MARKER) then FirstMatch(a, 0).Some? else status == COMPLETED
    ensures FirstTagIs(UpsertTotal(a, status, h), TotalTag(h))
  {
    if Contains(a, MARKER) {
      RewriteWritesHours(a, h);
    } else {
      AppendWritesHours(a, h);
    }
  }

  /** With the marker present but no full match, step 2 leaves the text as it is. */
  lemma UpsertWithoutMatch(a: string, status: string, h: string)
    requires Contains(a, MARKER) && FirstMatch(a, 0).None?
    ensures UpsertTotal(a, status, h) == a
  {
  }

  lemma PrefixHasMarker(b: string, i: int)
    requires HasAt(b, i, PREFIX)
    ensures Contains(b, MARKER)
  {
    assert b[i..i + |MARKER|] == b[i..i + |PREFIX|][..|MARKER|];
    assert HasAt(b, i, MARKER);
  }

  /** Step 2 a second time with the same status and hours changes nothing. */
  lemma UpsertIdempotent(a: string, status: string, h: string)
    requires IsHoursText(h)
    ensures UpsertTotal(UpsertTotal(a, status, h), status, h) == UpsertTotal(a, status, h)
  {
    var t := TotalTag(h);
    var b := UpsertTotal(a, status, h);
    if Contains(a, MARKER) {
      match FirstMatch(a, 0)
      case None =>
      case Some(i) =>
        ReplacedFirst(a, h, i);
        TagMatch(a[..i], h, a[MatchEnd(a, i)..]);
        PrefixHasMarker(b, i);
      ReplaceIdempotent(a, h);
    } else if status == COMPLETED {
      AppendedFirst(a, h);
      var i := |b| - |t|;
      PrefixHasMarker(b, i);
      assert b[..i] + t + b[i + |t|..] == b;
    }
  }

  lemma ContainsExtends(a: string, b: string, t: string)
    requires Contains(a, t) && a <= b
    ensures Contains(b, t)
  {
    var p :| 0 <= p <= |a| - |t| && HasAt(a, p, t);
    assert b[p..p + |t|] == a[p..p + |t|];
    assert HasAt(b, p, t);
  }

  /** Step 2 keeps the awaiting tag, so step 1 of a second pass adds nothing. */
  lemma UpsertKeepsAwaitingTag(a: string, status: string, h: string)
    requires Contains(a, AWAITING_TAG)
    ensures Contains(UpsertTotal(a, status, h), AWAITING_TAG)
  {
    if Contains(a, MARKER) {
      AwaitingTagSurvives(a, h);
    } else if status == COMPLETED {
      ContainsExtends(a, Append(a, TotalTag(h)), AWAITING_TAG);
    }
  }

  lemma UpperCat(a: string, b: string)
    requires IsUpper(a) && IsUpper(b)
    ensures IsUpper(a + b)
  {
    assert forall k :: 0 <= k < |a + b| ==> (a + b)[k] == if k < |a| then a[k] else b[k - |a|];
  }

  lemma UpperSlice(a: string, i: int, j: int)
    requires IsUpper(a) && 0 <= i <= j <= |a|
    ensures IsUpper(a[i..j])
  {
    assert forall k :: 0 <= k < j - i ==> a[i..j][k] == a[i + k];
  }

  lemma TagsUpper(h: string)
    requires IsHoursText(h)
    ensures IsUpper(AWAITING_TAG) && IsUpper(SEPARATOR) && IsUpper(TotalTag(h))
  {
    assert IsUpper(PREFIX) && IsUpper("H");
    UpperCat(PREFIX, h);
    UpperCat(PREFIX + h, "H");
  }

  lemma AppendUpper(a: string, t: string)
    requires IsUpper(a) && IsUpper(t)
    ensures IsUpper(Append(a, t))
  {
    assert IsUpper(SEPARATOR);
    UpperCat(a, SEPARATOR);
    UpperCat(a + SEPARATOR, t);
  }

  lemma ReplaceUpper(a: string, t: string)
    requires IsUpper(a) && IsUpper(t)
    ensures IsUpper(ReplaceFirst(a, t))
  {
    var r := FirstMatch(a, 0);
    if r.Some? {
      var i := r.value;
      ReplaceAt(a, t, i);
      UpperSlice(a, 0, i);
      UpperSlice(a, MatchEnd(a, i), |a|);
      UpperCat(a[..i], t);
      UpperCat(a[..i] + t, a[MatchEnd(a, i)..]);
    }
  }

  /** Upper-case pieces give an upper-case text after both steps. */
  lemma StepsKeepUpper(o: string, status: string, h: string)
    requires IsUpper(o) && IsHoursText(h)
    ensures IsUpper(UpsertTotal(TagAwaiting(o, status), status, h))
  {
    TagsUpper(h);
    AppendUpper(o, AWAITING_TAG);
    var a := TagAwaiting(o, status);
    AppendUpper(a, TotalTag(h));
    ReplaceUpper(a, TotalTag(h));
  }

  /**
   * A second pass with the same status and hours leaves an upper-case text as the first pass
   * left it.
   */
  lemma ObservationsIdempotent(o: string, status: string, h: string)
    requires IsUpper(o) && IsHoursText(h)
    ensures UpdatedObservations(UpdatedObservations(o, status, h), status, h) == UpdatedObservations(o, status, h)
  {
    var a := TagAwaiting(o, status);
    var b := UpsertTotal(a, status, h);
    StepsKeepUpper(o, status, h);
    UpperFixed(b);
    TagAwaitingAdds(o, status);
    if status == AWAITING_PARTS {
      UpsertKeepsAwaitingTag(a, status, h);
    }
    TagAwaitingAdds(b, status);
    assert TagAwaiting(b, status) == b;
    UpsertIdempotent(a, status, h);
  }

  /** From the second pass on, whatever the text was, further passes change nothing. */
  lemma ObservationsSettle(o: string, status: string, h: string)
    requires IsHoursText(h)
    ensures var o1 := UpdatedObservations(o, status, h);
            UpdatedObservations(UpdatedObservations(o1, status, h), status, h) == UpdatedObservations(o1, status, h)
  {
    UpperIsUpper(UpsertTotal(TagAwaiting(o, status), status, h));
    ObservationsIdempotent(UpdatedObservations(o, status, h), status, h);
  }

  /** The stored text is always upper case. */
  lemma ObservationsUpper(o: string, status: string, h: string)
    ensures IsUpper(UpdatedObservations(o, status, h))
  {
    UpperIsUpper(UpsertTotal(TagAwaiting(o, status), status, h));
  }

  /** While awaiting parts the stored text carries the awaiting tag, whatever it was before. */
  lemma AwaitingTagStored(o: string, status: string, h: string)
    requires status == AWAITING_PARTS
    ensures Contains(UpdatedObservations(o, status, h), AWAITING_TAG)
  {
    TagAwaitingAdds(o, status);
    UpsertKeepsAwaitingTag(TagAwaiting(o, status), status, h);
    TagsUpper("0");
    UpperKeepsOccurrence(UpsertTotal(TagAwaiting(o, status), status, h), AWAITING_TAG);
  }

  // ---------------------------------------------------------------------------
  // A tag typed by hand with a lower-case `h`.

  /** Upper-casing `TOTAL DE HORAS: 5h` turns it into the tag for 5 hours. */
  lemma UpperLowerTag()
    ensures Upper(PREFIX + "5" + "h") == TotalTag("5")
  {
    UpperConcat(PREFIX + "5", "h");
    TagsUpper("5");
    UpperCat(PREFIX, "5");
    UpperFixed(PREFIX + "5");
    UpperAt("h");
  }

  /**
   * `TOTAL DE HORAS: 5h` has the marker but no match: the run after the prefix ends in a
   * lower-case `h`.
   */
  lemma LowerTagNoMatch()
    ensures Contains(PREFIX + "5" + "h", MARKER) && FirstMatch(PREFIX + "5" + "h", 0).None?
  {
    var o := PREFIX + "5" + "h";
    assert HasAt(o, 0, PREFIX);
    PrefixHasMarker(o, 0);
    RunLengthOf(o, 16, 1);
    assert !MatchAt(o, 0);
    assert o[1] == 'O' && o[3] == 'A';
    forall j | 1 <= j ensures !HasAt(o, j, PREFIX) {
      if HasAt(o, j, PREFIX) {
        HasAtChar(o, j, PREFIX, 0);
        HasAtChar(o, j, PREFIX, 1);
        assert false;
      }
    }
    assert forall j :: 0 <= j ==> !MatchAt(o, j);
  }

  /** The first pass over a hand-typed `TOTAL DE HORAS: 5h` only upper-cases it. */
  lemma LowerTagFirstPass()
    ensures UpdatedObservations(PREFIX + "5" + "h", "PENDENTE", "2.00") == TotalTag("5")
  {
    LowerTagNoMatch();
    UpsertWithoutMatch(PREFIX + "5" + "h", "PENDENTE", "2.00");
    UpperLowerTag();
  }

  /** The second pass then finds the upper-cased tag and rewrites it. */
  lemma UpperTagSecondPass()
    ensures UpdatedObservations(TotalTag("5"), "PENDENTE", "2.00") == TotalTag("2.00")
  {
    assert IsHoursText("5") && IsHoursText("2.00");
    TagMatch("", "5", "");
    assert "" + TotalTag("5") + "" == TotalTag("5");
    PrefixHasMarker(TotalTag("5"), 0);
    ReplaceAt(TotalTag("5"), TotalTag("2.00"), 0);
    assert TotalTag("5")[..0] + TotalTag("2.00") + TotalTag("5")[18..] == TotalTag("2.00");
    TagsUpper("2.00");
    UpperFixed(TotalTag("2.00"));
  }

  /**
   * The effect is not idempotent on every text: a hand-typed `TOTAL DE HORAS: 5h` is
   * upper-cased by the first pass and only then matched and rewritten by the second.
   */
  lemma LowerCaseTagChangesTwice()
    ensures UpdatedObservations(PREFIX + "5" + "h", "PENDENTE", "2.00") == TotalTag("5")
    ensures UpdatedObservations(TotalTag("5"), "PENDENTE", "2.00") != TotalTag("5")
  {
    LowerTagFirstPass();
    UpperTagSecondPass();
    assert TotalTag("2.00")[16] != TotalTag("5")[16] || |TotalTag("2.00")| != |TotalTag("5")|;
  }
}
