/**
 * The two date converters: stored dates are `YYYY-MM-DD`, displayed dates `DD/MM/YYYY`.
 * Both are anchored pattern tests and textual reorderings, without any range check.
 */
module DateUtils {
  import opened Wrappers
  import opened TextUtil

  /** `^\d{2}\/\d{2}\/\d{4}$` */
  predicate IsBrDate(s: string) {
    |s| == 10 && s[2] == '/' && s[5] == '/'
    && AllDigits(s[0..2]) && AllDigits(s[3..5]) && AllDigits(s[6..10])
  }

  /** `^\d{2}\/\d{2}$` */
  predicate IsDayMonth(s: string) {
    |s| == 5 && s[2] == '/' && AllDigits(s[0..2]) && AllDigits(s[3..5])
  }

  /** `^\d{4}-\d{2}-\d{2}$` */
  predicate IsIsoDate(s: string) {
    |s| == 10 && s[4] == '-' && s[7] == '-'
    && AllDigits(s[0..4]) && AllDigits(s[5..7]) && AllDigits(s[8..10])
  }

  /** `formatDateToBR`; `None` is `undefined`. */
  function FormatDateToBR(dateStr: Option<string>): (r: string)
    ensures r != ""
    ensures dateStr.Some? && dateStr.value != "" ==> |r| == |dateStr.value|
  {
    if dateStr.None? || dateStr.value == "" then "N/A"
    else
      var s := dateStr.value;
      if IsBrDate(s) then s
      else if IsDayMonth(s) then s
      else if IsIsoDate(s) then s[8..10] + "/" + s[5..7] + "/" + s[0..4]
      else s
  }

  /** `normalizeToISO`; `None` is `undefined`. */
  function NormalizeToISO(dateStr: Option<string>): (r: string)
    ensures |r| == if dateStr.Some? then |dateStr.value| else 0
  {
    if dateStr.None? || dateStr.value == "" then ""
    else
      var s := dateStr.value;
      if IsBrDate(s) then s[6..10] + "-" + s[3..5] + "-" + s[0..2]
      else if IsIsoDate(s) then s
      else s
  }

  /** No stored value: the display shows N/A and storage gets the empty text. */
  lemma MissingDate(dateStr: Option<string>)
    requires dateStr.None? || dateStr.value == ""
    ensures FormatDateToBR(dateStr) == "N/A"
    ensures NormalizeToISO(dateStr) == ""
  {
  }

  /** A display date, full or day-and-month only, is already in display form. */
  lemma FormatKeepsBrDates(s: string)
    requires IsBrDate(s) || IsDayMonth(s)
    ensures FormatDateToBR(Some(s)) == s
  {
  }

  /**
   * A stored date becomes a display date whose day, month and year are the stored day,
   * month and year: only the fields move.
   */
  lemma FormatReordersIsoDate(s: string)
    requires IsIsoDate(s)
    ensures var r := FormatDateToBR(Some(s));
            IsBrDate(r) && r[0..2] == s[8..10] && r[3..5] == s[5..7] && r[6..10] == s[0..4]
  {
    var r := FormatDateToBR(Some(s));
    assert r == s[8..10] + "/" + s[5..7] + "/" + s[0..4];
    assert r[0..2] == s[8..10] && r[3..5] == s[5..7] && r[6..10] == s[0..4];
  }

  /** A display date becomes a stored date with the same day, month and year. */
  lemma NormalizeReordersBrDate(s: string)
    requires IsBrDate(s)
    ensures var r := NormalizeToISO(Some(s));
            IsIsoDate(r) && r[8..10] == s[0..2] && r[5..7] == s[3..5] && r[0..4] == s[6..10]
  {
    var r := NormalizeToISO(Some(s));
    assert r == s[6..10] + "-" + s[3..5] + "-" + s[0..2];
    assert r[8..10] == s[0..2] && r[5..7] == s[3..5] && r[0..4] == s[6..10];
  }

  /** Any other non-empty text passes through both converters unchanged. */
  lemma OtherTextUnchanged(s: string)
    requires s != "" && !IsBrDate(s) && !IsIsoDate(s)
    ensures NormalizeToISO(Some(s)) == s
    ensures !IsDayMonth(s) ==> FormatDateToBR(Some(s)) == s
  {
  }

  /** Storing what is displayed gives back the stored date. */
  lemma IsoRoundTrip(s: string)
    requires IsIsoDate(s)
    ensures NormalizeToISO(Some(FormatDateToBR(Some(s)))) == s
  {
    FormatReordersIsoDate(s);
    var r := FormatDateToBR(Some(s));
    NormalizeReordersBrDate(r);
    var back := NormalizeToISO(Some(r));
    assert back == back[0..4] + back[4..5] + back[5..7] + back[7..8] + back[8..10];
    assert s == s[0..4] + s[4..5] + s[5..7] + s[7..8] + s[8..10];
  }

  /** Displaying what is stored gives back the display date. */
  lemma BrRoundTrip(s: string)
    requires IsBrDate(s)
    ensures FormatDateToBR(Some(NormalizeToISO(Some(s)))) == s
  {
    NormalizeReordersBrDate(s);
    var r := NormalizeToISO(Some(s));
    FormatReordersIsoDate(r);
    var back := FormatDateToBR(Some(r));
    assert back == back[0..2] + back[2..3] + back[3..5] + back[5..6] + back[6..10];
    assert s == s[0..2] + s[2..3] + s[3..5] + s[5..6] + s[6..10];
  }

  lemma FormatIdempotent(dateStr: Option<string>)
    ensures FormatDateToBR(Some(FormatDateToBR(dateStr))) == FormatDateToBR(dateStr)
  {
    if dateStr.Some? && dateStr.value != "" && !IsBrDate(dateStr.value)
       && !IsDayMonth(dateStr.value) && IsIsoDate(dateStr.value) {
      FormatReordersIsoDate(dateStr.value);
    }
  }

  lemma NormalizeIdempotent(dateStr: Option<string>)
    ensures NormalizeToISO(Some(NormalizeToISO(dateStr))) == NormalizeToISO(dateStr)
  {
    if dateStr.Some? && IsBrDate(dateStr.value) {
      NormalizeReordersBrDate(dateStr.value);
      var r := NormalizeToISO(dateStr);
      assert r[2] != '/';
    }
  }
}
