/**
 * The field extractor shared by the plotting and logging scripts:
 * `re.search(r'Umidade:\s*([\d.]+).*Temperatura:\s*([\d.]+)', text)`,
 * optionally with `re.IGNORECASE`, followed by `float()` on both groups.
 *
 * The search is modelled as what the backtracking matcher computes:
 * the leftmost start at which the whole pattern can match; there the
 * humidity group is the maximal run of digits and dots after the tag and
 * its whitespace, and, because `.*` is greedy and backtracks from the end,
 * the temperature group follows the LAST `Temperatura:` that still yields a
 * token and lies on the same line (`.` does not match a line break).
 * `\d` is restricted to ASCII digits, `\s` is Python's whitespace class and
 * case folding is restricted to ASCII letters.
 */
module SensorPattern {

  import opened Wrappers
  import opened Text

  const HumidityLabel: string := "Umidade:"
  const TemperatureLabel: string := "Temperatura:"

  /** The character class `[\d.]`. */
  predicate IsTokenChar(c: char) {
    IsDigit(c) || c == '.'
  }

  /** Matching of one pattern character `l` against a text character `c`. */
  predicate SameChar(c: char, l: char, ignoreCase: bool) {
    if ignoreCase then LowerAscii(c) == LowerAscii(l) else c == l
  }

  /** The literal `tag` matches `s` at index `i`. */
  predicate LabelAt(s: string, i: nat, tag: string, ignoreCase: bool) {
    i + |tag| <= |s| && forall k :: 0 <= k < |tag| ==> SameChar(s[i + k], tag[k], ignoreCase)
  }

  /** `\s*` taken greedily from `i`: the index after the whitespace run. */
  function SkipSpace(s: string, i: nat): (j: nat)
    requires i <= |s|
    ensures i <= j <= |s|
    decreases |s| - i
  {
    if i < |s| && IsSpace(s[i]) then SkipSpace(s, i + 1) else i
  }

  lemma {:induction false} SkipSpaceStops(s: string, i: nat)
    requires i <= |s|
    ensures forall k :: i <= k < SkipSpace(s, i) ==> IsSpace(s[k])
    ensures SkipSpace(s, i) == |s| || !IsSpace(s[SkipSpace(s, i)])
    decreases |s| - i
  {
    if i < |s| && IsSpace(s[i]) {
      SkipSpaceStops(s, i + 1);
    }
  }

  /** `[\d.]*` taken greedily from `i`: the index after the run of digits and dots. */
  function TokenEnd(s: string, i: nat): (j: nat)
    requires i <= |s|
    ensures i <= j <= |s|
    decreases |s| - i
  {
    if i < |s| && IsTokenChar(s[i]) then TokenEnd(s, i + 1) else i
  }

  lemma {:induction false} TokenEndStops(s: string, i: nat)
    requires i <= |s|
    ensures forall k :: i <= k < TokenEnd(s, i) ==> IsTokenChar(s[k])
    ensures TokenEnd(s, i) == |s| || !IsTokenChar(s[TokenEnd(s, i)])
    decreases |s| - i
  {
    if i < |s| && IsTokenChar(s[i]) {
      TokenEndStops(s, i + 1);
    }
  }

  /** `.*` from `i`: the index of the first line break at or after `i`, or |s|. */
  function LineEnd(s: string, i: nat): (j: nat)
    requires i <= |s|
    ensures i <= j <= |s|
    ensures forall k :: i <= k < j ==> s[k] != '\n'
    ensures j == |s| || s[j] == '\n'
    decreases |s| - i
  {
    if i < |s| && s[i] != '\n' then LineEnd(s, i + 1) else i
  }

  /**
   * Some way of matching `tag\s*([\d.]+)` at `i` puts the group at
   * `s[a..e]` (not necessarily the greedy one).
   */
  ghost predicate FieldMatch(s: string, i: nat, tag: string, ignoreCase: bool, a: nat, e: nat) {
    && LabelAt(s, i, tag, ignoreCase)
    && i + |tag| <= a < e <= |s|
    && (forall k :: i + |tag| <= k < a ==> IsSpace(s[k]))
    && (forall k :: a <= k < e ==> IsTokenChar(s[k]))
  }

  /**
   * The greedy match of `tag\s*([\d.]+)` at `i`, as the bounds `(a, e)` of
   * the group (`FieldAtIsGreedy` relates it to every other way of matching).
   */
  function FieldAt(s: string, i: nat, tag: string, ignoreCase: bool): (r: Option<(nat, nat)>)
    ensures r.Some? ==> LabelAt(s, i, tag, ignoreCase) && i + |tag| <= r.value.0 < r.value.1 <= |s|
  {
    if !LabelAt(s, i, tag, ignoreCase) then None
    else
      var a := SkipSpace(s, i + |tag|);
      var e := TokenEnd(s, a);
      if a < e then Some((a, e)) else None
  }

  /**
   * `FieldAt` is None exactly when no way of matching exists; otherwise its
   * group is one of them, starts where every one of them starts, and is the
   * longest, ending before a character outside `[\d.]`.
   */
  lemma FieldAtIsGreedy(s: string, i: nat, tag: string, ignoreCase: bool)
    ensures FieldAt(s, i, tag, ignoreCase).None? ==> forall a: nat, e: nat :: !FieldMatch(s, i, tag, ignoreCase, a, e)
    ensures FieldAt(s, i, tag, ignoreCase).Some? ==>
              var (a0, e0) := FieldAt(s, i, tag, ignoreCase).value;
              && FieldMatch(s, i, tag, ignoreCase, a0, e0)
              && (e0 == |s| || !IsTokenChar(s[e0]))
              && forall a: nat, e: nat :: FieldMatch(s, i, tag, ignoreCase, a, e) ==> a == a0 && e <= e0
  {
    if LabelAt(s, i, tag, ignoreCase) {
      GreedyField(s, i, tag, ignoreCase);
      var a0 := SkipSpace(s, i + |tag|);
      SkipSpaceStops(s, i + |tag|);
      TokenEndStops(s, a0);
    }
  }

  /** Every way of matching a field starts its group where `\s*` stops and ends no later than `[\d.]+` does. */
  lemma GreedyField(s: string, i: nat, tag: string, ignoreCase: bool)
    requires LabelAt(s, i, tag, ignoreCase)
    ensures forall a: nat, e: nat :: FieldMatch(s, i, tag, ignoreCase, a, e) ==>
              a == SkipSpace(s, i + |tag|) && e <= TokenEnd(s, a) && a < TokenEnd(s, a)
  {
    var a0 := SkipSpace(s, i + |tag|);
    SkipSpaceStops(s, i + |tag|);
    TokenEndStops(s, a0);
    forall a: nat, e: nat | FieldMatch(s, i, tag, ignoreCase, a, e)
      ensures a == SkipSpace(s, i + |tag|) && e <= TokenEnd(s, a) && a < TokenEnd(s, a)
    {
      assert IsTokenChar(s[a]);
    }
  }

  /** The greatest `p` in [lo, hi) at which `tag\s*[\d.]+` matches, if any. */
  function LastFieldIn(s: string, lo: nat, hi: nat, tag: string, ignoreCase: bool): (r: Option<nat>)
    ensures r.None? ==> forall p :: lo <= p < hi ==> FieldAt(s, p, tag, ignoreCase).None?
    ensures r.Some? ==> lo <= r.value < hi && FieldAt(s, r.value, tag, ignoreCase).Some?
    ensures r.Some? ==> forall p :: r.value < p < hi ==> FieldAt(s, p, tag, ignoreCase).None?
    decreases hi
  {
    if hi <= lo then None
    else if FieldAt(s, hi - 1, tag, ignoreCase).Some? then Some(hi - 1)
    else LastFieldIn(s, lo, hi - 1, tag, ignoreCase)
  }

  /**
   * The whole pattern matches with `Umidade:` at `i` and `Temperatura:` at
   * `p`: the humidity field matches at `i`, `.*` covers `s[e..p]` (no line
   * break) and the temperature field matches at `p`.
   */
  ghost predicate IsMatch(s: string, ignoreCase: bool, i: nat, p: nat) {
    && FieldAt(s, i, HumidityLabel, ignoreCase).Some?
    && FieldAt(s, i, HumidityLabel, ignoreCase).value.1 <= p
    && FieldAt(s, p, TemperatureLabel, ignoreCase).Some?
    && (forall k :: FieldAt(s, i, HumidityLabel, ignoreCase).value.1 <= k < p ==> s[k] != '\n')
  }

  /** A temperature field reachable by `.*` from `e` lies before the end of that line. */
  lemma WithinLine(s: string, ignoreCase: bool, e: nat, q: nat)
    requires e <= q
    requires FieldAt(s, q, TemperatureLabel, ignoreCase).Some?
    requires forall k :: e <= k < q ==> s[k] != '\n'
    ensures q < LineEnd(s, e)
  {
    assert SameChar(s[q + 0], TemperatureLabel[0], ignoreCase);
  }

  /**
   * `re.search` from start index `i` on: the match positions `(i, p)` of the
   * leftmost start and, for that start, the rightmost temperature label.
   */
  function FindFrom(s: string, ignoreCase: bool, i: nat): (r: Option<(nat, nat)>)
    ensures r.Some? ==> i <= r.value.0
    ensures r.Some? ==> FieldAt(s, r.value.0, HumidityLabel, ignoreCase).Some?
    ensures r.Some? ==> FieldAt(s, r.value.1, TemperatureLabel, ignoreCase).Some?
    decreases |s| - i
  {
    if i >= |s| then None
    else
      match FieldAt(s, i, HumidityLabel, ignoreCase)
      case None => FindFrom(s, ignoreCase, i + 1)
      case Some((_, e)) =>
        match LastFieldIn(s, e, LineEnd(s, e), TemperatureLabel, ignoreCase)
        case None => FindFrom(s, ignoreCase, i + 1)
        case Some(p) => Some((i, p))
  }

  /**
   * One step of the scan: either the search succeeds at `i` itself, with the
   * rightmost temperature label for that start, or no match starts at `i`
   * and the search goes on from `i + 1`.
   */
  lemma FindFromStep(s: string, ignoreCase: bool, i: nat)
    requires i < |s|
    ensures FindFrom(s, ignoreCase, i).Some? && FindFrom(s, ignoreCase, i).value.0 == i ==>
              var p := FindFrom(s, ignoreCase, i).value.1;
              IsMatch(s, ignoreCase, i, p) && forall q: nat :: IsMatch(s, ignoreCase, i, q) ==> q <= p
    ensures !(FindFrom(s, ignoreCase, i).Some? && FindFrom(s, ignoreCase, i).value.0 == i) ==>
              FindFrom(s, ignoreCase, i) == FindFrom(s, ignoreCase, i + 1)
              && forall q: nat :: !IsMatch(s, ignoreCase, i, q)
  {
    match FieldAt(s, i, HumidityLabel, ignoreCase)
    case None =>
    case Some((_, e)) =>
      match LastFieldIn(s, e, LineEnd(s, e), TemperatureLabel, ignoreCase)
      case None =>
        NoMatchAt(s, ignoreCase, i);
      case Some(p) =>
        LastMatchAt(s, ignoreCase, i, p);
  }

  /**
   * `FindFrom` finds a match exactly when one starts at `i` or later, and
   * the one it finds has the leftmost start and, for it, the rightmost
   * temperature label.
   */
  lemma {:induction false} FindFromSpec(s: string, ignoreCase: bool, i: nat)
    ensures FindFrom(s, ignoreCase, i).None? ==> forall j: nat, q: nat :: i <= j ==> !IsMatch(s, ignoreCase, j, q)
    ensures FindFrom(s, ignoreCase, i).Some? ==>
              var (m, p) := FindFrom(s, ignoreCase, i).value;
              && i <= m && IsMatch(s, ignoreCase, m, p)
              && forall j: nat, q: nat :: i <= j && IsMatch(s, ignoreCase, j, q) ==> m < j || (m == j && q <= p)
    decreases |s| - i
  {
    if i >= |s| {
      forall j: nat, q: nat | i <= j ensures !IsMatch(s, ignoreCase, j, q) {
        NoMatchPastEnd(s, ignoreCase, j, q);
      }
    } else {
      FindFromSpec(s, ignoreCase, i + 1);
      FindFromStep(s, ignoreCase, i);
      var r := FindFrom(s, ignoreCase, i);
      if r.Some? && r.value.0 == i {
        LeftmostHere(s, ignoreCase, i, r.value.1);
      } else {
        LeftmostLater(s, ignoreCase, i, FindFrom(s, ignoreCase, i + 1));
      }
    }
  }

  /** A match at `i` with the rightmost temperature label beats every match starting at `i` or later. */
  lemma LeftmostHere(s: string, ignoreCase: bool, i: nat, p: nat)
    requires forall q: nat :: IsMatch(s, ignoreCase, i, q) ==> q <= p
    ensures forall j: nat, q: nat :: i <= j && IsMatch(s, ignoreCase, j, q) ==> i < j || (i == j && q <= p)
  {
  }

  /**
   * When no match starts at `i`, what is leftmost from `i + 1` on is
   * leftmost from `i` on.
   */
  lemma LeftmostLater(s: string, ignoreCase: bool, i: nat, r: Option<(nat, nat)>)
    requires forall q: nat :: !IsMatch(s, ignoreCase, i, q)
    requires r.None? ==> forall j: nat, q: nat :: i + 1 <= j ==> !IsMatch(s, ignoreCase, j, q)
    requires r.Some? ==>
               var (m, p) := r.value;
               && i + 1 <= m && IsMatch(s, ignoreCase, m, p)
               && forall j: nat, q: nat :: i + 1 <= j && IsMatch(s, ignoreCase, j, q) ==> m < j || (m == j && q <= p)
    ensures r.None? ==> forall j: nat, q: nat :: i <= j ==> !IsMatch(s, ignoreCase, j, q)
    ensures r.Some? ==>
              var (m, p) := r.value;
              && i <= m && IsMatch(s, ignoreCase, m, p)
              && forall j: nat, q: nat :: i <= j && IsMatch(s, ignoreCase, j, q) ==> m < j || (m == j && q <= p)
  {
    forall j: nat, q: nat | i <= j && IsMatch(s, ignoreCase, j, q) ensures i + 1 <= j {
    }
  }

  /** No match starts at or beyond the end of the text. */
  lemma NoMatchPastEnd(s: string, ignoreCase: bool, j: nat, q: nat)
    requires |s| <= j
    ensures !IsMatch(s, ignoreCase, j, q)
  {
    assert !LabelAt(s, j, HumidityLabel, ignoreCase);
  }

  /** From a humidity field whose line holds no temperature field, the pattern cannot match. */
  lemma NoMatchAt(s: string, ignoreCase: bool, i: nat)
    requires FieldAt(s, i, HumidityLabel, ignoreCase).Some?
    requires var e := FieldAt(s, i, HumidityLabel, ignoreCase).value.1;
             LastFieldIn(s, e, LineEnd(s, e), TemperatureLabel, ignoreCase).None?
    ensures forall q: nat :: !IsMatch(s, ignoreCase, i, q)
  {
    var e := FieldAt(s, i, HumidityLabel, ignoreCase).value.1;
    forall q: nat | IsMatch(s, ignoreCase, i, q) ensures false {
      WithinLine(s, ignoreCase, e, q);
    }
  }

  /** The last temperature field on the humidity field's line gives a match, and the rightmost one. */
  lemma LastMatchAt(s: string, ignoreCase: bool, i: nat, p: nat)
    requires FieldAt(s, i, HumidityLabel, ignoreCase).Some?
    requires var e := FieldAt(s, i, HumidityLabel, ignoreCase).value.1;
             LastFieldIn(s, e, LineEnd(s, e), TemperatureLabel, ignoreCase) == Some(p)
    ensures IsMatch(s, ignoreCase, i, p)
    ensures forall q: nat :: IsMatch(s, ignoreCase, i, q) ==> q <= p
  {
    var e := FieldAt(s, i, HumidityLabel, ignoreCase).value.1;
    forall q: nat | IsMatch(s, ignoreCase, i, q) ensures q <= p {
      WithinLine(s, ignoreCase, e, q);
    }
  }

  /** The text of the group of the field that matches at `i`. */
  function Group(s: string, i: nat, tag: string, ignoreCase: bool): (g: string)
    requires FieldAt(s, i, tag, ignoreCase).Some?
    ensures g != [] && forall k :: 0 <= k < |g| ==> IsTokenChar(g[k])
  {
    var (a, e) := FieldAt(s, i, tag, ignoreCase).value;
    TokenEndStops(s, a);
    s[a..e]
  }

  /** `re.search(...)` reduced to its two groups: `(group(1), group(2))`. */
  function Search(s: string, ignoreCase: bool): Option<(string, string)> {
    match FindFrom(s, ignoreCase, 0)
    case None => None
    case Some((i, p)) =>
      Some((Group(s, i, HumidityLabel, ignoreCase), Group(s, p, TemperatureLabel, ignoreCase)))
  }

  // ---------------------------------------------------------------------
  // Lines in the sensor sketch's own format
  // ---------------------------------------------------------------------

  /** A non-empty run of digits and dots: what `[\d.]+` can capture. */
  predicate IsToken(t: string) {
    t != [] && forall k :: 0 <= k < |t| ==> IsTokenChar(t[k])
  }

  /**
   * One line as the sensor sketch prints it, `Umidade: 45.00%  Temperatura:
   * 23.00C`, with the two tags spelled `humTag` and `tempTag`.
   */
  function ReadingLine(humTag: string, h: string, tempTag: string, t: string): string {
    humTag + " " + h + "%  " + tempTag + " " + t + "C"
  }

  /** `TokenEnd` stops at the first character outside `[\d.]`. */
  lemma {:induction false} TokenEndAt(s: string, i: nat, j: nat)
    requires i <= j <= |s|
    requires forall k :: i <= k < j ==> IsTokenChar(s[k])
    requires j == |s| || !IsTokenChar(s[j])
    ensures TokenEnd(s, i) == j
    decreases j - i
  {
    if i < j {
      TokenEndAt(s, i + 1, j);
    }
  }

  /** Where the parts of `ReadingLine(humTag, h, tempTag, t)` sit in `s`. */
  ghost predicate ReadingLayout(s: string, humTag: string, h: string, tempTag: string, t: string) {
    var e := 9 + |h|;
    var p := e + 3;
    && |humTag| == 8 && |tempTag| == 12
    && |s| == p + 14 + |t|
    && (forall k :: 0 <= k < 8 ==> s[k] == humTag[k])
    && s[8] == ' '
    && (forall k :: 0 <= k < |h| ==> s[9 + k] == h[k])
    && s[e] == '%' && s[e + 1] == ' ' && s[e + 2] == ' '
    && (forall k :: 0 <= k < 12 ==> s[p + k] == tempTag[k])
    && s[p + 12] == ' '
    && (forall k :: 0 <= k < |t| ==> s[p + 13 + k] == t[k])
    && s[|s| - 1] == 'C'
  }

  lemma ReadingLineLayout(humTag: string, h: string, tempTag: string, t: string)
    requires |humTag| == 8 && |tempTag| == 12
    ensures ReadingLayout(ReadingLine(humTag, h, tempTag, t), humTag, h, tempTag, t)
  {
  }

  lemma LayoutHumidityField(s: string, humTag: string, h: string, tempTag: string, t: string, ignoreCase: bool)
    requires ReadingLayout(s, humTag, h, tempTag, t)
    requires LabelAt(humTag, 0, HumidityLabel, ignoreCase)
    requires IsToken(h)
    ensures FieldAt(s, 0, HumidityLabel, ignoreCase) == Some((9, 9 + |h|))
  {
    assert LabelAt(s, 0, HumidityLabel, ignoreCase) by {
      forall k | 0 <= k < 8 ensures SameChar(s[0 + k], HumidityLabel[k], ignoreCase) {
        assert SameChar(humTag[0 + k], HumidityLabel[k], ignoreCase);
      }
    }
    assert s[9 + 0] == h[0];
    assert SkipSpace(s, 8) == 9;
    forall k | 9 <= k < 9 + |h| ensures IsTokenChar(s[k]) {
      assert s[9 + (k - 9)] == h[k - 9];
    }
    TokenEndAt(s, 9, 9 + |h|);
  }

  lemma LayoutTemperatureField(s: string, humTag: string, h: string, tempTag: string, t: string, ignoreCase: bool)
    requires ReadingLayout(s, humTag, h, tempTag, t)
    requires LabelAt(tempTag, 0, TemperatureLabel, ignoreCase)
    requires IsToken(t)
    ensures FieldAt(s, 12 + |h|, TemperatureLabel, ignoreCase) == Some((25 + |h|, 25 + |h| + |t|))
  {
    var p := 12 + |h|;
    assert LabelAt(s, p, TemperatureLabel, ignoreCase) by {
      forall k | 0 <= k < 12 ensures SameChar(s[p + k], TemperatureLabel[k], ignoreCase) {
        assert SameChar(tempTag[0 + k], TemperatureLabel[k], ignoreCase);
      }
    }
    assert s[p + 13 + 0] == t[0];
    assert SkipSpace(s, p + 12) == p + 13;
    forall k | p + 13 <= k < p + 13 + |t| ensures IsTokenChar(s[k]) {
      assert s[p + 13 + (k - p - 13)] == t[k - p - 13];
    }
    TokenEndAt(s, p + 13, p + 13 + |t|);
  }

  /**
   * No temperature tag starts after the printed one: its ':' would have to
   * fall on the separating blank, a digit or dot of `t`, or the final 'C'.
   */
  lemma LayoutNoLaterField(s: string, humTag: string, h: string, tempTag: string, t: string, ignoreCase: bool)
    requires ReadingLayout(s, humTag, h, tempTag, t)
    requires IsToken(t)
    ensures forall q :: 12 + |h| < q < |s| ==> FieldAt(s, q, TemperatureLabel, ignoreCase).None?
  {
    var p := 12 + |h|;
    forall q | p < q < |s| ensures FieldAt(s, q, TemperatureLabel, ignoreCase).None? {
      if q + 12 <= |s| {
        assert s[q + 11] != ':' by {
          if p + 12 < q + 11 < |s| - 1 {
            assert s[p + 13 + (q - p - 2)] == t[q - p - 2];
          }
        }
        assert !SameChar(s[q + 11], TemperatureLabel[11], ignoreCase);
      }
    }
  }

  /** From the end of the humidity value, `.*` reaches the end of the line. */
  lemma LayoutOneLine(s: string, humTag: string, h: string, tempTag: string, t: string, ignoreCase: bool)
    requires ReadingLayout(s, humTag, h, tempTag, t)
    requires LabelAt(tempTag, 0, TemperatureLabel, ignoreCase)
    requires IsToken(t)
    ensures LineEnd(s, 9 + |h|) == |s|
  {
    var p := 12 + |h|;
    forall k | 9 + |h| <= k < |s| ensures s[k] != '\n' {
      if p <= k < p + 12 {
        assert s[k] == tempTag[k - p];
        assert SameChar(tempTag[0 + (k - p)], TemperatureLabel[k - p], ignoreCase);
      } else if p + 13 <= k < |s| - 1 {
        assert s[k] == t[k - p - 13];
      }
    }
  }

  lemma LayoutSearch(s: string, humTag: string, h: string, tempTag: string, t: string, ignoreCase: bool)
    requires ReadingLayout(s, humTag, h, tempTag, t)
    requires LabelAt(humTag, 0, HumidityLabel, ignoreCase)
    requires LabelAt(tempTag, 0, TemperatureLabel, ignoreCase)
    requires IsToken(h) && IsToken(t)
    ensures Search(s, ignoreCase) == Some((h, t))
  {
    var e := 9 + |h|;
    var p := e + 3;
    LayoutHumidityField(s, humTag, h, tempTag, t, ignoreCase);
    LayoutTemperatureField(s, humTag, h, tempTag, t, ignoreCase);
    LayoutNoLaterField(s, humTag, h, tempTag, t, ignoreCase);
    LayoutOneLine(s, humTag, h, tempTag, t, ignoreCase);
    assert LastFieldIn(s, e, |s|, TemperatureLabel, ignoreCase) == Some(p);
    assert FindFrom(s, ignoreCase, 0) == Some((0, p));
    assert s[9..e] == h;
    assert s[p + 13..p + 13 + |t|] == t;
  }

  /**
   * On a line of the sketch's format whose tags the pattern accepts, the
   * two groups are exactly the printed values.
   */
  lemma SearchReadingLine(humTag: string, h: string, tempTag: string, t: string, ignoreCase: bool)
    requires |humTag| == |HumidityLabel| && LabelAt(humTag, 0, HumidityLabel, ignoreCase)
    requires |tempTag| == |TemperatureLabel| && LabelAt(tempTag, 0, TemperatureLabel, ignoreCase)
    requires IsToken(h) && IsToken(t)
    ensures Search(ReadingLine(humTag, h, tempTag, t), ignoreCase) == Some((h, t))
  {
    ReadingLineLayout(humTag, h, tempTag, t);
    LayoutSearch(ReadingLine(humTag, h, tempTag, t), humTag, h, tempTag, t, ignoreCase);
  }

  /** A line of the sketch's format has no whitespace at either end, so `strip()` keeps it whole. */
  lemma ReadingLineStripped(humTag: string, h: string, tempTag: string, t: string, ignoreCase: bool)
    requires |humTag| == |HumidityLabel| && LabelAt(humTag, 0, HumidityLabel, ignoreCase)
    ensures Strip(ReadingLine(humTag, h, tempTag, t)) == ReadingLine(humTag, h, tempTag, t)
  {
    var s := ReadingLine(humTag, h, tempTag, t);
    assert SameChar(humTag[0 + 0], HumidityLabel[0], ignoreCase);
    assert s[0] == humTag[0] && s[|s| - 1] == 'C';
    StripStripped(s);
  }

  /**
   * Whitespace after a line of the sketch's format, such as the `"\r\n"` or
   * `"\n"` that `readline()` keeps, is removed by `strip()`, which gives
   * back the line itself.
   */
  lemma ReadingLineTerminatedStripped(humTag: string, h: string, tempTag: string, t: string, after: string, ignoreCase: bool)
    requires |humTag| == |HumidityLabel| && LabelAt(humTag, 0, HumidityLabel, ignoreCase)
    requires AllSpace(after)
    ensures Strip(ReadingLine(humTag, h, tempTag, t) + after) == ReadingLine(humTag, h, tempTag, t)
  {
    var m := ReadingLine(humTag, h, tempTag, t);
    assert SameChar(humTag[0 + 0], HumidityLabel[0], ignoreCase);
    assert m[0] == humTag[0] && m[|m| - 1] == 'C';
    assert [] + m + after == m + after;
    StripSurrounded([], m, after);
  }

  // ---------------------------------------------------------------------
  // float() on a captured token
  // ---------------------------------------------------------------------

  predicate AllDigits(t: string) {
    forall k :: 0 <= k < |t| ==> IsDigit(t[k])
  }

  predicate HasDigit(t: string) {
    exists k :: 0 <= k < |t| && IsDigit(t[k])
  }

  predicate AtMostOneDot(t: string) {
    forall j, m :: 0 <= j < m < |t| && t[j] == '.' ==> t[m] != '.'
  }

  /** Index of the first '.' of `t`, or |t| when there is none. */
  function DotIndex(t: string): (k: nat)
    ensures k <= |t|
    ensures k < |t| ==> t[k] == '.'
    ensures forall j :: 0 <= j < k ==> t[j] != '.'
  {
    if t == [] || t[0] == '.' then 0 else 1 + DotIndex(t[1..])
  }

  /** The value of a string of decimal digits. */
  function DigitsValue(t: string): nat
    requires AllDigits(t)
  {
    if t == [] then 0 else DigitsValue(t[..|t| - 1]) * 10 + DigitValue(t[|t| - 1])
  }

  function Pow10(n: nat): (p: nat)
    ensures p >= 1
  {
    if n == 0 then 1 else 10 * Pow10(n - 1)
  }

  /**
   * `float(t)` on a string of digits and dots, as an exact decimal: the
   * forms `digits`, `digits.`, `.digits` and `digits.digits` are accepted,
   * anything else raises `ValueError` (None). Signs, exponents, `inf`/`nan`,
   * underscores and surrounding whitespace never occur in a captured group
   * and are not accepted here.
   */
  function FloatOfToken(t: string): (r: Option<real>)
    ensures r.Some? ==> r.value >= 0.0
  {
    var k := DotIndex(t);
    var whole := t[..k];
    var fraction := if k < |t| then t[k + 1..] else "";
    if AllDigits(whole) && AllDigits(fraction) && |whole| + |fraction| > 0 then
      Some(DigitsValue(whole) as real + DigitsValue(fraction) as real / Pow10(|fraction|) as real)
    else None
  }

  /**
   * `float()` accepts a captured token exactly when it has at least one
   * digit and at most one dot.
   */
  lemma FloatOfTokenAccepts(t: string)
    requires forall k :: 0 <= k < |t| ==> IsTokenChar(t[k])
    ensures FloatOfToken(t).Some? <==> HasDigit(t) && AtMostOneDot(t)
  {
    var k := DotIndex(t);
    var whole := t[..k];
    assert forall j :: 0 <= j < k ==> whole[j] == t[j];
    assert AllDigits(whole);
    if k < |t| {
      var fraction := t[k + 1..];
      assert forall j :: 0 <= j < |fraction| ==> fraction[j] == t[k + 1 + j];
      assert AllDigits(fraction) <==> AtMostOneDot(t) by {
        if AllDigits(fraction) {
          forall j, m | 0 <= j < m < |t| && t[j] == '.' ensures t[m] != '.' {
            assert t[m] == fraction[m - k - 1];
          }
        }
        if AtMostOneDot(t) {
          forall j | 0 <= j < |fraction| ensures IsDigit(fraction[j]) {
            assert t[k] == '.';
          }
        }
      }
      if HasDigit(t) {
        var d :| 0 <= d < |t| && IsDigit(t[d]);
        if d > k {
          assert t[d] == fraction[d - k - 1];
        }
      }
      if |fraction| > 0 && AllDigits(fraction) {
        assert IsDigit(t[k + 1]);
      }
    } else {
      assert whole == t;
    }
    if |whole| > 0 {
      assert IsDigit(t[0]);
    }
  }

  lemma DigitsValueTwo(t: string)
    requires |t| == 2 && AllDigits(t)
    ensures DigitsValue(t) == DigitValue(t[0]) * 10 + DigitValue(t[1])
  {
    assert DigitsValue(t) == DigitsValue(t[..1]) * 10 + DigitValue(t[1]);
    assert t[..1] == [t[0]];
    assert DigitsValue([t[0]]) == DigitValue(t[0]) by { assert [t[0]][..0] == []; }
  }

  /** The documented tokens `45.00` and `23.00` read as 45 and 23. */
  lemma FloatOfDocumentedValues()
    ensures FloatOfToken("45.00") == Some(45.0)
    ensures FloatOfToken("23.00") == Some(23.0)
  {
    var h := "45.00";
    assert DotIndex(h) == 2;
    DigitsValueTwo(h[..2]);
    DigitsValueTwo(h[3..]);
    var t := "23.00";
    assert DotIndex(t) == 2;
    DigitsValueTwo(t[..2]);
    DigitsValueTwo(t[3..]);
  }

  /** The tokens `50.0` and `21.5` read as 50 and 21.5. */
  lemma FloatOfOneDecimalValues()
    ensures FloatOfToken("50.0") == Some(50.0)
    ensures FloatOfToken("21.5") == Some(21.5)
  {
    var h := "50.0";
    assert DotIndex(h) == 2;
    DigitsValueTwo(h[..2]);
    DigitsValueOne(h[3..]);
    var t := "21.5";
    assert DotIndex(t) == 2;
    DigitsValueTwo(t[..2]);
    DigitsValueOne(t[3..]);
  }

  lemma DigitsValueOne(t: string)
    requires |t| == 1 && AllDigits(t)
    ensures DigitsValue(t) == DigitValue(t[0])
  {
    assert t[..0] == [];
  }

  /** A lone dot and a token with two dots are rejected, as `float()` raises on them. */
  lemma FloatRejectsMalformed()
    ensures FloatOfToken(".") == None
    ensures FloatOfToken("1.2.3") == None
  {
    assert DotIndex(".") == 0;
    assert DotIndex("1.2.3") == 1;
    assert !IsDigit("1.2.3"[2..][1]);
  }

  // ---------------------------------------------------------------------
  // The extractor
  // ---------------------------------------------------------------------

  /**
   * The two readings of a text, in pattern order `(group(1), group(2))` =
   * (humidity, temperature), or None when the pattern does not match or
   * `float()` rejects either group.
   */
  function Extract(s: string, ignoreCase: bool): Option<(real, real)> {
    match Search(s, ignoreCase)
    case None => None
    case Some((humidity, temperature)) =>
      match (FloatOfToken(humidity), FloatOfToken(temperature))
      case (Some(h), Some(t)) => Some((h, t))
      case _ => None
  }

  /**
   * What a parser built on the pattern returns for one line: two optional
   * values, `(None, None)` on every failure. `parse_data` orders them
   * (temperature, humidity), `parse_dados` (humidity, temperature).
   */
  type Parsed = (Option<real>, Option<real>)

  /** A parse result holding both values: the line was read. */
  predicate Complete(result: Parsed) {
    result.0.Some? && result.1.Some?
  }

  /** The positions of the complete results, in increasing order. */
  function CompleteIndices(results: seq<Parsed>): (ix: seq<nat>)
    ensures forall k :: 0 <= k < |ix| ==> ix[k] < |results| && Complete(results[ix[k]])
    ensures forall k, m :: 0 <= k < m < |ix| ==> ix[k] < ix[m]
    ensures forall i :: 0 <= i < |results| && Complete(results[i]) ==> i in ix
  {
    if results == [] then []
    else
      var n := |results| - 1;
      var front := CompleteIndices(results[..n]);
      assert forall i :: 0 <= i < n ==> results[..n][i] == results[i];
      if Complete(results[n]) then front + [n] else front
  }


  /**
   * A reading needs both labels, `Umidade:` strictly before `Temperatura:`;
   * a text missing either, or with them in the opposite order, gives None.
   */
  lemma ExtractNeedsLabelsInOrder(s: string, ignoreCase: bool)
    requires Extract(s, ignoreCase).Some?
    ensures exists i: nat, p: nat :: i < p && LabelAt(s, i, HumidityLabel, ignoreCase) && LabelAt(s, p, TemperatureLabel, ignoreCase)
  {
    FindFromSpec(s, ignoreCase, 0);
    var (i, p) := FindFrom(s, ignoreCase, 0).value;
    assert LabelAt(s, i, HumidityLabel, ignoreCase);
  }

  /**
   * The groups are the leftmost-start, greedy ones: the humidity group is
   * the maximal token of the first `Umidade:` from which the whole pattern
   * matches, and the temperature group that of the last `Temperatura:` on the
   * same line after it.
   */
  lemma SearchSelectsLeftmostGreedy(s: string, ignoreCase: bool)
    ensures Search(s, ignoreCase).None? <==> forall i: nat, p: nat :: !IsMatch(s, ignoreCase, i, p)
    ensures Search(s, ignoreCase).Some? ==>
      exists i: nat, p: nat :: && IsMatch(s, ignoreCase, i, p)
                     && Search(s, ignoreCase).value == (Group(s, i, HumidityLabel, ignoreCase), Group(s, p, TemperatureLabel, ignoreCase))
                     && forall j: nat, q: nat :: IsMatch(s, ignoreCase, j, q) ==> i < j || (i == j && q <= p)
  {
    FindFromSpec(s, ignoreCase, 0);
  }

  /**
   * The line documented beside `parse_dados`, `Umidade: 45.00%  Temperatura:
   * 23.00C`, reads as humidity 45 and temperature 23 in either matching mode.
   */
  lemma ExtractDocumentedLine(ignoreCase: bool)
    ensures Extract("Umidade: 45.00%  Temperatura: 23.00C", ignoreCase) == Some((45.0, 23.0))
  {
    DocumentedLineText();
    LabelsMatchThemselves();
    DocumentedTokens();
    SearchReadingLine(HumidityLabel, "45.00", TemperatureLabel, "23.00", ignoreCase);
    FloatOfDocumentedValues();
  }

  lemma DocumentedLineText()
    ensures "Umidade: 45.00%  Temperatura: 23.00C" == ReadingLine(HumidityLabel, "45.00", TemperatureLabel, "23.00")
  {
  }

  /** The pattern's own tags match themselves in either matching mode. */
  lemma LabelsMatchThemselves()
    ensures forall ignoreCase :: LabelAt(HumidityLabel, 0, HumidityLabel, ignoreCase)
    ensures forall ignoreCase :: LabelAt(TemperatureLabel, 0, TemperatureLabel, ignoreCase)
  {
  }

  lemma DocumentedTokens()
    ensures IsToken("45.00") && IsToken("23.00")
  {
  }

  /**
   * The text between the two values may be empty: a temperature field
   * starting right where the humidity token ends still gives a match.
   */
  lemma AdjacentFieldsMatch(s: string, ignoreCase: bool, i: nat)
    requires FieldAt(s, i, HumidityLabel, ignoreCase).Some?
    requires FieldAt(s, FieldAt(s, i, HumidityLabel, ignoreCase).value.1, TemperatureLabel, ignoreCase).Some?
    ensures Search(s, ignoreCase).Some?
  {
    SearchSelectsLeftmostGreedy(s, ignoreCase);
    assert IsMatch(s, ignoreCase, i, FieldAt(s, i, HumidityLabel, ignoreCase).value.1);
  }

  /** A text with no humidity tag that the pattern accepts gives no reading. */
  lemma NoTagNoReading(s: string, ignoreCase: bool)
    requires forall i: nat :: !LabelAt(s, i, HumidityLabel, ignoreCase)
    ensures Extract(s, ignoreCase) == None
  {
    if Extract(s, ignoreCase).Some? {
      ExtractNeedsLabelsInOrder(s, ignoreCase);
    }
  }

  /** Without `re.IGNORECASE`, lower-case tags are not recognised: `umidade: 45 temperatura: 23` gives no reading. */
  lemma CaseSensitiveRejectsLowercase()
    ensures Extract("umidade: 45 temperatura: 23", false) == None
  {
    var s := "umidade: 45 temperatura: 23";
    assert forall k :: 0 <= k < |s| ==> s[k] != 'U';
    forall i: nat ensures !LabelAt(s, i, HumidityLabel, false) {
      if i + 8 <= |s| {
        assert !SameChar(s[i + 0], HumidityLabel[0], false);
      }
    }
    NoTagNoReading(s, false);
  }
}
