/**
 * The four fixed regular expressions of transform.py and pandas' `str.extract`,
 * which returns capture group 1 of the leftmost match, or NaN.
 *
 *   EMAIL     ([a-z0-9\.-]+@[a-z0-9\.-]+)\.
 *   BRITISH   ([A-Z0-9]{2,4} [0-9][A-Z]{2})\b
 *   AMERICAN  \b[A-Z]{2} ([0-9]{5})\b
 *   CANADIAN  \b([A-Z][0-9][A-Z] [0-9][A-Z][0-9])\b
 */
module Patterns {
  import opened Wrappers
  import opened Frame

  predicate IsUpper(c: char) { 'A' <= c <= 'Z' }
  predicate IsLower(c: char) { 'a' <= c <= 'z' }
  predicate IsDigit(c: char) { '0' <= c <= '9' }

  /** `\w`, on the ASCII range. */
  predicate IsWordChar(c: char) { IsUpper(c) || IsLower(c) || IsDigit(c) || c == '_' }

  /** The class `[a-z0-9\.-]` of the email pattern. */
  predicate IsEmailChar(c: char) { IsLower(c) || IsDigit(c) || c == '.' || c == '-' }

  /** The class `[A-Z0-9]` of the British pattern. */
  predicate IsUpperAlnum(c: char) { IsUpper(c) || IsDigit(c) }

  predicate WordAt(s: string, i: int) { 0 <= i < |s| && IsWordChar(s[i]) }

  /** `\b` at position `i`: a word character on exactly one side (nothing stands outside the text). */
  predicate Boundary(s: string, i: int) { WordAt(s, i - 1) != WordAt(s, i) }

  datatype Pattern = Email | British | American | Canadian

  /** The span of capture group 1 of a match. */
  datatype Span = Span(start: nat, end: nat)

  // ---------------------------------------------------------------- British

  /** The British pattern matches at `i` with `k` characters taken by `[A-Z0-9]{2,4}`. */
  predicate BritishWith(s: string, i: nat, k: nat) {
    && 2 <= k <= 4
    && i + k + 4 <= |s|
    && (forall j :: i <= j < i + k ==> IsUpperAlnum(s[j]))
    && s[i + k] == ' ' && IsDigit(s[i + k + 1])
    && IsUpper(s[i + k + 2]) && IsUpper(s[i + k + 3])
    && Boundary(s, i + k + 4)
  }

  /** Greedy `{2,4}` tries four characters, then three, then two. */
  function BritishAt(s: string, i: nat): Option<Span> {
    if BritishWith(s, i, 4) then Some(Span(i, i + 8))
    else if BritishWith(s, i, 3) then Some(Span(i, i + 7))
    else if BritishWith(s, i, 2) then Some(Span(i, i + 6))
    else None
  }

  /** At most one prefix length works at a given start, so the order of the tries never matters. */
  lemma BritishUnique(s: string, i: nat, k1: nat, k2: nat)
    requires BritishWith(s, i, k1) && BritishWith(s, i, k2)
    ensures k1 == k2
  {
  }

  // ---------------------------------------------------------------- American and Canadian

  predicate AmericanAt(s: string, i: nat) {
    && i + 8 <= |s|
    && Boundary(s, i)
    && IsUpper(s[i]) && IsUpper(s[i + 1]) && s[i + 2] == ' '
    && (forall j :: i + 3 <= j < i + 8 ==> IsDigit(s[j]))
    && Boundary(s, i + 8)
  }

  predicate CanadianAt(s: string, i: nat) {
    && i + 7 <= |s|
    && Boundary(s, i)
    && IsUpper(s[i]) && IsDigit(s[i + 1]) && IsUpper(s[i + 2]) && s[i + 3] == ' '
    && IsDigit(s[i + 4]) && IsUpper(s[i + 5]) && IsDigit(s[i + 6])
    && Boundary(s, i + 7)
  }

  // ---------------------------------------------------------------- Email

  /** The end of the longest run of `[a-z0-9\.-]` that starts at `i`. */
  function RunEnd(s: string, i: nat): (e: nat)
    requires i <= |s|
    decreases |s| - i
    ensures i <= e <= |s|
    ensures forall j :: i <= j < e ==> IsEmailChar(s[j])
    ensures e < |s| ==> !IsEmailChar(s[e])
  {
    if i < |s| && IsEmailChar(s[i]) then RunEnd(s, i + 1) else i
  }

  /** The last `.` in `s[lo..hi]`. */
  function LastDot(s: string, lo: nat, hi: nat): (r: Option<nat>)
    requires lo <= hi <= |s|
    decreases hi - lo
    ensures r.Some? ==> lo <= r.value < hi && s[r.value] == '.'
    ensures r.Some? ==> forall j :: r.value < j < hi ==> s[j] != '.'
    ensures r.None? ==> forall j :: lo <= j < hi ==> s[j] != '.'
  {
    if lo == hi then None
    else if s[hi - 1] == '.' then Some(hi - 1)
    else LastDot(s, lo, hi - 1)
  }

  /**
   * The text `s[i..e]` is an email the pattern can capture through the `@` at `p`:
   * non-empty class runs on both sides of the `@`, and a `.` right after it.
   */
  predicate EmailShape(s: string, i: nat, p: nat, e: nat) {
    && i < p && p + 1 < e < |s|
    && (forall j :: i <= j < p ==> IsEmailChar(s[j]))
    && s[p] == '@'
    && (forall j :: p < j < e ==> IsEmailChar(s[j]))
    && s[e] == '.'
  }

  /**
   * The email pattern attempted at `i`. The greedy local part runs to the end of
   * the class run, where an `@` must stand; the greedy domain then gives back
   * characters until a `.` follows it.
   */
  function EmailAt(s: string, i: nat): (r: Option<Span>)
    ensures r.Some? ==> i < |s| && r.value.start == i && EmailShape(s, i, RunEnd(s, i), r.value.end)
    ensures r.Some? ==> forall p: nat, e: nat :: EmailShape(s, i, p, e) ==> e <= r.value.end
    ensures r.None? ==> forall p: nat, e: nat :: !EmailShape(s, i, p, e)
  {
    if i >= |s| then None
    else
      var p := RunEnd(s, i);
      if p == i || p == |s| || s[p] != '@' then
        NoEmailWithout(s, i);
        None
      else
        var q := RunEnd(s, p + 1);
        EmailAtP(s, i, p, q);
        if q < p + 2 then None
        else match LastDot(s, p + 2, q)
          case None => None
          case Some(e) => Some(Span(i, e))
  }

  /** Any email captured at `i` takes its `@` from the end of the run at `i`. */
  lemma EmailAtSign(s: string, i: nat, p: nat, e: nat)
    requires EmailShape(s, i, p, e)
    ensures p == RunEnd(s, i)
  {
  }

  lemma NoEmailWithout(s: string, i: nat)
    requires i < |s|
    requires RunEnd(s, i) == i || RunEnd(s, i) == |s| || s[RunEnd(s, i)] != '@'
    ensures forall p: nat, e: nat :: !EmailShape(s, i, p, e)
  {
  }

  /** With the `@` at `p` and the domain run ending at `q`, a capture ends at a `.` inside the run. */
  lemma EmailAtP(s: string, i: nat, p: nat, q: nat)
    requires i < p < |s| && s[p] == '@' && p == RunEnd(s, i) && q == RunEnd(s, p + 1)
    ensures forall e: nat :: EmailShape(s, i, p, e) ==> p + 2 <= e < q && s[e] == '.'
    ensures forall p': nat, e: nat :: EmailShape(s, i, p', e) ==> p' == p
  {
  }

  // ---------------------------------------------------------------- Search

  /** The regex attempted at position `i`: the span of its capture group, or None. */
  function MatchAt(pat: Pattern, s: string, i: nat): (r: Option<Span>)
    ensures r.Some? ==> i <= r.value.start <= r.value.end <= |s|
  {
    match pat
    case Email => EmailAt(s, i)
    case British => BritishAt(s, i)
    case American => if AmericanAt(s, i) then Some(Span(i + 3, i + 8)) else None
    case Canadian => if CanadianAt(s, i) then Some(Span(i, i + 7)) else None
  }

  /** `re.search`: the first start position, from `from` on, where the pattern matches. */
  function Search(pat: Pattern, s: string, from: nat): (r: Option<nat>)
    requires from <= |s| + 1
    decreases |s| + 1 - from
    ensures r.Some? ==> from <= r.value <= |s| && MatchAt(pat, s, r.value).Some?
    ensures r.Some? ==> forall j :: from <= j < r.value ==> MatchAt(pat, s, j).None?
    ensures r.None? ==> forall j :: from <= j <= |s| ==> MatchAt(pat, s, j).None?
  {
    if from > |s| then None
    else if MatchAt(pat, s, from).Some? then Some(from)
    else Search(pat, s, from + 1)
  }

  /** The pattern matches at `i` and at no earlier position. */
  predicate Leftmost(pat: Pattern, s: string, i: nat) {
    i <= |s| && MatchAt(pat, s, i).Some? && forall j :: 0 <= j < i ==> MatchAt(pat, s, j).None?
  }

  /** The text captured by a match at `i`. */
  function Captured(pat: Pattern, s: string, i: nat): string
    requires MatchAt(pat, s, i).Some?
  {
    var sp := MatchAt(pat, s, i).value;
    s[sp.start..sp.end]
  }

  /**
   * `Series.str.extract(regex)` on one cell: the capture of the leftmost match,
   * NaN when the pattern matches nowhere, and NaN for a cell that is not a string.
   */
  function Extract(pat: Pattern, c: Cell): (r: Cell)
    ensures r.NaN? || r.Str?
    ensures !c.Str? ==> r == NaN
    ensures c.Str? ==> forall i: nat :: Leftmost(pat, c.s, i) ==> r == Str(Captured(pat, c.s, i))
    ensures c.Str? ==> (r == NaN <==> forall i :: 0 <= i <= |c.s| ==> MatchAt(pat, c.s, i).None?)
  {
    match c
    case Str(s) =>
      (match Search(pat, s, 0)
       case None => NaN
       case Some(i) =>
         assert Leftmost(pat, s, i);
         LeftmostUnique(pat, s, i);
         Str(Captured(pat, s, i)))
    case _ => NaN
  }

  lemma LeftmostUnique(pat: Pattern, s: string, i: nat)
    requires Leftmost(pat, s, i)
    ensures forall j: nat :: Leftmost(pat, s, j) ==> j == i
  {
  }

  /**
   * What `EMAIL_REGEX` extracts: a non-empty class run, one `@`, a non-empty class
   * run, standing in the text right before a `.`; and the longest such text from
   * that start.
   */
  lemma EmailExtracted(s: string, i: nat)
    requires Leftmost(Email, s, i)
    ensures var m := Captured(Email, s, i);
      exists p :: && i < p < i + |m| - 1
                  && m == s[i..p] + "@" + s[p + 1..i + |m|]
                  && (forall j :: i <= j < p ==> IsEmailChar(s[j]))
                  && (forall j :: p < j < i + |m| ==> IsEmailChar(s[j]))
                  && i + |m| < |s| && s[i + |m|] == '.'
  {
    var sp := EmailAt(s, i).value;
    var p := RunEnd(s, i);
    assert EmailShape(s, i, p, sp.end);
    assert s[i..sp.end] == s[i..p] + "@" + s[p + 1..sp.end];
  }

  // ---------------------------------------------------------------- Postcodes

  /**
   * The postcode column: the British capture is the base; an American capture
   * overwrites it and a Canadian capture overwrites that (`DataFrame.update`
   * overwrites wherever the other frame is not missing).
   */
  function PostcodeOf(aff: Cell): (r: Cell)
    ensures r.NaN? || r.Str?
    ensures r.Str? ==> r == Extract(Canadian, aff) || r == Extract(American, aff) || r == Extract(British, aff)
    ensures Extract(Canadian, aff).Str? ==> r == Extract(Canadian, aff)
    ensures Extract(Canadian, aff).NaN? && Extract(American, aff).Str? ==> r == Extract(American, aff)
    ensures aff.Str? ==> (r.NaN? <==>
      forall i :: 0 <= i <= |aff.s| ==>
        MatchAt(Canadian, aff.s, i).None? && MatchAt(American, aff.s, i).None? && MatchAt(British, aff.s, i).None?)
  {
    var canadian := Extract(Canadian, aff);
    var american := Extract(American, aff);
    if canadian.Str? then canadian
    else if american.Str? then american
    else Extract(British, aff)
  }

  // ---------------------------------------------------------------- What a capture looks like

  /** `[A-Z][0-9][A-Z] [0-9][A-Z][0-9]`. */
  predicate CanadianCode(m: string) {
    && |m| == 7
    && IsUpper(m[0]) && IsDigit(m[1]) && IsUpper(m[2]) && m[3] == ' '
    && IsDigit(m[4]) && IsUpper(m[5]) && IsDigit(m[6])
  }

  /** The American capture group: five digits. */
  predicate AmericanCode(m: string) {
    |m| == 5 && forall j :: 0 <= j < 5 ==> IsDigit(m[j])
  }

  /** `[A-Z0-9]{2,4} [0-9][A-Z]{2}`. */
  predicate BritishCode(m: string) {
    && 6 <= |m| <= 8
    && (forall j :: 0 <= j < |m| - 4 ==> IsUpperAlnum(m[j]))
    && m[|m| - 4] == ' ' && IsDigit(m[|m| - 3]) && IsUpper(m[|m| - 2]) && IsUpper(m[|m| - 1])
  }

  /** An email capture: one `@` between two non-empty runs of `[a-z0-9.-]`. */
  predicate EmailCode(m: string) {
    exists p :: && 0 < p < |m| - 1 && m[p] == '@'
                && forall j :: 0 <= j < |m| && j != p ==> IsEmailChar(m[j])
  }

  predicate Code(pat: Pattern, m: string) {
    match pat
    case Email => EmailCode(m)
    case British => BritishCode(m)
    case American => AmericanCode(m)
    case Canadian => CanadianCode(m)
  }

  /** `m` stands in `s` at position `i`. */
  predicate AppearsAt(s: string, m: string, i: nat) {
    i + |m| <= |s| && s[i..i + |m|] == m
  }

  /**
   * What a postcode pattern demands around its group `m` standing at `i`: a word
   * boundary right after it; for the American pattern, a word boundary, two
   * capitals and a space before it; for the Canadian one, a word boundary before it.
   */
  predicate PostcodeContext(pat: Pattern, s: string, m: string, i: nat) {
    && AppearsAt(s, m, i)
    && Boundary(s, i + |m|)
    && (pat == American ==>
          i >= 3 && Boundary(s, i - 3) && IsUpper(s[i - 3]) && IsUpper(s[i - 2]) && s[i - 1] == ' ')
    && (pat == Canadian ==> Boundary(s, i))
  }

  /** Every postcode capture has the shape of its pattern's group and stands in the pattern's context. */
  lemma CapturedCode(pat: Pattern, s: string, i: nat)
    requires pat != Email && MatchAt(pat, s, i).Some?
    ensures Code(pat, Captured(pat, s, i))
    ensures PostcodeContext(pat, s, Captured(pat, s, i), MatchAt(pat, s, i).value.start)
  {
    match pat
    case British => CapturedBritish(s, i);
    case American => CapturedAmerican(s, i);
    case Canadian => CapturedCanadian(s, i);
  }

  lemma CapturedBritish(s: string, i: nat)
    requires MatchAt(British, s, i).Some?
    ensures Code(British, Captured(British, s, i))
    ensures PostcodeContext(British, s, Captured(British, s, i), MatchAt(British, s, i).value.start)
  {
  }

  lemma CapturedAmerican(s: string, i: nat)
    requires MatchAt(American, s, i).Some?
    ensures Code(American, Captured(American, s, i))
    ensures PostcodeContext(American, s, Captured(American, s, i), MatchAt(American, s, i).value.start)
  {
  }

  lemma CapturedCanadian(s: string, i: nat)
    requires MatchAt(Canadian, s, i).Some?
    ensures Code(Canadian, Captured(Canadian, s, i))
    ensures PostcodeContext(Canadian, s, Captured(Canadian, s, i), MatchAt(Canadian, s, i).value.start)
  {
  }

  /** An email capture has the shape of an email. */
  lemma CapturedEmail(s: string, i: nat)
    requires MatchAt(Email, s, i).Some?
    ensures EmailCode(Captured(Email, s, i))
  {
    var sp := EmailAt(s, i).value;
    var p := RunEnd(s, i);
    assert EmailShape(s, i, p, sp.end);
    var m := s[i..sp.end];
    assert m[p - i] == '@';
    forall j | 0 <= j < |m| && j != p - i ensures IsEmailChar(m[j]) {
      assert m[j] == s[i + j];
    }
  }

  /** A value `str.extract` produces is the capture of the leftmost match in a string cell. */
  lemma ExtractedLeftmost(pat: Pattern, c: Cell)
    requires Extract(pat, c).Str?
    ensures c.Str? && Search(pat, c.s, 0).Some?
    ensures Leftmost(pat, c.s, Search(pat, c.s, 0).value)
    ensures Extract(pat, c).s == Captured(pat, c.s, Search(pat, c.s, 0).value)
  {
  }

  /**
   * A value `str.extract` produces is text of the cell with its pattern's shape;
   * a postcode moreover stands in its pattern's context there.
   */
  lemma ExtractedCode(pat: Pattern, c: Cell)
    requires Extract(pat, c).Str?
    ensures c.Str? && Code(pat, Extract(pat, c).s)
    ensures exists i: nat :: AppearsAt(c.s, Extract(pat, c).s, i)
    ensures pat != Email ==> exists i: nat :: PostcodeContext(pat, c.s, Extract(pat, c).s, i)
  {
    ExtractedLeftmost(pat, c);
    var s := c.s;
    var i := Search(pat, s, 0).value;
    if pat == Email {
      CapturedEmail(s, i);
      CapturedAppears(pat, s, i);
    } else {
      CapturedCode(pat, s, i);
      CapturedInContext(pat, s, i);
    }
  }

  lemma CapturedAppears(pat: Pattern, s: string, i: nat)
    requires MatchAt(pat, s, i).Some?
    ensures exists j: nat :: AppearsAt(s, Captured(pat, s, i), j)
  {
    assert AppearsAt(s, Captured(pat, s, i), MatchAt(pat, s, i).value.start);
  }

  lemma CapturedInContext(pat: Pattern, s: string, i: nat)
    requires pat != Email && MatchAt(pat, s, i).Some?
    requires PostcodeContext(pat, s, Captured(pat, s, i), MatchAt(pat, s, i).value.start)
    ensures exists j: nat :: AppearsAt(s, Captured(pat, s, i), j)
    ensures exists j: nat :: PostcodeContext(pat, s, Captured(pat, s, i), j)
  {
    var start := MatchAt(pat, s, i).value.start;
    assert AppearsAt(s, Captured(pat, s, i), start);
  }

  /** An extracted email is followed by a `.` in the cell, which the capture leaves out. */
  lemma ExtractedEmailDot(c: Cell)
    requires Extract(Email, c).Str?
    ensures exists i: nat :: AppearsAt(c.s, Extract(Email, c).s, i) && i + |Extract(Email, c).s| < |c.s|
                             && c.s[i + |Extract(Email, c).s|] == '.'
  {
    ExtractedLeftmost(Email, c);
    var s := c.s;
    var i := Search(Email, s, 0).value;
    var sp := EmailAt(s, i).value;
    assert EmailShape(s, i, RunEnd(s, i), sp.end);
    assert AppearsAt(s, s[i..sp.end], i);
  }

  /** A postcode is a Canadian, an American or a British code found in the affiliation. */
  lemma PostcodeCode(aff: Cell)
    requires PostcodeOf(aff).Str?
    ensures var m := PostcodeOf(aff).s;
      aff.Str? && (CanadianCode(m) || AmericanCode(m) || BritishCode(m))
  {
    var r := PostcodeOf(aff);
    if r == Extract(Canadian, aff) {
      ExtractedCode(Canadian, aff);
    } else if r == Extract(American, aff) {
      ExtractedCode(American, aff);
    } else {
      ExtractedCode(British, aff);
    }
  }
}
