/**
 * The publication-date search of medlit_fetcher.py: Python's
 * `re.search(r"\d{4} [A-Za-z]{3} \d{1,2}|\d{4}", info)`, written out as a
 * leftmost-match scanner over ASCII text.
 *
 * The regex engine tries every start position from the left; at each one it
 * tries the first alternative (a full "YYYY Mon D" date, whose day takes two
 * digits when it can) before the second (a bare four-digit year). `MatchAt`
 * is that per-position step and `Search` the scan; `IsFullDate` and `IsYear`
 * describe, independently of the engine, which texts the pattern accepts.
 */
module DatePattern {
  import opened Wrappers
  import opened AsciiText

  const NoDate: string := "No date"

  predicate IsDigit(c: char)
  {
    '0' <= c <= '9'
  }

  predicate IsLetter(c: char)
  {
    ('A' <= c <= 'Z') || ('a' <= c <= 'z')
  }

  predicate AllDigits(m: string)
  {
    forall k :: 0 <= k < |m| ==> IsDigit(m[k])
  }

  // ---------------------------------------------------------------- the pattern's language

  /** Text of the second alternative, `\d{4}`. */
  predicate IsYear(m: string)
  {
    |m| == 4 && AllDigits(m)
  }

  /** Text of the first alternative, `\d{4} [A-Za-z]{3} \d{1,2}`. */
  predicate IsFullDate(m: string)
  {
    && (|m| == 10 || |m| == 11)
    && AllDigits(m[..4])
    && m[4] == ' '
    && IsLetter(m[5]) && IsLetter(m[6]) && IsLetter(m[7])
    && m[8] == ' '
    && AllDigits(m[9..])
  }

  /** A text the whole pattern accepts. */
  predicate IsDateText(m: string)
  {
    IsFullDate(m) || IsYear(m)
  }

  // ---------------------------------------------------------------- the engine

  /** Four digits start at index i. */
  predicate YearAt(s: string, i: nat)
  {
    i + 4 <= |s| && IsDigit(s[i]) && IsDigit(s[i + 1]) && IsDigit(s[i + 2]) && IsDigit(s[i + 3])
  }

  /** The first alternative at index i: its length, the day greedy. */
  function FullDateAt(s: string, i: nat): Option<nat>
  {
    if YearAt(s, i) && i + 10 <= |s| && s[i + 4] == ' '
       && IsLetter(s[i + 5]) && IsLetter(s[i + 6]) && IsLetter(s[i + 7])
       && s[i + 8] == ' ' && IsDigit(s[i + 9])
    then
      if i + 11 <= |s| && IsDigit(s[i + 10]) then Some(11) else Some(10)
    else None
  }

  /** Length of the match starting at index i: first alternative first. */
  function MatchAt(s: string, i: nat): Option<nat>
  {
    match FullDateAt(s, i)
    case Some(n) => Some(n)
    case None => if YearAt(s, i) then Some(4) else None
  }

  /**
   * MatchAt is the pattern anchored at i: it matches exactly when some text
   * starting at i is accepted, what it matches is accepted, and it prefers
   * the full date to the bare year, and the longest full date.
   */
  lemma MatchAtSpec(s: string, i: nat)
    requires i <= |s|
    ensures MatchAt(s, i).Some? ==>
      i + MatchAt(s, i).value <= |s| && IsDateText(s[i..i + MatchAt(s, i).value])
    ensures MatchAt(s, i).None? <==>
      forall e :: i <= e <= |s| ==> !IsDateText(s[i..e])
    ensures forall e :: i <= e <= |s| && IsFullDate(s[i..e]) ==>
      MatchAt(s, i).Some? && IsFullDate(s[i..i + MatchAt(s, i).value]) && e - i <= MatchAt(s, i).value
  {
    forall e | i <= e <= |s| && IsDateText(s[i..e])
      ensures MatchAt(s, i).Some?
      ensures IsFullDate(s[i..e]) ==>
        IsFullDate(s[i..i + MatchAt(s, i).value]) && e - i <= MatchAt(s, i).value
    {
      var n := e - i;
      var m := s[i..e];
      assert m[..4] == s[i..i + 4];
      assert m[0] == s[i] && m[1] == s[i + 1] && m[2] == s[i + 2] && m[3] == s[i + 3];
      if IsFullDate(m) {
        assert m[9] == s[i + 9];
        assert n == 11 ==> m[10] == s[i + 10];
      }
    }
    match MatchAt(s, i)
    case None =>
    case Some(n) =>
      var m := s[i..i + n];
      assert forall k :: 0 <= k < n ==> m[k] == s[i + k];
      if n == 4 {
        assert IsYear(m);
      } else {
        assert IsFullDate(m);
      }
  }

  /**
   * `re.search`: the first start position at or after `from` where the
   * pattern matches, with the match length.
   */
  function Search(s: string, from: nat): (r: Option<(nat, nat)>)
    requires from <= |s|
    ensures r.Some? ==>
      && from <= r.value.0 <= |s|
      && MatchAt(s, r.value.0) == Some(r.value.1)
      && forall j :: from <= j < r.value.0 ==> MatchAt(s, j).None?
    ensures r.None? ==> forall j :: from <= j <= |s| ==> MatchAt(s, j).None?
    decreases |s| - from
  {
    match MatchAt(s, from)
    case Some(n) => Some((from, n))
    case None => if from == |s| then None else Search(s, from + 1)
  }

  /** `pub_date`: the matched text, or "No date" when the search fails. */
  function PubDate(info: string): string
  {
    match Search(info, 0)
    case Some((p, n)) =>
      MatchAtSpec(info, p);
      info[p..p + n]
    case None => NoDate
  }

  /**
   * The extracted date is the leftmost accepted text of the publication
   * info: no accepted text starts before it, and it is the full date when
   * one starts at its position. Without any accepted text it is "No date".
   */
  lemma {:induction false} PubDateLeftmost(info: string)
    ensures match Search(info, 0)
      case None =>
        && PubDate(info) == NoDate
        && forall j, e :: 0 <= j <= e <= |info| ==> !IsDateText(info[j..e])
      case Some((p, n)) =>
        && p + n <= |info|
        && PubDate(info) == info[p..p + n]
        && IsDateText(PubDate(info))
        && (forall j, e :: 0 <= j < p && j <= e <= |info| ==> !IsDateText(info[j..e]))
        && (forall e :: p <= e <= |info| && IsFullDate(info[p..e]) ==>
              IsFullDate(PubDate(info)) && e - p <= n)
  {
    match Search(info, 0)
    case None =>
      forall j, e | 0 <= j <= e <= |info|
        ensures !IsDateText(info[j..e])
      {
        MatchAtSpec(info, j);
      }
    case Some((p, n)) =>
      MatchAtSpec(info, p);
      forall j, e | 0 <= j < p && j <= e <= |info|
        ensures !IsDateText(info[j..e])
      {
        MatchAtSpec(info, j);
      }
  }

  /** Every accepted text begins with four digits. */
  lemma DateTextStartsWithYear(m: string)
    requires IsDateText(m)
    ensures YearAt(m, 0)
  {
    if IsFullDate(m) {
      assert m[..4][0] == m[0] && m[..4][3] == m[3];
      assert m[..4][1] == m[1] && m[..4][2] == m[2];
    }
  }

  /**
   * The date is "No date" exactly when no four digits appear in a row;
   * otherwise it is a slice of the publication info.
   */
  lemma NoDateIffNoYear(info: string)
    ensures PubDate(info) == NoDate <==> forall j :: !YearAt(info, j)
    ensures PubDate(info) != NoDate ==>
      exists p :: OccursAt(PubDate(info), info, p)
  {
    PubDateLeftmost(info);
    match Search(info, 0)
    case None =>
      forall j | YearAt(info, j)
        ensures false
      {
        MatchAtSpec(info, j);
      }
    case Some((p, n)) =>
      var d := PubDate(info);
      DateTextStartsWithYear(d);
      assert !IsDigit(NoDate[0]);
      assert d != NoDate;
      assert OccursAt(d, info, p);
      assert YearAt(info, p) by {
        assert info[p] == d[0] && info[p + 1] == d[1] && info[p + 2] == d[2] && info[p + 3] == d[3];
      }
  }

  /** The worked example: the full date wins over the bare year. */
  lemma PubDateExample()
    ensures PubDate("J Med. 2021 Mar 5;12(3):100-110.") == "2021 Mar 5"
  {
    var s := "J Med. 2021 Mar 5;12(3):100-110.";
    var date := "2021 Mar 5";
    assert s[7..17] == date by {
      assert forall k :: 0 <= k < 10 ==> s[7..17][k] == s[7 + k];
      assert s[7] == date[0] && s[8] == date[1] && s[9] == date[2] && s[10] == date[3] && s[11] == date[4];
      assert s[12] == date[5] && s[13] == date[6] && s[14] == date[7] && s[15] == date[8] && s[16] == date[9];
    }
    assert MatchAt(s, 7) == Some(10);
    assert Search(s, 7) == Some((7, 10));
    assert !IsDigit(s[6]) && !IsDigit(s[5]) && !IsDigit(s[4]) && !IsDigit(s[3]);
    assert !IsDigit(s[2]) && !IsDigit(s[1]) && !IsDigit(s[0]);
    assert Search(s, 6) == Search(s, 7);
    assert Search(s, 5) == Search(s, 6);
    assert Search(s, 4) == Search(s, 5);
    assert Search(s, 3) == Search(s, 4);
    assert Search(s, 2) == Search(s, 3);
    assert Search(s, 1) == Search(s, 2);
    assert Search(s, 0) == Search(s, 1);
  }
}
