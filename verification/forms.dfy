/**
 * The two pure checks on form input: the employee phone number at sign-up,
 * and the choice of the sales filter from the `filtro` and `valor_filtro`
 * fields, including the string splitting that choice relies on.
 */
module Forms {
  import opened Wrappers

  // ---------------------------------------------------------------------------
  // Phone number (signup)
  // ---------------------------------------------------------------------------

  predicate IsAsciiDigit(ch: char)
  {
    '0' <= ch <= '9'
  }

  /** Every character is a decimal digit (vacuously so for the empty string). */
  function AllDigits(s: string): (r: bool)
    ensures r <==> forall i :: 0 <= i < |s| ==> IsAsciiDigit(s[i])
    decreases |s|
  {
    |s| == 0 || (IsAsciiDigit(s[0]) && AllDigits(s[1..]))
  }

  /** `str.isdigit`, for ASCII digits: false on the empty string. */
  function IsDigitString(s: string): bool
  {
    |s| > 0 && AllDigits(s)
  }

  /** The sign-up form accepts a phone of exactly ten digits. */
  function ValidPhone(phone: string): (ok: bool)
    ensures ok <==> |phone| == 10 && forall i :: 0 <= i < |phone| ==> IsAsciiDigit(phone[i])
  {
    IsDigitString(phone) && |phone| == 10
  }

  // ---------------------------------------------------------------------------
  // str.split with an explicit separator
  // ---------------------------------------------------------------------------

  /** `sep` occurs in `s` at position `i`. */
  predicate OccursAt(s: string, sep: string, i: nat)
  {
    i + |sep| <= |s| && s[i..i + |sep|] == sep
  }

  /** `sep` occurs somewhere in `s`. */
  predicate Contains(s: string, sep: string)
  {
    exists i: nat :: i <= |s| && OccursAt(s, sep, i)
  }

  /**
   * Python's `s.split(sep)`: cut at each occurrence of `sep`, found left to
   * right without overlapping; there is always at least one part.
   */
  function Split(s: string, sep: string): (parts: seq<string>)
    requires |sep| > 0
    ensures |parts| >= 1
    decreases |s|
  {
    if |s| < |sep| then [s]
    else if s[..|sep|] == sep then [""] + Split(s[|sep|..], sep)
    else
      var rest := Split(s[1..], sep);
      [[s[0]] + rest[0]] + rest[1..]
  }

  /**
   * The first part ends at the leftmost occurrence of the separator, and the
   * remaining parts are the split of what follows that occurrence.
   */
  lemma {:induction false} SplitAtLeftmost(s: string, sep: string, i: nat)
    requires |sep| > 0 && OccursAt(s, sep, i)
    requires forall j: nat :: j < i ==> !OccursAt(s, sep, j)
    ensures Split(s, sep) == [s[..i]] + Split(s[i + |sep|..], sep)
    decreases i
  {
    if i == 0 {
      SplitAtStart(s, sep);
    } else {
      var tail := s[1..];
      LeftmostInTail(s, sep, i);
      SplitAtLeftmost(tail, sep, i - 1);
      assert tail[i - 1 + |sep|..] == s[i + |sep|..];
      SplitConsFirst(s, sep, tail[..i - 1], Split(s[i + |sep|..], sep));
      assert [s[0]] + tail[..i - 1] == s[..i];
    }
  }

  /** A string that starts with the separator has an empty first part. */
  lemma SplitAtStart(s: string, sep: string)
    requires |sep| > 0 && OccursAt(s, sep, 0)
    ensures Split(s, sep) == [s[..0]] + Split(s[|sep|..], sep)
  {
    assert s[..|sep|] == s[0..|sep|];
  }

  /** The first character of `s` heads the first part of the tail's split. */
  lemma SplitConsFirst(s: string, sep: string, first: string, after: seq<string>)
    requires |s| >= |sep| > 0 && s[..|sep|] != sep
    requires Split(s[1..], sep) == [first] + after
    ensures Split(s, sep) == [[s[0]] + first] + after
  {
    SplitStep(s, sep);
    assert ([first] + after)[1..] == after;
  }

  /** A leftmost occurrence past the start is the leftmost occurrence in the tail, one position earlier. */
  lemma LeftmostInTail(s: string, sep: string, i: nat)
    requires |sep| > 0 && i > 0 && OccursAt(s, sep, i)
    requires forall j: nat :: j < i ==> !OccursAt(s, sep, j)
    ensures s[..|sep|] != sep
    ensures OccursAt(s[1..], sep, i - 1)
    ensures forall j: nat :: j < i - 1 ==> !OccursAt(s[1..], sep, j)
  {
    assert !OccursAt(s, sep, 0);
    OccursInTail(s, sep, i);
    forall j: nat | j < i - 1 ensures !OccursAt(s[1..], sep, j) {
      OccursInTail(s, sep, j + 1);
    }
  }

  /** Where `s` does not start with the separator, its first character joins the tail's first part. */
  lemma SplitStep(s: string, sep: string)
    requires |s| >= |sep| > 0 && s[..|sep|] != sep
    ensures Split(s, sep) == [[s[0]] + Split(s[1..], sep)[0]] + Split(s[1..], sep)[1..]
  {
  }

  /** An occurrence at a later position is one position earlier in the tail. */
  lemma OccursInTail(s: string, sep: string, i: nat)
    requires |s| > 0 && i > 0
    ensures OccursAt(s[1..], sep, i - 1) <==> OccursAt(s, sep, i)
  {
    if i + |sep| <= |s| {
      assert s[1..][i - 1..i - 1 + |sep|] == s[i..i + |sep|];
    }
  }

  /** A string without the separator splits into itself alone. */
  lemma {:induction false} SplitWithout(s: string, sep: string)
    requires |sep| > 0 && forall j: nat :: !OccursAt(s, sep, j)
    ensures Split(s, sep) == [s]
    decreases |s|
  {
    if |s| >= |sep| {
      assert !OccursAt(s, sep, 0);
      forall j: nat ensures !OccursAt(s[1..], sep, j) {
        OccursInTail(s, sep, j + 1);
      }
      SplitWithout(s[1..], sep);
      assert [s[0]] + s[1..] == s;
    }
  }

  /** Python's `sep.join(parts)`. */
  function Join(parts: seq<string>, sep: string): string
    requires |parts| >= 1
    decreases |parts|
  {
    if |parts| == 1 then parts[0] else parts[0] + sep + Join(parts[1..], sep)
  }

  lemma JoinConsChar(parts: seq<string>, sep: string, ch: char)
    requires |parts| >= 1
    ensures Join([[ch] + parts[0]] + parts[1..], sep) == [ch] + Join(parts, sep)
  {
    var moved := [[ch] + parts[0]] + parts[1..];
    if |parts| > 1 {
      assert moved[1..] == parts[1..];
    }
  }

  /** Joining the parts with the separator gives back the string that was split. */
  lemma {:induction false} JoinSplit(s: string, sep: string)
    requires |sep| > 0
    ensures Join(Split(s, sep), sep) == s
    decreases |s|
  {
    if |s| < |sep| {
    } else if s[..|sep|] == sep {
      var rest := Split(s[|sep|..], sep);
      JoinSplit(s[|sep|..], sep);
      assert ([""] + rest)[1..] == rest;
      assert s == s[..|sep|] + s[|sep|..];
    } else {
      var rest := Split(s[1..], sep);
      JoinSplit(s[1..], sep);
      JoinConsChar(rest, sep, s[0]);
      assert s == [s[0]] + s[1..];
    }
  }

  /** No part of a split still holds the separator. */
  lemma {:induction false} SplitPartsFree(s: string, sep: string)
    requires |sep| > 0
    ensures forall k :: 0 <= k < |Split(s, sep)| ==> !Contains(Split(s, sep)[k], sep)
    decreases |s|
  {
    var parts := Split(s, sep);
    if |s| < |sep| {
      assert parts == [s];
    } else if s[..|sep|] == sep {
      var rest := Split(s[|sep|..], sep);
      SplitPartsFree(s[|sep|..], sep);
      forall k | 0 <= k < |parts| ensures !Contains(parts[k], sep) {
        if k > 0 {
          assert parts[k] == rest[k - 1];
        }
      }
    } else {
      var rest := Split(s[1..], sep);
      SplitPartsFree(s[1..], sep);
      JoinSplit(s, sep);
      var first := [s[0]] + rest[0];
      assert parts[0] == first;
      PrefixOfJoin(parts, sep);
      assert s[..|first|] == first;
      ConsCharFree(s, sep, rest[0]);
      forall k | 0 <= k < |parts| ensures !Contains(parts[k], sep) {
        if k > 0 {
          assert parts[k] == rest[k];
        }
      }
    }
  }

  /**
   * A part that starts with the first character of `s`, where `s` does not
   * start with the separator, stays free of it when the rest of the part is.
   */
  lemma ConsCharFree(s: string, sep: string, tail: string)
    requires |s| >= |sep| > 0 && s[..|sep|] != sep
    requires 1 + |tail| <= |s| && s[..1 + |tail|] == [s[0]] + tail
    requires !Contains(tail, sep)
    ensures !Contains([s[0]] + tail, sep)
  {
    var first := [s[0]] + tail;
    if Contains(first, sep) {
      var i: nat :| i <= |first| && OccursAt(first, sep, i);
      if i > 0 {
        assert tail[i - 1..i - 1 + |sep|] == first[i..i + |sep|];
        assert OccursAt(tail, sep, i - 1);
      }
    }
  }

  lemma PrefixOfJoin(parts: seq<string>, sep: string)
    requires |parts| >= 1
    ensures |parts[0]| <= |Join(parts, sep)| && Join(parts, sep)[..|parts[0]|] == parts[0]
  {
  }

  // ---------------------------------------------------------------------------
  // Sales filter (ventas)
  // ---------------------------------------------------------------------------

  /** The WHERE clause the sales page runs, with its parameters. */
  datatype SalesFilter =
    | Today                               // DATE(v.fecha) = CURDATE()
    | OnDay(day: string)                  // DATE(v.fecha) = day
    | InWeek(year: string, week: string)  // YEAR(v.fecha) = year AND WEEK(v.fecha, 1) = week
    | InMonth(year: string, month: string) // YEAR(v.fecha) = year AND MONTH(v.fecha) = month
    | InYear(year: string)                // YEAR(v.fecha) = year
    | Unfiltered                          // no WHERE clause

  /** Unpacking a split into two names failed: it gave this many parts. */
  datatype FilterError = UnpackError(parts: nat)

  /** The `filtro` field, defaulting to "dia" when absent. */
  function FilterName(filtro: Option<string>): (name: string)
    ensures filtro.None? ==> name == "dia"
    ensures filtro.Some? ==> name == filtro.value
  {
    match filtro
    case None => "dia"
    case Some(f) => f
  }

  /** Split into exactly two parts, or fail as a two-name unpacking does. */
  function SplitPair(v: string, sep: string): (r: Result<(string, string), FilterError>)
    requires |sep| > 0
    ensures r.Success? <==> |Split(v, sep)| == 2
    ensures r.Success? ==> r.value.0 + sep + r.value.1 == v
    ensures r.Success? ==> !Contains(r.value.0, sep) && !Contains(r.value.1, sep)
  {
    var parts := Split(v, sep);
    JoinSplit(v, sep);
    SplitPartsFree(v, sep);
    if |parts| == 2 then
      assert Join(parts, sep) == parts[0] + sep + parts[1];
      Success((parts[0], parts[1]))
    else Failure(UnpackError(|parts|))
  }

  /**
   * The filter for the sales list and total. With no value (absent or empty)
   * the page shows today's sales; "semana" takes a value "YYYY-Www" and
   * "mes" a value "YYYY-MM"; an unknown filter name with a value filters nothing.
   */
  function ChooseSalesFilter(filtro: Option<string>, valor: Option<string>): (r: Result<SalesFilter, FilterError>)
    ensures r == Success(Today) <==> valor.None? || valor == Some("")
    ensures valor.Some? && valor.value != "" && FilterName(filtro) == "dia" ==> r == Success(OnDay(valor.value))
    ensures valor.Some? && valor.value != "" && FilterName(filtro) == "ano" ==> r == Success(InYear(valor.value))
    ensures valor.Some? && valor.value != "" && FilterName(filtro) == "semana" && |Split(valor.value, "-W")| == 2 ==>
      r == Success(InWeek(Split(valor.value, "-W")[0], Split(valor.value, "-W")[1]))
    ensures valor.Some? && valor.value != "" && FilterName(filtro) == "mes" && |Split(valor.value, "-")| == 2 ==>
      r == Success(InMonth(Split(valor.value, "-")[0], Split(valor.value, "-")[1]))
    ensures r == Success(Unfiltered) <==>
      valor.Some? && valor.value != "" && FilterName(filtro) !in {"dia", "semana", "mes", "ano"}
    ensures r.Failure? <==>
      valor.Some? && valor.value != "" &&
      ((FilterName(filtro) == "semana" && |Split(valor.value, "-W")| != 2) ||
       (FilterName(filtro) == "mes" && |Split(valor.value, "-")| != 2))
    ensures r.Success? && r.value.OnDay? ==> FilterName(filtro) == "dia" && valor == Some(r.value.day)
    ensures r.Success? && r.value.InYear? ==> FilterName(filtro) == "ano" && valor == Some(r.value.year)
    ensures r.Success? && r.value.InWeek? ==>
      FilterName(filtro) == "semana" && valor == Some(r.value.year + "-W" + r.value.week) &&
      !Contains(r.value.year, "-W") && !Contains(r.value.week, "-W")
    ensures r.Success? && r.value.InMonth? ==>
      FilterName(filtro) == "mes" && valor == Some(r.value.year + "-" + r.value.month) &&
      !Contains(r.value.year, "-") && !Contains(r.value.month, "-")
  {
    match valor
    case None => Success(Today)
    case Some(v) =>
      if v == "" then Success(Today)
      else
        var name := FilterName(filtro);
        if name == "dia" then Success(OnDay(v))
        else if name == "semana" then
          match SplitPair(v, "-W")
          case Success(p) => Success(InWeek(p.0, p.1))
          case Failure(e) => Failure(e)
        else if name == "mes" then
          match SplitPair(v, "-")
          case Success(p) => Success(InMonth(p.0, p.1))
          case Failure(e) => Failure(e)
        else if name == "ano" then Success(InYear(v))
        else Success(Unfiltered)
  }
}
