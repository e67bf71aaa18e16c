/**
 * The text the metadata store builds itself: the decimal rendering of a
 * ROWID (as `StringBuilder.append(int)` and string concatenation write it)
 * and the `DELETE` statement with its comma-separated ROWID list, together
 * with readers that recover the numbers from that text.
 */
module SqlText {
  import opened Options

  predicate IsDigit(c: char) {
    '0' <= c <= '9'
  }

  function DigitChar(d: int): (c: char)
    requires 0 <= d < 10
    ensures IsDigit(c)
  {
    (48 + d) as char
  }

  function DigitValue(c: char): (d: int)
    requires IsDigit(c)
    ensures 0 <= d < 10 && DigitChar(d) == c
  {
    c as int - 48
  }

  /** The decimal digits of `n`, most significant first, without leading zeros. */
  function NatDigits(n: nat): (s: string)
    ensures 1 <= |s|
    ensures forall i :: 0 <= i < |s| ==> IsDigit(s[i])
    ensures 1 < |s| ==> s[0] != '0'
    decreases n
  {
    if n < 10 then [DigitChar(n)] else NatDigits(n / 10) + [DigitChar(n % 10)]
  }

  /** Java's decimal rendering of an integer: a leading `-` for a negative one. */
  function Decimal(n: int): (s: string)
    ensures 1 <= |s| && ',' !in s
  {
    if n < 0 then "-" + NatDigits(-n) else NatDigits(n)
  }

  predicate AllDigits(s: string) {
    forall i :: 0 <= i < |s| ==> IsDigit(s[i])
  }

  /** The value of a non-empty run of decimal digits, read from the back. */
  function DigitsValue(s: string): (n: nat)
    requires 1 <= |s| && AllDigits(s)
    decreases |s|
  {
    if |s| == 1 then DigitValue(s[0])
    else DigitsValue(s[..|s| - 1]) * 10 + DigitValue(s[|s| - 1])
  }

  /** Reads an optionally signed decimal integer; `None` for anything else. */
  function ParseDecimal(s: string): (r: Option<int>)
    ensures r.Some? ==> 1 <= |s|
  {
    if 1 <= |s| && AllDigits(s) then Some(DigitsValue(s))
    else if 2 <= |s| && s[0] == '-' && AllDigits(s[1..]) then Some(-(DigitsValue(s[1..]) as int))
    else None
  }

  lemma {:induction false} NatDigitsValue(n: nat)
    ensures AllDigits(NatDigits(n)) && DigitsValue(NatDigits(n)) == n
    decreases n
  {
    if n >= 10 {
      NatDigitsValue(n / 10);
      var s := NatDigits(n);
      assert s[..|s| - 1] == NatDigits(n / 10);
      assert DigitValue(s[|s| - 1]) == n % 10;
    }
  }

  /** Reading back what `Decimal` wrote gives the number. */
  lemma DecimalRoundTrip(n: int)
    ensures ParseDecimal(Decimal(n)) == Some(n)
  {
    if n < 0 {
      NatDigitsValue(-n);
      var s := Decimal(n);
      assert s[1..] == NatDigits(-n);
      assert !IsDigit(s[0]);
    } else {
      NatDigitsValue(n);
    }
  }

  /** Distinct numbers are written differently. */
  lemma DecimalInjective(a: int, b: int)
    ensures Decimal(a) == Decimal(b) <==> a == b
  {
    DecimalRoundTrip(a);
    DecimalRoundTrip(b);
  }

  // ---------------------------------------------------------------------------
  // Comma-separated lists

  /** The ROWIDs written one after another, separated by commas and nothing else. */
  function Join(ids: seq<int>): (r: string)
    ensures r == "" <==> ids == []
    decreases |ids|
  {
    if ids == [] then ""
    else if |ids| == 1 then Decimal(ids[0])
    else Join(ids[..|ids| - 1]) + "," + Decimal(ids[|ids| - 1])
  }

  /** The position of the last comma in `s`, if any. */
  function LastComma(s: string): (r: Option<nat>)
    ensures r.Some? ==> r.value < |s| && s[r.value] == ',' && ',' !in s[r.value + 1..]
    ensures r.None? ==> ',' !in s
    decreases |s|
  {
    if s == [] then None
    else if s[|s| - 1] == ',' then Some(|s| - 1)
    else
      var r := LastComma(s[..|s| - 1]);
      assert s == s[..|s| - 1] + [s[|s| - 1]];
      if r.Some? then
        assert s[r.value + 1..] == s[..|s| - 1][r.value + 1..] + [s[|s| - 1]];
        r
      else
        r
  }

  /** Reads a non-empty comma-separated list of integers, splitting at its last comma. */
  function ParseList(s: string): Option<seq<int>>
    decreases |s|
  {
    match LastComma(s)
    case None =>
      (match ParseDecimal(s)
       case Some(n) => Some([n])
       case None => None)
    case Some(c) =>
      match (ParseList(s[..c]), ParseDecimal(s[c + 1..]))
      case (Some(front), Some(n)) => Some(front + [n])
      case _ => None
  }

  /** Reads what `Join` writes: the empty text is the empty list. */
  function ParseIds(s: string): Option<seq<int>> {
    if s == "" then Some([]) else ParseList(s)
  }

  lemma LastCommaOfJoin(a: string, b: string)
    requires ',' !in b
    ensures LastComma(a + "," + b) == Some(|a|)
  {
    var s := a + "," + b;
    var r := LastComma(s);
    assert s[|a|] == ',';
    assert ',' in s;
  }

  /** Splitting at a comma followed by one number. */
  lemma ParseListOfComma(a: string, b: string, front: seq<int>, n: int)
    requires ',' !in b && ParseList(a) == Some(front) && ParseDecimal(b) == Some(n)
    ensures ParseList(a + "," + b) == Some(front + [n])
  {
    var s := a + "," + b;
    LastCommaOfJoin(a, b);
    assert s[..|a|] == a;
    assert s[|a| + 1..] == b;
  }

  /** Appending one ROWID to a list appends a comma and its digits, except after nothing. */
  lemma JoinSnoc(ids: seq<int>, i: int)
    requires 0 <= i < |ids|
    ensures Join(ids[..i + 1]) == if i == 0 then Decimal(ids[0]) else Join(ids[..i]) + "," + Decimal(ids[i])
  {
    assert ids[..i + 1][..i] == ids[..i];
  }

  /**
   * One step of building the list behind a fixed prefix: a comma unless it
   * is the first ROWID, then the ROWID's digits.
   */
  lemma JoinStep(prefix: string, ids: seq<int>, i: int)
    requires 0 <= i < |ids|
    ensures (if i == 0 then prefix + Join(ids[..i]) else prefix + Join(ids[..i]) + ",") + Decimal(ids[i])
      == prefix + Join(ids[..i + 1])
  {
    JoinSnoc(ids, i);
    if i == 0 {
      assert Join(ids[..i]) == "";
      assert prefix + "" == prefix;
    } else {
      assert prefix + Join(ids[..i]) + "," + Decimal(ids[i]) == prefix + (Join(ids[..i]) + "," + Decimal(ids[i]));
    }
  }

  lemma WholePrefix(ids: seq<int>)
    ensures ids[..|ids|] == ids
  {
  }

  lemma LastSplit(ids: seq<int>)
    requires ids != []
    ensures ids[..|ids| - 1] + [ids[|ids| - 1]] == ids
  {
  }

  lemma {:induction false} ParseListOfJoin(ids: seq<int>)
    requires ids != []
    ensures ParseList(Join(ids)) == Some(ids)
    decreases |ids|
  {
    var n := |ids|;
    if n == 1 {
      DecimalRoundTrip(ids[0]);
      assert ids == [ids[0]];
    } else {
      var front, last := ids[..n - 1], ids[n - 1];
      ParseListOfJoin(front);
      DecimalRoundTrip(last);
      ParseListOfComma(Join(front), Decimal(last), front, last);
      LastSplit(ids);
    }
  }

  /** Reading back the joined list gives the ROWIDs, in order. */
  lemma JoinRoundTrip(ids: seq<int>)
    ensures ParseIds(Join(ids)) == Some(ids)
  {
    if ids != [] {
      ParseListOfJoin(ids);
      assert Join(ids) != "";
    }
  }

  // ---------------------------------------------------------------------------
  // The DELETE statement

  const DeletePrefix: string := "DELETE from cache WHERE ROWID in ("
  const DeleteSuffix: string := ")"

  /** The statement `deleteKeys` sends for a list of ROWIDs. */
  function DeleteSql(ids: seq<int>): string {
    DeletePrefix + Join(ids) + DeleteSuffix
  }

  /** The ROWID list of a statement of the `DeleteSql` shape. */
  function DeletedIds(sql: string): Option<seq<int>> {
    var p, q := |DeletePrefix|, |DeleteSuffix|;
    if p + q <= |sql| && sql[..p] == DeletePrefix && sql[|sql| - q..] == DeleteSuffix then
      ParseIds(sql[p..|sql| - q])
    else
      None
  }

  /** The statement names exactly the ROWIDs it was built from, in order. */
  lemma DeleteSqlRoundTrip(ids: seq<int>)
    ensures DeletedIds(DeleteSql(ids)) == Some(ids)
  {
    var sql := DeleteSql(ids);
    var p, q := |DeletePrefix|, |DeleteSuffix|;
    assert sql[..p] == DeletePrefix;
    assert sql[|sql| - q..] == DeleteSuffix;
    assert sql[p..|sql| - q] == Join(ids);
    JoinRoundTrip(ids);
  }

  /** Different ROWID lists give different statements. */
  lemma DeleteSqlInjective(a: seq<int>, b: seq<int>)
    ensures DeleteSql(a) == DeleteSql(b) <==> a == b
  {
    DeleteSqlRoundTrip(a);
    DeleteSqlRoundTrip(b);
  }
}
