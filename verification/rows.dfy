/**
 Turning one already-split CSV row into a (station, temperature) pair.
 The two exceptions the processor catches per row become the two error kinds.
 */
module Rows {
  import opened Wrappers
  import opened Text
  import opened Decimal

  /** `IndexError` for a row with fewer than two fields, `ValueError` for a
      second field that `float` rejects. */
  datatype ParseError = IncompleteRow | InvalidNumber

  /** A successfully parsed row: the station name and its temperature. */
  type Reading = (string, real)

  /** The row parser: at least two fields, the first stripped of surrounding
      whitespace is the station, the second alone gives the temperature, and
      any further fields are ignored. */
  function ParseRow(row: seq<string>): (r: Result<Reading, ParseError>)
    ensures |row| < 2 <==> r == Failure(IncompleteRow)
    ensures r == Failure(InvalidNumber) <==> |row| >= 2 && ParseNum(row[1]).None?
    ensures r.Success? ==> |row| >= 2 && r.value.0 == Strip(StrBlanks, row[0]) && ParseNum(row[1]) == Some(r.value.1)
  {
    if |row| < 2 then Failure(IncompleteRow)
    else
      match ParseNum(row[1])
      case None => Failure(InvalidNumber)
      case Some(t) => Success((Strip(StrBlanks, row[0]), t))
  }

  /** Fields after the second never influence the outcome. */
  lemma ExtraFieldsIgnored(row: seq<string>, extra: seq<string>)
    requires |row| == 2
    ensures ParseRow(row + extra) == ParseRow(row)
  {
    assert (row + extra)[0] == row[0] && (row + extra)[1] == row[1];
  }

  /** A parsed station name carries no surrounding whitespace. */
  lemma StationIsTrimmed(row: seq<string>)
    ensures ParseRow(row).Success? ==> Strip(StrBlanks, ParseRow(row).value.0) == ParseRow(row).value.0
  {
    if |row| >= 2 {
      StripIdempotent(StrBlanks, row[0]);
    }
  }

  /** A row written as the measurements file writes it, `name;value-in-tenths`,
      parses back to that name and value. */
  lemma ParseWrittenRow(name: string, tenths: int)
    ensures Strip(StrBlanks, name) == name ==> ParseRow([name, ShowTenths(tenths)]) == Success((name, tenths as real / 10.0))
  {
    ParseShowTenths(tenths);
  }
}
