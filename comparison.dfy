/**
 * The mismatch flags of one report against its reference row: one flag per
 * column, 1 where the two cells disagree in number, in unit presence or in
 * unit text, and 0 elsewhere. The identifier column is never flagged.
 *
 * Cells are the text of the two values. The numeric comparison of the first
 * tokens is a parameter `same`: it holds when the two numbers are equal.
 */
module Comparison {
  import opened PyText

  /** The separator between a number and its unit. */
  const Space: string := " "

  /** The tokens of a cell, split on single spaces. */
  function Tokens(cell: string): (tokens: seq<string>)
    ensures |tokens| >= 1
  {
    Split(cell, Space)
  }

  /**
   * The decision table for one pair of cells: the token counts differ, or
   * both cells have exactly two tokens whose second tokens differ, or the
   * first tokens are different numbers.
   */
  predicate Mismatch(c: string, h: string, same: (string, string) -> bool)
  {
    var cv, hv := Tokens(c), Tokens(h);
    || |cv| != |hv|
    || (|cv| == 2 && |hv| == 2 && cv[1] != hv[1])
    || !same(cv[0], hv[0])
  }

  /**
   * The flag of one pair of cells as the comparison computes it: the numeric
   * check gives a provisional flag, which a difference in token count, and
   * then a difference between two second tokens, force to 1.
   */
  function CellFlag(c: string, h: string, same: (string, string) -> bool): (flag: nat)
    ensures flag <= 1
    ensures flag == 1 <==> Mismatch(c, h, same)
  {
    var cv, hv := Tokens(c), Tokens(h);
    var numeric := if same(cv[0], hv[0]) then 0 else 1;
    var counted := if |cv| != |hv| then 1 else numeric;
    if |cv| == 2 && |hv| == 2 && cv[1] != hv[1] then 1 else counted
  }

  /** A cell as a number, optionally followed by a space and a unit. */
  datatype Reading = Reading(number: string, unit: Option<string>)

  /** Neither part of the reading holds a space. */
  predicate SpaceFree(r: Reading)
  {
    ' ' !in r.number && (r.unit.Some? ==> ' ' !in r.unit.value)
  }

  /** The text of a reading: `number`, or `number unit`. */
  function Render(r: Reading): string
  {
    match r.unit
    case None => r.number
    case Some(u) => r.number + Space + u
  }

  /** The tokens of a rendered reading are its number and, when present, its unit. */
  lemma TokensOfReading(r: Reading)
    requires SpaceFree(r)
    ensures r.unit.None? ==> Tokens(Render(r)) == [r.number]
    ensures r.unit.Some? ==> Tokens(Render(r)) == [r.number, r.unit.value]
  {
    match r.unit
    case None =>
      SplitLacksChar(r.number, Space);
    case Some(u) =>
      SplitAfterFirst(r.number, u, Space);
      SplitLacksChar(u, Space);
  }

  /**
   * Two readings are flagged exactly when their numbers differ or their
   * units differ, a unit on one side only counting as a difference.
   */
  lemma ReadingFlag(a: Reading, b: Reading, same: (string, string) -> bool)
    requires SpaceFree(a) && SpaceFree(b)
    ensures CellFlag(Render(a), Render(b), same) == 0 <==> same(a.number, b.number) && a.unit == b.unit
  {
    TokensOfReading(a);
    TokensOfReading(b);
  }

  /**
   * Cells of three tokens are compared on their first token and their token
   * count only: the unit after the number is not looked at.
   */
  lemma ThreeTokenCellsIgnoreUnits(n1: string, u1: string, w1: string, n2: string, u2: string, w2: string,
                                   same: (string, string) -> bool)
    requires ' ' !in n1 && ' ' !in u1 && ' ' !in w1 && ' ' !in n2 && ' ' !in u2 && ' ' !in w2
    requires same(n1, n2)
    ensures CellFlag(n1 + Space + u1 + Space + w1, n2 + Space + u2 + Space + w2, same) == 0
  {
    ThreeTokens(n1, u1, w1);
    ThreeTokens(n2, u2, w2);
  }

  /** A cell of three space-free parts joined by spaces has those three tokens. */
  lemma ThreeTokens(n: string, u: string, w: string)
    requires ' ' !in n && ' ' !in u && ' ' !in w
    ensures Tokens(n + Space + u + Space + w) == [n, u, w]
  {
    assert n + Space + u + Space + w == n + Space + (u + Space + w);
    SplitAfterFirst(n, u + Space + w, Space);
    SplitAfterFirst(u, w, Space);
    SplitLacksChar(w, Space);
  }

  /**
   * The mismatch vector: one flag per column, 0 for the identifier column
   * and the cell flag elsewhere.
   */
  function MismatchVector(csvRow: seq<string>, htmlRow: seq<string>, columns: nat,
                          same: (string, string) -> bool): (flags: seq<nat>)
    requires columns <= |csvRow| && columns <= |htmlRow|
    ensures |flags| == columns
    ensures columns > 0 ==> flags[0] == 0
    ensures forall k :: 0 <= k < columns ==> flags[k] <= 1
    ensures forall k :: 1 <= k < columns ==> (flags[k] == 1 <==> Mismatch(csvRow[k], htmlRow[k], same))
  {
    seq(columns, k requires 0 <= k < columns => if k == 0 then 0 else CellFlag(csvRow[k], htmlRow[k], same))
  }

  /**
   * The comparison loop: start from a list of zeros, one per column, and
   * write a 1 at every column after the first whose cells are flagged.
   */
  method CompareDataFrames(csvRow: seq<string>, htmlRow: seq<string>, columns: nat,
                           same: (string, string) -> bool)
    returns (misdata: seq<nat>)
    requires columns <= |csvRow| && columns <= |htmlRow|
    ensures misdata == MismatchVector(csvRow, htmlRow, columns, same)
  {
    ghost var spec := MismatchVector(csvRow, htmlRow, columns, same);
    var flags := new nat[columns](_ => 0);
    var i := 1;
    while i < columns
      invariant 1 <= i
      invariant forall k :: 0 <= k < columns ==> flags[k] == if k < i then spec[k] else 0
    {
      var check := CellFlag(csvRow[i], htmlRow[i], same);
      if check == 1 {
        flags[i] := check;
      }
      i := i + 1;
    }
    misdata := flags[..];
  }

  /**
   * Five compared columns whose cells agree except that the second carries a
   * unit in the report only: the vector flags that column alone. The numeric
   * check need only hold of the five numbers themselves.
   */
  lemma UnitOnOneSideScenario(id: string, a: string, b: string, c: string, d: string, e: string, unit: string,
                              same: (string, string) -> bool)
    requires ' ' !in a && ' ' !in b && ' ' !in c && ' ' !in d && ' ' !in e && ' ' !in unit
    requires same(a, a) && same(c, c) && same(d, d) && same(e, e)
    ensures MismatchVector([id, a, b, c, d, e], [id, a, b + Space + unit, c, d, e], 6, same) == [0, 0, 1, 0, 0, 0]
  {
    var csvRow, htmlRow := [id, a, b, c, d, e], [id, a, b + Space + unit, c, d, e];
    SameReadingUnflagged(a, same);
    SameReadingUnflagged(c, same);
    SameReadingUnflagged(d, same);
    SameReadingUnflagged(e, same);
    ReadingFlag(Reading(b, None), Reading(b, Some(unit)), same);
    var flags := MismatchVector(csvRow, htmlRow, 6, same);
    assert flags[1] == 0 && flags[2] == 1 && flags[3] == 0 && flags[4] == 0 && flags[5] == 0;
  }

  /**
   * A reference row `Case_041, 0.85, 250.0, 500, -10, 1.2` against a report that
   * gives the speed as `250.0 m/s`: only that column is flagged.
   */
  lemma SpeedUnitScenario(same: (string, string) -> bool)
    requires same("0.85", "0.85") && same("500", "500") && same("-10", "-10") && same("1.2", "1.2")
    ensures MismatchVector(["Case_041", "0.85", "250.0", "500", "-10", "1.2"],
                           ["Case_041", "0.85", "250.0 m/s", "500", "-10", "1.2"], 6, same)
            == [0, 0, 1, 0, 0, 0]
  {
    assert "250.0 m/s" == "250.0" + Space + "m/s";
    UnitOnOneSideScenario("Case_041", "0.85", "250.0", "500", "-10", "1.2", "m/s", same);
  }

  /** A space-free number compared with itself is not flagged when `same` holds of it. */
  lemma SameReadingUnflagged(n: string, same: (string, string) -> bool)
    requires ' ' !in n && same(n, n)
    ensures CellFlag(n, n, same) == 0
  {
    ReadingFlag(Reading(n, None), Reading(n, None), same);
  }
}
