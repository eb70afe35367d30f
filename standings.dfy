/** The driver-standings table of the home page: the standings records of a
    season, their projection into table rows, the test whether the season has
    begun, and the podium highlight of the first three rows. */
module Standings {
  import opened JsNumbers
  import opened JsParseInt

  // ---------------------------------------------------------------------
  // Records
  // ---------------------------------------------------------------------

  datatype Constructor = Constructor(constructorId: string, name: string, nationality: string)

  datatype Driver = Driver(
    code: string,
    dateOfBirth: string,
    driverId: string,
    familyName: string,
    givenName: string,
    nationality: string,
    permanentNumber: string)

  /** One driver's entry in a season's standings; every number arrives as text. */
  datatype DriverRow = DriverRow(
    constructors: seq<Constructor>,
    driver: Driver,
    points: string,
    position: string,
    wins: string)

  /** One row of the standings table. */
  datatype DriverRowStats = DriverRowStats(position: string, name: string, wins: string, points: string)

  // ---------------------------------------------------------------------
  // formatDriverRow
  // ---------------------------------------------------------------------

  /** The displayed name, "{givenName} {familyName}". */
  function FullName(givenName: string, familyName: string): string
  {
    givenName + " " + familyName
  }

  function FormatEntry(entry: DriverRow): DriverRowStats
  {
    DriverRowStats(entry.position, FullName(entry.driver.givenName, entry.driver.familyName), entry.wins, entry.points)
  }

  /** The table rows of a season: one row per entry, in the entries' order,
      keeping position, wins and points as they are and joining the two names. */
  function FormatDriverRow(season: seq<DriverRow>): (rows: seq<DriverRowStats>)
    ensures |rows| == |season|
    ensures forall i :: 0 <= i < |season| ==>
              && rows[i].position == season[i].position
              && rows[i].name == season[i].driver.givenName + " " + season[i].driver.familyName
              && rows[i].wins == season[i].wins
              && rows[i].points == season[i].points
  {
    if season == [] then [] else [FormatEntry(season[0])] + FormatDriverRow(season[1..])
  }

  /** Formatting is done entry by entry: the rows of two lists one after the
      other are the rows of the joined list. */
  lemma {:induction false} FormatDriverRowAppend(a: seq<DriverRow>, b: seq<DriverRow>)
    ensures FormatDriverRow(a + b) == FormatDriverRow(a) + FormatDriverRow(b)
  {
    if a != [] {
      assert (a + b)[1..] == a[1..] + b;
      FormatDriverRowAppend(a[1..], b);
    }
  }

  /** Two entries that agree on position, wins, points and the two names give
      the same row: constructors and every other driver field are dropped. */
  predicate SameDisplayedFields(x: DriverRow, y: DriverRow)
  {
    && x.position == y.position
    && x.wins == y.wins
    && x.points == y.points
    && x.driver.givenName == y.driver.givenName
    && x.driver.familyName == y.driver.familyName
  }

  lemma FormatDriverRowIgnoresOtherFields(a: seq<DriverRow>, b: seq<DriverRow>)
    requires |a| == |b|
    requires forall i :: 0 <= i < |a| ==> SameDisplayedFields(a[i], b[i])
    ensures FormatDriverRow(a) == FormatDriverRow(b)
  {
    var ra, rb := FormatDriverRow(a), FormatDriverRow(b);
    assert forall i :: 0 <= i < |ra| ==> ra[i] == rb[i];
  }

  /** The index of the first space in `s`, or |s| when it has none. */
  function FirstSpace(s: string): (k: nat)
    ensures k <= |s|
    ensures forall i :: 0 <= i < k ==> s[i] != ' '
    ensures k < |s| ==> s[k] == ' '
  {
    if s == [] || s[0] == ' ' then 0 else 1 + FirstSpace(s[1..])
  }

  /** When the given name holds no space, the displayed name splits back at
      its first space into the given name and the family name. */
  lemma FullNameSplits(givenName: string, familyName: string)
    requires ' ' !in givenName
    ensures var name := FullName(givenName, familyName);
            var k := FirstSpace(name);
            k < |name| && name[..k] == givenName && name[k + 1..] == familyName
  {
    var name := FullName(givenName, familyName);
    var k := FirstSpace(name);
    assert name[|givenName|] == ' ';
    assert forall i :: 0 <= i < |givenName| ==> name[i] == givenName[i];
    assert k == |givenName|;
  }

  // ---------------------------------------------------------------------
  // hasSeasonBegun
  // ---------------------------------------------------------------------

  /** The fold of hasSeasonBegun, `season.reduce((total, current) => total +
      parseInt(current.points), total)`, from left to right. */
  function SumPoints(season: seq<DriverRow>, total: JsNumber): JsNumber
  {
    if season == [] then total else SumPoints(season[1..], Add(total, ParseInt(season[0].points)))
  }

  /** Boolean(sum of the parsed points, starting at 0). */
  function HasSeasonBegun(season: seq<DriverRow>): bool
  {
    ToBoolean(SumPoints(season, Num(0)))
  }

  /** Every entry's points string has leading digits. */
  predicate AllPointsNumeric(season: seq<DriverRow>)
  {
    forall i :: 0 <= i < |season| ==> ParseInt(season[i].points).Num?
  }

  /** The integer an entry's points string starts with (0 when it has none). */
  function PointsValue(entry: DriverRow): int
  {
    match ParseInt(entry.points)
    case Num(v) => v
    case NaN => 0
  }

  /** The total of the entries' points, summed from the right. */
  function PointsTotal(season: seq<DriverRow>): int
  {
    if season == [] then 0 else PointsValue(season[0]) + PointsTotal(season[1..])
  }

  /** The fold is NaN as soon as the start or one entry is NaN, and otherwise
      the start plus the total of the parsed points. */
  lemma {:induction false} SumPointsTotal(season: seq<DriverRow>, total: JsNumber)
    ensures SumPoints(season, total) ==
              if total.Num? && AllPointsNumeric(season) then Num(total.value + PointsTotal(season)) else NaN
  {
    if season != [] {
      var next := Add(total, ParseInt(season[0].points));
      SumPointsTotal(season[1..], next);
      assert AllPointsNumeric(season) <==>
               ParseInt(season[0].points).Num? && AllPointsNumeric(season[1..]) by {
        if ParseInt(season[0].points).Num? && AllPointsNumeric(season[1..]) {
          forall i | 0 <= i < |season| ensures ParseInt(season[i].points).Num? {
            if i > 0 { assert season[i] == season[1..][i - 1]; }
          }
        }
      }
    }
  }

  /** The season has begun exactly when every points string parses and the
      points add up to a non-zero total. */
  lemma HasSeasonBegunIff(season: seq<DriverRow>)
    ensures HasSeasonBegun(season) <==> AllPointsNumeric(season) && PointsTotal(season) != 0
  {
    SumPointsTotal(season, Num(0));
  }

  /** With no entries the fold stays at its start 0, so the season has not begun. */
  lemma HasSeasonBegunEmpty()
    ensures !HasSeasonBegun([])
  {
  }

  /** One points string without leading digits makes the whole sum NaN, so
      the season counts as not begun whatever the other entries hold. */
  lemma NaNPointsPoisonSum(season: seq<DriverRow>, i: int)
    requires 0 <= i < |season| && ParseInt(season[i].points) == NaN
    ensures SumPoints(season, Num(0)) == NaN
    ensures !HasSeasonBegun(season)
  {
    SumPointsTotal(season, Num(0));
  }

  /** A points string that is nothing but decimal digits. */
  predicate IsPlainDecimal(s: string)
  {
    s != [] && forall i :: 0 <= i < |s| ==> IsDecimalDigit(s[i])
  }

  lemma PlainDecimalParses(s: string)
    requires IsPlainDecimal(s)
    ensures ParseInt(s) == Num(DecimalValue(s))
  {
    assert AllRadixDigits(s, 10) by {
      forall i | 0 <= i < |s| ensures IsRadixDigit(s[i], 10) {
        assert IsDecimalDigit(s[i]);
      }
    }
    assert |s| >= 2 ==> IsDecimalDigit(s[1]);
    ParseIntDecimalPrefix("", NoSign, s, "");
    assert "" + NoSign.Text() + s + "" == s;
  }

  /** A string of decimal digits denotes zero exactly when every digit is '0'. */
  lemma {:induction false} DecimalValueZero(s: string)
    requires forall i :: 0 <= i < |s| ==> IsDecimalDigit(s[i])
    ensures DecimalValue(s) == 0 <==> forall i :: 0 <= i < |s| ==> s[i] == '0'
  {
    if s != [] {
      var init := s[..|s| - 1];
      DecimalValueZero(init);
      assert forall i :: 0 <= i < |init| ==> init[i] == s[i];
      assert DigitValue(s[|s| - 1]) == 0 <==> s[|s| - 1] == '0';
    }
  }

  /** A sum of non-negative totals is zero exactly when every term is. */
  lemma {:induction false} PointsTotalZero(season: seq<DriverRow>)
    requires forall i :: 0 <= i < |season| ==> PointsValue(season[i]) >= 0
    ensures PointsTotal(season) >= 0
    ensures PointsTotal(season) == 0 <==> forall i :: 0 <= i < |season| ==> PointsValue(season[i]) == 0
  {
    if season != [] {
      assert forall i :: 1 <= i < |season| ==> season[1..][i - 1] == season[i];
      PointsTotalZero(season[1..]);
    }
  }

  /** With plain decimal points strings the season has begun exactly when some
      entry's points contain a digit other than '0'. */
  lemma HasSeasonBegunPlainPoints(season: seq<DriverRow>)
    requires forall i :: 0 <= i < |season| ==> IsPlainDecimal(season[i].points)
    ensures HasSeasonBegun(season) <==>
              exists i, j :: 0 <= i < |season| && 0 <= j < |season[i].points| && season[i].points[j] != '0'
  {
    forall i | 0 <= i < |season|
      ensures ParseInt(season[i].points) == Num(DecimalValue(season[i].points))
      ensures PointsValue(season[i]) == 0 <==> forall j :: 0 <= j < |season[i].points| ==> season[i].points[j] == '0'
    {
      PlainDecimalParses(season[i].points);
      DecimalValueZero(season[i].points);
    }
    PointsTotalZero(season);
    HasSeasonBegunIff(season);
  }

  // ---------------------------------------------------------------------
  // getClassName
  // ---------------------------------------------------------------------

  /** The highlight of the first three places, in order. */
  const PodiumClasses: seq<string> := ["text-red-400", "text-orange-400", "text-yellow-400"]

  /** The class of the table row at `index`: a podium colour for the first
      three rows once the season has begun, no class otherwise. */
  function GetClassName(index: int, hasSeasonBegun: bool): (className: string)
    ensures className != "" <==> hasSeasonBegun && 0 <= index < |PodiumClasses|
    ensures className != "" ==> className == PodiumClasses[index]
  {
    if !hasSeasonBegun then ""
    else if index == 0 then "text-red-400"
    else if index == 1 then "text-orange-400"
    else if index == 2 then "text-yellow-400"
    else ""
  }

  /** The classes of the rendered rows, each chosen by the row's index in the
      table and the begun flag. */
  function RowClassNames(rows: seq<DriverRowStats>, hasBegun: bool): (classes: seq<string>)
    ensures |classes| == |rows|
    ensures forall i :: 0 <= i < |rows| ==>
              classes[i] == if hasBegun && i < |PodiumClasses| then PodiumClasses[i] else ""
  {
    seq(|rows|, i requires 0 <= i < |rows| => GetClassName(i, hasBegun))
  }

  /** The highlight depends on the row's place in the table only, never on
      what the row holds, its position field included. */
  lemma RowClassNamesIgnoreContent(a: seq<DriverRowStats>, b: seq<DriverRowStats>, hasBegun: bool)
    requires |a| == |b|
    ensures RowClassNames(a, hasBegun) == RowClassNames(b, hasBegun)
  {
    var ca, cb := RowClassNames(a, hasBegun), RowClassNames(b, hasBegun);
    assert forall i :: 0 <= i < |ca| ==> ca[i] == cb[i];
  }

  /** In the standings table of a season, the row at place i is highlighted
      exactly when i is one of the first three places and the points of the
      season parse and add up to a non-zero total. */
  lemma StandingsTableHighlight(season: seq<DriverRow>, i: int)
    requires 0 <= i < |season|
    ensures var classes := RowClassNames(FormatDriverRow(season), HasSeasonBegun(season));
            classes[i] != "" <==> i < 3 && AllPointsNumeric(season) && PointsTotal(season) != 0
  {
    HasSeasonBegunIff(season);
  }
}
