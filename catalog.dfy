/**
 * The catalog of recognised header names of an uploaded weather file, in the
 * order the service lists them.
 */
module ColumnCatalog {
  /** The recognised column names. */
  const PossibleColumnNames: seq<string> := [
    "date", "time", "parcel_location", "atmospheric_temperature", "atmospheric_temperature_daily_min",
    "atmospheric_temperature_daily_max", "atmospheric_temperature_daily_average", "atmospheric_relative_humidity",
    "atmospheric_pressure", "precipitation", "average_wind_speed", "wind_direction", "wind_gust",
    "leaf_relative_humidity", "leaf_temperature", "leaf_wetness", "soil_temperature_10cm", "soil_temperature_20cm",
    "soil_temperature_30cm", "soil_temperature_40cm", "soil_temperature_50cm", "soil_temperature_60cm",
    "solar_irradiance_copernicus"
  ]

  /** The field delimiter of an uploaded file. */
  const Delimiter: char := ';'

  /** No name occurs twice. */
  predicate Distinct(names: seq<string>)
  {
    forall i, j | 0 <= i < j < |names| :: names[i] != names[j]
  }

  /** The catalog holds 23 names. */
  lemma CatalogSize()
    ensures |PossibleColumnNames| == 23
  {
  }

  /**
   * A few facts about a name that already tell the catalog's names apart: its
   * length, its first character and its characters at positions 17 and 31.
   * Distinctness is proved on these small keys rather than on the names
   * themselves: comparing the 253 pairs of long string literals directly is
   * more work than the solver can do.
   */
  function Key(name: string): (int, char, char, char)
  {
    (|name|,
     if |name| > 0 then name[0] else ' ',
     if |name| > 17 then name[17] else ' ',
     if |name| > 31 then name[31] else ' ')
  }

  /** Names with different keys are different names. */
  lemma {:induction false} DistinctKeys(names: seq<string>)
    requires forall i, j | 0 <= i < j < |names| :: Key(names[i]) != Key(names[j])
    ensures Distinct(names)
  {
  }

  /** The key of each catalog name, in catalog order. */
  const CatalogKeys: seq<(int, char, char, char)> := [
    (4, 'd', ' ', ' '), (4, 't', ' ', ' '), (15, 'p', ' ', ' '), (23, 'a', 'r', ' '), (33, 'a', 'r', 'i'),
    (33, 'a', 'r', 'a'), (37, 'a', 'r', 'v'), (29, 'a', 'i', ' '), (20, 'a', 'u', ' '), (13, 'p', ' ', ' '),
    (18, 'a', 'd', ' '), (14, 'w', ' ', ' '), (9, 'w', ' ', ' '), (22, 'l', 'i', ' '), (16, 'l', ' ', ' '),
    (12, 'l', ' ', ' '), (21, 's', '1', ' '), (21, 's', '2', ' '), (21, 's', '3', ' '), (21, 's', '4', ' '),
    (21, 's', '5', ' '), (21, 's', '6', ' '), (27, 's', 'c', ' ')
  ]

  /** CatalogKeys is the key of each catalog name. */
  lemma CatalogKeysMatch()
    ensures |CatalogKeys| == |PossibleColumnNames|
    ensures forall i | 0 <= i < |PossibleColumnNames| :: Key(PossibleColumnNames[i]) == CatalogKeys[i]
  {
  }

  /** No two catalog keys are equal. */
  lemma CatalogKeysDistinct()
    ensures forall i, j | 0 <= i < j < |CatalogKeys| :: CatalogKeys[i] != CatalogKeys[j]
  {
  }

  /** No name is listed twice. */
  lemma CatalogDistinct()
    ensures Distinct(PossibleColumnNames)
  {
    CatalogKeysMatch();
    CatalogKeysDistinct();
    DistinctKeys(PossibleColumnNames);
  }

  /** The two mandatory columns come first. */
  lemma CatalogStartsWithDateAndTime()
    ensures PossibleColumnNames[0] == "date" && PossibleColumnNames[1] == "time"
  {
  }

  /** Leaf wetness and the parcel location are recognised columns. */
  lemma CatalogHasLeafWetnessAndParcel()
    ensures "leaf_wetness" in PossibleColumnNames && "parcel_location" in PossibleColumnNames
  {
  }

  /**
   * Names 0 to 5 hold no delimiter. The catalog is checked in four blocks
   * so that the solver scans a few names at a time, not all 23 at once.
   */
  lemma NoDelimiterInBlock0()
    ensures forall i | 0 <= i < 6 :: Delimiter !in PossibleColumnNames[i]
  {
    assert Delimiter !in PossibleColumnNames[0];
    assert Delimiter !in PossibleColumnNames[1];
    assert Delimiter !in PossibleColumnNames[2];
    assert Delimiter !in PossibleColumnNames[3];
    assert Delimiter !in PossibleColumnNames[4];
    assert Delimiter !in PossibleColumnNames[5];
  }

  /** Names 6 to 11 hold no delimiter. */
  lemma NoDelimiterInBlock1()
    ensures forall i | 6 <= i < 12 :: Delimiter !in PossibleColumnNames[i]
  {
    assert Delimiter !in PossibleColumnNames[6];
    assert Delimiter !in PossibleColumnNames[7];
    assert Delimiter !in PossibleColumnNames[8];
    assert Delimiter !in PossibleColumnNames[9];
    assert Delimiter !in PossibleColumnNames[10];
    assert Delimiter !in PossibleColumnNames[11];
  }

  /** Names 12 to 17 hold no delimiter. */
  lemma NoDelimiterInBlock2()
    ensures forall i | 12 <= i < 18 :: Delimiter !in PossibleColumnNames[i]
  {
    assert Delimiter !in PossibleColumnNames[12];
    assert Delimiter !in PossibleColumnNames[13];
    assert Delimiter !in PossibleColumnNames[14];
    assert Delimiter !in PossibleColumnNames[15];
    assert Delimiter !in PossibleColumnNames[16];
    assert Delimiter !in PossibleColumnNames[17];
  }

  /** Names 18 to 22 hold no delimiter. */
  lemma NoDelimiterInBlock3()
    ensures forall i | 18 <= i < 23 :: Delimiter !in PossibleColumnNames[i]
  {
    assert Delimiter !in PossibleColumnNames[18];
    assert Delimiter !in PossibleColumnNames[19];
    assert Delimiter !in PossibleColumnNames[20];
    assert Delimiter !in PossibleColumnNames[21];
    assert Delimiter !in PossibleColumnNames[22];
  }

  /** No name contains the delimiter, so each can stand as one header cell. */
  lemma NoDelimiterInNames()
    ensures forall i | 0 <= i < |PossibleColumnNames| :: Delimiter !in PossibleColumnNames[i]
  {
    NoDelimiterInBlock0();
    NoDelimiterInBlock1();
    NoDelimiterInBlock2();
    NoDelimiterInBlock3();
  }
}
