/** The exporter-country time zones used to read COD/CODEH declaration dates.
    Instants are milliseconds since the epoch; a zone is modelled by its
    standard, fixed UTC offset. */
module Timezones {
  import opened Wrappers
  import opened JavaStrings

  datatype Zone = Zone(id: string, offsetSeconds: int)

  /** The country-code table (ISO 3166-1 alpha-2 keys). */
  const COUNTRY_TIMEZONES: map<string, Zone> := map[
    "AR" := Zone("America/Buenos_Aires", -10800),
    "BO" := Zone("America/La_Paz", -14400),
    "BR" := Zone("America/Sao_Paulo", -10800),
    "CL" := Zone("America/Santiago", -14400),
    "CO" := Zone("America/Bogota", -18000),
    "CU" := Zone("America/Havana", -18000),
    "EC" := Zone("America/Guayaquil", -18000),
    "MX" := Zone("America/Mexico_City", -21600),
    "PA" := Zone("America/Panama", -18000),
    "PY" := Zone("America/Asuncion", -10800),
    "PE" := Zone("America/Lima", -18000),
    "UY" := Zone("America/Montevideo", -10800),
    "VE" := Zone("America/Caracas", -14400)
  ]

  /** The Spanish country names accepted by the name-to-code lookup, upper case. */
  const COUNTRY_NAME_TO_CODE: map<string, string> := map[
    "ARGENTINA" := "AR",
    "BOLIVIA" := "BO",
    "BRASIL" := "BR",
    "CHILE" := "CL",
    "COLOMBIA" := "CO",
    "CUBA" := "CU",
    "ECUADOR" := "EC",
    "M\U{00C9}XICO" := "MX",
    "MEXICO" := "MX",
    "PANAM\U{00C1}" := "PA",
    "PANAMA" := "PA",
    "PARAGUAY" := "PY",
    "PER\U{00DA}" := "PE",
    "PERU" := "PE",
    "URUGUAY" := "UY",
    "VENEZUELA" := "VE"
  ]

  /** LocalDateTime.ofInstant: the wall-clock reading of an instant in a zone. */
  function LocalReading(instant: int, zone: Zone): int
  {
    instant + zone.offsetSeconds * 1000
  }

  /** LocalDateTime.atZone(...).toInstant(): the instant of a wall-clock reading. */
  function InstantOfReading(local: int, zone: Zone): int
  {
    local - zone.offsetSeconds * 1000
  }

  /** convertToUTC for a non-null date and code: the code is looked up in
      upper case; the instant is read as wall-clock time in that zone and
      re-attached to the same zone. */
  function ConvertToUtc(instant: int, countryCode: string): (r: Result<int>)
    ensures r.Ok? <==> ToUpper(countryCode) in COUNTRY_TIMEZONES
    ensures r.Ok? ==> r.value == instant
    ensures r.Err? ==> r.error == "C\U{00F3}digo de pa\U{00ED}s no soportado: " + countryCode
  {
    var code := ToUpper(countryCode);
    if code !in COUNTRY_TIMEZONES then
      Err("C\U{00F3}digo de pa\U{00ED}s no soportado: " + countryCode)
    else
      var zone := COUNTRY_TIMEZONES[code];
      Ok(InstantOfReading(LocalReading(instant, zone), zone))
  }

  /** getCountryCode for a non-null name: case-insensitive lookup of the Spanish name. */
  function GetCountryCode(countryName: string): (r: Result<string>)
    ensures r.Ok? <==> ToUpper(countryName) in COUNTRY_NAME_TO_CODE
    ensures r.Ok? ==> r.value in COUNTRY_TIMEZONES
    ensures r.Err? ==> r.error == "Pa\U{00ED}s no soportado: " + countryName
  {
    var key := ToUpper(countryName);
    if key in COUNTRY_NAME_TO_CODE then Ok(COUNTRY_NAME_TO_CODE[key])
    else Err("Pa\U{00ED}s no soportado: " + countryName)
  }

  lemma UpperOfLowerChar(c: char)
    ensures UpperChar(LowerChar(c)) == UpperChar(c)
  {
  }

  /** Upper-casing forgets any earlier lower-casing, so both lookups are
      insensitive to the case the caller used. */
  lemma UpperOfLower(s: string)
    ensures ToUpper(ToLower(s)) == ToUpper(s)
  {
    forall i | 0 <= i < |s| ensures ToUpper(ToLower(s))[i] == ToUpper(s)[i] {
      UpperOfLowerChar(s[i]);
    }
  }

  lemma CountryCodeIgnoresCase(countryName: string)
    ensures GetCountryCode(ToLower(countryName)).Ok? == GetCountryCode(countryName).Ok?
    ensures GetCountryCode(countryName).Ok? ==>
              GetCountryCode(ToLower(countryName)).value == GetCountryCode(countryName).value
  {
    UpperOfLower(countryName);
  }

  lemma ConvertIgnoresCase(instant: int, countryCode: string)
    ensures ConvertToUtc(instant, ToLower(countryCode)).Ok? == ConvertToUtc(instant, countryCode).Ok?
  {
    UpperOfLower(countryCode);
  }

  /** Accented and unaccented spellings, in any case, name the same country. */
  lemma AccentedNamesAgree()
    ensures GetCountryCode("M\U{00E9}xico") == GetCountryCode("MEXICO") == Ok("MX")
    ensures GetCountryCode("Panam\U{00E1}") == GetCountryCode("panama") == Ok("PA")
    ensures GetCountryCode("Per\U{00FA}") == GetCountryCode("Peru") == Ok("PE")
  {
    assert ToUpper("M\U{00E9}xico") == "M\U{00C9}XICO";
    assert ToUpper("MEXICO") == "MEXICO";
    assert ToUpper("Panam\U{00E1}") == "PANAM\U{00C1}";
    assert ToUpper("panama") == "PANAMA";
    assert ToUpper("Per\U{00FA}") == "PER\U{00DA}";
    assert ToUpper("Peru") == "PERU";
  }

  /** Chaining the two lookups never fails on the country. */
  lemma NameThenConvert(countryName: string, instant: int)
    requires GetCountryCode(countryName).Ok?
    ensures ConvertToUtc(instant, GetCountryCode(countryName).value) == Ok(instant)
  {
    var code := GetCountryCode(countryName).value;
    assert ToUpper(code) == code by {
      assert code in {"AR", "BO", "BR", "CL", "CO", "CU", "EC", "MX", "PA", "PY", "PE", "UY", "VE"};
    }
  }
}
