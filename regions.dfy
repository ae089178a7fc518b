/** The Region enum and is_holiday. */
module Regions {
  import opened Wrappers

  /** The UK nations is_holiday can be asked about; Value and Name are the enum's value and name. */
  datatype Region = UK | England | NorthernIreland | Scotland | Wales {

    function Value(): int {
      match this
      case UK => 1
      case England => 2
      case NorthernIreland => 3
      case Scotland => 4
      case Wales => 5
    }

    /** The member's name, which is_holiday passes on as the subdivision. */
    function Name(): string {
      match this
      case UK => "UK"
      case England => "ENGLAND"
      case NorthernIreland => "NORTHERN_IRELAND"
      case Scotland => "SCOTLAND"
      case Wales => "WALES"
    }
  }

  /** Region(v): the member with value v; Python raises ValueError for any other v. */
  function FromValue(v: int): (r: Option<Region>)
    ensures r.Some? <==> 1 <= v <= 5
    ensures r.Some? ==> r.value.Value() == v
  {
    if v == 1 then Some(UK)
    else if v == 2 then Some(England)
    else if v == 3 then Some(NorthernIreland)
    else if v == 4 then Some(Scotland)
    else if v == 5 then Some(Wales)
    else None
  }

  /** Every member is found again from its value. */
  lemma FromValueRoundTrip(r: Region)
    ensures FromValue(r.Value()) == Some(r)
  {
  }

  /** Different regions have different subdivision names. */
  lemma NamesDistinct(r: Region, r': Region)
    requires r.Name() == r'.Name()
    ensures r == r'
  {
  }

  /** is_holiday's default region. */
  const DefaultRegion: Region := UK

  /**
   is_holiday(date, region): whether the date is in the public-holiday
   calendar of the region's subdivision. The calendar comes from a
   third-party library; here it is a parameter, from subdivision name to
   the set of holiday dates.
   */
  function IsHoliday<Date(==)>(date: Date, region: Region, calendar: string -> set<Date>): bool {
    date in calendar(region.Name())
  }

  /** Without a region, is_holiday asks the calendar of the "UK" subdivision. */
  lemma IsHolidayDefault<Date>(date: Date, calendar: string -> set<Date>)
    ensures IsHoliday(date, DefaultRegion, calendar) <==> date in calendar("UK")
  {
  }
}
