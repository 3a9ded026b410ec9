/** The record types of the service (src/models/): substitutions, news
    messages and the configuration. */
module Models {
  import opened Results
  import opened Dates

  /** One class-period's change of teacher or room on one day. Dafny's
      structural equality covers all seven fields, as the record's
      `__hash__` does. */
  datatype Substitution = Substitution(
    className: string,
    period: string,
    absentTeacher: string,
    substitutionTeacher: string,
    room: string,
    info: string,
    date: Date)

  datatype NewsMessage = NewsMessage(message: string, date: Date)

  /** How many days to fetch, whether the page carries a news column, and
      the refresh interval in minutes (defaults 3, true and 5). */
  datatype Config = Config(days: int, showNews: bool, refreshInterval: int)

  /** The last-update timestamp of the portal, when one was found. */
  datatype LastUpdated = LastUpdated(lastUpdate: Option<DateTime>, hasDate: bool)

  /** The text fields a substitution can be filtered on by name. */
  datatype Field = ClassName | Period | AbsentTeacher | SubstitutionTeacher | Room | Info

  function FieldValue(s: Substitution, f: Field): string {
    match f
    case ClassName => s.className
    case Period => s.period
    case AbsentTeacher => s.absentTeacher
    case SubstitutionTeacher => s.substitutionTeacher
    case Room => s.room
    case Info => s.info
  }

  /** The record built from a row of at least six values with the given class. */
  function Record(values: seq<string>, className: string, date: Date): Substitution
    requires |values| >= 6
  {
    Substitution(className, values[1], values[2], values[3], values[4], values[5], date)
  }

  /** `Substitution.from_array(values, date)`. */
  function FromArray(values: seq<string>, date: Date): (r: Result<Substitution>)
    ensures r.Err? <==> |values| < 6
    ensures r.Err? ==> r.error == ValueError
    ensures r.Ok? ==> r.value.className == values[0] && r.value.date == date
    ensures r.Ok? ==> r.value.period == values[1] && r.value.absentTeacher == values[2]
    ensures r.Ok? ==> r.value.substitutionTeacher == values[3] && r.value.room == values[4]
    ensures r.Ok? ==> r.value.info == values[5]
  {
    if |values| < 6 then Err(ValueError) else Ok(Record(values, values[0], date))
  }

  /** `Substitution.from_array_with_class_name(values, class_name, date)`. */
  function FromArrayWithClassName(values: seq<string>, className: string, date: Date): (r: Result<Substitution>)
    ensures r.Err? <==> |values| < 6
    ensures r.Err? ==> r.error == ValueError
    ensures r.Ok? ==> r.value.className == className && r.value.date == date
    ensures r.Ok? ==> r.value.period == values[1] && r.value.absentTeacher == values[2]
    ensures r.Ok? ==> r.value.substitutionTeacher == values[3] && r.value.room == values[4]
    ensures r.Ok? ==> r.value.info == values[5]
  {
    if |values| < 6 then Err(ValueError) else Ok(Record(values, className, date))
  }

  /** Values after the sixth are never read by either constructor. */
  lemma ExtraValuesIgnored(values: seq<string>, extra: seq<string>, className: string, date: Date)
    requires |values| >= 6
    ensures FromArray(values + extra, date) == FromArray(values, date)
    ensures FromArrayWithClassName(values + extra, className, date) == FromArrayWithClassName(values, className, date)
  {
    var all := values + extra;
    assert all[..6] == values[..6];
    assert all[0] == values[0] && all[1] == values[1] && all[2] == values[2];
    assert all[3] == values[3] && all[4] == values[4] && all[5] == values[5];
  }

  /** With an explicit class name the first value is never read: the result
      is `from_array` on the list whose first value is that class name. */
  lemma WithClassNameReplacesFirst(values: seq<string>, className: string, date: Date)
    requires |values| >= 1
    ensures FromArrayWithClassName(values, className, date) == FromArray([className] + values[1..], date)
  {
    var v := [className] + values[1..];
    if |values| >= 6 {
      assert v[1] == values[1] && v[2] == values[2] && v[3] == values[3];
      assert v[4] == values[4] && v[5] == values[5];
    }
  }
}
