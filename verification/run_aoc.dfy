/** The runner's conversions between the numbers typed on the command line
    and the `Day` and `Part` enums (run_aoc/src/main.rs). */
module RunAoc {
  import opened Wrappers

  newtype u8 = x: int | 0 <= x < 256

  /** Declared in this order; `Day as u8` is the position in this list. */
  datatype Day = One | Two | Three | Four | Five | Six | Seven | Eight | Nine

  datatype InvalidDayError = InvalidDayError(value: u8)

  datatype Part = PartOne | PartTwo

  datatype InvalidPartError = InvalidPartError(value: u8)

  /** Rust's `day as u8`: the zero-based declaration index. */
  function DayDiscriminant(day: Day): u8 {
    match day
    case One => 0
    case Two => 1
    case Three => 2
    case Four => 3
    case Five => 4
    case Six => 5
    case Seven => 6
    case Eight => 7
    case Nine => 8
  }

  /** The day numbers `try_from` accepts: 1 to 9, except 4, the only one it
      rejects in that range. */
  predicate AcceptedDay(value: u8) {
    1 <= value <= 9 && value != 4
  }

  /** `TryFrom<u8> for Day`. */
  function DayTryFrom(value: u8): (r: Result<Day, InvalidDayError>)
    ensures r.Ok? <==> AcceptedDay(value)
    ensures r.Err? ==> r.error == InvalidDayError(value)
    ensures r.Ok? ==> r.value != Four
  {
    match value
    case 1 => Ok(One)
    case 2 => Ok(Two)
    case 3 => Ok(Three)
    case 5 => Ok(Five)
    case 6 => Ok(Six)
    case 7 => Ok(Seven)
    case 8 => Ok(Eight)
    case 9 => Ok(Nine)
    case _ => Err(InvalidDayError(value))
  }

  /** `From<Day> for u8`: declaration index plus one. */
  function DayToU8(day: Day): (value: u8)
    ensures 1 <= value <= 9
  {
    DayDiscriminant(day) + 1
  }

  /** Every accepted number converts to a day and back to itself. */
  lemma DayNumberRoundTrip(value: u8)
    requires AcceptedDay(value)
    ensures DayTryFrom(value).Ok?
    ensures DayToU8(DayTryFrom(value).value) == value
  {
  }

  /** Every day except `Four` converts to a number and back to itself; `Four`
      converts to 4, which `DayTryFrom` rejects. */
  lemma DayEnumRoundTrip(day: Day)
    ensures day != Four ==> DayTryFrom(DayToU8(day)) == Ok(day)
    ensures day == Four ==> DayTryFrom(DayToU8(day)) == Err(InvalidDayError(4))
  {
  }

  /** `TryFrom<u8> for Part`. */
  function PartTryFrom(value: u8): (r: Result<Part, InvalidPartError>)
    ensures r.Ok? <==> value == 1 || value == 2
    ensures r.Err? ==> r.error == InvalidPartError(value)
  {
    match value
    case 1 => Ok(PartOne)
    case 2 => Ok(PartTwo)
    case _ => Err(InvalidPartError(value))
  }

  /** `From<Part> for u8`: declaration index plus one. */
  function PartToU8(part: Part): (value: u8)
    ensures value == 1 || value == 2
  {
    match part
    case PartOne => 1
    case PartTwo => 2
  }

  /** Parts and their numbers convert into each other in both directions. */
  lemma PartRoundTrip(part: Part, value: u8)
    ensures PartTryFrom(PartToU8(part)) == Ok(part)
    ensures PartTryFrom(value).Ok? ==> PartToU8(PartTryFrom(value).value) == value
  {
  }
}
